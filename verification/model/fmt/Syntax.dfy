/**
 The documented syntax of a directive as a tree, what the tree means, and that the
 parser reads back every tree that was written out: which argument an index, a star
 and a verb select, and what flags, width and precision come to.
 */
module Syntax {
  import opened Common
  import opened Utf8
  import opened Occurrence
  import opened Numerals
  import opened Directives
  import DirectiveProofs

  /** A width or a precision: left out, a number, or a star whose argument may be
      chosen by an index, counted from one. */
  datatype Amount = Absent | Number(n: nat) | Star(index: Option<nat>)

  /** % flags width . precision [index] verb; the precision is there if dot is set. */
  datatype Spec = Spec(flags: seq<Byte>, width: Amount, dot: bool, prec: Amount, index: Option<nat>, verb: Byte)

  // ----- writing it out

  function Digits(n: nat): seq<Byte> { Numeral(n, 10, false) }

  function IndexText(index: Option<nat>): seq<Byte> {
    if index.None? then [] else [OPEN] + Digits(index.value) + [CLOSE]
  }

  function AmountText(w: Amount): seq<Byte> {
    match w
    case Absent => []
    case Number(n) => Digits(n)
    case Star(index) => IndexText(index) + [STAR]
  }

  function PrecText(d: Spec): seq<Byte> { if d.dot then [DOT] + AmountText(d.prec) else [] }

  function Text(d: Spec): seq<Byte> {
    [PERCENT] + (d.flags + (AmountText(d.width) + (PrecText(d) + (IndexText(d.index) + [d.verb]))))
  }

  predicate IsVerb(c: Byte) { 65 <= c <= 90 || 97 <= c <= 122 || c == PERCENT }

  // numbers are within what a format can name; a width does not begin with the flag 0
  predicate WellFormed(d: Spec) {
    && (forall k :: 0 <= k < |d.flags| ==> IsFlag(d.flags[k]))
    && (d.width.Number? ==> 1 <= d.width.n <= MAX_NUM) && (d.prec.Number? ==> d.prec.n <= MAX_NUM)
    && IsVerb(d.verb)
  }

  // ----- what it means

  // an index names one of the arguments, counted from one
  predicate Names(index: Option<nat>, args: nat) {
    index.Some? ==> 1 <= index.value <= args && index.value <= MAX_NUM
  }

  // the argument that comes next, counted from zero
  function Chosen(index: Option<nat>, args: nat, next: nat): nat {
    if index.Some? && Names(index, args) then index.value - 1 else next
  }

  // the argument is an integer of magnitude up to a million
  predicate Usable(a: seq<Arg>, n: nat) { n < |a| && a[n].Int? && -1_000_000 <= a[n].n <= 1_000_000 }

  // a star consumes its argument, if there is one
  function Consumed(w: Amount, a: seq<Arg>, next: nat): nat {
    if !w.Star? then next
    else
      var n := Chosen(w.index, |a|, next);
      if n < |a| then n + 1 else n
  }

  predicate AmountNames(w: Amount, args: nat) { w.Star? ==> Names(w.index, args) }

  // the flags and the width
  function Widened(w: Amount, a: seq<Arg>, next: nat, o: Options): Options {
    match w
    case Absent => o.(f := o.f.(widPresent := false), wid := 0)
    case Number(n) => o.(f := o.f.(widPresent := true), wid := n)
    case Star(index) =>
      var k := Chosen(index, |a|, next);
      if !Usable(a, k) then o.(f := o.f.(widPresent := false), wid := 0, bad := o.bad + [BadWidth])
      else if a[k].n >= 0 then o.(f := o.f.(widPresent := true), wid := a[k].n)
      else o.(f := o.f.(widPresent := true, minus := true, zero := false), wid := -a[k].n)
  }

  // the precision after a dot
  function Sharpened(w: Amount, a: seq<Arg>, next: nat, o: Options): Options {
    match w
    case Absent => o.(f := o.f.(precPresent := true), prec := 0)
    case Number(n) => o.(f := o.f.(precPresent := true), prec := n)
    case Star(index) =>
      var k := Chosen(index, |a|, next);
      if !Usable(a, k) || a[k].n < 0 then o.(f := o.f.(precPresent := false), prec := 0, bad := o.bad + [BadPrec])
      else o.(f := o.f.(precPresent := true), prec := a[k].n)
  }

  function FlagsOf(flags: seq<Byte>): Flags {
    Flags(false, false, '-' as int in flags, '+' as int in flags, '#' as int in flags, ' ' as int in flags,
          '0' as int in flags)
  }

  /** What the directive prints, given the argument that comes next. */
  function Meaning(d: Spec, a: seq<Arg>, start: nat, next: nat): Outcome {
    var o := Widened(d.width, a, next, Options(FlagsOf(d.flags), 0, 0, []));
    var n := Consumed(d.width, a, next);
    var o' := if d.dot then Sharpened(d.prec, a, n, o) else o;
    var n' := if d.dot then Consumed(d.prec, a, n) else n;
    var arg, to := Chosen(d.index, |a|, n'), start + |Text(d)|;
    var e :=
      if d.verb == PERCENT then Percent(start, to)
      else if !AmountNames(d.width, |a|) || (d.dot && !AmountNames(d.prec, |a|)) || !Names(d.index, |a|) then
        BadIndex(d.verb, start, to)
      else if arg >= |a| then Missing(d.verb, start, to)
      else Print(arg, d.verb, VerbFlags(d.verb, o'.f), o'.wid, o'.prec, start, to);
    Outcome(o'.bad + [e], to, if e.Print? then arg + 1 else arg)
  }

  // ----- reading it back: numbers and indices

  lemma {:induction false} DigitsStop(s: seq<Byte>, i: nat, e: nat, end: nat)
    requires i <= e <= end <= |s| && (forall k :: i <= k < e ==> IsDecimal(s[k])) && (e < end ==> !IsDecimal(s[e]))
    ensures DigitsEnd(s, i, end) == e
    decreases e - i
  {
    if i < e { DigitsStop(s, i + 1, e, end); }
  }

  // all proper fronts of a numeral are at most a tenth of it, and the longest is
  lemma FrontOfNumeral(n: nat, k: nat)
    requires 0 < k < |Digits(n)|
    ensures Value(Digits(n)[..k], 10) <= n / 10
    ensures k == |Digits(n)| - 1 ==> Value(Digits(n)[..k], 10) == n / 10
  {
    assert n >= 10;
    var high := Digits(n / 10);
    assert Digits(n)[..|Digits(n)| - 1] == high;
    NumeralValue(n / 10, 10, false);
    assert Digits(n)[..k] == high[..k];
    assert high[..|high|] == high;
    hide Numeral, Digits;
    DirectiveProofs.PrefixIsSmaller(high, k);
  }

  // a number that stands at start is read; one that is too large is not
  lemma NumberAt(s: seq<Byte>, start: nat, end: nat, n: nat)
    requires At(s, start, Digits(n)) && start + |Digits(n)| <= end <= |s|
    requires start + |Digits(n)| < end ==> !IsDecimal(s[start + |Digits(n)|])
    ensures NumberIn(s, start, end) ==
            if n <= MAX_NUM then Num(n, true, start + |Digits(n)|) else Num(0, false, end)
  {
    var ds := Digits(n);
    var e := start + |ds|;
    DirectiveProofs.NumeralIsDecimal(n);
    NumeralValue(n, 10, false);
    assert |ds| > 0;
    hide Numeral;
    assert s[start..e] == ds;
    forall k | start <= k < e ensures s[k] == ds[k - start] { AtByte(s, start, ds, k - start); }
    DigitsStop(s, start, e, end);
    forall k | start < k < e ensures s[start..k] == ds[..k - start] && Value(s[start..k], 10) <= n / 10 {
      FrontOfNumeral(n, k - start);
    }
    if n > MAX_NUM {
      TwoDigits(n);
      FrontOfNumeral(n, |ds| - 1);
      assert s[start..e - 1] == ds[..|ds| - 1];
      assert TooLarge(Value(s[start..e - 1], 10)) && forall j :: start <= j <= e - 1 ==> IsDecimal(s[j]);
    } else {
      hide Value, Digits;
      assert !Overflows(s, start, end);
    }
  }

  lemma TwoDigits(n: nat)
    requires n >= 10
    ensures |Digits(n)| > 1
  {
  }

  lemma CloseAfter(t: seq<Byte>, k: nat)
    requires |Digits(k)| + 1 < |t| && At(t, 1, Digits(k)) && t[1 + |Digits(k)|] == CLOSE
    ensures IndexByte(t[1..], CLOSE) == |Digits(k)|
  {
    DirectiveProofs.NumeralIsDecimal(k);
    var ds := Digits(k);
    assert forall j :: 0 <= j < |ds| ==> IsDecimal(ds[j]);
    hide Numeral, Digits;
    assert t[1..][|ds|] == CLOSE;
    forall j | 0 <= j < |ds| ensures t[1..][j] != CLOSE { AtByte(t, 1, ds, j); }
  }

  lemma BracketRead(t: seq<Byte>, k: nat)
    requires At(t, 0, IndexText(Some(k)))
    ensures BracketAt(t) ==
            if k <= MAX_NUM then Bracket(k - 1, |Digits(k)| + 2, true) else Bracket(0, |Digits(k)| + 2, false)
  {
    var ds, x := Digits(k), IndexText(Some(k));
    assert |ds| > 0;
    AtByte(t, 0, x, |x| - 1);
    assert t[1..1 + |ds|] == ds by { assert x[1..1 + |ds|] == ds && t[0..|x|][1..1 + |ds|] == t[1..1 + |ds|]; }
    hide Numeral, Digits;
    CloseAfter(t, k);
    NumberAt(t, 1, 1 + |ds|, k);
    hide NumberIn;
  }

  lemma IndexAt(format: seq<Byte>, c: Cursor, args: nat, index: Option<nat>)
    requires c.i < |format| && At(format, c.i, IndexText(index)) && (index.None? ==> format[c.i] != OPEN)
    ensures AfterIndex(format, c, args) ==
            Cursor(c.i + |IndexText(index)|, Chosen(index, args, c.argNum), index.Some? && index.value <= MAX_NUM,
                   c.good && Names(index, args))
  {
    if index.Some? {
      var x := IndexText(index);
      assert At(format[c.i..], 0, x) by { assert format[c.i..][0..|x|] == format[c.i..c.i + |x|]; }
      BracketRead(format[c.i..], index.value);
      AtByte(format, c.i, x, 0);
      hide BracketAt, Digits;
    }
  }

  // ----- widths and precisions

  // what stands at i is neither a digit nor a star
  predicate NoAmount(format: seq<Byte>, i: nat) { i < |format| && !IsDecimal(format[i]) && format[i] != STAR }

  predicate AmountAt(format: seq<Byte>, i: nat, w: Amount) {
    && At(format, i, AmountText(w)) && i + |AmountText(w)| < |format|
    && !IsDecimal(format[i + |AmountText(w)|])
  }

  lemma NumberFound(format: seq<Byte>, i: nat, n: nat)
    requires AmountAt(format, i, Number(n)) && n <= MAX_NUM
    ensures NumberIn(format, i, |format|) == Num(n, true, i + |Digits(n)|)
    ensures IsDecimal(format[i])
  {
    NumberAt(format, i, |format|, n);
    DirectiveProofs.NumeralIsDecimal(n);
    assert |Digits(n)| > 0 && IsDecimal(Digits(n)[0]);
    hide Numeral, Digits;
    AtByte(format, i, Digits(n), 0);
  }

  // an index and then the star
  lemma StarFound(format: seq<Byte>, c: Cursor, args: nat, index: Option<nat>)
    requires AmountAt(format, c.i, Star(index))
    ensures AfterIndex(format, c, args) ==
            Cursor(c.i + |IndexText(index)|, Chosen(index, args, c.argNum), index.Some? && index.value <= MAX_NUM,
                   c.good && Names(index, args))
    ensures StarAt(format, c.i + |IndexText(index)|)
  {
    var x := IndexText(index);
    assert AmountText(Star(index)) == x + [STAR];
    AtByte(format, c.i, x + [STAR], |x|);
    assert At(format, c.i, x) by {
      assert format[c.i..c.i + |x|] == format[c.i..c.i + |x| + 1][..|x|];
      assert (x + [STAR])[..|x|] == x;
    }
    hide IndexText;
    IndexAt(format, c, args, index);
  }

  lemma StarWidens(a: seq<Arg>, index: Option<nat>, next: nat, o: Options)
    ensures StarWidth(StarArg(a, Chosen(index, |a|, next)), o) == Widened(Star(index), a, next, o)
    ensures NextArg(a, Chosen(index, |a|, next)) == Consumed(Star(index), a, next)
  {
    hide Names, Chosen;
  }

  lemma StarSharpens(a: seq<Arg>, index: Option<nat>, next: nat, o: Options)
    ensures StarPrec(StarArg(a, Chosen(index, |a|, next)), o) == Sharpened(Star(index), a, next, o)
    ensures NextArg(a, Chosen(index, |a|, next)) == Consumed(Star(index), a, next)
  {
    hide Names, Chosen;
  }

  lemma WidthAt(format: seq<Byte>, a: seq<Arg>, c: Cursor, o: Options, w: Amount)
    requires AmountAt(format, c.i, w) && !w.Absent? && (w.Number? ==> w.n <= MAX_NUM)
    ensures c.i <= |format|
    ensures AfterWidth(format, a, AfterIndex(format, c, |a|), o) ==
            Parsed(Cursor(c.i + |AmountText(w)|, Consumed(w, a, c.argNum), false,
                          c.good && AmountNames(w, |a|)),
                   Widened(w, a, c.argNum, o))
  {
    if w.Number? {
      NumberFound(format, c.i, w.n);
      hide NumberIn, Digits;
    } else {
      StarFound(format, c, |a|, w.index);
      StarWidens(a, w.index, c.argNum, o);
      hide AfterIndex, IndexText, Names, Chosen, Consumed, Widened, StarWidth, StarArg, NextArg, AmountAt;
    }
  }

  lemma NoWidthAt(format: seq<Byte>, a: seq<Arg>, c: Cursor, o: Options)
    requires NoAmount(format, c.i)
    ensures AfterWidth(format, a, c, o) == Parsed(c, Widened(Absent, a, c.argNum, o))
  {
  }

  lemma PrecAt(format: seq<Byte>, a: seq<Arg>, c: Cursor, o: Options, w: Amount)
    requires AmountAt(format, c.i, w) && !w.Absent? && (w.Number? ==> w.n <= MAX_NUM)
    ensures c.i <= |format|
    ensures AfterPrecNumber(format, a, AfterIndex(format, c, |a|), o) ==
            Parsed(Cursor(c.i + |AmountText(w)|, Consumed(w, a, c.argNum), false,
                          c.good && AmountNames(w, |a|)),
                   Sharpened(w, a, c.argNum, o))
  {
    if w.Number? {
      NumberFound(format, c.i, w.n);
      hide NumberIn, Digits;
    } else {
      StarFound(format, c, |a|, w.index);
      StarSharpens(a, w.index, c.argNum, o);
      hide AfterIndex, IndexText, Names, Chosen, Consumed, Sharpened, StarPrec, StarArg, NextArg, AmountAt;
    }
  }

  lemma NoPrecAt(format: seq<Byte>, a: seq<Arg>, c: Cursor, o: Options)
    requires NoAmount(format, c.i)
    ensures AfterPrecNumber(format, a, c, o) == Parsed(c, Sharpened(Absent, a, c.argNum, o))
  {
  }

  // ----- all the options

  // index and verb stand at i
  predicate EndAt(format: seq<Byte>, i: nat, d: Spec) {
    && At(format, i, IndexText(d.index)) && i + |IndexText(d.index)| < |format|
    && format[i + |IndexText(d.index)|] == d.verb && IsVerb(d.verb)
  }

  lemma EndByte(format: seq<Byte>, i: nat, d: Spec)
    requires EndAt(format, i, d)
    ensures i < |format| && format[i] == (if d.index.Some? then OPEN else d.verb) && format[i] != DOT
  {
    if d.index.Some? { AtByte(format, i, IndexText(d.index), 0); }
  }

  // the index before the verb
  lemma LastIndex(format: seq<Byte>, a: seq<Arg>, c: Cursor, d: Spec)
    requires EndAt(format, c.i, d)
    ensures AfterIndex(format, c, |a|) ==
            Cursor(c.i + |IndexText(d.index)|, Chosen(d.index, |a|, c.argNum),
                   d.index.Some? && d.index.value <= MAX_NUM, c.good && Names(d.index, |a|))
  {
    EndByte(format, c.i, d);
    hide IndexText;
    IndexAt(format, c, |a|, d.index);
  }

  // no index at the verb
  lemma VerbNoIndex(format: seq<Byte>, args: nat, c: Cursor)
    requires c.i < |format| && IsVerb(format[c.i])
    ensures AfterIndex(format, c, args) == c.(afterIndex := false) && NoAmount(format, c.i)
  {
  }

  predicate Stopped(p: Parsed, i: nat, argNum: nat, good: bool, o: Options) {
    p.c.i == i && p.c.argNum == argNum && p.c.good == good && p.o == o
  }

  lemma OptionsBare(format: seq<Byte>, a: seq<Arg>, c: Cursor, o: Options, d: Spec)
    requires !d.dot && d.width.Absent? && EndAt(format, c.i, d)
    ensures c.i <= |format|
    ensures Stopped(AfterOptions(format, a, c, o), c.i + |IndexText(d.index)|,
                    Chosen(d.index, |a|, c.argNum), c.good && Names(d.index, |a|), Widened(Absent, a, c.argNum, o))
  {
    LastIndex(format, a, c, d);
    var c1 := AfterIndex(format, c, |a|);
    VerbNoIndex(format, |a|, c1);
    NoWidthAt(format, a, c1, o);
    hide AfterIndex, AfterWidth, IndexText, Names, Chosen;
  }

  lemma OptionsWide(format: seq<Byte>, a: seq<Arg>, c: Cursor, o: Options, d: Spec)
    requires !d.dot && !d.width.Absent? && AmountAt(format, c.i, d.width) && (d.width.Number? ==> d.width.n <= MAX_NUM)
    requires EndAt(format, c.i + |AmountText(d.width)|, d)
    ensures c.i <= |format|
    ensures Stopped(AfterOptions(format, a, c, o), c.i + |AmountText(d.width)| + |IndexText(d.index)|,
                    Chosen(d.index, |a|, Consumed(d.width, a, c.argNum)),
                    c.good && AmountNames(d.width, |a|) && Names(d.index, |a|),
                    Widened(d.width, a, c.argNum, o))
  {
    hide AfterIndex, AfterWidth, IndexText, AmountText, Names, AmountNames, Chosen, Consumed, Widened, AmountAt, EndAt;
    WidthAt(format, a, c, o, d.width);
    EndByte(format, c.i + |AmountText(d.width)|, d);
    var w := AfterWidth(format, a, AfterIndex(format, c, |a|), o);
    LastIndex(format, a, w.c, d);
  }

  // what stands after the dot, from i on
  predicate PrecEndAt(format: seq<Byte>, i: nat, d: Spec) {
    AmountAt(format, i, d.prec) && EndAt(format, i + |AmountText(d.prec)|, d)
  }

  lemma AmountInside(format: seq<Byte>, i: nat, w: Amount)
    requires AmountAt(format, i, w)
    ensures i < |format|
  {
  }

  // from the dot to the verb
  lemma FromDot(format: seq<Byte>, a: seq<Arg>, c: Cursor, o: Options, d: Spec)
    requires !d.prec.Absent? && (d.prec.Number? ==> d.prec.n <= MAX_NUM) && !c.afterIndex
    requires c.i < |format| && format[c.i] == DOT && PrecEndAt(format, c.i + 1, d)
    ensures var p := AfterPrec(format, a, c, o);
            && Stopped(p, c.i + 1 + |AmountText(d.prec)|, Consumed(d.prec, a, c.argNum),
                       c.good && AmountNames(d.prec, |a|), Sharpened(d.prec, a, c.argNum, o))
            && !p.c.afterIndex
  {
    hide AfterIndex, AfterPrecNumber, AmountText, IndexText, AmountNames, Consumed, Sharpened, EndAt, AmountAt;
    PrecAt(format, a, Cursor(c.i + 1, c.argNum, false, c.good), o, d.prec);
    AmountInside(format, c.i + 1, d.prec);
  }

  lemma EndVerb(format: seq<Byte>, i: nat, d: Spec)
    requires EndAt(format, i, d)
    ensures i + |IndexText(d.index)| < |format| && format[i + |IndexText(d.index)|] == d.verb && IsVerb(d.verb)
  {
  }

  lemma NothingThere(a: seq<Arg>, n: nat, m: nat, o: Options)
    ensures AmountText(Absent) == [] && Consumed(Absent, a, n) == n && AmountNames(Absent, |a|)
    ensures Sharpened(Absent, a, n, o) == Sharpened(Absent, a, m, o)
    ensures Widened(Absent, a, n, o) == Widened(Absent, a, m, o)
  {
  }

  // a dot without a number or star, to the verb
  lemma FromBareDot(format: seq<Byte>, a: seq<Arg>, c: Cursor, o: Options, d: Spec)
    requires d.prec.Absent? && !c.afterIndex && c.i < |format| && format[c.i] == DOT && EndAt(format, c.i + 1, d)
    ensures Stopped(AfterPrec(format, a, c, o), c.i + 1 + |IndexText(d.index)|,
                    Chosen(d.index, |a|, c.argNum), c.good && Names(d.index, |a|), Sharpened(Absent, a, c.argNum, o))
  {
    hide AfterIndex, AfterPrecNumber, IndexText, Names, Chosen, Sharpened, EndAt, IsVerb, NoAmount;
    var c1 := Cursor(c.i + 1, c.argNum, false, c.good);
    EndVerb(format, c.i + 1, d);
    LastIndex(format, a, c1, d);
    var c2 := AfterIndex(format, c1, |a|);
    VerbNoIndex(format, |a|, c2);
    NoPrecAt(format, a, c2, o);
    NothingThere(a, c2.argNum, c.argNum, o);
  }

  // the rest of the options when a dot stands at c.i and no index before it
  lemma DotAndIndex(format: seq<Byte>, a: seq<Arg>, c: Cursor, o: Options, d: Spec)
    requires (d.prec.Number? ==> d.prec.n <= MAX_NUM) && !c.afterIndex
    requires c.i < |format| && format[c.i] == DOT && PrecEndAt(format, c.i + 1, d)
    ensures var p := AfterPrec(format, a, c, o);
            Stopped(if p.c.afterIndex then p else Parsed(AfterIndex(format, p.c, |a|), p.o),
                    c.i + 1 + |AmountText(d.prec)| + |IndexText(d.index)|,
                    Chosen(d.index, |a|, Consumed(d.prec, a, c.argNum)),
                    c.good && AmountNames(d.prec, |a|) && Names(d.index, |a|),
                    Sharpened(d.prec, a, c.argNum, o))
  {
    hide AfterPrec, AfterIndex, IndexText, Names, AmountNames, AmountText, Chosen, Consumed, Sharpened, EndAt, AmountAt;
    var p := AfterPrec(format, a, c, o);
    if d.prec.Absent? {
      NothingThere(a, c.argNum, c.argNum, o);
      FromBareDot(format, a, c, o, d);
      EndVerb(format, c.i + 1, d);
      VerbNoIndex(format, |a|, p.c);
    } else {
      FromDot(format, a, c, o, d);
      LastIndex(format, a, p.c, d);
    }
  }

  lemma OptionsDot(format: seq<Byte>, a: seq<Arg>, c: Cursor, o: Options, d: Spec)
    requires d.dot && WellFormed(d) && !c.afterIndex && AmountAt(format, c.i, d.width)
    requires format[c.i + |AmountText(d.width)|] == DOT && PrecEndAt(format, c.i + |AmountText(d.width)| + 1, d)
    ensures c.i <= |format|
    ensures Stopped(AfterOptions(format, a, c, o),
                    c.i + |AmountText(d.width)| + 1 + |AmountText(d.prec)| + |IndexText(d.index)|,
                    Chosen(d.index, |a|, Consumed(d.prec, a, Consumed(d.width, a, c.argNum))),
                    c.good && AmountNames(d.width, |a|) && AmountNames(d.prec, |a|) && Names(d.index, |a|),
                    Sharpened(d.prec, a, Consumed(d.width, a, c.argNum), Widened(d.width, a, c.argNum, o)))
  {
    hide AfterIndex, AfterWidth, AfterPrec, IndexText, AmountText, Names, AmountNames, Chosen, Consumed, Sharpened;
    hide Widened, PrecEndAt, EndAt;
    var w := AfterWidth(format, a, AfterIndex(format, c, |a|), o);
    if d.width.Absent? {
      NothingThere(a, c.argNum, c.argNum, o);
      DotNoIndex(format, |a|, c);
      NoWidthAt(format, a, c, o);
      DotAndIndex(format, a, c, w.o, d);
    } else {
      WidthAt(format, a, c, o, d.width);
      DotAndIndex(format, a, w.c, w.o, d);
    }
  }

  lemma DotNoIndex(format: seq<Byte>, args: nat, c: Cursor)
    requires c.i < |format| && format[c.i] == DOT && !c.afterIndex
    ensures AfterIndex(format, c, args) == c && NoAmount(format, c.i)
  {
  }

  // ----- the whole directive

  lemma FlagsRead(format: seq<Byte>, i: nat, flags: seq<Byte>)
    requires At(format, i, flags) && (forall k :: 0 <= k < |flags| ==> IsFlag(flags[k]))
    requires i + |flags| < |format| && !IsFlag(format[i + |flags|])
    ensures FlagsEnd(format, i) == i + |flags| && FlagsIn(format[i..i + |flags|]) == FlagsOf(flags)
  {
    forall k | i <= k < i + |flags| ensures IsFlag(format[k]) { AtByte(format, i, flags, k - i); }
    FlagsStop(format, i, i + |flags|);
  }

  lemma {:induction false} FlagsStop(format: seq<Byte>, i: nat, e: nat)
    requires i <= e < |format| && (forall k :: i <= k < e ==> IsFlag(format[k])) && !IsFlag(format[e])
    ensures FlagsEnd(format, i) == e
    decreases e - i
  {
    if i < e { FlagsStop(format, i + 1, e); }
  }

  // where the parts of the directive stand
  predicate PartsAt(format: seq<Byte>, p: nat, d: Spec) {
    && At(format, p, AmountText(d.width)) && At(format, p + |AmountText(d.width)|, PrecText(d))
    && EndAt(format, p + |AmountText(d.width)| + |PrecText(d)|, d)
  }

  lemma Split(format: seq<Byte>, p: nat, x: seq<Byte>, y: seq<Byte>)
    requires At(format, p, x + y)
    ensures At(format, p, x) && At(format, p + |x|, y)
  {
    assert format[p..p + |x + y|] == x + y;
    assert format[p..p + |x|] == (x + y)[..|x|] && format[p + |x|..p + |x| + |y|] == (x + y)[|x|..];
  }

  lemma FindParts(format: seq<Byte>, start: nat, d: Spec)
    requires At(format, start, Text(d)) && IsVerb(d.verb)
    ensures start < |format| && format[start] == PERCENT && At(format, start + 1, d.flags)
    ensures PartsAt(format, start + 1 + |d.flags|, d)
    ensures |Text(d)| == 2 + |d.flags| + |AmountText(d.width)| + |PrecText(d)| + |IndexText(d.index)|
  {
    hide AmountText, PrecText, IndexText, At;
    var x := IndexText(d.index);
    var y := PrecText(d) + (x + [d.verb]);
    var i := start + 1 + |d.flags|;
    Split(format, start, [PERCENT], d.flags + (AmountText(d.width) + y));
    Split(format, start + 1, d.flags, AmountText(d.width) + y);
    Split(format, i, AmountText(d.width), y);
    i := i + |AmountText(d.width)|;
    Split(format, i, PrecText(d), x + [d.verb]);
    i := i + |PrecText(d)|;
    Split(format, i, x, [d.verb]);
    OneByte(format, start, PERCENT);
    OneByte(format, i + |x|, d.verb);
  }

  lemma OneByte(format: seq<Byte>, i: nat, c: Byte)
    requires At(format, i, [c])
    ensures i < |format| && format[i] == c
  {
    AtByte(format, i, [c], 0);
  }

  // the first byte of the rest of a directive: no digit and no flag
  lemma RestByte(format: seq<Byte>, i: nat, d: Spec)
    requires At(format, i, PrecText(d)) && EndAt(format, i + |PrecText(d)|, d)
    ensures i < |format| && !IsDecimal(format[i]) && !IsFlag(format[i])
    ensures d.dot ==> format[i] == DOT
    ensures !d.dot ==> format[i] == if d.index.Some? then OPEN else d.verb
  {
    EndByte(format, i + |PrecText(d)|, d);
    EndVerb(format, i + |PrecText(d)|, d);
    if d.dot { AtByte(format, i, PrecText(d), 0); }
  }

  lemma WidthPlaced(format: seq<Byte>, p: nat, d: Spec)
    requires PartsAt(format, p, d)
    ensures AmountAt(format, p, d.width)
  {
    hide AmountText, PrecText, IndexText, EndAt, At;
    RestByte(format, p + |AmountText(d.width)|, d);
  }

  lemma PrecSplit(format: seq<Byte>, i: nat, d: Spec)
    requires At(format, i, PrecText(d)) && d.dot
    ensures |PrecText(d)| == 1 + |AmountText(d.prec)| && At(format, i + 1, AmountText(d.prec))
  {
    hide AmountText, At;
    Split(format, i, [DOT], AmountText(d.prec));
  }

  lemma PrecPlaced(format: seq<Byte>, p: nat, d: Spec)
    requires PartsAt(format, p, d) && d.dot
    ensures p + |AmountText(d.width)| < |format| && format[p + |AmountText(d.width)|] == DOT
    ensures PrecEndAt(format, p + |AmountText(d.width)| + 1, d) && |PrecText(d)| == 1 + |AmountText(d.prec)|
  {
    hide AmountText, PrecText, IndexText, EndAt, At;
    var i := p + |AmountText(d.width)|;
    RestByte(format, i, d);
    PrecSplit(format, i, d);
    EndByte(format, i + |PrecText(d)|, d);
    EndVerb(format, i + |PrecText(d)|, d);
    assert AmountAt(format, i + 1, d.prec);
    hide AmountAt;
  }

  // a width begins with a nonzero digit, a bracket or a star
  lemma WidthByte(format: seq<Byte>, p: nat, w: Amount)
    requires At(format, p, AmountText(w)) && !w.Absent? && (w.Number? ==> w.n >= 1)
    ensures p < |format| && !IsFlag(format[p]) && !SimpleAt(format, p)
  {
    if w.Number? { NoLeadingZero(w.n); }
    assert |AmountText(w)| > 0;
    AtByte(format, p, AmountText(w), 0);
  }

  lemma {:induction false} NoLeadingZero(n: nat)
    requires n >= 1
    ensures 49 <= Digits(n)[0] <= 57
    decreases n
  {
    if n >= 10 { NoLeadingZero(n / 10); }
  }

  // where the flags end, and what follows
  lemma AfterFlags(format: seq<Byte>, p: nat, d: Spec)
    requires PartsAt(format, p, d) && WellFormed(d)
    ensures p < |format| && !IsFlag(format[p])
    ensures SimpleAt(format, p) ==> d.width.Absent? && !d.dot && d.index.None? && format[p] == d.verb
  {
    if d.width.Absent? {
      RestByte(format, p, d);
    } else {
      hide EndAt, At, PrecText, IndexText, AmountText, IsFlag, SimpleAt;
      WidthByte(format, p, d.width);
    }
  }

  // what the options of the directive come to
  lemma OptionsRead(format: seq<Byte>, a: seq<Arg>, p: nat, next: nat, o: Options, d: Spec)
    requires PartsAt(format, p, d) && WellFormed(d)
    ensures p <= |format|
    ensures var n := Consumed(d.width, a, next);
            var o1 := Widened(d.width, a, next, o);
            Stopped(AfterOptions(format, a, Cursor(p, next, false, true), o),
                    p + |AmountText(d.width)| + |PrecText(d)| + |IndexText(d.index)|,
                    Chosen(d.index, |a|, if d.dot then Consumed(d.prec, a, n) else n),
                    AmountNames(d.width, |a|) && (d.dot ==> AmountNames(d.prec, |a|)) && Names(d.index, |a|),
                    if d.dot then Sharpened(d.prec, a, n, o1) else o1)
  {
    hide AfterOptions, IndexText, AmountText, Names, AmountNames, Chosen, Consumed, Widened, Sharpened, EndAt, At;
    var c := Cursor(p, next, false, true);
    WidthPlaced(format, p, d);
    if d.dot {
      PrecPlaced(format, p, d);
      OptionsDot(format, a, c, o, d);
    } else {
      assert PrecText(d) == [];
      if d.width.Absent? {
        NothingThere(a, next, next, o);
        OptionsBare(format, a, c, o, d);
      } else {
        OptionsWide(format, a, c, o, d);
      }
    }
  }

  lemma VerbRead(format: seq<Byte>, a: seq<Arg>, start: nat, next: nat, d: Spec, p: Parsed)
    requires WellFormed(d) && start < p.c.i < |format| && format[p.c.i] == d.verb && p.c.i + 1 == start + |Text(d)|
    requires var o := Options(FlagsOf(d.flags), 0, 0, []);
             var n := Consumed(d.width, a, next);
             var o1 := Widened(d.width, a, next, o);
             Stopped(p, p.c.i, Chosen(d.index, |a|, if d.dot then Consumed(d.prec, a, n) else n),
                     AmountNames(d.width, |a|) && (d.dot ==> AmountNames(d.prec, |a|)) && Names(d.index, |a|),
                     if d.dot then Sharpened(d.prec, a, n, o1) else o1)
    ensures VerbOutcome(format, a, start, p) == Meaning(d, a, start, next)
  {
    assert DecodeRune(format[p.c.i..]) == (d.verb, 1);
    hide DecodeRune, Text, Names, AmountNames, Chosen, Consumed, Widened, Sharpened, FlagsOf, VerbFlags;
  }

  // the fast path: flags and a lower-case letter
  lemma SimpleReads(format: seq<Byte>, a: seq<Arg>, start: nat, next: nat, d: Spec)
    requires d.width.Absent? && !d.dot && d.index.None? && d.verb != PERCENT && next < |a|
    ensures Meaning(d, a, start, next) ==
            Outcome([Print(next, d.verb, VerbFlags(d.verb, FlagsOf(d.flags)), 0, 0, start, start + |d.flags| + 2)],
                    start + |d.flags| + 2, next + 1)
  {
    assert |Text(d)| == |d.flags| + 2;
    hide Text, VerbFlags;
  }

  lemma OtherReads(format: seq<Byte>, a: seq<Arg>, start: nat, next: nat, d: Spec, p: nat)
    requires PartsAt(format, p, d) && WellFormed(d) && start < p
    requires p + |AmountText(d.width)| + |PrecText(d)| + |IndexText(d.index)| + 1 == start + |Text(d)|
    ensures var q := AfterOptions(format, a, Cursor(p, next, false, true), Options(FlagsOf(d.flags), 0, 0, []));
            start < q.c.i < |format| && VerbOutcome(format, a, start, q) == Meaning(d, a, start, next)
  {
    hide Text, AfterOptions, Names, AmountNames, Chosen, Consumed, Widened, Sharpened, At, PartsAt, VerbOutcome;
    hide FlagsOf, Meaning, AmountText, PrecText, IndexText;
    OptionsRead(format, a, p, next, Options(FlagsOf(d.flags), 0, 0, []), d);
    PartsVerb(format, p, d);
    var q := AfterOptions(format, a, Cursor(p, next, false, true), Options(FlagsOf(d.flags), 0, 0, []));
    VerbRead(format, a, start, next, d, q);
  }

  lemma PartsVerb(format: seq<Byte>, p: nat, d: Spec)
    requires PartsAt(format, p, d)
    ensures var i := p + |AmountText(d.width)| + |PrecText(d)| + |IndexText(d.index)|;
            i < |format| && format[i] == d.verb
  {
    hide AmountText, PrecText, IndexText, At;
  }

  /** A directive written out from a tree means what the tree means, wherever it
      stands in a format. */
  lemma DirectiveReads(format: seq<Byte>, a: seq<Arg>, start: nat, next: nat, d: Spec)
    requires At(format, start, Text(d)) && WellFormed(d)
    ensures start < |format| && DirectiveAt(format, a, start, next) == Meaning(d, a, start, next)
  {
    hide Text, AfterOptions, AmountText, PrecText, IndexText, At, PartsAt, VerbOutcome, FlagsOf, FlagsIn, FlagsEnd;
    hide Meaning, VerbFlags;
    FindParts(format, start, d);
    var p := start + 1 + |d.flags|;
    AfterFlags(format, p, d);
    FlagsRead(format, start + 1, d.flags);
    if SimpleAt(format, p) && next < |a| {
      SimpleReads(format, a, start, next, d);
    } else {
      OtherReads(format, a, start, next, d, p);
    }
  }

  // ----- whole formats

  // directives, each after some literal text, and text at the end
  function FormatText(parts: seq<(seq<Byte>, Spec)>, last: seq<Byte>): seq<Byte> {
    if parts == [] then last else parts[0].0 + (Text(parts[0].1) + FormatText(parts[1..], last))
  }

  predicate Writable(parts: seq<(seq<Byte>, Spec)>, last: seq<Byte>) {
    PERCENT !in last && forall k :: 0 <= k < |parts| ==> PERCENT !in parts[k].0 && WellFormed(parts[k].1)
  }

  function FormatMeaning(parts: seq<(seq<Byte>, Spec)>, last: seq<Byte>, a: seq<Arg>, from: nat, next: nat)
    : seq<Event>
  {
    if parts == [] then LiteralFrom(from, from + |last|)
    else
      var k := from + |parts[0].0|;
      var r := Meaning(parts[0].1, a, k, next);
      LiteralFrom(from, k) + r.events + FormatMeaning(parts[1..], last, a, r.i, r.argNum)
  }

  lemma {:induction false} PercentAfter(format: seq<Byte>, i: nat, k: nat)
    requires i <= k <= |format| && (forall j :: i <= j < k ==> format[j] != PERCENT)
    requires k < |format| ==> format[k] == PERCENT
    ensures PercentFrom(format, i) == k
    decreases k - i
  {
    if i < k { PercentAfter(format, i + 1, k); }
  }

  lemma LiteralRead(format: seq<Byte>, i: nat, lit: seq<Byte>)
    requires At(format, i, lit) && PERCENT !in lit
    requires i + |lit| < |format| ==> format[i + |lit|] == PERCENT
    ensures PercentFrom(format, i) == i + |lit|
  {
    forall j | i <= j < i + |lit| ensures format[j] != PERCENT { AtByte(format, i, lit, j - i); }
    PercentAfter(format, i, i + |lit|);
  }

  lemma FirstPart(parts: seq<(seq<Byte>, Spec)>, last: seq<Byte>)
    requires parts != [] && Writable(parts, last)
    ensures FormatText(parts, last) == parts[0].0 + (Text(parts[0].1) + FormatText(parts[1..], last))
    ensures PERCENT !in parts[0].0 && WellFormed(parts[0].1) && Writable(parts[1..], last)
  {
  }

  // the events up to and including the directive at k
  lemma EventsUpTo(format: seq<Byte>, a: seq<Arg>, from: nat, next: nat, k: nat)
    requires from <= k < |format| && PercentFrom(format, from) == k
    ensures var r := DirectiveAt(format, a, k, next);
            Events(format, a, from, next) == LiteralFrom(from, k) + r.events + Events(format, a, r.i, r.argNum)
  {
    hide DirectiveAt, PercentFrom;
  }

  // a literal and a directive at the front of what is left
  lemma PartRead(format: seq<Byte>, a: seq<Arg>, from: nat, next: nat, lit: seq<Byte>, d: Spec, rest: seq<Byte>)
    requires PERCENT !in lit && WellFormed(d) && At(format, from, lit + (Text(d) + rest))
    ensures var r := Meaning(d, a, from + |lit|, next);
            && At(format, r.i, rest) && r.i == from + |lit| + |Text(d)|
            && Events(format, a, from, next) ==
               LiteralFrom(from, from + |lit|) + r.events + Events(format, a, r.i, r.argNum)
  {
    hide Text, Meaning, WellFormed, At, DirectiveAt, Events, PercentFrom;
    var k := from + |lit|;
    Split(format, from, lit, Text(d) + rest);
    Split(format, k, Text(d), rest);
    DirectiveReads(format, a, k, next, d);
    StartsWithPercent(format, k, d);
    LiteralRead(format, from, lit);
    Ends(d, a, k, next);
    Within(format, k + |Text(d)|, rest);
    EventsUpTo(format, a, from, next, k);
  }

  lemma Within(s: seq<Byte>, i: nat, x: seq<Byte>)
    requires At(s, i, x)
    ensures i + |x| <= |s|
  {
  }

  lemma FirstMeaning(parts: seq<(seq<Byte>, Spec)>, last: seq<Byte>, a: seq<Arg>, from: nat, next: nat)
    requires parts != []
    ensures var k := from + |parts[0].0|;
            var r := Meaning(parts[0].1, a, k, next);
            FormatMeaning(parts, last, a, from, next) ==
            LiteralFrom(from, k) + r.events + FormatMeaning(parts[1..], last, a, r.i, r.argNum)
  {
    hide Meaning;
  }

  lemma LastLiteral(format: seq<Byte>, a: seq<Arg>, from: nat, next: nat, parts: seq<(seq<Byte>, Spec)>,
                    last: seq<Byte>)
    requires parts == [] && Writable(parts, last) && At(format, from, FormatText(parts, last))
    requires from + |FormatText(parts, last)| == |format|
    ensures Events(format, a, from, next) == FormatMeaning(parts, last, a, from, next)
  {
    LiteralRead(format, from, last);
  }

  /** A format written out from trees and literal text has exactly the events that
      these mean. */
  lemma {:induction false} FormatReads(format: seq<Byte>, a: seq<Arg>, from: nat, next: nat,
                                       parts: seq<(seq<Byte>, Spec)>, last: seq<Byte>)
    requires Writable(parts, last) && At(format, from, FormatText(parts, last))
    requires from + |FormatText(parts, last)| == |format|
    ensures Events(format, a, from, next) == FormatMeaning(parts, last, a, from, next)
    decreases |parts|
  {
    hide Text, Meaning, WellFormed, At, FormatText, Writable, Events, LiteralFrom, FormatMeaning;
    if parts == [] {
      LastLiteral(format, a, from, next, parts, last);
    } else {
      FirstPart(parts, last);
      FirstMeaning(parts, last, a, from, next);
      var (lit, d) := parts[0];
      PartRead(format, a, from, next, lit, d, FormatText(parts[1..], last));
      var r := Meaning(d, a, from + |lit|, next);
      FormatReads(format, a, r.i, r.argNum, parts[1..], last);
    }
  }

  lemma StartsWithPercent(format: seq<Byte>, k: nat, d: Spec)
    requires At(format, k, Text(d))
    ensures k < |format| && format[k] == PERCENT
  {
    assert Text(d)[0] == PERCENT;
    hide Text;
    AtByte(format, k, Text(d), 0);
  }

  lemma Ends(d: Spec, a: seq<Arg>, start: nat, next: nat)
    ensures Meaning(d, a, start, next).i == start + |Text(d)|
  {
    hide Text;
  }

  lemma {:induction false} OneDirective(a: seq<Arg>, d: Spec)
    requires WellFormed(d)
    ensures Events(Text(d), a, 0, 0) == Meaning(d, a, 0, 0).events
  {
    hide Text, Meaning, WellFormed;
    var parts: seq<(seq<Byte>, Spec)> := [([], d)];
    var r := Meaning(d, a, 0, 0);
    assert parts[1..] == [];
    assert FormatText([], []) == [] && FormatText(parts, []) == [] + (Text(d) + []) == Text(d);
    assert FormatMeaning([], [], a, r.i, r.argNum) == [];
    assert FormatMeaning(parts, [], a, 0, 0) == [] + r.events + [] == r.events;
    FormatReads(Text(d), a, 0, 0, parts, []);
  }

  // ----- what the parts of a directive do

  predicate IsLetter(c: Byte) { IsVerb(c) && c != PERCENT }

  /** "%[n]d" prints argument n, counted from one, if there is one. */
  lemma {:induction false} IndexSelects(a: seq<Arg>, n: nat, verb: Byte)
    requires IsLetter(verb) && n <= MAX_NUM
    ensures var s := [37, 91] + Numeral(n, 10, false) + [93, verb];
            Events(s, a, 0, 0) ==
            [if 1 <= n <= |a| then Print(n - 1, verb, NO_FLAGS, 0, 0, 0, |s|) else BadIndex(verb, 0, |s|)]
  {
    var d := Spec([], Absent, false, Absent, Some(n), verb);
    hide Numeral, Text, Events, Meaning, WellFormed, IsLetter;
    BareIndexText(d);
    OneDirective(a, d);
    IndexMeans(a, d);
  }

  lemma BareIndexText(d: Spec)
    requires d == Spec([], Absent, false, Absent, d.index, d.verb) && d.index.Some? && IsLetter(d.verb)
    ensures WellFormed(d) && Text(d) == [37, 91] + Numeral(d.index.value, 10, false) + [93, d.verb]
  {
    hide Numeral;
  }

  lemma IndexMeans(a: seq<Arg>, d: Spec)
    requires d == Spec([], Absent, false, Absent, d.index, d.verb) && IsLetter(d.verb)
    requires d.index.Some? && d.index.value <= MAX_NUM
    ensures var n := d.index.value;
            Meaning(d, a, 0, 0).events ==
            [if 1 <= n <= |a| then Print(n - 1, d.verb, NO_FLAGS, 0, 0, 0, |Text(d)|)
             else BadIndex(d.verb, 0, |Text(d)|)]
  {
    assert FlagsOf([]) == NO_FLAGS;
    hide Text, FlagsOf;
  }

  /** "%-+# 08.3d" prints the next argument with the flags that are there, the number
      before the dot as its width and the one behind it as its precision; the verbs v and
      w take # and + for themselves. */
  lemma {:induction false} WidthAndPrecision(a: seq<Arg>, flags: seq<Byte>, w: nat, p: nat, verb: Byte)
    requires IsLetter(verb) && |a| > 0
    requires (forall k :: 0 <= k < |flags| ==> flags[k] in {32, 35, 43, 45, 48}) && 1 <= w <= MAX_NUM && p <= MAX_NUM
    ensures var s := [37] + flags + Numeral(w, 10, false) + [46] + Numeral(p, 10, false) + [verb];
            Events(s, a, 0, 0) ==
            [Print(0, verb, Flags(true, true, 45 in flags, 43 in flags && verb !in {118, 119},
                                  35 in flags && verb !in {118, 119}, 32 in flags, 48 in flags),
                   w, p, 0, |s|)]
  {
    var d := Spec(flags, Number(w), true, Number(p), None, verb);
    WidthText(d);
    hide Numeral, Text, Events;
    OneDirective(a, d);
    hide Meaning;
    WidthMeans(a, d);
  }

  lemma WidthText(d: Spec)
    requires d.width.Number? && d.dot && d.prec.Number? && d.index.None?
    ensures Text(d) ==
            [37] + d.flags + Numeral(d.width.n, 10, false) + [46] + Numeral(d.prec.n, 10, false) + [d.verb]
  {
    hide Numeral;
  }

  lemma WidthMeans(a: seq<Arg>, d: Spec)
    requires d.width.Number? && d.dot && d.prec.Number? && d.index.None? && |a| > 0 && IsLetter(d.verb)
    ensures Meaning(d, a, 0, 0).events ==
            [Print(0, d.verb, Flags(true, true, 45 in d.flags, 43 in d.flags && d.verb !in {118, 119},
                                    35 in d.flags && d.verb !in {118, 119}, 32 in d.flags, 48 in d.flags),
                   d.width.n, d.prec.n, 0, |Text(d)|)]
  {
    hide Text;
  }

  /** "%*d" takes its width from the argument before the one it prints, and "%.*d" its
      precision; a negative width is its magnitude with the minus flag, a negative
      precision none. */
  lemma {:induction false} StarsTake(a: seq<Arg>, x: int, verb: Byte)
    requires IsLetter(verb)
    requires |a| > 1 && a[0] == Int(x) && -1_000_000 <= x <= 1_000_000
    ensures Events([37, 42, verb], a, 0, 0) ==
            [Print(1, verb, NO_FLAGS.(widPresent := true, minus := x < 0), if x < 0 then -x else x, 0, 0, 3)]
    ensures Events([37, 46, 42, verb], a, 0, 0) ==
            if x >= 0 then [Print(1, verb, NO_FLAGS.(precPresent := true), 0, x, 0, 4)]
            else [BadPrec, Print(1, verb, NO_FLAGS, 0, 0, 0, 4)]
  {
    var d, e := Spec([], Star(None), false, Absent, None, verb), Spec([], Absent, true, Star(None), None, verb);
    StarTexts(d, e);
    hide Text, Events;
    OneDirective(a, d);
    OneDirective(a, e);
    hide Meaning;
    StarMeans(a, x, d);
    DotStarMeans(a, x, e);
  }

  lemma StarTexts(d: Spec, e: Spec)
    requires d == Spec([], Star(None), false, Absent, None, d.verb)
    requires e == Spec([], Absent, true, Star(None), None, e.verb)
    ensures Text(d) == [37, 42, d.verb] && Text(e) == [37, 46, 42, e.verb]
  {
  }

  lemma {:induction false} StarMeans(a: seq<Arg>, x: int, d: Spec)
    requires d == Spec([], Star(None), false, Absent, None, d.verb)
    requires IsLetter(d.verb)
    requires |a| > 1 && a[0] == Int(x) && -1_000_000 <= x <= 1_000_000
    ensures Meaning(d, a, 0, 0).events ==
            [Print(1, d.verb, NO_FLAGS.(widPresent := true, minus := x < 0), if x < 0 then -x else x, 0, 0, |Text(d)|)]
  {
    assert FlagsOf([]) == NO_FLAGS;
    hide Text, FlagsOf;
  }

  lemma {:induction false} DotStarMeans(a: seq<Arg>, x: int, d: Spec)
    requires d == Spec([], Absent, true, Star(None), None, d.verb)
    requires IsLetter(d.verb)
    requires |a| > 1 && a[0] == Int(x) && -1_000_000 <= x <= 1_000_000
    ensures Meaning(d, a, 0, 0).events ==
            if x >= 0 then [Print(1, d.verb, NO_FLAGS.(precPresent := true), 0, x, 0, |Text(d)|)]
            else [BadPrec, Print(1, d.verb, NO_FLAGS, 0, 0, 0, |Text(d)|)]
  {
    assert FlagsOf([]) == NO_FLAGS;
    hide Text, FlagsOf;
  }

  /** An index directly before a number or a dot spoils the directive. */
  lemma {:induction false} IndexSpoilsWidth(a: seq<Arg>, k: nat, n: nat, verb: Byte)
    requires IsLetter(verb) && k <= MAX_NUM && n <= MAX_NUM
    ensures var s := [37, 91] + Numeral(k, 10, false) + [93] + Numeral(n, 10, false) + [verb];
            Events(s, a, 0, 0) == [BadIndex(verb, 0, |s|)]
  {
    var x, ds := IndexText(Some(k)), Digits(n);
    var s := [37] + (x + (ds + [verb]));
    assert s == [37, 91] + Numeral(k, 10, false) + [93] + Numeral(n, 10, false) + [verb];
    assert |x| > 2 && x[0] == OPEN && |ds| > 0;
    hide Numeral, Digits, IndexText, At;
    WholeAt(s);
    Split(s, 0, [37], x + (ds + [verb]));
    Split(s, 1, x, ds + [verb]);
    Split(s, 1 + |x|, ds, [verb]);
    OneByte(s, 0, 37);
    OneByte(s, 1 + |x| + |ds|, verb);
    AtByte(s, 1, x, 0);
    SpoiledAt(s, a, k, n);
  }

  lemma WholeAt(s: seq<Byte>)
    ensures At(s, 0, s)
  {
  }

  lemma {:induction false} SpoiledAt(s: seq<Byte>, a: seq<Arg>, k: nat, n: nat)
    requires k <= MAX_NUM && n <= MAX_NUM && At(s, 1, IndexText(Some(k))) && At(s, 1 + |IndexText(Some(k))|, Digits(n))
    requires |s| == 2 + |IndexText(Some(k))| + |Digits(n)| && s[0] == PERCENT && s[1] == OPEN && IsLetter(s[|s| - 1])
    ensures Events(s, a, 0, 0) == [BadIndex(s[|s| - 1], 0, |s|)]
  {
    hide IndexText, Digits, At, FlagsEnd, FlagsIn, AfterOptions, VerbOutcome;
    NoFlagsAt(s);
    SpoiledOptions(s, a, k, n);
    var p := AfterOptions(s, a, Cursor(1, 0, false, true), Options(NO_FLAGS, 0, 0, []));
    SpoiledVerb(s, a, p);
    EndOfEvents(s, a, VerbOutcome(s, a, 0, p));
  }

  lemma NoFlagsAt(s: seq<Byte>)
    requires |s| > 1 && s[1] == OPEN
    ensures FlagsEnd(s, 1) == 1 && FlagsIn(s[1..1]) == NO_FLAGS && !SimpleAt(s, 1)
  {
  }

  lemma {:induction false} SpoiledOptions(s: seq<Byte>, a: seq<Arg>, k: nat, n: nat)
    requires k <= MAX_NUM && n <= MAX_NUM && At(s, 1, IndexText(Some(k))) && At(s, 1 + |IndexText(Some(k))|, Digits(n))
    requires |s| == 2 + |IndexText(Some(k))| + |Digits(n)| && s[0] == PERCENT && s[1] == OPEN && IsLetter(s[|s| - 1])
    ensures var p := AfterOptions(s, a, Cursor(1, 0, false, true), Options(NO_FLAGS, 0, 0, []));
            p.c.i == |s| - 1 && !p.c.good && p.o.bad == []
  {
    hide IndexText, Digits, At, AfterIndex, AfterWidth, IsLetter, IsVerb;
    var c, o := Cursor(1, 0, false, true), Options(NO_FLAGS, 0, 0, []);
    IndexAt(s, c, |a|, Some(k));
    SpoiledWidth(s, a, AfterIndex(s, c, |a|), n, o);
  }

  lemma SpoiledWidth(s: seq<Byte>, a: seq<Arg>, c: Cursor, n: nat, o: Options)
    requires n <= MAX_NUM && c.afterIndex && At(s, c.i, Digits(n)) && c.i + |Digits(n)| + 1 == |s|
    requires IsLetter(s[|s| - 1])
    ensures s[|s| - 1] != DOT && !StarAt(s, c.i)
    ensures AfterWidth(s, a, c, o) ==
            Parsed(Cursor(|s| - 1, c.argNum, true, false), o.(f := o.f.(widPresent := true), wid := n))
  {
    NumberFound(s, c.i, n);
    hide Digits, NumberIn, At;
  }

  lemma SpoiledVerb(s: seq<Byte>, a: seq<Arg>, p: Parsed)
    requires |s| > 1 && p.c.i == |s| - 1 && !p.c.good && p.o.bad == [] && IsLetter(s[|s| - 1])
    ensures VerbOutcome(s, a, 0, p) == Outcome([BadIndex(s[|s| - 1], 0, |s|)], |s|, p.c.argNum)
  {
    assert DecodeRune(s[p.c.i..]) == (s[|s| - 1], 1);
    hide DecodeRune;
  }

  // the directive at the front is the whole format
  lemma EndOfEvents(s: seq<Byte>, a: seq<Arg>, r: Outcome)
    requires s != [] && s[0] == PERCENT && DirectiveAt(s, a, 0, 0) == r && r.i == |s|
    ensures Events(s, a, 0, 0) == r.events
  {
    hide DirectiveAt;
    assert PercentFrom(s, 0) == 0;
    EventsUpTo(s, a, 0, 0, 0);
    assert Events(s, a, |s|, r.argNum) == [];
  }

  // ----- the examples of the documentation

  function Plain(index: nat): Spec { Spec([], Absent, false, Absent, Some(index), 100) }

  lemma SmallNumerals()
    ensures Numeral(1, 10, false) == [49] && Numeral(2, 10, false) == [50] && Numeral(3, 10, false) == [51]
  {
  }

  lemma PlainText(index: nat)
    requires 1 <= index <= 3
    ensures Text(Plain(index)) == [37, 91, 48 + index, 93, 100]
  {
    SmallNumerals();
    hide Numeral;
  }

  lemma PlainMeans(a: seq<Arg>, index: nat, start: nat, next: nat)
    requires 1 <= index <= |a| && index <= 3
    ensures WellFormed(Plain(index))
    ensures Meaning(Plain(index), a, start, next) ==
            Outcome([Print(index - 1, 100, NO_FLAGS, 0, 0, start, start + 5)], start + 5, index)
  {
    PlainText(index);
    assert FlagsOf([]) == NO_FLAGS;
    hide Text, FlagsOf;
  }

  // the directive "%[n]d" behind a literal
  lemma IndexedPart(format: seq<Byte>, a: seq<Arg>, from: nat, next: nat, lit: seq<Byte>, index: nat, rest: seq<Byte>)
    requires PERCENT !in lit && 1 <= index <= |a| && index <= 3
    requires At(format, from, lit + ([37, 91, 48 + index, 93, 100] + rest))
    ensures var k := from + |lit|;
            && k + 5 <= |format|
            && Events(format, a, from, next) ==
               LiteralFrom(from, k) + [Print(index - 1, 100, NO_FLAGS, 0, 0, k, k + 5)]
               + Events(format, a, k + 5, index)
  {
    hide Text, Meaning, Events, Plain, WellFormed, At;
    PlainText(index);
    PlainMeans(a, index, from + |lit|, next);
    PartRead(format, a, from, next, lit, Plain(index), rest);
    Within(format, from + |lit| + 5, rest);
  }

  predicate Swapped(s: seq<Byte>) {
    && |s| == 12 && s[0] == 37 && s[1] == 91 && s[2] == 50 && s[3] == 93 && s[4] == 100 && s[5] == 32
    && s[6] == 37 && s[7] == 91 && s[8] == 49 && s[9] == 93 && s[10] == 100 && s[11] == 10
  }

  lemma SwappedParts(s: seq<Byte>)
    requires Swapped(s)
    ensures At(s, 0, [] + ([37, 91, 48 + 2, 93, 100] + s[5..]))
    ensures At(s, 5, [32] + ([37, 91, 48 + 1, 93, 100] + [10]))
  {
    assert s[0..12] == [] + ([37, 91, 48 + 2, 93, 100] + s[5..]);
    assert s[5..12] == [32] + ([37, 91, 48 + 1, 93, 100] + [10]);
  }

  lemma FourEvents(x: Event, y: Event, z: Event, w: Event)
    ensures [] + [x] + ([y] + [z] + [w]) == [x, y, z, w]
  {
  }

  /** "%[2]d %[1]d" and a newline print the second argument and then the first. */
  lemma {:induction false} ArgumentsSwapped(s: seq<Byte>, a: seq<Arg>)
    requires s == [37, 91, 50, 93, 100, 32, 37, 91, 49, 93, 100, 10] && |a| == 2
    ensures Events(s, a, 0, 0) ==
            [Print(1, 100, NO_FLAGS, 0, 0, 0, 5), Literal(5, 6), Print(0, 100, NO_FLAGS, 0, 0, 6, 11), Literal(11, 12)]
  {
    assert Swapped(s);
    SwappedEvents(s, a);
  }

  lemma {:induction false} SwappedEvents(s: seq<Byte>, a: seq<Arg>)
    requires Swapped(s) && |a| == 2
    ensures Events(s, a, 0, 0) ==
            [Print(1, 100, NO_FLAGS, 0, 0, 0, 5), Literal(5, 6), Print(0, 100, NO_FLAGS, 0, 0, 6, 11), Literal(11, 12)]
  {
    SwappedParts(s);
    LastByte(s, a, 1);
    hide Events, At, Swapped;
    IndexedPart(s, a, 0, 0, [], 2, s[5..]);
    IndexedPart(s, a, 5, 2, [32], 1, [10]);
    FourEvents(Print(1, 100, NO_FLAGS, 0, 0, 0, 5), Literal(5, 6), Print(0, 100, NO_FLAGS, 0, 0, 6, 11),
               Literal(11, 12));
  }

  lemma LastByte(format: seq<Byte>, a: seq<Arg>, next: nat)
    requires |format| == 12 && format[11] == 10
    ensures Events(format, a, 11, next) == [Literal(11, 12)]
  {
    assert format[11..12] == [10];
    LiteralRead(format, 11, [10]);
  }

  /** "%[3]*.[2]*[1]f" with 2 and 6 as second and third argument prints the first as
      "%6.2f" does. */
  lemma {:induction false} IndexedStars(a: seq<Arg>)
    requires |a| == 3 && a[1] == Int(2) && a[2] == Int(6)
    ensures Events([37, 91, 51, 93, 42, 46, 91, 50, 93, 42, 91, 49, 93, 102], a, 0, 0) ==
            [Print(0, 102, NO_FLAGS.(widPresent := true, precPresent := true), 6, 2, 0, 14)]
  {
    IndexedText();
    var d := Indexed();
    assert WellFormed(d);
    hide Text, Events, Indexed, WellFormed;
    OneDirective(a, d);
    hide Meaning;
    IndexedMeans(a);
  }

  function Indexed(): Spec { Spec([], Star(Some(3)), true, Star(Some(2)), Some(1), 102) }

  lemma IndexedText()
    ensures Text(Indexed()) == [37, 91, 51, 93, 42, 46, 91, 50, 93, 42, 91, 49, 93, 102]
  {
    SmallNumerals();
    hide Numeral;
  }

  lemma {:induction false} IndexedMeans(a: seq<Arg>)
    requires |a| == 3 && a[1] == Int(2) && a[2] == Int(6)
    ensures Meaning(Indexed(), a, 0, 0).events ==
            [Print(0, 102, NO_FLAGS.(widPresent := true, precPresent := true), 6, 2, 0, |Text(Indexed())|)]
  {
    assert FlagsOf([]) == NO_FLAGS;
    hide Text, FlagsOf;
  }
}
