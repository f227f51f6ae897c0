/**
 What every format and every argument list guarantees: the events cover the format
 without gaps, arguments are in bounds, widths and precisions stay small, and without
 indices and stars the arguments are printed one after the other, all of them if
 there are enough directives.
 */
module DirectiveProofs {
  import opened Common
  import opened Utf8
  import opened Numerals
  import opened Directives

  predicate HasSpan(e: Event) { !e.BadWidth? && !e.BadPrec? }

  // the spans of the events lead from one position to the other, in order and without gaps
  predicate Covers(es: seq<Event>, from: nat, to: nat)
    decreases |es|
  {
    if es == [] then from == to
    else if HasSpan(es[0]) then es[0].from == from < es[0].to && Covers(es[1..], es[0].to, to)
    else Covers(es[1..], from, to)
  }

  // a directive ends with its verb
  ghost predicate VerbEnds(format: seq<Byte>, from: nat, to: nat, verb: int) {
    exists k :: from < k < to <= |format| && DecodeRune(format[k..]) == (verb, to - k)
  }

  // literals hold no %; every other event with a span starts with one and, if there is a verb, ends with it
  ghost predicate Marked(format: seq<Byte>, e: Event) {
    if e.Literal? then e.from <= e.to <= |format| && PERCENT !in format[e.from..e.to]
    else
      && (HasSpan(e) ==> e.from < |format| && format[e.from] == PERCENT)
      && (e.Print? || e.BadIndex? || e.Missing? ==> VerbEnds(format, e.from, e.to, e.verb))
      && (e.Percent? ==> VerbEnds(format, e.from, e.to, PERCENT))
  }

  predicate Small(f: Flags, wid: nat, prec: nat) {
    wid <= MAX_NUM && prec <= MAX_NUM && (!f.widPresent ==> wid == 0) && (!f.precPresent ==> prec == 0)
  }

  // an event that prints an argument does so within bounds
  predicate Sound(e: Event, args: nat) { e.Print? ==> e.arg < args && Small(e.f, e.wid, e.prec) }

  ghost predicate AllSound(format: seq<Byte>, es: seq<Event>, args: nat) {
    forall k :: 0 <= k < |es| ==> Marked(format, es[k]) && Sound(es[k], args)
  }

  // no explicit indices and no stars
  predicate Plain(format: seq<Byte>) { OPEN !in format && STAR !in format }

  // from argument n on, the arguments are printed in order, and one is missing only past the last
  predicate InOrder(es: seq<Event>, n: nat, args: nat)
    decreases |es|
  {
    es == [] ||
    (&& !es[0].BadIndex? && !es[0].BadWidth? && !es[0].BadPrec?
     && (es[0].Print? ==> es[0].arg == n) && (es[0].Missing? ==> n >= args)
     && InOrder(es[1..], if es[0].Print? then n + 1 else n, args))
  }

  // ----- numbers: parsing undoes printing

  lemma {:induction false} PrefixIsSmaller(ds: seq<Byte>, k: nat)
    requires k <= |ds|
    ensures Value(ds[..k], 10) <= Value(ds, 10)
  {
    if k < |ds| {
      var t := ds[..|ds| - 1];
      PrefixIsSmaller(t, k);
      assert t[..k] == ds[..k];
    } else {
      assert ds[..k] == ds;
    }
  }

  lemma {:induction false} NumeralIsDecimal(n: nat)
    ensures forall k :: 0 <= k < |Numeral(n, 10, false)| ==> IsDecimal(Numeral(n, 10, false)[k])
    decreases n
  {
    if n >= 10 { NumeralIsDecimal(n / 10); }
  }

  lemma {:induction false} DigitsStop(s: seq<Byte>, i: nat, e: nat)
    requires i <= e <= |s| && (forall k :: i <= k < e ==> IsDecimal(s[k])) && (e < |s| ==> !IsDecimal(s[e]))
    ensures DigitsEnd(s, i, |s|) == e
    decreases e - i
  {
    if i < e { DigitsStop(s, i + 1, e); }
  }

  /** A number up to a million, printed in decimal and followed by anything but a
      digit, is read back. */
  lemma NumeralIsRead(n: nat, rest: seq<Byte>)
    requires n <= 1_000_000 && (rest != [] ==> !IsDecimal(rest[0]))
    ensures var ds := Numeral(n, 10, false); NumberIn(ds + rest, 0, |ds + rest|) == Num(n, true, |ds|)
  {
    var ds := Numeral(n, 10, false);
    var s := ds + rest;
    NumeralIsDecimal(n);
    NumeralValue(n, 10, false);
    hide Numeral;
    DigitsStop(s, 0, |ds|);
    assert s[0..|ds|] == ds && s[0] == ds[0];
    assert |s| > |ds| ==> !IsDecimal(s[|ds|]);
    forall k | 0 < k < |s| && (forall j :: 0 <= j <= k ==> IsDecimal(s[j])) ensures !TooLarge(Value(s[0..k], 10)) {
      assert s[0..k] == ds[..k];
      PrefixIsSmaller(ds, k);
    }
  }

  // ----- joining

  lemma {:induction false} CoversJoin(x: seq<Event>, y: seq<Event>, from: nat, mid: nat, to: nat)
    requires Covers(x, from, mid) && Covers(y, mid, to)
    ensures Covers(x + y, from, to)
    decreases |x|
  {
    if x == [] {
      assert x + y == y;
    } else {
      assert (x + y)[1..] == x[1..] + y;
      CoversJoin(x[1..], y, if HasSpan(x[0]) then x[0].to else from, mid, to);
    }
  }

  lemma {:induction false} ComplaintsCover(bad: seq<Event>, at: nat)
    requires forall k :: 0 <= k < |bad| ==> !HasSpan(bad[k])
    ensures Covers(bad, at, at)
  {
    if bad != [] { ComplaintsCover(bad[1..], at); }
  }

  lemma OneCovers(e: Event)
    requires HasSpan(e) && e.from < e.to
    ensures Covers([e], e.from, e.to)
  {
    assert [e][1..] == [];
  }

  // ----- one directive

  lemma NotIndexed(format: seq<Byte>, i: nat)
    requires Plain(format)
    ensures i < |format| ==> format[i] != OPEN && format[i] != STAR
  {
  }

  predicate Complaints(bad: seq<Event>) { forall k :: 0 <= k < |bad| ==> !HasSpan(bad[k]) }

  predicate Fine(o: Options) { Small(o.f, o.wid, o.prec) && Complaints(o.bad) }

  lemma WidthFine(format: seq<Byte>, a: seq<Arg>, c: Cursor, o: Options)
    requires c.i <= |format| && Fine(o)
    ensures Fine(AfterWidth(format, a, c, o).o)
    ensures Plain(format) && !c.afterIndex ==>
              var p := AfterWidth(format, a, c, o); p.o.bad == o.bad && p.c == c.(i := p.c.i)
  {
    hide NumberIn;
    if Plain(format) { NotIndexed(format, c.i); }
  }

  lemma PrecFine(format: seq<Byte>, a: seq<Arg>, c: Cursor, o: Options)
    requires c.i <= |format| && Fine(o)
    ensures Fine(AfterPrec(format, a, c, o).o)
    ensures Plain(format) && !c.afterIndex ==>
              var p := AfterPrec(format, a, c, o); p.o.bad == o.bad && p.c == c.(i := p.c.i)
  {
    hide NumberIn, BracketAt, AfterPrecNumber, Fine, Plain;
    if c.i + 1 < |format| {
      var c1 := Cursor(c.i + 1, c.argNum, false, c.good && !c.afterIndex);
      PrecNumberFine(format, a, AfterIndex(format, c1, |a|), o);
      if Plain(format) { NotIndexed(format, c.i + 1); }
    }
  }

  lemma PrecNumberFine(format: seq<Byte>, a: seq<Arg>, c: Cursor, o: Options)
    requires c.i <= |format| && Fine(o)
    ensures Fine(AfterPrecNumber(format, a, c, o).o)
    ensures Plain(format) && !c.afterIndex ==>
              var p := AfterPrecNumber(format, a, c, o); p.o.bad == o.bad && p.c == c.(i := p.c.i)
  {
    if Plain(format) { NotIndexed(format, c.i); }
    hide NumberIn, Plain, StarArg;
    if StarAt(format, c.i) {
      StarPrecFine(StarArg(a, c.argNum), o);
      hide StarPrec, Fine;
    }
  }

  lemma StarPrecFine(n: Option<int>, o: Options)
    requires Fine(o) && (n.Some? ==> !TooLarge(n.value))
    ensures Fine(StarPrec(n, o))
  {
  }

  lemma OptionsFine(format: seq<Byte>, a: seq<Arg>, c: Cursor, o: Options)
    requires c.i <= |format| && Fine(o)
    ensures Fine(AfterOptions(format, a, c, o).o)
    ensures Plain(format) && !c.afterIndex ==>
              var p := AfterOptions(format, a, c, o); p.o.bad == o.bad && p.c == c.(i := p.c.i)
  {
    var c1 := AfterIndex(format, c, |a|);
    var w := AfterWidth(format, a, c1, o);
    var p := AfterPrec(format, a, w.c, w.o);
    WidthFine(format, a, c1, o);
    PrecFine(format, a, w.c, w.o);
    if Plain(format) {
      NotIndexed(format, c.i);
      NotIndexed(format, p.c.i);
    }
    hide AfterWidth, AfterPrec, Fine, BracketAt, Plain;
  }

  lemma VerbAt(format: seq<Byte>, from: nat, k: nat)
    requires from < k < |format|
    ensures var d := DecodeRune(format[k..]); 1 <= d.1 <= |format| - k && VerbEnds(format, from, k + d.1, d.0)
    ensures format[k] < RUNE_SELF ==> VerbEnds(format, from, k + 1, format[k])
  {
    DecodeWidth(format[k..]);
    assert format[k] < RUNE_SELF ==> DecodeRune(format[k..]) == (format[k], 1);
    hide DecodeRune;
    var d := DecodeRune(format[k..]);
    assert DecodeRune(format[k..]) == (d.0, (k + d.1) - k);
  }

  // complaints, and then one event for the whole directive
  ghost predicate Shaped(format: seq<Byte>, args: nat, start: nat, argNum: nat, r: Outcome) {
    r.events != [] &&
    var bad, e := r.events[..|r.events| - 1], r.events[|r.events| - 1];
    && Complaints(bad) && HasSpan(e) && !e.Literal? && e.from == start < e.to == r.i && Marked(format, e)
    && Sound(e, args)
    && (Plain(format) ==>
          && bad == [] && !e.BadIndex? && (e.Missing? ==> argNum >= args)
          && (e.Print? ==> e.arg == argNum) && r.argNum == if e.Print? then argNum + 1 else argNum)
  }

  lemma ShapedBy(format: seq<Byte>, args: nat, argNum: nat, bad: seq<Event>, e: Event, next: nat)
    requires Complaints(bad) && HasSpan(e) && !e.Literal? && e.from < e.to && Marked(format, e) && Sound(e, args)
    requires Plain(format) ==>
               && bad == [] && !e.BadIndex? && (e.Missing? ==> argNum >= args)
               && (e.Print? ==> e.arg == argNum) && next == if e.Print? then argNum + 1 else argNum
    ensures Shaped(format, args, e.from, argNum, Outcome(bad + [e], e.to, next))
  {
    hide Marked, Sound, Plain;
    assert (bad + [e])[..|bad|] == bad && (bad + [e])[|bad|] == e;
  }

  lemma VerbShaped(format: seq<Byte>, a: seq<Arg>, start: nat, argNum: nat, p: Parsed)
    requires start < p.c.i < |format| && format[start] == PERCENT && Fine(p.o)
    requires Plain(format) ==> p.o.bad == [] && p.c.good && p.c.argNum == argNum
    ensures Shaped(format, |a|, start, argNum, VerbOutcome(format, a, start, p))
  {
    hide DecodeRune, VerbEnds, Plain, Shaped;
    VerbAt(format, start, p.c.i);
    var d := DecodeRune(format[p.c.i..]);
    var to, bad := p.c.i + d.1, p.o.bad;
    if d.0 == PERCENT {
      ShapedBy(format, |a|, argNum, bad, Percent(start, to), p.c.argNum);
    } else if !p.c.good {
      ShapedBy(format, |a|, argNum, bad, BadIndex(d.0, start, to), p.c.argNum);
    } else if p.c.argNum >= |a| {
      ShapedBy(format, |a|, argNum, bad, Missing(d.0, start, to), p.c.argNum);
    } else {
      var e := Print(p.c.argNum, d.0, VerbFlags(d.0, p.o.f), p.o.wid, p.o.prec, start, to);
      ShapedBy(format, |a|, argNum, bad, e, p.c.argNum + 1);
    }
  }

  lemma SimpleShaped(format: seq<Byte>, args: nat, start: nat, argNum: nat, k: nat, f: Flags)
    requires start < k && SimpleAt(format, k) && format[start] == PERCENT && argNum < args && Small(f, 0, 0)
    ensures Shaped(format, args, start, argNum,
                   Outcome([Print(argNum, format[k], f, 0, 0, start, k + 1)], k + 1, argNum + 1))
  {
    hide VerbEnds, DecodeRune, Plain, Small, Shaped;
    VerbAt(format, start, k);
    var e := Print(argNum, format[k], f, 0, 0, start, k + 1);
    ShapedBy(format, args, argNum, [], e, argNum + 1);
    assert [] + [e] == [e];
  }

  lemma NoVerbShaped(format: seq<Byte>, args: nat, start: nat, argNum: nat, p: Parsed)
    requires start < p.c.i && start < |format| && format[start] == PERCENT && Fine(p.o)
    requires Plain(format) ==> p.o.bad == [] && p.c.argNum == argNum
    ensures Shaped(format, args, start, argNum, Outcome(p.o.bad + [NoVerb(start, p.c.i)], p.c.i, p.c.argNum))
  {
    hide VerbEnds, DecodeRune, Plain, Shaped;
    ShapedBy(format, args, argNum, p.o.bad, NoVerb(start, p.c.i), p.c.argNum);
  }

  lemma DirectiveShaped(format: seq<Byte>, a: seq<Arg>, start: nat, argNum: nat)
    requires start < |format| && format[start] == PERCENT
    ensures Shaped(format, |a|, start, argNum, DirectiveAt(format, a, start, argNum))
  {
    hide AfterOptions, VerbOutcome, Plain, Shaped, FlagsEnd;
    var k := FlagsEnd(format, start + 1);
    var f := FlagsIn(format[start + 1..k]);
    if SimpleAt(format, k) && argNum < |a| {
      SimpleShaped(format, |a|, start, argNum, k, VerbFlags(format[k], f));
    } else {
      var c, o := Cursor(k, argNum, false, true), Options(f, 0, 0, []);
      OptionsFine(format, a, c, o);
      var p := AfterOptions(format, a, c, o);
      hide Fine;
      if p.c.i < |format| {
        VerbShaped(format, a, start, argNum, p);
      } else {
        NoVerbShaped(format, |a|, start, argNum, p);
      }
    }
  }

  // ----- whole formats

  lemma OutcomeCovers(format: seq<Byte>, args: nat, start: nat, argNum: nat, r: Outcome)
    requires Shaped(format, args, start, argNum, r)
    ensures Covers(r.events, start, r.i)
  {
    var bad, e := r.events[..|r.events| - 1], r.events[|r.events| - 1];
    ComplaintsCover(bad, start);
    OneCovers(e);
    CoversJoin(bad, [e], start, start, r.i);
    assert r.events == bad + [e];
  }

  /** The events cover the whole format, in order and without gaps. */
  lemma {:induction false} EventsCover(format: seq<Byte>, a: seq<Arg>, i: nat, argNum: nat)
    requires i <= |format|
    ensures Covers(Events(format, a, i, argNum), i, |format|)
    decreases |format| - i
  {
    var k := PercentFrom(format, i);
    var lit := LiteralFrom(i, k);
    if i < k { OneCovers(Literal(i, k)); }
    if k < |format| {
      var r := DirectiveAt(format, a, k, argNum);
      DirectiveShaped(format, a, k, argNum);
      OutcomeCovers(format, |a|, k, argNum, r);
      EventsCover(format, a, r.i, r.argNum);
      CoversJoin(lit, r.events, i, k, r.i);
      CoversJoin(lit + r.events, Events(format, a, r.i, r.argNum), i, r.i, |format|);
      hide DirectiveAt, Shaped, Covers, PercentFrom;
    }
  }

  lemma OutcomeSound(format: seq<Byte>, args: nat, start: nat, argNum: nat, r: Outcome)
    requires Shaped(format, args, start, argNum, r)
    ensures AllSound(format, r.events, args)
  {
    var bad, e := r.events[..|r.events| - 1], r.events[|r.events| - 1];
    forall k | 0 <= k < |r.events| ensures Marked(format, r.events[k]) && Sound(r.events[k], args) {
      if k < |bad| { assert r.events[k] == bad[k]; }
    }
  }

  /** Every argument printed exists, with a width and a precision in range; every
      directive runs from its percent sign to its verb. */
  lemma {:induction false} EventsSound(format: seq<Byte>, a: seq<Arg>, i: nat, argNum: nat)
    requires i <= |format|
    ensures AllSound(format, Events(format, a, i, argNum), |a|)
    decreases |format| - i
  {
    var k := PercentFrom(format, i);
    assert AllSound(format, LiteralFrom(i, k), |a|);
    if k < |format| {
      var r := DirectiveAt(format, a, k, argNum);
      DirectiveShaped(format, a, k, argNum);
      OutcomeSound(format, |a|, k, argNum, r);
      EventsSound(format, a, r.i, r.argNum);
      hide DirectiveAt, Shaped, Marked, Sound, PercentFrom, LiteralFrom;
    }
  }

  lemma OneThen(e: Event, rest: seq<Event>, n: nat, args: nat)
    requires !e.BadIndex? && !e.BadWidth? && !e.BadPrec? && (e.Print? ==> e.arg == n) && (e.Missing? ==> n >= args)
    requires InOrder(rest, if e.Print? then n + 1 else n, args)
    ensures InOrder([e] + rest, n, args)
  {
    assert ([e] + rest)[1..] == rest;
  }

  /** Without indices and stars the arguments are printed in order, without
      complaints, and one is missing only when all have been printed. */
  lemma {:induction false} PlainInOrder(format: seq<Byte>, a: seq<Arg>, i: nat, argNum: nat)
    requires i <= |format| && Plain(format)
    ensures InOrder(Events(format, a, i, argNum), argNum, |a|)
    decreases |format| - i
  {
    var k := PercentFrom(format, i);
    if k < |format| {
      var r := DirectiveAt(format, a, k, argNum);
      DirectiveShaped(format, a, k, argNum);
      PlainInOrder(format, a, r.i, r.argNum);
      hide DirectiveAt, PercentFrom, Marked, Sound, Plain, InOrder;
      var rest := Events(format, a, r.i, r.argNum);
      assert r.events == [r.events[0]];
      OneThen(r.events[0], rest, argNum, |a|);
      if i < k {
        OneThen(Literal(i, k), r.events + rest, argNum, |a|);
        Regroup([Literal(i, k)], r.events, rest);
      } else {
        assert LiteralFrom(i, k) + r.events + rest == r.events + rest;
      }
    } else if i < k {
      assert [Literal(i, k)][1..] == [];
    }
  }

  function Prints(es: seq<Event>): nat {
    if es == [] then 0 else Prints(es[1..]) + if es[0].Print? then 1 else 0
  }

  // directives that want an argument
  function Wanted(es: seq<Event>): nat {
    if es == [] then 0 else Wanted(es[1..]) + if es[0].Print? || es[0].Missing? then 1 else 0
  }

  lemma {:induction false} InOrderPrints(format: seq<Byte>, es: seq<Event>, n: nat, args: nat)
    requires InOrder(es, n, args) && AllSound(format, es, args)
    ensures Prints(es) == if n < args then Min(Wanted(es), args - n) else 0
    decreases |es|
  {
    if es != [] {
      assert es[0].Print? ==> Sound(es[0], args);
      assert forall k :: 0 <= k < |es[1..]| ==> es[1..][k] == es[k + 1];
      InOrderPrints(format, es[1..], if es[0].Print? then n + 1 else n, args);
    }
  }

  /** Without indices and stars, as many arguments are printed as there are
      directives that want one, or all of them. */
  lemma PlainPrintsAll(format: seq<Byte>, a: seq<Arg>)
    requires Plain(format)
    ensures var es := Events(format, a, 0, 0); Prints(es) == Min(Wanted(es), |a|)
  {
    PlainInOrder(format, a, 0, 0);
    EventsSound(format, a, 0, 0);
    InOrderPrints(format, Events(format, a, 0, 0), 0, |a|);
  }
}
