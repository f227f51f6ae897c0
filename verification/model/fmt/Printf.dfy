/**
 The parser of doPrintf, which moves a cursor over the format and updates the
 printer's fields as it goes: it produces exactly the events that the format means.
 */
module Printf {
  import opened Common
  import opened Utf8
  import opened Occurrence
  import opened Numerals
  import opened Directives
  import opened DirectiveProofs

  // ----- numbers and indices

  // the digits from start on end where the digits from i on do
  lemma {:induction false} SameEnd(s: seq<Byte>, start: nat, i: nat, end: nat)
    requires start <= i <= end <= |s| && forall k :: start <= k < i ==> IsDecimal(s[k])
    ensures DigitsEnd(s, start, end) == DigitsEnd(s, i, end)
    decreases i - start
  {
    if start < i { SameEnd(s, start + 1, i, end); }
  }

  method ParseNum(s: seq<Byte>, start: nat, end: nat) returns (num: nat, isnum: bool, newi: nat)
    requires end <= |s|
    ensures Num(num, isnum, newi) == NumberIn(s, start, end)
  {
    if start >= end { return 0, false, end; }
    num, isnum, newi := 0, false, start;
    while newi < end && IsDecimal(s[newi])
      invariant start <= newi <= end && num == Value(s[start..newi], 10) && (isnum <==> newi > start)
      invariant forall k :: start <= k < newi ==> IsDecimal(s[k])
      invariant forall k :: start < k < newi ==> !TooLarge(Value(s[start..k], 10))
    {
      if TooLarge(num) { return 0, false, end; }
      OneMoreDigit(s, start, newi);
      num := num * 10 + (s[newi] - 48);
      isnum := true;
      newi := newi + 1;
    }
    SameEnd(s, start, newi, end);
  }

  // an int argument for a *
  method IntFromArg(a: seq<Arg>, argNum: nat) returns (num: int, isInt: bool, newArgNum: nat)
    ensures newArgNum == NextArg(a, argNum) && isInt == StarArg(a, argNum).Some?
    ensures num == if isInt then StarArg(a, argNum).value else 0
  {
    num, isInt, newArgNum := 0, false, argNum;
    if argNum < |a| {
      if a[argNum].Int? && -0x8000_0000_0000_0000 <= a[argNum].n < 0x8000_0000_0000_0000 {
        num, isInt := a[argNum].n, true;
      }
      newArgNum := argNum + 1;
      if TooLarge(num) { num, isInt := 0, false; }
    }
  }

  lemma FirstClose(format: seq<Byte>, i: nat)
    requires 1 <= i <= |format| && forall k :: 1 <= k < i ==> format[k] != CLOSE
    ensures i < |format| && format[i] == CLOSE ==> IndexByte(format[1..], CLOSE) == i - 1
    ensures i == |format| ==> IndexByte(format[1..], CLOSE) == -1
  {
    var c := IndexByte(format[1..], CLOSE);
    assert forall k :: 1 <= k < |format| ==> format[k] == format[1..][k - 1];
    if c >= 0 { assert format[c + 1] == CLOSE; }
  }

  // the bracketed number at format[0], counted from zero, and the bytes to skip
  method ParseArgNumber(format: seq<Byte>) returns (index: int, wid: nat, ok: bool)
    requires |format| > 0
    ensures Bracket(index, wid, ok) == BracketAt(format)
  {
    hide NumberIn;
    if |format| < 3 { return 0, 1, false; }
    var i := 1;
    while i < |format|
      invariant 1 <= i <= |format| && forall k :: 1 <= k < i ==> format[k] != CLOSE
    {
      if format[i] == CLOSE {
        FirstClose(format, i);
        var width, isnum, newi := ParseNum(format, 1, i);
        if !isnum || newi != i { return 0, i + 1, false; }
        index := width;
        return index - 1, i + 1, true;
      }
      i := i + 1;
    }
    FirstClose(format, i);
    return 0, 1, false;
  }

  lemma {:induction false} SameFlagsEnd(format: seq<Byte>, i0: nat, i: nat)
    requires i0 <= i <= |format| && (forall k :: i0 <= k < i ==> IsFlag(format[k]))
    requires (i < |format| ==> !IsFlag(format[i]))
    ensures FlagsEnd(format, i0) == i
    decreases i - i0
  {
    if i0 < i { SameFlagsEnd(format, i0 + 1, i); }
  }

  lemma {:induction false} SamePercent(format: seq<Byte>, i0: nat, i: nat)
    requires i0 <= i <= |format| && (forall k :: i0 <= k < i ==> format[k] != PERCENT)
    requires (i < |format| ==> format[i] == PERCENT)
    ensures PercentFrom(format, i0) == i
    decreases i - i0
  {
    if i0 < i { SamePercent(format, i0 + 1, i); }
  }

  // ----- the printer

  class Printer {
    var f: Flags
    var wid: nat
    var prec: nat
    var goodArgNum: bool
    var reordered: bool
    var events: seq<Event>

    constructor ()
      ensures events == []
    {
      f, wid, prec, goodArgNum, reordered, events := NO_FLAGS, 0, 0, true, false, [];
    }

    // the fields and events are those of o, given the events before the directive
    ghost predicate Holds(o: Options, before: seq<Event>)
      reads this`f, this`wid, this`prec, this`events
    {
      f == o.f && wid == o.wid && prec == o.prec && events == before + o.bad
    }

    // the explicit argument index at format[i], if there is one
    method ArgNumber(argNum: nat, format: seq<Byte>, i: nat, numArgs: nat)
      returns (newArgNum: nat, newi: nat, found: bool)
      requires i <= |format|
      modifies this`reordered, this`goodArgNum
      ensures Cursor(newi, newArgNum, found, goodArgNum) ==
              AfterIndex(format, Cursor(i, argNum, false, old(goodArgNum)), numArgs)
      ensures reordered == (old(reordered) || (i < |format| && format[i] == OPEN))
    {
      if |format| <= i || format[i] != OPEN { return argNum, i, false; }
      reordered := true;
      hide BracketAt;
      var index, wid, ok := ParseArgNumber(format[i..]);
      if ok && 0 <= index < numArgs { return index, i + wid, true; }
      goodArgNum := false;
      return argNum, i + wid, ok;
    }

    // the flags at format[i]; simple if a plain lower-case verb follows and an argument is left
    method ParseFlags(format: seq<Byte>, i0: nat, more: bool) returns (i: nat, simple: bool)
      requires i0 <= |format| && f == NO_FLAGS
      modifies this`f
      ensures i == FlagsEnd(format, i0) && f == FlagsIn(format[i0..i]) && (simple <==> SimpleAt(format, i) && more)
    {
      i := i0;
      simple := false;
      assert format[i0..i0] == [];
      while i < |format|
        invariant i0 <= i <= |format| && f == FlagsIn(format[i0..i]) && !simple && forall k :: i0 <= k < i ==>
                    IsFlag(format[k])
      {
        var c := format[i];
        if c == 35 { f := f.(sharp := true); }
        else if c == 48 { f := f.(zero := true); }
        else if c == 43 { f := f.(plus := true); }
        else if c == 45 { f := f.(minus := true); }
        else if c == 32 { f := f.(space := true); }
        else {
          simple := 97 <= c <= 122 && more;
          break;
        }
        assert format[i0..i + 1] == format[i0..i] + [c];
        i := i + 1;
      }
      SameFlagsEnd(format, i0, i);
    }

    // the width at format[i]: a number, or a * and its argument
    method ParseWidth(format: seq<Byte>, a: seq<Arg>, i0: nat, argNum0: nat, afterIndex0: bool, ghost o: Options,
                      ghost before: seq<Event>)
      returns (i: nat, argNum: nat, afterIndex: bool)
      requires i0 <= |format| && Holds(o, before)
      modifies this`f, this`wid, this`goodArgNum, this`events
      ensures var p := AfterWidth(format, a, Cursor(i0, argNum0, afterIndex0, old(goodArgNum)), o);
              Cursor(i, argNum, afterIndex, goodArgNum) == p.c && Holds(p.o, before)
    {
      hide NumberIn, StarArg;
      i, argNum, afterIndex := i0, argNum0, afterIndex0;
      if i < |format| && format[i] == STAR {
        i := i + 1;
        var num, isInt;
        num, isInt, argNum := IntFromArg(a, argNum);
        f := f.(widPresent := isInt);
        Regroup(before, o.bad, [BadWidth]);
        if !isInt { events := events + [BadWidth]; }
        if num < 0 {
          num := -num;
          f := f.(minus := true, zero := false);
        }
        wid := num;
        afterIndex := false;
      } else {
        var num, isnum;
        num, isnum, i := ParseNum(format, i, |format|);
        wid := num;
        f := f.(widPresent := isnum);
        if afterIndex && isnum { goodArgNum := false; }
      }
    }

    // the precision at format[i]: a number, or a * and its argument
    method PrecNumber(format: seq<Byte>, a: seq<Arg>, i0: nat, argNum0: nat, afterIndex0: bool, ghost o: Options,
                      ghost before: seq<Event>)
      returns (i: nat, argNum: nat, afterIndex: bool)
      requires i0 <= |format| && Holds(o, before)
      modifies this`f, this`prec, this`events
      ensures var p := AfterPrecNumber(format, a, Cursor(i0, argNum0, afterIndex0, goodArgNum), o);
              Cursor(i, argNum, afterIndex, goodArgNum) == p.c && Holds(p.o, before)
    {
      hide NumberIn, StarArg;
      i, argNum, afterIndex := i0, argNum0, afterIndex0;
      if i < |format| && format[i] == STAR {
        i := i + 1;
        var num, isInt;
        num, isInt, argNum := IntFromArg(a, argNum);
        if num < 0 { num, isInt := 0, false; }
        prec := num;
        f := f.(precPresent := isInt);
        Regroup(before, o.bad, [BadPrec]);
        if !isInt { events := events + [BadPrec]; }
        afterIndex := false;
      } else {
        var num, isnum;
        num, isnum, i := ParseNum(format, i, |format|);
        prec := num;
        f := f.(precPresent := true);
      }
    }

    // a dot and a precision at format[i], if they are there
    method ParsePrec(format: seq<Byte>, a: seq<Arg>, i0: nat, argNum0: nat, afterIndex0: bool, ghost o: Options,
                     ghost before: seq<Event>)
      returns (i: nat, argNum: nat, afterIndex: bool)
      requires i0 <= |format| && Holds(o, before)
      modifies this`f, this`prec, this`goodArgNum, this`reordered, this`events
      ensures var p := AfterPrec(format, a, Cursor(i0, argNum0, afterIndex0, old(goodArgNum)), o);
              Cursor(i, argNum, afterIndex, goodArgNum) == p.c && Holds(p.o, before)
    {
      hide AfterPrecNumber, AfterIndex;
      i, argNum, afterIndex := i0, argNum0, afterIndex0;
      if !(i + 1 < |format| && format[i] == DOT) { return; }
      i := i + 1;
      if afterIndex { goodArgNum := false; }
      argNum, i, afterIndex := ArgNumber(argNum, format, i, |a|);
      i, argNum, afterIndex := PrecNumber(format, a, i, argNum, afterIndex, o, before);
    }

    // argument index, width, precision, and another argument index
    method ParseOptions(format: seq<Byte>, a: seq<Arg>, i0: nat, argNum0: nat, ghost o: Options,
                        ghost before: seq<Event>)
      returns (i: nat, argNum: nat)
      requires i0 <= |format| && Holds(o, before)
      modifies this
      ensures var p := AfterOptions(format, a, Cursor(i0, argNum0, false, old(goodArgNum)), o);
              i == p.c.i && argNum == p.c.argNum && goodArgNum == p.c.good && Holds(p.o, before)
    {
      hide AfterIndex, AfterWidth, AfterPrec;
      var afterIndex;
      ghost var c := AfterIndex(format, Cursor(i0, argNum0, false, goodArgNum), |a|);
      ghost var w := AfterWidth(format, a, c, o);
      argNum, i, afterIndex := ArgNumber(argNum0, format, i0, |a|);
      i, argNum, afterIndex := ParseWidth(format, a, i, argNum, afterIndex, o, before);
      i, argNum, afterIndex := ParsePrec(format, a, i, argNum, afterIndex, w.o, before);
      if !afterIndex {
        argNum, i, afterIndex := ArgNumber(argNum, format, i, |a|);
      }
    }

    // one directive, from its % on
    method Directive(format: seq<Byte>, a: seq<Arg>, start: nat, argNum0: nat) returns (i: nat, argNum: nat)
      requires start < |format|
      modifies this
      ensures var r := DirectiveAt(format, a, start, argNum0);
              i == r.i && argNum == r.argNum && events == old(events) + r.events
    {
      hide AfterOptions, FlagsEnd, FlagsIn, DecodeRune;
      ghost var before := events;
      goodArgNum, f, wid, prec := true, NO_FLAGS, 0, 0;
      var simple;
      argNum := argNum0;
      i, simple := ParseFlags(format, start + 1, argNum < |a|);
      if simple {
        f := VerbFlags(format[i], f);
        events := events + [Print(argNum, format[i], f, wid, prec, start, i + 1)];
        return i + 1, argNum + 1;
      }
      ghost var o := Options(f, 0, 0, []);
      assert Holds(o, before);
      ghost var p := AfterOptions(format, a, Cursor(i, argNum, false, true), o);
      i, argNum := ParseOptions(format, a, i, argNum, o, before);
      if i >= |format| {
        Regroup(before, p.o.bad, [NoVerb(start, i)]);
        events := events + [NoVerb(start, i)];
        return;
      }
      i, argNum := Verb(format, a, start, i, argNum, p, before);
    }

    // the verb at format[i]
    method Verb(format: seq<Byte>, a: seq<Arg>, start: nat, i0: nat, argNum0: nat, ghost p: Parsed,
                ghost before: seq<Event>)
      returns (i: nat, argNum: nat)
      requires start < i0 < |format| && i0 == p.c.i && argNum0 == p.c.argNum
      requires goodArgNum == p.c.good && Holds(p.o, before)
      modifies this
      ensures var r := VerbOutcome(format, a, start, p); i == r.i && argNum == r.argNum && events == before + r.events
    {
      DecodeWidth(format[i0..]);
      hide DecodeRune;
      var d := DecodeRune(format[i0..]);
      var verb := d.0;
      i, argNum := i0 + d.1, argNum0;
      var e;
      if verb == PERCENT {
        e := Percent(start, i);
      } else if !goodArgNum {
        e := BadIndex(verb, start, i);
      } else if argNum >= |a| {
        e := Missing(verb, start, i);
      } else {
        f := VerbFlags(verb, f);
        e := Print(argNum, verb, f, wid, prec, start, i);
        argNum := argNum + 1;
      }
      Regroup(before, p.o.bad, [e]);
      events := events + [e];
    }

    /** Emits exactly the events that the format means. */
    method DoPrintf(format: seq<Byte>, a: seq<Arg>)
      requires events == []
      modifies this
      ensures events == Events(format, a, 0, 0)
      ensures Covers(events, 0, |format|) && AllSound(format, events, |a|)
      ensures (Plain(format) ==> InOrder(events, 0, |a|))
    {
      EventsCover(format, a, 0, 0);
      EventsSound(format, a, 0, 0);
      if Plain(format) { PlainInOrder(format, a, 0, 0); }
      hide Events, DirectiveAt, Covers, AllSound, Plain, InOrder, PercentFrom;
      reordered := false;
      var i, argNum := 0, 0;
      assert events + Events(format, a, i, argNum) == Events(format, a, 0, 0);
      while i < |format|
        invariant i <= |format| && events + Events(format, a, i, argNum) == Events(format, a, 0, 0)
        decreases |format| - i
      {
        i, argNum := Segment(format, a, i, argNum);
      }
      NoMoreEvents(format, a, argNum);
    }

    // literal text up to the next %, and the directive there, if there is one
    method Segment(format: seq<Byte>, a: seq<Arg>, lasti: nat, argNum0: nat) returns (i: nat, argNum: nat)
      requires lasti < |format|
      modifies this
      ensures lasti < i <= |format|
      ensures events + Events(format, a, i, argNum) == old(events) + Events(format, a, lasti, argNum0)
    {
      hide DirectiveAt, PercentFrom;
      i, argNum := lasti, argNum0;
      while i < |format| && format[i] != PERCENT
        invariant lasti <= i <= |format| && forall k :: lasti <= k < i ==> format[k] != PERCENT
      {
        i := i + 1;
      }
      SamePercent(format, lasti, i);
      ghost var before, lit := events, LiteralFrom(lasti, i);
      if i > lasti { events := events + [Literal(lasti, i)]; }
      assert events == before + lit;
      if i >= |format| {
        NoMoreEvents(format, a, argNum);
        return;
      }
      ghost var r := DirectiveAt(format, a, i, argNum);
      Join3(before, lit, r.events, Events(format, a, r.i, r.argNum));
      i, argNum := Directive(format, a, i, argNum);
    }
  }

  lemma NoMoreEvents(format: seq<Byte>, a: seq<Arg>, argNum: nat)
    ensures Events(format, a, |format|, argNum) == []
  {
  }

  lemma Join3(a: seq<Event>, b: seq<Event>, c: seq<Event>, d: seq<Event>)
    ensures ((a + b) + c) + d == a + (b + c + d)
  {
  }
}
