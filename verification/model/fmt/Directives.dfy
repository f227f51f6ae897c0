/**
 What a format string means: the literal text and the directives it consists of,
 which argument each directive prints, and with which flags, width and precision.
 */
module Directives {
  import opened Common
  import opened Utf8
  import opened Occurrence
  import opened Numerals

  const PERCENT: Byte := 37
  const STAR: Byte := 42
  const DOT: Byte := 46
  const OPEN: Byte := 91
  const CLOSE: Byte := 93

  // an argument: one of integer type, or anything else
  datatype Arg = Int(n: int) | Opaque

  datatype Event =
    | Literal(from: nat, to: nat)                                                    // format[from:to] as it is
    | Print(arg: nat, verb: int, f: Flags, wid: nat, prec: nat, from: nat, to: nat)  // a[arg]
    | Percent(from: nat, to: nat)
    | BadIndex(verb: int, from: nat, to: nat)
    | Missing(verb: int, from: nat, to: nat)
    | NoVerb(from: nat, to: nat)
    | BadWidth
    | BadPrec

  // ----- numbers

  // the largest number that a format can name
  const MAX_NUM: nat := 10_000_009

  predicate TooLarge(x: int) { x > 1_000_000 || x < -1_000_000 }

  predicate IsDecimal(c: Byte) { 48 <= c <= 57 }

  // the end of the digits that start at i
  function DigitsEnd(s: seq<Byte>, i: nat, end: nat): (e: nat)
    requires i <= end <= |s|
    ensures i <= e <= end && (forall k :: i <= k < e ==> IsDecimal(s[k])) && (e < end ==> !IsDecimal(s[e]))
    decreases end - i
  {
    if i < end && IsDecimal(s[i]) then DigitsEnd(s, i + 1, end) else i
  }

  // the number gets too large before its last digit
  ghost predicate Overflows(s: seq<Byte>, start: nat, end: nat)
    requires end <= |s|
  {
    exists k :: start < k < end && TooLarge(Value(s[start..k], 10)) && forall j :: start <= j <= k ==> IsDecimal(s[j])
  }

  // a number, whether there is one, and where to go on
  datatype Num = Num(value: nat, ok: bool, next: nat)

  ghost function NumberIn(s: seq<Byte>, start: nat, end: nat): (n: Num)
    requires end <= |s|
    ensures n.next <= end && (start <= end ==> start <= n.next) && n.value <= MAX_NUM && (!n.ok ==> n.value == 0)
  {
    if start >= end then Num(0, false, end)
    else if !IsDecimal(s[start]) then Num(0, false, start)
    else if Overflows(s, start, end) then Num(0, false, end)
    else
      var e := DigitsEnd(s, start, end);
      LastDigit(s, start, e, end);
      Num(Value(s[start..e], 10), true, e)
  }

  lemma OneMoreDigit(s: seq<Byte>, start: nat, i: nat)
    requires start <= i < |s| && IsDecimal(s[i])
    ensures Value(s[start..i + 1], 10) == 10 * Value(s[start..i], 10) + (s[i] - 48)
  {
    assert s[start..i + 1][..i - start] == s[start..i];
  }

  lemma LastDigit(s: seq<Byte>, start: nat, e: nat, end: nat)
    requires start < e <= end <= |s| && !Overflows(s, start, end) && forall k :: start <= k < e ==> IsDecimal(s[k])
    ensures Value(s[start..e], 10) <= MAX_NUM
  {
    OneMoreDigit(s, start, e - 1);
    if start < e - 1 {
      assert !TooLarge(Value(s[start..e - 1], 10));
    } else {
      assert s[start..e - 1] == [];
    }
  }

  // ----- explicit argument indices

  // the bracketed number at t[0], counted from zero; how far to skip; and whether it is a number
  datatype Bracket = Bracket(index: int, width: nat, ok: bool)

  ghost function BracketAt(t: seq<Byte>): (b: Bracket)
    requires |t| > 0
    ensures 1 <= b.width <= |t| && b.index >= -1
  {
    var c := IndexByte(t[1..], CLOSE);
    if |t| < 3 || c < 0 then Bracket(0, 1, false)
    else
      var n := NumberIn(t, 1, c + 1);
      if n.ok && n.next == c + 1 then Bracket((n.value as int) - 1, c + 2, true) else Bracket(0, c + 2, false)
  }

  // where the parser of a directive stands
  datatype Cursor = Cursor(i: nat, argNum: nat, afterIndex: bool, good: bool)

  ghost function AfterIndex(format: seq<Byte>, c: Cursor, args: nat): (c': Cursor)
    requires c.i <= |format|
    ensures c.i <= c'.i <= |format|
  {
    if c.i < |format| && format[c.i] == OPEN then
      var b := BracketAt(format[c.i..]);
      if b.ok && 0 <= b.index < args then Cursor(c.i + b.width, b.index, true, c.good)
      else Cursor(c.i + b.width, c.argNum, b.ok, false)
    else c.(afterIndex := false)
  }

  // ----- flags, width and precision

  predicate IsFlag(c: Byte) { c == 35 || c == 48 || c == 43 || c == 45 || c == 32 }

  function FlagsEnd(format: seq<Byte>, i: nat): (e: nat)
    requires i <= |format|
    ensures i <= e <= |format| && (forall k :: i <= k < e ==> IsFlag(format[k]))
    ensures (e < |format| ==> !IsFlag(format[e]))
    decreases |format| - i
  {
    if i < |format| && IsFlag(format[i]) then FlagsEnd(format, i + 1) else i
  }

  const NO_FLAGS: Flags := Flags(false, false, false, false, false, false, false)

  function FlagsIn(run: seq<Byte>): Flags {
    NO_FLAGS.(sharp := 35 in run, zero := 48 in run, plus := 43 in run, minus := 45 in run, space := 32 in run)
  }

  // v and w keep # and + for themselves
  function VerbFlags(verb: int, f: Flags): Flags {
    if verb == 118 || verb == 119 then f.(sharp := false, plus := false) else f
  }

  // what has been read of a directive, and the complaints so far
  datatype Options = Options(f: Flags, wid: nat, prec: nat, bad: seq<Event>)

  datatype Parsed = Parsed(c: Cursor, o: Options)

  // the value a * takes from the arguments, if it may
  function StarArg(a: seq<Arg>, argNum: nat): (r: Option<int>)
    ensures r.Some? ==> !TooLarge(r.value)
  {
    if argNum < |a| && a[argNum].Int? && !TooLarge(a[argNum].n) then Some(a[argNum].n) else None
  }

  function NextArg(a: seq<Arg>, argNum: nat): nat { if argNum < |a| then argNum + 1 else argNum }

  predicate StarAt(format: seq<Byte>, i: nat) { i < |format| && format[i] == STAR }

  // a negative width stands for its magnitude and the minus flag, without zeros
  function StarWidth(n: Option<int>, o: Options): Options {
    if n.None? then o.(f := o.f.(widPresent := false), wid := 0, bad := o.bad + [BadWidth])
    else if n.value < 0 then o.(f := o.f.(widPresent := true, minus := true, zero := false), wid := Abs(n.value))
    else o.(f := o.f.(widPresent := true), wid := n.value)
  }

  ghost function AfterWidth(format: seq<Byte>, a: seq<Arg>, c: Cursor, o: Options): (p: Parsed)
    requires c.i <= |format|
    ensures c.i <= p.c.i <= |format|
  {
    if StarAt(format, c.i) then
      Parsed(Cursor(c.i + 1, NextArg(a, c.argNum), false, c.good), StarWidth(StarArg(a, c.argNum), o))
    else
      var n := NumberIn(format, c.i, |format|);
      Parsed(c.(i := n.next, good := c.good && !(c.afterIndex && n.ok)),
        o.(f := o.f.(widPresent := n.ok), wid := n.value))
  }

  // a negative precision is no precision
  function StarPrec(n: Option<int>, o: Options): Options {
    if n.None? || n.value < 0 then o.(f := o.f.(precPresent := false), prec := 0, bad := o.bad + [BadPrec])
    else o.(f := o.f.(precPresent := true), prec := n.value)
  }

  ghost function AfterPrecNumber(format: seq<Byte>, a: seq<Arg>, c: Cursor, o: Options): (p: Parsed)
    requires c.i <= |format|
    ensures c.i <= p.c.i <= |format|
  {
    if StarAt(format, c.i) then
      Parsed(Cursor(c.i + 1, NextArg(a, c.argNum), false, c.good), StarPrec(StarArg(a, c.argNum), o))
    else
      var n := NumberIn(format, c.i, |format|);
      Parsed(c.(i := n.next), o.(f := o.f.(precPresent := true), prec := n.value))
  }

  ghost function AfterPrec(format: seq<Byte>, a: seq<Arg>, c: Cursor, o: Options): (p: Parsed)
    requires c.i <= |format|
    ensures c.i <= p.c.i <= |format|
  {
    if c.i + 1 < |format| && format[c.i] == DOT then
      AfterPrecNumber(format, a, AfterIndex(format, Cursor(c.i + 1, c.argNum, false, c.good && !c.afterIndex), |a|), o)
    else Parsed(c, o)
  }

  // index, width, precision, and another index
  ghost function AfterOptions(format: seq<Byte>, a: seq<Arg>, c: Cursor, o: Options): (p: Parsed)
    requires c.i <= |format|
    ensures c.i <= p.c.i <= |format|
  {
    var w := AfterWidth(format, a, AfterIndex(format, c, |a|), o);
    var p := AfterPrec(format, a, w.c, w.o);
    if p.c.afterIndex then p else Parsed(AfterIndex(format, p.c, |a|), p.o)
  }

  // ----- directives

  datatype Outcome = Outcome(events: seq<Event>, i: nat, argNum: nat)

  // what a verb at p.c.i makes of the options
  ghost function VerbOutcome(format: seq<Byte>, a: seq<Arg>, start: nat, p: Parsed): (r: Outcome)
    requires start < p.c.i < |format|
    ensures start < r.i <= |format|
  {
    DecodeWidth(format[p.c.i..]);
    var (verb, n) := DecodeRune(format[p.c.i..]);
    var to := p.c.i + n;
    if verb == PERCENT then Outcome(p.o.bad + [Percent(start, to)], to, p.c.argNum)
    else if !p.c.good then Outcome(p.o.bad + [BadIndex(verb, start, to)], to, p.c.argNum)
    else if p.c.argNum >= |a| then Outcome(p.o.bad + [Missing(verb, start, to)], to, p.c.argNum)
    else
      Outcome(p.o.bad + [Print(p.c.argNum, verb, VerbFlags(verb, p.o.f), p.o.wid, p.o.prec, start, to)],
              to, p.c.argNum + 1)
  }

  // a lower-case letter right after the flags
  predicate SimpleAt(format: seq<Byte>, k: nat) { k < |format| && 97 <= format[k] <= 122 }

  ghost function DirectiveAt(format: seq<Byte>, a: seq<Arg>, start: nat, argNum: nat): (r: Outcome)
    requires start < |format|
    ensures start < r.i <= |format|
  {
    var k := FlagsEnd(format, start + 1);
    var f := FlagsIn(format[start + 1..k]);
    if SimpleAt(format, k) && argNum < |a| then
      Outcome([Print(argNum, format[k], VerbFlags(format[k], f), 0, 0, start, k + 1)], k + 1, argNum + 1)
    else
      var p := AfterOptions(format, a, Cursor(k, argNum, false, true), Options(f, 0, 0, []));
      if p.c.i >= |format| then Outcome(p.o.bad + [NoVerb(start, p.c.i)], p.c.i, p.c.argNum)
      else VerbOutcome(format, a, start, p)
  }

  function PercentFrom(format: seq<Byte>, i: nat): (k: nat)
    requires i <= |format|
    ensures i <= k <= |format| && PERCENT !in format[i..k] && (k < |format| ==> format[k] == PERCENT)
    decreases |format| - i
  {
    if i < |format| && format[i] != PERCENT then
      var k := PercentFrom(format, i + 1);
      assert format[i..k] == [format[i]] + format[i + 1..k];
      k
    else i
  }

  function LiteralFrom(i: nat, k: nat): seq<Event> { if i < k then [Literal(i, k)] else [] }

  // the events of the format from i on
  ghost function Events(format: seq<Byte>, a: seq<Arg>, i: nat, argNum: nat): seq<Event>
    requires i <= |format|
    decreases |format| - i
  {
    var k := PercentFrom(format, i);
    if k == |format| then LiteralFrom(i, k)
    else
      var r := DirectiveAt(format, a, k, argNum);
      LiteralFrom(i, k) + r.events + Events(format, a, r.i, r.argNum)
  }
}
