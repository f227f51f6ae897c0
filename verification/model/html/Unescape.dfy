/**
 html.UnescapeString in place: one buffer, read at src and overwritten at dst.
 */
module Unescape {
  import opened Common
  import opened Utf8
  import opened Occurrence
  import opened Entities

  // ----- writing into the buffer

  // utf8.EncodeRune(b[dst:], r)
  method EncodeAt(b: array<Byte>, dst: nat, r: int) returns (n: nat)
    requires dst + |EncodeRune(r)| <= b.Length
    modifies b
    ensures n == |EncodeRune(r)|
    ensures b[..] == old(b[..dst]) + EncodeRune(r) + old(b[dst + n..])
  {
    EncodeShape(r);
    var e := EncodeRune(r);
    hide EncodeRune;
    n := |e|;
    b[dst] := e[0];
    if n > 1 { b[dst + 1] := e[1]; }
    if n > 2 { b[dst + 2] := e[2]; }
    if n > 3 { b[dst + 3] := e[3]; }
  }

  // copy(b[dst:], b[src:src+n]) toward the front
  method CopyDown(b: array<Byte>, dst: nat, src: nat, n: nat)
    requires dst <= src && src + n <= b.Length
    modifies b
    ensures b[..] == old(b[..dst]) + old(b[src..src + n]) + old(b[dst + n..])
  {
    ghost var was := b[..];
    var i := 0;
    while i < n
      invariant 0 <= i <= n
      invariant b[..dst] == was[..dst] && b[dst..dst + i] == was[src..src + i] && b[dst + i..] == was[dst + i..]
    {
      assert b[src + i] == b[dst + i..][src - dst] == was[src + i];
      b[dst + i] := b[src + i];
      assert b[dst..dst + i + 1] == was[src..src + i + 1];
      assert b[dst + i + 1..] == was[dst + i + 1..];
      i := i + 1;
    }
    assert b[..] == b[..dst] + b[dst..dst + n] + b[dst + n..];
  }

  // ----- reading a reference

  lemma WrapStep(hex: bool, ds: seq<Byte>, c: Byte)
    ensures Value(hex, ds + [c]) == (if hex then 16 * Value(hex, ds) else 10 * Value(hex, ds)) + Digit(c)
    ensures var x := Wrap32(Value(hex, ds));
            Wrap32((if hex then 16 * x else 10 * x) + Digit(c)) == Wrap32(Value(hex, ds + [c]))
  {
    assert (ds + [c])[..|ds|] == ds;
    var v := Value(hex, ds);
    var q := (v + 0x8000_0000) / 0x1_0000_0000;
    assert Wrap32(v) == v - q * 0x1_0000_0000;
    WrapPeriodic((if hex then 16 * v else 10 * v) + Digit(c), if hex then 16 * q else 10 * q);
  }

  lemma WrapPeriodic(v: int, k: int)
    ensures Wrap32(v - k * 0x1_0000_0000) == Wrap32(v)
  {
  }

  // one more digit in the 32-bit accumulator
  function Accumulate(hex: bool, x: int, c: Byte): int {
    Wrap32((if hex then 16 * x else 10 * x) + Digit(c))
  }

  lemma AccumulateStep(hex: bool, s: seq<Byte>, start: nat, i: nat)
    requires start <= i < |s|
    ensures Accumulate(hex, Wrap32(Value(hex, s[start..i])), s[i]) == Wrap32(Value(hex, s[start..i + 1]))
  {
    assert s[start..i + 1] == s[start..i] + [s[i]];
    WrapStep(hex, s[start..i], s[i]);
    hide Value, Wrap32, Digit;
  }

  // the digits of a numeric reference, up to and including a semicolon
  method ReadNumber(b: array<Byte>, src: nat, hex: bool, start: nat) returns (i: nat, x: int)
    requires src + start <= b.Length
    ensures var s := b[src..]; i == PastSemicolon(s, DigitsEnd(hex, s, start))
    ensures var s := b[src..]; x == Wrap32(Value(hex, s[start..DigitsEnd(hex, s, start)]))
  {
    ghost var s := b[src..];
    i, x := start, 0;
    assert s[start..start] == [];
    assert Wrap32(Value(hex, [])) == 0;
    hide Accumulate, Wrap32, Value, IsDigit;
    while src + i < b.Length
      invariant start <= i <= |s| && DigitsEnd(hex, s, start) == DigitsEnd(hex, s, i)
      invariant x == Wrap32(Value(hex, s[start..i]))
    {
      var c := b[src + i];
      assert c == s[i];
      if !IsDigit(hex, c) {
        if c == SEMI { i := i + 1; }
        return;
      }
      AccumulateStep(hex, s, start, i);
      x := Accumulate(hex, x, c);
      i := i + 1;
    }
  }

  method ReadName(b: array<Byte>, src: nat) returns (i: nat)
    requires src + 1 <= b.Length
    ensures i == PastSemicolon(b[src..], NameEnd(b[src..], 1))
  {
    ghost var s := b[src..];
    i := 1;
    while src + i < b.Length
      invariant 1 <= i <= |s| && NameEnd(s, 1) == NameEnd(s, i)
    {
      var c := b[src + i];
      assert c == s[i];
      if !IsNameByte(c) {
        if c == SEMI { i := i + 1; }
        return;
      }
      i := i + 1;
    }
  }

  // the entity without semicolon that starts name, searched from the longest down
  method ShorterName(tab: Table, name: seq<Byte>) returns (j: nat)
    requires name != []
    ensures j == LongestPrefix(tab, name, Min(|name| - 1, LONGEST_WITHOUT_SEMICOLON))
  {
    j := |name| - 1;
    if j > LONGEST_WITHOUT_SEMICOLON { j := LONGEST_WITHOUT_SEMICOLON; }
    ghost var max := j;
    while j > 1
      invariant 0 <= j <= max < |name| && LongestPrefix(tab, name, max) == LongestPrefix(tab, name, j)
    {
      if One(tab, name[..j]) != 0 { return; }
      j := j - 1;
    }
    j := 0;
  }

  // ----- one reference, in place

  // the buffer after piece e was written at dst
  ghost predicate Written(was: seq<Byte>, now: seq<Byte>, dst: nat, src: nat, e: Piece, dst1: nat, src1: nat) {
    && |now| == |was| && dst <= src
    && dst1 == dst + |e.out| && src1 == src + e.used && dst1 <= src1 <= |was|
    && now[..dst1] == was[..dst] + e.out && now[src1..] == was[src1..]
  }

  lemma WrittenAdvances(was: seq<Byte>, now: seq<Byte>, dst: nat, src: nat, e: Piece, dst1: nat, src1: nat)
    requires Written(was, now, dst, src, e, dst1, src1)
    ensures dst1 == dst + |e.out| && src1 == src + e.used && src1 <= |was|
  {
  }

  // replacing the bytes from dst on by e.out leaves what lies past src1 alone
  lemma WrittenBySplice(was: seq<Byte>, now: seq<Byte>, dst: nat, src: nat, e: Piece)
    requires dst <= src && |e.out| <= e.used && src + e.used <= |was|
    requires now == was[..dst] + e.out + was[dst + |e.out|..]
    ensures Written(was, now, dst, src, e, dst + |e.out|, src + e.used)
  {
    var d1, s1 := dst + |e.out|, src + e.used;
    assert now[..d1] == was[..dst] + e.out;
    assert now[s1..] == was[s1..];
  }

  method EmitRune(b: array<Byte>, dst: nat, src: nat, r: int, used: nat) returns (dst1: nat, src1: nat)
    requires dst <= src && |EncodeRune(r)| <= used <= b.Length - src
    modifies b
    ensures Written(old(b[..]), b[..], dst, src, Piece(EncodeRune(r), used), dst1, src1)
  {
    ghost var was := b[..];
    var n := EncodeAt(b, dst, r);
    hide EncodeRune;
    WrittenBySplice(was, b[..], dst, src, Piece(EncodeRune(r), used));
    return dst + n, src + used;
  }

  lemma TwoSplices(was: seq<Byte>, mid: seq<Byte>, now: seq<Byte>, dst: nat, e: seq<Byte>, f: seq<Byte>)
    requires dst + |e| + |f| <= |was| && mid == was[..dst] + e + was[dst + |e|..]
    requires now == mid[..dst + |e|] + f + mid[dst + |e| + |f|..]
    ensures now == was[..dst] + (e + f) + was[dst + |e + f|..]
  {
    assert mid[..dst + |e|] == was[..dst] + e;
    assert mid[dst + |e| + |f|..] == was[dst + |e| + |f|..];
  }

  method EmitRunes(b: array<Byte>, dst: nat, src: nat, r: int, r2: int, used: nat) returns (dst1: nat, src1: nat)
    requires dst <= src && |EncodeRune(r)| + |EncodeRune(r2)| <= used <= b.Length - src
    modifies b
    ensures Written(old(b[..]), b[..], dst, src, Piece(EncodeRune(r) + EncodeRune(r2), used), dst1, src1)
  {
    hide EncodeRune, Written;
    ghost var was := b[..];
    var n := EncodeAt(b, dst, r);
    ghost var mid := b[..];
    var n2 := EncodeAt(b, dst + n, r2);
    TwoSplices(was, mid, b[..], dst, EncodeRune(r), EncodeRune(r2));
    WrittenBySplice(was, b[..], dst, src, Piece(EncodeRune(r) + EncodeRune(r2), used));
    return dst + n + n2, src + used;
  }

  // the reference is not one: its first n bytes stand for themselves
  method EmitText(b: array<Byte>, dst: nat, src: nat, n: nat) returns (dst1: nat, src1: nat)
    requires dst <= src && n <= b.Length - src
    modifies b
    ensures Written(old(b[..]), b[..], dst, src, Piece(old(b[src..][..n]), n), dst1, src1)
  {
    ghost var was := b[..];
    CopyDown(b, dst, src, n);
    assert was[src..src + n] == was[src..][..n];
    WrittenBySplice(was, b[..], dst, src, Piece(was[src..][..n], n));
    return dst + n, src + n;
  }

  method UnescapeEntity(tab: Table, b: array<Byte>, dst: nat, src: nat) returns (dst1: nat, src1: nat)
    requires Fits(tab) && dst <= src < b.Length && b[src] == AMP
    modifies b
    ensures Written(old(b[..]), b[..], dst, src, Entity(tab, old(b[src..])), dst1, src1)
  {
    EntityFits(tab, b[src..]);
    hide Fits, Written, Numeric, Named;
    if b.Length - src <= 1 {
      assert b[src..][..1] == [AMP];
      dst1, src1 := EmitText(b, dst, src, 1);
    } else if b[src + 1] == HASH {
      dst1, src1 := UnescapeNumber(b, dst, src);
    } else {
      dst1, src1 := UnescapeName(tab, b, dst, src);
    }
  }

  method UnescapeNumber(b: array<Byte>, dst: nat, src: nat) returns (dst1: nat, src1: nat)
    requires dst <= src && src + 1 < b.Length && b[src] == AMP && b[src + 1] == HASH
    requires |Numeric(b[src..]).out| <= Numeric(b[src..]).used <= b.Length - src
    modifies b
    ensures Written(old(b[..]), b[..], dst, src, Numeric(old(b[src..])), dst1, src1)
  {
    hide Written, EncodeRune, CodePoint, Value, Wrap32;
    ghost var s := b[src..];
    assert s[..1] == [AMP];
    if b.Length - src <= 3 {
      dst1, src1 := EmitText(b, dst, src, 1);
    } else {
      var hex := b[src + 2] == 120 || b[src + 2] == 88;
      var i, x := ReadNumber(b, src, hex, if hex then 3 else 2);
      assert hex == IsHex(s);
      if i <= 3 {
        dst1, src1 := EmitText(b, dst, src, 1);
      } else {
        dst1, src1 := EmitRune(b, dst, src, CodePoint(x), i);
      }
    }
  }

  method UnescapeName(tab: Table, b: array<Byte>, dst: nat, src: nat) returns (dst1: nat, src1: nat)
    requires dst <= src && src + 1 < b.Length && b[src] == AMP
    requires |Named(tab, b[src..]).out| <= Named(tab, b[src..]).used <= b.Length - src
    modifies b
    ensures Written(old(b[..]), b[..], dst, src, Named(tab, old(b[src..])), dst1, src1)
  {
    hide Written, EncodeRune, One, Two, NameEnd, LongestPrefix;
    var i := ReadName(b, src);
    var name := b[src + 1..src + i];
    assert name == b[src..][1..i];
    if name == [] {
      dst1, src1 := EmitText(b, dst, src, i);
    } else if One(tab, name) != 0 {
      dst1, src1 := EmitRune(b, dst, src, One(tab, name), i);
    } else if Two(tab, name).0 != 0 {
      dst1, src1 := EmitRunes(b, dst, src, Two(tab, name).0, Two(tab, name).1, i);
    } else {
      var j := ShorterName(tab, name);
      if j != 0 {
        dst1, src1 := EmitRune(b, dst, src, One(tab, name[..j]), j + 1);
      } else {
        dst1, src1 := EmitText(b, dst, src, i);
      }
    }
  }

  // ----- the whole string

  // copy(b[dst:], t)
  method PutAt(b: array<Byte>, dst: nat, t: seq<Byte>)
    requires dst + |t| <= b.Length
    modifies b
    ensures b[..] == old(b[..dst]) + t + old(b[dst + |t|..])
  {
    ghost var was := b[..];
    forall k | 0 <= k < |t| { b[dst + k] := t[k]; }
    assert b[..] == was[..dst] + t + was[dst + |t|..];
  }

  lemma {:induction false} PlainPrefix(tab: Table, s: seq<Byte>, n: nat)
    requires n <= |s| && forall k :: 0 <= k < n ==> s[k] != AMP
    ensures Unescape(tab, s) == s[..n] + Unescape(tab, s[n..])
  {
    if n > 0 {
      assert Unescape(tab, s) == [s[0]] + Unescape(tab, s[1..]);
      hide Unescape;
      PlainPrefix(tab, s[1..], n - 1);
      TailOfTail(s, 1, n - 1);
      assert [s[0]] + s[1..][..n - 1] == s[..n];
      Regroup([s[0]], s[1..][..n - 1], Unescape(tab, s[n..]));
    } else {
      assert s[0..] == s;
    }
  }

  // what the loop of UnescapeString keeps: dst has not passed src, the unread input is intact
  ghost predicate InStep(tab: Table, s: seq<Byte>, b: seq<Byte>, dst: nat, src: nat) {
    && dst <= src <= |s| == |b| && b[src..] == s[src..]
    && Unescape(tab, s) == b[..dst] + Unescape(tab, s[src..])
  }

  lemma TailOfTail(s: seq<Byte>, i: nat, n: nat)
    requires i + n <= |s|
    ensures s[i..][n..] == s[i + n..]
  {
  }

  lemma StepBy(tab: Table, s: seq<Byte>, b: seq<Byte>, b': seq<Byte>, dst: nat, src: nat, e: Piece, dst1: nat,
               src1: nat)
    requires InStep(tab, s, b, dst, src) && Written(b, b', dst, src, e, dst1, src1)
    requires Unescape(tab, s[src..]) == e.out + Unescape(tab, s[src1..])
    ensures InStep(tab, s, b', dst1, src1)
  {
    hide Unescape;
    TailOfTail(s, src, e.used);
    TailOfTail(b, src, e.used);
    Regroup(b[..dst], e.out, Unescape(tab, s[src1..]));
  }

  lemma PlainAt(tab: Table, s: seq<Byte>, src: nat, i: nat)
    requires src + i <= |s| && forall k :: src <= k < src + i ==> s[k] != AMP
    ensures Unescape(tab, s[src..]) == s[src..src + i] + Unescape(tab, s[src + i..])
  {
    hide Unescape;
    PlainPrefix(tab, s[src..], i);
    TailOfTail(s, src, i);
    assert s[src..][..i] == s[src..src + i];
  }

  lemma TextKeepsStep(tab: Table, s: seq<Byte>, b: seq<Byte>, b': seq<Byte>, dst: nat, src: nat, i: nat)
    requires InStep(tab, s, b, dst, src) && src + i <= |s| && forall k :: src <= k < src + i ==> s[k] != AMP
    requires b' == b[..dst] + s[src..src + i] + b[dst + i..]
    ensures InStep(tab, s, b', dst + i, src + i)
  {
    PlainAt(tab, s, src, i);
    InBounds(tab, s, b, dst, src);
    hide InStep, Unescape, Written;
    var t := s[src..src + i];
    WrittenBySplice(b, b', dst, src, Piece(t, i));
    StepBy(tab, s, b, b', dst, src, Piece(t, i), dst + i, src + i);
  }

  lemma InBounds(tab: Table, s: seq<Byte>, b: seq<Byte>, dst: nat, src: nat)
    requires InStep(tab, s, b, dst, src)
    ensures dst <= src <= |s| == |b|
  {
  }

  lemma UnescapeAtEntity(tab: Table, s: seq<Byte>)
    requires Fits(tab) && s != [] && s[0] == AMP
    ensures var e := Entity(tab, s); 0 < e.used <= |s| && Unescape(tab, s) == e.out + Unescape(tab, s[e.used..])
  {
    EntityFits(tab, s);
    hide Entity, Fits;
  }

  lemma EntityKeepsStep(tab: Table, s: seq<Byte>, b: seq<Byte>, b': seq<Byte>, dst: nat, src: nat, dst1: nat, src1: nat)
    requires Fits(tab) && InStep(tab, s, b, dst, src) && src < |s| && s[src] == AMP
    requires Written(b, b', dst, src, Entity(tab, s[src..]), dst1, src1)
    ensures InStep(tab, s, b', dst1, src1) && src < src1
  {
    hide Entity, Fits, Unescape, InStep, Written;
    InBounds(tab, s, b, dst, src);
    var e := Entity(tab, s[src..]);
    WrittenAdvances(b, b', dst, src, e, dst1, src1);
    UnescapeAtEntity(tab, s[src..]);
    TailOfTail(s, src, e.used);
    StepBy(tab, s, b, b', dst, src, e, dst1, src1);
  }

  method CopyText(tab: Table, s: seq<Byte>, b: array<Byte>, dst: nat, src: nat, i: nat)
    requires InStep(tab, s, b[..], dst, src) && src + i <= |s| && forall k :: src <= k < src + i ==> s[k] != AMP
    modifies b
    ensures InStep(tab, s, b[..], dst + i, src + i)
  {
    ghost var was := b[..];
    PutAt(b, dst, s[src..src + i]);
    TextKeepsStep(tab, s, was, b[..], dst, src, i);
  }

  method NextEntity(tab: Table, s: seq<Byte>, b: array<Byte>, dst: nat, src: nat) returns (dst1: nat, src1: nat)
    requires Fits(tab) && InStep(tab, s, b[..], dst, src) && src < |s| && s[src] == AMP
    modifies b
    ensures InStep(tab, s, b[..], dst1, src1) && src < src1
  {
    hide Fits, Unescape, Entity;
    ghost var was := b[..];
    assert b[src] == b[..][src..][0] == s[src..][0];
    assert b[src..] == b[..][src..] == s[src..];
    dst1, src1 := UnescapeEntity(tab, b, dst, src);
    hide InStep, Written;
    EntityKeepsStep(tab, s, was, b[..], dst, src, dst1, src1);
  }

  lemma Start(tab: Table, s: seq<Byte>, i: nat)
    requires i <= |s| && forall k :: 0 <= k < i ==> s[k] != AMP
    ensures InStep(tab, s, s, i, i)
  {
    PlainPrefix(tab, s, i);
  }

  lemma Finish(tab: Table, s: seq<Byte>, b: seq<Byte>, dst: nat)
    requires InStep(tab, s, b, dst, |s|)
    ensures dst <= |b| && b[..dst] == Unescape(tab, s)
  {
    assert s[|s|..] == [];
  }

  // how far the next ampersand is; -1 if there is none
  method NextAmpersand(s: seq<Byte>, src: nat) returns (i: int)
    requires src < |s|
    ensures i == -1 || (0 <= i && src + i < |s| && s[src + i] == AMP)
    ensures forall k :: src <= k < (if i < 0 then |s| else src + i) ==> s[k] != AMP
  {
    if s[src] == AMP { return 0; }
    i := IndexByte(s[src..], AMP);
    assert forall k :: src <= k < |s| ==> s[k] == s[src..][k - src];
  }

  method UnescapeString(tab: Table, s: seq<Byte>) returns (r: seq<Byte>)
    requires Fits(tab)
    ensures r == Unescape(tab, s)
  {
    hide Fits, Entity, InStep, Unescape;
    var i := IndexByte(s, AMP);
    if i < 0 {
      Start(tab, s, |s|);
      Finish(tab, s, s, |s|);
      return s;
    }
    var b := new Byte[|s|](k requires 0 <= k < |s| => s[k]);
    assert b[..] == s;
    Start(tab, s, i);
    var dst, src := NextEntity(tab, s, b, i, i);
    InBounds(tab, s, b[..], dst, src);
    while src < |s|
      invariant 0 <= dst && src <= |s| && InStep(tab, s, b[..], dst, src)
    {
      i := NextAmpersand(s, src);
      if i < 0 {
        CopyText(tab, s, b, dst, src, |s| - src);
        dst, src := dst + (|s| - src), |s|;
        break;
      }
      CopyText(tab, s, b, dst, src, i);
      dst, src := NextEntity(tab, s, b, dst + i, src + i);
      InBounds(tab, s, b[..], dst, src);
    }
    Finish(tab, s, b[..], dst);
    r := b[..dst];
  }
}
