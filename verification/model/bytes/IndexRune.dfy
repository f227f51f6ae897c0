/**
 bytes.IndexRune searches for the encoding of a rune by its last byte; bytes.indexFunc
 decodes rune by rune. They agree on every byte string, valid UTF-8 or not.
 */
module IndexRune {
  import opened Utf8
  import opened Occurrence
  import opened Index

  // the first position, decoding from the given one on, whose rune satisfies f
  function FirstWhere(s: seq<Byte>, from: nat, f: int -> bool): int
    decreases |s| - from
  {
    if from >= |s| then -1 else
      DecodeWidth(s[from..]);
      var (r, n) := DecodeRune(s[from..]);
      if f(r) then from else FirstWhere(s, from + n, f)
  }

  function FirstRune(s: seq<Byte>, from: nat, r: int): int
    decreases |s| - from
  {
    if from >= |s| then -1 else
      DecodeWidth(s[from..]);
      var (c, n) := DecodeRune(s[from..]);
      if c == r then from else FirstRune(s, from + n, r)
  }

  lemma {:induction false} FirstRuneIsFirstWhere(s: seq<Byte>, from: nat, r: int)
    ensures FirstRune(s, from, r) == FirstWhere(s, from, c => c == r)
    decreases |s| - from
  {
    if from < |s| {
      DecodeWidth(s[from..]);
      FirstRuneIsFirstWhere(s, from + DecodeRune(s[from..]).1, r);
    }
  }

  method IndexFunc(s: seq<Byte>, f: int -> bool, truth: bool) returns (i: int)
    ensures i == FirstWhere(s, 0, r => f(r) == truth)
  {
    var start := 0;
    while start < |s|
      invariant 0 <= start <= |s| && FirstWhere(s, 0, r => f(r) == truth) == FirstWhere(s, start, r => f(r) == truth)
      decreases |s| - start
    {
      DecodeWidth(s[start..]);
      var (r, wid) := DecodeRune(s[start..]);
      if f(r) == truth { return start; }
      start := start + wid;
    }
    return -1;
  }

  // ----- self-synchronisation

  // a rune other than U+FFFD is decoded exactly where its encoding stands
  lemma DecodedWhereEncoded(s: seq<Byte>, i: nat, r: int)
    requires i < |s| && ValidRune(r) && r != RUNE_ERROR
    ensures DecodeRune(s[i..]).0 == r <==> At(s, i, EncodeRune(r))
  {
    var e := EncodeRune(r);
    if At(s, i, e) {
      assert s[i..] == e + s[i + |e|..];
      DecodeEncoded(r, s[i + |e|..]);
    }
    if DecodeRune(s[i..]).0 == r {
      EncodeDecoded(s[i..]);
      var n := DecodeRune(s[i..]).1;
      assert s[i..][..n] == s[i..i + n];
    }
  }

  // no encoding starts inside another one
  lemma NoneInside(s: seq<Byte>, i: nat, k: nat, r: int)
    requires i < |s| && i < k < i + DecodeRune(s[i..]).1
    ensures !At(s, k, EncodeRune(r))
  {
    DecodeWidth(s[i..]);
    EncodeShape(r);
    hide EncodeRune, DecodeRune;
    assert s[k] == s[i..][k - i];
    if At(s, k, EncodeRune(r)) { AtByte(s, k, EncodeRune(r), 0); }
  }

  lemma {:induction false} FirstRuneIsFirst(s: seq<Byte>, from: nat, r: int)
    requires from <= |s| && ValidRune(r) && r != RUNE_ERROR && NoneBefore(s, EncodeRune(r), from)
    ensures FirstRune(s, from, r) == First(s, EncodeRune(r), 0)
    decreases |s| - from
  {
    var e := EncodeRune(r);
    EncodeShape(r);
    if from < |s| {
      DecodeWidth(s[from..]);
      DecodedWhereEncoded(s, from, r);
      var n := DecodeRune(s[from..]).1;
      if DecodeRune(s[from..]).0 == r {
        FirstUnique(s, e, from);
      } else {
        forall k: nat | k < from + n ensures !At(s, k, e) {
          if from < k { NoneInside(s, from, k, r); }
        }
        FirstRuneIsFirst(s, from + n, r);
      }
    } else {
      FirstUnique(s, e, -1);
    }
  }

  lemma {:induction false} InvalidNeverDecoded(s: seq<Byte>, from: nat, r: int)
    requires !ValidRune(r)
    ensures FirstRune(s, from, r) == -1
    decreases |s| - from
  {
    if from < |s| {
      DecodeWidth(s[from..]);
      InvalidNeverDecoded(s, from + DecodeRune(s[from..]).1, r);
    }
  }

  // ----- the search

  // a byte that does not match rules out an occurrence that ends at i
  lemma Mismatch(s: seq<Byte>, b: seq<Byte>, i: nat, j: nat)
    requires j < |b| <= i + 1 <= |s| && s[i - j] != b[|b| - 1 - j]
    ensures !At(s, i - (|b| - 1), b)
  {
    var k: nat := |b| - 1 - j;
    if At(s, i - (|b| - 1), b) { AtByte(s, i - (|b| - 1), b, k); }
  }

  // step backwards from i comparing bytes; the last `from` bytes are known to match
  method MatchesBack(s: seq<Byte>, i: nat, b: seq<Byte>, from: nat) returns (ok: bool)
    requires 1 <= from <= |b| <= i + 1 <= |s| && s[i + 1 - from..i + 1] == b[|b| - from..]
    ensures ok <==> At(s, i - (|b| - 1), b)
  {
    var last := |b| - 1;
    var j := from;
    while j < |b|
      invariant from <= j <= |b| && s[i + 1 - j..i + 1] == b[|b| - j..]
    {
      if s[i - j] != b[last - j] {
        Mismatch(s, b, i, j);
        return false;
      }
      assert s[i - j..i + 1] == [s[i - j]] + s[i + 1 - j..i + 1];
      assert b[last - j..] == [b[last - j]] + b[|b| - j..];
      j := j + 1;
    }
    return true;
  }

  lemma SkipLast(s: seq<Byte>, b: seq<Byte>, i: nat, i': nat)
    requires b != [] && |b| - 1 <= i <= i' <= |s| && NoneBefore(s, b, i - (|b| - 1))
    requires forall k :: i <= k < i' ==> s[k] != b[|b| - 1]
    ensures NoneBefore(s, b, i' - (|b| - 1))
  {
    var last := |b| - 1;
    forall k: int | 0 <= k < i' - last ensures !At(s, k, b) {
      if k >= i - last { Mismatch(s, b, k + last, 0); }
    }
  }

  // move to the next position whose byte is b's last, if there is one
  method NextLast(s: seq<Byte>, b: seq<Byte>, i: nat) returns (found: bool, i': nat)
    requires b != [] && |b| - 1 <= i < |s| && NoneBefore(s, b, i - (|b| - 1))
    ensures !found ==> First(s, b, 0) == -1
    ensures found ==> i <= i' < |s| && s[i'] == b[|b| - 1] && NoneBefore(s, b, i' - (|b| - 1))
  {
    var last := |b| - 1;
    i' := i;
    if s[i] != b[last] {
      var o := IndexByte(s[i + 1..], b[last]);
      assert forall k :: i + 1 <= k < |s| ==> s[k] == s[i + 1..][k - (i + 1)];
      if o < 0 {
        SkipLast(s, b, i, |s|);
        NothingFits(s, b, |s| - last);
        return false, i;
      }
      i' := i + o + 1;
      SkipLast(s, b, i, i');
    }
    return true, i';
  }

  lemma Found(s: seq<Byte>, b: seq<Byte>, i: nat)
    requires NoneBefore(s, b, i) && At(s, i, b)
    ensures First(s, b, 0) == i
  {
    FirstUnique(s, b, i);
  }

  lemma LastMatches(s: seq<Byte>, i: nat, b: seq<Byte>)
    requires i < |s| && b != [] && s[i] == b[|b| - 1]
    ensures s[i + 1 - 1..i + 1] == b[|b| - 1..]
  {
  }

  // the search for an encoding of two or more bytes
  method IndexEncoded(s: seq<Byte>, b: seq<Byte>, haveFastIndex: bool, cutover: int -> int) returns (r: int)
    requires |b| >= 2
    ensures r == First(s, b, 0)
  {
    var last := |b| - 1;
    var i, fails := last, 0;
    assert NoneBefore(s, b, 0);
    hide NoneBefore, First, At;
    while i < |s|
      invariant last <= i && (i <= |s| || |s| < last) && NoneBefore(s, b, i - last)
      decreases |s| - i
    {
      var found, c := NextLast(s, b, i);
      if !found { return -1; }
      i := c;
      LastMatches(s, i, b);
      var ok := MatchesBack(s, i, b, 1);
      if ok {
        Found(s, b, i - last);
        return i - last;
      }
      Advance(s, b, i - last);
      fails, i := fails + 1, i + 1;
      if (haveFastIndex && fails > cutover(i) && i < |s|) || (!haveFastIndex && fails >= 4 + i / 16 && i < |s|) {
        if haveFastIndex {
          var j := First(s[i - last..], b, 0);
          FirstInTail(s, b, i - last, j);
          return if j >= 0 then i + j - last else -1;
        } else {
          r := BruteForce(s, b, i);
          return;
        }
      }
    }
    NothingFits(s, b, |s| - last);
    return -1;
  }

  method BruteForce(s: seq<Byte>, b: seq<Byte>, start: nat) returns (r: int)
    requires 2 <= |b| <= start + 1 && start <= |s| && NoneBefore(s, b, start - (|b| - 1))
    ensures r == First(s, b, 0)
  {
    var last := |b| - 1;
    var c0, c1 := b[last], b[last - 1];
    var i := start;
    while i < |s|
      invariant start <= i <= |s| && NoneBefore(s, b, i - last)
    {
      if s[i] == c0 && s[i - 1] == c1 {
        assert s[i - 1..i + 1] == [c1, c0] == b[|b| - 2..];
        var ok := MatchesBack(s, i, b, 2);
        if ok {
          Found(s, b, i - last);
          return i - last;
        }
      } else {
        Mismatch(s, b, i, if s[i] == c0 then 1 else 0);
      }
      Advance(s, b, i - last);
      i := i + 1;
    }
    NothingFits(s, b, |s| - last);
    return -1;
  }

  method FirstError(s: seq<Byte>) returns (r: int)
    ensures r == FirstRune(s, 0, RUNE_ERROR)
  {
    var i := 0;
    while i < |s|
      invariant 0 <= i <= |s| && FirstRune(s, 0, RUNE_ERROR) == FirstRune(s, i, RUNE_ERROR)
      decreases |s| - i
    {
      DecodeWidth(s[i..]);
      var (r1, n) := DecodeRune(s[i..]);
      if r1 == RUNE_ERROR { return i; }
      i := i + n;
    }
    return -1;
  }

  /** IndexRune(s, r) is indexFunc(s, c == r) for every s and every r. */
  method IndexRune(s: seq<Byte>, r: int, maxBruteForce: int, cutover: int -> int) returns (i: int)
    ensures i == FirstWhere(s, 0, c => c == r)
  {
    FirstRuneIsFirstWhere(s, 0, r);
    if 0 <= r < RUNE_SELF {
      i := IndexByte(s, r);
      OneByte(s, r);
      FirstRuneIsFirst(s, 0, r);
    } else if r == RUNE_ERROR {
      i := FirstError(s);
    } else if !ValidRune(r) {
      InvalidNeverDecoded(s, 0, r);
      i := -1;
    } else {
      EncodeShape(r);
      i := IndexEncoded(s, EncodeRune(r), maxBruteForce > 0, cutover);
      FirstRuneIsFirst(s, 0, r);
    }
  }
}
