/**
 bytes.Index and bytes.IndexRune: fast searches with a heuristic fallback, equal
 to the naive ones whatever the heuristics answer. MaxLen, MaxBruteForce and
 Cutover of internal/bytealg are parameters.
 */
module Index {
  import opened Utf8
  import opened Occurrence

  // ----- first occurrence

  lemma AtTail(s: seq<Byte>, sep: seq<Byte>, i: nat, k: nat)
    requires i <= |s|
    ensures At(s[i..], k, sep) <==> At(s, i + k, sep)
  {
    if k + |sep| <= |s| - i { assert s[i..][k..k + |sep|] == s[i + k..i + k + |sep|]; }
  }

  lemma FirstUnique(s: seq<Byte>, sep: seq<Byte>, r: int)
    requires r == -1 || At(s, r, sep)
    requires forall k :: 0 <= k && (r == -1 || k < r) ==> !At(s, k, sep)
    ensures r == First(s, sep, 0)
  {
    var f := First(s, sep, 0);
    if r != -1 && f != -1 { assert !(f < r) && !(r < f); }
  }

  // nothing occurs before i
  ghost predicate NoneBefore(s: seq<Byte>, sep: seq<Byte>, i: int) {
    forall k :: 0 <= k < i ==> !At(s, k, sep)
  }

  lemma FirstInTail(s: seq<Byte>, sep: seq<Byte>, i: nat, j: int)
    requires i <= |s| && NoneBefore(s, sep, i) && j == First(s[i..], sep, 0)
    ensures First(s, sep, 0) == if j < 0 then -1 else i + j
  {
    forall k: nat ensures At(s[i..], k, sep) <==> At(s, i + k, sep) { AtTail(s, sep, i, k); }
    if j < 0 {
      forall k: int | 0 <= k ensures !At(s, k, sep) {
        if k >= i { assert At(s[i..], k - i, sep) <==> At(s, i + (k - i), sep); }
      }
      FirstUnique(s, sep, -1);
    } else {
      forall k: int | 0 <= k < i + j ensures !At(s, k, sep) {
        if k >= i { assert At(s[i..], k - i, sep) <==> At(s, i + (k - i), sep); }
      }
      FirstUnique(s, sep, i + j);
    }
  }

  lemma NothingFits(s: seq<Byte>, sep: seq<Byte>, t: int)
    requires t == |s| - |sep| + 1 && NoneBefore(s, sep, t)
    ensures First(s, sep, 0) == -1
  {
    FirstUnique(s, sep, -1);
  }

  // the first byte rules out the positions that IndexByte skips
  lemma SkipTo(s: seq<Byte>, sep: seq<Byte>, i: nat, i': nat)
    requires NoneBefore(s, sep, i) && sep != [] && i <= i' <= |s|
    requires forall k :: i <= k < i' ==> s[k] != sep[0]
    ensures NoneBefore(s, sep, i')
  {
    forall k: int | 0 <= k < i' ensures !At(s, k, sep) {
      if At(s, k, sep) { AtByte(s, k, sep, 0); }
    }
  }

  // move to the next position whose byte is sep's first, if there is one before t
  method NextCandidate(s: seq<Byte>, sep: seq<Byte>, i: nat, t: nat) returns (found: bool, i': nat)
    requires sep != [] && i < t == |s| - |sep| + 1 && NoneBefore(s, sep, i)
    ensures !found ==> First(s, sep, 0) == -1
    ensures found ==> i <= i' < t && s[i'] == sep[0] && NoneBefore(s, sep, i')
  {
    i' := i;
    if s[i] != sep[0] {
      var o := IndexByte(s[i + 1..t], sep[0]);
      assert forall k :: i + 1 <= k < t ==> s[k] == s[i + 1..t][k - (i + 1)];
      if o < 0 {
        SkipTo(s, sep, i, t);
        NothingFits(s, sep, t);
        return false, i;
      }
      i' := i + o + 1;
      SkipTo(s, sep, i, i');
    }
    return true, i';
  }

  lemma Advance(s: seq<Byte>, sep: seq<Byte>, i: nat)
    requires NoneBefore(s, sep, i) && !At(s, i, sep)
    ensures NoneBefore(s, sep, i + 1)
  {
  }

  // the comparison at a candidate
  predicate Matches(s: seq<Byte>, sep: seq<Byte>, i: nat)
    requires |sep| >= 2 && i + |sep| <= |s|
  {
    s[i + 1] == sep[1] && s[i..i + |sep|] == sep
  }

  lemma MatchesIsAt(s: seq<Byte>, sep: seq<Byte>, i: nat)
    requires |sep| >= 2 && i + |sep| <= |s|
    ensures Matches(s, sep, i) <==> At(s, i, sep)
  {
    if At(s, i, sep) { assert s[i..i + |sep|][1] == s[i + 1]; }
  }

  // sep of two or more bytes, shorter than s, and small: fall back on bytealg.Index
  method IndexSmall(s: seq<Byte>, sep: seq<Byte>, cutover: int -> int) returns (r: int)
    requires 2 <= |sep| < |s|
    ensures r == First(s, sep, 0)
  {
    var i, t, fails := 0, |s| - |sep| + 1, 0;
    while i < t
      invariant 0 <= i <= t && NoneBefore(s, sep, i)
    {
      var found, c := NextCandidate(s, sep, i, t);
      if !found { return -1; }
      i := c;
      MatchesIsAt(s, sep, i);
      if Matches(s, sep, i) {
        FirstUnique(s, sep, i);
        return i;
      }
      Advance(s, sep, i);
      fails, i := fails + 1, i + 1;
      if fails > cutover(i) {
        var j := First(s[i..], sep, 0);
        FirstInTail(s, sep, i, j);
        return if j >= 0 then i + j else -1;
      }
    }
    NothingFits(s, sep, t);
    return -1;
  }

  // sep of two or more bytes, shorter than s, and large: fall back on Rabin-Karp
  method IndexLarge(s: seq<Byte>, sep: seq<Byte>) returns (r: int)
    requires 2 <= |sep| < |s|
    ensures r == First(s, sep, 0)
  {
    var i, t, fails := 0, |s| - |sep| + 1, 0;
    while i < t
      invariant 0 <= i <= t && NoneBefore(s, sep, i)
    {
      var found, c := NextCandidate(s, sep, i, t);
      if !found { return -1; }
      i := c;
      MatchesIsAt(s, sep, i);
      if Matches(s, sep, i) {
        FirstUnique(s, sep, i);
        return i;
      }
      Advance(s, sep, i);
      i, fails := i + 1, fails + 1;
      if fails >= 4 + i / 16 && i < t {
        var j := First(s[i..], sep, 0);
        FirstInTail(s, sep, i, j);
        return if j < 0 then -1 else i + j;
      }
    }
    NothingFits(s, sep, t);
    return -1;
  }

  /** bytes.Index is the first occurrence, whatever the platform's limits and cutover. */
  method Index(s: seq<Byte>, sep: seq<Byte>, maxLen: int, maxBruteForce: int, cutover: int -> int) returns (r: int)
    ensures r == First(s, sep, 0)
  {
    var n := |sep|;
    if n == 0 {
      FirstUnique(s, sep, 0);
      r := 0;
    } else if n == 1 {
      r := IndexByte(s, sep[0]);
      OneByte(s, sep[0]);
      assert sep == [sep[0]];
    } else if n == |s| {
      r := if sep == s then 0 else -1;
      assert At(s, 0, sep) <==> sep == s;
      FirstUnique(s, sep, r);
    } else if n > |s| {
      r := -1;
    } else if n <= maxLen && |s| <= maxBruteForce {
      r := First(s, sep, 0);
    } else if n <= maxLen {
      r := IndexSmall(s, sep, cutover);
    } else {
      r := IndexLarge(s, sep);
    }
  }

  lemma OneByte(s: seq<Byte>, c: Byte)
    ensures IndexByte(s, c) == First(s, [c], 0)
  {
    var i := IndexByte(s, c);
    forall k: int ensures At(s, k, [c]) <==> 0 <= k < |s| && s[k] == c {
      if 0 <= k < |s| { assert s[k..k + 1] == [s[k]]; }
    }
    FirstUnique(s, [c], i);
  }
}
