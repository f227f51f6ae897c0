/**
 First occurrence of a byte or of a byte string: what IndexByte, Index and
 IndexRabinKarp of internal/bytealg promise.
 */
module Occurrence {
  import opened Utf8

  predicate At(s: seq<Byte>, k: int, sep: seq<Byte>) {
    0 <= k && k + |sep| <= |s| && s[k..k + |sep|] == sep
  }

  lemma AtByte(s: seq<Byte>, k: int, sep: seq<Byte>, j: nat)
    requires At(s, k, sep) && j < |sep|
    ensures s[k + j] == sep[j]
  {
    assert s[k..k + |sep|][j] == s[k + j];
  }

  // the least position, from the given one on, at which sep occurs; -1 if there is none
  function First(s: seq<Byte>, sep: seq<Byte>, from: nat): (i: int)
    ensures i == -1 || (from <= i && At(s, i, sep))
    ensures forall k :: from <= k && (i == -1 || k < i) ==> !At(s, k, sep)
    decreases |s| - from
  {
    if from + |sep| > |s| then -1
    else if At(s, from, sep) then from
    else First(s, sep, from + 1)
  }

  function IndexByte(s: seq<Byte>, c: Byte): (i: int)
    ensures i == -1 || (0 <= i < |s| && s[i] == c)
    ensures forall k :: 0 <= k < |s| && (i == -1 || k < i) ==> s[k] != c
    decreases |s|
  {
    if s == [] then -1
    else if s[0] == c then 0
    else var i := IndexByte(s[1..], c); if i < 0 then -1 else i + 1
  }
}
