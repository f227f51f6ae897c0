/**
 UTF-8 as package unicode/utf8 reads and writes it (sections 3 and 4 of RFC
 3629): an invalid encoding consumes one byte and yields U+FFFD.
 */
module Utf8 {

  type Byte = x: int | 0 <= x < 256

  const RUNE_ERROR: int := 0xFFFD
  const RUNE_SELF: int := 0x80
  const MAX_RUNE: int := 0x10FFFF

  predicate ValidRune(r: int) { 0 <= r < 0xD800 || 0xDFFF < r <= MAX_RUNE }

  predicate Continuation(b: Byte) { 0x80 <= b <= 0xBF }

  // the size announced by a first byte; 1 for ASCII and for bytes that start nothing
  function Size(b: Byte): nat {
    if b < 0xC2 then 1 else if b < 0xE0 then 2 else if b < 0xF0 then 3 else if b < 0xF5 then 4 else 1
  }

  // the range of second bytes that a first byte accepts
  function Low(b: Byte): Byte { if b == 0xE0 then 0xA0 else if b == 0xF0 then 0x90 else 0x80 }

  function High(b: Byte): Byte { if b == 0xED then 0x9F else if b == 0xF4 then 0x8F else 0xBF }

  predicate Second(b: Byte, c: Byte) { Low(b) <= c <= High(b) }

  // the last six bits of a rune as a continuation byte, and the bits before them
  function Six(r: nat): Byte { 0x80 + r % 0x40 }

  function Rest(r: nat): nat { r / 0x40 }

  function EncodeRune(r: int): seq<Byte> {
    if !ValidRune(r) then [0xEF, 0xBF, 0xBD]
    else if r < 0x80 then [r]
    else if r < 0x800 then [0xC0 + Rest(r), Six(r)]
    else if r < 0x10000 then [0xE0 + Rest(Rest(r)), Six(Rest(r)), Six(r)]
    else [0xF0 + Rest(Rest(Rest(r))), Six(Rest(Rest(r))), Six(Rest(r)), Six(r)]
  }

  // one more continuation byte
  function Join(high: int, b: int): int { high * 0x40 + (b - 0x80) }

  /** The rune and its width; (RUNE_ERROR, 0) on no input. In a byte that passed
      its range check, masking off the tag is subtracting it. */
  function DecodeRune(p: seq<Byte>): (int, nat) {
    if p == [] then (RUNE_ERROR, 0)
    else if p[0] < RUNE_SELF then (p[0], 1)
    else if Size(p[0]) == 1 || |p| < Size(p[0]) || !Second(p[0], p[1]) then (RUNE_ERROR, 1)
    else if Size(p[0]) == 2 then (Join(p[0] - 0xC0, p[1]), 2)
    else if !Continuation(p[2]) then (RUNE_ERROR, 1)
    else if Size(p[0]) == 3 then (Join(Join(p[0] - 0xE0, p[1]), p[2]), 3)
    else if !Continuation(p[3]) then (RUNE_ERROR, 1)
    else (Join(Join(Join(p[0] - 0xF0, p[1]), p[2]), p[3]), 4)
  }

  predicate FullRune(p: seq<Byte>) {
    |p| > 0 &&
    (|| |p| >= Size(p[0])
     || (|p| > 1 && !Second(p[0], p[1]))
     || (|p| > 2 && !Continuation(p[2])))
  }

  // ----- encoding and decoding are inverse

  lemma EncodeShape(r: int)
    ensures 1 <= |EncodeRune(r)| <= 4
    ensures |EncodeRune(r)| == Size(EncodeRune(r)[0])
    ensures |EncodeRune(r)| > 1 ==> Second(EncodeRune(r)[0], EncodeRune(r)[1])
    ensures forall i :: 1 <= i < |EncodeRune(r)| ==> Continuation(EncodeRune(r)[i])
    ensures !Continuation(EncodeRune(r)[0])
    ensures 0 <= r < RUNE_SELF <==> |EncodeRune(r)| == 1
  {
  }

  /** The table of section 3 of RFC 3629: how long the encoding of each rune is, and
      what its bytes weigh. What is no rune is encoded as U+FFFD. */
  lemma EncodingTable(r: int)
    ensures var e, x := EncodeRune(r), if ValidRune(r) then r else 0xFFFD;
            if x <= 0x7F then |e| == 1 && e[0] == x
            else if x <= 0x7FF then
              |e| == 2 && 0xC0 <= e[0] < 0xE0 && x == (e[0] as int - 0xC0) * 64 + (e[1] as int - 0x80)
            else if x <= 0xFFFF then
              |e| == 3 && 0xE0 <= e[0] < 0xF0
              && x == (e[0] as int - 0xE0) * 4096 + (e[1] as int - 0x80) * 64 + (e[2] as int - 0x80)
            else
              |e| == 4 && 0xF0 <= e[0] < 0xF8
              && x == (e[0] as int - 0xF0) * 262144 + (e[1] as int - 0x80) * 4096
                      + (e[2] as int - 0x80) * 64 + (e[3] as int - 0x80)
  {
  }

  lemma JoinSix(r: nat)
    ensures Join(Rest(r), Six(r)) == r
  {
  }

  lemma SixJoin(high: nat, b: Byte)
    requires Continuation(b)
    ensures Join(high, b) >= 0 && Rest(Join(high, b)) == high && Six(Join(high, b)) == b
  {
  }

  lemma DecodeEncoded(r: int, rest: seq<Byte>)
    requires ValidRune(r)
    ensures DecodeRune(EncodeRune(r) + rest) == (r, |EncodeRune(r)|)
  {
    EncodeShape(r);
    JoinSix(r);
    JoinSix(Rest(r));
    JoinSix(Rest(Rest(r)));
    hide Rest, Six, Join;
    var e := EncodeRune(r);
    var p := e + rest;
    assert forall i :: 0 <= i < |e| ==> p[i] == e[i];
  }

  lemma EncodeDecoded(p: seq<Byte>)
    requires p != [] && (DecodeRune(p).0 != RUNE_ERROR || DecodeRune(p).1 != 1)
    ensures 1 <= DecodeRune(p).1 <= |p| && ValidRune(DecodeRune(p).0)
    ensures EncodeRune(DecodeRune(p).0) == p[..DecodeRune(p).1]
  {
    var (r, n) := DecodeRune(p);
    if n == 2 { SixJoin(p[0] - 0xC0, p[1]); }
    if n >= 3 {
      var h := Join(p[0] - (if n == 3 then 0xE0 else 0xF0), p[1]);
      SixJoin(p[0] - (if n == 3 then 0xE0 else 0xF0), p[1]);
      SixJoin(h, p[2]);
      if n == 4 { SixJoin(Join(h, p[2]), p[3]); }
    }
    hide Rest, Six;
  }

  // ----- what FullRune decides: whether more input could change the decoding

  lemma FullRuneIsFinal(p: seq<Byte>, q: seq<Byte>)
    requires FullRune(p)
    ensures DecodeRune(p + q) == DecodeRune(p)
  {
    hide Join;
  }

  // bytes that complete an encoding begun by p
  function Completion(p: seq<Byte>): seq<Byte>
    requires |p| > 0
  {
    if |p| == 1 then [Low(p[0]), 0x80, 0x80] else [0x80, 0x80, 0x80]
  }

  /** FullRune(p) holds exactly when no continuation of p decodes differently. */
  lemma FullRuneMeaning(p: seq<Byte>)
    ensures FullRune(p) <==> p != [] && forall q :: DecodeRune(p + q) == DecodeRune(p)
  {
    if FullRune(p) {
      forall q ensures DecodeRune(p + q) == DecodeRune(p) { FullRuneIsFinal(p, q); }
    } else if p != [] {
      var q := Completion(p);
      assert DecodeRune(p).1 == 1;
      var pq := p + q;
      assert pq[0] == p[0] && |pq| >= 4;
      assert DecodeRune(pq).1 != 1;
    }
  }

  // ----- decoding a whole string

  lemma DecodeWidth(p: seq<Byte>)
    requires p != []
    ensures 1 <= DecodeRune(p).1 <= |p| && DecodeRune(p).1 <= 4
    ensures forall k :: 1 <= k < DecodeRune(p).1 ==> Continuation(p[k])
    ensures DecodeRune(p).1 > 1 ==> !Continuation(p[0]) && p[0] >= RUNE_SELF
    ensures ValidRune(DecodeRune(p).0)
  {
  }

  function Runes(s: seq<Byte>): seq<int>
    decreases |s|
  {
    if s == [] then [] else
      var (r, n) := DecodeRune(s);
      DecodeWidth(s);
      [r] + Runes(s[n..])
  }
}
