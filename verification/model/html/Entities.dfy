/**
 What html.UnescapeString means, as an out-of-place decoder over an immutable
 byte string, and html.EscapeString. The tables of named entities are a
 parameter.
 */
module Entities {
  import opened Common
  import opened Utf8

  // entity and entity2: a missing name reads as 0
  datatype Table = Table(one: map<seq<Byte>, int>, two: map<seq<Byte>, (int, int)>)

  function One(tab: Table, name: seq<Byte>): int { if name in tab.one then tab.one[name] else 0 }

  function Two(tab: Table, name: seq<Byte>): (int, int) { if name in tab.two then tab.two[name] else (0, 0) }

  const AMP: Byte := 38
  const HASH: Byte := 35
  const SEMI: Byte := 59

  const AMP_NAME: seq<Byte> := [97, 109, 112, 59]  // amp;
  const LT_NAME: seq<Byte> := [108, 116, 59]       // lt;
  const GT_NAME: seq<Byte> := [103, 116, 59]       // gt;

  // no value is longer in UTF-8 than '&' and its name
  ghost predicate Fits(tab: Table) {
    && (forall name :: name in tab.one ==> |EncodeRune(tab.one[name])| <= 1 + |name|)
    && (forall name :: name in tab.two ==> |EncodeRune(tab.two[name].0)| + |EncodeRune(tab.two[name].1)| <= 1 + |name|)
  }

  ghost predicate HasBasics(tab: Table) {
    One(tab, AMP_NAME) == 38 && One(tab, LT_NAME) == 60 && One(tab, GT_NAME) == 62
  }

  const LONGEST_WITHOUT_SEMICOLON: nat := 6

  // ----- digits and names

  predicate IsDigit(hex: bool, c: Byte) {
    48 <= c <= 57 || (hex && (97 <= c <= 102 || 65 <= c <= 70))
  }

  function Digit(c: Byte): int { if c <= 57 then c - 48 else if c <= 70 then c - 55 else c - 87 }

  predicate IsNameByte(c: Byte) { 97 <= c <= 122 || 65 <= c <= 90 || 48 <= c <= 57 }

  // the number that a string of digits denotes
  function Value(hex: bool, ds: seq<Byte>): int {
    if ds == [] then 0 else
      var high := Value(hex, ds[..|ds| - 1]);
      (if hex then 16 * high else 10 * high) + Digit(ds[|ds| - 1])
  }

  // rune is a signed 32-bit integer
  function Wrap32(v: int): int { (v + 0x8000_0000) % 0x1_0000_0000 - 0x8000_0000 }

  // the end of the longest run of digits that starts at i
  function DigitsEnd(hex: bool, s: seq<Byte>, i: nat): (e: nat)
    requires i <= |s|
    ensures i <= e <= |s|
    decreases |s| - i
  {
    if i < |s| && IsDigit(hex, s[i]) then DigitsEnd(hex, s, i + 1) else i
  }

  function NameEnd(s: seq<Byte>, i: nat): (e: nat)
    requires i <= |s|
    ensures i <= e <= |s|
    decreases |s| - i
  {
    if i < |s| && IsNameByte(s[i]) then NameEnd(s, i + 1) else i
  }

  // a semicolon ends the reference and belongs to it
  function PastSemicolon(s: seq<Byte>, i: nat): (e: nat)
    requires i <= |s|
    ensures i <= e <= |s| && e <= i + 1
  {
    if i < |s| && s[i] == SEMI then i + 1 else i
  }

  // ----- one character reference

  const REPLACEMENTS: seq<int> := [
    0x20AC, 0x0081, 0x201A, 0x0192, 0x201E, 0x2026, 0x2020, 0x2021, 0x02C6, 0x2030, 0x0160, 0x2039, 0x0152, 0x008D,
    0x017D, 0x008F,
    0x0090, 0x2018, 0x2019, 0x201C, 0x201D, 0x2022, 0x2013, 0x2014, 0x02DC, 0x2122, 0x0161, 0x203A, 0x0153, 0x009D,
    0x017E, 0x0178]

  // the code point that a number stands for
  function CodePoint(x: int): int {
    if 0x80 <= x <= 0x9F then REPLACEMENTS[x - 0x80]
    else if x == 0 || 0xD800 <= x <= 0xDFFF || x > 0x10FFFF then RUNE_ERROR
    else x
  }

  // the bytes written, and the number of bytes read
  datatype Piece = Piece(out: seq<Byte>, used: nat)

  predicate IsHex(s: seq<Byte>)
    requires |s| > 2
  {
    s[2] == 120 || s[2] == 88
  }

  function FirstDigit(s: seq<Byte>): nat
    requires |s| > 2
  {
    if IsHex(s) then 3 else 2
  }

  function Numeric(s: seq<Byte>): Piece
    requires |s| > 1 && s[0] == AMP && s[1] == HASH
  {
    if |s| <= 3 then Piece([AMP], 1)
    else
      var i := FirstDigit(s);
      var e := DigitsEnd(IsHex(s), s, i);
      if PastSemicolon(s, e) <= 3 then Piece([AMP], 1)
      else Piece(EncodeRune(CodePoint(Wrap32(Value(IsHex(s), s[i..e])))), PastSemicolon(s, e))
  }

  // the longest prefix of name, of length 2 to j, that is an entity; 0 if none is
  function LongestPrefix(tab: Table, name: seq<Byte>, j: nat): (k: nat)
    requires j <= |name|
    ensures k <= j && (k != 0 ==> k > 1 && One(tab, name[..k]) != 0)
    ensures forall i :: 2 <= i <= j && One(tab, name[..i]) != 0 ==> i <= k
  {
    if j <= 1 then 0 else if One(tab, name[..j]) != 0 then j else LongestPrefix(tab, name, j - 1)
  }

  function Named(tab: Table, s: seq<Byte>): Piece
    requires |s| > 1 && s[0] == AMP
  {
    var i := PastSemicolon(s, NameEnd(s, 1));
    var name := s[1..i];
    if name == [] then Piece(s[..i], i)
    else if One(tab, name) != 0 then Piece(EncodeRune(One(tab, name)), i)
    else if Two(tab, name).0 != 0 then Piece(EncodeRune(Two(tab, name).0) + EncodeRune(Two(tab, name).1), i)
    else
      var j := LongestPrefix(tab, name, Min(|name| - 1, LONGEST_WITHOUT_SEMICOLON));
      if j != 0 then Piece(EncodeRune(One(tab, name[..j])), j + 1) else Piece(s[..i], i)
  }

  function Entity(tab: Table, s: seq<Byte>): Piece
    requires |s| > 0 && s[0] == AMP
  {
    if |s| <= 1 then Piece([AMP], 1) else if s[1] == HASH then Numeric(s) else Named(tab, s)
  }

  /** A reference never writes more than it reads, and always reads something. */
  lemma EntityFits(tab: Table, s: seq<Byte>)
    requires Fits(tab) && |s| > 0 && s[0] == AMP
    ensures 1 <= |Entity(tab, s).out| <= Entity(tab, s).used <= |s|
  {
    if |s| > 1 && s[1] == HASH && |s| > 3 {
      EncodeShape(CodePoint(Wrap32(Value(IsHex(s), s[FirstDigit(s)..DigitsEnd(IsHex(s), s, FirstDigit(s))]))));
    } else if |s| > 1 && s[1] != HASH {
      var i := PastSemicolon(s, NameEnd(s, 1));
      var name := s[1..i];
      EncodeShape(One(tab, name));
      EncodeShape(Two(tab, name).0);
      EncodeShape(Two(tab, name).1);
      if name != [] {
        EncodeShape(One(tab, name[..LongestPrefix(tab, name, Min(|name| - 1, LONGEST_WITHOUT_SEMICOLON))]));
      }
      hide EncodeRune;
    }
  }

  // ----- whole strings

  function Unescape(tab: Table, s: seq<Byte>): seq<Byte> {
    if s == [] then []
    else if s[0] != AMP then [s[0]] + Unescape(tab, s[1..])
    else
      var e := Entity(tab, s);
      if 0 < e.used <= |s| then e.out + Unescape(tab, s[e.used..]) else e.out
  }

  function EscapeByte(c: Byte): seq<Byte> {
    if c == 38 then [AMP] + AMP_NAME
    else if c == 39 then [AMP, HASH, 51, 57, SEMI]
    else if c == 60 then [AMP] + LT_NAME
    else if c == 62 then [AMP] + GT_NAME
    else if c == 34 then [AMP, HASH, 51, 52, SEMI]
    else [c]
  }

  function Escape(s: seq<Byte>): seq<Byte> {
    if s == [] then [] else EscapeByte(s[0]) + Escape(s[1..])
  }
}
