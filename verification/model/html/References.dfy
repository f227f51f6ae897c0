/**
 What a character reference stands for, said without the decoder's own digits:
 the numerals that fmt prints, and the names of the tables.
 */
module References {
  import opened Common
  import opened Utf8
  import opened Entities
  import Numerals

  // ----- numbers

  function Base(hex: bool): int { if hex then 16 else 10 }

  // the digits that print n are digits to the decoder, and denote n
  lemma {:induction false} NumeralReads(n: nat, hex: bool, upper: bool)
    ensures var ds := Numerals.Numeral(n, Base(hex), upper);
            Value(hex, ds) == n && forall k :: 0 <= k < |ds| ==> IsDigit(hex, ds[k])
    decreases n
  {
    var ds := Numerals.Numeral(n, Base(hex), upper);
    if n < Base(hex) {
      assert ds[..0] == [];
    } else {
      NumeralReads(Numerals.Quot(n, Base(hex)), hex, upper);
      assert ds[..|ds| - 1] == Numerals.Numeral(Numerals.Quot(n, Base(hex)), Base(hex), upper);
    }
  }

  lemma {:induction false} DigitsEndAt(hex: bool, s: seq<Byte>, i: nat, e: nat)
    requires i <= e <= |s| && (forall k :: i <= k < e ==> IsDigit(hex, s[k])) && (e < |s| ==> !IsDigit(hex, s[e]))
    ensures DigitsEnd(hex, s, i) == e
    decreases e - i
  {
    if i < e { DigitsEndAt(hex, s, i + 1, e); }
  }

  // what stands before the digits: "&#", "&#x" or "&#X"
  function Opening(hex: bool, capital: bool): seq<Byte> {
    if hex then [AMP, HASH, if capital then 88 else 120] else [AMP, HASH]
  }

  lemma NumberFound(n: nat, hex: bool, capital: bool, upper: bool, rest: seq<Byte>)
    ensures var s := Opening(hex, capital) + Numerals.Numeral(n, Base(hex), upper) + [SEMI] + rest;
            && |s| > 3 && s[0] == AMP && s[1] == HASH && s[2..] != [] && IsHex(s) == hex
            && var e := FirstDigit(s) + |Numerals.Numeral(n, Base(hex), upper)|;
            && DigitsEnd(hex, s, FirstDigit(s)) == e < |s| && s[e] == SEMI && s[e + 1..] == rest
            && s[FirstDigit(s)..e] == Numerals.Numeral(n, Base(hex), upper)
  {
    var o, ds := Opening(hex, capital), Numerals.Numeral(n, Base(hex), upper);
    NumeralReads(n, hex, upper);
    Parts(o, ds, SEMI, rest);
    var s := o + ds + [SEMI] + rest;
    assert |o| == FirstDigit(s) by { if !hex { assert s[2] == ds[0]; } }
    hide Numerals.Numeral, Value, Opening, IsDigit;
    DigitsEndAt(hex, s, |o|, |o| + |ds|) by { SemiIsNoDigit(hex); }
  }

  lemma SemiIsNoDigit(hex: bool)
    ensures !IsDigit(hex, SEMI)
  {
  }

  lemma Parts(a: seq<Byte>, b: seq<Byte>, c: Byte, d: seq<Byte>)
    ensures var s := a + b + [c] + d; var e := |a| + |b|;
            && s[e] == c && s[|a|..e] == b && s[e + 1..] == d
            && (forall k :: 0 <= k < |a| ==> s[k] == a[k]) && (forall k :: |a| <= k < e ==> s[k] == b[k - |a|])
  {
  }

  // the rune that the reference to n decodes to, for numbers of 32 bits
  predicate StandsFor(n: nat, r: int) {
    && (0 < n < 0x80 || 0xA0 <= n < 0xD800 || 0xE000 <= n <= 0x10FFFF ==> r == n)
    && (0x80 <= n < 0xA0 ==> r == REPLACEMENTS[n - 0x80])
    && (n == 0 || 0xD800 <= n < 0xE000 || 0x10FFFF < n < 0x1_0000_0000 ==> r == RUNE_ERROR)
  }

  /** A numeric reference, decimal or hexadecimal in either case of x and of the
      letters, decodes to the encoding of its number; zero, surrogates and numbers
      past the last code point decode to U+FFFD, and 0x80 to 0x9F as in Windows-1252.
      From 2^32 on the number counts modulo 2^32. */
  lemma NumericReference(tab: Table, n: nat, hex: bool, capital: bool, upper: bool, rest: seq<Byte>, r: int)
    requires StandsFor(n % 0x1_0000_0000, r)
    ensures Unescape(tab, Opening(hex, capital) + Numerals.Numeral(n, Base(hex), upper) + [SEMI] + rest) ==
            EncodeRune(r) + Unescape(tab, rest)
  {
    var s := Opening(hex, capital) + Numerals.Numeral(n, Base(hex), upper) + [SEMI] + rest;
    NumberFound(n, hex, capital, upper, rest);
    NumeralReads(n, hex, upper);
    CodePointStandsFor(n, r);
    hide Numerals.Numeral, Value, EncodeRune, CodePoint, Wrap32, DigitsEnd, Opening, IsHex, StandsFor;
    assert Numeric(s).out == EncodeRune(CodePoint(Wrap32(n)));
  }

  lemma CodePointStandsFor(n: nat, r: int)
    requires StandsFor(n % 0x1_0000_0000, r)
    ensures EncodeRune(CodePoint(Wrap32(n))) == EncodeRune(r)
  {
    var m := n % 0x1_0000_0000;
    assert Wrap32(n) == if m < 0x8000_0000 then m else m - 0x1_0000_0000;
    if m < 0x8000_0000 { hide EncodeRune; }
  }

  /** A number past the last code point decodes to U+FFFD, as the HTML standard says
      of all of them, exactly if its last 32 bits are no code point but that one. */
  lemma WideReference(tab: Table, n: nat, hex: bool, capital: bool, upper: bool, rest: seq<Byte>)
    requires n > 0x10FFFF
    ensures var m := n % 0x1_0000_0000;
            Unescape(tab, Opening(hex, capital) + Numerals.Numeral(n, Base(hex), upper) + [SEMI] + rest) ==
            EncodeRune(RUNE_ERROR) + Unescape(tab, rest) <==>
            m == 0 || 0xD800 <= m <= 0xDFFF || m == 0xFFFD || m > 0x10FFFF
  {
    var m := n % 0x1_0000_0000;
    var r := if m == 0 || 0xD800 <= m <= 0xDFFF || m > 0x10FFFF then RUNE_ERROR
    else if 0x80 <= m < 0xA0 then REPLACEMENTS[m - 0x80] else m;
    assert ValidRune(r) && (r == RUNE_ERROR ==> m == 0 || 0xD800 <= m <= 0xDFFF || m == 0xFFFD || m > 0x10FFFF);
    NumericReference(tab, n, hex, capital, upper, rest, r);
    SameEncoding(r, Unescape(tab, rest));
  }

  // 2^32 + 65 decodes to the letter A
  lemma WideReferenceFails(tab: Table)
    ensures Unescape(tab, Opening(false, false) + Numerals.Numeral(0x1_0000_0041, 10, false) + [SEMI] + []) == [65]
  {
    assert EncodeRune(65) == [65];
    EmptyStays(tab);
    hide Numerals.Numeral, EncodeRune, Unescape, Opening;
    NumericReference(tab, 0x1_0000_0041, false, false, false, [], 65);
  }

  lemma SameEncoding(r: int, rest: seq<Byte>)
    requires ValidRune(r)
    ensures EncodeRune(r) + rest == EncodeRune(RUNE_ERROR) + rest <==> r == RUNE_ERROR
  {
    DecodeEncoded(r, rest);
    DecodeEncoded(RUNE_ERROR, rest);
    hide EncodeRune, DecodeRune;
  }

  lemma Example(tab: Table, hex: bool)
    ensures Unescape(tab, Opening(hex, false) + Numerals.Numeral(225, Base(hex), true) + [SEMI] + []) == [0xC3, 0xA1]
  {
    assert EncodeRune(225) == [0xC3, 0xA1];
    EmptyStays(tab);
    hide Numerals.Numeral, EncodeRune, Unescape, Opening;
    NumericReference(tab, 225, hex, false, true, [], 225);
  }

  /** The examples of the documentation: "&#225;" and "&#xE1;" are the letter a with
      an acute accent. */
  lemma DocumentedExamples(tab: Table)
    ensures Unescape(tab, [38, 35, 50, 50, 53, 59]) == [0xC3, 0xA1]
    ensures Unescape(tab, [38, 35, 120, 69, 49, 59]) == [0xC3, 0xA1]
  {
    Numeral225();
    hide Numerals.Numeral, Unescape;
    Example(tab, false);
    Example(tab, true);
    assert [38, 35] + [50, 50, 53] + [SEMI] + [] == [38, 35, 50, 50, 53, 59];
    assert [38, 35, 120] + [69, 49] + [SEMI] + [] == [38, 35, 120, 69, 49, 59];
  }

  lemma Numeral225()
    ensures Numerals.Numeral(225, 10, true) == [50, 50, 53] && Numerals.Numeral(225, 16, true) == [69, 49]
  {
    assert Numerals.Numeral(2, 10, true) == [50] && Numerals.Numeral(22, 10, true) == [50, 50];
    assert Numerals.Numeral(14, 16, true) == [69];
  }

  lemma EmptyStays(tab: Table)
    ensures Unescape(tab, []) == []
  {
  }

  // ----- names

  predicate Alphanumeric(c: Byte) {
    'a' <= c as char <= 'z' || 'A' <= c as char <= 'Z' || '0' <= c as char <= '9'
  }

  // name is what the decoder reads after the ampersand when rest follows
  predicate ReadsAs(name: seq<Byte>, rest: seq<Byte>) {
    && name != [] && (forall k :: 0 <= k < |name| - 1 ==> Alphanumeric(name[k]))
    && (name[|name| - 1] == SEMI
        || (Alphanumeric(name[|name| - 1]) && (rest != [] ==> !Alphanumeric(rest[0]) && rest[0] != SEMI)))
  }

  lemma NameBytes()
    ensures forall c: Byte :: IsNameByte(c) <==> Alphanumeric(c)
  {
  }

  lemma {:induction false} NameEndsAt(s: seq<Byte>, i: nat, e: nat)
    requires i <= e <= |s| && (forall k :: i <= k < e ==> IsNameByte(s[k])) && (e < |s| ==> !IsNameByte(s[e]))
    ensures NameEnd(s, i) == e
    decreases e - i
  {
    if i < e { NameEndsAt(s, i + 1, e); }
  }

  lemma NameFound(name: seq<Byte>, rest: seq<Byte>)
    requires ReadsAs(name, rest)
    ensures var s := [AMP] + name + rest;
            && |s| > 1 && s[1] != HASH && PastSemicolon(s, NameEnd(s, 1)) == 1 + |name|
            && s[1..1 + |name|] == name && s[1 + |name|..] == rest
  {
    var s := [AMP] + name + rest;
    NameBytes();
    assert !IsNameByte(SEMI) && !IsNameByte(HASH);
    hide IsNameByte, Alphanumeric;
    assert forall k :: 0 <= k < |name| ==> s[k + 1] == name[k];
    assert forall k :: 1 <= k <= |name| ==> s[k] == name[k - 1];
    var e := if name[|name| - 1] == SEMI then |name| else |name| + 1;
    if e < |s| && e == |name| + 1 { assert s[e] == rest[0]; }
    NameEndsAt(s, 1, e);
  }

  // the decoder reads the reference and goes on where it ends
  lemma ReadOn(tab: Table, name: seq<Byte>, rest: seq<Byte>, out: seq<Byte>, used: nat)
    requires 0 < used <= 1 + |name| && name != []
    requires Entity(tab, [AMP] + name + rest) == Piece(out, used)
    ensures Unescape(tab, [AMP] + name + rest) == out + Unescape(tab, name[used - 1..] + rest)
  {
    hide Entity;
    assert ([AMP] + name + rest)[used..] == name[used - 1..] + rest;
  }

  // the longest name of two to six bytes that starts this one, if it is not one itself
  predicate Longest(tab: Table, name: seq<Byte>, k: nat) {
    && 2 <= k < |name| && k <= 6 && One(tab, name[..k]) != 0
    && forall j :: k < j < |name| && j <= 6 ==> One(tab, name[..j]) == 0
  }

  lemma LongestIsUnique(tab: Table, name: seq<Byte>, k: nat)
    requires Longest(tab, name, k)
    ensures LongestPrefix(tab, name, Min(|name| - 1, LONGEST_WITHOUT_SEMICOLON)) == k
  {
  }

  /** A name of the tables decodes to its one or two runes. */
  lemma NamedReference(tab: Table, name: seq<Byte>, rest: seq<Byte>)
    requires ReadsAs(name, rest) && (One(tab, name) != 0 || Two(tab, name).0 != 0)
    ensures Unescape(tab, [AMP] + name + rest) ==
            (if One(tab, name) != 0 then EncodeRune(One(tab, name))
             else EncodeRune(Two(tab, name).0) + EncodeRune(Two(tab, name).1)) + Unescape(tab, rest)
  {
    NameFound(name, rest);
    hide EncodeRune, NameEnd, One, Two, LongestPrefix, ReadsAs, Unescape;
    ReadOn(tab, name, rest, Entity(tab, [AMP] + name + rest).out, 1 + |name|);
    assert name[|name|..] + rest == rest;
  }

  /** Of any other name the longest part of two to six bytes that is one decodes, and
      reading goes on behind it; without one the name stays as it is. */
  lemma UnknownName(tab: Table, name: seq<Byte>, rest: seq<Byte>, k: nat)
    requires ReadsAs(name, rest) && One(tab, name) == 0 && Two(tab, name).0 == 0
    ensures Longest(tab, name, k) ==>
              Unescape(tab, [AMP] + name + rest) ==
              EncodeRune(One(tab, name[..k])) + Unescape(tab, name[k..] + rest)
    ensures (forall j: nat :: !Longest(tab, name, j)) ==>
              Unescape(tab, [AMP] + name + rest) == [AMP] + name + Unescape(tab, rest)
  {
    hide EncodeRune, One, Two, LongestPrefix, ReadsAs, Unescape, Longest, Entity;
    if Longest(tab, name, k) {
      PrefixPiece(tab, name, rest, k);
      ReadOn(tab, name, rest, EncodeRune(One(tab, name[..k])), k + 1);
    } else if forall j: nat :: !Longest(tab, name, j) {
      TextPiece(tab, name, rest);
      ReadOn(tab, name, rest, [AMP] + name, 1 + |name|);
      assert name[|name|..] + rest == rest;
    }
  }

  lemma PrefixPiece(tab: Table, name: seq<Byte>, rest: seq<Byte>, k: nat)
    requires ReadsAs(name, rest) && One(tab, name) == 0 && Two(tab, name).0 == 0 && Longest(tab, name, k)
    ensures k < |name| && Entity(tab, [AMP] + name + rest) == Piece(EncodeRune(One(tab, name[..k])), k + 1)
  {
    LongestIsUnique(tab, name, k);
    NameFound(name, rest);
    hide EncodeRune, NameEnd, One, Two, LongestPrefix, ReadsAs;
  }

  lemma TextPiece(tab: Table, name: seq<Byte>, rest: seq<Byte>)
    requires ReadsAs(name, rest) && One(tab, name) == 0 && Two(tab, name).0 == 0
    requires forall j: nat :: !Longest(tab, name, j)
    ensures name != [] && Entity(tab, [AMP] + name + rest) == Piece([AMP] + name, 1 + |name|)
  {
    NameFound(name, rest);
    LongestOrNone(tab, name);
    hide EncodeRune, NameEnd, One, Two, LongestPrefix, ReadsAs, Longest;
    assert ([AMP] + name + rest)[..1 + |name|] == [AMP] + name;
  }

  lemma LongestOrNone(tab: Table, name: seq<Byte>)
    requires name != []
    ensures var k := LongestPrefix(tab, name, Min(|name| - 1, LONGEST_WITHOUT_SEMICOLON));
            k == 0 || Longest(tab, name, k)
  {
  }
}
