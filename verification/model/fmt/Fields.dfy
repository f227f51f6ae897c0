/**
 What the printed field of an integer looks like, byte for byte: padding, sign,
 prefix, zeros and digits.
 */
module Fields {
  import opened Common
  import opened Utf8
  import opened Words
  import opened Numerals
  import opened Integer

  const LOWER_DIGITS := "0123456789abcdef"
  const UPPER_DIGITS := "0123456789ABCDEF"

  // ds consists of digits of the base, in the letter case asked for
  predicate AreDigits(ds: seq<Byte>, base: int, upper: bool)
    requires IsBase(base)
  {
    forall k :: 0 <= k < |ds| ==> ds[k] as char in (if upper then UPPER_DIGITS else LOWER_DIGITS)[..base]
  }

  lemma DigitInTable(d: nat, base: int, upper: bool)
    requires IsBase(base) && d < base
    ensures DigitChar(d, upper) as char == (if upper then UPPER_DIGITS else LOWER_DIGITS)[d]
    ensures AreDigits([DigitChar(d, upper)], base, upper)
  {
    var t := if upper then UPPER_DIGITS else LOWER_DIGITS;
    assert t[..base][d] == t[d];
  }

  lemma DigitsJoin(a: seq<Byte>, b: seq<Byte>, base: int, upper: bool)
    requires IsBase(base) && AreDigits(a, base, upper) && AreDigits(b, base, upper)
    ensures AreDigits(a + b, base, upper)
  {
  }

  lemma RemIsSmall(u: nat, base: int)
    requires IsBase(base)
    ensures Rem(u, base) < base
  {
  }

  /** A numeral consists of digits of its base and does not begin with 0, but for 0
      itself. */
  lemma {:induction false} NumeralIsPlain(u: nat, base: int, upper: bool)
    requires IsBase(base)
    ensures AreDigits(Numeral(u, base, upper), base, upper)
    ensures Numeral(u, base, upper)[0] == 48 <==> u == 0
    decreases u
  {
    if u < base {
      DigitInTable(u, base, upper);
    } else {
      NumeralIsPlain(Quot(u, base), base, upper);
      RemIsSmall(u, base);
      DigitInTable(Rem(u, base), base, upper);
      DigitsJoin(Numeral(Quot(u, base), base, upper), [DigitChar(Rem(u, base), upper)], base, upper);
      hide AreDigits, DigitChar;
    }
  }

  lemma ZerosAreDigits(n: int, base: int, upper: bool)
    requires IsBase(base)
    ensures AreDigits(Repeat(48, n), base, upper)
  {
    var t := if upper then UPPER_DIGITS else LOWER_DIGITS;
    assert t[..base][0] == '0';
  }

  // the sign that is printed
  predicate IsSign(sign: seq<Byte>, negative: bool, f: Flags) {
    if negative then sign == [45] else if f.plus then sign == [43] else if f.space then sign == [32] else sign == []
  }

  // 0o for verb O, and with # the prefix of bases 2 and 16
  predicate IsPrefix(prefix: seq<Byte>, base: int, verb: int, sharp: bool, upper: bool) {
    prefix ==
    (if verb == 79 then [48, 111] else [])
    + (if !sharp then []
       else if base == 2 then [48, 98]
       else if base == 16 then [48, if upper then 88 else 120]
       else [])
  }

  /** The text is a sign, a prefix and digits that denote the magnitude. The digits are
      as many as the precision asks for, or the width with the zero flag, and else
      have no leading zero but the one that # puts before an octal number. */
  lemma {:induction false} TextParts(u: word, base: int, isSigned: bool, verb: int, upper: bool, f: Flags, wid: nat,
                                     prec: nat)
    returns (sign: seq<Byte>, prefix: seq<Byte>, ds: seq<Byte>)
    requires IsBase(base)
    ensures Text(u, base, isSigned, verb, upper, f, wid, prec) == sign + (prefix + ds)
    ensures IsSign(sign, Meaning(u, isSigned) < 0, f) && IsPrefix(prefix, base, verb, f.sharp, upper)
    ensures ds != [] && AreDigits(ds, base, upper) && Value(ds, base) == Abs(Meaning(u, isSigned))
    ensures f.precPresent ==> |ds| >= prec
    ensures !f.precPresent && f.zero && !f.minus && f.widPresent ==> |sign| + |ds| >= wid
    ensures f.sharp && base == 8 ==> ds[0] == 48
    ensures ds[0] == 48 && |ds| > 1 ==>
              || (f.precPresent && |ds| == prec)
              || (!f.precPresent && f.zero && !f.minus && f.widPresent && |sign| + |ds| == wid)
              || (f.sharp && base == 8 && ds[1] != 48)
  {
    hide Body, Value, AreDigits, Precision, SharpPrefix, OPrefix, Sign, IsPrefix, IsSign, Negative, Magnitude, Meaning;
    hide Abs;
    var negative := Negative(u, isSigned);
    var m := Magnitude(u, isSigned);
    var p := Precision(f, wid, prec, negative);
    var body := Body(m, base, upper, p);
    sign := Sign(negative, f);
    PrecisionAsked(f, wid, prec, negative, |sign|);
    BodyParts(m, base, upper, p);
    prefix, ds := PrefixAndDigits(f.sharp, base, verb, upper, body);
    SignPrinted(u, isSigned, f);
  }

  lemma SignPrinted(u: word, isSigned: bool, f: Flags)
    ensures IsSign(Sign(Negative(u, isSigned), f), Meaning(u, isSigned) < 0, f)
    ensures Magnitude(u, isSigned) == Abs(Meaning(u, isSigned))
  {
  }

  // for octal numbers the # gives a digit, for the others a prefix
  lemma PrefixAndDigits(sharp: bool, base: int, verb: int, upper: bool, body: seq<Byte>)
    returns (prefix: seq<Byte>, ds: seq<Byte>)
    requires IsBase(base) && body != [] && AreDigits(body, base, upper)
    ensures OPrefix(verb) + (SharpPrefix(sharp, base, upper, body) + body) == prefix + ds
    ensures IsPrefix(prefix, base, verb, sharp, upper)
    ensures AreDigits(ds, base, upper) && Value(ds, base) == Value(body, base)
    ensures ds == if sharp && base == 8 && body[0] != 48 then [48] + body else body
  {
    var s := SharpPrefix(sharp, base, upper, body);
    hide Value, AreDigits;
    if base == 8 {
      prefix, ds := OPrefix(verb), s + body;
      OctalParts(s, body, upper);
    } else {
      prefix, ds := OPrefix(verb) + s, body;
      Regroup(OPrefix(verb), s, body);
    }
  }

  lemma PrecisionAsked(f: Flags, wid: nat, prec: nat, negative: bool, sign: nat)
    requires sign == |Sign(negative, f)|
    ensures var p := Precision(f, wid, prec, negative);
            if f.precPresent then p == prec
            else if f.zero && !f.minus && f.widPresent then p == wid - sign
            else p == 0
  {
  }

  lemma BodyParts(m: nat, base: int, upper: bool, p: int)
    requires IsBase(base)
    ensures var body := Body(m, base, upper, p);
            && AreDigits(body, base, upper) && Value(body, base) == m && |body| >= p
            && (body[0] == 48 && |body| > 1 ==> |body| == p)
  {
    var ds := Numeral(m, base, upper);
    NumeralIsPlain(m, base, upper);
    NumeralValue(m, base, upper);
    LeadingZeros(p - |ds|, ds, base);
    ZerosAreDigits(p - |ds|, base, upper);
    DigitsJoin(Repeat(48, p - |ds|), ds, base, upper);
    hide AreDigits, Value;
    OneZero(m, base, upper);
    hide Numeral;
  }

  lemma OneZero(m: nat, base: int, upper: bool)
    requires IsBase(base)
    ensures m == 0 ==> |Numeral(m, base, upper)| == 1
  {
  }

  lemma OctalParts(sharp: seq<Byte>, body: seq<Byte>, upper: bool)
    requires AreDigits(body, 8, upper) && sharp in {[], [48]}
    ensures AreDigits(sharp + body, 8, upper) && Value(sharp + body, 8) == Value(body, 8)
  {
    ZerosAreDigits(|sharp|, 8, upper);
    LeadingZeros(|sharp|, body, 8);
    assert sharp == Repeat(48, |sharp|);
    DigitsJoin(sharp, body, 8, upper);
  }

  // c everywhere
  predicate Only(s: seq<Byte>, c: Byte) { forall k :: 0 <= k < |s| ==> s[k] == c }

  /** What pad writes is b with spaces, or zeros with the zero flag, in front of it, or
      spaces behind it with the minus flag, so that it has as many runes as asked for. */
  lemma PaddingShape(b: seq<Byte>, f: Flags, wid: nat)
    ensures var field, runes := Padded(b, f, wid), |Runes(b)|;
            var n := |field| - |b|;
            && n == (if f.widPresent && wid > runes then wid - runes else 0)
            && (if f.minus then field[..|b|] == b && Only(field[|b|..], 32)
                else field[n..] == b && Only(field[..n], if f.zero then 48 else 32))
  {
    hide Runes;
  }

  /** The field of an integer is its text with spaces in front of it, or behind it with
      the minus flag, that make it as wide as asked for. */
  lemma FieldShape(u: word, base: int, isSigned: bool, verb: int, upper: bool, f: Flags, wid: nat, prec: nat)
    requires IsBase(base)
    ensures var t := Text(u, base, isSigned, verb, upper, f, wid, prec);
            var field := Padded(t, f.(zero := false), wid);
            var n := |field| - |t|;
            && n == (if f.widPresent && wid > |t| then wid - |t| else 0)
            && (if f.minus then field[..|t|] == t && Only(field[|t|..], 32)
                else field[n..] == t && Only(field[..n], 32))
  {
    var t := Text(u, base, isSigned, verb, upper, f, wid, prec);
    TextIsAscii(u, base, isSigned, verb, upper, f, wid, prec);
    AsciiRunes(t);
    hide Text, Runes, Padded, Only;
    PaddingShape(t, f.(zero := false), wid);
  }
}
