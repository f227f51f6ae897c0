/**
 What fmt prints for an integer: sign, prefixes, zeros and digits, and why they fit
 the buffer whose size fmtInteger computes beforehand.
 */
module Numerals {
  import opened Utf8
  import opened Words

  datatype Flags = Flags(
    widPresent: bool, precPresent: bool, minus: bool, plus: bool, sharp: bool, space: bool, zero: bool)

  predicate IsBase(base: int) { base == 2 || base == 8 || base == 10 || base == 16 }

  // u / base and u % base, for the four bases
  function Quot(u: nat, base: int): nat {
    if base == 2 then u / 2 else if base == 8 then u / 8 else if base == 10 then u / 10 else u / 16
  }

  function Rem(u: nat, base: int): nat {
    if base == 2 then u % 2 else if base == 8 then u % 8 else if base == 10 then u % 10 else u % 16
  }

  function Times(u: nat, base: int): nat {
    if base == 2 then 2 * u else if base == 8 then 8 * u else if base == 10 then 10 * u else 16 * u
  }

  // ldigits and udigits
  function DigitChar(d: nat, upper: bool): Byte
    requires d < 16
  {
    if d < 10 then 48 + d else if upper then 55 + d else 87 + d
  }

  function DigitOf(c: Byte): nat {
    if 48 <= c <= 57 then c - 48 else if 65 <= c <= 70 then c - 55 else if 97 <= c <= 102 then c - 87 else 0
  }

  function Numeral(u: nat, base: int, upper: bool): (ds: seq<Byte>)
    requires IsBase(base)
    ensures |ds| > 0
  {
    if u < base then [DigitChar(u, upper)]
    else Numeral(Quot(u, base), base, upper) + [DigitChar(Rem(u, base), upper)]
  }

  // the number that digits denote
  function Value(ds: seq<Byte>, base: int): nat {
    if ds == [] then 0 else Times(Value(ds[..|ds| - 1], base), base) + DigitOf(ds[|ds| - 1])
  }

  lemma {:induction false} NumeralValue(u: nat, base: int, upper: bool)
    requires IsBase(base)
    ensures Value(Numeral(u, base, upper), base) == u
    decreases u
  {
    var ds := Numeral(u, base, upper);
    if u < base {
      assert ds[..0] == [];
    } else {
      NumeralValue(Quot(u, base), base, upper);
      assert ds[..|ds| - 1] == Numeral(Quot(u, base), base, upper);
    }
  }

  lemma {:induction false} NumeralLength(u: nat, base: int, upper: bool, k: nat)
    requires IsBase(base) && k >= 1 && u < Scale(1, k)
    ensures |Numeral(u, base, upper)| <= k
    decreases k
  {
    if u >= base {
      assert Quot(u, base) <= u / 2;
      NumeralLength(Quot(u, base), base, upper, k - 1);
    }
  }

  lemma NumeralFits(u: word, base: int, upper: bool)
    requires IsBase(base)
    ensures |Numeral(u, base, upper)| <= 64
  {
    ScaleValues();
    NumeralLength(u, base, upper, 64);
  }

  function Repeat(c: Byte, n: int): (s: seq<Byte>)
    ensures |s| == if n > 0 then n else 0
    ensures forall i :: 0 <= i < |s| ==> s[i] == c
  {
    if n <= 0 then [] else seq(n, _ => c)
  }

  lemma {:induction false} LeadingZeros(n: int, ds: seq<Byte>, base: int)
    ensures Value(Repeat(48, n) + ds, base) == Value(ds, base)
    decreases |ds|, n
  {
    var s := Repeat(48, n) + ds;
    if ds != [] {
      LeadingZeros(n, ds[..|ds| - 1], base);
      assert s[..|s| - 1] == Repeat(48, n) + ds[..|ds| - 1];
    } else if n > 0 {
      LeadingZeros(n - 1, [], base);
      assert s[..|s| - 1] == Repeat(48, n - 1) + [];
    }
  }

  // ----- the printed text

  function Body(u: nat, base: int, upper: bool, prec: int): (s: seq<Byte>)
    requires IsBase(base)
    ensures |s| > 0
  {
    var ds := Numeral(u, base, upper);
    Repeat(48, prec - |ds|) + ds
  }

  function SharpPrefix(sharp: bool, base: int, upper: bool, body: seq<Byte>): seq<Byte>
    requires |body| > 0
  {
    if !sharp then []
    else if base == 2 then [48, 98]
    else if base == 8 then (if body[0] != 48 then [48] else [])
    else if base == 16 then [48, if upper then 88 else 120]
    else []
  }

  const VERB_O: int := 79

  function OPrefix(verb: int): seq<Byte> { if verb == VERB_O then [48, 111] else [] }

  function Sign(negative: bool, f: Flags): seq<Byte> {
    if negative then [45] else if f.plus then [43] else if f.space then [32] else []
  }

  predicate Negative(u: word, isSigned: bool) { isSigned && u >= 0x8000_0000_0000_0000 }

  // -u for a negative u
  function Magnitude(u: word, isSigned: bool): word { if Negative(u, isSigned) then W - u else u }

  // the value of the argument
  function Meaning(u: word, isSigned: bool): int { if Negative(u, isSigned) then u - W else u }

  // leading zeros asked for by %.3d or %03d
  function Precision(f: Flags, wid: nat, prec: nat, negative: bool): int {
    if f.precPresent then prec
    else if f.zero && !f.minus && f.widPresent then (if negative || f.plus || f.space then wid - 1 else wid)
    else 0
  }

  function Text(u: word, base: int, isSigned: bool, verb: int, upper: bool, f: Flags, wid: nat, prec: nat): seq<Byte>
    requires IsBase(base)
  {
    var negative := Negative(u, isSigned);
    var body := Body(Magnitude(u, isSigned), base, upper, Precision(f, wid, prec, negative));
    Sign(negative, f) + (OPrefix(verb) + (SharpPrefix(f.sharp, base, upper, body) + body))
  }

  // the size of the buffer
  function Room(f: Flags, wid: nat, prec: nat): nat {
    if (f.widPresent || f.precPresent) && 3 + wid + prec > 68 then 3 + wid + prec else 68
  }

  /** The digits denote the magnitude, and with the sign exactly the argument. */
  lemma DigitsDenote(u: word, base: int, isSigned: bool, upper: bool, f: Flags, wid: nat, prec: nat)
    requires IsBase(base)
    ensures var negative := Negative(u, isSigned);
            var v := Value(Body(Magnitude(u, isSigned), base, upper, Precision(f, wid, prec, negative)), base);
            (if negative then 0 - v else v) == Meaning(u, isSigned)
    ensures Sign(Negative(u, isSigned), f) == [45] <==> Meaning(u, isSigned) < 0
  {
    var m := Magnitude(u, isSigned);
    var n := Precision(f, wid, prec, Negative(u, isSigned)) - |Numeral(m, base, upper)|;
    LeadingZeros(n, Numeral(m, base, upper), base);
    NumeralValue(m, base, upper);
  }

  // the callers combine verb O with base 8 only
  predicate Sensible(base: int, verb: int, sharp: bool) { verb == VERB_O && sharp ==> base == 8 || base == 10 }

  lemma BodyLength(u: word, base: int, upper: bool, prec: int)
    requires IsBase(base)
    ensures var body := Body(u, base, upper, prec);
            if prec > 64 then |body| == prec else |body| <= 64
    ensures prec > 64 ==> Body(u, base, upper, prec)[0] == 48
  {
    NumeralFits(u, base, upper);
    hide Numeral;
  }

  lemma TextFits(u: word, base: int, isSigned: bool, verb: int, upper: bool, f: Flags, wid: nat, prec: nat)
    requires IsBase(base) && Sensible(base, verb, f.sharp)
    requires (!f.widPresent ==> wid == 0) && (!f.precPresent ==> prec == 0)
    ensures |Text(u, base, isSigned, verb, upper, f, wid, prec)| <= Room(f, wid, prec)
  {
    var negative := Negative(u, isSigned);
    var p := Precision(f, wid, prec, negative);
    BodyLength(Magnitude(u, isSigned), base, upper, p);
    hide Body;
  }

  /** The computed size suffices for every value and all flags exactly when the
      base and the verb go together. */
  lemma BufferSuffices(base: int, verb: int, sharp: bool)
    requires IsBase(base)
    ensures Sensible(base, verb, sharp) <==>
            forall u: word, isSigned, upper, f: Flags, wid: nat, prec: nat ::
              f.sharp == sharp && (!f.widPresent ==> wid == 0) && (!f.precPresent ==> prec == 0) ==>
                |Text(u, base, isSigned, verb, upper, f, wid, prec)| <= Room(f, wid, prec)
  {
    if Sensible(base, verb, sharp) {
      forall u: word, isSigned, upper, f: Flags, wid: nat, prec: nat
        | f.sharp == sharp && (!f.widPresent ==> wid == 0) && (!f.precPresent ==> prec == 0)
        ensures |Text(u, base, isSigned, verb, upper, f, wid, prec)| <= Room(f, wid, prec)
      {
        TextFits(u, base, isSigned, verb, upper, f, wid, prec);
      }
    } else {
      var f := Flags(false, true, false, true, sharp, false, false);
      assert Numeral(0, base, false) == [48];
      assert |Body(0, base, false, 100)| == 100;
      assert |Text(0, base, false, verb, false, f, 0, 100)| == 105;
    }
  }
}
