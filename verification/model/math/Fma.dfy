/**
 FMA: x * y + z with one rounding, computed on 64-bit words
 (src/math/fma.go). The double-word pieces come first, then the operation,
 then the proof that it rounds the exact result.
 */
module Fma {
  import opened Common
  import opened Words
  import opened Float64
  import opened Sticky

  function Nonzero(x: word): word { if x != 0 then 1 else 0 }

  // ----- double-word shifts

  function ShlPair(u1: word, u2: word, n: word): (word, word) {
    (Or64(Or64(Shl(u1, n), Shr(u2, USub(64, n))), Shl(u2, USub(n, 64))), Shl(u2, n))
  }

  function ShrPair(u1: word, u2: word, n: word): (word, word) {
    (Shr(u1, n), Or64(Or64(Shr(u2, n), Shl(u1, USub(64, n))), Shr(u1, USub(n, 64))))
  }

  // u & (1<<n - 1); for n >= 64 the mask is all ones
  function Mask(u: word, n: word): word {
    And64(u, USub(Shl(1, n), 1))
  }

  function ShrCompress(u1: word, u2: word, n: word): (word, word) {
    if n == 0 then (u1, u2)
    else if n == 64 then (0, Or64(u1, Nonzero(u2)))
    else if n >= 128 then (0, Nonzero(Or64(u1, u2)))
    else if n < 64 then
      var (r1, r2) := ShrPair(u1, u2, n);
      (r1, Or64(r2, Nonzero(Mask(u2, n))))
    else
      var (r1, r2) := ShrPair(u1, u2, n);
      (r1, Or64(r2, Nonzero(Or64(Mask(u1, n - 64), u2))))
  }

  function Lz(u1: word, u2: word): nat {
    var l := LeadingZeros64(u1);
    if l == 64 then l + LeadingZeros64(u2) else l
  }

  lemma MaskIsLowBits(u: word, n: nat)
    requires n < 64
    ensures Mask(u, n) == LowBits(u, n)
  {
    hide Scale, LowBits, And;
    ScaleValues();
    ScaleGrows(1, n, 63);
    ScalePositive(1, n);
    AndMask(u, n);
  }

  lemma MaskAll(u: word, n: word)
    requires n >= 64
    ensures Mask(u, n) == u
  {
    hide And;
    AndAll(u);
  }

  // a count that wraps around is 64 or more, so that its shift gives 0
  lemma WrappedCounts(n: word)
    ensures n <= 64 ==> USub(64, n) == 64 - n
    ensures n > 64 ==> USub(64, n) >= 64
    ensures n < 64 ==> USub(n, 64) >= 64
    ensures n >= 64 ==> USub(n, 64) == n - 64
  {
  }

  // W split at bit n
  lemma WordSplit(x: int, n: nat)
    requires n <= 64
    ensures Scale(Scale(x, n), 64 - n) == W * x && Scale(Scale(x, 64 - n), n) == W * x
  {
    hide Scale;
    ScaleTwice(x, n, 64 - n);
    ScaleTwice(x, 64 - n, n);
    ScaleByValue(x);
  }

  // the bits that a left shift by 64-n keeps are the low n bits
  lemma ShlLow(u: word, n: nat)
    requires 0 < n <= 64
    ensures Shl(u, 64 - n) == Scale(LowBits(u, n), 64 - n)
  {
    hide Scale, Shifted, LowBits;
    Division(u, n);
    var q, r := Shifted(u, n), LowBits(u, n);
    ScaleLinear(Scale(q, n), r, 64 - n);
    WordSplit(q, n);
    WordSplit(1, n);
    ScaleOrder(r, Scale(1, n), 64 - n);
    ScalePositive(r, 64 - n);
    assert Scale(u, 64 - n) == W * q + Scale(r, 64 - n);
  }

  // a double word divided by 2^n, word by word
  lemma PairQuotient(u1: word, u2: word, n: nat)
    requires 0 < n < 64
    ensures Shr(u2, n) < Scale(1, 64 - n)
    ensures Shifted(u1 * W + u2, n) == Shr(u1, n) * W + (Shl(u1, 64 - n) + Shr(u2, n))
    ensures LowBits(u1 * W + u2, n) == LowBits(u2, n)
  {
    hide Scale, Shifted, LowBits;
    ShlLow(u1, n);
    Division(u1, n);
    Division(u2, n);
    WordSplit(1, n);
    ShiftedBelow(u2, n, Scale(1, 64 - n));
    var q := Shifted(u1, n) * W + (Scale(LowBits(u1, n), 64 - n) + Shifted(u2, n));
    ScaleLinear(Shifted(u1, n) * W, Scale(LowBits(u1, n), 64 - n) + Shifted(u2, n), n);
    ScaleLinear(Scale(LowBits(u1, n), 64 - n), Shifted(u2, n), n);
    WordSplit(LowBits(u1, n), n);
    ScaleFactor(W, Shifted(u1, n), n);
    DivisionUnique(u1 * W + u2, n, q, LowBits(u2, n));
  }

  // shifting a double word by 64 + k drops the low word
  lemma HighQuotient(u1: word, u2: word, k: nat)
    ensures Shifted(u1 * W + u2, 64 + k) == Shifted(u1, k)
    ensures LowBits(u1 * W + u2, 64 + k) == LowBits(u1, k) * W + u2
  {
    hide Scale, Shifted, LowBits;
    Division(u1, k);
    var q, r := Shifted(u1, k), LowBits(u1, k);
    ScaleTwice(q, k, 64);
    ScaleByValue(Scale(q, k));
    ScaleTwice(1, k, 64);
    ScaleByValue(Scale(1, k));
    DivisionUnique(u1 * W + u2, 64 + k, q, r * W + u2);
  }

  lemma ShrPairIsDivision(u1: word, u2: word, n: word)
    ensures var (r1, r2) := ShrPair(u1, u2, n); r1 * W + r2 == Shifted(u1 * W + u2, n)
  {
    hide Scale, LowBits, Or;
    ByZero(u1);
    ByZero(u1 * W + u2);
    hide Shifted;
    WrappedCounts(n);
    if n == 0 {
      OrZero(u2);
      ByZero(u2);
    } else if n == 64 {
      ScaleOnce(u1);
      OrZero(u1);
      OrSelf(u1);
      OrCommutes(0, u1);
      HighQuotient(u1, u2, 0);
    } else if n >= 128 {
      OrZero(0);
      ShiftedOut(u1, u2, n);
    } else if n < 64 {
      PairQuotient(u1, u2, n);
      ShlLow(u1, n);
      OrDisjoint(LowBits(u1, n), Shr(u2, n), 64 - n);
      OrCommutes(Shl(u1, 64 - n), Shr(u2, n));
      OrZero(Or64(Shr(u2, n), Shl(u1, 64 - n)));
    } else {
      OrZero(0);
      OrZero(Shr(u1, n - 64));
      HighQuotient(u1, u2, n - 64);
    }
  }

  // OR with a flag sets the lowest bit
  lemma OrFlag(q: word, r: nat, flag: word)
    requires flag <= 1 && (flag == 0 <==> r == 0)
    ensures Or64(q, flag) == Jam(q, r)
  {
    hide Or;
    if flag == 0 { OrZero(q); } else { OrOne(q); }
  }

  lemma JamPair(r1: nat, r2: nat, r: nat)
    ensures r1 * W + Jam(r2, r) == Jam(r1 * W + r2, r)
  {
    assert (r1 * W + r2) % 2 == r2 % 2;
  }

  /** The documented meaning of shrcompress: a right shift whose lowest bit
      also records whether anything was shifted out. */
  lemma ShrCompressIsSticky(u1: word, u2: word, n: word)
    ensures var (r1, r2) := ShrCompress(u1, u2, n); r1 * W + r2 == StickyShift(u1 * W + u2, n)
  {
    hide Or64, ShrPair, Mask, Shifted, LowBits, Scale;
    if n == 0 {
      ByZero(u1 * W + u2);
    } else if n == 64 {
      HighQuotient(u1, u2, 0);
      ByZero(u1);
      OrFlag(u1, u2, Nonzero(u2));
    } else if n >= 128 {
      ShiftedOut(u1, u2, n);
    } else {
      ShrPairIsDivision(u1, u2, n);
      var (r1, r2) := ShrPair(u1, u2, n);
      var r := LowBits(u1 * W + u2, n);
      if n < 64 {
        PairQuotient(u1, u2, n);
        MaskIsLowBits(u2, n);
        OrFlag(r2, r, Nonzero(Mask(u2, n)));
      } else {
        HighQuotient(u1, u2, n - 64);
        MaskIsLowBits(u1, n - 64);
        OrNonzero(Mask(u1, n - 64), u2);
        OrFlag(r2, r, Nonzero(Or64(Mask(u1, n - 64), u2)));
      }
      JamPair(r1, r2, r);
    }
  }

  lemma ScaleOnce(u: word)
    ensures Shl(u, 0) == u
  {
  }

  lemma ByZero(u: nat)
    ensures Shifted(u, 0) == u && LowBits(u, 0) == 0
  {
  }

  lemma OrNonzero(a: word, b: word)
    ensures Or64(a, b) == 0 <==> a * W + b == 0
  {
    hide Or;
    OrIsZero(a, b);
  }

  lemma ShiftedOut(u1: word, u2: word, n: nat)
    requires n >= 128
    ensures Shifted(u1 * W + u2, n) == 0 && LowBits(u1 * W + u2, n) == u1 * W + u2
    ensures Or64(u1, u2) == 0 <==> u1 * W + u2 == 0
  {
    hide Scale, Shifted, LowBits, Or;
    OrNonzero(u1, u2);
    ScaleTwice(1, 64, 64);
    ScaleByValue(1);
    ScaleByValue(W);
    ScaleGrows(1, 128, n);
    ShiftedSmall(u1 * W + u2, n);
  }

  // a left shift that loses no bit
  lemma ShlPairIsScale(u1: word, u2: word, n: word)
    requires n < 128 && Scale(u1 * W + u2, n) < W * W
    ensures var (r1, r2) := ShlPair(u1, u2, n); r1 * W + r2 == Scale(u1 * W + u2, n)
  {
    hide Scale, Shifted, LowBits, Or, Shl, Shr, ShlPair;
    if n < 64 {
      ShlPairShort(u1, u2, n);
    } else {
      ShlPairLong(u1, u2, n - 64);
    }
  }

  lemma ShlPairShort(u1: word, u2: word, n: word)
    requires n < 64 && Scale(u1 * W + u2, n) < W * W
    ensures var (r1, r2) := ShlPair(u1, u2, n); r1 * W + r2 == Scale(u1 * W + u2, n)
  {
    hide Scale, Shifted, LowBits, Or;
    WrappedCounts(n);
    var c := 64 - n;
    Division(u2, c);
    ShlLow(u2, c);
    var q, r := Shifted(u2, c), LowBits(u2, c);
    ScaleLinear(u1 * W, u2, n);
    ScaleFactor(W, u1, n);
    ScaleLinear(Scale(q, c), r, n);
    WordSplit(q, n);
    ScalePositive(u1, n);
    ScalePositive(u2, n);
    WordSplit(1, n);
    ShiftedBelow(u2, c, Scale(1, n));
    OrDisjoint(u1, q, n);
    if n == 0 {
      ShrByAll(u2);
      OrZero(Shl(u1, n));
    }
    OrZero(Or64(Shl(u1, n), Shr(u2, c)));
  }

  lemma ShrByAll(u: word)
    ensures Shifted(u, 64) == 0
  {
    hide Scale, Shifted, LowBits;
    ScaleByValue(1);
    ShiftedSmall(u, 64);
  }

  lemma ShlPairLong(u1: word, u2: word, k: nat)
    requires k < 64 && Scale(u1 * W + u2, 64 + k) < W * W
    ensures var (r1, r2) := ShlPair(u1, u2, 64 + k); r1 * W + r2 == Scale(u1 * W + u2, 64 + k)
  {
    hide Scale, Shifted, LowBits, Or;
    WrappedCounts(64 + k);
    var u := u1 * W + u2;
    ScaleTwice(u, k, 64);
    ScaleByValue(Scale(u, k));
    ScaleGrows(u, 0, k);
    ScaleByOne(u);
    ScalePositive(u, k);
    assert u1 == 0 && u == u2;
    OrZero(0);
    OrZero(Shl(u2, k));
    if k == 0 {
      ByZero(u2);
      OrSelf(u2);
    }
  }

  // lz counts the zeros in front of a double word
  lemma LzRange(u1: word, u2: word)
    requires u1 > 0 || u2 > 0
    ensures Lz(u1, u2) < 128
    ensures Scale(1, 127 - Lz(u1, u2)) <= u1 * W + u2 < Scale(1, 128 - Lz(u1, u2))
  {
    hide Scale, Len;
    ScaleValues();
    if u1 == 0 {
      LenRange(u2);
      LenOfZero();
    } else {
      LenRange(u1);
      LenBound(u1, 64);
      var k := Len(u1);
      ScaleTwice(1, k - 1, 64);
      ScaleByValue(Scale(1, k - 1));
      ScaleTwice(1, k, 64);
      ScaleByValue(Scale(1, k));
    }
  }

  lemma LenOfZero()
    ensures Len(0) == 0
  {
  }

  // ----- unpacking

  datatype Parts = Parts(sign: nat, exp: int, mant: word)

  function Split(b: word): Parts {
    var sign := Shr(b, 63);
    var exp := And(Shr(b, 52), 0x7FF);
    var mant := And64(b, FRAC_MASK);
    if exp == 0 then
      var shift := LeadingZeros64(mant) - 11;
      Parts(sign, 1 - shift, Shl(mant, if shift < 0 then 64 else shift))
    else
      Parts(sign, exp, Or64(mant, HIDDEN))
  }

  // the significand has its leading bit at position 52 and, with the
  // exponent, denotes the same number
  ghost predicate SplitOf(b: word, p: Parts) {
    && p.sign == Sign(b)
    && HIDDEN <= p.mant < 2 * HIDDEN && -51 <= p.exp <= 2046
    && Scale(Magnitude(b), 52) == Scale(p.mant, p.exp + 51)
  }

  lemma SplitCorrect(b: word)
    requires IsFinite(b) && Magnitude(b) > 0
    ensures SplitOf(b, Split(b))
  {
    hide Scale, Or, And, Len, Shr, Sign, BiasedExp, Frac;
    SplitFields(b);
    FieldsOf(b);
    var fr, e := Frac(b), BiasedExp(b);
    ScaleValues();
    if e == 0 {
      Normalise(fr);
    } else {
      OrDisjoint(1, fr, 52);
      OrCommutes(fr, HIDDEN);
      ScaleTwice(HIDDEN + fr, e - 1, 52);
    }
  }

  lemma SplitFields(b: word)
    ensures And(Shr(b, 52), 0x7FF) == BiasedExp(b) && And64(b, FRAC_MASK) == Frac(b) && Shr(b, 63) == Sign(b)
  {
    hide Scale, Shifted, LowBits, And;
    ScaleValues();
    AndMask(Shr(b, 52), 11);
    AndMask(b, 52);
    ByDivision(b, 52, HIDDEN);
    ByDivision(b, 63, SIGN_BIT);
    ByDivision(Shr(b, 52), 11, 2048);
  }

  lemma Normalise(frac: nat)
    requires 0 < frac < HIDDEN
    ensures var shift := LeadingZeros64(frac) - 11;
            && 1 <= shift <= 52 && HIDDEN <= Shl(frac, shift) < 2 * HIDDEN
            && Scale(frac, 52) == Scale(Shl(frac, shift), 52 - shift)
  {
    hide Scale, Len;
    ScaleValues();
    LenRange(frac);
    LenBound(frac, 52);
    var k := Len(frac);
    var shift := 53 - k;
    ScaleTwice(1, k - 1, shift);
    ScaleTwice(1, k, shift);
    ScaleOrder(frac, Scale(1, k - 1), shift);
    ScaleOrder(frac, Scale(1, k), shift);
    ScaleTwice(frac, shift, 52 - shift);
  }

  // ----- the operation

  // sign, exponent and double-word significand of a term of the sum
  datatype Operand = Operand(s: nat, e: int, hi: word, lo: word) {
    function Sig(): nat { hi * W + lo }
  }

  function Product(x: Parts, y: Parts): Operand {
    var pe := x.exp + y.exp - BIAS + 1;
    var (pm1, pm2) := Mul64(Shl(x.mant, 10), Shl(y.mant, 11));
    var is62zero := And64(Shr(Not(pm1), 62), 1);
    var (qm1, qm2) := ShlPair(pm1, pm2, is62zero);
    Operand(if x.sign == y.sign then 0 else 1, pe - is62zero, qm1, qm2)
  }

  function Addend(z: Parts): Operand {
    Operand(z.sign, z.exp, Shl(z.mant, 10), 0)
  }

  // align z with p, add or subtract, and normalise to 63 bits with a sticky bit
  function AddSub(p: Operand, z: Operand): (int, word)
    requires 0 <= p.e - z.e < W
  {
    var (z1, z2) := ShrCompress(z.hi, z.lo, p.e - z.e);
    if p.s == z.s then
      var (s2, c) := Add64(p.lo, z2, 0);
      var (s1, _) := Add64(p.hi, z1, c);
      var (_, m) := ShrCompress(s1, s2, (64 + Shr(s1, 63)) % W);
      (p.e - Shr(Not(s1), 63), m)
    else
      var (d2, c) := Sub64(p.lo, z2, 0);
      var (d1, _) := Sub64(p.hi, z1, c);
      var nz := Lz(d1, d2);
      var (m, rest) := ShlPair(d1, d2, (nz - 1) % W);
      (p.e - nz, Or64(m, Nonzero(rest)))
  }

  // round and break ties to even
  function Pack(s: nat, pe: int, m: word): word
    requires s <= 1
  {
    if pe > 1022 + BIAS || (pe == 1022 + BIAS && Shr((m + 512) % W, 63) == 1) then
      Or64(s * SIGN_BIT, INF)
    else
      var m1 := if pe < 0 then Or64(Shr(m, -pe % W), Nonzero(Mask(m, -pe % W))) else m;
      var pe1 := if pe < 0 then 0 else pe;
      var tie := Mask(m1, 10) == 512;
      var m2 := And64(Shr((m1 + 512) % W, 10), Not(if tie then 1 else 0));
      var pe2 := if m2 != 0 then pe1 else 0;
      (s * SIGN_BIT + pe2 * HIDDEN + m2) % W
  }

  predicate IsNumber(b: word) { IsFinite(b) && Magnitude(b) > 0 }

  function FMA(x: word, y: word, z: word): word
    requires IsNumber(x) && IsNumber(y) && (IsFinite(z) ==> Magnitude(z) > 0)
  {
    if !IsFinite(z) then z else
      var (p, q) := Terms(x, y, z);
      if p.s != q.s && p.e == q.e && p.hi == q.hi && p.lo == q.lo then 0
      else
        var (pe, m) := AddSub(p, q);
        Pack(p.s, pe, m)
  }

  // the product and the addend, the larger magnitude first
  function Terms(x: word, y: word, z: word): (t: (Operand, Operand))
    requires IsNumber(x) && IsNumber(y) && IsNumber(z)
    ensures t.0.s <= 1 && 0 <= t.0.e - t.1.e < W
  {
    SplitCorrect(x); SplitCorrect(y); SplitCorrect(z);
    ExponentRange(Split(x), Split(y));
    FieldsOf(z);
    var p, q := Product(Split(x), Split(y)), Addend(Split(z));
    if p.e < q.e || (p.e == q.e && p.hi < q.hi) then (q, p) else (p, q)
  }

  lemma ExponentRange(x: Parts, y: Parts)
    requires -51 <= x.exp <= 2046 && -51 <= y.exp <= 2046
    ensures -1125 <= Product(x, y).e <= 3070
  {
    hide Or, And, ShlPair, Shl, Shr, Mul64;
    var (pm1, pm2) := Mul64(Shl(x.mant, 10), Shl(y.mant, 11));
    AndOne(Shr(Not(pm1), 62));
  }

  // ----- the terms of the sum, exactly

  const B126: nat := 0x4000_0000_0000_0000_0000_0000_0000_0000
  const B62: nat := 0x4000_0000_0000_0000
  const OFFSET: nat := 1200         // weights are in units of 2^-2349
  const PRODUCT_SCALE: nat := 201   // from units of 2^-2148 to units of 2^-2349
  const ADDEND_SCALE: nat := 1275   // from units of 2^-1074 to units of 2^-2349
  const SIG_SHIFT: nat := 74        // from a 53-bit significand to one with leading bit 126

  // an operand's magnitude
  function Weight(o: Operand): int
    requires o.e >= -1199
  {
    Scale(o.Sig(), o.e + OFFSET)
  }

  // the leading bit is bit 126, and the last bit is clear
  predicate LeadingBit126(sig: nat) {
    B126 <= sig < 2 * B126 && sig % 2 == 0
  }

  predicate Normalised(o: Operand) {
    o.s <= 1 && -1125 <= o.e <= 3070 && LeadingBit126(o.Sig())
  }

  lemma ProductNormalised(x: Parts, y: Parts)
    requires HIDDEN <= x.mant < 2 * HIDDEN && HIDDEN <= y.mant < 2 * HIDDEN
    requires -51 <= x.exp <= 2046 && -51 <= y.exp <= 2046
    ensures Normalised(Product(x, y))
    ensures var p := Product(x, y);
            var k := x.exp + y.exp - 1022 - p.e;
            0 <= k <= 1 && p.Sig() == Scale(x.mant * y.mant, 21 + k)
  {
    hide Scale, And, ShlPair, Shl, Shr, Mul64, LeadingBit126;
    ExponentRange(x, y);
    RawProduct(x.mant, y.mant);
    var (pm1, pm2) := Mul64(Shl(x.mant, 10), Shl(y.mant, 11));
    Doubled(pm1, pm2, x.mant * y.mant);
    Bit62(pm1);
  }

  // the 106-bit product, 21 bits up
  lemma RawProduct(xm: word, ym: word)
    requires HIDDEN <= xm < 2 * HIDDEN && HIDDEN <= ym < 2 * HIDDEN
    ensures var (pm1, pm2) := Mul64(Shl(xm, 10), Shl(ym, 11));
            pm1 * W + pm2 == 0x20_0000 * (xm * ym)
    ensures HIDDEN * HIDDEN <= xm * ym < 4 * HIDDEN * HIDDEN
  {
    hide Scale;
    ScaleByValue(xm);
    ScaleByValue(ym);
    ProductFactors(xm, ym);
    MulLeq(HIDDEN, xm, ym);
    MulLeq(xm, 2 * HIDDEN - 1, ym);
  }

  lemma ProductFactors(a: nat, b: nat)
    ensures (1024 * a) * (2048 * b) == 0x20_0000 * (a * b)
  {
  }

  lemma Bit62(pm1: word)
    requires pm1 < 0x8000_0000_0000_0000
    ensures And64(Shr(Not(pm1), 62), 1) == if pm1 < B62 then 1 else 0
  {
    hide And, Scale, Shifted, LowBits;
    ScaleValues();
    ByDivision(Not(pm1), 62, B62);
    AndOne(Shr(Not(pm1), 62));
  }

  lemma Doubled(pm1: word, pm2: word, xy: nat)
    requires pm1 * W + pm2 == 0x20_0000 * xy && HIDDEN * HIDDEN <= xy < 4 * HIDDEN * HIDDEN
    ensures pm1 < 0x8000_0000_0000_0000
    ensures var k := if pm1 < B62 then 1 else 0;
            var (qm1, qm2) := ShlPair(pm1, pm2, k);
            qm1 * W + qm2 == Scale(xy, 21 + k) && LeadingBit126(qm1 * W + qm2)
  {
    hide ShlPair, Scale, LeadingBit126;
    var k := if pm1 < B62 then 1 else 0;
    var u := pm1 * W + pm2;
    UpToOne(u);
    TwentyOne(xy);
    ShlPairIsScale(pm1, pm2, k);
    EvenInRange(Scale(xy, 21 + k), if k == 1 then 0x20_0000 * xy else 0x10_0000 * xy);
  }

  lemma UpToOne(u: int)
    ensures Scale(u, 0) == u && Scale(u, 1) == 2 * u
  {
  }

  lemma EvenInRange(sig: nat, half: nat)
    requires sig == 2 * half && B126 <= sig < 2 * B126
    ensures LeadingBit126(sig)
  {
  }

  lemma TwentyOne(x: nat)
    ensures Scale(x, 21) == 0x20_0000 * x && Scale(x, 22) == 0x40_0000 * x
  {
    assert Scale(x, 22) == 2 * Scale(x, 21);
    hide Scale;
    ScaleTwice(x, 11, 10);
    ScaleByValue(x);
    ScaleByValue(Scale(x, 11));
  }

  lemma AddendWeight(z: word)
    requires IsNumber(z)
    ensures Normalised(Addend(Split(z)))
    ensures Weight(Addend(Split(z))) == Scale(Magnitude(z), ADDEND_SCALE)
  {
    hide Split, Magnitude, IsFinite, Shl, Scale, Sign, LeadingBit126;
    SplitCorrect(z);
    FieldsOf(z);
    var p := Split(z);
    AddendSig(p.mant);
    ScaleTwice(Magnitude(z), 52, ADDEND_SCALE - 52);
    ScaleTwice(p.mant, p.exp + 51, ADDEND_SCALE - 52);
    ScaleTwice(p.mant, SIG_SHIFT, p.exp + OFFSET);
  }

  lemma AddendSig(m: word)
    requires HIDDEN <= m < 2 * HIDDEN
    ensures Shl(m, 10) * W + 0 == Scale(m, SIG_SHIFT) && LeadingBit126(Shl(m, 10) * W + 0)
  {
    hide Scale, LeadingBit126;
    ScaleByValue(m);
    ScaleTwice(m, 10, SIG_SHIFT - 10);
    ScaleByValue(Scale(m, 10));
    EvenInRange(Shl(m, 10) * W + 0, 512 * m * W);
  }

  lemma ProductWeight(x: word, y: word)
    requires IsNumber(x) && IsNumber(y)
    ensures Normalised(Product(Split(x), Split(y)))
    ensures Weight(Product(Split(x), Split(y))) == Scale(Magnitude(x) * Magnitude(y), PRODUCT_SCALE)
  {
    hide Split, Magnitude, IsFinite, Product, Scale, Sign, Normalised;
    SplitCorrect(x);
    SplitCorrect(y);
    var a, b := Split(x), Split(y);
    ProductNormalised(a, b);
    var p := Product(a, b);
    NormalisedRange(p);
    var k := a.exp + b.exp - 1022 - p.e;
    CrossScale(Magnitude(x), Magnitude(y), a.mant, b.mant, a.exp + 51, b.exp + 51, PRODUCT_SCALE - 104);
    ScaleTwice(a.mant * b.mant, 21 + k, p.e + OFFSET);
  }

  lemma NormalisedRange(o: Operand)
    requires Normalised(o)
    ensures -1125 <= o.e <= 3070 && o.s <= 1
  {
  }

  lemma CrossScale(mx: nat, my: nat, a: nat, b: nat, i: nat, j: nat, k: nat)
    requires Scale(mx, 52) == Scale(a, i) && Scale(my, 52) == Scale(b, j)
    ensures Scale(mx * my, 104 + k) == Scale(a * b, i + j + k)
  {
    hide Scale;
    ScaleProduct(mx, 52, my, 52);
    ScaleProduct(a, i, b, j);
    ScaleTwice(mx * my, 104, k);
    ScaleTwice(a * b, i + j, k);
  }

  lemma ScaleProduct(a: int, i: nat, b: int, j: nat)
    ensures Scale(a, i) * Scale(b, j) == Scale(a * b, i + j)
  {
    hide Scale;
    ScaleFactor(Scale(a, i), b, j);
    assert b * Scale(a, i) == Scale(a, i) * b;
    ScaleFactor(b, a, i);
    ScaleTwice(b * a, i, j);
    assert b * a == a * b;
  }

  // ----- adding or subtracting with a sticky bit

  const UNIT: nat := 1265   // m counts units of 2^(pe + UNIT)

  // p is no smaller than z, so that z is the one to be shifted
  predicate Ordered(p: Operand, z: Operand) {
    p.e > z.e || (p.e == z.e && p.Sig() >= z.Sig())
  }

  // the exact sum of the two terms, as a magnitude with the sign of p
  function ExactSum(p: Operand, z: Operand): int
    requires p.e >= -1199 && z.e >= -1199
  {
    if p.s == z.s then Weight(p) + Weight(z) else Weight(p) - Weight(z)
  }

  // the aligned significand, and the sum it leads to: exact, or odd and less
  // than one unit off
  lemma Aligned(p: Operand, z: Operand)
    requires Normalised(p) && Normalised(z) && Ordered(p, z)
    ensures var z' := StickyShift(z.Sig(), p.e - z.e);
            && z' <= p.Sig()
            && RoundedToOdd(if p.s == z.s then p.Sig() + z' else p.Sig() - z', ExactSum(p, z), p.e + OFFSET)
  {
    hide Scale, RoundedToOdd, StickyShift;
    var n, c := p.e - z.e, z.e + OFFSET;
    var z' := StickyShift(z.Sig(), n);
    StickyShiftRounds(z.Sig(), n);
    StickyShiftBound(z.Sig(), n);
    var ps, zs := p.Sig(), z.Sig();
    EvenPlusMinus(ps, z', zs, n);
    RoundedToOddScale(ps + z', Scale(ps, n) + zs, n, c);
    RoundedToOddScale(ps - z', Scale(ps, n) - zs, n, c);
    ScaleLinear(Scale(ps, n), zs, c);
    ScaleTwice(ps, n, c);
  }

  lemma StickyShiftBound(u: nat, n: nat)
    requires u < 2 * B126
    ensures n == 0 ==> StickyShift(u, n) == u
    ensures n >= 1 ==> StickyShift(u, n) < B126
    ensures n >= 2 ==> StickyShift(u, n) < B126 / 2
  {
    hide Scale, Shifted, LowBits;
    if n == 0 {
      ByZero(u);
    } else if n == 1 {
      UpToOne(B126);
      ShiftedBelow(u, 1, B126);
    } else {
      UpToOne(B126 / 2);
      UpToOne(B126);
      ScaleTwice(B126 / 2, 1, 1);
      ScaleGrows(B126 / 2, 2, n);
      ShiftedBelow(u, n, B126 / 2);
    }
  }

  // the result's significand has 63 bits and is the exact sum rounded to odd
  ghost predicate SumRounds(p: Operand, z: Operand, pe: int, m: word)
    requires p.e >= -1199 && z.e >= -1199
  {
    B62 <= m < 2 * B62 && 0 <= pe + UNIT && RoundedToOdd(m, ExactSum(p, z), pe + UNIT)
  }

  lemma AddRounds(p: Operand, z: Operand)
    requires Normalised(p) && Normalised(z) && Ordered(p, z) && p.s == z.s
    ensures var (pe, m) := AddSub(p, z); SumRounds(p, z, pe, m)
  {
    hide ShrCompress, RoundedToOdd, StickyShift, ExactSum, Add64, Shr, Not, Scale;
    ShrCompressIsSticky(z.hi, z.lo, p.e - z.e);
    var (z1, z2) := ShrCompress(z.hi, z.lo, p.e - z.e);
    Aligned(p, z);
    StickyShiftBound(z.Sig(), p.e - z.e);
    var (s2, c) := Add64(p.lo, z2, 0);
    var (s1, _) := Add64(p.hi, z1, c);
    AddPairs(p.hi, p.lo, z1, z2);
    TopBit(s1);
    SumCompresses(s1, s2, ExactSum(p, z), p.e);
  }

  lemma SumCompresses(s1: word, s2: word, sum: int, e: int)
    requires B126 <= s1 * W + s2 && e >= -1125 && RoundedToOdd(s1 * W + s2, sum, e + OFFSET)
    ensures var top := if s1 >= SIGN_BIT then 1 else 0;
            var (_, m) := ShrCompress(s1, s2, 64 + top);
            B62 <= m < 2 * B62 && RoundedToOdd(m, sum, e - (1 - top) + UNIT)
  {
    hide ShrCompress, RoundedToOdd, StickyShift;
    var t := s1 * W + s2;
    var k := if s1 >= SIGN_BIT then 65 else 64;
    ShrCompressIsSticky(s1, s2, k);
    var (r1, m) := ShrCompress(s1, s2, k);
    SixtyThreeBits(t, k);
    assert r1 == 0;
    StickyShiftComposes(t, sum, e + OFFSET, k);
  }

  // double-word addition and subtraction through the carry
  lemma AddPairs(a1: word, a2: word, b1: word, b2: word)
    requires a1 * W + a2 + (b1 * W + b2) < W * W
    ensures var (s2, c) := Add64(a2, b2, 0);
            var (s1, _) := Add64(a1, b1, c);
            s1 * W + s2 == a1 * W + a2 + (b1 * W + b2)
  {
  }

  lemma SubPairs(a1: word, a2: word, b1: word, b2: word)
    requires a1 * W + a2 >= b1 * W + b2
    ensures var (d2, c) := Sub64(a2, b2, 0);
            var (d1, _) := Sub64(a1, b1, c);
            d1 * W + d2 == a1 * W + a2 - (b1 * W + b2)
  {
  }

  lemma TopBit(s1: word)
    ensures Shr(s1, 63) == (if s1 >= SIGN_BIT then 1 else 0)
    ensures Shr(Not(s1), 63) == (if s1 >= SIGN_BIT then 0 else 1)
  {
    hide Scale, Shifted, LowBits;
    ScaleValues();
    ByDivision(s1, 63, SIGN_BIT);
    ByDivision(Not(s1), 63, SIGN_BIT);
  }

  lemma SixtyThreeBits(t: nat, k: nat)
    requires (k == 64 && B126 <= t < 2 * B126) || (k == 65 && 2 * B126 <= t < 4 * B126)
    ensures B62 <= StickyShift(t, k) < 2 * B62
  {
    hide Scale, Shifted, LowBits;
    ScaleByValue(1);
    UpToOne(W);
    ScaleTwice(1, 64, 1);
    ByDivision(t, k, if k == 64 then W else 2 * W);
  }

  lemma SubRounds(p: Operand, z: Operand)
    requires Normalised(p) && Normalised(z) && Ordered(p, z) && p.s != z.s
    requires p.e != z.e || p.Sig() != z.Sig()
    ensures var (pe, m) := AddSub(p, z); SumRounds(p, z, pe, m)
  {
    hide Or64, ShrCompress, RoundedToOdd, StickyShift, ShlPair, Lz, ExactSum, Sub64, Scale;
    ShrCompressIsSticky(z.hi, z.lo, p.e - z.e);
    var (z1, z2) := ShrCompress(z.hi, z.lo, p.e - z.e);
    Aligned(p, z);
    StickyShiftBound(z.Sig(), p.e - z.e);
    var t := p.Sig() - (z1 * W + z2);
    var (d2, c) := Sub64(p.lo, z2, 0);
    var (d1, _) := Sub64(p.hi, z1, c);
    SubPairs(p.hi, p.lo, z1, z2);
    LeadingZeros(d1, d2);
    var a := Lz(d1, d2) - 1;
    Cancelled(d1, d2, t, a);
    DifferenceRounds(p, z, t, a);
  }

  // a long cancellation is only possible when the alignment lost nothing
  lemma DifferenceRounds(p: Operand, z: Operand, t: nat, a: nat)
    requires Normalised(p) && Normalised(z) && Ordered(p, z) && p.s != z.s
    requires var z' := StickyShift(z.Sig(), p.e - z.e); z' <= p.Sig() && t == p.Sig() - z'
    requires a <= 126 && t < Scale(1, 127 - a) && RoundedToOdd(t, ExactSum(p, z), p.e + OFFSET)
    ensures Scale(t, a) >= 0
    ensures RoundedToOdd(StickyShift(Scale(t, a), 64), ExactSum(p, z), p.e - a - 1 + UNIT)
  {
    hide RoundedToOdd, StickyShift, ExactSum, Scale;
    ScalePositive(t, a);
    if a > 64 {
      StickyShiftBound(z.Sig(), p.e - z.e);
      ShortRemainder(t, a);
      ExactShift(z.Sig(), p.e - z.e);
      ExactDifference(p, z, t);
      LongShift(t, ExactSum(p, z), p.e, a);
    } else {
      StickyShiftOfMultiple(t, a, 64);
      StickyShiftComposes(t, ExactSum(p, z), p.e + OFFSET, 64 - a);
    }
  }

  lemma ShortRemainder(t: nat, a: nat)
    requires 64 < a < 127 && t < Scale(1, 127 - a)
    ensures t < B62
  {
    hide Scale;
    ScaleValues();
    ScaleGrows(1, 127 - a, 62);
  }

  lemma ExactShift(u: nat, n: nat)
    requires u % 2 == 0 && n <= 1
    ensures Scale(StickyShift(u, n), n) == u
  {
    hide Scale, Shifted, LowBits;
    Division(u, n);
    UpToOne(1);
    UpToOne(Shifted(u, n));
  }

  lemma ExactDifference(p: Operand, z: Operand, t: nat)
    requires p.e >= z.e >= -1199 && p.s != z.s
    requires var z' := StickyShift(z.Sig(), p.e - z.e);
             z' <= p.Sig() && t == p.Sig() - z' && Scale(z', p.e - z.e) == z.Sig()
    ensures Scale(t, p.e + OFFSET) == ExactSum(p, z)
  {
    hide StickyShift, Scale;
    var z' := StickyShift(z.Sig(), p.e - z.e);
    ScaleLinear(p.Sig(), z', p.e + OFFSET);
    ScaleTwice(z', p.e - z.e, z.e + OFFSET);
  }

  lemma LongShift(t: nat, sum: int, e: int, a: nat)
    requires -1125 <= e && a <= 126 && Scale(t, e + OFFSET) == sum && Scale(t, a) >= 0
    ensures RoundedToOdd(StickyShift(Scale(t, a), 64), sum, e - a - 1 + UNIT)
  {
    hide StickyShift, Scale, RoundedToOdd;
    ScaleTwice(t, a, e + OFFSET);
    ScaleTwice(t, e + OFFSET, a);
    ExactIsRounded(Scale(t, a), Scale(sum, a), e + OFFSET);
    StickyShiftComposes(Scale(t, a), Scale(sum, a), e + OFFSET, 64);
    RoundedToOddScale(StickyShift(Scale(t, a), 64), sum, e - a - 1 + UNIT, a);
  }

  lemma LeadingZeros(d1: word, d2: word)
    requires 0 < d1 * W + d2 < 2 * B126
    ensures 1 <= Lz(d1, d2) <= 127
    ensures Scale(1, 127 - Lz(d1, d2)) <= d1 * W + d2 < Scale(1, 128 - Lz(d1, d2))
  {
    hide Lz, Scale;
    LzRange(d1, d2);
    B126IsPower();
    if Lz(d1, d2) == 0 { assert false; }
  }

  lemma B126IsPower()
    ensures Scale(1, 126) == B126 && Scale(1, 127) == 2 * B126
  {
    hide Scale;
    ScaleValues();
    ScaleTwice(1, 62, 64);
    ScaleTwice(1, 63, 64);
    ScaleByValue(B62);
    ScaleByValue(2 * B62);
  }

  // the difference shifted up to bit 126, and its high word with a sticky bit
  lemma Cancelled(d1: word, d2: word, t: nat, a: nat)
    requires t == d1 * W + d2 && 0 < t < 2 * B126 && a == Lz(d1, d2) - 1
    ensures a <= 126 && t < Scale(1, 127 - a) && Scale(t, a) >= 0
    ensures var (m, rest) := ShlPair(d1, d2, a);
            && B62 <= Or64(m, Nonzero(rest)) < 2 * B62
            && Or64(m, Nonzero(rest)) == StickyShift(Scale(t, a), 64)
  {
    hide ShlPair, Lz, Or64, StickyShift, Nonzero, Scale;
    LeadingZeros(d1, d2);
    ShiftedUp(t, a + 1);
    ShlPairIsScale(d1, d2, a);
    var (m, rest) := ShlPair(d1, d2, a);
    HighWord(m, rest);
  }

  lemma ShiftedUp(t: nat, nz: nat)
    requires 1 <= nz <= 127 && Scale(1, 127 - nz) <= t < Scale(1, 128 - nz)
    ensures B126 <= Scale(t, nz - 1) < 2 * B126
  {
    hide Scale;
    B126IsPower();
    ScaleTwice(1, 127 - nz, nz - 1);
    ScaleTwice(1, 128 - nz, nz - 1);
    ScaleOrder(t, Scale(1, 127 - nz), nz - 1);
    ScaleOrder(t, Scale(1, 128 - nz), nz - 1);
  }

  lemma HighWord(m: word, rest: word)
    requires B126 <= m * W + rest < 2 * B126
    ensures B62 <= Or64(m, Nonzero(rest)) < 2 * B62
    ensures Or64(m, Nonzero(rest)) == StickyShift(m * W + rest, 64)
  {
    hide Or64, Shifted, LowBits;
    HighQuotient(m, rest, 0);
    ByZero(m);
    OrFlag(m, rest, Nonzero(rest));
  }

  // ----- rounding and packing

  lemma PackRounds(num: int, s: nat, sum: int, pe: int, m: word)
    requires num != 0 && s == (if num < 0 then 1 else 0) && sum == Scale(Abs(num), PRODUCT_SCALE)
    requires B62 <= m < 2 * B62 && 0 <= pe + UNIT && RoundedToOdd(m, sum, pe + UNIT)
    ensures RoundsTo(num, ULP, Pack(s, pe, m))
  {
    hide RoundedToOdd, RoundsTo, Pack, NearestEven, Scale, StickyShift, RoundTen;
    ScalePositive(Abs(num), PRODUCT_SCALE);
    if pe >= 0 { LargeEnough(Abs(num), sum, pe, m); }
    if pe > TOP {
      PackInfinite(s, pe, m);
      Overflows(num, s, pe);
    } else {
      var m1, pe1 := m as nat, pe;
      if pe < 0 {
        m1, pe1 := StickyShift(m, -pe), 0;
        StickyShiftComposes(m, sum, pe + UNIT, -pe);
      }
      TenExtraBits(m1, sum, pe1 + UNIT);
      NearestEvenScale(Abs(num), pe1 + ULP, RoundTen(m1), PRODUCT_SCALE);
      PackFinite(s, pe, m);
      SignificandRounding(num, ULP, pe1, RoundTen(m1), Pack(s, pe, m));
    }
  }

  // what the packed word is, before asking whether it is the right one
  lemma PackFinite(s: nat, pe: int, m: word)
    requires s <= 1 && B62 <= m < 2 * B62 && -1265 <= pe <= TOP
    ensures var m1 := if pe < 0 then StickyShift(m, -pe) else m;
            var pe1 := if pe < 0 then 0 else pe;
            && RoundTen(m1) <= 2 * HIDDEN && (pe1 > 0 ==> RoundTen(m1) >= HIDDEN)
            && Pack(s, pe, m) == s * SIGN_BIT + pe1 * HIDDEN + RoundTen(m1)
  {
    hide Or64, And64, Mask, StickyShift, Shr, RoundTen;
    if pe < 0 {
      CompressWord(m, -pe);
      StickyShiftShrinks(m, -pe);
    }
    var m1: word := if pe < 0 then StickyShift(m, -pe) else m;
    RoundTenWords(m1);
    OverflowTest(m);
    InfinityBits(s);
  }

  lemma StickyShiftShrinks(u: nat, n: nat)
    requires u < 2 * B62
    ensures StickyShift(u, n) < 2 * B62
  {
    hide Scale, Shifted, LowBits;
    ScaleGrows(2 * B62, 0, n);
    ScaleByOne(2 * B62);
    ShiftedBelow(u, n, 2 * B62);
  }

  lemma PackInfinite(s: nat, pe: int, m: word)
    requires s <= 1 && pe > TOP
    ensures Pack(s, pe, m) == s * SIGN_BIT + INF
  {
    hide Or64, And64, Mask, Shr;
    InfinityBits(s);
  }

  lemma InfinityBits(s: nat)
    requires s <= 1
    ensures Or64(s * SIGN_BIT, INF) == s * SIGN_BIT + INF
  {
    hide Or, Scale;
    ScaleValues();
    ScaleFactor(s, 1, 63);
    OrDisjoint(s, INF, 63);
  }

  lemma OverflowTest(m: word)
    requires m < 2 * B62
    ensures Shr((m + 512) % W, 63) == 1 <==> m + 512 >= SIGN_BIT
    ensures m + 512 >= SIGN_BIT ==> RoundTen(m) == 2 * HIDDEN
  {
    hide Shr, Scale;
    TopBit((m + 512) % W);
  }

  // the single-word form of the sticky shift
  lemma CompressWord(m: word, n: word)
    ensures Or64(Shr(m, n), Nonzero(Mask(m, n))) == StickyShift(m, n)
  {
    hide Or64, Mask, Shifted, LowBits, Scale;
    if n < 64 {
      MaskIsLowBits(m, n);
    } else {
      MaskAll(m, n);
      ScaleByValue(1);
      ScaleGrows(1, 64, n);
      ShiftedSmall(m, n);
    }
    OrFlag(Shr(m, n), LowBits(m, n), Nonzero(Mask(m, n)));
  }

  lemma RoundTenWords(m: word)
    requires m < 2 * B62
    ensures And64(Shr((m + 512) % W, 10), Not(if Mask(m, 10) == 512 then 1 else 0)) == RoundTen(m)
    ensures RoundTen(m) <= 2 * HIDDEN && (m >= B62 ==> RoundTen(m) >= HIDDEN)
  {
    hide And, Mask, Shifted, LowBits, Scale;
    MaskIsLowBits(m, 10);
    ScaleByValue(1);
    ByDivision(m, 10, 1024);
    ByDivision(m + 512, 10, 1024);
    var j := (m + 512) / 1024;
    AndAll(j);
    AndNotOne(j);
  }

  // the exact result is at least as large as its leading bit says
  lemma LargeEnough(num: nat, sum: int, pe: nat, m: word)
    requires sum == Scale(num, PRODUCT_SCALE) && B62 <= m && RoundedToOdd(m, sum, pe + UNIT)
    ensures num >= Scale(HIDDEN, pe + ULP)
  {
    hide Scale;
    ScaleOrder(m, B62, pe + UNIT);
    ScaleOrder(m - 1, B62, pe + UNIT);
    ScaleByValue(HIDDEN);
    ScaleTwice(HIDDEN, 10, pe + UNIT);
    ScaleTwice(HIDDEN, pe + ULP, PRODUCT_SCALE);
    ScaleOrder(num, Scale(HIDDEN, pe + ULP), PRODUCT_SCALE);
  }

  lemma Overflows(num: int, s: nat, pe: int)
    requires num != 0 && s == (if num < 0 then 1 else 0) && pe > TOP
    requires Abs(num) >= Scale(HIDDEN, pe + ULP)
    ensures s * SIGN_BIT + INF < W && RoundsTo(num, ULP, s * SIGN_BIT + INF)
  {
    hide Scale, IsFinite, NoFarther;
    Fields(s, 2047, 0);
    ScaleGrows(HIDDEN, TOP + 1 + ULP, pe + ULP);
    ScaleTwice(HIDDEN, 2, TOP - 1 + ULP);
    UpToOne(HIDDEN);
    UpToOne(2 * HIDDEN);
    ScaleTwice(HIDDEN, 1, 1);
    ScaleOrder(4 * HIDDEN - 1, 4 * HIDDEN, TOP - 1 + ULP);
  }

  // a common factor does not change which integer is nearest
  lemma NearestEvenScale(num: nat, k: nat, m: nat, c: nat)
    requires Scale(num, c) >= 0 && NearestEven(Scale(num, c), k + c, m)
    ensures NearestEven(num, k, m)
  {
    hide Scale;
    var d := Scale(m, k) - num;
    ScaleTwice(m, k, c);
    ScaleTwice(1, k, c);
    ScaleLinear(Scale(m, k), num, c);
    ScaleFactor(2, d, c);
    ScaleFactor(-2, d, c);
    ScaleOrder(Scale(1, k), 2 * d, c);
    ScaleOrder(Scale(1, k), -2 * d, c);
  }

  // ----- the whole operation

  // x*y + z, exactly, in units of 2^-2148
  function ExactResult(x: word, y: word, z: word): int {
    Value(x) * Value(y) + Scale(Value(z), ULP)
  }

  function Signed(o: Operand): int
    requires o.e >= -1199
  {
    if o.s == 1 then 0 - Weight(o) else Weight(o)
  }

  lemma ProductSigned(x: word, y: word)
    requires IsNumber(x) && IsNumber(y)
    ensures var p := Product(Split(x), Split(y));
            p.e >= -1199 && Signed(p) == Scale(Value(x) * Value(y), PRODUCT_SCALE)
  {
    hide Magnitude, IsFinite, Sign, Mul64, ShlPair, Shl, Shr, And64, Weight, Scale, SplitOf, Split;
    ProductWeight(x, y);
    ProductSign(x, y);
    FieldsOf(x);
    FieldsOf(y);
    SignRule(Magnitude(x), Magnitude(y), Value(x), Value(y));
    ScaleLinear(0, Magnitude(x) * Magnitude(y), PRODUCT_SCALE);
  }

  lemma ProductSign(x: word, y: word)
    requires IsNumber(x) && IsNumber(y)
    ensures Product(Split(x), Split(y)).s == if Sign(x) == Sign(y) then 0 else 1
  {
    hide Magnitude, IsFinite, Sign, Mul64, ShlPair, Shl, Shr, And64, Scale, Split;
    SplitCorrect(x);
    SplitCorrect(y);
  }

  lemma SignRule(mx: nat, my: nat, vx: int, vy: int)
    requires (vx == mx || vx == 0 - mx) && (vy == my || vy == 0 - my)
    ensures vx == mx && vy == my ==> vx * vy == mx * my
    ensures vx == mx && vy == 0 - my ==> vx * vy == 0 - mx * my
    ensures vx == 0 - mx && vy == my ==> vx * vy == 0 - mx * my
    ensures vx == 0 - mx && vy == 0 - my ==> vx * vy == mx * my
  {
    assert mx * (0 - my) == 0 - mx * my && (0 - mx) * my == 0 - mx * my && (0 - mx) * (0 - my) == mx * my;
  }

  lemma AddendSigned(z: word)
    requires IsNumber(z)
    ensures var q := Addend(Split(z));
            q.e >= -1199 && Signed(q) == Scale(Scale(Value(z), ULP), PRODUCT_SCALE)
  {
    hide Magnitude, IsFinite, Sign, Weight, Scale, Split, Shl;
    AddendWeight(z);
    SplitCorrect(z);
    FieldsOf(z);
    ScaleTwice(Value(z), ULP, PRODUCT_SCALE);
    ScaleLinear(0, Magnitude(z), ADDEND_SCALE);
  }

  // the two terms: normalised, in order, and adding up to the exact result
  lemma TermsCorrect(x: word, y: word, z: word)
    requires IsNumber(x) && IsNumber(y) && IsNumber(z)
    ensures var (p, q) := Terms(x, y, z);
            && Normalised(p) && Normalised(q) && Ordered(p, q)
            && Signed(p) + Signed(q) == Scale(ExactResult(x, y, z), PRODUCT_SCALE)
  {
    hide Magnitude, IsFinite, Split, Product, Value, Weight, Signed, Scale, LeadingBit126;
    ProductWeight(x, y);
    AddendWeight(z);
    ProductSigned(x, y);
    AddendSigned(z);
    ScaleLinear(Value(x) * Value(y), Scale(Value(z), ULP), PRODUCT_SCALE);
  }

  lemma SumOfTerms(p: Operand, q: Operand, e: int, c: nat)
    requires p.e >= -1199 && q.e >= -1199 && p.s <= 1 && q.s <= 1
    requires Signed(p) + Signed(q) == Scale(e, c) && ExactSum(p, q) >= 0
    ensures ExactSum(p, q) == Scale(Abs(e), c)
    ensures e != 0 ==> p.s == if e < 0 then 1 else 0
  {
    hide Weight, Scale;
    ScalePositive(e, c);
    ScalePositive(0 - e, c);
    ScaleLinear(0, e, c);
  }

  /** For all finite nonzero x, y and z, subnormal or not, FMA delivers the
      exact x*y + z rounded once by roundTiesToEven: gradual underflow and
      overflow to infinity included, and +0 when the terms cancel. */
  lemma FmaRoundsOnce(x: word, y: word, z: word)
    requires IsNumber(x) && IsNumber(y) && IsNumber(z)
    ensures ExactResult(x, y, z) == 0 ==> FMA(x, y, z) == 0
    ensures ExactResult(x, y, z) != 0 ==> RoundsTo(ExactResult(x, y, z), ULP, FMA(x, y, z))
  {
    hide Magnitude, Terms, AddSub, Pack, RoundsTo, ExactResult, Signed, Weight, RoundedToOdd, ExactSum, Scale;
    TermsCorrect(x, y, z);
    var (p, q) := Terms(x, y, z);
    var e := ExactResult(x, y, z);
    if p.s != q.s && p.e == q.e && p.hi == q.hi && p.lo == q.lo {
      Cancels(p, q);
      SumOfTerms(p, q, e, PRODUCT_SCALE);
      ScalePositive(Abs(e), PRODUCT_SCALE);
    } else {
      if p.s == q.s { AddRounds(p, q); } else { SubRounds(p, q); }
      var (pe, m) := AddSub(p, q);
      PositiveSum(m, ExactSum(p, q), pe + UNIT);
      SumOfTerms(p, q, e, PRODUCT_SCALE);
      ScalePositive(Abs(e), PRODUCT_SCALE);
      PackRounds(e, p.s, ExactSum(p, q), pe, m);
    }
  }

  lemma Cancels(p: Operand, q: Operand)
    requires p.s != q.s && p.e == q.e >= -1199 && p.hi == q.hi && p.lo == q.lo
    ensures ExactSum(p, q) == 0
  {
  }

  lemma PositiveSum(m: nat, sum: int, k: nat)
    requires m >= B62 && RoundedToOdd(m, sum, k)
    ensures sum > 0
  {
    hide Scale;
    ScalePositive(m, k);
    ScalePositive(m - 1, k);
  }
}
