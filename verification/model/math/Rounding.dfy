/**
 Trunc, Round and RoundToEven on bit patterns (src/math/floor.go), and the
 integer roundings they stand for (section 5.3.1 of IEEE 754-2019).
 */
module Rounding {
  import opened Common
  import opened Words
  import opened Float64

  const ONE_BITS: word := 0x3FF0_0000_0000_0000
  const HALF: word := 0x8_0000_0000_0000              // 1 << (shift - 1)

  // b &^ m
  function AndNot(b: word, m: word): word { And64(b, Not(m)) }

  function ExpField(b: word): nat { And64(Shr(b, 52), 0x7FF) }

  function Trunc(b: word): word {
    var e := ExpField(b);
    if e < BIAS then And64(b, SIGN_BIT)
    else if e - BIAS < 52 then AndNot(b, USub(Shl(1, 52 - (e - BIAS)), 1))
    else b
  }

  function Round(b: word): word {
    var e := ExpField(b);
    if e < BIAS then
      var z := And64(b, SIGN_BIT);
      if e == BIAS - 1 then Or64(z, ONE_BITS) else z
    else if e < BIAS + 52 then
      AndNot((b + Shr(HALF, e - BIAS)) % W, Shr(FRAC_MASK, e - BIAS))
    else b
  }

  function RoundToEven(b: word): word {
    var e := ExpField(b);
    if e >= BIAS then
      var k := e - BIAS;
      var odd := And64(Shr(b, USub(52, k)), 1);
      AndNot((b + Shr((HALF - 1 + odd) % W, k)) % W, Shr(FRAC_MASK, k))
    else if e == BIAS - 1 && And64(b, FRAC_MASK) != 0 then
      Or64(And64(b, SIGN_BIT), ONE_BITS)
    else
      And64(b, SIGN_BIT)
  }

  // ----- the slow forms, on the exact value

  // integer part and fraction of a magnitude
  function Whole(n: nat): nat { Shifted(n, ULP) }

  function Part(n: nat): nat { LowBits(n, ULP) }

  function One(): int { Scale(1, ULP) }

  // truncate, then step away from zero if at least a half was cut off
  function SlowRound(n: nat): nat {
    if 2 * Part(n) >= One() then Whole(n) + 1 else Whole(n)
  }

  // truncate, then step away if more than a half was cut off, or a half from an odd number
  function SlowRoundToEven(n: nat): nat {
    if 2 * Part(n) > One() || (2 * Part(n) == One() && Whole(n) % 2 == 1) then Whole(n) + 1 else Whole(n)
  }

  // the result is finite, keeps the sign and denotes the integer k
  predicate DenotesInteger(b: word, k: nat, r: word) {
    IsFinite(r) && Sign(r) == Sign(b) && Magnitude(r) == Scale(k, ULP)
  }

  // ----- bit fields

  lemma FieldBits(b: word)
    ensures ExpField(b) == BiasedExp(b) && And64(b, FRAC_MASK) == Frac(b)
    ensures And64(b, SIGN_BIT) == Sign(b) * SIGN_BIT
    ensures Or64(Sign(b) * SIGN_BIT, ONE_BITS) == Sign(b) * SIGN_BIT + ONE_BITS
  {
    hide Scale, Shifted, LowBits, And, Or;
    ScaleValues();
    AndMask(Shr(b, 52), 11);
    AndMask(b, 52);
    ByDivision(b, 52, HIDDEN);
    ByDivision(b, 63, SIGN_BIT);
    ByDivision(Shr(b, 52), 11, 2048);
    AndHigh(b, 63, 1);
    AndOne(Shifted(b, 63));
    FieldsOf(b);
    ScaleFactor(Sign(b), 1, 63);
    OrDisjoint(Sign(b), ONE_BITS, 63);
  }

  // AND with a mask whose low n bits are clear
  lemma {:induction false} AndHigh(x: nat, n: nat, y: nat)
    ensures Scale(y, n) >= 0 && And(x, Scale(y, n)) == Scale(And(Shifted(x, n), y), n)
    decreases n
  {
    ScalePositive(y, n);
    if n > 0 {
      AndHigh(x / 2, n - 1, y);
      AndEven(x, Scale(y, n - 1));
    }
  }

  // clearing the low n bits
  lemma ClearLow(b: word, n: nat)
    requires n <= 63
    ensures 0 < Scale(1, n) <= W && AndNot(b, Scale(1, n) - 1) == Scale(Shifted(b, n), n)
  {
    hide Scale, Shifted, LowBits, And;
    ScaleValues();
    ScaleGrows(1, n, 63);
    ScalePositive(1, n);
    ScalePositive(1, 64 - n);
    ScaleTwice(1, 64 - n, n);
    ScaleLinear(Scale(1, 64 - n), 1, n);
    AndHigh(b, n, Scale(1, 64 - n) - 1);
    AndMask(Shifted(b, n), 64 - n);
    ShiftedBelow(b, n, Scale(1, 64 - n));
    ShiftedSmall(Shifted(b, n), 64 - n);
  }

  // ----- patterns with k fraction bits below the integer part

  // the significand of a number with k fraction bits, and what truncation makes of it
  lemma FractionBits(b: word, k: nat)
    requires 1 <= k <= 52 && BiasedExp(b) == 1075 - k
    ensures var g := HIDDEN + Frac(b);
            && Whole(Magnitude(b)) == Shifted(g, k)
            && Part(Magnitude(b)) == Scale(LowBits(g, k), ULP - k)
            && One() == Scale(Scale(1, k), ULP - k)
            && b == Sign(b) * SIGN_BIT + (ULP - k) * HIDDEN + g
  {
    hide Scale, Shifted, LowBits;
    FieldsOf(b);
    var g, c := HIDDEN + Frac(b), ULP - k;
    var q, r := Shifted(g, k), LowBits(g, k);
    Division(g, k);
    ScaleLinear(Scale(q, k), r, c);
    ScaleTwice(q, k, c);
    ScaleTwice(1, k, c);
    ScaleOrder(r, Scale(1, k), c);
    ScalePositive(r, c);
    DivisionUnique(Magnitude(b), ULP, q, Scale(r, c));
  }

  // a pattern whose significand is replaced by j with k zero bits denotes j
  lemma IntegerPattern(b: word, k: nat, j: nat)
    requires 1 <= k <= 52 && HIDDEN <= Scale(j, k) <= 2 * HIDDEN
    ensures var r := Sign(b) * SIGN_BIT + (ULP - k) * HIDDEN + Scale(j, k);
            r < W && DenotesInteger(b, j, r)
  {
    hide Scale, Sign;
    FieldsOf(b);
    MagnitudeOfSum(Sign(b), ULP - k, Scale(j, k));
    ScaleTwice(j, k, ULP - k);
  }

  // adding a to the pattern and clearing its k fraction bits
  lemma AddAndClear(b: word, k: nat, a: nat)
    requires 1 <= k <= 52 && BiasedExp(b) == 1075 - k && 2 * a <= Scale(1, k)
    ensures b + a < W && 0 < Scale(1, k) <= W
    ensures var j := Shifted(HIDDEN + Frac(b) + a, k);
            && HIDDEN <= Scale(j, k) <= 2 * HIDDEN
            && AndNot(b + a, Scale(1, k) - 1) == Sign(b) * SIGN_BIT + (ULP - k) * HIDDEN + Scale(j, k)
  {
    hide Scale, Shifted, LowBits, AndNot, Sign, BiasedExp, Frac;
    ScaleValues();
    ScaleGrows(1, k, 52);
    FieldsOf(b);
    ClearLow(b + a, k);
    var g := HIDDEN + Frac(b);
    var j := Shifted(g + a, k);
    Division(g + a, k);
    ScaleTwice(1, 52 - k, k);
    var h := Sign(b) * 2048 + (ULP - k);
    MultipleOfHidden(h, k);
    ScaleLinear(Scale(h, 52 - k), j, k);
    DivisionUnique(b + a, k, Scale(h, 52 - k) + j, LowBits(g + a, k));
    JInRange(g + a, j, k);
  }

  lemma MultipleOfHidden(h: nat, k: nat)
    requires k <= 52
    ensures Scale(Scale(h, 52 - k), k) == h * HIDDEN
  {
    hide Scale;
    ScaleValues();
    ScaleTwice(h, 52 - k, k);
    ScaleFactor(h, 1, 52);
  }

  lemma JInRange(u: nat, j: nat, k: nat)
    requires k <= 52 && HIDDEN <= u <= 2 * HIDDEN - 1 + HIDDEN && Scale(j, k) <= u < Scale(j, k) + Scale(1, k)
    requires u - Scale(1, k) < 2 * HIDDEN
    ensures HIDDEN <= Scale(j, k) <= 2 * HIDDEN
  {
    hide Scale;
    ScaleValues();
    ScaleTwice(1, 52 - k, k);
    var h := Scale(1, 52 - k);
    ScaleFactor(2, h, k);
    ScaleLinear(j, 1, k);
    ScaleLinear(2 * h, 1, k);
    ScaleOrder(h, j + 1, k);
    ScaleOrder(j, h, k);
    ScaleOrder(j, 2 * h + 1, k);
    ScaleOrder(2 * h, j, k);
  }

  // ----- the three operations

  // what Shifted makes of a significand plus up to half a unit
  lemma RoundedQuotient(g: nat, k: nat, a: nat)
    requires 2 * a <= Scale(1, k)
    ensures Shifted(g + a, k) == if LowBits(g, k) + a >= Scale(1, k) then Shifted(g, k) + 1 else Shifted(g, k)
  {
    hide Scale, Shifted, LowBits;
    Division(g, k);
    var q, r := Shifted(g, k), LowBits(g, k);
    ScaleLinear(q, 1, k);
    if r + a >= Scale(1, k) {
      DivisionUnique(g + a, k, q + 1, r + a - Scale(1, k));
    } else {
      DivisionUnique(g + a, k, q, r + a);
    }
  }

  // comparing the fraction with a half
  lemma HalfCompare(r: int, k: nat)
    requires 1 <= k <= 52
    ensures 2 * Scale(r, ULP - k) >= Scale(Scale(1, k), ULP - k) <==> 2 * r >= Scale(1, k)
    ensures 2 * Scale(r, ULP - k) == Scale(Scale(1, k), ULP - k) <==> 2 * r == Scale(1, k)
    ensures Scale(1, k) == 2 * Scale(1, k - 1) && Scale(1, k - 1) >= 1
  {
    ScalePositive(1, k - 1);
    assert Scale(1, k) == 2 * Scale(1, k - 1);
    hide Scale;
    ScaleFactor(2, r, ULP - k);
    ScaleOrder(2 * r, Scale(1, k), ULP - k);
  }

  // the shifted constants of the source
  lemma ShiftedConstants(k: nat)
    requires 1 <= k <= 52
    ensures Shr(HALF, 52 - k) == Scale(1, k - 1)
    ensures Shr(HALF - 1, 52 - k) == Scale(1, k - 1) - 1
    ensures Shr(FRAC_MASK, 52 - k) == Scale(1, k) - 1
    ensures Shl(1, k) == Scale(1, k)
  {
    hide Scale, Shifted, LowBits;
    ScaleValues();
    HalfIsPower();
    ScaleTwice(1, k - 1, 52 - k);
    ScaleTwice(1, k, 52 - k);
    ScalePositive(1, 52 - k);
    ScaleGrows(1, k, 52);
    ScalePositive(1, k);
    DivisionUnique(HALF, 52 - k, Scale(1, k - 1), 0);
    ScaleLinear(Scale(1, k - 1), 1, 52 - k);
    ScaleLinear(Scale(1, k), 1, 52 - k);
    DivisionUnique(HALF - 1, 52 - k, Scale(1, k - 1) - 1, Scale(1, 52 - k) - 1);
    DivisionUnique(FRAC_MASK, 52 - k, Scale(1, k) - 1, Scale(1, 52 - k) - 1);
  }

  lemma HalfIsPower()
    ensures Scale(1, 51) == HALF
  {
    assert Scale(1, 52) == 2 * Scale(1, 51);
    hide Scale;
    ScaleValues();
  }

  // a pattern with no fraction bits denotes an integer already
  lemma NoFraction(b: word)
    requires IsFinite(b) && BiasedExp(b) >= 1075
    ensures Part(Magnitude(b)) == 0 && DenotesInteger(b, Whole(Magnitude(b)), b)
    ensures One() > 0
  {
    hide Scale, Shifted, LowBits, IsFinite, Sign;
    var g, e := HIDDEN + Frac(b), BiasedExp(b);
    ScaleTwice(g, e - 1075, ULP);
    ScalePositive(1, ULP);
    DivisionUnique(Magnitude(b), ULP, Scale(g, e - 1075), 0);
  }

  // magnitudes below one, compared with a half
  lemma BelowOne(b: word)
    requires BiasedExp(b) < BIAS
    ensures Whole(Magnitude(b)) == 0 && Part(Magnitude(b)) == Magnitude(b) && One() > 0
    ensures 2 * Magnitude(b) >= One() <==> BiasedExp(b) == BIAS - 1
    ensures 2 * Magnitude(b) == One() <==> BiasedExp(b) == BIAS - 1 && Frac(b) == 0
  {
    hide Scale, Shifted, LowBits, BiasedExp, Frac;
    FieldsOf(b);
    var e, g := BiasedExp(b), HIDDEN + Frac(b);
    ScaleValues();
    ScaleTwice(1, 52, 1022);
    HiddenDoubles(1022);
    ScalePositive(1, ULP);
    if e > 0 {
      ScaleFactor(2, g, e - 1);
      HiddenDoubles(e);
      ScaleOrder(g, 2 * HIDDEN, e - 1);
      if e == BIAS - 1 {
        ScaleOrder(g, HIDDEN, e - 1);
        ScaleFactor(2, HIDDEN, e - 1);
      } else {
        ScaleGrows(HIDDEN, e, 1021);
        HiddenDoubles(1022);
        ScaleFactor(2, HIDDEN, 1021);
      }
    } else {
      ScaleGrows(HIDDEN, 0, 1021);
      ScaleByOne(HIDDEN);
      ScaleFactor(2, HIDDEN, 1021);
    }
    ShiftedSmall(Magnitude(b), ULP);
  }

  // the patterns of 0 and 1 with a given sign
  lemma ZeroAndOne(b: word)
    ensures var z := Sign(b) * SIGN_BIT; z < W && DenotesInteger(b, 0, z)
    ensures var r := Sign(b) * SIGN_BIT + ONE_BITS; r < W && DenotesInteger(b, 1, r)
  {
    hide Scale, Sign, BiasedExp, Frac;
    FieldsOf(b);
    Fields(Sign(b), 0, 0);
    Fields(Sign(b), BIAS, 0);
    ScaleLinear(0, 0, ULP);
    ScaleValues();
    ScaleTwice(1, 52, 1022);
  }

  /** Round equals its slow form on every pattern: ties away from zero, sign of
      zero kept, infinities and NaNs unchanged. */
  lemma RoundIsSlowRound(b: word)
    ensures !IsFinite(b) ==> Round(b) == b
    ensures IsFinite(b) ==> DenotesInteger(b, SlowRound(Magnitude(b)), Round(b))
  {
    hide Scale, Shifted, LowBits, And64, Or64, AndNot, Magnitude, BiasedExp, Sign, Frac, ExpField, Shr, One, Whole,
         Part, DenotesInteger;
    FieldBits(b);
    var e := BiasedExp(b);
    if e < BIAS {
      BelowOne(b);
      ZeroAndOne(b);
    } else if e < 1075 {
      var k := 1075 - e;
      var g, a := HIDDEN + Frac(b), Scale(1, k - 1);
      FractionBits(b, k);
      ShiftedConstants(k);
      HalfCompare(LowBits(g, k), k);
      AddAndClear(b, k, a);
      RoundedQuotient(g, k, a);
      IntegerPattern(b, k, Shifted(g + a, k));
    } else if IsFinite(b) {
      NoFraction(b);
    }
  }

  // the bit that decides ties is the last bit of the integer part, also when
  // it is the exponent's low bit
  lemma ParityBit(b: word, k: nat)
    requires 1 <= k <= 52 && BiasedExp(b) == 1075 - k
    ensures And64(Shr(b, k), 1) == Shifted(HIDDEN + Frac(b), k) % 2
  {
    hide Scale, Shifted, LowBits, And, BiasedExp, Frac, Sign;
    AndOne(Shr(b, k));
    FieldsOf(b);
    var g := HIDDEN + Frac(b);
    Division(g, k);
    var h := Sign(b) * 2048 + (ULP - k);
    MultipleOfHidden(h, k);
    ScaleLinear(Scale(h, 52 - k), Shifted(g, k), k);
    DivisionUnique(b, k, Scale(h, 52 - k) + Shifted(g, k), LowBits(g, k));
    EvenAbove(h, 52 - k);
  }

  lemma EvenAbove(h: nat, n: nat)
    requires n > 0 || h % 2 == 0
    ensures Scale(h, n) % 2 == 0
  {
  }

  lemma UnchangedAbove(b: word, k: nat, odd: nat)
    requires k >= 52 && odd <= 1
    ensures AndNot((b + Shr((HALF - 1 + odd) % W, k)) % W, Shr(FRAC_MASK, k)) == b
  {
    hide Scale, Shifted, LowBits, And;
    ScaleValues();
    ScaleGrows(1, 52, k);
    ShiftedSmall(HALF - 1 + odd, k);
    ShiftedSmall(FRAC_MASK, k);
    AndAll(b);
  }

  /** RoundToEven equals its slow form on every pattern: ties to even, sign of
      zero kept, infinities and NaNs unchanged. */
  lemma RoundToEvenIsSlowRoundToEven(b: word)
    ensures !IsFinite(b) ==> RoundToEven(b) == b
    ensures IsFinite(b) ==> DenotesInteger(b, SlowRoundToEven(Magnitude(b)), RoundToEven(b))
  {
    hide Scale, Shifted, LowBits, And64, Or64, AndNot, Magnitude, BiasedExp, Sign, Frac, ExpField, Shr, One, Whole,
         Part, DenotesInteger;
    FieldBits(b);
    FieldsOf(b);
    var e := BiasedExp(b);
    if e < BIAS {
      BelowOne(b);
      ZeroAndOne(b);
    } else if e < 1075 {
      TiesToEven(b, 1075 - e);
    } else {
      BitIsSmall(Shr(b, USub(52, e - BIAS)));
      UnchangedAbove(b, e - BIAS, And64(Shr(b, USub(52, e - BIAS)), 1));
      if IsFinite(b) { NoFraction(b); }
    }
  }

  lemma BitIsSmall(x: word)
    ensures And64(x, 1) <= 1
  {
    AndOne(x);
  }

  lemma TiesToEven(b: word, k: nat)
    requires 1 <= k <= 52 && BiasedExp(b) == 1075 - k
    ensures DenotesInteger(b, SlowRoundToEven(Magnitude(b)), RoundToEven(b))
  {
    hide Scale, Shifted, LowBits, And64, Or64, AndNot, Magnitude, BiasedExp, Sign, Frac, ExpField, Shr, One, Whole,
         Part, DenotesInteger;
    FieldBits(b);
    ParityBit(b, k);
    ShiftedConstants(k);
    FractionBits(b, k);
    var g := HIDDEN + Frac(b);
    var odd := Shifted(g, k) % 2;
    var a := Scale(1, k - 1) - 1 + odd;
    HalfCompare(LowBits(g, k), k);
    AddAndClear(b, k, a);
    RoundedQuotient(g, k, a);
    IntegerPattern(b, k, Shifted(g + a, k));
  }

  /** Trunc keeps the integer part of every finite number, with its sign. */
  lemma TruncIsWhole(b: word)
    ensures !IsFinite(b) ==> Trunc(b) == b
    ensures IsFinite(b) ==> DenotesInteger(b, Whole(Magnitude(b)), Trunc(b))
  {
    hide Scale, Shifted, LowBits, And64, Or64, AndNot, Magnitude, BiasedExp, Sign, Frac, ExpField, Shr, Shl, One,
         Whole, Part, DenotesInteger;
    FieldBits(b);
    var e := BiasedExp(b);
    if e < BIAS {
      BelowOne(b);
      ZeroAndOne(b);
    } else if e < 1075 {
      var k := 1075 - e;
      var g := HIDDEN + Frac(b);
      ShiftedConstants(k);
      FractionBits(b, k);
      HalfCompare(0, k);
      AddAndClear(b, k, 0);
      IntegerPattern(b, k, Shifted(g, k));
    } else if IsFinite(b) {
      NoFraction(b);
    }
  }

  // q or q + 1, whichever is nearer to n, is nearest among all integers
  lemma NearestOfTwo(n: nat, j: nat)
    ensures var q, one := Whole(n), Scale(1, ULP);
            && Scale(q + 1, ULP) == Scale(q, ULP) + one && n == Scale(q, ULP) + Part(n) && Part(n) < one
            && (j < q ==> Scale(j, ULP) <= Scale(q, ULP) - one)
            && (j > q + 1 ==> Scale(j, ULP) >= Scale(q, ULP) + one + one)
  {
    hide Scale, Shifted, LowBits;
    Division(n, ULP);
    var q := Whole(n);
    ScaleLinear(q, 1, ULP);
    ScaleLinear(j, 1, ULP);
    if j < q { ScaleOrder(q, j + 1, ULP); }
    if j > q + 1 { ScaleOrder(j - 1, q + 1, ULP); }
  }

  /** The slow forms deliver a nearest integer; between two equally near ones,
      SlowRound the larger and SlowRoundToEven the even one. */
  lemma SlowFormsAreNearest(n: nat, j: nat)
    ensures Abs(n - Scale(SlowRound(n), ULP)) <= Abs(n - Scale(j, ULP))
    ensures Abs(n - Scale(SlowRound(n), ULP)) == Abs(n - Scale(j, ULP)) ==> j <= SlowRound(n)
    ensures Abs(n - Scale(SlowRoundToEven(n), ULP)) <= Abs(n - Scale(j, ULP))
    ensures Abs(n - Scale(SlowRoundToEven(n), ULP)) == Abs(n - Scale(j, ULP)) && j != SlowRoundToEven(n)
            ==> SlowRoundToEven(n) % 2 == 0
  {
    NearestOfTwo(n, j);
    hide Scale, Whole, Part;
  }
}
