/**
 Binary64 numbers as 64-bit patterns (section 3.4 of IEEE 754-2019), their
 exact values as integers in units of 2^-1074, and the roundTiesToEven rule of
 section 4.3.1 stated over all binary64 numbers at once.
 */
module Float64 {
  import opened Common
  import opened Words

  const BIAS: nat := 1023
  const HIDDEN: nat := 0x10_0000_0000_0000        // 2^52, the implicit leading bit
  const SIGN_BIT: nat := 0x8000_0000_0000_0000    // 2^63
  const INF: nat := 0x7FF0_0000_0000_0000
  const TOP: nat := 2045                          // largest exponent field, not counting the leading bit
  const FRAC_MASK: word := 0xF_FFFF_FFFF_FFFF
  const ULP: nat := 1074            // one is 2^ULP units of Magnitude

  function Sign(b: word): nat { b / SIGN_BIT }

  function BiasedExp(b: word): nat { b / HIDDEN % 2048 }

  function Frac(b: word): nat { b % HIDDEN }

  predicate IsFinite(b: word) { BiasedExp(b) < 2047 }

  // |b| in units of 2^-1074; for the infinities, 2^1024 in the same unit
  function Magnitude(b: word): nat {
    if BiasedExp(b) == 0 then Frac(b)
    else ScalePositive(HIDDEN + Frac(b), BiasedExp(b) - 1); Scale(HIDDEN + Frac(b), BiasedExp(b) - 1)
  }

  function Value(b: word): int {
    if Sign(b) == 1 then 0 - Magnitude(b) else Magnitude(b)
  }

  // 2^1024 - 2^970 in units of 2^-1074 * 2^-k: from here on every exact
  // result rounds to an infinity
  function OverflowThreshold(k: nat): int { Scale(4 * HIDDEN - 1, TOP - 1 + k) }

  function Distance(num: int, k: nat, v: int): nat { Abs(num - Scale(v, k)) }

  /** r is the binary64 number that roundTiesToEven delivers for the nonzero
      exact result num * 2^-k (in units of 2^-1074). */
  ghost predicate RoundsTo(num: int, k: nat, r: word) {
    && Sign(r) == (if num < 0 then 1 else 0)
    && if Abs(num) >= OverflowThreshold(k) then
         r == Sign(r) * SIGN_BIT + INF
       else
         && IsFinite(r)
         && forall f: word | IsFinite(f) :: NoFarther(num, k, r, f)
  }

  // r is at least as near as f, and even if f is another number equally near
  predicate NoFarther(num: int, k: nat, r: word, f: word) {
    && Distance(num, k, Value(r)) <= Distance(num, k, Value(f))
    && (Distance(num, k, Value(r)) == Distance(num, k, Value(f)) && Value(f) != Value(r) ==> r % 2 == 0)
  }

  // ----- encodings

  // the fields of a pattern assembled from sign and magnitude bits
  lemma Fields(s: nat, e: nat, f: nat)
    requires s <= 1 && e < 2048 && f < HIDDEN
    ensures var b := s * SIGN_BIT + e * HIDDEN + f;
            b < W && Sign(b) == s && BiasedExp(b) == e && Frac(b) == f
  {
  }

  lemma FieldsOf(b: word)
    ensures Sign(b) <= 1 && BiasedExp(b) < 2048 && Frac(b) < HIDDEN
    ensures b == Sign(b) * SIGN_BIT + BiasedExp(b) * HIDDEN + Frac(b)
  {
  }

  // a significand with its leading bit in place, added on top of an exponent
  // field that does not count that bit; a carry out of the significand lands
  // in the exponent field and still denotes the same number
  lemma MagnitudeOfSum(s: nat, pe: nat, m: nat)
    requires s <= 1 && pe <= TOP && m <= 2 * HIDDEN && (pe > 0 ==> m >= HIDDEN)
    ensures var b := s * SIGN_BIT + pe * HIDDEN + m;
            && b < W && Sign(b) == s && Magnitude(b) == Scale(m, pe)
            && (IsFinite(b) <==> pe < TOP || m < 2 * HIDDEN)
            && b % 2 == m % 2
            && (!IsFinite(b) ==> b == s * SIGN_BIT + INF)
  {
    hide Sign, BiasedExp, Frac, Scale;
    var b := s * SIGN_BIT + pe * HIDDEN + m;
    assert b % 2 == m % 2;
    if m < HIDDEN {
      Fields(s, 0, m);
      ScaleByOne(m);
    } else if m < 2 * HIDDEN {
      Fields(s, pe + 1, m - HIDDEN);
      assert b == s * SIGN_BIT + (pe + 1) * HIDDEN + (m - HIDDEN);
    } else {
      Fields(s, pe + 2, 0);
      assert b == s * SIGN_BIT + (pe + 2) * HIDDEN + 0;
      HiddenDoubles(pe + 1);
    }
  }

  lemma HiddenDoubles(e: nat)
    requires e > 0
    ensures Scale(2 * HIDDEN, e - 1) == Scale(HIDDEN, e)
  {
    ScaleFactor(2, HIDDEN, e - 1);
  }

  lemma ScaleByOne(m: nat)
    ensures Scale(m, 0) == m
  {
  }

  // multiples of the spacing 2^pe, and what is smaller than all numbers with that spacing
  ghost predicate OnGrid(mag: nat, pe: nat) {
    (exists j: nat :: mag == Scale(j, pe)) || (pe > 0 && mag < Scale(HIDDEN, pe))
  }

  lemma AllOnGrid(f: word, pe: nat)
    ensures OnGrid(Magnitude(f), pe)
  {
    hide BiasedExp;
    var e, fr := BiasedExp(f), Frac(f);
    if e == 0 {
      ScaleGrows(HIDDEN, 0, pe);
      if pe == 0 { assert fr == Scale(fr, 0); }
    } else if e - 1 >= pe {
      ScaleTwice(HIDDEN + fr, e - 1 - pe, pe);
      ScalePositive(HIDDEN + fr, e - 1 - pe);
      var j: nat := Scale(HIDDEN + fr, e - 1 - pe);
      assert Magnitude(f) == Scale(j, pe);
    } else {
      ScaleOrder(HIDDEN + fr, 2 * HIDDEN, e - 1);
      ScaleTwice(HIDDEN, 1, e - 1);
      assert Scale(HIDDEN, 1) == 2 * HIDDEN;
      ScaleGrows(HIDDEN, e, pe);
    }
  }

  // ----- rounding to an integer significand is rounding over all numbers

  // m is num * 2^-k rounded to the nearest integer, ties to even
  predicate NearestEven(num: nat, k: nat, m: nat) {
    && 2 * Abs(Scale(m, k) - num) <= Scale(1, k)
    && (2 * Abs(Scale(m, k) - num) == Scale(1, k) ==> m % 2 == 0)
  }

  lemma NearestMultiple(num: nat, k: nat, m: nat, j: nat)
    requires NearestEven(num, k, m)
    ensures Abs(Scale(m, k) - num) <= Abs(Scale(j, k) - num)
    ensures Abs(Scale(m, k) - num) == Abs(Scale(j, k) - num) && j != m ==> m % 2 == 0
  {
    hide Scale;
    ScalePositive(1, k);
    if j > m {
      ScaleLinear(m, 1, k);
      ScaleOrder(j, m + 1, k);
    } else if j < m {
      ScaleLinear(j, 1, k);
      ScaleOrder(m, j + 1, k);
    }
  }

  // nothing on the grid is nearer than a nearest multiple of the spacing
  lemma NoCloserMagnitude(num: nat, k: nat, pe: nat, m: nat, mag: nat)
    requires NearestEven(num, pe + k, m) && OnGrid(mag, pe)
    requires pe > 0 ==> num >= Scale(HIDDEN, pe + k)
    ensures Abs(Scale(m, pe + k) - num) <= Abs(Scale(mag, k) - num)
    ensures Abs(Scale(m, pe + k) - num) == Abs(Scale(mag, k) - num) && mag != Scale(m, pe) ==> m % 2 == 0
  {
    hide Scale, NearestEven;
    if j: nat :| mag == Scale(j, pe) {
      ScaleTwice(j, pe, k);
      NearestMultiple(num, pe + k, m, j);
    } else {
      NearestMultiple(num, pe + k, m, HIDDEN);
      ScaleOrder(mag, Scale(HIDDEN, pe), k);
      ScaleTwice(HIDDEN, pe, k);
    }
  }

  // the same with signs: v is any number on the grid, rounded the chosen one
  lemma NoCloserValue(num: int, k: nat, pe: nat, m: nat, rounded: int, v: int)
    requires num != 0 && NearestEven(Abs(num), pe + k, m)
    requires pe > 0 ==> Abs(num) >= Scale(HIDDEN, pe + k)
    requires Abs(rounded) == Scale(m, pe) && (rounded == 0 || (rounded < 0 <==> num < 0))
    requires OnGrid(Abs(v), pe)
    ensures Distance(num, k, rounded) <= Distance(num, k, v)
    ensures Distance(num, k, rounded) == Distance(num, k, v) && v != rounded ==> m % 2 == 0
  {
    hide Scale, NearestEven, Distance, OnGrid;
    MirrorDistance(num, k, rounded);
    MirrorDistance(num, k, v);
    ScaleTwice(m, pe, k);
    if v == 0 || (v < 0 <==> num < 0) {
      NoCloserMagnitude(Abs(num), k, pe, m, Abs(v));
    } else {
      ZeroOnGrid(pe);
      NoCloserMagnitude(Abs(num), k, pe, m, 0);
      ScaleLinear(0, 0, k);
      ScalePositive(Abs(v), k);
    }
  }

  lemma ZeroOnGrid(pe: nat)
    ensures OnGrid(0, pe)
  {
    ScaleLinear(0, 0, pe);
    assert 0 == Scale(0, pe);
  }

  lemma MirrorDistance(num: int, k: nat, v: int)
    requires num != 0
    ensures v == 0 || (v < 0 <==> num < 0) ==> Distance(num, k, v) == Abs(Scale(Abs(v), k) - Abs(num))
    ensures !(v == 0 || (v < 0 <==> num < 0)) ==> Distance(num, k, v) == Abs(num) + Scale(Abs(v), k)
  {
    hide Scale;
    ScaleLinear(0, v, k);
    ScalePositive(Abs(v), k);
  }

  // a magnitude of 2^1024 - 2^970 or more is exactly what overflows
  lemma OverflowBoundary(num: nat, k: nat, pe: nat, m: nat)
    requires pe <= TOP && m <= 2 * HIDDEN && NearestEven(num, pe + k, m)
    ensures num >= OverflowThreshold(k) <==> pe == TOP && m == 2 * HIDDEN
  {
    hide Scale, NearestEven;
    if pe == TOP {
      AtTop(num, TOP - 1 + k, m);
    } else {
      BelowTop(num, pe + k, TOP - 1 + k, m);
    }
  }

  lemma AtTop(num: nat, n: nat, m: nat)
    requires m <= 2 * HIDDEN && NearestEven(num, n + 1, m)
    ensures num >= Scale(4 * HIDDEN - 1, n) <==> m == 2 * HIDDEN
  {
    assert Scale(m, n + 1) == 2 * Scale(m, n) && Scale(1, n + 1) == 2 * Scale(1, n);
    hide Scale;
    ScalePositive(1, n);
    ScaleFactor(2, 2 * HIDDEN, n);
    ScaleLinear(4 * HIDDEN, 1, n);
    ScaleLinear(m, 1, n);
    ScaleLinear(m + 1, 1, n);
    if m == 2 * HIDDEN - 1 {
      assert m % 2 == 1;
    } else if m < 2 * HIDDEN {
      ScaleOrder(2 * HIDDEN, m + 2, n);
    }
  }

  lemma BelowTop(num: nat, i: nat, n: nat, m: nat)
    requires i <= n && m <= 2 * HIDDEN && NearestEven(num, i, m)
    ensures num < Scale(4 * HIDDEN - 1, n)
  {
    hide Scale;
    ScaleOrder(2 * HIDDEN, m, i);
    ScaleGrows(2 * HIDDEN, i, n);
    ScaleGrows(1, i, n);
    ScalePositive(1, n);
    ScaleLinear(2 * HIDDEN, 1, n);
    ScaleOrder(2 * HIDDEN + 1, 4 * HIDDEN - 1, n);
  }

  /** Rounding the exact result to a nearest even significand at the spacing of
      its binade, and adding that significand onto the exponent field, is
      roundTiesToEven over all binary64 numbers. */
  lemma SignificandRounding(num: int, k: nat, pe: nat, m: nat, r: word)
    requires num != 0 && pe <= TOP && m <= 2 * HIDDEN
    requires NearestEven(Abs(num), pe + k, m)
    requires pe > 0 ==> m >= HIDDEN && Abs(num) >= Scale(HIDDEN, pe + k)
    requires r == (if num < 0 then 1 else 0) * SIGN_BIT + pe * HIDDEN + m
    ensures RoundsTo(num, k, r)
  {
    hide Scale, NearestEven, Magnitude, Sign, OnGrid, Distance, IsFinite;
    var s := if num < 0 then 1 else 0;
    MagnitudeOfSum(s, pe, m);
    OverflowBoundary(Abs(num), k, pe, m);
    if Abs(num) < OverflowThreshold(k) {
      forall f: word | IsFinite(f)
        ensures NoFarther(num, k, r, f)
      {
        FieldsOf(f);
        AllOnGrid(f, pe);
        NoCloserValue(num, k, pe, m, Value(r), Value(f));
      }
    }
  }

  // ----- roundTiesToEven delivers one result

  lemma MagnitudeIncreases(a: word, b: word)
    requires a < b && Sign(a) == Sign(b)
    ensures Magnitude(a) < Magnitude(b)
  {
    hide Sign, BiasedExp, Frac, Scale;
    FieldsOf(a);
    FieldsOf(b);
    var e, e' := BiasedExp(a), BiasedExp(b);
    if e == e' && e > 0 {
      ScaleOrder(HIDDEN + Frac(a), HIDDEN + Frac(b), e - 1);
    } else if e < e' {
      ScaleGrows(HIDDEN, e, e' - 1);
      ScaleOrder(HIDDEN + Frac(b), HIDDEN, e' - 1);
      if e > 0 {
        ScaleOrder(HIDDEN + Frac(a), 2 * HIDDEN, e - 1);
        HiddenDoubles(e);
      } else {
        ScaleGrows(HIDDEN, 0, e' - 1);
        ScaleByOne(HIDDEN);
      }
    }
  }

  lemma BetweenIsCloser(num: nat, k: nat, a: nat, c: nat, b: nat)
    requires a < c < b && Abs(Scale(a, k) - num) == Abs(Scale(b, k) - num)
    ensures Abs(Scale(c, k) - num) < Abs(Scale(a, k) - num)
  {
    hide Scale;
    ScaleOrder(a, c, k);
    ScaleOrder(c, b, k);
  }

  /** No exact result has two correct roundings. */
  lemma RoundsToUnique(num: int, k: nat, r: word, r': word)
    requires num != 0 && RoundsTo(num, k, r) && RoundsTo(num, k, r')
    ensures r == r'
  {
    hide RoundsTo;
    if r < r' {
      NotBothRoundings(num, k, r, r');
    } else if r' < r {
      NotBothRoundings(num, k, r', r);
    }
  }

  lemma NotBothRoundings(num: int, k: nat, r: word, r': word)
    requires num != 0 && r < r' && RoundsTo(num, k, r)
    ensures !RoundsTo(num, k, r')
  {
    hide Scale, Magnitude, Distance, IsFinite, OverflowThreshold, Sign;
    if RoundsTo(num, k, r') {
      MagnitudeIncreases(r, r');
      assert NoFarther(num, k, r, r') && NoFarther(num, k, r', r);
      var mid: word := r + 1;
      FiniteBetween(r, mid, r');
      assert NoFarther(num, k, r, mid);
      MagnitudeIncreases(r, mid);
      MagnitudeIncreases(mid, r');
      MirrorDistance(num, k, Value(r));
      MirrorDistance(num, k, Value(mid));
      MirrorDistance(num, k, Value(r'));
      BetweenIsCloser(Abs(num), k, Magnitude(r), Magnitude(mid), Magnitude(r'));
    }
  }

  lemma FiniteBetween(a: word, c: word, b: word)
    requires a <= c <= b && Sign(a) == Sign(b) && IsFinite(b)
    ensures Sign(c) == Sign(a) && IsFinite(c) && Sign(a) <= 1
  {
    FieldsOf(a);
    FieldsOf(b);
    FieldsOf(c);
  }
}
