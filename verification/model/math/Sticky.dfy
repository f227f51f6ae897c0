/**
 Shifts that keep a sticky bit. A value so shifted is the exact quotient
 rounded to odd; rounding to odd survives further sticky shifts and never
 changes a later rounding to nearest.
 */
module Sticky {
  import opened Words
  import opened Float64

  // u >> n with the lowest bit set if any bit was shifted out
  function StickyShift(u: nat, n: nat): nat {
    Jam(Shifted(u, n), LowBits(u, n))
  }

  function Jam(q: nat, r: nat): nat {
    if r == 0 then q else q - q % 2 + 1
  }

  // m is num * 2^-k, or the odd one of the two integers around it
  predicate RoundedToOdd(m: nat, num: int, k: nat) {
    Scale(m, k) == num || (m % 2 == 1 && Scale(m - 1, k) < num < Scale(m + 1, k))
  }

  // what lies strictly between neighbours is rounded to the odd one
  lemma BetweenNeighbours(q: nat, num: int, k: nat)
    requires Scale(q, k) < num < Scale(q + 1, k)
    ensures RoundedToOdd(Jam(q, 1), num, k)
  {
    hide Scale;
    var m := Jam(q, 1);
    ScaleOrder(q, m - 1, k);
    ScaleOrder(m + 1, q + 1, k);
  }

  lemma StickyShiftRounds(u: nat, n: nat)
    ensures RoundedToOdd(StickyShift(u, n), u, n)
  {
    hide Scale, Shifted, LowBits, RoundedToOdd;
    Division(u, n);
    var q := Shifted(u, n);
    if LowBits(u, n) == 0 {
      ExactIsRounded(q, u, n);
    } else {
      ScaleLinear(q, 1, n);
      BetweenNeighbours(q, u, n);
    }
  }

  lemma ExactIsRounded(m: nat, num: int, k: nat)
    requires Scale(m, k) == num
    ensures RoundedToOdd(m, num, k)
  {
  }

  /** Rounding to odd composes with a further sticky shift. */
  lemma StickyShiftComposes(m: nat, num: int, k: nat, n: nat)
    requires RoundedToOdd(m, num, k)
    ensures RoundedToOdd(StickyShift(m, n), num, k + n)
  {
    hide Scale, Shifted, LowBits;
    Division(m, n);
    var q, r := Shifted(m, n), LowBits(m, n);
    ScaleTwice(q, n, k);
    ScaleTwice(q + 1, n, k);
    if r == 0 {
      if n == 0 { ScaleByOne(q); } else { ScaleEven(q, n); }
    } else {
      ScaleLinear(q, 1, n);
      if Scale(m, k) == num {
        ScaleOrder(Scale(q, n), m, k);
        ScaleOrder(m, Scale(q + 1, n), k);
      } else {
        ScaleOrder(m - 1, Scale(q, n), k);
        ScaleOrder(Scale(q + 1, n), m + 1, k);
      }
      BetweenNeighbours(q, num, k + n);
    }
  }

  lemma ScaleEven(q: int, n: nat)
    requires n > 0
    ensures Scale(q, n) % 2 == 0
  {
  }

  // both sides of the quotient may be scaled
  lemma RoundedToOddScale(m: nat, num: int, k: nat, c: nat)
    ensures RoundedToOdd(m, num, k) <==> RoundedToOdd(m, Scale(num, c), k + c)
  {
    hide Scale;
    ScaleTwice(m, k, c);
    ScaleTwice(m - 1, k, c);
    ScaleTwice(m + 1, k, c);
    ScaleOrder(Scale(m, k), num, c);
    ScaleOrder(Scale(m - 1, k), num, c);
    ScaleOrder(num, Scale(m + 1, k), c);
  }

  // an even base plus or minus a value rounded to odd is again rounded to odd
  lemma EvenPlusMinus(base: nat, m: nat, num: int, k: nat)
    requires base % 2 == 0 && m <= base && RoundedToOdd(m, num, k)
    ensures RoundedToOdd(base + m, Scale(base, k) + num, k)
    ensures RoundedToOdd(base - m, Scale(base, k) - num, k)
  {
    hide Scale;
    ScaleLinear(base, m, k);
    ScaleLinear(base, m - 1, k);
    ScaleLinear(base, m + 1, k);
  }

  // shifting left first only shortens the sticky shift
  lemma StickyShiftOfMultiple(u: nat, a: nat, n: nat)
    requires a <= n
    ensures Scale(u, a) >= 0 && StickyShift(Scale(u, a), n) == StickyShift(u, n - a)
  {
    hide Scale, Shifted, LowBits;
    ScalePositive(u, a);
    Division(u, n - a);
    var q, r := Shifted(u, n - a), LowBits(u, n - a);
    ScaleLinear(Scale(q, n - a), r, a);
    ScaleTwice(q, n - a, a);
    ScaleTwice(1, n - a, a);
    ScaleOrder(r, Scale(1, n - a), a);
    ScalePositive(r, a);
    DivisionUnique(Scale(u, a), n, q, Scale(r, a));
  }

  // m/1024 to the nearest integer, ties to even
  function RoundTen(m: nat): nat {
    var j := (m + 512) / 1024;
    if m % 1024 == 512 then j - j % 2 else j
  }

  /** Ten extra bits are enough: rounding the odd-rounded value to the nearest
      multiple of 1024, ties to even, rounds the exact quotient. */
  lemma TenExtraBits(m: nat, num: int, k: nat)
    requires RoundedToOdd(m, num, k) && num >= 0
    ensures NearestEven(num, k + 10, RoundTen(m))
  {
    hide Scale;
    var j := RoundTen(m);
    var t: int := 1024 * j;
    ScaleTwice(j, 10, k);
    ScaleByValue(j);
    ScaleTwice(1, 10, k);
    ScaleByValue(1);
    ScaleFactor(1024, 1, k);
    ScaleFactor(512, 1, k);
    ScaleLinear(t, 512, k);
    if Scale(m, k) == num {
      ScaleOrder(m, t - 512, k);
      ScaleOrder(t + 512, m, k);
    } else {
      ScaleOrder(m - 1, t - 512, k);
      ScaleOrder(t + 512, m + 1, k);
    }
  }
}
