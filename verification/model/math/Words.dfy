/**
 Machine words as natural numbers: the 64-bit operators that the soft-float
 code is written with, and the arithmetic each of them stands for. Scaling by
 a power of two is a function of its own, so that no proof has to multiply
 two unknowns.
 */
module Words {

  // x * 2^n
  function Scale(x: int, n: nat): int
    decreases n
  {
    if n == 0 then x else 2 * Scale(x, n - 1)
  }

  // x / 2^n, rounded down
  function Shifted(x: nat, n: nat): nat
    decreases n
  {
    if n == 0 then x else Shifted(x / 2, n - 1)
  }

  // x mod 2^n
  function LowBits(x: nat, n: nat): nat
    decreases n
  {
    if n == 0 then 0 else 2 * LowBits(x / 2, n - 1) + x % 2
  }

  const W: nat := 0x1_0000_0000_0000_0000

  type word = x: nat | x < W

  // ----- bitwise operators on naturals

  function Or(x: nat, y: nat): nat {
    if x == 0 && y == 0 then 0
    else 2 * Or(x / 2, y / 2) + (if x % 2 == 1 || y % 2 == 1 then 1 else 0)
  }

  function And(x: nat, y: nat): nat {
    if x == 0 || y == 0 then 0
    else 2 * And(x / 2, y / 2) + (if x % 2 == 1 && y % 2 == 1 then 1 else 0)
  }

  // number of bits needed to represent x
  function Len(x: nat): nat {
    if x == 0 then 0 else 1 + Len(x / 2)
  }

  // ----- 64-bit operators; a shift by 64 or more gives 0, as in Go

  function Or64(x: word, y: word): word {
    ScaleValues(); OrBound(x, y, 64); Or(x, y)
  }

  function And64(x: word, y: word): word {
    AndBound(x, y); And(x, y)
  }

  function Shl(x: word, n: nat): word {
    if n >= 64 then 0 else Scale(x, n) % W
  }

  function Shr(x: word, n: nat): word {
    if n >= 64 then 0 else ShiftedBound(x, n); Shifted(x, n)
  }

  function Not(x: word): word {
    W - 1 - x
  }

  // unsigned subtraction, which wraps around
  function USub(a: word, b: word): word {
    (a - b) % W
  }

  function Add64(x: word, y: word, carry: nat): (r: (word, nat))
    requires carry <= 1
    ensures r.1 <= 1
  {
    if x + y + carry >= W then (x + y + carry - W, 1) else (x + y + carry, 0)
  }

  function Sub64(x: word, y: word, borrow: nat): (r: (word, nat))
    requires borrow <= 1
    ensures r.1 <= 1
  {
    if x < y + borrow then (x + W - y - borrow, 1) else (x - y - borrow, 0)
  }

  function Mul64(x: word, y: word): (word, word) {
    MulBound(x, y);
    (x * y / W, x * y % W)
  }

  function LeadingZeros64(x: word): (r: nat)
    ensures r <= 64
  {
    ScaleValues(); LenBound(x, 64); 64 - Len(x)
  }

  lemma MulBound(x: word, y: word)
    ensures 0 <= x * y / W < W
  {
    MulLeq(x, W - 1, y);
  }

  lemma MulLeq(a: int, b: int, c: nat)
    requires a <= b
    ensures a * c <= b * c
  {
  }

  // ----- scaling

  lemma {:induction false} ScaleLinear(x: int, y: int, n: nat)
    ensures Scale(x + y, n) == Scale(x, n) + Scale(y, n)
    ensures Scale(x - y, n) == Scale(x, n) - Scale(y, n)
    ensures Scale(0, n) == 0
  {
    if n > 0 { ScaleLinear(x, y, n - 1); }
  }

  lemma {:induction false} ScaleTwice(x: int, i: nat, j: nat)
    ensures Scale(Scale(x, i), j) == Scale(x, i + j)
  {
    if j > 0 { ScaleTwice(x, i, j - 1); }
  }

  lemma {:induction false} ScaleOrder(x: int, y: int, n: nat)
    ensures x < y <==> Scale(x, n) < Scale(y, n)
    ensures x == y <==> Scale(x, n) == Scale(y, n)
  {
    if n > 0 { ScaleOrder(x, y, n - 1); }
  }

  lemma ScalePositive(x: int, n: nat)
    ensures x > 0 <==> Scale(x, n) > 0
    ensures x >= 0 <==> Scale(x, n) >= 0
  {
    ScaleOrder(0, x, n);
    ScaleLinear(0, 0, n);
  }

  lemma {:induction false} ScaleGrows(x: nat, i: nat, j: nat)
    requires i <= j
    ensures Scale(x, i) <= Scale(x, j)
  {
    ScalePositive(x, i);
    if i < j {
      ScaleGrows(x, i, j - 1);
      ScalePositive(x, j - 1);
    }
  }

  // a constant factor passes through
  lemma {:induction false} ScaleFactor(c: int, x: int, n: nat)
    ensures Scale(c * x, n) == c * Scale(x, n)
  {
    if n > 0 {
      ScaleFactor(c, x, n - 1);
      assert c * (2 * Scale(x, n - 1)) == 2 * (c * Scale(x, n - 1));
    }
  }

  lemma ScaleValues()
    ensures Scale(1, 9) == 512 && Scale(1, 10) == 1024 && Scale(1, 11) == 2048
    ensures Scale(1, 52) == 0x10_0000_0000_0000 && Scale(1, 53) == 0x20_0000_0000_0000
    ensures Scale(1, 62) == 0x4000_0000_0000_0000 && Scale(1, 63) == 0x8000_0000_0000_0000
    ensures Scale(1, 64) == W
  {
    assert Scale(1, 4) == 16;
    ScaleTwice(1, 4, 4);
    assert Scale(16, 4) == 256;
    assert Scale(1, 9) == 2 * Scale(1, 8) && Scale(1, 10) == 2 * Scale(1, 9);
    Doubling(1, 8, 256);
    Doubling(1, 16, 0x1_0000);
    ScaleTwice(1, 32, 16);
    ScaleFactor(0x1_0000_0000, 1, 16);
    ScaleTwice(1, 48, 4);
    ScaleFactor(0x1_0000_0000_0000, 1, 4);
    ScaleTwice(1, 52, 10);
    ScaleFactor(0x10_0000_0000_0000, 1, 10);
    assert Scale(1, 53) == 2 * Scale(1, 52) && Scale(1, 63) == 2 * Scale(1, 62) && Scale(1, 64) == 2 * Scale(1, 63);
  }

  lemma Doubling(x: int, n: nat, v: int)
    requires Scale(x, n) == v && x == 1
    ensures Scale(x, n + n) == v * v
  {
    ScaleTwice(x, n, n);
    ScaleFactor(v, 1, n);
  }

  lemma ScaleByValue(x: int)
    ensures Scale(x, 10) == 1024 * x && Scale(x, 11) == 2048 * x && Scale(x, 64) == W * x
  {
    ScaleValues();
    ScaleFactor(x, 1, 10);
    ScaleFactor(x, 1, 11);
    ScaleFactor(x, 1, 64);
  }

  // ----- quotient and remainder by a power of two

  lemma {:induction false} Division(x: nat, n: nat)
    ensures x == Scale(Shifted(x, n), n) + LowBits(x, n)
    ensures 0 <= LowBits(x, n) < Scale(1, n)
    decreases n
  {
    if n > 0 { Division(x / 2, n - 1); }
  }

  lemma DivisionUnique(x: nat, n: nat, q: int, r: int)
    requires x == Scale(q, n) + r && 0 <= r < Scale(1, n)
    ensures Shifted(x, n) == q && LowBits(x, n) == r
  {
    Division(x, n);
    var k := q - Shifted(x, n);
    ScaleLinear(q, Shifted(x, n), n);
    ScaleOrder(k, 1, n);
    ScaleOrder(-1, k, n);
    ScaleLinear(0, 1, n);
  }

  lemma ShiftedBelow(x: nat, n: nat, b: int)
    requires x < Scale(b, n)
    ensures Shifted(x, n) < b
  {
    Division(x, n);
    ScaleOrder(Shifted(x, n), b, n);
  }

  lemma ShiftedBound(x: word, n: nat)
    ensures Shifted(x, n) < W
  {
    ScaleGrows(W, 0, n);
    ShiftedBelow(x, n, W);
  }

  lemma ShiftedSmall(x: nat, n: nat)
    requires x < Scale(1, n)
    ensures Shifted(x, n) == 0 && LowBits(x, n) == x
  {
    ScaleLinear(0, 0, n);
    DivisionUnique(x, n, 0, x);
  }

  lemma ByDivision(x: nat, n: nat, d: nat)
    requires d > 0 && Scale(1, n) == d
    ensures Shifted(x, n) == x / d && LowBits(x, n) == x % d
  {
    hide Scale, Shifted, LowBits;
    ScaleFactor(x / d, 1, n);
    DivisionUnique(x, n, x / d, x % d);
  }

  // ----- lengths

  lemma {:induction false} LenBound(x: nat, n: nat)
    requires x < Scale(1, n)
    ensures Len(x) <= n
  {
    if x > 0 { LenBound(x / 2, n - 1); }
  }

  lemma {:induction false} LenRange(x: nat)
    requires x > 0
    ensures Len(x) > 0 && Scale(1, Len(x) - 1) <= x < Scale(1, Len(x))
  {
    if x > 1 { LenRange(x / 2); }
  }

  // ----- facts about the bitwise operators

  lemma {:induction false} OrZero(x: nat)
    ensures Or(x, 0) == x && Or(0, x) == x
  {
    if x > 0 { OrZero(x / 2); }
  }

  lemma {:induction false} OrBound(x: nat, y: nat, k: nat)
    requires x < Scale(1, k) && y < Scale(1, k)
    ensures Or(x, y) < Scale(1, k)
    decreases k
  {
    if k > 0 && (x > 0 || y > 0) { OrBound(x / 2, y / 2, k - 1); }
  }

  lemma {:induction false} OrIsZero(x: nat, y: nat)
    ensures Or(x, y) == 0 <==> x == 0 && y == 0
  {
    if x > 0 || y > 0 { OrIsZero(x / 2, y / 2); }
  }

  lemma {:induction false} OrSelf(x: nat)
    ensures Or(x, x) == x
  {
    if x > 0 { OrSelf(x / 2); }
  }

  lemma OrOne(x: nat)
    ensures Or(x, 1) == x - x % 2 + 1
  {
    OrZero(x / 2);
  }

  lemma {:induction false} OrCommutes(x: nat, y: nat)
    ensures Or(x, y) == Or(y, x)
  {
    if x > 0 || y > 0 { OrCommutes(x / 2, y / 2); }
  }

  // an OR of values that share no bit is their sum
  lemma {:induction false} OrDisjoint(hi: nat, lo: nat, k: nat)
    requires lo < Scale(1, k)
    ensures Scale(hi, k) >= 0 && Or(Scale(hi, k), lo) == Scale(hi, k) + lo
    decreases k
  {
    ScalePositive(hi, k);
    if k == 0 {
      OrZero(hi);
    } else {
      OrDisjoint(hi, lo / 2, k - 1);
    }
  }

  lemma {:induction false} AndBound(x: nat, y: nat)
    ensures And(x, y) <= x
  {
    if x > 0 && y > 0 { AndBound(x / 2, y / 2); }
  }

  // AND with a mask of k ones keeps the low k bits
  lemma {:induction false} AndMask(x: nat, k: nat)
    ensures Scale(1, k) >= 1 && And(x, Scale(1, k) - 1) == LowBits(x, k)
    decreases k
  {
    ScalePositive(1, k);
    if x == 0 {
      ScaleLinear(0, 0, k);
      ShiftedSmall(0, k);
    } else if k > 0 {
      AndMask(x / 2, k - 1);
    }
  }

  lemma AndOne(x: nat)
    ensures And(x, 1) == x % 2
  {
  }

  lemma AndAll(x: word)
    ensures And(x, W - 1) == x
  {
    ScaleValues();
    AndMask(x, 64);
    ShiftedSmall(x, 64);
  }

  // AND with the complement of 1 clears the lowest bit
  lemma AndNotOne(x: word)
    ensures And(x, W - 2) == x - x % 2
  {
    ScaleValues();
    AndEven(x, W / 2 - 1);
    AndMask(x / 2, 63);
    ShiftedSmall(x / 2, 63);
  }

  lemma AndEven(x: nat, y: nat)
    ensures And(x, 2 * y) == 2 * And(x / 2, y)
  {
    if x > 0 && y > 0 {
      assert 2 * y / 2 == y && 2 * y % 2 == 0;
      assert x / 2 == 0 ==> And(x / 2, y) == 0;
    }
  }
}
