/** Bits: of a bitmap byte, where frame 8c+i is bit i of byte c, counted from the high end, and of a number. */
module Bits {
  import opened Arithmetic

  /** The mask of bit i: the high bit shifted right by i. */
  function Mask(i: nat): bv8
    requires i < 8
  {
    if i == 0 then 0x80 else if i == 1 then 0x40 else if i == 2 then 0x20 else if i == 3 then 0x10
    else if i == 4 then 0x08 else if i == 5 then 0x04 else if i == 6 then 0x02 else 0x01
  }

  lemma MaskIsShift(i: nat)
    requires i < 8
    ensures Mask(i) == 0x80 >> i
  {
  }

  predicate Has(b: bv8, i: nat)
    requires i < 8
  {
    b & Mask(i) != 0
  }

  const HIGH_BIT: bv8 := 0x80

  /** The test of bit i as the code makes it. */
  predicate Tests(b: bv8, i: nat): (r: bool)
    requires i < 8
    ensures r == Has(b, i)
  {
    MaskIsShift(i);
    b & (HIGH_BIT >> i) > 0
  }

  lemma SetBit(b: bv8, i: nat, j: nat)
    requires i < 8 && j < 8
    ensures Has(b | Mask(i), j) <==> i == j || Has(b, j)
  {
  }

  lemma ClearBit(b: bv8, i: nat, j: nat)
    requires i < 8 && j < 8
    ensures Has(b & !Mask(i), j) <==> i != j && Has(b, j)
  {
  }

  lemma FlipBits(b: bv8, j: nat)
    requires j < 8
    ensures Has(b ^ 0xFF, j) <==> !Has(b, j)
  {
  }

  /** A byte is non-zero exactly when one of its eight bits is set. */
  lemma NonZero(b: bv8)
    ensures b != 0 <==> exists j: nat :: j < 8 && Has(b, j)
  {
    if b != 0 {
      assert Has(b, 0) || Has(b, 1) || Has(b, 2) || Has(b, 3) || Has(b, 4) || Has(b, 5) || Has(b, 6) || Has(b, 7);
    }
  }

  /** A byte is the only one with its bits. */
  lemma SameBits(b: bv8, d: bv8)
    requires forall i: nat :: i < 8 ==> (Has(b, i) <==> Has(d, i))
    ensures b == d
  {
    assert Has(b, 0) == Has(d, 0) && Has(b, 1) == Has(d, 1) && Has(b, 2) == Has(d, 2) && Has(b, 3) == Has(d, 3);
    assert Has(b, 4) == Has(d, 4) && Has(b, 5) == Has(d, 5) && Has(b, 6) == Has(d, 6) && Has(b, 7) == Has(d, 7);
  }

  /** The mask test agrees with the shift test. */
  lemma ShiftTest(b: bv8, j: nat)
    requires j < 8
    ensures (b >> (7 - j)) & 1 == 1 <==> Has(b, j)
  {
  }

  // ----- Numbers, bit by bit -----

  function And(a: nat, b: nat): nat {
    if a == 0 || b == 0 then 0
    else 2 * And(a / 2, b / 2) + if a % 2 == 1 && b % 2 == 1 then 1 else 0
  }

  function Or(a: nat, b: nat): nat {
    if a == 0 then b
    else if b == 0 then a
    else 2 * Or(a / 2, b / 2) + if a % 2 == 1 || b % 2 == 1 then 1 else 0
  }

  lemma AndStep(a: nat, x: nat, b: nat, y: nat)
    requires x < 2 && y < 2
    ensures And(2 * a + x, 2 * b + y) == 2 * And(a, b) + if x == 1 && y == 1 then 1 else 0
  {
    assert (2 * a + x) / 2 == a && (2 * a + x) % 2 == x;
    assert (2 * b + y) / 2 == b && (2 * b + y) % 2 == y;
  }

  lemma OrStep(a: nat, x: nat, b: nat, y: nat)
    requires x < 2 && y < 2
    ensures Or(2 * a + x, 2 * b + y) == 2 * Or(a, b) + if x == 1 || y == 1 then 1 else 0
  {
    assert (2 * a + x) / 2 == a && (2 * a + x) % 2 == x;
    assert (2 * b + y) / 2 == b && (2 * b + y) % 2 == y;
  }

  /** a shifted left by k. */
  function Shl(a: nat, k: nat): nat {
    if k == 0 then a else 2 * Shl(a, k - 1)
  }

  lemma {:induction false} ShlIsProduct(a: nat, k: nat, p: nat)
    requires p == Pow2(k)
    ensures Shl(a, k) == a * p
    decreases k
  {
    if k > 0 {
      ShlIsProduct(a, k - 1, Pow2(k - 1));
      assert a * p == 2 * (a * Pow2(k - 1));
    }
  }

  /** Bits that do not meet are added. */
  lemma {:induction false} OrIsSum(q: nat, b: nat, k: nat)
    requires b < Pow2(k)
    ensures Or(Shl(q, k), b) == Shl(q, k) + b
    decreases k
  {
    if k > 0 {
      OrIsSum(q, b / 2, k - 1);
      OrStep(Shl(q, k - 1), 0, b / 2, b % 2);
    }
  }

  /** A mask of n ones keeps the low n bits. */
  lemma {:induction false} LowMask(h: nat, m: nat, n: nat)
    requires m < Pow2(n)
    ensures And(Shl(h, n) + m, Pow2(n) - 1) == m
    decreases n
  {
    if n > 0 {
      LowMask(h, m / 2, n - 1);
      AndStep(Shl(h, n - 1) + m / 2, m % 2, Pow2(n - 1) - 1, 1);
    }
  }

  /** The bits below a shifted mask do not count. */
  lemma {:induction false} ShiftedMask(a: nat, l: nat, b: nat, k: nat)
    requires l < Pow2(k)
    ensures And(Shl(a, k) + l, Shl(b, k)) == Shl(And(a, b), k)
    decreases k
  {
    if k > 0 {
      ShiftedMask(a, l / 2, b, k - 1);
      AndStep(Shl(a, k - 1) + l / 2, l % 2, Shl(b, k - 1), 0);
    }
  }

  // The same with the power of two given as a number.

  lemma OrOf(v: nat, b: nat, q: nat, k: nat, p: nat)
    requires p == Pow2(k) && b < p && v == q * p
    ensures Or(v, b) == v + b
  {
    ShlIsProduct(q, k, p);
    OrIsSum(q, b, k);
  }

  lemma AndLow(v: nat, mask: nat, h: nat, m: nat, n: nat, p: nat)
    requires p == Pow2(n) && m < p && v == h * p + m && mask == p - 1
    ensures And(v, mask) == m
  {
    ShlIsProduct(h, n, p);
    LowMask(h, m, n);
  }

  lemma AndShifted(v: nat, mask: nat, a: nat, l: nat, b: nat, k: nat, p: nat)
    requires p == Pow2(k) && l < p && v == a * p + l && mask == b * p
    ensures And(v, mask) == And(a, b) * p
  {
    ShlIsProduct(a, k, p);
    ShlIsProduct(b, k, p);
    ShlIsProduct(And(a, b), k, p);
    ShiftedMask(a, l, b, k);
  }

  lemma Pow2Values()
    ensures Pow2(10) == 0x400 && Pow2(12) == 0x1000 && Pow2(20) == 0x10_0000 && Pow2(22) == 0x40_0000
  {
    assert Pow2(5) == 32;
    assert Pow2(10) == 0x400;
    assert Pow2(12) == 0x1000;
    assert Pow2(20) == 0x10_0000;
  }
}
