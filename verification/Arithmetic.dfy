/** Division and remainder. */
module Arithmetic {

  /** Quotient and remainder are unique. */
  lemma Euclid(x: int, q: int, r: int, d: int)
    requires 0 <= r < d && x == q * d + r
    ensures x / d == q && x % d == r
  {
    Smallest(q - x / d, d, x % d - r) by {
      assert (q - x / d) * d == q * d - x / d * d;
    }
  }

  /** A multiple of d that lies strictly between -d and d is zero. */
  lemma Smallest(k: int, d: int, y: int)
    requires k * d == y && -d < y < d
    ensures k == 0
  {
    assert k >= 1 ==> k * d >= d;
    assert k <= -1 ==> k * d <= -d;
  }

  lemma SumOfMultiples(a: int, b: int, d: int)
    requires d > 0 && a % d == 0 && b % d == 0
    ensures (a + b) % d == 0
  {
    assert (a / d + b / d) * d == a / d * d + b / d * d;
    Euclid(a + b, a / d + b / d, 0, d);
  }

  function Pow2(k: nat): (p: nat)
    ensures p >= 1
  {
    if k == 0 then 1 else 2 * Pow2(k - 1)
  }
}
