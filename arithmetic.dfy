/**
  Facts about products of integers that the solver does not find on its own:
  signs and monotonicity of multiplication.
 */
module Arithmetic {

  lemma NonNegativeProduct(a: int, b: int)
    requires a >= 0 && b >= 0
    ensures a * b >= 0
  {
  }

  lemma NonPositiveProduct(a: int, b: int)
    requires a >= 0 && b <= 0
    ensures a * b <= 0
  {
  }

  /** A product with a positive factor is positive only if the other factor is. */
  lemma PositiveFactor(a: int, b: int)
    requires a > 0 && a * b > 0
    ensures b > 0
  {
  }

  /** Multiplying by a non-negative factor keeps the order. */
  lemma ScaleMonotonic(w: int, a: int, b: int)
    requires w >= 0 && a <= b
    ensures w * a <= w * b
  {
  }

  /** Adding w * s with w >= 0 and s in [lo, hi] to a sum bounded by
      total * lo and total * hi keeps it bounded by (total + w) * lo and
      (total + w) * hi. */
  lemma BoundsStep(sum: int, total: int, w: int, s: int, lo: int, hi: int)
    requires total * lo <= sum <= total * hi
    requires w >= 0 && lo <= s <= hi
    ensures (total + w) * lo <= sum + w * s <= (total + w) * hi
  {
    ScaleMonotonic(w, lo, s);
    ScaleMonotonic(w, s, hi);
    assert (total + w) * lo == total * lo + w * lo;
    assert (total + w) * hi == total * hi + w * hi;
  }
}
