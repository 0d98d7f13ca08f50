/** Squares of reals and the few facts about them the distance proofs use.
    Every lemma here takes plain values and states its conclusion through
    `Sq`, so callers only ever substitute whole terms. */
module Squares {

  function Sq(v: real): real {
    v * v
  }

  lemma ProductNonNegative(p: real, q: real)
    requires 0.0 <= p && 0.0 <= q
    ensures 0.0 <= p * q
  {
  }

  lemma SquareNonNegative(v: real)
    ensures 0.0 <= Sq(v)
  {
    if v < 0.0 {
      ProductNonNegative(-v, -v);
    } else {
      ProductNonNegative(v, v);
    }
  }

  lemma SquareMonotone(x: real, d: real)
    requires 0.0 <= x <= d
    ensures Sq(x) <= Sq(d)
  {
    assert d * d - x * x == (d - x) * (d + x);
    ProductNonNegative(d - x, d + x);
  }

  lemma DifferenceSquareSymmetric(u: real, v: real)
    ensures Sq(u - v) == Sq(v - u)
  {
  }

  lemma SquareOfDifferenceOfMultiples(a: real, b: real, x: real)
    ensures Sq(a * x - b * x) == Sq(a - b) * Sq(x)
  {
  }

  lemma SquareAtLeastOne(k: real)
    requires 1.0 <= k || k <= -1.0
    ensures 1.0 <= Sq(k)
  {
    if 1.0 <= k {
      ProductNonNegative(k - 1.0, k - 1.0);
      assert (k - 1.0) * (k - 1.0) == k * k - 2.0 * k + 1.0;
    } else {
      ProductNonNegative(-k - 1.0, -k - 1.0);
      assert (-k - 1.0) * (-k - 1.0) == k * k + 2.0 * k + 1.0;
    }
  }

  lemma ScaleAtLeastOne(s: real, t: real)
    requires 1.0 <= s && 0.0 <= t
    ensures t <= s * t
  {
    ProductNonNegative(s - 1.0, t);
  }

  /** Multiples of x by two reals at least 1 apart differ by at least |x|. */
  lemma GapSquare(a: real, b: real, x: real)
    requires 1.0 <= a - b || 1.0 <= b - a
    ensures Sq(x) <= Sq(a * x - b * x)
  {
    SquareOfDifferenceOfMultiples(a, b, x);
    SquareAtLeastOne(a - b);
    SquareNonNegative(x);
    ScaleAtLeastOne(Sq(a - b), Sq(x));
  }
}
