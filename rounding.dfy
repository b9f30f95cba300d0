/**
 * Integer rounding of a ratio, the exact counterpart of JavaScript's
 * `Math.round(n / d)` (and of `toFixed(0)` on a non-negative ratio):
 * the integer nearest to n / d, a half going up.
 */
module Rounding {

  /** The integer nearest to n / d; when n / d lies exactly half-way between
      two integers, the larger one. */
  function RoundRatio(n: int, d: int): (r: int)
    requires d > 0
    ensures 2 * n - d < 2 * d * r <= 2 * n + d
  {
    var q := (2 * n + d) / (2 * d);
    assert (2 * d) * q + (2 * n + d) % (2 * d) == 2 * n + d;
    q
  }

  lemma MulStrict(a: int, b: int, c: int)
    requires a > 0 && a * b < a * c
    ensures b < c
  {
    assert a * (c - b) == a * c - a * b;
  }

  /** The nearest integer is at least any k for which n / d >= k - 1/2. */
  lemma RoundRatioAtLeast(n: int, d: int, k: int)
    requires d > 0 && 2 * n + d >= 2 * d * k
    ensures RoundRatio(n, d) >= k
  {
    var r := RoundRatio(n, d);
    assert 2 * d * (k - 1) == 2 * d * k - 2 * d;
    MulStrict(2 * d, k - 1, r);
  }

  /** The nearest integer is below any k for which n / d < k - 1/2. */
  lemma RoundRatioBelow(n: int, d: int, k: int)
    requires d > 0 && 2 * n + d < 2 * d * k
    ensures RoundRatio(n, d) < k
  {
    var r := RoundRatio(n, d);
    MulStrict(2 * d, r, k);
  }

  /** A whole ratio rounds to itself. */
  lemma RoundRatioExact(k: int, d: int)
    requires d > 0
    ensures RoundRatio(k * d, d) == k
  {
    assert 2 * (k * d) + d >= 2 * d * k;
    RoundRatioAtLeast(k * d, d, k);
    assert 2 * (k * d) + d < 2 * d * (k + 1);
    RoundRatioBelow(k * d, d, k + 1);
  }

  /** Rounding is monotone in the numerator. */
  lemma RoundRatioMonotone(n1: int, n2: int, d: int)
    requires d > 0 && n1 <= n2
    ensures RoundRatio(n1, d) <= RoundRatio(n2, d)
  {
    var r1 := RoundRatio(n1, d);
    RoundRatioAtLeast(n2, d, r1);
  }
}
