/**
 * Exact integer rounding of a quotient.
 *
 * The resizer computes `math.Round(float64(a) * float64(b) / float64(c))`
 * and `math.Round(float64(x) / (float64(w) / float64(h)))`. This model works
 * on the exact rational value instead of its float64 approximation: the
 * quotient n / d is rounded to the nearest integer, halves away from zero,
 * which is what Go's math.Round does.
 */
module Rounding {

  /** n / d rounded to the nearest integer, halves away from zero. */
  function RoundDiv(n: int, d: int): (r: int)
    requires d > 0
    // r is within half a unit of n / d; a tie goes up for n >= 0 ...
    ensures n >= 0 ==> -d <= 2 * (n - r * d) < d
    // ... and down for n < 0
    ensures n < 0 ==> -d < 2 * (n - r * d) <= d
  {
    if n >= 0 then
      var q := (2 * n + d) / (2 * d);
      DivBounds(2 * n + d, 2 * d);
      q
    else
      var q := (2 * -n + d) / (2 * d);
      DivBounds(2 * -n + d, 2 * d);
      -q
  }

  /** Floor division brackets its dividend. */
  lemma DivBounds(a: int, b: int)
    requires b > 0
    ensures b * (a / b) <= a < b * (a / b) + b
  {
    assert a == b * (a / b) + a % b;
  }

  /** A multiple of d below d has a factor below one. */
  lemma BelowOne(a: int, d: int)
    requires d > 0 && a * d < d
    ensures a < 1
  {
  }

  /** A quotient at least k rounds to at least k. */
  lemma RoundDivAtLeast(n: int, d: int, k: int)
    requires d > 0 && n >= k * d
    ensures RoundDiv(n, d) >= k
  {
    var r := RoundDiv(n, d);
    assert (k - r) * d == k * d - r * d;
    BelowOne(k - r, d);
  }

  /** A quotient at most k rounds to at most k. */
  lemma RoundDivAtMost(n: int, d: int, k: int)
    requires d > 0 && n <= k * d
    ensures RoundDiv(n, d) <= k
  {
    var r := RoundDiv(n, d);
    assert (r - k) * d == r * d - k * d;
    BelowOne(r - k, d);
  }

  /** An exact quotient is its own rounding. */
  lemma RoundDivExact(k: int, d: int)
    requires d > 0
    ensures RoundDiv(k * d, d) == k
  {
    RoundDivAtLeast(k * d, d, k);
    RoundDivAtMost(k * d, d, k);
  }

  /** Rounding is monotone in the dividend. */
  lemma RoundDivMonotone(n1: int, n2: int, d: int)
    requires d > 0 && n1 <= n2
    ensures RoundDiv(n1, d) <= RoundDiv(n2, d)
  {
    var r1, r2 := RoundDiv(n1, d), RoundDiv(n2, d);
    assert (r1 - r2) * d == r1 * d - r2 * d;
    BelowOne(r1 - r2, d);
  }
}
