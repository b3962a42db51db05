/**
 * `Math.round((c / n) * 100)`, the percentage every progress display of the
 * application shows, computed exactly on integers: the nearest integer to
 * 100c/n, with halves rounded up as `Math.round` does. The source divides and
 * multiplies in floating point first, which can land just below a half.
 */
module Percent {

  function RoundPercent(c: int, n: int): (p: int)
    requires n > 0
    ensures 2 * n * p <= 200 * c + n < 2 * n * (p + 1)
  {
    var p := (200 * c + n) / (2 * n);
    DivBounds(200 * c + n, 2 * n);
    p
  }

  lemma DivBounds(a: int, b: int)
    requires b > 0
    ensures b * (a / b) <= a < b * (a / b + 1)
  {
  }

  lemma MulMonotone(n: int, x: int, y: int)
    requires n > 0 && x <= y
    ensures n * x <= n * y
  {
  }

  /** A count of zero or more gives a percentage of zero or more. */
  lemma RoundPercentNonNegative(c: int, n: int)
    requires n > 0 && c >= 0
    ensures RoundPercent(c, n) >= 0
  {
    var p := RoundPercent(c, n);
    if p < 0 {
      MulMonotone(2 * n, p + 1, 0);
    }
  }

  /** A count between zero and the total gives a percentage between 0 and 100. */
  lemma RoundPercentRange(c: int, n: int)
    requires n > 0 && 0 <= c <= n
    ensures 0 <= RoundPercent(c, n) <= 100
  {
    var p := RoundPercent(c, n);
    if p < 0 {
      MulMonotone(2 * n, p + 1, 0);
    }
    if p > 100 {
      MulMonotone(2 * n, 101, p);
    }
  }

  lemma RoundPercentNone(n: int)
    requires n > 0
    ensures RoundPercent(0, n) == 0
  {
    var p := RoundPercent(0, n);
    if p < 0 {
      MulMonotone(2 * n, p + 1, 0);
    }
    if p > 0 {
      MulMonotone(2 * n, 1, p);
    }
  }

  lemma RoundPercentAll(n: int)
    requires n > 0
    ensures RoundPercent(n, n) == 100
  {
    var p := RoundPercent(n, n);
    if p < 100 {
      MulMonotone(2 * n, p + 1, 100);
    }
    if p > 100 {
      MulMonotone(2 * n, 101, p);
    }
  }

  /** For a fixed total, more completed items never show a smaller percentage. */
  lemma RoundPercentMonotone(c1: int, c2: int, n: int)
    requires n > 0 && c1 <= c2
    ensures RoundPercent(c1, n) <= RoundPercent(c2, n)
  {
    var p1 := RoundPercent(c1, n);
    var p2 := RoundPercent(c2, n);
    if p1 > p2 {
      MulMonotone(2 * n, p2 + 1, p1);
    }
  }
}
