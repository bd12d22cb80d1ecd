/**
 * JavaScript `Math.round` applied to the non-negative mean `sum / n` of integers.
 * `Math.round(x)` is `floor(x + 1/2)`, so for `x = sum / n` it is
 * `floor((2 * sum + n) / (2 * n))`, which needs no floating point.
 */
module Rounding {

  /** The rounded mean: the unique `r` with `r - 1/2 <= sum / n < r + 1/2`. */
  function RoundedMean(sum: nat, n: nat): (r: nat)
    requires n > 0
    ensures 2 * n * r <= 2 * sum + n < 2 * n * r + 2 * n
  {
    var q := (2 * sum + n) / (2 * n);
    assert 2 * sum + n == (2 * n) * q + (2 * sum + n) % (2 * n);
    q
  }

  /** The characterisation in RoundedMean's contract has exactly one solution. */
  lemma RoundedMeanUnique(sum: nat, n: nat, r: nat)
    requires n > 0
    requires 2 * n * r <= 2 * sum + n < 2 * n * r + 2 * n
    ensures r == RoundedMean(sum, n)
  {
    var m := RoundedMean(sum, n);
    if r < m {
      MulMonotone(2 * n, r + 1, m);
    } else if r > m {
      MulMonotone(2 * n, m + 1, r);
    }
  }

  /** A mean of values that are all at most `bound` rounds to at most `bound`. */
  lemma RoundedMeanAtMost(sum: nat, n: nat, bound: nat)
    requires n > 0
    requires sum <= n * bound
    ensures RoundedMean(sum, n) <= bound
  {
    var r := RoundedMean(sum, n);
    if r > bound {
      MulMonotone(2 * n, bound + 1, r);
      assert false;
    }
  }

  /** A mean of values that are all `v` rounds to `v`. */
  lemma RoundedMeanOfConstant(n: nat, v: nat)
    requires n > 0
    ensures RoundedMean(n * v, n) == v
  {
    RoundedMeanUnique(n * v, n, v);
  }

  lemma MulMonotone(k: nat, a: nat, b: nat)
    requires a <= b
    ensures k * a <= k * b
  {
  }
}
