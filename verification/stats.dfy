/** Exact statistics over the present numbers of a column: the mean pandas fills
    with, the population variance scipy's `zscore` divides by (its default `ddof=0`)
    and the |z| > 3 outlier test, stated without a square root as
    (x - mean)^2 > 9 * variance. */
module Stats {
  import opened Values
  import opened Seqs

  function Sum(xs: seq<real>): real {
    if |xs| == 0 then 0.0 else Sum(xs[..|xs| - 1]) + xs[|xs| - 1]
  }

  /** The arithmetic mean of a non-empty list of numbers. */
  function MeanOf(xs: seq<real>): real
    requires |xs| > 0
  {
    Sum(xs) / (|xs| as real)
  }

  /** pandas' `mean()`: NaN (here `None`) when there is nothing to average. */
  function Mean(xs: seq<real>): (m: Option<real>)
    ensures m.None? <==> |xs| == 0
  {
    if |xs| == 0 then None else Some(MeanOf(xs))
  }

  /** The sum of squared deviations from `m`. */
  function SquaredDeviations(xs: seq<real>, m: real): (s: real)
    ensures s >= 0.0
  {
    if |xs| == 0 then 0.0
    else
      var d := xs[|xs| - 1] - m;
      SquaredDeviations(xs[..|xs| - 1], m) + d * d
  }

  /** The mean is the number whose `n`-fold is the sum. */
  lemma MeanTimesCount(xs: seq<real>)
    requires |xs| > 0
    ensures Mean(xs).Some? && Mean(xs).value * (|xs| as real) == Sum(xs)
  {
  }

  /** The population variance (divisor n). */
  function PopVariance(xs: seq<real>): (v: real)
    requires |xs| > 0
    ensures v >= 0.0
  {
    SquaredDeviations(xs, MeanOf(xs)) / (|xs| as real)
  }

  /** |z| > 3 for `x` among `xs`, squared: (x - mean)^2 > 9 * variance. A zero
      variance never flags anything, as scipy's 0/0 = NaN never compares above 3. */
  predicate IsOutlier(x: real, xs: seq<real>)
    requires |xs| > 0
  {
    var d := x - MeanOf(xs);
    d * d > 9.0 * PopVariance(xs)
  }

  /** One flag per value: is it an outlier among its column? */
  function OutlierFlags(xs: seq<real>): (b: seq<bool>)
    ensures |b| == |xs|
    ensures forall k :: 0 <= k < |xs| ==> (b[k] <==> IsOutlier(xs[k], xs))
  {
    seq(|xs|, k requires 0 <= k < |xs| => IsOutlier(xs[k], xs))
  }

  /** Number of outliers among `xs` (`len(np.where(np.abs(z) > 3)[0])`). */
  function OutlierCount(xs: seq<real>): (n: nat)
    ensures n <= |xs|
    ensures n > 0 <==> exists k :: 0 <= k < |xs| && IsOutlier(xs[k], xs)
  {
    CountTrue(OutlierFlags(xs))
  }

  /** Each squared deviation is bounded by their sum. */
  lemma {:induction false} DeviationBound(xs: seq<real>, m: real, k: nat)
    requires k < |xs|
    ensures (xs[k] - m) * (xs[k] - m) <= SquaredDeviations(xs, m)
  {
    var p := xs[..|xs| - 1];
    var d := xs[|xs| - 1] - m;
    assert SquaredDeviations(xs, m) == SquaredDeviations(p, m) + d * d;
    var e := xs[k] - m;
    if k < |xs| - 1 {
      DeviationBound(p, m, k);
      assert p[k] - m == e;
      var below := SquaredDeviations(p, m);
      var last := d * d;
      assert e * e <= below && last >= 0.0;
      assert e * e <= below + last;
    } else {
      assert e == d && SquaredDeviations(p, m) >= 0.0;
    }
  }

  /** A value is an outlier only if (x - mean)^2 exceeds 9 * variance, while it is at
      most n * variance: so a column with at most 9 present numbers has no outlier.
      Nine is a convenient bound rather than the tightest one: Samuelson's inequality
      puts |z| at most sqrt(n - 1), so ten values cannot hold an outlier either. */
  lemma FewValuesHaveNoOutlier(xs: seq<real>)
    requires |xs| <= 9
    ensures OutlierCount(xs) == 0
  {
    if |xs| > 0 {
      var m := MeanOf(xs);
      var v := PopVariance(xs);
      var n := |xs| as real;
      assert SquaredDeviations(xs, m) == n * v;
      forall k | 0 <= k < |xs| ensures !IsOutlier(xs[k], xs) {
        DeviationBound(xs, m, k);
        var e := xs[k] - m;
        assert e * e <= n * v && n * v <= 9.0 * v;
        assert !(e * e > 9.0 * v);
      }
    }
  }

  /** A zero variance flags no value. */
  lemma ZeroVarianceHasNoOutlier(xs: seq<real>)
    requires |xs| > 0 && PopVariance(xs) == 0.0
    ensures OutlierCount(xs) == 0
  {
    var m := MeanOf(xs);
    var n := |xs| as real;
    assert SquaredDeviations(xs, m) == n * PopVariance(xs);
    forall k | 0 <= k < |xs| ensures !IsOutlier(xs[k], xs) {
      DeviationBound(xs, m, k);
    }
  }

  /** An outlier lies away from the mean of a column that has spread and at least
      ten values. */
  lemma OutlierNeedsSpread(xs: seq<real>, k: nat)
    requires k < |xs| && IsOutlier(xs[k], xs)
    ensures xs[k] != MeanOf(xs)
    ensures PopVariance(xs) > 0.0 && |xs| >= 10
  {
    var d := xs[k] - MeanOf(xs);
    assert d * d > 9.0 * PopVariance(xs) >= 0.0;
    assert OutlierCount(xs) > 0;
    if PopVariance(xs) == 0.0 {
      ZeroVarianceHasNoOutlier(xs);
    }
    if |xs| <= 9 {
      FewValuesHaveNoOutlier(xs);
    }
  }

  lemma {:induction false} SumOfConstant(xs: seq<real>, c: real)
    requires forall k :: 0 <= k < |xs| ==> xs[k] == c
    ensures Sum(xs) == (|xs| as real) * c
  {
    if |xs| > 0 {
      SumOfConstant(xs[..|xs| - 1], c);
    }
  }

  lemma {:induction false} DeviationsOfConstant(xs: seq<real>, c: real)
    requires forall k :: 0 <= k < |xs| ==> xs[k] == c
    ensures SquaredDeviations(xs, c) == 0.0
  {
    if |xs| > 0 {
      DeviationsOfConstant(xs[..|xs| - 1], c);
    }
  }

  /** A constant column has its value as mean, zero variance and no outlier. */
  lemma ConstantHasNoOutlier(xs: seq<real>, c: real)
    requires |xs| > 0
    requires forall k :: 0 <= k < |xs| ==> xs[k] == c
    ensures MeanOf(xs) == c
    ensures PopVariance(xs) == 0.0
    ensures OutlierCount(xs) == 0
  {
    SumOfConstant(xs, c);
    assert MeanOf(xs) == c;
    DeviationsOfConstant(xs, c);
    assert PopVariance(xs) == 0.0 / (|xs| as real);
    ZeroVarianceHasNoOutlier(xs);
  }

  lemma {:induction false} SumBetween(xs: seq<real>, lo: real, hi: real)
    requires forall k :: 0 <= k < |xs| ==> lo <= xs[k] <= hi
    ensures (|xs| as real) * lo <= Sum(xs) <= (|xs| as real) * hi
  {
    if |xs| > 0 {
      SumBetween(xs[..|xs| - 1], lo, hi);
    }
  }

  /** The mean lies between any lower and upper bound of the values. */
  lemma MeanBetween(xs: seq<real>, lo: real, hi: real)
    requires |xs| > 0
    requires forall k :: 0 <= k < |xs| ==> lo <= xs[k] <= hi
    ensures lo <= MeanOf(xs) <= hi
  {
    var n := |xs| as real;
    SumBetween(xs, lo, hi);
    assert MeanOf(xs) * n == Sum(xs);
  }

  /** No squared deviation from the mean exceeds n times the population variance. */
  lemma DeviationWithinVariance(xs: seq<real>, k: nat)
    requires k < |xs|
    ensures (xs[k] - MeanOf(xs)) * (xs[k] - MeanOf(xs)) <= (|xs| as real) * PopVariance(xs)
  {
    var m := MeanOf(xs);
    assert SquaredDeviations(xs, m) == (|xs| as real) * PopVariance(xs);
    DeviationBound(xs, m, k);
  }
}
