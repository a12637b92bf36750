/** The data-health scorer: the mean missing percentage over columns, the duplicate
    row percentage and the z-score outlier count, combined into one score. */
module Health {
  import opened Values
  import opened Seqs
  import opened Tables
  import opened Stats
  import Outliers
  import AutoClean

  /** The four numbers the scorer returns: `missing_pct.mean()`, `duplicate_pct`,
      `outlier_count` and the score; `None` stands for pandas' NaN. */
  datatype HealthReport = HealthReport(
    missingPct: Option<real>,
    duplicatePct: Option<real>,
    outlierCount: nat,
    score: real)

  /** `100 * count / total`: a count against a positive total, as a percentage. */
  function Ratio(count: nat, total: nat): real
    requires total > 0
  {
    100.0 * (count as real) / (total as real)
  }

  /** Percentages of one total add up. */
  lemma RatioAdds(a: nat, b: nat, h: nat)
    requires h > 0
    ensures Ratio(a, h) + Ratio(b, h) == Ratio(a + b, h)
  {
  }

  /** One step of a running sum of percentages of one total. */
  lemma RatioStep(s: real, before: real, here: real, n: nat, a: nat, b: nat, h: nat)
    requires h > 0 && s == before + here && n == a + b
    requires before == Ratio(a, h) && here == Ratio(b, h)
    ensures s == Ratio(n, h)
  {
    RatioAdds(a, b, h);
  }

  /** A percentage against `h`, averaged over `c`, is the percentage against `h * c`. */
  lemma RatioAverage(n: nat, h: nat, c: nat)
    requires h > 0 && c > 0
    ensures Ratio(n, h) / (c as real) == Ratio(n, h * c)
  {
    assert (h * c) as real == (h as real) * (c as real);
  }

  /** A count out of `total`, as a percentage. */
  function Percent(count: nat, total: nat): (p: real)
    requires count <= total && total > 0
    ensures 0.0 <= p <= 100.0
    ensures p == 0.0 <==> count == 0
  {
    var f := (count as real) / (total as real);
    FractionAtMostOne(count as real, total as real);
    f * 100.0
  }

  /** The percentage is `100 * count / total`. */
  lemma PercentValue(count: nat, total: nat)
    requires count <= total && total > 0
    ensures Percent(count, total) == Ratio(count, total)
  {
  }

  /** A part of a positive whole is a fraction between 0 and 1. */
  lemma FractionAtMostOne(a: real, b: real)
    requires 0.0 <= a <= b && b > 0.0
    ensures 0.0 <= a / b <= 1.0
  {
    var f := a / b;
    assert f * b == a;
    assert (1.0 - f) * b == b - a;
  }

  /** One column's missing percentage, `isnull().mean() * 100`. */
  function ColumnMissingPct(c: Column, height: nat): (p: real)
    requires height > 0 && |c.cells| == height
    ensures 0.0 <= p <= 100.0
    ensures p == 0.0 <==> NullCount(c.cells) == 0
    ensures p == Ratio(NullCount(c.cells), height)
  {
    PercentValue(NullCount(c.cells), height);
    Percent(NullCount(c.cells), height)
  }

  /** The sum of the columns' missing percentages. */
  function SumMissingPct(cols: seq<Column>, height: nat): (s: real)
    requires height > 0
    requires forall j :: 0 <= j < |cols| ==> |cols[j].cells| == height
    ensures 0.0 <= s <= 100.0 * (|cols| as real)
    ensures s == 0.0 <==> (forall j :: 0 <= j < |cols| ==> NullCount(cols[j].cells) == 0)
  {
    if |cols| == 0 then 0.0
    else
      var p := cols[..|cols| - 1];
      assert forall j :: 0 <= j < |p| ==> p[j] == cols[j];
      SumMissingPct(p, height) + ColumnMissingPct(cols[|cols| - 1], height)
  }

  /** `df.isnull().mean().mul(100).mean()`: the mean over columns of each column's
      missing percentage. It is NaN when the table has no rows (every column's mean
      is NaN) or no columns (the mean of nothing). */
  function MissingPct(t: Table): (p: Option<real>)
    requires WellFormed(t)
    ensures p.None? <==> t.height == 0 || |t.cols| == 0
    ensures p.Some? ==> 0.0 <= p.value <= 100.0
    ensures p.Some? ==> (p.value == 0.0 <==> NoMissing(t))
  {
    if t.height == 0 || |t.cols| == 0 then None
    else
      var total := SumMissingPct(t.cols, t.height);
      AverageOfPercentages(total, |t.cols| as real);
      Some(total / (|t.cols| as real))
  }

  /** The missing cells of all the columns together. */
  function TotalNulls(cols: seq<Column>): nat {
    if |cols| == 0 then 0
    else TotalNulls(cols[..|cols| - 1]) + NullCount(cols[|cols| - 1].cells)
  }

  /** The summed column percentages are the percentage of all missing cells, taken
      against one column's length. */
  lemma {:induction false} SumMissingPctValue(cols: seq<Column>, height: nat)
    requires height > 0
    requires forall j :: 0 <= j < |cols| ==> |cols[j].cells| == height
    ensures SumMissingPct(cols, height) == Ratio(TotalNulls(cols), height)
  {
    if |cols| > 0 {
      var p := cols[..|cols| - 1];
      var last := cols[|cols| - 1];
      assert forall j :: 0 <= j < |p| ==> p[j] == cols[j];
      SumMissingPctValue(p, height);
      RatioStep(SumMissingPct(cols, height), SumMissingPct(p, height), ColumnMissingPct(last, height),
                TotalNulls(cols), TotalNulls(p), NullCount(last.cells), height);
    }
  }

  /** `missing_pct.mean()` of a table with rows and columns is the percentage of its
      cells that are missing. */
  lemma MissingPctValue(t: Table)
    requires WellFormed(t) && t.height > 0 && |t.cols| > 0
    ensures MissingPct(t) == Some(Ratio(TotalNulls(t.cols), t.height * |t.cols|))
  {
    SumMissingPctValue(t.cols, t.height);
    RatioAverage(TotalNulls(t.cols), t.height, |t.cols|);
  }

  /** The average of `n` percentages is a percentage, and 0 only when their sum is. */
  lemma AverageOfPercentages(total: real, n: real)
    requires n > 0.0 && 0.0 <= total <= 100.0 * n
    ensures 0.0 <= total / n <= 100.0
    ensures total / n == 0.0 <==> total == 0.0
  {
    var m := total / n;
    assert m * n == total;
    assert (100.0 - m) * n == 100.0 * n - total;
  }

  /** `df.duplicated().mean() * 100`: the percentage of rows equal to an earlier row.
      pandas returns no flags at all for a frame without rows or columns, whose mean
      is NaN. */
  function DuplicatePct(t: Table): (p: Option<real>)
    requires WellFormed(t)
    ensures p.None? <==> t.height == 0 || |t.cols| == 0
    ensures p.Some? ==> 0.0 <= p.value <= 100.0
    ensures p.Some? ==> (p.value == 0.0 <==> NoDuplicates(Rows(t)))
  {
    if t.height == 0 || |t.cols| == 0 then None
    else
      NoDuplicatesIffNoneFlagged(Rows(t));
      Some(Percent(CountTrue(Duplicated(Rows(t))), t.height))
  }

  /** `duplicate_pct` is the percentage of rows that stage 1 of the auto-cleaner
      removes. */
  lemma DuplicatePctValue(t: Table, kept: nat)
    requires WellFormed(t) && t.height > 0 && |t.cols| > 0
    requires kept == AutoClean.DropDuplicates(t).height
    ensures DuplicatePct(t) == Some(Percent(t.height - kept, t.height))
  {
    AutoClean.DropDuplicatesRemovesFlagged(t);
    DuplicatePctOfKept(t, kept);
  }

  /** If `kept` rows are left once the flagged ones go, `duplicate_pct` is the
      percentage of the others. */
  lemma DuplicatePctOfKept(t: Table, kept: nat)
    requires WellFormed(t) && t.height > 0 && |t.cols| > 0
    requires kept + CountTrue(Duplicated(Rows(t))) == t.height
    ensures DuplicatePct(t) == Some(Percent(t.height - kept, t.height))
  {
  }

  /** Outliers one column contributes to `stats.zscore(numeric_df)`. A missing cell
      makes the column's mean NaN, so none of its z-scores compares above 3. */
  function ZScoreOutliers(c: Column): (n: nat)
    ensures n <= |c.cells|
    ensures NullCount(c.cells) > 0 ==> n == 0
    ensures NullCount(c.cells) == 0 ==> n == OutlierCount(ColumnNumbers(c))
  {
    if NullCount(c.cells) > 0 then 0
    else
      assert |Numbers(Present(c.cells))| <= |c.cells|;
      OutlierCount(ColumnNumbers(c))
  }

  /** The outlier cells of the numeric columns, summed. */
  function NumericOutliers(cols: seq<Column>, height: nat): (n: nat)
    requires forall j :: 0 <= j < |cols| ==> |cols[j].cells| == height
    ensures n <= height * |cols|
    ensures (forall j :: 0 <= j < |cols| ==> !cols[j].numeric) ==> n == 0
  {
    if |cols| == 0 then 0
    else
      var p := cols[..|cols| - 1];
      assert forall j :: 0 <= j < |p| ==> p[j] == cols[j];
      var last := cols[|cols| - 1];
      assert height * |cols| == height * |p| + height;
      NumericOutliers(p, height) + (if last.numeric then ZScoreOutliers(last) else 0)
  }

  /** `(z_scores > 3).sum().sum()` over the numeric columns, or 0 when the numeric
      frame is empty (no numeric column, or no row). */
  function HealthOutlierCount(t: Table): (n: nat)
    requires WellFormed(t)
    ensures n <= t.height * |t.cols|
    ensures t.height == 0 ==> n == 0
    ensures (forall j :: 0 <= j < |t.cols| ==> !t.cols[j].numeric) ==> n == 0
  {
    if t.height == 0 then 0 else NumericOutliers(t.cols, t.height)
  }

  /** Does the column add to the health outlier count: numeric, complete, and holding
      a value with |z| > 3? */
  predicate Contributes(c: Column) {
    c.numeric && NullCount(c.cells) == 0 && OutlierCount(ColumnNumbers(c)) > 0
  }

  /** A column adds to the sum exactly when it contributes. */
  lemma ContributionPositive(c: Column)
    ensures (if c.numeric then ZScoreOutliers(c) else 0) > 0 <==> Contributes(c)
  {
  }

  /** The summed count is positive exactly when some column contributes to it. */
  lemma {:induction false} NumericOutliersPositive(cols: seq<Column>, height: nat)
    requires forall j :: 0 <= j < |cols| ==> |cols[j].cells| == height
    ensures NumericOutliers(cols, height) > 0 <==>
              exists j :: 0 <= j < |cols| && Contributes(cols[j])
  {
    if |cols| > 0 {
      var p := cols[..|cols| - 1];
      var last := cols[|cols| - 1];
      assert forall j :: 0 <= j < |p| ==> p[j] == cols[j];
      NumericOutliersPositive(p, height);
      ContributionPositive(last);
      var here := if last.numeric then ZScoreOutliers(last) else 0;
      assert NumericOutliers(cols, height) == NumericOutliers(p, height) + here;
      if here > 0 {
        assert Contributes(cols[|cols| - 1]);
      } else if NumericOutliers(p, height) > 0 {
        var j :| 0 <= j < |p| && Contributes(p[j]);
        assert Contributes(cols[j]);
      } else {
        forall j | 0 <= j < |cols| ensures !Contributes(cols[j]) {
          if j < |p| {
            assert p[j] == cols[j] && !Contributes(p[j]);
          } else {
            assert cols[j] == last && !Contributes(last);
          }
        }
      }
    }
  }

  /** The health outlier count is positive exactly when the table has rows and some
      numeric column without missing cells holds a value with |z| > 3. */
  lemma HealthOutliersIff(t: Table)
    requires WellFormed(t)
    ensures HealthOutlierCount(t) > 0 <==>
              t.height > 0 && exists j :: 0 <= j < |t.cols| && Contributes(t.cols[j])
  {
    NumericOutliersPositive(t.cols, t.height);
  }

  /** A contributing column is one the detector flags; a flagged column without
      missing cells contributes and is not empty. */
  lemma FlaggedContributes(c: Column)
    ensures Contributes(c) ==> Outliers.Flagged(c)
    ensures Outliers.Flagged(c) && NullCount(c.cells) == 0 ==> Contributes(c) && |c.cells| > 0
  {
  }

  /** Whatever the scorer counts, the detector reports. */
  lemma CountedOutliersAreDetected(t: Table)
    requires WellFormed(t)
    ensures HealthOutlierCount(t) > 0 ==> Outliers.DetectOutliers(t) != {}
  {
    HealthOutliersIff(t);
    if HealthOutlierCount(t) > 0 {
      var j :| 0 <= j < |t.cols| && Contributes(t.cols[j]);
      var c := t.cols[j];
      FlaggedContributes(c);
      assert 0 <= j < |t.cols| && Outliers.Flagged(t.cols[j]) && t.cols[j].name == c.name;
      assert c.name in Outliers.FlaggedNames(t.cols);
    }
  }

  /** On a table without missing cells, the scorer counts an outlier exactly when the
      detector reports one. */
  lemma HealthOutliersAreDetected(t: Table)
    requires WellFormed(t) && NoMissing(t)
    ensures HealthOutlierCount(t) > 0 <==> Outliers.DetectOutliers(t) != {}
  {
    CountedOutliersAreDetected(t);
    HealthOutliersIff(t);
    var keys := Outliers.FlaggedNames(t.cols);
    if keys != {} {
      var name :| name in keys;
      var j :| 0 <= j < |t.cols| && Outliers.Flagged(t.cols[j]) && t.cols[j].name == name;
      FlaggedContributes(t.cols[j]);
      assert t.height > 0;
    }
  }

  /** Python's `max(0, 100 - p)`. With `p` NaN the comparison `100 - p > 0` is false,
      so `max` keeps its first argument, 0. */
  function PctTerm(p: Option<real>): (v: real)
    ensures 0.0 <= v
    ensures p.Some? && p.value >= 0.0 ==> v <= 100.0
    ensures p.Some? && p.value >= 0.0 ==> (v == 100.0 <==> p.value == 0.0)
    ensures p.None? ==> v == 0.0
  {
    match p
    case None => 0.0
    case Some(x) => if 100.0 - x > 0.0 then 100.0 - x else 0.0
  }

  /** The third term, `max(0, 100 - outliers / rows * 100)`, or 100 without rows. */
  function OutlierTerm(outliers: nat, height: nat): (v: real)
    ensures 0.0 <= v <= 100.0
    ensures height == 0 ==> v == 100.0
    ensures height > 0 ==> (v == 100.0 <==> outliers == 0)
  {
    if height > 0 then
      var x := (outliers as real) / (height as real) * 100.0;
      if 100.0 - x > 0.0 then 100.0 - x else 0.0
    else 100.0
  }

  /** `calculate_data_health`: the three terms averaged. */
  function CalculateDataHealth(t: Table): (r: HealthReport)
    requires WellFormed(t)
    ensures 0.0 <= r.score <= 100.0
    ensures r.missingPct == MissingPct(t) && r.duplicatePct == DuplicatePct(t)
    ensures r.outlierCount == HealthOutlierCount(t)
  {
    var miss := MissingPct(t);
    var dup := DuplicatePct(t);
    var outliers := HealthOutlierCount(t);
    HealthReport(miss, dup, outliers,
                 (PctTerm(miss) + PctTerm(dup) + OutlierTerm(outliers, t.height)) / 3.0)
  }

  /** A non-empty table scores 100 exactly when it has no missing cell, no repeated
      row and no outlier. */
  lemma PerfectScoreIff(t: Table)
    requires WellFormed(t) && t.height > 0 && |t.cols| > 0
    ensures CalculateDataHealth(t).score == 100.0 <==>
              NoMissing(t) && NoDuplicates(Rows(t)) && HealthOutlierCount(t) == 0
  {
  }

  /** A table without rows: the outlier term is 100, and both percentages are NaN,
      which Python's `max` turns into 0-valued terms, so the score is 100 / 3. */
  lemma EmptyTableScore(t: Table)
    requires WellFormed(t) && t.height == 0
    ensures MissingPct(t).None? && DuplicatePct(t).None?
    ensures OutlierTerm(HealthOutlierCount(t), t.height) == 100.0
    ensures CalculateDataHealth(t).score == 100.0 / 3.0
  {
  }
}
