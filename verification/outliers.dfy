/** The z-score outlier detector: for every numeric column, the present numbers are
    scored against their own mean and population standard deviation, and the column
    is reported when some value has |z| > 3. */
module Outliers {
  import opened Values
  import opened Tables
  import opened Stats

  /** Does `detect_outliers` report this column? Missing cells are dropped first. */
  predicate Flagged(c: Column) {
    c.numeric && OutlierCount(ColumnNumbers(c)) > 0
  }

  /** The report keys contributed by a list of columns, scanned in order. */
  function FlaggedNames(cols: seq<Column>): (keys: set<string>)
    ensures forall name :: name in keys <==>
              exists j :: 0 <= j < |cols| && Flagged(cols[j]) && cols[j].name == name
  {
    if |cols| == 0 then {}
    else
      var last := cols[|cols| - 1];
      var p := FlaggedNames(cols[..|cols| - 1]);
      assert forall j :: 0 <= j < |cols| - 1 ==> cols[..|cols| - 1][j] == cols[j];
      if Flagged(last) then p + {last.name} else p
  }

  /** `detect_outliers`: the names of the numeric columns holding a value with
      |z| > 3. The message each key maps to depends on the name alone and is not
      modelled. */
  function DetectOutliers(t: Table): (keys: set<string>)
    ensures keys <= NameSet(t)
    ensures forall name :: name in keys ==>
              exists j :: 0 <= j < |t.cols| && t.cols[j].numeric && t.cols[j].name == name
    ensures forall j :: 0 <= j < |t.cols| ==>
              (t.cols[j].numeric && (exists k :: 0 <= k < |ColumnNumbers(t.cols[j])| &&
                                      IsOutlier(ColumnNumbers(t.cols[j])[k], ColumnNumbers(t.cols[j]))))
              ==> t.cols[j].name in keys
  {
    FlaggedNames(t.cols)
  }

  /** With unique names, a column is a key exactly when it is numeric and one of its
      present numbers has |z| > 3. */
  lemma KeyIffOutlier(t: Table, j: nat)
    requires UniqueNames(t) && j < |t.cols|
    ensures t.cols[j].name in DetectOutliers(t) <==>
              t.cols[j].numeric &&
              exists k :: 0 <= k < |ColumnNumbers(t.cols[j])| &&
                          IsOutlier(ColumnNumbers(t.cols[j])[k], ColumnNumbers(t.cols[j]))
  {
    if t.cols[j].name in DetectOutliers(t) {
      var j' :| 0 <= j' < |t.cols| && Flagged(t.cols[j']) && t.cols[j'].name == t.cols[j].name;
      assert j' == j;
    }
  }

  /** A numeric column whose present numbers are all equal is never a key. */
  lemma ConstantColumnIsNotKey(t: Table, j: nat, c: real)
    requires UniqueNames(t) && j < |t.cols|
    requires forall k :: 0 <= k < |ColumnNumbers(t.cols[j])| ==> ColumnNumbers(t.cols[j])[k] == c
    ensures t.cols[j].name !in DetectOutliers(t)
  {
    KeyIffOutlier(t, j);
    var xs := ColumnNumbers(t.cols[j]);
    if |xs| > 0 {
      ConstantHasNoOutlier(xs, c);
    }
  }

  /** A column with at most nine present numbers is never a key: |z| cannot exceed 3
      among so few values. */
  lemma SmallColumnIsNotKey(t: Table, j: nat)
    requires UniqueNames(t) && j < |t.cols|
    requires |ColumnNumbers(t.cols[j])| <= 9
    ensures t.cols[j].name !in DetectOutliers(t)
  {
    KeyIffOutlier(t, j);
    FewValuesHaveNoOutlier(ColumnNumbers(t.cols[j]));
  }
}
