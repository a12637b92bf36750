/** The dataset profiler: one summary row per column with its name, its kind, its
    number of missing cells and its number of distinct present values. */
module Profiler {
  import opened Values
  import opened Seqs
  import opened Tables
  import AutoClean

  /** One row of the profile. The dtype text is reduced to the numeric flag. */
  datatype ColumnProfile = ColumnProfile(column: string, numeric: bool, nulls: nat, uniqueValues: nat)

  /** The positions of the missing cells. */
  function MissingPositions(cells: seq<Cell>): set<nat> {
    set i: nat | i < |cells| && cells[i].None?
  }

  /** The distinct values among the present cells. */
  function DistinctPresent(cells: seq<Cell>): set<Value> {
    set i | 0 <= i < |cells| && cells[i].Some? :: cells[i].value
  }

  /** The profile row of one column: `isnull().sum()` and `nunique()`, which counts
      distinct values and leaves missing cells out. */
  function ProfileColumn(c: Column): (p: ColumnProfile)
    ensures p.column == c.name && p.numeric == c.numeric
    ensures p.nulls <= |c.cells| && p.uniqueValues <= |c.cells| - p.nulls
    ensures p.nulls == 0 <==> (forall i :: 0 <= i < |c.cells| ==> c.cells[i].Some?)
    ensures p.uniqueValues == 0 <==> p.nulls == |c.cells|
  {
    ElementsCard(Present(c.cells));
    ColumnProfile(c.name, c.numeric, NullCount(c.cells), |Elements(Present(c.cells))|)
  }

  /** The null count of a row is the number of missing positions of its column. */
  lemma {:induction false} NullsCountMissingPositions(cells: seq<Cell>)
    ensures NullCount(cells) == |MissingPositions(cells)|
  {
    if |cells| > 0 {
      var n := |cells| - 1;
      var p := cells[..n];
      NullsCountMissingPositions(p);
      var before := MissingPositions(p);
      assert forall i: nat :: i < n ==> p[i] == cells[i];
      if cells[n].None? {
        assert MissingPositions(cells) == before + {n};
      } else {
        assert MissingPositions(cells) == before;
      }
    }
  }

  /** The unique count of a row is the number of distinct values among the present
      cells of its column. */
  lemma UniqueCountsDistinctPresent(cells: seq<Cell>)
    ensures |Elements(Present(cells))| == |DistinctPresent(cells)|
  {
    var vs := Present(cells);
    forall v | v in Elements(vs) ensures v in DistinctPresent(cells) {
      assert Some(v) in cells;
      var i :| 0 <= i < |cells| && cells[i] == Some(v);
      assert cells[i].value == v;
    }
    forall v | v in DistinctPresent(cells) ensures v in Elements(vs) {
      var i :| 0 <= i < |cells| && cells[i].Some? && cells[i].value == v;
      assert cells[i] == Some(v);
    }
    assert Elements(vs) == DistinctPresent(cells);
  }

  /** Both counts of a profile row, in terms of the column itself. */
  lemma ProfileColumnCounts(c: Column)
    ensures ProfileColumn(c).nulls == |MissingPositions(c.cells)|
    ensures ProfileColumn(c).uniqueValues == |DistinctPresent(c.cells)|
  {
    NullsCountMissingPositions(c.cells);
    UniqueCountsDistinctPresent(c.cells);
  }

  /** `profile_dataset`: the profile rows of the columns, in column order. */
  method ProfileDataset(t: Table) returns (profile: seq<ColumnProfile>)
    ensures |profile| == |t.cols|
    ensures forall j :: 0 <= j < |t.cols| ==> profile[j].column == t.cols[j].name
    ensures forall j :: 0 <= j < |t.cols| ==> profile[j] == ProfileColumn(t.cols[j])
  {
    profile := [];
    for j := 0 to |t.cols|
      invariant |profile| == j
      invariant forall k :: 0 <= k < j ==> profile[k] == ProfileColumn(t.cols[k])
    {
      profile := profile + [ProfileColumn(t.cols[j])];
    }
  }

  /** In a well-formed table no profile count exceeds the row count, and a column
      has as many nulls as rows exactly when it has no unique value. */
  lemma ProfileRowBounds(t: Table)
    requires WellFormed(t)
    ensures forall j :: 0 <= j < |t.cols| ==>
              ProfileColumn(t.cols[j]).nulls + ProfileColumn(t.cols[j]).uniqueValues <= t.height
    ensures forall j :: 0 <= j < |t.cols| ==>
              (ProfileColumn(t.cols[j]).nulls == t.height <==> ProfileColumn(t.cols[j]).uniqueValues == 0)
  {
  }

  /** After the auto-cleaner no profile row reports a missing cell. */
  lemma CleanedProfileHasNoNulls(t: Table)
    requires WellFormed(t)
    ensures var u := AutoClean.ApplyCleaningSuggestions(t).table;
            forall j :: 0 <= j < |u.cols| ==> ProfileColumn(u.cols[j]).nulls == 0
  {
    AutoClean.CleanedHasNoMissing(t);
  }
}
