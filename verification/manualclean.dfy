/** The manual cleaning panel's "Apply Fixes" handler, lifted out as a function of the
    table and the options chosen in the panel: optional duplicate removal, then
    dropping the chosen columns, then renaming through a map, then one null strategy. */
module ManualClean {
  import opened Values
  import opened Seqs
  import opened Tables
  import opened Stats
  import AutoClean

  /** The four entries of the "Handle Nulls" box. */
  datatype NullStrategy = NoFill | FillZero | FillMean | FillMode

  /** What the panel collects: the duplicates checkbox, the columns picked for dropping,
      the text typed for each column's new name, and the null strategy. */
  datatype ManualOptions = ManualOptions(
    removeDuplicates: bool,
    dropColumns: set<string>,
    renameMap: map<string, string>,
    nullStrategy: NullStrategy)

  // ----- Dropping columns --------------------------------------------------------

  /** A column survives `drop(columns=names)` when its name is not among them. */
  predicate Survives(c: Column, names: set<string>) {
    c.name !in names
  }

  /** Which columns survive `drop(columns=names)`. */
  function DropMask(t: Table, names: set<string>): (m: seq<bool>)
    ensures |m| == |t.cols|
  {
    seq(|t.cols|, j requires 0 <= j < |t.cols| => Survives(t.cols[j], names))
  }

  /** pandas' `drop(columns=names)`: every column carrying one of the names goes, the
      others stay in their order. */
  function DropColumns(t: Table, names: set<string>): (r: Table)
    requires WellFormed(t)
    ensures WellFormed(r) && r.height == t.height
    ensures IsSubsequence(r.cols, t.cols)
    ensures forall c :: c in r.cols <==> c in t.cols && Survives(c, names)
  {
    DropSelection(t, names);
    Table(Select(t.cols, IndicesWhere(DropMask(t, names))), t.height)
  }

  /** The columns the drop mask selects are those of the table whose name is not
      dropped, in order. */
  lemma DropSelection(t: Table, names: set<string>)
    requires WellFormed(t)
    ensures var s := Select(t.cols, IndicesWhere(DropMask(t, names)));
            && IsSubsequence(s, t.cols)
            && (forall c :: c in s <==> c in t.cols && Survives(c, names))
            && WellFormed(Table(s, t.height))
  {
    var s := Select(t.cols, IndicesWhere(DropMask(t, names)));
    FilterByMask(t.cols, DropMask(t, names));
    forall c | c in t.cols && Survives(c, names) ensures c in s {
      var i :| 0 <= i < |t.cols| && t.cols[i] == c;
      assert DropMask(t, names)[i];
    }
    forall j | 0 <= j < |s| ensures |s[j].cells| == t.height && NumericCells(s[j]) {
      assert s[j] in s;
    }
  }

  /** A name left after the drop was a name of the table and was not dropped. */
  lemma KeptNameWasKept(t: Table, names: set<string>, n: string)
    requires WellFormed(t) && n in NameSet(DropColumns(t, names))
    ensures n in NameSet(t) - names
  {
    var r := DropColumns(t, names);
    var k :| 0 <= k < |r.cols| && r.cols[k].name == n;
    assert r.cols[k] in r.cols;
    var j :| 0 <= j < |t.cols| && t.cols[j] == r.cols[k];
    assert t.cols[j].name in NameSet(t);
  }

  /** A name of the table that was not dropped is left after the drop. */
  lemma UndroppedNameIsKept(t: Table, names: set<string>, n: string)
    requires WellFormed(t) && n in NameSet(t) - names
    ensures n in NameSet(DropColumns(t, names))
  {
    var r := DropColumns(t, names);
    var j :| 0 <= j < |t.cols| && t.cols[j].name == n;
    assert t.cols[j] in r.cols;
    var k :| 0 <= k < |r.cols| && r.cols[k] == t.cols[j];
    assert r.cols[k].name in NameSet(r);
  }

  /** After the drop the names are those of the table less the dropped ones. */
  lemma DropColumnsNames(t: Table, names: set<string>)
    requires WellFormed(t)
    ensures NameSet(DropColumns(t, names)) == NameSet(t) - names
  {
    forall n | n in NameSet(DropColumns(t, names)) ensures n in NameSet(t) - names {
      KeptNameWasKept(t, names, n);
    }
    forall n | n in NameSet(t) - names ensures n in NameSet(DropColumns(t, names)) {
      UndroppedNameIsKept(t, names, n);
    }
  }

  /** As many columns survive as the mask keeps; the others are the ones dropped. */
  lemma DropColumnsCount(t: Table, names: set<string>)
    requires WellFormed(t)
    ensures |DropColumns(t, names).cols| == CountTrue(DropMask(t, names))
    ensures |DropColumns(t, names).cols| + CountTrue(seq(|t.cols|, j requires 0 <= j < |t.cols| =>
              t.cols[j].name in names)) == |t.cols|
  {
    var m := DropMask(t, names);
    var d := seq(|t.cols|, j requires 0 <= j < |t.cols| => t.cols[j].name in names);
    CountTrueComplement(m, d);
  }

  // ----- Renaming ----------------------------------------------------------------

  /** pandas' `rename(columns=m)` on one name: a name that is a key of `m` takes its
      value, any other name stays. */
  function Renamed(m: map<string, string>, name: string): string {
    if name in m then m[name] else name
  }

  /** pandas' `rename(columns=m)`: every column takes the name the map gives it;
      cells, kinds and order stay. */
  function RenameWith(t: Table, m: map<string, string>): (r: Table)
    requires WellFormed(t)
    ensures WellFormed(r) && r.height == t.height && |r.cols| == |t.cols|
    ensures forall j :: 0 <= j < |t.cols| ==>
              r.cols[j].cells == t.cols[j].cells && r.cols[j].numeric == t.cols[j].numeric
    ensures forall j :: 0 <= j < |t.cols| ==> r.cols[j].name == Renamed(m, t.cols[j].name)
  {
    Table(seq(|t.cols|, j requires 0 <= j < |t.cols| => t.cols[j].(name := Renamed(m, t.cols[j].name))),
          t.height)
  }

  /** A key that names no column of the table has no effect on the renaming. */
  lemma RenameIgnoresOtherKeys(t: Table, m: map<string, string>, k: string)
    requires WellFormed(t) && k !in NameSet(t)
    ensures RenameWith(t, m - {k}) == RenameWith(t, m)
  {
    var a := RenameWith(t, m - {k});
    var b := RenameWith(t, m);
    forall j | 0 <= j < |t.cols| ensures a.cols[j] == b.cols[j] {
      assert t.cols[j].name in NameSet(t);
    }
  }

  /** A map that sends every key to itself, like the panel's untouched name boxes,
      leaves the table unchanged. */
  lemma RenameIdentity(t: Table, m: map<string, string>)
    requires WellFormed(t)
    requires forall n :: n in m ==> m[n] == n
    ensures RenameWith(t, m) == t
  {
    var r := RenameWith(t, m);
    forall j | 0 <= j < |t.cols| ensures r.cols[j] == t.cols[j] {
    }
  }

  // ----- Null strategies ---------------------------------------------------------

  /** How a null strategy may change a column: name, kind and length stay, numeric
      columns still hold numbers, and present cells are kept. */
  predicate KeepsPresentCells(c: Column, r: Column) {
    && r.name == c.name && r.numeric == c.numeric && |r.cells| == |c.cells|
    && NumericCells(r)
    && forall i :: 0 <= i < |c.cells| && c.cells[i].Some? ==> r.cells[i] == c.cells[i]
  }

  /** The table is changed column by column as a null strategy may. */
  predicate ColumnwiseFill(t: Table, r: Table) {
    && r.height == t.height && |r.cols| == |t.cols|
    && forall j :: 0 <= j < |t.cols| ==> KeepsPresentCells(t.cols[j], r.cols[j])
  }

  /** A column-by-column fill of a well-formed table is well formed. */
  lemma ColumnwiseFillWellFormed(t: Table, r: Table)
    requires WellFormed(t) && ColumnwiseFill(t, r)
    ensures WellFormed(r)
  {
    forall j | 0 <= j < |r.cols| ensures |r.cols[j].cells| == r.height && NumericCells(r.cols[j]) {
      assert KeepsPresentCells(t.cols[j], r.cols[j]);
    }
  }

  /** `fillna(0)` on one column. */
  function ZeroFillColumn(c: Column): (r: Column)
    requires NumericCells(c)
    ensures KeepsPresentCells(c, r)
    ensures NullCount(r.cells) == 0
  {
    c.(cells := AutoClean.FillMissing(c.cells, Some(Num(0.0))))
  }

  /** "Fill with 0": `fillna(0)` over the whole table. */
  function FillZeroTable(t: Table): (r: Table)
    requires WellFormed(t)
    ensures ColumnwiseFill(t, r)
    ensures forall j :: 0 <= j < |t.cols| ==> r.cols[j] == ZeroFillColumn(t.cols[j])
  {
    Table(seq(|t.cols|, j requires 0 <= j < |t.cols| => ZeroFillColumn(t.cols[j])), t.height)
  }

  /** After "Fill with 0" no cell is missing, and every missing cell became 0. */
  lemma FillZeroCompletes(t: Table)
    requires WellFormed(t)
    ensures NoMissing(FillZeroTable(t))
    ensures forall j, i :: 0 <= j < |t.cols| && 0 <= i < |t.cols[j].cells| && t.cols[j].cells[i].None? ==>
              FillZeroTable(t).cols[j].cells[i] == Some(Num(0.0))
  {
  }

  /** `fillna(mean(numeric_only=True))` on one column: a numeric column with missing
      cells takes the mean of its numbers (none when it has no number, as a NaN mean
      fills nothing); any other column is not in the Series and stays. */
  function MeanFillColumn(c: Column): (r: Column)
    requires NumericCells(c)
    ensures KeepsPresentCells(c, r)
    ensures !c.numeric ==> r == c
    ensures c.numeric && |Present(c.cells)| > 0 ==> NullCount(r.cells) == 0
  {
    if c.numeric then
      var r := AutoClean.FillColumn(c);
      assert AutoClean.FilledFrom(c, r);
      r
    else c
  }

  /** "Fill with mean" over the whole table. */
  function FillMeanTable(t: Table): (r: Table)
    requires WellFormed(t)
    ensures ColumnwiseFill(t, r)
    ensures forall j :: 0 <= j < |t.cols| ==> r.cols[j] == MeanFillColumn(t.cols[j])
  {
    Table(seq(|t.cols|, j requires 0 <= j < |t.cols| => MeanFillColumn(t.cols[j])), t.height)
  }

  /** "Fill with mean" changes only missing cells of numeric columns, fills them all
      when the column has a number, and fills with the mean of its numbers. */
  lemma FillMeanOnlyNumericGaps(t: Table)
    requires WellFormed(t)
    ensures forall j, i ::
              (0 <= j < |t.cols| && 0 <= i < |t.cols[j].cells| &&
               (!t.cols[j].numeric || t.cols[j].cells[i].Some?)) ==>
              FillMeanTable(t).cols[j].cells[i] == t.cols[j].cells[i]
    ensures forall j :: 0 <= j < |t.cols| && t.cols[j].numeric && |Present(t.cols[j].cells)| > 0 ==>
              NullCount(FillMeanTable(t).cols[j].cells) == 0
  {
    var r := FillMeanTable(t);
    forall j, i | 0 <= j < |t.cols| && 0 <= i < |t.cols[j].cells| &&
                  (!t.cols[j].numeric || t.cols[j].cells[i].Some?)
      ensures r.cols[j].cells[i] == t.cols[j].cells[i]
    {
      assert KeepsPresentCells(t.cols[j], r.cols[j]);
    }
  }

  /** The value "Fill with mean" puts into a missing cell of a numeric column is the
      mean of that column's numbers. */
  lemma FillMeanValue(t: Table, j: nat, i: nat)
    requires WellFormed(t) && j < |t.cols| && i < t.height
    requires t.cols[j].numeric && t.cols[j].cells[i].None? && |ColumnNumbers(t.cols[j])| > 0
    ensures FillMeanTable(t).cols[j].cells[i] == Some(Num(MeanOf(ColumnNumbers(t.cols[j]))))
  {
    var c := t.cols[j];
    assert NullCount(c.cells) > 0;
    var v := AutoClean.FillValue(c);
    assert AutoClean.FillColumn(c).cells == AutoClean.FillMissing(c.cells, v);
  }

  /** `mode()` of the whole table is an empty frame exactly when no column has a
      present value (this includes a table without columns or without rows). */
  predicate ModeFrameEmpty(t: Table) {
    forall j :: 0 <= j < |t.cols| ==> |Present(t.cols[j].cells)| == 0
  }

  /** `fillna(mode_df.iloc[0])` on one column: a column with a present value takes a
      most frequent one; an all-missing column has NaN in that row and stays. */
  function ModeFillColumn(c: Column): (r: Column)
    requires NumericCells(c)
    ensures KeepsPresentCells(c, r)
    ensures |Present(c.cells)| == 0 ==> r == c
    ensures |Present(c.cells)| > 0 ==> NullCount(r.cells) == 0
  {
    var vs := Present(c.cells);
    if |vs| == 0 then c
    else
      var v := MostFrequent(vs);
      assert c.numeric ==> v.Num? by {
        assert Some(v) in c.cells;
      }
      c.(cells := AutoClean.FillMissing(c.cells, Some(v)))
  }

  /** "Fill with mode": skipped when the mode frame is empty, else every column is
      filled from the first row of the mode frame. */
  function FillModeTable(t: Table): (r: Table)
    requires WellFormed(t)
    ensures ColumnwiseFill(t, r)
  {
    if ModeFrameEmpty(t) then t
    else Table(seq(|t.cols|, j requires 0 <= j < |t.cols| => ModeFillColumn(t.cols[j])), t.height)
  }

  /** When the mode frame is empty "Fill with mode" changes nothing; otherwise every
      column with a present value loses its missing cells, and all-missing columns
      stay. */
  lemma FillModeEffect(t: Table)
    requires WellFormed(t)
    ensures ModeFrameEmpty(t) ==> FillModeTable(t) == t
    ensures forall j :: 0 <= j < |t.cols| && |Present(t.cols[j].cells)| > 0 ==>
              NullCount(FillModeTable(t).cols[j].cells) == 0
    ensures forall j :: 0 <= j < |t.cols| && |Present(t.cols[j].cells)| == 0 ==>
              FillModeTable(t).cols[j] == t.cols[j]
  {
    if !ModeFrameEmpty(t) {
      var r := FillModeTable(t);
      assert forall j :: 0 <= j < |t.cols| ==> r.cols[j] == ModeFillColumn(t.cols[j]);
    }
  }

  /** A missing cell filled by "Fill with mode" holds a value that occurs in its column
      at least as often as any other present value. */
  lemma FillModeValue(t: Table, j: nat, i: nat)
    requires WellFormed(t) && j < |t.cols| && i < t.height
    requires t.cols[j].cells[i].None? && |Present(t.cols[j].cells)| > 0
    ensures FillModeTable(t).cols[j].cells[i].Some?
    ensures var v := FillModeTable(t).cols[j].cells[i].value;
            v in Present(t.cols[j].cells) &&
            forall x :: x in Present(t.cols[j].cells) ==>
              Occurrences(Present(t.cols[j].cells), x) <= Occurrences(Present(t.cols[j].cells), v)
  {
    var r := FillModeTable(t);
    assert !ModeFrameEmpty(t);
    assert r.cols[j] == ModeFillColumn(t.cols[j]);
  }

  /** The null step the panel selected. */
  function FillNulls(t: Table, s: NullStrategy): (r: Table)
    requires WellFormed(t)
    ensures WellFormed(r) && ColumnwiseFill(t, r)
  {
    var r := match s
      case NoFill => t
      case FillZero => FillZeroTable(t)
      case FillMean => FillMeanTable(t)
      case FillMode => FillModeTable(t);
    ColumnwiseFillWellFormed(t, r);
    r
  }

  // ----- The handler -------------------------------------------------------------

  /** "Apply Fixes": dedup (when ticked), drop the picked columns (when any), rename
      through the map, then the null step. The picked columns are names of the table,
      as the panel offers only those (pandas raises on an unknown one). */
  function ApplyManualCleaning(t: Table, o: ManualOptions): (r: Table)
    requires WellFormed(t) && o.dropColumns <= NameSet(t)
    ensures WellFormed(r)
    ensures r.height <= t.height && |r.cols| <= |t.cols|
  {
    var d := if o.removeDuplicates then AutoClean.DropDuplicates(t) else t;
    var p := if o.dropColumns != {} then DropColumns(d, o.dropColumns) else d;
    assert |p.cols| <= |d.cols| by {
      if o.dropColumns != {} {
        SubsequenceNoLonger(p.cols, d.cols);
      }
    }
    var n := RenameWith(p, o.renameMap);
    FillNulls(n, o.nullStrategy)
  }

  // ----- Properties of the handler -----------------------------------------------

  /** Tables with the same header have the same names. */
  lemma SameHeaderNames(a: Table, b: Table)
    requires AutoClean.SameHeader(a, b)
    ensures NameSet(a) == NameSet(b)
  {
    forall n | n in NameSet(b) ensures n in NameSet(a) {
      var j :| 0 <= j < |b.cols| && b.cols[j].name == n;
      assert a.cols[j].name == n;
    }
  }

  /** A null strategy leaves the names as they are. */
  lemma ColumnwiseFillNames(t: Table, r: Table)
    requires ColumnwiseFill(t, r)
    ensures NameSet(r) == NameSet(t)
  {
    forall n | n in NameSet(t) ensures n in NameSet(r) {
      var j :| 0 <= j < |t.cols| && t.cols[j].name == n;
      assert KeepsPresentCells(t.cols[j], r.cols[j]);
      assert r.cols[j].name == n;
    }
    forall n | n in NameSet(r) ensures n in NameSet(t) {
      var j :| 0 <= j < |r.cols| && r.cols[j].name == n;
      assert KeepsPresentCells(t.cols[j], r.cols[j]);
    }
  }

  /** After renaming, the names are the old names passed through the map. */
  lemma RenameNames(t: Table, m: map<string, string>)
    requires WellFormed(t)
    ensures NameSet(RenameWith(t, m)) == set n | n in NameSet(t) :: Renamed(m, n)
  {
    var r := RenameWith(t, m);
    forall n | n in NameSet(t) ensures Renamed(m, n) in NameSet(r) {
      var j :| 0 <= j < |t.cols| && t.cols[j].name == n;
      assert r.cols[j].name == Renamed(m, n);
    }
    forall x | x in NameSet(r) ensures exists n :: n in NameSet(t) && x == Renamed(m, n) {
      var j :| 0 <= j < |r.cols| && r.cols[j].name == x;
      assert t.cols[j].name in NameSet(t);
    }
  }

  /** The panel left at its defaults (box unticked, no column picked, every name box
      holding the column's own name, nulls left alone) gives back the table. */
  lemma ManualDefaultsKeepTable(t: Table, o: ManualOptions)
    requires WellFormed(t) && !o.removeDuplicates && o.dropColumns == {} && o.nullStrategy == NoFill
    requires forall n :: n in o.renameMap ==> o.renameMap[n] == n
    ensures ApplyManualCleaning(t, o) == t
  {
    RenameIdentity(t, o.renameMap);
  }

  /** The result's names are those of the columns not dropped, each passed through the
      rename map. */
  lemma ManualNames(t: Table, o: ManualOptions)
    requires WellFormed(t) && o.dropColumns <= NameSet(t)
    ensures NameSet(ApplyManualCleaning(t, o)) ==
            set n | n in NameSet(t) - o.dropColumns :: Renamed(o.renameMap, n)
  {
    var d := if o.removeDuplicates then AutoClean.DropDuplicates(t) else t;
    SameHeaderNames(d, t);
    var p := if o.dropColumns != {} then DropColumns(d, o.dropColumns) else d;
    if o.dropColumns != {} {
      DropColumnsNames(d, o.dropColumns);
    }
    assert NameSet(p) == NameSet(t) - o.dropColumns;
    var n := RenameWith(p, o.renameMap);
    RenameNames(p, o.renameMap);
    ColumnwiseFillNames(n, FillNulls(n, o.nullStrategy));
  }

  /** Without duplicate removal the row count stays; with it, the rows `duplicated()`
      flags are the ones that go. */
  lemma ManualHeight(t: Table, o: ManualOptions)
    requires WellFormed(t) && o.dropColumns <= NameSet(t)
    ensures !o.removeDuplicates ==> ApplyManualCleaning(t, o).height == t.height
    ensures o.removeDuplicates && |t.cols| > 0 ==>
              ApplyManualCleaning(t, o).height + CountTrue(Duplicated(Rows(t))) == t.height
  {
    if o.removeDuplicates && |t.cols| > 0 {
      AutoClean.DropDuplicatesRemovesFlagged(t);
    }
  }

  /** With "Fill with 0" no cell of the result is missing. */
  lemma ManualFillZeroCompletes(t: Table, o: ManualOptions)
    requires WellFormed(t) && o.dropColumns <= NameSet(t) && o.nullStrategy == FillZero
    ensures NoMissing(ApplyManualCleaning(t, o))
  {
    var d := if o.removeDuplicates then AutoClean.DropDuplicates(t) else t;
    var p := if o.dropColumns != {} then DropColumns(d, o.dropColumns) else d;
    FillZeroCompletes(RenameWith(p, o.renameMap));
  }

  /** The name typed for a column that is also picked for dropping has no effect. */
  lemma ManualIgnoresDroppedKeys(t: Table, o: ManualOptions, k: string)
    requires WellFormed(t) && o.dropColumns <= NameSet(t) && k in o.dropColumns
    ensures ApplyManualCleaning(t, o.(renameMap := o.renameMap - {k})) == ApplyManualCleaning(t, o)
  {
    var d := if o.removeDuplicates then AutoClean.DropDuplicates(t) else t;
    var p := DropColumns(d, o.dropColumns);
    DropColumnsNames(d, o.dropColumns);
    RenameIgnoresOtherKeys(p, o.renameMap, k);
  }
}
