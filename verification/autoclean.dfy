/** The auto-cleaner `apply_cleaning_suggestions`: four fixed stages (drop duplicate
    rows, drop sparse columns, fill the remaining missing cells, normalise column
    names), each appending to a change log only when it changes the table. */
module AutoClean {
  import opened Values
  import opened Seqs
  import opened Tables
  import opened Stats
  import opened ColumnNames

  /** One change-log line; the message text is reduced to the facts it reports. The
      dropped-column names form a set because the message joins a Python set. */
  datatype LogEntry =
    | RemovedDuplicates(count: nat)
    | DroppedSparseColumns(names: set<string>)
    | FilledWithMean(column: string, nulls: nat)
    | FilledWithMode(column: string, nulls: nat)
    | RenamedToSnakeCase

  /** A cleaned table with the change log that produced it. */
  datatype Cleaned = Cleaned(table: Table, log: seq<LogEntry>)

  /** The stage a log entry comes from. */
  function StageOf(e: LogEntry): nat {
    match e
    case RemovedDuplicates(_) => 1
    case DroppedSparseColumns(_) => 2
    case FilledWithMean(_, _) => 3
    case FilledWithMode(_, _) => 3
    case RenamedToSnakeCase => 4
  }

  /** Every entry of the log comes from the given stage. */
  predicate FromStage(log: seq<LogEntry>, stage: nat) {
    forall k :: 0 <= k < |log| ==> StageOf(log[k]) == stage
  }

  /** Log entries appear in stage order. */
  predicate InStageOrder(log: seq<LogEntry>) {
    forall k, l :: 0 <= k < l < |log| ==> StageOf(log[k]) <= StageOf(log[l])
  }

  /** The columns keep their names and numeric flags. */
  predicate SameHeader(a: Table, b: Table) {
    && |a.cols| == |b.cols|
    && forall j :: 0 <= j < |a.cols| ==>
         a.cols[j].name == b.cols[j].name && a.cols[j].numeric == b.cols[j].numeric
  }

  // ----- Stage 1: duplicate rows -------------------------------------------------

  /** pandas' `drop_duplicates()`: the rows without the later repeats of an earlier
      row. pandas returns a frame without columns unchanged. */
  function DropDuplicates(t: Table): (r: Table)
    requires WellFormed(t)
    ensures WellFormed(r) && SameHeader(r, t)
    ensures r.height <= t.height
    ensures |t.cols| == 0 ==> r == t
  {
    if |t.cols| == 0 then t
    else SelectRows(t, IndicesWhere(FirstOccurrenceMask(Rows(t))))
  }

  /** The kept rows are the first occurrences of the table's rows, in order, so no
      row repeats; the rows removed are those `duplicated()` flags. */
  lemma DropDuplicatesKeepsFirst(t: Table)
    requires WellFormed(t) && |t.cols| > 0
    ensures KeepsFirstOccurrences(Rows(DropDuplicates(t)), Rows(t))
    ensures NoDuplicates(Rows(DropDuplicates(t)))
    ensures DropDuplicates(t).height + CountTrue(Duplicated(Rows(t))) == t.height
  {
    SelectRowsRows(t, IndicesWhere(FirstOccurrenceMask(Rows(t))));
    assert Rows(DropDuplicates(t)) == FirstOccurrences(Rows(t));
    FirstOccurrencesAreDistinct(Rows(t));
  }

  /** Removing rows adds no missing cell. */
  lemma DropDuplicatesKeepsComplete(t: Table)
    requires WellFormed(t) && NoMissing(t)
    ensures NoMissing(DropDuplicates(t))
  {
    if |t.cols| > 0 {
      SelectRowsComplete(t, IndicesWhere(FirstOccurrenceMask(Rows(t))));
    }
  }

  /** A table without repeated rows is its own `drop_duplicates()`. */
  lemma DropDuplicatesOfDistinct(t: Table)
    requires WellFormed(t) && NoDuplicates(Rows(t))
    ensures DropDuplicates(t) == t
  {
    if |t.cols| > 0 {
      var rows := Rows(t);
      var mask := FirstOccurrenceMask(rows);
      forall i | 0 <= i < |rows| ensures mask[i] {
        assert forall k :: 0 <= k < i ==> rows[..i][k] == rows[k] != rows[i];
      }
      var r := DropDuplicates(t);
      forall j | 0 <= j < |t.cols| ensures r.cols[j] == t.cols[j] {
        SelectAll(t.cols[j].cells, mask);
      }
      assert r.cols == t.cols;
    }
  }

  /** Stage 1 keeps every row but those `duplicated()` flags. */
  lemma DropDuplicatesRemovesFlagged(t: Table)
    requires WellFormed(t) && |t.cols| > 0
    ensures DropDuplicates(t).height + CountTrue(Duplicated(Rows(t))) == t.height
  {
    DropDuplicatesKeepsFirst(t);
  }

  /** Dropping duplicate rows a second time changes nothing. */
  lemma DropDuplicatesIdempotent(t: Table)
    requires WellFormed(t)
    ensures DropDuplicates(DropDuplicates(t)) == DropDuplicates(t)
  {
    if |t.cols| > 0 {
      DropDuplicatesKeepsFirst(t);
      DropDuplicatesOfDistinct(DropDuplicates(t));
    }
  }

  /** Stage 1 with its log: an entry exactly when rows were removed, reporting
      `before - after`. */
  function DedupStage(t: Table): (c: Cleaned)
    requires WellFormed(t)
    ensures c.table == DropDuplicates(t)
    ensures c.log == RemovalLog(t.height, c.table.height)
  {
    var r := DropDuplicates(t);
    Cleaned(r, RemovalLog(t.height, r.height))
  }

  /** The stage 1 log for a table going from `before` to `after` rows. */
  function RemovalLog(before: nat, after: nat): (log: seq<LogEntry>)
    ensures |log| <= 1 && FromStage(log, 1)
    ensures log != [] <==> after < before
    ensures log != [] ==> log == [RemovedDuplicates(before - after)]
  {
    if after < before then [RemovedDuplicates(before - after)] else []
  }

  /** Stage 1 logs exactly when the table has columns and a repeated row, and the
      count it reports is the number of rows `duplicated()` flags. */
  lemma DedupLoggedIff(t: Table)
    requires WellFormed(t)
    ensures DedupStage(t).log != [] <==> |t.cols| > 0 && !NoDuplicates(Rows(t))
    ensures DedupStage(t).log != [] ==> DedupStage(t).log[0].count == CountTrue(Duplicated(Rows(t)))
  {
    NoDuplicatesIffNoneFlagged(Rows(t));
    if |t.cols| > 0 {
      DropDuplicatesRemovesFlagged(t);
    }
  }

  // ----- Stage 2: sparse columns -------------------------------------------------

  /** `dropna(axis=1, thresh=0.5 * len(df))` keeps a column with at least half as
      many present cells as there are rows. */
  predicate KeepsColumn(c: Column, height: nat) {
    2 * |Present(c.cells)| >= height
  }

  function KeepMask(t: Table): (m: seq<bool>)
    ensures |m| == |t.cols|
  {
    seq(|t.cols|, j requires 0 <= j < |t.cols| => KeepsColumn(t.cols[j], t.height))
  }

  /** Every column that needs a fill value has a present value to take it from. */
  predicate FillValuesExist(t: Table) {
    forall j :: 0 <= j < |t.cols| ==>
      NullCount(t.cols[j].cells) > 0 ==> |Present(t.cols[j].cells)| > 0
  }

  /** The columns that pass the threshold, in their order. */
  function DropSparseColumns(t: Table): (r: Table)
    requires WellFormed(t)
    ensures WellFormed(r) && r.height == t.height
    ensures IsSubsequence(r.cols, t.cols)
    ensures forall c :: c in r.cols <==> c in t.cols && KeepsColumn(c, t.height)
  {
    FilterByMask(t.cols, KeepMask(t));
    var r := Table(Select(t.cols, IndicesWhere(KeepMask(t))), t.height);
    forall c | c in t.cols && KeepsColumn(c, t.height) ensures c in r.cols {
      var i :| 0 <= i < |t.cols| && t.cols[i] == c;
      assert KeepMask(t)[i];
    }
    r
  }

  /** A column is dropped exactly when more than half of its cells are missing. */
  lemma SparseColumnDropped(t: Table, j: nat)
    requires WellFormed(t) && j < |t.cols|
    ensures t.cols[j] !in DropSparseColumns(t).cols <==> 2 * NullCount(t.cols[j].cells) > t.height
  {
    assert |t.cols[j].cells| == t.height;
  }

  /** After stage 2 every column with a missing cell has a present value: a column
      without any kept at least half of its cells only if the table has no rows. */
  lemma SparseLeavesFillValues(t: Table)
    requires WellFormed(t)
    ensures FillValuesExist(DropSparseColumns(t))
  {
    var r := DropSparseColumns(t);
    forall j | 0 <= j < |r.cols| && NullCount(r.cols[j].cells) > 0
      ensures |Present(r.cols[j].cells)| > 0
    {
      assert r.cols[j] in r.cols;
      assert r.cols[j] in t.cols && KeepsColumn(r.cols[j], t.height);
    }
  }

  /** Stage 2 with its log: the names in `set(before) - set(after)`, logged only when
      that set is not empty. */
  function SparseStage(t: Table): (c: Cleaned)
    requires WellFormed(t)
    ensures c.table == DropSparseColumns(t)
    ensures |c.log| <= 1 && FromStage(c.log, 2)
  {
    var r := DropSparseColumns(t);
    var dropped := NameSet(t) - NameSet(r);
    if dropped != {} then Cleaned(r, [DroppedSparseColumns(dropped)]) else Cleaned(r, [])
  }

  /** Stage 2 logs exactly when a name of the table is gone afterwards, and the entry
      carries the names that are gone; when every column passes the threshold it
      logs nothing. */
  lemma SparseLoggedIff(t: Table)
    requires WellFormed(t)
    ensures SparseStage(t).log != [] <==> !(NameSet(t) <= NameSet(DropSparseColumns(t)))
    ensures SparseStage(t).log != [] ==>
              SparseStage(t).log == [DroppedSparseColumns(NameSet(t) - NameSet(DropSparseColumns(t)))]
    ensures (forall j :: 0 <= j < |t.cols| ==> KeepsColumn(t.cols[j], t.height)) ==> SparseStage(t).log == []
  {
    EmptyDifference(NameSet(t), NameSet(DropSparseColumns(t)));
    AllKeptLosesNoName(t);
  }

  /** Nothing is left over exactly when the first set lies inside the second. */
  lemma EmptyDifference<T>(a: set<T>, b: set<T>)
    ensures a - b == {} <==> a <= b
  {
    if a - b == {} {
      forall x | x in a ensures x in b {
        assert x !in a - b;
      }
    }
  }

  /** When every column passes the threshold no name is lost. */
  lemma AllKeptLosesNoName(t: Table)
    requires WellFormed(t)
    ensures (forall j :: 0 <= j < |t.cols| ==> KeepsColumn(t.cols[j], t.height)) ==>
              NameSet(t) <= NameSet(DropSparseColumns(t))
  {
    var r := DropSparseColumns(t);
    if forall j :: 0 <= j < |t.cols| ==> KeepsColumn(t.cols[j], t.height) {
      forall n | n in NameSet(t) ensures n in NameSet(r) {
        var j :| 0 <= j < |t.cols| && t.cols[j].name == n;
        assert t.cols[j] in r.cols;
        var k :| 0 <= k < |r.cols| && r.cols[k] == t.cols[j];
        assert r.cols[k].name == n;
      }
    }
  }

  /** With unique names the logged set is exactly the names of the columns with more
      missing cells than half the rows. */
  lemma DroppedNamesExact(t: Table)
    requires WellFormed(t) && UniqueNames(t)
    ensures NameSet(t) - NameSet(DropSparseColumns(t)) ==
              set j | 0 <= j < |t.cols| && 2 * NullCount(t.cols[j].cells) > t.height :: t.cols[j].name
  {
    var r := DropSparseColumns(t);
    var lhs := NameSet(t) - NameSet(r);
    var rhs := set j | 0 <= j < |t.cols| && 2 * NullCount(t.cols[j].cells) > t.height :: t.cols[j].name;
    forall n | n in lhs ensures n in rhs {
      var j :| 0 <= j < |t.cols| && t.cols[j].name == n;
      KeptColumnKeepsName(t, r, j);
    }
    forall n | n in rhs ensures n in lhs {
      var j :| 0 <= j < |t.cols| && 2 * NullCount(t.cols[j].cells) > t.height && t.cols[j].name == n;
      DroppedColumnLosesName(t, r, j);
    }
    assert lhs == rhs;
  }

  lemma KeptColumnKeepsName(t: Table, r: Table, j: nat)
    requires WellFormed(t) && j < |t.cols| && r == DropSparseColumns(t)
    ensures t.cols[j] in r.cols ==> t.cols[j].name in NameSet(r)
  {
    if t.cols[j] in r.cols {
      var k :| 0 <= k < |r.cols| && r.cols[k] == t.cols[j];
      assert r.cols[k].name in NameSet(r);
    }
  }

  lemma DroppedColumnLosesName(t: Table, r: Table, j: nat)
    requires WellFormed(t) && UniqueNames(t) && j < |t.cols| && r == DropSparseColumns(t)
    requires t.cols[j] !in r.cols
    ensures t.cols[j].name !in NameSet(r)
  {
    forall k | 0 <= k < |r.cols| ensures r.cols[k].name != t.cols[j].name {
      assert r.cols[k] in r.cols;
      var j' :| 0 <= j' < |t.cols| && t.cols[j'] == r.cols[k];
      assert j' != j;
    }
  }

  // ----- Stage 3: fill the remaining missing cells -------------------------------

  /** The value `fillna` receives: the mean of a numeric column (NaN, which fills
      nothing, when it has no number), `mode().iloc[0]` of any other column, which
      exists only when the column has a present value. */
  function FillValue(c: Column): (v: Cell)
    requires !c.numeric ==> |Present(c.cells)| > 0
    ensures c.numeric ==> (v.None? <==> |ColumnNumbers(c)| == 0)
    ensures c.numeric && v.Some? ==> v.value == Num(MeanOf(ColumnNumbers(c)))
    ensures !c.numeric ==> v.Some? && v.value in Present(c.cells)
    ensures !c.numeric ==> forall x :: x in Present(c.cells) ==>
              Occurrences(Present(c.cells), x) <= Occurrences(Present(c.cells), v.value)
  {
    if c.numeric then
      match Mean(ColumnNumbers(c))
      case None => None
      case Some(m) => Some(Num(m))
    else Some(MostFrequent(Present(c.cells)))
  }

  /** pandas' `fillna(v)` on one column; a NaN `v` fills nothing. */
  function FillMissing(cells: seq<Cell>, v: Cell): (r: seq<Cell>)
    ensures |r| == |cells|
    ensures forall i :: 0 <= i < |cells| ==> r[i] == (if cells[i].None? then v else cells[i])
    ensures forall i :: 0 <= i < |cells| && cells[i].Some? ==> r[i] == cells[i]
    ensures v.Some? ==> NullCount(r) == 0
  {
    seq(|cells|, i requires 0 <= i < |cells| => if cells[i].None? then v else cells[i])
  }

  /** How stage 3 may change a column: name, kind and length stay, present cells
      stay, a column with a present value loses all its missing cells, and a column
      without missing cells is not touched. */
  predicate FilledFrom(c: Column, r: Column) {
    && r.name == c.name && r.numeric == c.numeric && |r.cells| == |c.cells|
    && NumericCells(r)
    && (forall i :: 0 <= i < |c.cells| && c.cells[i].Some? ==> r.cells[i] == c.cells[i])
    && (|Present(c.cells)| > 0 ==> NullCount(r.cells) == 0)
    && (NullCount(c.cells) == 0 ==> r == c)
  }

  /** Filling the missing cells of a column with a number (or, in a non-numeric
      column, with any value) changes it only as stage 3 may. */
  lemma FillMissingIsFill(c: Column, v: Cell)
    requires NumericCells(c) && NullCount(c.cells) > 0
    requires c.numeric && v.Some? ==> v.value.Num?
    requires |Present(c.cells)| > 0 ==> v.Some?
    ensures FilledFrom(c, c.(cells := FillMissing(c.cells, v)))
  {
    var r := c.(cells := FillMissing(c.cells, v));
    assert NumericCells(r) by {
      if c.numeric {
        forall i | 0 <= i < |r.cells| && r.cells[i].Some? ensures r.cells[i].value.Num? {
          if c.cells[i].None? {
            assert r.cells[i] == v;
          }
        }
      }
    }
  }

  /** The column after stage 3: a column with missing cells is filled with its fill
      value, a column without missing cells is left alone. */
  function FillColumn(c: Column): (r: Column)
    requires NumericCells(c)
    requires !c.numeric && NullCount(c.cells) > 0 ==> |Present(c.cells)| > 0
    ensures FilledFrom(c, r)
    ensures NullCount(c.cells) > 0 ==>
              forall i :: 0 <= i < |c.cells| && c.cells[i].None? ==> r.cells[i] == FillValue(c)
  {
    if NullCount(c.cells) == 0 then c
    else
      var v := FillValue(c);
      assert |Present(c.cells)| > 0 ==> v.Some? by {
        if c.numeric && |Present(c.cells)| > 0 {
          NumericColumnNumbers(c);
        }
      }
      FillMissingIsFill(c, v);
      c.(cells := FillMissing(c.cells, v))
  }

  /** The log entry for a column that had missing cells, naming the fill strategy. */
  function FillEntry(c: Column): LogEntry {
    if c.numeric then FilledWithMean(c.name, NullCount(c.cells))
    else FilledWithMode(c.name, NullCount(c.cells))
  }

  /** Which columns have a missing cell. */
  function HasNulls(cols: seq<Column>): (m: seq<bool>)
    ensures |m| == |cols|
    ensures forall j :: 0 <= j < |cols| ==> (m[j] <==> NullCount(cols[j].cells) > 0)
  {
    seq(|cols|, j requires 0 <= j < |cols| => NullCount(cols[j].cells) > 0)
  }

  /** The stage-3 log: one entry per column with missing cells, in column order. */
  function FillLog(cols: seq<Column>): (log: seq<LogEntry>)
    ensures |log| == CountTrue(HasNulls(cols))
    ensures FromStage(log, 3)
  {
    if |cols| == 0 then []
    else
      var p := cols[..|cols| - 1];
      assert HasNulls(p) == HasNulls(cols)[..|cols| - 1];
      var last := cols[|cols| - 1];
      if NullCount(last.cells) > 0 then FillLog(p) + [FillEntry(last)] else FillLog(p)
  }

  /** Entry `k` of the stage-3 log reports the `k`-th column with missing cells, with
      its missing count. */
  lemma {:induction false} FillLogEntries(cols: seq<Column>)
    ensures forall k :: 0 <= k < |FillLog(cols)| ==>
              FillLog(cols)[k] == FillEntry(cols[IndicesWhere(HasNulls(cols))[k]])
  {
    if |cols| > 0 {
      var n := |cols|;
      var p := cols[..n - 1];
      var m := HasNulls(cols);
      assert m[..n - 1] == HasNulls(p);
      FillLogEntries(p);
      var ip := IndicesWhere(m[..n - 1]);
      var log := FillLog(cols);
      var idx := IndicesWhere(m);
      assert idx == if m[n - 1] then ip + [n - 1] else ip;
      assert log == if m[n - 1] then FillLog(p) + [FillEntry(cols[n - 1])] else FillLog(p);
      forall k | 0 <= k < |log| ensures log[k] == FillEntry(cols[idx[k]]) {
        if k < |ip| {
          assert ip[k] < n - 1;
          assert log[k] == FillLog(p)[k] == FillEntry(p[ip[k]]);
        }
      }
    }
  }

  /** Stage 3: fills every column with missing cells and logs it. It needs a present
      value in every non-numeric column with a missing cell (`mode().iloc[0]` raises
      otherwise). */
  function FillStage(t: Table): (c: Cleaned)
    requires WellFormed(t)
    requires forall j :: 0 <= j < |t.cols| ==>
               !t.cols[j].numeric && NullCount(t.cols[j].cells) > 0 ==> |Present(t.cols[j].cells)| > 0
    ensures c.table.height == t.height && |c.table.cols| == |t.cols|
    ensures forall j :: 0 <= j < |t.cols| ==> FilledFrom(t.cols[j], c.table.cols[j])
    ensures c.log == FillLog(t.cols)
  {
    var cols := seq(|t.cols|, j requires 0 <= j < |t.cols| => FillColumn(t.cols[j]));
    Cleaned(Table(cols, t.height), FillLog(t.cols))
  }

  /** Stage 3 puts into every missing cell its column's fill value: the mean of a
      numeric column (a NaN mean leaves the cell missing), the mode of any other. */
  lemma FillStageValue(t: Table, j: nat, i: nat)
    requires WellFormed(t)
    requires forall j :: 0 <= j < |t.cols| ==>
               !t.cols[j].numeric && NullCount(t.cols[j].cells) > 0 ==> |Present(t.cols[j].cells)| > 0
    requires j < |t.cols| && i < |t.cols[j].cells| && t.cols[j].cells[i].None?
    ensures FillStage(t).table.cols[j].cells[i] == FillValue(t.cols[j])
  {
  }

  /** Stage 3 keeps the table well formed and the header unchanged. */
  lemma FillStageKeepsShape(t: Table)
    requires WellFormed(t)
    requires forall j :: 0 <= j < |t.cols| ==>
               !t.cols[j].numeric && NullCount(t.cols[j].cells) > 0 ==> |Present(t.cols[j].cells)| > 0
    ensures WellFormed(FillStage(t).table) && SameHeader(FillStage(t).table, t)
  {
    var r := FillStage(t).table;
    forall j | 0 <= j < |r.cols|
      ensures |r.cols[j].cells| == r.height && NumericCells(r.cols[j])
      ensures r.cols[j].name == t.cols[j].name && r.cols[j].numeric == t.cols[j].numeric
    {
      assert FilledFrom(t.cols[j], r.cols[j]);
    }
  }

  /** When every column with a missing cell has a present value, stage 3 leaves no
      missing cell. */
  lemma FillStageCompletes(t: Table)
    requires WellFormed(t) && FillValuesExist(t)
    ensures NoMissing(FillStage(t).table)
  {
    var r := FillStage(t).table;
    forall j | 0 <= j < |r.cols| ensures NullCount(r.cols[j].cells) == 0 {
      assert FilledFrom(t.cols[j], r.cols[j]);
      if NullCount(t.cols[j].cells) > 0 {
        assert |Present(t.cols[j].cells)| > 0;
      }
    }
  }

  // ----- Stage 4: names ----------------------------------------------------------

  /** Every column renamed to `strip().lower().replace(" ", "_")` of its name. */
  function RenameColumns(t: Table): (r: Table)
    requires WellFormed(t)
    ensures WellFormed(r) && r.height == t.height && |r.cols| == |t.cols|
    ensures forall j :: 0 <= j < |t.cols| ==>
              r.cols[j].cells == t.cols[j].cells && r.cols[j].numeric == t.cols[j].numeric
    ensures forall j :: 0 <= j < |t.cols| ==> r.cols[j].name == SnakeCase(t.cols[j].name)
  {
    Table(seq(|t.cols|, j requires 0 <= j < |t.cols| => t.cols[j].(name := SnakeCase(t.cols[j].name))),
          t.height)
  }

  /** Stage 4: renames every column; logged once when the list of names changed. */
  function RenameStage(t: Table): (c: Cleaned)
    requires WellFormed(t)
    ensures c.table == RenameColumns(t)
    ensures |c.log| <= 1 && (c.log != [] ==> c.log == [RenamedToSnakeCase])
    ensures FromStage(c.log, 4)
  {
    var r := RenameColumns(t);
    if Names(t) != Names(r) then Cleaned(r, [RenamedToSnakeCase]) else Cleaned(r, [])
  }

  /** After stage 4 every name is in normal form. */
  lemma RenameGivesSnakeCase(t: Table)
    requires WellFormed(t)
    ensures forall j :: 0 <= j < |RenameStage(t).table.cols| ==>
              IsSnakeCase(RenameStage(t).table.cols[j].name)
  {
    var r := RenameStage(t).table;
    forall j | 0 <= j < |r.cols| ensures IsSnakeCase(r.cols[j].name) {
      SnakeCaseIsSnakeCase(t.cols[j].name);
    }
  }

  /** Stage 4 logs exactly when the list of names changed, which is exactly when some
      name is not yet in normal form. */
  lemma RenameLoggedIff(t: Table)
    requires WellFormed(t)
    ensures RenameStage(t).log != [] <==> Names(t) != Names(RenameStage(t).table)
    ensures RenameStage(t).log != [] <==> exists j :: 0 <= j < |t.cols| && !IsSnakeCase(t.cols[j].name)
  {
    var r := RenameColumns(t);
    if exists j :: 0 <= j < |t.cols| && !IsSnakeCase(t.cols[j].name) {
      var j :| 0 <= j < |t.cols| && !IsSnakeCase(t.cols[j].name);
      SnakeCaseFixedPoint(t.cols[j].name);
      assert Names(t)[j] != Names(r)[j];
    } else {
      forall j | 0 <= j < |t.cols| ensures Names(t)[j] == Names(r)[j] {
        SnakeCaseFixedPoint(t.cols[j].name);
      }
    }
  }

  /** When every name is already in normal form, stage 4 returns the table as it was. */
  lemma RenameKeepsNormalTable(t: Table)
    requires WellFormed(t)
    requires forall j :: 0 <= j < |t.cols| ==> IsSnakeCase(t.cols[j].name)
    ensures RenameStage(t).table == t
  {
    var r := RenameColumns(t);
    forall j | 0 <= j < |t.cols| ensures r.cols[j] == t.cols[j] {
      SnakeCaseFixedPoint(t.cols[j].name);
    }
  }

  // ----- The pipeline ------------------------------------------------------------

  /** Stages 2-4 on the output of stage 1, with their logs joined. */
  function LaterStages(d: Table): (c: Cleaned)
    requires WellFormed(d)
    ensures WellFormed(c.table)
    ensures c.table.height == d.height && |c.table.cols| <= |d.cols|
  {
    var s2 := SparseStage(d);
    SparseLeavesFillValues(d);
    SubsequenceNoLonger(s2.table.cols, d.cols);
    var s3 := FillStage(s2.table);
    FillStageKeepsShape(s2.table);
    var s4 := RenameStage(s3.table);
    Cleaned(s4.table, s2.log + s3.log + s4.log)
  }

  /** `apply_cleaning_suggestions`: the four stages in order, with their logs joined. */
  function ApplyCleaningSuggestions(t: Table): (c: Cleaned)
    requires WellFormed(t)
    ensures WellFormed(c.table)
    ensures c.table.height <= t.height && |c.table.cols| <= |t.cols|
  {
    var s1 := DedupStage(t);
    var rest := LaterStages(s1.table);
    Cleaned(rest.table, s1.log + rest.log)
  }

  /** The auto-cleaned table has no missing cell. */
  lemma CleanedHasNoMissing(t: Table)
    requires WellFormed(t)
    ensures NoMissing(ApplyCleaningSuggestions(t).table)
  {
    var s1 := DedupStage(t);
    var s2 := SparseStage(s1.table);
    SparseLeavesFillValues(s1.table);
    FillStageCompletes(s2.table);
  }

  /** Every column name of the auto-cleaned table is in normal form. */
  lemma CleanedNamesAreSnakeCase(t: Table)
    requires WellFormed(t)
    ensures forall j :: 0 <= j < |ApplyCleaningSuggestions(t).table.cols| ==>
              IsSnakeCase(ApplyCleaningSuggestions(t).table.cols[j].name)
  {
    var s1 := DedupStage(t);
    var s2 := SparseStage(s1.table);
    SparseLeavesFillValues(s1.table);
    var s3 := FillStage(s2.table);
    FillStageKeepsShape(s2.table);
    RenameGivesSnakeCase(s3.table);
  }

  /** The log lists the stages' entries in stage order. */
  lemma CleanedLogInStageOrder(t: Table)
    requires WellFormed(t)
    ensures InStageOrder(ApplyCleaningSuggestions(t).log)
  {
    var s1 := DedupStage(t);
    LaterStagesLogInOrder(s1.table);
    DedupLogFirst(s1.log, LaterStages(s1.table).log);
  }

  /** The log of stages 2-4 is in stage order. */
  lemma LaterStagesLogInOrder(d: Table)
    requires WellFormed(d)
    ensures InStageOrder(LaterStages(d).log)
  {
    var s2 := SparseStage(d);
    SparseLeavesFillValues(d);
    var s3 := FillStage(s2.table);
    FillStageKeepsShape(s2.table);
    var s4 := RenameStage(s3.table);
    StageOrderOfParts(s2.log, s3.log, s4.log);
  }

  /** Joining a sparse log, fill entries and a rename log keeps stage order. */
  lemma StageOrderOfParts(l2: seq<LogEntry>, l3: seq<LogEntry>, l4: seq<LogEntry>)
    requires FromStage(l2, 2) && FromStage(l3, 3) && FromStage(l4, 4)
    ensures InStageOrder(l2 + l3 + l4)
  {
    var log := l2 + l3 + l4;
    forall k | 0 <= k < |log|
      ensures StageOf(log[k]) == if k < |l2| then 2 else if k < |l2| + |l3| then 3 else 4
    {
    }
  }

  /** Stage-1 entries come first in any log in stage order: every stage is at least 1. */
  lemma DedupLogFirst(l1: seq<LogEntry>, rest: seq<LogEntry>)
    requires FromStage(l1, 1) && InStageOrder(rest)
    ensures InStageOrder(l1 + rest)
  {
    var log := l1 + rest;
    forall k, l | 0 <= k < l < |log| ensures StageOf(log[k]) <= StageOf(log[l]) {
      if l < |l1| {
        assert log[k] == l1[k] && log[l] == l1[l];
      } else if k < |l1| {
        assert StageOf(log[k]) == 1;
      } else {
        assert log[k] == rest[k - |l1|] && log[l] == rest[l - |l1|];
      }
    }
  }

  // ----- A second run ------------------------------------------------------------

  /** Stage 2 neither drops a column of a table without missing cells nor logs. */
  lemma SparseKeepsCompleteTable(t: Table)
    requires WellFormed(t) && NoMissing(t)
    ensures SparseStage(t).table == t && SparseStage(t).log == []
  {
    forall j | 0 <= j < |t.cols| ensures KeepsColumn(t.cols[j], t.height) {
      assert |t.cols[j].cells| == t.height;
    }
    SelectAll(t.cols, KeepMask(t));
    SparseLoggedIff(t);
  }

  /** Stage 3 leaves a table without missing cells alone and logs nothing. */
  lemma FillKeepsCompleteTable(t: Table)
    requires WellFormed(t) && NoMissing(t)
    ensures FillStage(t).table == t && FillStage(t).log == []
  {
    var r := FillStage(t).table;
    forall j | 0 <= j < |t.cols| ensures r.cols[j] == t.cols[j] {
      assert FilledFrom(t.cols[j], r.cols[j]);
    }
    assert r.cols == t.cols;
  }

  /** When each of stages 2-4 leaves a table alone and logs nothing, so do the three. */
  lemma QuietStagesCompose(d: Table)
    requires WellFormed(d) && FillValuesExist(d)
    requires SparseStage(d).table == d && SparseStage(d).log == []
    requires FillStage(d).table == d && FillStage(d).log == []
    requires RenameStage(d).table == d && RenameStage(d).log == []
    ensures LaterStages(d).table == d && LaterStages(d).log == []
  {
  }

  /** On a well-formed table without missing cells whose names are in normal form,
      stages 2-4 change nothing and log nothing. */
  lemma LaterStagesKeepCleanTable(d: Table)
    requires WellFormed(d) && NoMissing(d)
    requires forall j :: 0 <= j < |d.cols| ==> IsSnakeCase(d.cols[j].name)
    ensures LaterStages(d).table == d && LaterStages(d).log == []
  {
    SparseKeepsCompleteTable(d);
    FillKeepsCompleteTable(d);
    RenameKeepsNormalTable(d);
    RenameLoggedIff(d);
    QuietStagesCompose(d);
  }

  /** Stage 1 keeps a table without missing cells and with names in normal form so. */
  lemma DedupKeepsCleanTable(u: Table)
    requires WellFormed(u) && NoMissing(u)
    requires forall j :: 0 <= j < |u.cols| ==> IsSnakeCase(u.cols[j].name)
    ensures NoMissing(DropDuplicates(u))
    ensures forall j :: 0 <= j < |DropDuplicates(u).cols| ==> IsSnakeCase(DropDuplicates(u).cols[j].name)
  {
    DropDuplicatesKeepsComplete(u);
  }

  /** When stages 2-4 leave the output of stage 1 alone, the pipeline is stage 1. */
  lemma QuietLaterStages(u: Table)
    requires WellFormed(u)
    requires LaterStages(DropDuplicates(u)).table == DropDuplicates(u)
    requires LaterStages(DropDuplicates(u)).log == []
    ensures ApplyCleaningSuggestions(u).table == DropDuplicates(u)
    ensures ApplyCleaningSuggestions(u).log == DedupStage(u).log
  {
  }

  /** On a table without missing cells and with names in normal form the pipeline
      is stage 1. */
  lemma CleanTableOnlyDeduplicates(u: Table)
    requires WellFormed(u) && NoMissing(u)
    requires forall j :: 0 <= j < |u.cols| ==> IsSnakeCase(u.cols[j].name)
    ensures ApplyCleaningSuggestions(u).table == DropDuplicates(u)
    ensures ApplyCleaningSuggestions(u).log == DedupStage(u).log
  {
    DedupKeepsCleanTable(u);
    LaterStagesKeepCleanTable(DropDuplicates(u));
    QuietLaterStages(u);
  }

  /** Cleaning an auto-cleaned table again can only drop duplicate rows, and it logs
      exactly when the cleaned table has a repeated row. Renaming can give two columns
      one name (`Age` and `age`); pandas then hands the fill loop a frame for that
      name and `if nulls > 0` raises, so the claim is made for distinct names only. */
  lemma SecondRunOnlyDeduplicates(t: Table)
    requires WellFormed(t) && UniqueNames(ApplyCleaningSuggestions(t).table)
    ensures ApplyCleaningSuggestions(ApplyCleaningSuggestions(t).table).table ==
              DropDuplicates(ApplyCleaningSuggestions(t).table)
    ensures ApplyCleaningSuggestions(ApplyCleaningSuggestions(t).table).log ==
              DedupStage(ApplyCleaningSuggestions(t).table).log
    ensures var u := ApplyCleaningSuggestions(t).table;
            ApplyCleaningSuggestions(u).log != [] <==> |u.cols| > 0 && !NoDuplicates(Rows(u))
  {
    var u := ApplyCleaningSuggestions(t).table;
    CleanedHasNoMissing(t);
    CleanedNamesAreSnakeCase(t);
    CleanTableOnlyDeduplicates(u);
    DedupLoggedIff(u);
  }

  /** A one-column table `[x, missing]` under a name in normal form. */
  function SampleTable(name: string, x: real): Table {
    Table([Column(name, true, [Some(Num(x)), None])], 2)
  }

  /** The sample after its missing cell is filled with the mean `x`. */
  function SampleFilled(name: string, x: real): Table {
    Table([Column(name, true, [Some(Num(x)), Some(Num(x))])], 2)
  }

  /** The present values of the sample's column. */
  lemma SamplePresent(name: string, x: real)
    ensures Present(SampleTable(name, x).cols[0].cells) == [Num(x)]
    ensures ColumnNumbers(SampleTable(name, x).cols[0]) == [x]
  {
    assert SampleTable(name, x).cols[0].cells[..1] == [Some(Num(x))];
  }

  /** Stage 1 leaves the sample alone: its two rows differ. */
  lemma SampleKeepsRows(name: string, x: real)
    ensures DropDuplicates(SampleTable(name, x)) == SampleTable(name, x)
  {
    var t := SampleTable(name, x);
    var rows := Rows(t);
    assert rows[0][0] == Some(Num(x)) && rows[1][0] == None;
    DropDuplicatesOfDistinct(t);
  }

  /** Stage 2 leaves the sample alone: its column has half of its cells. */
  lemma SampleKeepsColumn(name: string, x: real)
    ensures DropSparseColumns(SampleTable(name, x)) == SampleTable(name, x)
  {
    var t := SampleTable(name, x);
    SamplePresent(name, x);
    assert KeepMask(t)[0];
    SelectAll(t.cols, KeepMask(t));
  }

  /** Stage 3 fills the sample's missing cell with the mean `x`. */
  lemma SampleFill(name: string, x: real)
    ensures FillStage(SampleTable(name, x)).table == SampleFilled(name, x)
  {
    SamplePresent(name, x);
    assert Sum([x]) == x;
    assert FillStage(SampleTable(name, x)).table.cols[0].cells == [Some(Num(x)), Some(Num(x))];
  }

  /** The filled sample has no missing cell and its name is in normal form. */
  lemma SampleFilledIsClean(name: string, x: real)
    requires IsSnakeCase(name)
    ensures WellFormed(SampleFilled(name, x)) && NoMissing(SampleFilled(name, x))
    ensures forall j :: 0 <= j < |SampleFilled(name, x).cols| ==> IsSnakeCase(SampleFilled(name, x).cols[j].name)
  {
  }

  /** The pipeline's table, given the outputs of stages 1-3, when their names are
      already in normal form. */
  lemma PipelineOfNormalFill(t: Table, d: Table, p: Table, f: Table)
    requires WellFormed(t) && DropDuplicates(t) == d
    requires WellFormed(d) && DropSparseColumns(d) == p
    requires WellFormed(p) && FillValuesExist(p) && FillStage(p).table == f
    requires forall j :: 0 <= j < |f.cols| ==> IsSnakeCase(f.cols[j].name)
    ensures ApplyCleaningSuggestions(t).table == f
  {
    FillStageKeepsShape(p);
    RenameKeepsNormalTable(f);
  }

  /** The first run fills the missing cell with the mean and renames nothing. */
  lemma SampleFirstRun(name: string, x: real)
    requires IsSnakeCase(name)
    ensures ApplyCleaningSuggestions(SampleTable(name, x)).table == SampleFilled(name, x)
  {
    var t := SampleTable(name, x);
    SampleKeepsRows(name, x);
    SampleKeepsColumn(name, x);
    SparseLeavesFillValues(t);
    SampleFill(name, x);
    SampleFilledIsClean(name, x);
    PipelineOfNormalFill(t, t, t, SampleFilled(name, x));
  }

  /** After the fill the sample's two rows are equal: `duplicated()` flags the second,
      so stage 1 keeps one row. */
  lemma SampleFilledRepeats(name: string, x: real)
    ensures Duplicated(Rows(SampleFilled(name, x))) == [false, true]
    ensures DropDuplicates(SampleFilled(name, x)).height == 1
  {
    var u := SampleFilled(name, x);
    var r := Rows(u);
    assert r[0] == r[1];
    assert r[..1] == [r[0]];
    assert CountTrue([false, true]) == 1 by {
      assert [false, true][..1] == [false];
    }
    DropDuplicatesKeepsFirst(u);
  }

  /** A run on the filled sample keeps one row. */
  lemma SampleSecondRunTable(name: string, x: real)
    requires IsSnakeCase(name)
    ensures ApplyCleaningSuggestions(SampleFilled(name, x)).table.height == 1
  {
    SampleFilledIsClean(name, x);
    CleanTableOnlyDeduplicates(SampleFilled(name, x));
    SampleFilledRepeats(name, x);
  }

  /** A run on the filled sample logs the one removed row. */
  lemma SampleSecondRunLog(name: string, x: real)
    requires IsSnakeCase(name)
    ensures ApplyCleaningSuggestions(SampleFilled(name, x)).log == [RemovedDuplicates(1)]
  {
    SampleFilledIsClean(name, x);
    CleanTableOnlyDeduplicates(SampleFilled(name, x));
    SampleFilledRepeats(name, x);
  }
}
