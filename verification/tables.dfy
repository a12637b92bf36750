/** The in-memory table the cleaning engine works on: a pandas DataFrame reduced to
    named columns, a per-column numeric flag and cells that may be missing. */
module Tables {
  import opened Values
  import opened Seqs

  /** A named column; pandas' dtype is reduced to whether the column is numeric. */
  datatype Column = Column(name: string, numeric: bool, cells: seq<Cell>)

  /** A table in column-major form. `height` is the row count, which pandas keeps
      even for a table without columns. */
  datatype Table = Table(cols: seq<Column>, height: nat)

  /** Every present cell of a numeric column holds a number. */
  predicate NumericCells(c: Column) {
    c.numeric ==> forall i :: 0 <= i < |c.cells| && c.cells[i].Some? ==> c.cells[i].value.Num?
  }

  /** All columns are as long as the table is high, and numeric columns hold numbers. */
  predicate WellFormed(t: Table) {
    forall j :: 0 <= j < |t.cols| ==> |t.cols[j].cells| == t.height && NumericCells(t.cols[j])
  }

  /** No two columns share a name (a table read from a CSV file has this property). */
  ghost predicate UniqueNames(t: Table) {
    forall j, k :: 0 <= j < k < |t.cols| ==> t.cols[j].name != t.cols[k].name
  }

  /** The column names in order (pandas' `df.columns`). */
  function Names(t: Table): seq<string> {
    seq(|t.cols|, j requires 0 <= j < |t.cols| => t.cols[j].name)
  }

  /** The column names as a set (Python's `set(df.columns)`). */
  function NameSet(t: Table): set<string> {
    set j | 0 <= j < |t.cols| :: t.cols[j].name
  }

  /** Number of missing cells (pandas' `isnull().sum()`). */
  function NullCount(cells: seq<Cell>): (n: nat)
    ensures n <= |cells|
    ensures n == 0 <==> (forall i :: 0 <= i < |cells| ==> cells[i].Some?)
    ensures n == |cells| <==> (forall i :: 0 <= i < |cells| ==> cells[i].None?)
  {
    if |cells| == 0 then 0
    else NullCount(cells[..|cells| - 1]) + (if cells[|cells| - 1].None? then 1 else 0)
  }

  /** The present values in order (pandas' `dropna()` on one column). */
  function Present(cells: seq<Cell>): (vs: seq<Value>)
    ensures |vs| + NullCount(cells) == |cells|
    ensures forall v :: v in vs <==> Some(v) in cells
  {
    if |cells| == 0 then []
    else
      var p := Present(cells[..|cells| - 1]);
      assert cells == cells[..|cells| - 1] + [cells[|cells| - 1]];
      match cells[|cells| - 1]
      case None => p
      case Some(v) => p + [v]
  }

  /** Which cells hold a value. */
  function PresentMask(cells: seq<Cell>): (m: seq<bool>)
    ensures |m| == |cells|
    ensures forall i :: 0 <= i < |cells| ==> (m[i] <==> cells[i].Some?)
  {
    seq(|cells|, i requires 0 <= i < |cells| => cells[i].Some?)
  }

  /** `dropna()` keeps the value of every present cell, once per cell and in order:
      entry `k` is the value of the `k`-th present cell. */
  lemma {:induction false} PresentInOrder(cells: seq<Cell>)
    ensures |Present(cells)| == |IndicesWhere(PresentMask(cells))|
    ensures forall k :: 0 <= k < |Present(cells)| ==>
              Some(Present(cells)[k]) == cells[IndicesWhere(PresentMask(cells))[k]]
  {
    if |cells| > 0 {
      var n := |cells| - 1;
      var p := cells[..n];
      assert PresentMask(cells)[..n] == PresentMask(p);
      PresentInOrder(p);
      var ip := IndicesWhere(PresentMask(p));
      var idx := IndicesWhere(PresentMask(cells));
      var vs := Present(cells);
      if cells[n].Some? {
        assert idx == ip + [n] && vs == Present(p) + [cells[n].value];
        forall k | 0 <= k < |vs| ensures Some(vs[k]) == cells[idx[k]] {
          if k < |ip| {
            assert ip[k] < n && idx[k] == ip[k] && vs[k] == Present(p)[k];
            assert Some(Present(p)[k]) == p[ip[k]];
          }
        }
      } else {
        assert idx == ip && vs == Present(p);
        forall k | 0 <= k < |vs| ensures Some(vs[k]) == cells[idx[k]] {
          assert ip[k] < n;
          assert Some(Present(p)[k]) == p[ip[k]];
        }
      }
    }
  }

  /** Which values are numbers. */
  function NumberMask(vals: seq<Value>): (m: seq<bool>)
    ensures |m| == |vals|
    ensures forall i :: 0 <= i < |vals| ==> (m[i] <==> vals[i].Num?)
  {
    seq(|vals|, i requires 0 <= i < |vals| => vals[i].Num?)
  }

  /** The numbers among some values, in order. */
  function Numbers(vals: seq<Value>): (xs: seq<real>)
    ensures |xs| <= |vals|
    ensures (forall k :: 0 <= k < |vals| ==> vals[k].Num?) ==> |xs| == |vals|
    ensures forall x :: x in xs <==> Num(x) in vals
  {
    if |vals| == 0 then []
    else
      var p := Numbers(vals[..|vals| - 1]);
      assert vals == vals[..|vals| - 1] + [vals[|vals| - 1]];
      match vals[|vals| - 1]
      case Num(x) => p + [x]
      case Str(_) => p
  }

  /** Every number is kept once and in order: entry `k` is the `k`-th number. */
  lemma {:induction false} NumbersInOrder(vals: seq<Value>)
    ensures |Numbers(vals)| == |IndicesWhere(NumberMask(vals))|
    ensures forall k :: 0 <= k < |Numbers(vals)| ==>
              Num(Numbers(vals)[k]) == vals[IndicesWhere(NumberMask(vals))[k]]
  {
    if |vals| > 0 {
      var n := |vals| - 1;
      var p := vals[..n];
      assert NumberMask(vals)[..n] == NumberMask(p);
      NumbersInOrder(p);
      var ip := IndicesWhere(NumberMask(p));
      var idx := IndicesWhere(NumberMask(vals));
      var xs := Numbers(vals);
      if vals[n].Num? {
        assert idx == ip + [n] && xs == Numbers(p) + [vals[n].x];
        forall k | 0 <= k < |xs| ensures Num(xs[k]) == vals[idx[k]] {
          if k < |ip| {
            assert ip[k] < n && idx[k] == ip[k] && xs[k] == Numbers(p)[k];
            assert Num(Numbers(p)[k]) == p[ip[k]];
          }
        }
      } else {
        assert idx == ip && xs == Numbers(p);
        forall k | 0 <= k < |xs| ensures Num(xs[k]) == vals[idx[k]] {
          assert ip[k] < n;
          assert Num(Numbers(p)[k]) == p[ip[k]];
        }
      }
    }
  }

  /** The present numbers of a column, the data pandas' column statistics use. */
  function ColumnNumbers(c: Column): seq<real> {
    Numbers(Present(c.cells))
  }

  /** In a numeric column every present value is a number. */
  lemma NumericColumnNumbers(c: Column)
    requires c.numeric && NumericCells(c)
    ensures |ColumnNumbers(c)| == |Present(c.cells)|
  {
    var vs := Present(c.cells);
    forall k | 0 <= k < |vs| ensures vs[k].Num? {
      assert vs[k] in vs;
      assert Some(vs[k]) in c.cells;
    }
  }

  /** Row `i` of the table, one cell per column. */
  function Row(t: Table, i: nat): seq<Cell>
    requires WellFormed(t) && i < t.height
  {
    seq(|t.cols|, j requires 0 <= j < |t.cols| => t.cols[j].cells[i])
  }

  /** All rows of the table, in order. */
  function Rows(t: Table): seq<seq<Cell>>
    requires WellFormed(t)
  {
    seq(t.height, i requires 0 <= i < t.height => Row(t, i))
  }

  /** The table restricted to the rows at the given positions (pandas' `iloc[idx]`). */
  function SelectRows(t: Table, idx: seq<nat>): (r: Table)
    requires WellFormed(t) && InRange(idx, t.height)
    ensures WellFormed(r)
    ensures r.height == |idx| && |r.cols| == |t.cols|
    ensures forall j :: 0 <= j < |t.cols| ==>
              r.cols[j].name == t.cols[j].name && r.cols[j].numeric == t.cols[j].numeric
    ensures forall j :: 0 <= j < |t.cols| ==> r.cols[j].cells == Select(t.cols[j].cells, idx)
  {
    Table(seq(|t.cols|, j requires 0 <= j < |t.cols| =>
                t.cols[j].(cells := Select(t.cols[j].cells, idx))), |idx|)
  }

  /** Row `k` of the selection is row `idx[k]` of the table. */
  lemma SelectRowsRows(t: Table, idx: seq<nat>)
    requires WellFormed(t) && InRange(idx, t.height)
    ensures Rows(SelectRows(t, idx)) == Select(Rows(t), idx)
  {
    var r := SelectRows(t, idx);
    forall k | 0 <= k < |idx| ensures Rows(r)[k] == Select(Rows(t), idx)[k] {
      assert Row(r, k) == Row(t, idx[k]);
    }
  }

  /** Selecting rows of a table without missing cells gives one without missing cells. */
  lemma SelectRowsComplete(t: Table, idx: seq<nat>)
    requires WellFormed(t) && InRange(idx, t.height) && NoMissing(t)
    ensures NoMissing(SelectRows(t, idx))
  {
    var r := SelectRows(t, idx);
    forall j | 0 <= j < |r.cols| ensures NullCount(r.cols[j].cells) == 0 {
      assert forall k :: 0 <= k < |idx| ==> r.cols[j].cells[k] == t.cols[j].cells[idx[k]];
    }
  }

  /** No cell of the table is missing. */
  predicate NoMissing(t: Table) {
    forall j :: 0 <= j < |t.cols| ==> NullCount(t.cols[j].cells) == 0
  }
}
