/** Decoded sparse rows and the cell-level view the transposer reasons about.
    A row pairs a row id with its (column id, packed value) entries in stored
    order; the packed value is the 16-bit quantised code, never interpreted. */
module SparseRows {
  import opened JavaTypes

  /** One stored cell of a row: column id and packed (quantised) value. */
  datatype Entry = Entry(col: int, val: Int16)

  /** A sparse row: `getRowIndex()` and the parallel `getColIndex(i)` /
      `getPackedColValue(i)` sequences, zipped. */
  datatype Row = Row(id: int, entries: seq<Entry>)

  /** A matrix as the transposer sees it: the rows in stored (row-id table) order. */
  type Matrix = seq<Row>

  /** A cell with its row made explicit. */
  datatype Cell = Cell(row: int, col: int, val: Int16)

  function RowCells(r: Row): (cs: seq<Cell>)
    ensures |cs| == |r.entries|
    ensures forall i :: 0 <= i < |cs| ==> cs[i] == Cell(r.id, r.entries[i].col, r.entries[i].val)
  {
    seq(|r.entries|, i requires 0 <= i < |r.entries| => Cell(r.id, r.entries[i].col, r.entries[i].val))
  }

  /** Every cell of the matrix in scan order: rows in order, then entries in order. */
  function Cells(m: Matrix): seq<Cell>
  {
    if |m| == 0 then [] else Cells(m[..|m| - 1]) + RowCells(m[|m| - 1])
  }

  /** The cell that `(r, c, v)` becomes in the transpose. */
  function Flip(x: Cell): Cell {
    Cell(x.col, x.row, x.val)
  }

  /** The column ids that occur anywhere in `cells`. */
  function ColumnSet(cells: seq<Cell>): set<int> {
    set i | 0 <= i < |cells| :: cells[i].col
  }

  /** The entries column `c` receives in the transpose: one `(row, value)`
      per cell of column `c`, in scan order. */
  function ColumnEntries(cells: seq<Cell>, c: int): seq<Entry>
  {
    if |cells| == 0 then []
    else
      var x := cells[|cells| - 1];
      ColumnEntries(cells[..|cells| - 1], c) + (if x.col == c then [Entry(x.row, x.val)] else [])
  }

  /** The flipped cells whose column lies in `s`, in scan order. */
  function FlippedIn(cells: seq<Cell>, s: set<int>): seq<Cell>
  {
    if |cells| == 0 then []
    else
      var x := cells[|cells| - 1];
      FlippedIn(cells[..|cells| - 1], s) + (if x.col in s then [Flip(x)] else [])
  }

  function Ids(rows: seq<Row>): (ids: seq<int>)
    ensures |ids| == |rows|
    ensures forall i :: 0 <= i < |rows| ==> ids[i] == rows[i].id
  {
    seq(|rows|, i requires 0 <= i < |rows| => rows[i].id)
  }

  predicate Distinct(s: seq<int>) {
    forall i, j :: 0 <= i < j < |s| ==> s[i] != s[j]
  }

  /** The total number of cells. */
  function CellCount(m: Matrix): nat {
    |Cells(m)|
  }

  // ---------------------------------------------------------------------
  // Facts about the cell view

  lemma {:induction false} CellsAppend(a: Matrix, b: Matrix)
    ensures Cells(a + b) == Cells(a) + Cells(b)
    decreases |b|
  {
    if |b| == 0 {
      assert a + b == a;
    } else {
      var b' := b[..|b| - 1];
      assert (a + b)[..|a + b| - 1] == a + b';
      assert (a + b)[|a + b| - 1] == b[|b| - 1];
      CellsAppend(a, b');
      assert b'+[b[|b|-1]] == b;
    }
  }

  lemma CellsSingle(r: Row)
    ensures Cells([r]) == RowCells(r)
  {
    assert [r][..0] == [];
  }

  lemma {:induction false} ColumnSetPrefix(cells: seq<Cell>)
    requires |cells| > 0
    ensures ColumnSet(cells) == ColumnSet(cells[..|cells| - 1]) + {cells[|cells| - 1].col}
  {
    var p := cells[..|cells| - 1];
    forall c | c in ColumnSet(cells)
      ensures c in ColumnSet(p) + {cells[|cells| - 1].col}
    {
      var i :| 0 <= i < |cells| && cells[i].col == c;
      if i < |cells| - 1 {
        assert p[i] == cells[i];
      }
    }
    forall c | c in ColumnSet(p)
      ensures c in ColumnSet(cells)
    {
      var i :| 0 <= i < |p| && p[i].col == c;
      assert cells[i] == p[i];
    }
  }

  /** A column that never occurs receives no entries. */
  lemma {:induction false} ColumnEntriesAbsent(cells: seq<Cell>, c: int)
    requires c !in ColumnSet(cells)
    ensures ColumnEntries(cells, c) == []
    decreases |cells|
  {
    if |cells| > 0 {
      ColumnSetPrefix(cells);
      ColumnEntriesAbsent(cells[..|cells| - 1], c);
    }
  }

  /** A column that occurs receives at least one entry. */
  lemma {:induction false} ColumnEntriesPresent(cells: seq<Cell>, c: int)
    requires c in ColumnSet(cells)
    ensures |ColumnEntries(cells, c)| > 0
    decreases |cells|
  {
    ColumnSetPrefix(cells);
    var p := cells[..|cells| - 1];
    if cells[|cells| - 1].col != c {
      ColumnEntriesPresent(p, c);
    }
  }

  /** Filtering on a disjoint union splits the flipped cells in two. */
  lemma {:induction false} FlippedInUnion(cells: seq<Cell>, a: set<int>, b: set<int>)
    requires a !! b
    ensures multiset(FlippedIn(cells, a + b)) == multiset(FlippedIn(cells, a)) + multiset(FlippedIn(cells, b))
    decreases |cells|
  {
    if |cells| > 0 {
      FlippedInUnion(cells[..|cells| - 1], a, b);
    }
  }

  lemma {:induction false} FlippedInEmpty(cells: seq<Cell>)
    ensures FlippedIn(cells, {}) == []
    decreases |cells|
  {
    if |cells| > 0 {
      FlippedInEmpty(cells[..|cells| - 1]);
    }
  }

  /** Filtering on a superset of the occurring columns keeps every cell. */
  lemma {:induction false} FlippedInAll(cells: seq<Cell>, s: set<int>)
    requires ColumnSet(cells) <= s
    ensures |FlippedIn(cells, s)| == |cells|
    ensures forall i :: 0 <= i < |cells| ==> FlippedIn(cells, s)[i] == Flip(cells[i])
    decreases |cells|
  {
    if |cells| > 0 {
      ColumnSetPrefix(cells);
      FlippedInAll(cells[..|cells| - 1], s);
    }
  }

  /** The cells of a sequence of rows, row `i` replaced by a copy with one more
      entry, are the old cells plus the new one. */
  lemma {:induction false} CellsAppendEntry(rows: seq<Row>, i: nat, e: Entry)
    requires i < |rows|
    ensures multiset(Cells(rows[i := Row(rows[i].id, rows[i].entries + [e])]))
         == multiset(Cells(rows)) + multiset{Cell(rows[i].id, e.col, e.val)}
    decreases |rows|
  {
    var cell := Cell(rows[i].id, e.col, e.val);
    var rows' := rows[i := Row(rows[i].id, rows[i].entries + [e])];
    var n := |rows|;
    var pre, pre' := rows[..n - 1], rows'[..n - 1];
    assert Cells(rows') == Cells(pre') + RowCells(rows'[n - 1]);
    assert Cells(rows) == Cells(pre) + RowCells(rows[n - 1]);
    if i == n - 1 {
      assert pre' == pre;
      RowCellsAppend(rows[n - 1], e);
      assert multiset(RowCells(rows'[n - 1])) == multiset(RowCells(rows[n - 1])) + multiset{cell};
    } else {
      assert pre[i] == rows[i];
      assert pre' == pre[i := Row(pre[i].id, pre[i].entries + [e])];
      assert rows'[n - 1] == rows[n - 1];
      CellsAppendEntry(pre, i, e);
      assert multiset(Cells(pre')) == multiset(Cells(pre)) + multiset{cell};
    }
  }

  lemma RowCellsAppend(r: Row, e: Entry)
    ensures RowCells(Row(r.id, r.entries + [e])) == RowCells(r) + [Cell(r.id, e.col, e.val)]
  {
  }
}
