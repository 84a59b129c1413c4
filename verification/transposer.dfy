/** The out-of-core transposer: a counting pass, then repeated batches, each
    batch a greedy run of the sorted column ids under a byte budget, filled by
    one scan of the source rows and checked against the counts. */
module SparseMatrixTransposer {
  import opened JavaTypes
  import opened SparseRows

  // ---------------------------------------------------------------------
  // Counting pass (countCellsPerColumn)

  /** `colCounts`: the number of cells per column id, built by one scan.
      A column repeated within one row is counted once per occurrence. */
  function CountCells(cells: seq<Cell>): (counts: map<int, int>)
  {
    if |cells| == 0 then map[]
    else
      var counts := CountCells(cells[..|cells| - 1]);
      var c := cells[|cells| - 1].col;
      counts[c := if c in counts then counts[c] + 1 else 1]
  }

  /** `TIntIntHashMap.get`, which answers 0 for an absent key. */
  function Get(counts: map<int, int>, c: int): int {
    if c in counts then counts[c] else 0
  }

  lemma {:induction false} CountCellsSpec(cells: seq<Cell>)
    ensures CountCells(cells).Keys == ColumnSet(cells)
    ensures forall c :: c in CountCells(cells) ==> CountCells(cells)[c] == |ColumnEntries(cells, c)|
    decreases |cells|
  {
    if |cells| > 0 {
      var p := cells[..|cells| - 1];
      CountCellsSpec(p);
      ColumnSetPrefix(cells);
      var c := cells[|cells| - 1].col;
      if c !in CountCells(p) {
        ColumnEntriesAbsent(p, c);
      }
    }
  }

  /** The keys of `colCounts`, each once (the hash map's own order is
      irrelevant: they are sorted next). */
  function DistinctColumns(cells: seq<Cell>): (cols: seq<int>)
    ensures Distinct(cols)
    ensures forall c :: c in cols <==> c in ColumnSet(cells)
  {
    if |cells| == 0 then []
    else
      var cols := DistinctColumns(cells[..|cells| - 1]);
      var c := cells[|cells| - 1].col;
      ColumnSetPrefix(cells);
      if c in cols then cols else cols + [c]
  }

  predicate StrictlyIncreasing(s: seq<int>) {
    forall i, j :: 0 <= i < j < |s| ==> s[i] < s[j]
  }

  function Insert(x: int, s: seq<int>): (r: seq<int>)
    requires StrictlyIncreasing(s)
    requires x !in s
    ensures StrictlyIncreasing(r)
    ensures |r| == |s| + 1
    ensures forall y :: y in r <==> y == x || y in s
  {
    if |s| == 0 then [x]
    else if x < s[0] then [x] + s
    else
      var rest := Insert(x, s[1..]);
      assert forall k | 0 <= k < |rest| :: rest[k] in rest;
      [s[0]] + rest
  }

  /** `Arrays.sort` applied to the distinct keys. */
  function SortAscending(s: seq<int>): (r: seq<int>)
    requires Distinct(s)
    ensures StrictlyIncreasing(r)
    ensures |r| == |s|
    ensures forall y :: y in r <==> y in s
  {
    if |s| == 0 then []
    else Insert(s[|s| - 1], SortAscending(s[..|s| - 1]))
  }

  /** `colIds`: every column id that occurs, once, in ascending order. */
  function ColIds(cells: seq<Cell>): (ids: seq<int>)
    ensures StrictlyIncreasing(ids)
    ensures Distinct(ids)
    ensures forall c :: c in ids <==> c in ColumnSet(cells)
  {
    SortAscending(DistinctColumns(cells))
  }

  // ---------------------------------------------------------------------
  // Batch selection (the first loop of accumulateBatch)

  const BYTES_PER_OBJECT: int := 40
  const BYTES_PER_MB: int := 1024 * 1024

  /** `bufferMb` and `BYTES_PER_REF` (the width of an object reference in bytes, a
      configuration value here rather than a JVM property). */
  datatype Config = Config(bufferMb: Int32, bytesPerRef: Int32)

  /** The budget in bytes. The source compares megabyte doubles
      `mbs + rowMbs > bufferMb`; every term is a whole number of bytes over
      2^20, so the comparison is the same as this one on bytes. */
  function BudgetBytes(cfg: Config): int {
    cfg.bufferMb * BYTES_PER_MB
  }

  /** `getSizeInMbOfRowDataStructure` in bytes, computed in Java `int`
      arithmetic before the division by 2^20. */
  function RowStructureBytes(numEntries: int, bytesPerRef: Int32): Int32 {
    Wrap32(BYTES_PER_OBJECT + 4 + 2 * bytesPerRef + numEntries * (4 + 2))
  }

  /** The estimate grows strictly with the entry count as long as the `int`
      arithmetic does not overflow. */
  lemma RowStructureBytesIncreasing(n1: int, n2: int, bytesPerRef: Int32)
    requires 0 <= n1 < n2
    requires 0 <= bytesPerRef
    requires BYTES_PER_OBJECT + 4 + 2 * bytesPerRef + n2 * 6 <= INT32_MAX
    ensures RowStructureBytes(n1, bytesPerRef) < RowStructureBytes(n2, bytesPerRef)
    ensures RowStructureBytes(n2, bytesPerRef) - RowStructureBytes(n1, bytesPerRef) == 6 * (n2 - n1)
  {
  }

  function Estimate(colIds: seq<int>, counts: map<int, int>, cfg: Config, i: nat): int
    requires i < |colIds|
  {
    RowStructureBytes(Get(counts, colIds[i]), cfg.bytesPerRef)
  }

  /** The summed estimates of `colIds[from..to]`. */
  function SpanBytes(colIds: seq<int>, counts: map<int, int>, cfg: Config, from: nat, to: nat): int
    requires from <= to <= |colIds|
    decreases (to as int) - (from as int)
  {
    if from == to then 0 else Estimate(colIds, counts, cfg, from) + SpanBytes(colIds, counts, cfg, from + 1, to)
  }

  /** The greedy loop: starting at `from` with `used` bytes already taken,
      add columns until the next one would push the total past the budget. */
  function BatchEnd(colIds: seq<int>, counts: map<int, int>, cfg: Config, from: nat, used: int): (end: nat)
    requires from <= |colIds|
    ensures from <= end <= |colIds|
    ensures forall k :: from < k <= end ==> used + SpanBytes(colIds, counts, cfg, from, k) <= BudgetBytes(cfg)
    ensures end < |colIds| ==> used + SpanBytes(colIds, counts, cfg, from, end + 1) > BudgetBytes(cfg)
    decreases |colIds| - from
  {
    if from == |colIds| then from
    else
      var rowBytes := Estimate(colIds, counts, cfg, from);
      if used + rowBytes > BudgetBytes(cfg) then from
      else BatchEnd(colIds, counts, cfg, from + 1, used + rowBytes)
  }

  function SetOf(s: seq<int>): set<int> {
    set x | x in s
  }

  /** `colIdsInBatch`. */
  function BatchColumns(colIds: seq<int>, from: nat, to: nat): set<int>
    requires from <= to <= |colIds|
  {
    SetOf(colIds[from..to])
  }

  lemma {:induction false} DistinctSetSize(s: seq<int>)
    requires Distinct(s)
    ensures |SetOf(s)| == |s|
    decreases |s|
  {
    if |s| > 0 {
      var p := s[..|s| - 1];
      DistinctSetSize(p);
      assert SetOf(s) == SetOf(p) + {s[|s| - 1]};
    }
  }

  /** `numColsTransposed += colIdsInBatch.size()` advances by exactly the
      number of columns the greedy loop took, because the ids are distinct. */
  lemma BatchSize(colIds: seq<int>, from: nat, to: nat)
    requires from <= to <= |colIds|
    requires Distinct(colIds)
    ensures |BatchColumns(colIds, from, to)| == to - from
  {
    DistinctSetSize(colIds[from..to]);
  }

  /** Every column's estimate fits the budget on its own. Without this the
      transpose loop does not terminate (see `OversizedColumnStalls`). */
  predicate AllColumnsFit(cells: seq<Cell>, cfg: Config) {
    forall c :: c in CountCells(cells) ==> RowStructureBytes(CountCells(cells)[c], cfg.bytesPerRef) <= BudgetBytes(cfg)
  }

  /** When the first remaining column fits, a batch takes at least one column. */
  lemma BatchProgress(colIds: seq<int>, counts: map<int, int>, cfg: Config, from: nat)
    requires from < |colIds|
    requires Estimate(colIds, counts, cfg, from) <= BudgetBytes(cfg)
    ensures BatchEnd(colIds, counts, cfg, from, 0) > from
  {
    assert SpanBytes(colIds, counts, cfg, from, from + 1) == Estimate(colIds, counts, cfg, from);
  }

  /** With non-negative estimates, no batch starting at or before a column
      whose estimate exceeds the budget ever gets past it: the cursor stops
      there, every later batch is empty, and the loop never ends. */
  lemma {:induction false} OversizedColumnStalls(colIds: seq<int>, counts: map<int, int>, cfg: Config, from: nat, used: int, p: nat)
    requires from <= p < |colIds|
    requires used >= 0
    requires forall i :: 0 <= i < |colIds| ==> Estimate(colIds, counts, cfg, i) >= 0
    requires Estimate(colIds, counts, cfg, p) > BudgetBytes(cfg)
    ensures BatchEnd(colIds, counts, cfg, from, used) <= p
    decreases |colIds| - from
  {
    var rowBytes := Estimate(colIds, counts, cfg, from);
    if from < p && used + rowBytes <= BudgetBytes(cfg) {
      OversizedColumnStalls(colIds, counts, cfg, from + 1, used + rowBytes, p);
    }
  }

  // ---------------------------------------------------------------------
  // Accumulation (the scan of accumulateBatch) and the size check

  /** `RowAccumulator`: the transposed row under construction for column `id`;
      each entry is a source row id with the packed value copied unchanged. */
  datatype RowAccumulator = RowAccumulator(id: int, entries: seq<Entry>) {
    function AddCol(rowId: int, val: Int16): RowAccumulator {
      RowAccumulator(id, entries + [Entry(rowId, val)])
    }
    function Size(): nat {
      |entries|
    }
    function ToRow(): Row {
      Row(id, entries)
    }
  }

  function AccRows(accs: seq<RowAccumulator>): (rows: seq<Row>)
    ensures |rows| == |accs|
    ensures forall i :: 0 <= i < |accs| ==> rows[i] == accs[i].ToRow()
  {
    seq(|accs|, i requires 0 <= i < |accs| => accs[i].ToRow())
  }

  /** `transposedBatch.containsKey` / `get`: where column `c`'s accumulator sits. */
  function IndexOfId(accs: seq<RowAccumulator>, c: int): (r: Option<nat>)
    ensures r.Some? ==> r.value < |accs| && accs[r.value].id == c
    ensures r.None? ==> forall i :: 0 <= i < |accs| ==> accs[i].id != c
  {
    if |accs| == 0 then None
    else if accs[0].id == c then Some(0)
    else match IndexOfId(accs[1..], c)
      case None => None
      case Some(k) => Some(k + 1)
  }

  /** The `LinkedHashMap` after scanning `cells`: one accumulator per batch
      column met, in first-encounter order; every cell of a batch column is
      appended to its column's accumulator. */
  function Scan(cells: seq<Cell>, batch: set<int>): seq<RowAccumulator>
  {
    if |cells| == 0 then []
    else
      var accs := Scan(cells[..|cells| - 1], batch);
      var x := cells[|cells| - 1];
      if x.col !in batch then accs
      else match IndexOfId(accs, x.col)
        case Some(i) => accs[i := accs[i].AddCol(x.row, x.val)]
        case None => accs + [RowAccumulator(x.col, []).AddCol(x.row, x.val)]
  }

  function IdSet(rows: seq<Row>): set<int> {
    set i | 0 <= i < |rows| :: rows[i].id
  }

  function AccIdSet(accs: seq<RowAccumulator>): set<int> {
    set i | 0 <= i < |accs| :: accs[i].id
  }

  predicate DistinctIds(accs: seq<RowAccumulator>) {
    forall i, j :: 0 <= i < j < |accs| ==> accs[i].id != accs[j].id
  }

  /** One accumulator per batch column met, none twice. */
  lemma {:induction false} ScanIds(cells: seq<Cell>, batch: set<int>)
    ensures DistinctIds(Scan(cells, batch))
    ensures AccIdSet(Scan(cells, batch)) == batch * ColumnSet(cells)
    decreases |cells|
  {
    if |cells| > 0 {
      var p := cells[..|cells| - 1];
      var x := cells[|cells| - 1];
      var prev := Scan(p, batch);
      ScanIds(p, batch);
      ColumnSetPrefix(cells);
      var accs := Scan(cells, batch);
      if x.col in batch {
        match IndexOfId(prev, x.col)
        case Some(i) =>
          assert forall k :: 0 <= k < |accs| ==> accs[k].id == prev[k].id;
          assert AccIdSet(accs) == AccIdSet(prev);
        case None =>
          assert forall k :: 0 <= k < |prev| ==> accs[k] == prev[k];
          assert accs[|prev|].id == x.col;
          assert AccIdSet(accs) == AccIdSet(prev) + {x.col};
      }
    }
  }

  /** Each accumulator holds its column's cells, in scan order, values copied. */
  lemma {:induction false} ScanEntries(cells: seq<Cell>, batch: set<int>)
    ensures forall i :: 0 <= i < |Scan(cells, batch)| ==>
              Scan(cells, batch)[i].entries == ColumnEntries(cells, Scan(cells, batch)[i].id)
    decreases |cells|
  {
    if |cells| > 0 {
      var p := cells[..|cells| - 1];
      var x := cells[|cells| - 1];
      var prev := Scan(p, batch);
      ScanEntries(p, batch);
      ScanIds(p, batch);
      var accs := Scan(cells, batch);
      forall k | 0 <= k < |accs|
        ensures accs[k].entries == ColumnEntries(cells, accs[k].id)
      {
        var c := accs[k].id;
        assert ColumnEntries(cells, c) == ColumnEntries(p, c) + (if x.col == c then [Entry(x.row, x.val)] else []);
        if x.col !in batch {
          assert accs[k] == prev[k];
          assert c in AccIdSet(prev);
        } else {
          match IndexOfId(prev, x.col)
          case Some(i) =>
          case None =>
            if k == |prev| {
              assert x.col !in AccIdSet(prev);
              ColumnEntriesAbsent(p, x.col);
            }
        }
      }
    }
  }

  lemma AccRowsUpdate(accs: seq<RowAccumulator>, i: nat, a: RowAccumulator)
    requires i < |accs|
    ensures AccRows(accs[i := a]) == AccRows(accs)[i := a.ToRow()]
  {
  }

  lemma AccRowsAppend(accs: seq<RowAccumulator>, a: RowAccumulator)
    ensures AccRows(accs + [a]) == AccRows(accs) + [a.ToRow()]
  {
  }

  /** Together the accumulators hold exactly the batch's cells, flipped. */
  lemma {:induction false} ScanCells(cells: seq<Cell>, batch: set<int>)
    ensures multiset(Cells(AccRows(Scan(cells, batch)))) == multiset(FlippedIn(cells, batch))
    decreases |cells|
  {
    if |cells| > 0 {
      var p := cells[..|cells| - 1];
      var x := cells[|cells| - 1];
      var prev := Scan(p, batch);
      ScanCells(p, batch);
      if x.col in batch {
        assert FlippedIn(cells, batch) == FlippedIn(p, batch) + [Flip(x)];
        match IndexOfId(prev, x.col)
        case Some(i) =>
          assert Scan(cells, batch) == prev[i := prev[i].AddCol(x.row, x.val)];
          AddToExisting(prev, i, x);
        case None =>
          assert Scan(cells, batch) == prev + [RowAccumulator(x.col, []).AddCol(x.row, x.val)];
          AddToNew(prev, x);
      } else {
        assert FlippedIn(cells, batch) == FlippedIn(p, batch);
      }
    }
  }

  /** Appending a cell to an existing accumulator adds its flip to the cells. */
  lemma AddToExisting(accs: seq<RowAccumulator>, i: nat, x: Cell)
    requires i < |accs| && accs[i].id == x.col
    ensures multiset(Cells(AccRows(accs[i := accs[i].AddCol(x.row, x.val)])))
         == multiset(Cells(AccRows(accs))) + multiset{Flip(x)}
  {
    AccRowsUpdate(accs, i, accs[i].AddCol(x.row, x.val));
    CellsAppendEntry(AccRows(accs), i, Entry(x.row, x.val));
  }

  /** Opening a new accumulator for a cell adds its flip to the cells. */
  lemma AddToNew(accs: seq<RowAccumulator>, x: Cell)
    ensures multiset(Cells(AccRows(accs + [RowAccumulator(x.col, []).AddCol(x.row, x.val)])))
         == multiset(Cells(AccRows(accs))) + multiset{Flip(x)}
  {
    var a := RowAccumulator(x.col, []).AddCol(x.row, x.val);
    AccRowsAppend(accs, a);
    CellsAppend(AccRows(accs), [a.ToRow()]);
    CellsSingle(a.ToRow());
    assert RowCells(a.ToRow()) == [Flip(x)];
  }


  /** Where column `c` first occurs in `cells`; `|cells|` when it does not. */
  function FirstAt(cells: seq<Cell>, c: int): (k: nat)
    ensures k <= |cells|
    ensures k < |cells| ==> cells[k].col == c
    ensures forall i :: 0 <= i < k ==> cells[i].col != c
  {
    if |cells| == 0 then 0
    else
      var k := FirstAt(cells[..|cells| - 1], c);
      if k < |cells| - 1 || cells[|cells| - 1].col == c then k else |cells|
  }

  /** `rows` are in the order in which their columns first occur in `cells`. */
  ghost predicate FirstSeenOrder(cells: seq<Cell>, rows: seq<Row>) {
    forall a, b :: 0 <= a < b < |rows| ==> FirstAt(cells, rows[a].id) < FirstAt(cells, rows[b].id)
  }

  /** The `LinkedHashMap` keeps insertion order: the accumulators come in the
      order in which their columns first occur in the scan. */
  lemma {:induction false} ScanOrder(cells: seq<Cell>, batch: set<int>)
    ensures forall a :: 0 <= a < |Scan(cells, batch)| ==> FirstAt(cells, Scan(cells, batch)[a].id) < |cells|
    ensures forall a, b :: 0 <= a < b < |Scan(cells, batch)| ==>
              FirstAt(cells, Scan(cells, batch)[a].id) < FirstAt(cells, Scan(cells, batch)[b].id)
    decreases |cells|
  {
    if |cells| > 0 {
      var p := cells[..|cells| - 1];
      var x := cells[|cells| - 1];
      var prev := Scan(p, batch);
      var accs := Scan(cells, batch);
      ScanOrder(p, batch);
      forall a | 0 <= a < |prev|
        ensures FirstAt(cells, prev[a].id) == FirstAt(p, prev[a].id) < |p|
      {
      }
      if x.col in batch {
        match IndexOfId(prev, x.col)
        case Some(i) =>
          assert forall a :: 0 <= a < |accs| ==> accs[a].id == prev[a].id;
        case None =>
          ScanIds(p, batch);
          assert x.col !in AccIdSet(prev);
          assert FirstAt(p, x.col) == |p|;
          assert FirstAt(cells, x.col) == |p|;
          assert forall a :: 0 <= a < |prev| ==> accs[a] == prev[a];
          assert accs[|prev|].id == x.col;
      }
    }
  }

  /** The rows of one batch, in the order handed to the writer. */
  lemma ScanRowsOrder(cells: seq<Cell>, batch: set<int>)
    ensures FirstSeenOrder(cells, AccRows(Scan(cells, batch)))
  {
    ScanOrder(cells, batch);
  }

  /** The rows one batch scan produces, as handed to the writer. */
  lemma ScanSpec(cells: seq<Cell>, batch: set<int>)
    ensures Distinct(Ids(AccRows(Scan(cells, batch))))
    ensures IdSet(AccRows(Scan(cells, batch))) == batch * ColumnSet(cells)
    ensures forall i :: 0 <= i < |Scan(cells, batch)| ==>
              Scan(cells, batch)[i].entries == ColumnEntries(cells, Scan(cells, batch)[i].id)
    ensures multiset(Cells(AccRows(Scan(cells, batch)))) == multiset(FlippedIn(cells, batch))
    ensures FirstSeenOrder(cells, AccRows(Scan(cells, batch)))
  {
    var accs := Scan(cells, batch);
    ScanRowsOrder(cells, batch);
    ScanIds(cells, batch);
    ScanEntries(cells, batch);
    ScanCells(cells, batch);
    assert IdSet(AccRows(accs)) == AccIdSet(accs);
  }

  datatype TransposeError = RowSizeUnexpected(colId: int)

  /** The first accumulator whose size disagrees with `colCounts`, if any. */
  function FirstMismatch(accs: seq<RowAccumulator>, counts: map<int, int>): (r: Option<nat>)
    ensures r.Some? ==> r.value < |accs| && Get(counts, accs[r.value].id) != accs[r.value].Size()
    ensures r.None? ==> forall i :: 0 <= i < |accs| ==> Get(counts, accs[i].id) == accs[i].Size()
  {
    if |accs| == 0 then None
    else if Get(counts, accs[0].id) != accs[0].Size() then Some(0)
    else match FirstMismatch(accs[1..], counts)
      case None => None
      case Some(k) => Some(k + 1)
  }

  /** The scan of `accumulateBatch` followed by its size check, which throws
      "row size unexpected!" on the first disagreeing column. */
  function AccumulateBatch(cells: seq<Cell>, counts: map<int, int>, batch: set<int>): Result<seq<RowAccumulator>, TransposeError>
  {
    var accs := Scan(cells, batch);
    match FirstMismatch(accs, counts)
    case Some(i) => Err(RowSizeUnexpected(accs[i].id))
    case None => Ok(accs)
  }

  /** When the counts come from the same rows that are scanned, the size check
      never fires. */
  lemma AccumulateBatchSucceeds(cells: seq<Cell>, batch: set<int>)
    ensures AccumulateBatch(cells, CountCells(cells), batch) == Ok(Scan(cells, batch))
  {
    var accs := Scan(cells, batch);
    ScanSpec(cells, batch);
    CountCellsSpec(cells);
    forall i | 0 <= i < |accs|
      ensures Get(CountCells(cells), accs[i].id) == accs[i].Size()
    {
      assert accs[i].id in IdSet(AccRows(accs));
    }
  }

  // ---------------------------------------------------------------------
  // The driver (transpose / writeBatch)

  /** Every cell of `m`, flipped. */
  function Transposed(cells: seq<Cell>): (t: seq<Cell>)
    ensures |t| == |cells|
    ensures forall i :: 0 <= i < |cells| ==> t[i] == Flip(cells[i])
  {
    seq(|cells|, i requires 0 <= i < |cells| => Flip(cells[i]))
  }

  lemma DistinctConcat(a: seq<int>, b: seq<int>)
    requires Distinct(a) && Distinct(b)
    requires SetOf(a) !! SetOf(b)
    ensures Distinct(a + b)
  {
    forall i, j | 0 <= i < j < |a + b|
      ensures (a + b)[i] != (a + b)[j]
    {
      if i < |a| && j >= |a| {
        assert (a + b)[i] in SetOf(a);
        assert (a + b)[j] in SetOf(b);
      }
    }
  }

  /** The cursor values so far follow the greedy rule, each batch non-empty. */
  ghost predicate GreedyCuts(colIds: seq<int>, counts: map<int, int>, cfg: Config, cuts: seq<nat>, done: nat)
  {
    && done <= |colIds|
    && |cuts| >= 1 && cuts[0] == 0 && cuts[|cuts| - 1] == done
    && (forall j :: 0 <= j < |cuts| ==> cuts[j] <= done)
    && (forall j :: 0 <= j < |cuts| - 1 ==>
          cuts[j] < cuts[j + 1] == BatchEnd(colIds, counts, cfg, cuts[j], 0))
  }

  /** The rows written so far are grouped by batch: the rows between two cuts
      are the rows of that batch's columns. */
  ghost predicate GroupedByBatch(colIds: seq<int>, out: seq<Row>, cuts: seq<nat>)
  {
    && |cuts| >= 1
    && (forall j :: 0 <= j < |cuts| ==> cuts[j] <= |out| <= |colIds|)
    && (forall j :: 0 <= j < |cuts| - 1 ==> cuts[j] <= cuts[j + 1])
    && (forall j :: 0 <= j < |cuts| - 1 ==>
          IdSet(out[cuts[j]..cuts[j + 1]]) == BatchColumns(colIds, cuts[j], cuts[j + 1]))
  }

  /** The rows written so far are the exact transpose of the first `done`
      columns: one row per column, holding that column's cells. */
  ghost predicate ExactColumns(cells: seq<Cell>, colIds: seq<int>, out: seq<Row>, done: nat)
  {
    && done <= |colIds|
    && |out| == done
    && Distinct(Ids(out))
    && SetOf(Ids(out)) == BatchColumns(colIds, 0, done)
    && (forall i :: 0 <= i < |out| ==> out[i].entries == ColumnEntries(cells, out[i].id))
    && multiset(Cells(out)) == multiset(FlippedIn(cells, BatchColumns(colIds, 0, done)))
  }

  /** Within each batch written so far, the rows are in first-occurrence
      order. */
  ghost predicate OrderedByBatch(cells: seq<Cell>, out: seq<Row>, cuts: seq<nat>)
  {
    forall j :: 0 <= j < |cuts| - 1 && cuts[j] <= cuts[j + 1] <= |out| ==>
      FirstSeenOrder(cells, out[cuts[j]..cuts[j + 1]])
  }

  /** The state of `transpose` after the batches ending at `cuts`. */
  ghost predicate BatchesSoFar(cells: seq<Cell>, cfg: Config, out: seq<Row>, cuts: seq<nat>, done: nat)
  {
    && BatchesCore(cells, cfg, out, cuts, done)
    && OrderedByBatch(cells, out, cuts)
  }

  /** The cuts, the grouping and the exactness parts of `BatchesSoFar`. */
  ghost predicate BatchesCore(cells: seq<Cell>, cfg: Config, out: seq<Row>, cuts: seq<nat>, done: nat)
  {
    && GreedyCuts(ColIds(cells), CountCells(cells), cfg, cuts, done)
    && GroupedByBatch(ColIds(cells), out, cuts)
    && ExactColumns(cells, ColIds(cells), out, done)
  }

  lemma BatchesStart(cells: seq<Cell>, cfg: Config)
    ensures BatchesSoFar(cells, cfg, [], [0], 0)
  {
    FlippedInEmpty(cells);
    assert BatchColumns(ColIds(cells), 0, 0) == {};
  }

  /** The rows one batch produces: one per batch column, each exact. */
  lemma BatchRows(cells: seq<Cell>, done: nat, end: nat)
    requires done <= end <= |ColIds(cells)|
    ensures var batch := BatchColumns(ColIds(cells), done, end);
            var rows := AccRows(Scan(cells, batch));
            && |rows| == end - done
            && IdSet(rows) == batch
            && SetOf(Ids(rows)) == batch
            && Distinct(Ids(rows))
            && (forall i :: 0 <= i < |rows| ==> rows[i].entries == ColumnEntries(cells, rows[i].id))
            && multiset(Cells(rows)) == multiset(FlippedIn(cells, batch))
  {
    var colIds := ColIds(cells);
    var batch := BatchColumns(colIds, done, end);
    BatchSize(colIds, done, end);
    var rows := AccRows(Scan(cells, batch));
    ScanSpec(cells, batch);
    assert batch <= ColumnSet(cells) by {
      forall c | c in batch
        ensures c in ColumnSet(cells)
      {
        assert c in colIds;
      }
    }
    assert IdSet(rows) == batch;
    assert SetOf(Ids(rows)) == IdSet(rows) by {
      forall c | c in SetOf(Ids(rows))
        ensures c in IdSet(rows)
      {
        var k :| 0 <= k < |rows| && Ids(rows)[k] == c;
      }
    }
    DistinctSetSize(Ids(rows));
  }

  lemma GreedyCutsStep(colIds: seq<int>, counts: map<int, int>, cfg: Config, cuts: seq<nat>, done: nat)
    requires GreedyCuts(colIds, counts, cfg, cuts, done)
    requires done < |colIds|
    requires BatchEnd(colIds, counts, cfg, done, 0) > done
    ensures GreedyCuts(colIds, counts, cfg, cuts + [BatchEnd(colIds, counts, cfg, done, 0)], BatchEnd(colIds, counts, cfg, done, 0))
  {
  }

  lemma GroupedStep(colIds: seq<int>, out: seq<Row>, cuts: seq<nat>, rows: seq<Row>, end: nat)
    requires GroupedByBatch(colIds, out, cuts)
    requires cuts[|cuts| - 1] == |out| <= end <= |colIds|
    requires |rows| == end - |out|
    requires IdSet(rows) == BatchColumns(colIds, |out|, end)
    ensures GroupedByBatch(colIds, out + rows, cuts + [end])
  {
    var out' := out + rows;
    var cuts' := cuts + [end];
    forall j | 0 <= j < |cuts'| - 1
      ensures IdSet(out'[cuts'[j]..cuts'[j + 1]]) == BatchColumns(colIds, cuts'[j], cuts'[j + 1])
    {
      if j < |cuts'| - 2 {
        assert out'[cuts'[j]..cuts'[j + 1]] == out[cuts[j]..cuts[j + 1]];
      } else {
        assert out'[cuts'[j]..cuts'[j + 1]] == rows;
      }
    }
  }

  lemma OrderedStep(cells: seq<Cell>, out: seq<Row>, cuts: seq<nat>, rows: seq<Row>, end: nat)
    requires OrderedByBatch(cells, out, cuts)
    requires |cuts| >= 1 && cuts[|cuts| - 1] == |out|
    requires forall j :: 0 <= j < |cuts| ==> cuts[j] <= |out|
    requires FirstSeenOrder(cells, rows)
    requires end == |out| + |rows|
    ensures OrderedByBatch(cells, out + rows, cuts + [end])
  {
    var out' := out + rows;
    var cuts' := cuts + [end];
    forall j | 0 <= j < |cuts'| - 1 && cuts'[j] <= cuts'[j + 1] <= |out'|
      ensures FirstSeenOrder(cells, out'[cuts'[j]..cuts'[j + 1]])
    {
      if j < |cuts'| - 2 {
        assert out'[cuts'[j]..cuts'[j + 1]] == out[cuts[j]..cuts[j + 1]];
      } else {
        assert out'[cuts'[j]..cuts'[j + 1]] == rows;
      }
    }
  }

  /** Consecutive slices of distinct ids hold disjoint column sets whose union
      is the set of the joined slice. */
  lemma AdjacentBatches(colIds: seq<int>, a: nat, b: nat, c: nat)
    requires Distinct(colIds)
    requires a <= b <= c <= |colIds|
    ensures BatchColumns(colIds, a, b) !! BatchColumns(colIds, b, c)
    ensures BatchColumns(colIds, a, c) == BatchColumns(colIds, a, b) + BatchColumns(colIds, b, c)
  {
    assert colIds[a..c] == colIds[a..b] + colIds[b..c];
    forall x | x in BatchColumns(colIds, a, b)
      ensures x !in BatchColumns(colIds, b, c)
    {
      var i :| a <= i < b && colIds[i] == x by {
        var i' :| 0 <= i' < b - a && colIds[a..b][i'] == x;
        assert colIds[a + i'] == x;
      }
      forall j' | 0 <= j' < c - b
        ensures colIds[b..c][j'] != x
      {
        assert colIds[b..c][j'] == colIds[b + j'];
      }
    }
  }

  lemma ExactStep(cells: seq<Cell>, colIds: seq<int>, out: seq<Row>, rows: seq<Row>, end: nat)
    requires Distinct(colIds)
    requires ExactColumns(cells, colIds, out, |out|)
    requires |out| <= end <= |colIds|
    requires |rows| == end - |out|
    requires SetOf(Ids(rows)) == BatchColumns(colIds, |out|, end)
    requires Distinct(Ids(rows))
    requires forall i :: 0 <= i < |rows| ==> rows[i].entries == ColumnEntries(cells, rows[i].id)
    requires multiset(Cells(rows)) == multiset(FlippedIn(cells, BatchColumns(colIds, |out|, end)))
    ensures ExactColumns(cells, colIds, out + rows, end)
  {
    ExactIdsStep(colIds, out, rows, end);
    ExactEntriesStep(cells, out, rows);
    ExactCellsStep(cells, colIds, out, rows, end);
  }

  lemma ExactIdsStep(colIds: seq<int>, out: seq<Row>, rows: seq<Row>, end: nat)
    requires Distinct(colIds)
    requires |out| <= end <= |colIds|
    requires Distinct(Ids(out)) && SetOf(Ids(out)) == BatchColumns(colIds, 0, |out|)
    requires Distinct(Ids(rows)) && SetOf(Ids(rows)) == BatchColumns(colIds, |out|, end)
    ensures Distinct(Ids(out + rows)) && SetOf(Ids(out + rows)) == BatchColumns(colIds, 0, end)
  {
    AdjacentBatches(colIds, 0, |out|, end);
    DistinctConcat(Ids(out), Ids(rows));
    assert Ids(out + rows) == Ids(out) + Ids(rows);
  }

  lemma ExactEntriesStep(cells: seq<Cell>, out: seq<Row>, rows: seq<Row>)
    requires forall i :: 0 <= i < |out| ==> out[i].entries == ColumnEntries(cells, out[i].id)
    requires forall i :: 0 <= i < |rows| ==> rows[i].entries == ColumnEntries(cells, rows[i].id)
    ensures forall i :: 0 <= i < |out + rows| ==> (out + rows)[i].entries == ColumnEntries(cells, (out + rows)[i].id)
  {
    forall i | 0 <= i < |out + rows|
      ensures (out + rows)[i].entries == ColumnEntries(cells, (out + rows)[i].id)
    {
      if i >= |out| {
        assert (out + rows)[i] == rows[i - |out|];
      }
    }
  }

  lemma ExactCellsStep(cells: seq<Cell>, colIds: seq<int>, out: seq<Row>, rows: seq<Row>, end: nat)
    requires Distinct(colIds)
    requires |out| <= end <= |colIds|
    requires multiset(Cells(out)) == multiset(FlippedIn(cells, BatchColumns(colIds, 0, |out|)))
    requires multiset(Cells(rows)) == multiset(FlippedIn(cells, BatchColumns(colIds, |out|, end)))
    ensures multiset(Cells(out + rows)) == multiset(FlippedIn(cells, BatchColumns(colIds, 0, end)))
  {
    AdjacentBatches(colIds, 0, |out|, end);
    CellsAppend(out, rows);
    FlippedInUnion(cells, BatchColumns(colIds, 0, |out|), BatchColumns(colIds, |out|, end));
  }

  lemma CoreStep(cells: seq<Cell>, cfg: Config, out: seq<Row>, cuts: seq<nat>, done: nat)
    requires AllColumnsFit(cells, cfg)
    requires BatchesCore(cells, cfg, out, cuts, done)
    requires done < |ColIds(cells)|
    ensures var end := BatchEnd(ColIds(cells), CountCells(cells), cfg, done, 0);
            var rows := AccRows(Scan(cells, BatchColumns(ColIds(cells), done, end)));
            && done < end
            && |BatchColumns(ColIds(cells), done, end)| == end - done
            && BatchesCore(cells, cfg, out + rows, cuts + [end], end)
  {
    var colIds := ColIds(cells);
    var counts := CountCells(cells);
    CountCellsSpec(cells);
    assert colIds[done] in ColumnSet(cells);
    BatchProgress(colIds, counts, cfg, done);
    var end := BatchEnd(colIds, counts, cfg, done, 0);
    BatchSize(colIds, done, end);
    var rows := AccRows(Scan(cells, BatchColumns(colIds, done, end)));
    BatchRows(cells, done, end);
    GreedyCutsStep(colIds, counts, cfg, cuts, done);
    GroupedStep(colIds, out, cuts, rows, end);
    ExactStep(cells, colIds, out, rows, end);
  }

  /** One iteration of the `transpose` loop keeps `BatchesSoFar` and moves the
      cursor forward. */
  lemma BatchStep(cells: seq<Cell>, cfg: Config, out: seq<Row>, cuts: seq<nat>, done: nat)
    requires AllColumnsFit(cells, cfg)
    requires BatchesSoFar(cells, cfg, out, cuts, done)
    requires done < |ColIds(cells)|
    ensures var end := BatchEnd(ColIds(cells), CountCells(cells), cfg, done, 0);
            var rows := AccRows(Scan(cells, BatchColumns(ColIds(cells), done, end)));
            && done < end
            && |BatchColumns(ColIds(cells), done, end)| == end - done
            && BatchesSoFar(cells, cfg, out + rows, cuts + [end], end)
  {
    var end := BatchEnd(ColIds(cells), CountCells(cells), cfg, done, 0);
    var batch := BatchColumns(ColIds(cells), done, end);
    var rows := AccRows(Scan(cells, batch));
    CoreStep(cells, cfg, out, cuts, done);
    OrderedBatchStep(cells, out, cuts, batch, end);
  }

  lemma OrderedBatchStep(cells: seq<Cell>, out: seq<Row>, cuts: seq<nat>, batch: set<int>, end: nat)
    requires OrderedByBatch(cells, out, cuts)
    requires |cuts| >= 1 && cuts[|cuts| - 1] == |out|
    requires forall j :: 0 <= j < |cuts| ==> cuts[j] <= |out|
    requires end == |out| + |Scan(cells, batch)|
    ensures OrderedByBatch(cells, out + AccRows(Scan(cells, batch)), cuts + [end])
  {
    var rows := AccRows(Scan(cells, batch));
    ScanRowsOrder(cells, batch);
    OrderedStep(cells, out, cuts, rows, end);
  }

  /** Once the cursor reaches the end, the batches have covered every column. */
  lemma BatchesComplete(cells: seq<Cell>, out: seq<Row>)
    requires ExactColumns(cells, ColIds(cells), out, |ColIds(cells)|)
    ensures IdSet(out) == ColumnSet(cells)
    ensures multiset(Cells(out)) == multiset(Transposed(cells))
  {
    var colIds := ColIds(cells);
    assert BatchColumns(colIds, 0, |colIds|) == ColumnSet(cells) by {
      assert colIds[0..|colIds|] == colIds;
    }
    assert SetOf(Ids(out)) == IdSet(out);
    FlippedInAll(cells, ColumnSet(cells));
    assert FlippedIn(cells, ColumnSet(cells)) == Transposed(cells);
  }

  /** The cuts partition the sorted column ids into consecutive greedy
      batches, and the rows between two cuts are the rows of that batch's
      columns, in the order in which those columns first occur in the scan. */
  ghost predicate GreedyBatches(cells: seq<Cell>, cfg: Config, out: seq<Row>, cuts: seq<nat>)
  {
    var colIds := ColIds(cells);
    && |cuts| >= 1 && cuts[0] == 0 && cuts[|cuts| - 1] == |colIds|
    && (forall j :: 0 <= j < |cuts| ==> cuts[j] <= |colIds|)
    && (forall j :: 0 <= j < |cuts| - 1 ==>
          cuts[j] < cuts[j + 1] == BatchEnd(colIds, CountCells(cells), cfg, cuts[j], 0))
    && |out| == |colIds|
    && (forall j :: 0 <= j < |cuts| - 1 ==>
          IdSet(out[cuts[j]..cuts[j + 1]]) == BatchColumns(colIds, cuts[j], cuts[j + 1]))
    && (forall j :: 0 <= j < |cuts| - 1 ==> FirstSeenOrder(cells, out[cuts[j]..cuts[j + 1]]))
  }

  /** `out` is the transpose of the cells: one row per column, each holding
      that column's cells, and every cell flipped exactly once. */
  ghost predicate ExactTranspose(cells: seq<Cell>, out: seq<Row>)
  {
    && Distinct(Ids(out))
    && IdSet(out) == ColumnSet(cells)
    && (forall i :: 0 <= i < |out| ==> out[i].entries == ColumnEntries(cells, out[i].id))
    && multiset(Cells(out)) == multiset(Transposed(cells))
  }

  /** Transpose `m` batch by batch. `out` lists the rows handed to the writer,
      in order; `cuts` are the values of `numColsTransposed` after each batch.
      The cuts partition the sorted column ids into consecutive greedy batches,
      batch `j` writes exactly the rows of its columns, in the order in which
      those columns first occur in the scan, and the output is the
      exact transpose: one row per column, holding that column's cells with
      their packed values, so every cell is conserved. */
  method Transpose(m: Matrix, cfg: Config) returns (out: seq<Row>, cuts: seq<nat>)
    requires AllColumnsFit(Cells(m), cfg)
    ensures GreedyBatches(Cells(m), cfg, out, cuts)
    ensures ExactTranspose(Cells(m), out)
    ensures CellCount(out) == CellCount(m)
  {
    var cells := Cells(m);
    var counts := CountCells(cells);
    var colIds := ColIds(cells);
    var numColsTransposed := 0;
    out := [];
    cuts := [0];
    BatchesStart(cells, cfg);
    while numColsTransposed < |colIds|
      invariant numColsTransposed <= |colIds|
      invariant BatchesSoFar(cells, cfg, out, cuts, numColsTransposed)
      decreases |colIds| - numColsTransposed
    {
      var end := BatchEnd(colIds, counts, cfg, numColsTransposed, 0);
      var batch := BatchColumns(colIds, numColsTransposed, end);
      var result := AccumulateBatch(cells, counts, batch);
      AccumulateBatchSucceeds(cells, batch);
      var rows := AccRows(result.value);
      BatchStep(cells, cfg, out, cuts, numColsTransposed);
      numColsTransposed := numColsTransposed + |batch|;
      out := out + rows;
      cuts := cuts + [numColsTransposed];
    }
    TransposeDone(m, cfg, out, cuts);
  }

  /** What the loop state says once every column is transposed. */
  lemma TransposeDone(m: Matrix, cfg: Config, out: seq<Row>, cuts: seq<nat>)
    requires BatchesSoFar(Cells(m), cfg, out, cuts, |ColIds(Cells(m))|)
    ensures GreedyBatches(Cells(m), cfg, out, cuts)
    ensures ExactTranspose(Cells(m), out)
    ensures CellCount(out) == CellCount(m)
  {
    BatchesComplete(Cells(m), out);
    assert |Cells(out)| == |multiset(Cells(out))|;
  }
}
