/** The reader side of the sparse-matrix file: the fixed header and the row
    offset table, decoded from the first mapped window of the file in
    big-endian byte order, plus `getRow` and the row iterator over an abstract
    row-buffer lookup. */
module SparseMatrixFile {
  import opened JavaTypes

  type Byte = b: int | 0 <= b < 256

  const INT64_MIN: int := -0x8000_0000_0000_0000
  const INT64_MAX: int := 0x7fff_ffff_ffff_ffff

  /** Values a Java `long` can hold. */
  type Int64 = x: int | INT64_MIN <= x <= INT64_MAX

  /** The format identifier stored in the first four bytes. */
  const FILE_HEADER: int := 0xabcdef

  /** The header is four `int` words; the offset table follows. */
  const HEADER_BYTES: int := 16
  /** One offset-table entry: an `int` row id and a `long` offset. */
  const ENTRY_BYTES: int := 12

  // ---------------------------------------------------------------------
  // Big-endian integers (ByteBuffer's default order)

  function Pow256(n: nat): (p: nat)
    ensures p >= 1
  {
    if n == 0 then 1 else 256 * Pow256(n - 1)
  }

  /** The unsigned value of `bs`, most significant byte first. */
  function BigEndian(bs: seq<Byte>): nat
  {
    if |bs| == 0 then 0 else BigEndian(bs[..|bs| - 1]) * 256 + bs[|bs| - 1]
  }

  lemma {:induction false} BigEndianBound(bs: seq<Byte>)
    ensures BigEndian(bs) < Pow256(|bs|)
    decreases |bs|
  {
    if |bs| > 0 {
      BigEndianBound(bs[..|bs| - 1]);
    }
  }

  /** The `n` bytes that store `x` most significant first. */
  function ToBigEndian(x: nat, n: nat): (bs: seq<Byte>)
    ensures |bs| == n
  {
    if n == 0 then [] else ToBigEndian(x / 256, n - 1) + [x % 256]
  }

  lemma {:induction false} BigEndianRoundTrip(x: nat, n: nat)
    requires x < Pow256(n)
    ensures BigEndian(ToBigEndian(x, n)) == x
    decreases n
  {
    if n > 0 {
      var bs := ToBigEndian(x, n);
      assert bs[..n - 1] == ToBigEndian(x / 256, n - 1);
      BigEndianRoundTrip(x / 256, n - 1);
    }
  }

  /** Two's-complement reading of an unsigned value whose top bit weighs `half`. */
  function Signed(u: nat, half: int): (r: int)
    requires 0 < half
    requires u < 2 * half
    ensures -half <= r < half
    ensures r == u || r == u - 2 * half
  {
    if u < half then u else u - 2 * half
  }

  lemma Pow256Int()
    ensures Pow256(4) == 0x1_0000_0000
  {
  }

  lemma Pow256Long()
    ensures Pow256(8) == 0x1_0000_0000_0000_0000
  {
    Pow256Int();
    assert Pow256(8) == 256 * (256 * (256 * (256 * Pow256(4))));
  }

  /** The bytes `putInt` / `putLong` write for `x`. */
  function IntBytes(x: Int32): seq<Byte> {
    ToBigEndian(x % 0x1_0000_0000, 4)
  }

  function LongBytes(x: Int64): seq<Byte> {
    ToBigEndian(x % 0x1_0000_0000_0000_0000, 8)
  }

  datatype HeaderError =
    | IllegalMapSize(size: int)            // FileChannel.map with a negative size
    | IndexOutOfBounds(pos: int)           // a read past the mapped window
    | InvalidFileHeader(found: Int32)      // IOException("invalid file header: ...")
    | NegativeArraySize(numRows: Int32)    // new int[numRows] with numRows < 0

  /** `buffer.getInt(pos)`. */
  function GetInt(buf: seq<Byte>, pos: int): (r: Result<Int32, HeaderError>)
    ensures r.Err? <==> pos < 0 || pos + 4 > |buf|
  {
    if pos < 0 || pos + 4 > |buf| then Err(IndexOutOfBounds(pos))
    else
      var u := BigEndian(buf[pos..pos + 4]);
      BigEndianBound(buf[pos..pos + 4]);
      Pow256Int();
      Ok(Signed(u, 0x8000_0000))
  }

  /** `buffer.getLong(pos)`. */
  function GetLong(buf: seq<Byte>, pos: int): (r: Result<Int64, HeaderError>)
    ensures r.Err? <==> pos < 0 || pos + 8 > |buf|
  {
    if pos < 0 || pos + 8 > |buf| then Err(IndexOutOfBounds(pos))
    else
      var u := BigEndian(buf[pos..pos + 8]);
      BigEndianBound(buf[pos..pos + 8]);
      Pow256Long();
      Ok(Signed(u, 0x8000_0000_0000_0000))
  }

  lemma IntRoundTrip(prefix: seq<Byte>, x: Int32, suffix: seq<Byte>)
    ensures GetInt(prefix + IntBytes(x) + suffix, |prefix|) == Ok(x)
  {
    var buf := prefix + IntBytes(x) + suffix;
    assert buf[|prefix|..|prefix| + 4] == IntBytes(x);
    Pow256Int();
    assert x % 0x1_0000_0000 == if x < 0 then x + 0x1_0000_0000 else x;
    BigEndianRoundTrip(x % 0x1_0000_0000, 4);
  }

  lemma LongRoundTrip(prefix: seq<Byte>, x: Int64, suffix: seq<Byte>)
    ensures GetLong(prefix + LongBytes(x) + suffix, |prefix|) == Ok(x)
  {
    var buf := prefix + LongBytes(x) + suffix;
    assert buf[|prefix|..|prefix| + 8] == LongBytes(x);
    Pow256Long();
    assert x % 0x1_0000_0000_0000_0000 == if x < 0 then x + 0x1_0000_0000_0000_0000 else x;
    BigEndianRoundTrip(x % 0x1_0000_0000_0000_0000, 8);
  }

  // ---------------------------------------------------------------------
  // readHeaders

  /** What `readHeaders` keeps: the two value-range words (raw float bits),
      the row ids in table order and the row-id-to-offset map. */
  datatype Headers = Headers(minBits: Int32, maxBits: Int32, rowIds: seq<Int32>, rowOffsets: map<Int32, Int64>)
  {
    /** `getRowIds()`. */
    function RowIds(): seq<Int32> {
      rowIds
    }

    /** `getNumRows()`. */
    function NumRows(): nat {
      |rowIds|
    }
  }

  function EntryPos(i: nat): int {
    HEADER_BYTES + ENTRY_BYTES * i
  }

  /** The first `n` iterations of the offset-table loop: each reads the row id
      at `16 + 12i`, then the offset right after it, then records both; a
      later entry for the same id overwrites the earlier offset. */
  function ReadEntries(buf: seq<Byte>, n: nat): Result<(seq<Int32>, map<Int32, Int64>), HeaderError>
  {
    if n == 0 then Ok(([], map[]))
    else match ReadEntries(buf, n - 1)
      case Err(e) => Err(e)
      case Ok(acc) =>
        match GetInt(buf, EntryPos(n - 1))
        case Err(e) => Err(e)
        case Ok(rowIndex) =>
          match GetLong(buf, EntryPos(n - 1) + 4)
          case Err(e) => Err(e)
          case Ok(rowOffset) => Ok((acc.0 + [rowIndex], acc.1[rowIndex := rowOffset]))
  }

  /** `readHeaders` over the file's bytes: map the first
      `min(fileSize, maxPageSize)` bytes, then decode that window. */
  function ReadHeaders(file: seq<Byte>, maxPageSize: Int32): Result<Headers, HeaderError>
  {
    var size := if |file| < maxPageSize then |file| else maxPageSize as int;
    if size < 0 then Err(IllegalMapSize(size))
    else DecodeWindow(file[..size])
  }

  /** The body of `readHeaders` once the window is mapped: check the magic
      word, read the value range and row count, then the offset table. */
  function DecodeWindow(buf: seq<Byte>): Result<Headers, HeaderError>
  {
    match GetInt(buf, 0)
    case Err(e) => Err(e)
    case Ok(magic) =>
      if magic != FILE_HEADER then Err(InvalidFileHeader(magic))
      else match GetInt(buf, 4)
      case Err(e) => Err(e)
      case Ok(minBits) =>
        match GetInt(buf, 8)
        case Err(e) => Err(e)
        case Ok(maxBits) =>
          match GetInt(buf, 12)
          case Err(e) => Err(e)
          case Ok(numRows) =>
            if numRows < 0 then Err(NegativeArraySize(numRows))
            else match ReadEntries(buf, numRows)
              case Err(e) => Err(e)
              case Ok(table) => Ok(Headers(minBits, maxBits, table.0, table.1))
  }

  /** The mapped window `readHeaders` reads from. */
  function Window(file: seq<Byte>, maxPageSize: Int32): (w: seq<Byte>)
    requires maxPageSize >= 0
    ensures w == file[..(if |file| < maxPageSize as int then |file| else maxPageSize as int)]
    ensures ReadHeaders(file, maxPageSize) == DecodeWindow(w)
  {
    if |file| < maxPageSize then
      assert file[..|file|] == file;
      file
    else file[..maxPageSize]
  }

  /** The success path of the window decode, step by step. */
  lemma DecodeWindowOk(buf: seq<Byte>, minBits: Int32, maxBits: Int32, numRows: Int32, table: (seq<Int32>, map<Int32, Int64>))
    requires GetInt(buf, 0) == Ok(FILE_HEADER)
    requires GetInt(buf, 4) == Ok(minBits)
    requires GetInt(buf, 8) == Ok(maxBits)
    requires GetInt(buf, 12) == Ok(numRows)
    requires numRows >= 0
    requires ReadEntries(buf, numRows) == Ok(table)
    ensures DecodeWindow(buf) == Ok(Headers(minBits, maxBits, table.0, table.1))
  {
  }

  /** Entry `i` is the last table entry for its id. */
  predicate LastFor(ids: seq<Int32>, i: nat)
    requires i < |ids|
  {
    forall j :: i < j < |ids| ==> ids[j] != ids[i]
  }

  /** The offset table loop succeeds exactly when the whole table lies inside
      the window. */
  lemma {:induction false} ReadEntriesOk(buf: seq<Byte>, n: nat)
    ensures ReadEntries(buf, n).Ok? <==> EntryPos(n) <= |buf| || n == 0
    decreases n
  {
    if n > 0 {
      ReadEntriesOk(buf, n - 1);
    }
  }

  /** A successful table read lists the ids in file order, and its map has
      exactly those ids as keys. */
  lemma {:induction false} ReadEntriesIds(buf: seq<Byte>, n: nat)
    requires ReadEntries(buf, n).Ok?
    ensures |ReadEntries(buf, n).value.0| == n
    ensures forall i :: 0 <= i < n ==> GetInt(buf, EntryPos(i)) == Ok(ReadEntries(buf, n).value.0[i])
    ensures forall id :: id in ReadEntries(buf, n).value.1 <==> id in ReadEntries(buf, n).value.0
    decreases n
  {
    if n > 0 {
      ReadEntriesIds(buf, n - 1);
      var prev := ReadEntries(buf, n - 1).value.0;
      var ids := ReadEntries(buf, n).value.0;
      assert ids == prev + [ids[n - 1]];
      assert forall i :: 0 <= i < n - 1 ==> ids[i] == prev[i];
    }
  }

  /** A successful table read maps every id to the offset stored in its last
      table entry. */
  lemma {:induction false} ReadEntriesOffsets(buf: seq<Byte>, n: nat)
    requires ReadEntries(buf, n).Ok?
    ensures var table := ReadEntries(buf, n).value;
            forall i :: 0 <= i < |table.0| && LastFor(table.0, i) ==>
              table.0[i] in table.1 && GetLong(buf, EntryPos(i) + 4) == Ok(table.1[table.0[i]])
    decreases n
  {
    if n > 0 {
      ReadEntriesOffsets(buf, n - 1);
      var prev := ReadEntries(buf, n - 1).value;
      var id, off := ReadEntriesStep(buf, n);
      var table := ReadEntries(buf, n).value;
      var ids, offsets := table.0, table.1;
      ReadEntriesLength(buf, n - 1);
      forall i | 0 <= i < |ids| && LastFor(ids, i)
        ensures ids[i] in offsets && GetLong(buf, EntryPos(i) + 4) == Ok(offsets[ids[i]])
      {
        if i < |ids| - 1 {
          LastForPrefix(ids, i);
          assert ids[..|ids| - 1] == prev.0;
          assert ids[i] == prev.0[i];
          assert LastFor(prev.0, i);
          assert offsets[ids[i]] == prev.1[ids[i]];
        } else {
          assert ids[i] == id;
        }
      }
    }
  }

  lemma {:induction false} ReadEntriesLength(buf: seq<Byte>, n: nat)
    requires ReadEntries(buf, n).Ok?
    ensures |ReadEntries(buf, n).value.0| == n
    decreases n
  {
    if n > 0 {
      ReadEntriesLength(buf, n - 1);
    }
  }

  /** The last iteration of the table loop appends one id and records its
      offset. */
  lemma ReadEntriesStep(buf: seq<Byte>, n: nat) returns (id: Int32, off: Int64)
    requires n > 0 && ReadEntries(buf, n).Ok?
    ensures ReadEntries(buf, n - 1).Ok?
    ensures GetInt(buf, EntryPos(n - 1)) == Ok(id)
    ensures GetLong(buf, EntryPos(n - 1) + 4) == Ok(off)
    ensures ReadEntries(buf, n).value.0 == ReadEntries(buf, n - 1).value.0 + [id]
    ensures ReadEntries(buf, n).value.1 == ReadEntries(buf, n - 1).value.1[id := off]
  {
    id := GetInt(buf, EntryPos(n - 1)).value;
    off := GetLong(buf, EntryPos(n - 1) + 4).value;
  }

  /** The last entry for an id before the final one stays last once the final
      entry is dropped, and the final entry holds another id. */
  lemma LastForPrefix(ids: seq<Int32>, i: nat)
    requires i < |ids| - 1 && LastFor(ids, i)
    ensures LastFor(ids[..|ids| - 1], i)
    ensures ids[|ids| - 1] != ids[i]
  {
    var pre := ids[..|ids| - 1];
    forall j | i < j < |pre|
      ensures pre[j] != pre[i]
    {
      assert pre[j] == ids[j];
    }
  }

  /** `readHeaders` succeeds exactly when the map size is legal, the magic
      word matches, the row count is not negative and the whole offset table
      lies inside the mapped window. */
  lemma ReadHeadersSucceeds(file: seq<Byte>, maxPageSize: Int32)
    ensures ReadHeaders(file, maxPageSize).Ok? <==>
              && maxPageSize >= 0
              && |Window(file, maxPageSize)| >= HEADER_BYTES
              && GetInt(Window(file, maxPageSize), 0) == Ok(FILE_HEADER)
              && GetInt(Window(file, maxPageSize), 12).value >= 0
              && EntryPos(GetInt(Window(file, maxPageSize), 12).value) <= |Window(file, maxPageSize)|
  {
    if maxPageSize >= 0 {
      var buf := Window(file, maxPageSize);
      if |buf| >= HEADER_BYTES {
        var numRows := GetInt(buf, 12).value;
        if numRows >= 0 {
          ReadEntriesOk(buf, numRows);
        }
      }
    }
  }

  /** A wrong magic word is reported before anything else is read, whatever
      the rest of the window holds. */
  lemma BadMagicRejected(file: seq<Byte>, maxPageSize: Int32)
    requires maxPageSize >= 0
    requires |Window(file, maxPageSize)| >= 4
    requires GetInt(Window(file, maxPageSize), 0).value != FILE_HEADER
    ensures ReadHeaders(file, maxPageSize) == Err(InvalidFileHeader(GetInt(Window(file, maxPageSize), 0).value))
  {
    var w := Window(file, maxPageSize);
  }

  /** What a successful decode holds: the value-range words at offsets 4 and 8,
      `getNumRows()` equal to the word at offset 12, the ids in file order, and
      each id mapped to the offset of its last table entry. */
  lemma ReadHeadersContents(file: seq<Byte>, maxPageSize: Int32)
    requires ReadHeaders(file, maxPageSize).Ok?
    ensures maxPageSize >= 0
    ensures var buf := Window(file, maxPageSize);
            var h := ReadHeaders(file, maxPageSize).value;
            && GetInt(buf, 4) == Ok(h.minBits)
            && GetInt(buf, 8) == Ok(h.maxBits)
            && GetInt(buf, 12) == Ok(h.NumRows() as int)
            && h.NumRows() == |h.RowIds()|
            && (forall i :: 0 <= i < |h.rowIds| ==> GetInt(buf, EntryPos(i)) == Ok(h.rowIds[i]))
            && (forall id :: id in h.rowOffsets <==> id in h.rowIds)
            && (forall i :: 0 <= i < |h.rowIds| && LastFor(h.rowIds, i) ==>
                  GetLong(buf, EntryPos(i) + 4) == Ok(h.rowOffsets[h.rowIds[i]]))
  {
    var buf := Window(file, maxPageSize);
    ReadEntriesIds(buf, GetInt(buf, 12).value);
    ReadEntriesOffsets(buf, GetInt(buf, 12).value);
  }

  // ---------------------------------------------------------------------
  // The file layout as a writer produces it

  /** One offset-table entry. */
  datatype TableEntry = TableEntry(rowId: Int32, offset: Int64)

  function TableBytes(entries: seq<TableEntry>): (bs: seq<Byte>)
    ensures |bs| == ENTRY_BYTES * |entries|
  {
    if |entries| == 0 then []
    else
      var e := entries[|entries| - 1];
      TableBytes(entries[..|entries| - 1]) + IntBytes(e.rowId) + LongBytes(e.offset)
  }

  /** Header, then the offset table; row bodies follow in the file. */
  function HeaderBytes(minBits: Int32, maxBits: Int32, entries: seq<TableEntry>): (bs: seq<Byte>)
    requires |entries| <= INT32_MAX
    ensures |bs| == EntryPos(|entries|)
  {
    HeaderWords(minBits, maxBits, |entries|) + TableBytes(entries)
  }

  /** The row-id-to-offset map a table denotes when later entries win. */
  function LastOffsets(entries: seq<TableEntry>): map<Int32, Int64>
  {
    if |entries| == 0 then map[]
    else
      var e := entries[|entries| - 1];
      LastOffsets(entries[..|entries| - 1])[e.rowId := e.offset]
  }

  function EntryIds(entries: seq<TableEntry>): (ids: seq<Int32>)
    ensures |ids| == |entries|
    ensures forall i :: 0 <= i < |entries| ==> ids[i] == entries[i].rowId
  {
    seq(|entries|, i requires 0 <= i < |entries| => entries[i].rowId)
  }

  lemma {:induction false} ReadTableRoundTrip(prefix: seq<Byte>, entries: seq<TableEntry>, suffix: seq<Byte>)
    requires |prefix| == HEADER_BYTES
    ensures ReadEntries(prefix + TableBytes(entries) + suffix, |entries|)
            == Ok((EntryIds(entries), LastOffsets(entries)))
    decreases |entries|
  {
    if |entries| > 0 {
      var n := |entries|;
      var e := entries[n - 1];
      var front := entries[..n - 1];
      var i, l := IntBytes(e.rowId), LongBytes(e.offset);
      var p := prefix + TableBytes(front);
      var buf := prefix + TableBytes(entries) + suffix;
      ConcatAssoc(prefix, TableBytes(front) + i, l);
      ConcatAssoc(prefix, TableBytes(front), i);
      ConcatAssoc(p + i, l, suffix);
      ConcatAssoc(p, i, l + suffix);
      ConcatAssoc(i, l, suffix);
      ReadTableRoundTrip(prefix, front, i + l + suffix);
      IntRoundTrip(p, e.rowId, l + suffix);
      LongRoundTrip(p + i, e.offset, suffix);
      assert EntryIds(entries) == EntryIds(front) + [e.rowId];
    }
  }

  /** The four header words a writer puts first. */
  function HeaderWords(minBits: Int32, maxBits: Int32, numRows: Int32): (bs: seq<Byte>)
    ensures |bs| == HEADER_BYTES
  {
    IntBytes(FILE_HEADER) + IntBytes(minBits) + IntBytes(maxBits) + IntBytes(numRows)
  }

  lemma HeaderWordsRead(minBits: Int32, maxBits: Int32, numRows: Int32, rest: seq<Byte>)
    ensures GetInt(HeaderWords(minBits, maxBits, numRows) + rest, 0) == Ok(FILE_HEADER)
    ensures GetInt(HeaderWords(minBits, maxBits, numRows) + rest, 4) == Ok(minBits)
    ensures GetInt(HeaderWords(minBits, maxBits, numRows) + rest, 8) == Ok(maxBits)
    ensures GetInt(HeaderWords(minBits, maxBits, numRows) + rest, 12) == Ok(numRows)
  {
    var w0, w1, w2, w3 := IntBytes(FILE_HEADER), IntBytes(minBits), IntBytes(maxBits), IntBytes(numRows);
    var buf := HeaderWords(minBits, maxBits, numRows) + rest;
    assert buf == [] + w0 + (w1 + w2 + w3 + rest);
    IntRoundTrip([], FILE_HEADER, w1 + w2 + w3 + rest);
    assert buf == w0 + w1 + (w2 + w3 + rest);
    IntRoundTrip(w0, minBits, w2 + w3 + rest);
    assert buf == (w0 + w1) + w2 + (w3 + rest);
    IntRoundTrip(w0 + w1, maxBits, w3 + rest);
    assert buf == (w0 + w1 + w2) + w3 + rest;
    IntRoundTrip(w0 + w1 + w2, numRows, rest);
  }

  lemma ConcatAssoc(a: seq<Byte>, b: seq<Byte>, c: seq<Byte>)
    ensures a + b + c == a + (b + c)
  {
  }

  /** A window at least as long as `a` keeps all of `a` and then a prefix of `b`. */
  function TakePast(a: seq<Byte>, b: seq<Byte>, k: Int32): (rest: seq<Byte>)
    requires |a| <= k
    ensures Window(a + b, k) == a + rest
  {
    if |a + b| < k then b
    else
      assert (a + b)[..k] == a + b[..k - |a|];
      b[..k - |a|]
  }

  /** Decoding what a writer lays out gives back the value-range words, the
      ids in table order and the last-wins offset map, whatever follows the
      table, provided the table fits in the first mapped window. */
  lemma ReadHeadersRoundTrip(minBits: Int32, maxBits: Int32, entries: seq<TableEntry>, bodies: seq<Byte>, maxPageSize: Int32)
    requires |entries| <= INT32_MAX
    requires EntryPos(|entries|) <= maxPageSize
    ensures ReadHeaders(HeaderBytes(minBits, maxBits, entries) + bodies, maxPageSize)
            == Ok(Headers(minBits, maxBits, EntryIds(entries), LastOffsets(entries)))
  {
    var header := HeaderBytes(minBits, maxBits, entries);
    var buf := Window(header + bodies, maxPageSize);
    var rest := TakePast(header, bodies, maxPageSize);
    var words := HeaderWords(minBits, maxBits, |entries|);
    var table := TableBytes(entries);
    assert header == words + table;
    assert buf == header + rest;
    ConcatAssoc(words, table, rest);
    HeaderWordsRead(minBits, maxBits, |entries|, table + rest);
    ReadTableRoundTrip(words, entries, rest);
    DecodeWindowOk(buf, minBits, maxBits, |entries|, (EntryIds(entries), LastOffsets(entries)));
  }

  // ---------------------------------------------------------------------
  // getRow and the row iterator

  /** What the row-buffer lookup (`rowBuffers.getRow`) answers for an id: it
      may throw, return `null`, or return the row's bytes. */
  datatype Fetched<B> = FetchFailed | NoBuffer | Buffer(bytes: B)

  datatype ReadError = IoFailure

  /** `getRow(rowId)`: null exactly when the lookup returns null; otherwise a
      row built from the returned buffer; a lookup failure propagates. */
  function GetRow<B, R>(fetch: int -> Fetched<B>, build: B -> R, rowId: int): (r: Result<Option<R>, ReadError>)
    ensures r == Ok(None) <==> fetch(rowId) == NoBuffer
    ensures r.Err? <==> fetch(rowId) == FetchFailed
    ensures fetch(rowId).Buffer? ==> r == Ok(Some(build(fetch(rowId).bytes)))
  {
    match fetch(rowId)
    case FetchFailed => Err(IoFailure)
    case NoBuffer => Ok(None)
    case Buffer(b) => Ok(Some(build(b)))
  }

  /** `SparseMatrixIterator`: a cursor into the row-id table. */
  datatype RowIterator = RowIterator(i: nat)

  function HasNext(it: RowIterator, rowIds: seq<Int32>): bool {
    it.i < |rowIds|
  }

  datatype IteratorError = ArrayIndexOutOfBounds(index: int)

  /** `next()`: fetch the row of the next id; a lookup failure is logged and
      yields `null` instead of ending the iteration. Past the end the array
      access throws. */
  function Next<B, R>(it: RowIterator, rowIds: seq<Int32>, fetch: int -> Fetched<B>, build: B -> R): Result<(Option<R>, RowIterator), IteratorError>
  {
    if it.i < |rowIds| then
      var row := match GetRow(fetch, build, rowIds[it.i])
        case Err(_) => None
        case Ok(r) => r;
      Ok((row, RowIterator(it.i + 1)))
    else Err(ArrayIndexOutOfBounds(it.i))
  }

  /** A `for (row : matrix)` loop: it calls `next()` exactly once per stored
      row id, yields the rows in table order, and a failed read shows up as a
      `null` element rather than stopping the loop. */
  method IterateRows<B, R>(rowIds: seq<Int32>, fetch: int -> Fetched<B>, build: B -> R) returns (rows: seq<Option<R>>, calls: nat)
    ensures calls == |rowIds| == |rows|
    ensures forall i :: 0 <= i < |rowIds| ==>
              match fetch(rowIds[i])
              case FetchFailed => rows[i] == None
              case NoBuffer => rows[i] == None
              case Buffer(b) => rows[i] == Some(build(b))
  {
    var it := RowIterator(0);
    rows := [];
    calls := 0;
    while HasNext(it, rowIds)
      invariant it.i == calls == |rows| <= |rowIds|
      invariant forall i :: 0 <= i < |rows| ==>
                  rows[i] == (match GetRow(fetch, build, rowIds[i]) case Err(_) => None case Ok(r) => r)
      decreases |rowIds| - it.i
    {
      var step := Next(it, rowIds, fetch, build);
      rows := rows + [step.value.0];
      it := step.value.1;
      calls := calls + 1;
    }
  }
}
