/** `split_csv_to_excel`, as both CSV-based splitters run it: the `;`-separated records are
    cut after the header records into N chunks of a rounded-up size, and each chunk becomes
    a fresh workbook holding the model's header, the chunk's records from the table start
    row on, the model's alternating row styles and merged ranges, and, in one of the two,
    the model's tail-row style on the last file. */
module CsvSplit {
  import opened Prelude
  import opened Text
  import opened Values
  import opened FlatRows
  import opened Partition
  import opened Sheets
  import opened Layout

  /** Where the two CSV-based splitters differ. */
  datatype Settings = Settings(
    tableStartRow: int,     // the output row of a chunk's first record
    headerRows: nat,        // records (and model rows) that make up the header
    rowRefOdd: int,         // the model row odd output rows copy
    rowRefEven: int,        // the model row even output rows copy
    norm: Value -> Value,   // how a field becomes a cell value
    copyNumberFormat: bool, // whether `copy_style` copies the number format
    tailRow: bool,          // whether the last file's last row takes model row 45's style
    infix: string)          // what separates product name and file number

  /** A normaliser that never turns a text into None, so the placed cell always takes it. */
  ghost predicate KeepsText(norm: Value -> Value)
  {
    forall s: string :: !norm(Str(s)).Empty?
  }

  /** The records of file `i`: those at the indices of its chunk, in order. */
  function ChunkRows(rows: seq<seq<string>>, headerRows: nat, size: int, i: nat): (data: seq<seq<string>>)
    ensures |data| == |Chunk(headerRows, |rows|, size, i)|
    ensures forall j :: 0 <= j < |data| ==>
              0 <= Chunk(headerRows, |rows|, size, i)[j] < |rows|
              && data[j] == rows[Chunk(headerRows, |rows|, size, i)[j]]
  {
    ChunkInBounds(headerRows, |rows|, size, i);
    Pick(rows, Chunk(headerRows, |rows|, size, i))
  }

  /** The records of all `n` files, one after the other, are exactly the records after the
      header, in order: none is dropped, none repeated. */
  lemma ChunkRowsCover(rows: seq<seq<string>>, headerRows: nat, n: int)
    requires n >= 1 && headerRows <= |rows|
    ensures Concat(seq(n, i requires 0 <= i < n => ChunkRows(rows, headerRows, ChunkSize(headerRows, |rows|, n), i)))
            == rows[headerRows..]
  {
    var size := ChunkSize(headerRows, |rows|, n);
    var cs := Chunks(headerRows, |rows|, size, n);
    forall i | 0 <= i < n {
      ChunkInBounds(headerRows, |rows|, size, i);
    }
    assert InBounds(cs, |rows|);
    ConcatPickEach(rows, cs);
    ChunksCover(headerRows, |rows|, n);
    PickInterval(rows, headerRows, |rows|);
    assert seq(n, i requires 0 <= i < n => ChunkRows(rows, headerRows, size, i)) == PickEach(rows, cs);
  }

  /** With no more records than header rows, every file gets no record. */
  lemma ChunkRowsWhenShort(rows: seq<seq<string>>, headerRows: nat, n: int, i: nat)
    requires n >= 1 && |rows| < headerRows
    ensures ChunkRows(rows, headerRows, ChunkSize(headerRows, |rows|, n), i) == []
  {
    ChunksWhenShort(headerRows, |rows|, n, i);
  }

  // ---------------------------------------------------------------------------
  // One output file, cell by cell

  /** Row `r` holds a record with at least one field. */
  predicate RecordRow(data: seq<seq<string>>, tsr: int, r: int)
  {
    tsr <= r < tsr + |data| && |data[r - tsr]| >= 1
  }

  /** The last row the banding reaches, the sheet's `max_row` once the header is copied and
      the records are placed: the last header row, the last row holding a field, or 1. */
  function BandEnd(data: seq<seq<string>>, headerRows: nat, tsr: int): (e: int)
    ensures e >= 1 && e >= headerRows
    ensures forall r :: RecordRow(data, tsr, r) ==> r <= e
    ensures e == 1 || e == headerRows || RecordRow(data, tsr, e)
    decreases |data|
  {
    var k := |data| - 1;
    if |data| == 0 then Max(1, headerRows)
    else if |data[k]| >= 1 then Max(Max(1, headerRows), tsr + k)
    else
      var e := BandEnd(data[..k], headerRows, tsr);
      assert forall r :: RecordRow(data, tsr, r) ==> r == tsr + k || RecordRow(data[..k], tsr, r);
      e
  }

  /** `max_row` of a finished file: the banding's end, or further down the last row of a
      model range of more than one cell. */
  function LastRow(model: Sheet, data: seq<seq<string>>, st: Settings): int
  {
    MergedEnd(model.merges, BandEnd(data, st.headerRows, st.tableStartRow))
  }

  /** A cell once the model's header is copied into a fresh sheet. */
  function HeaderPart(model: Sheet, headerRows: nat, r: int, c: int): Cell
  {
    if 1 <= r <= headerRows && 1 <= c <= MaxColumn(model) then HeaderCell(CellAt(model, r, c), EmptyCell)
    else EmptyCell
  }

  /** A cell once, after the header, the records are placed. */
  function PlacedCell(model: Sheet, data: seq<seq<string>>, st: Settings, r: int, c: int): Cell
  {
    var tsr := st.tableStartRow;
    if tsr <= r < tsr + |data| && 1 <= c <= |data[r - tsr]|
    then Written(HeaderPart(model, st.headerRows, r, c), st.norm(Str(data[r - tsr][c - 1])))
    else HeaderPart(model, st.headerRows, r, c)
  }

  /** A cell once the banding has restyled the rows from the table start to `BandEnd`. */
  function BandedCell(model: Sheet, data: seq<seq<string>>, st: Settings, r: int, c: int): Cell
  {
    if st.tableStartRow <= r <= BandEnd(data, st.headerRows, st.tableStartRow) && 1 <= c <= MaxColumn(model)
    then CopyStyle(CellAt(model, RefRow(r, st.rowRefOdd, st.rowRefEven), c), PlacedCell(model, data, st, r, c),
                   st.copyNumberFormat)
    else PlacedCell(model, data, st, r, c)
  }

  /** A cell of the finished file: with the tail step, the last file's row `max_row` takes
      model row 45's style. */
  function PartCell(model: Sheet, data: seq<seq<string>>, st: Settings, last: bool, r: int, c: int): Cell
  {
    if last && st.tailRow && r == LastRow(model, data, st) && 1 <= c <= MaxColumn(model)
    then CopyStyle(CellAt(model, ModelLastRow, c), BandedCell(model, data, st, r, c), true)
    else BandedCell(model, data, st, r, c)
  }

  /** The sheet `u` of a file holding the records `data`, exactly: every cell, every row
      height and column width, the merged ranges in order, and `max_row`. */
  ghost predicate IsPart(model: Sheet, data: seq<seq<string>>, st: Settings, last: bool, u: Sheet)
  {
    var tsr := st.tableStartRow;
    && (forall r, c {:trigger PartCell(model, data, st, last, r, c)} :: CellAt(u, r, c) == PartCell(model, data, st, last, r, c))
    && (forall r :: Height(u, r) ==
          if tsr <= r <= BandEnd(data, st.headerRows, tsr) then Height(model, RefRow(r, st.rowRefOdd, st.rowRefEven))
          else None)
    && (forall c :: Width(u, c) == if 1 <= c <= MaxColumn(model) then Width(model, c) else None)
    && u.merges == model.merges + ReplicatedMerges(model.merges, st.rowRefOdd, tsr, LastRow(model, data, st))
    && MaxRow(u) == LastRow(model, data, st)
  }

  /** The model's header copied into a fresh sheet. */
  method FreshHeader(model: Sheet, headerRows: nat) returns (h: Sheet)
    ensures forall r, c :: CellAt(h, r, c) == HeaderPart(model, headerRows, r, c)
    ensures forall q :: q in h.cells <==> 1 <= q.0 <= headerRows && 1 <= q.1 <= MaxColumn(model)
    ensures forall c :: Width(h, c) == if headerRows >= 1 && 1 <= c <= MaxColumn(model) then Width(model, c) else None
    ensures h.rowHeight == map[] && h.merges == []
  {
    h := CopyHeaderBlock(model, Blank, headerRows);
  }

  /** The first half of a file: the model's header into a fresh sheet, then the records. */
  method HeaderAndRecords(model: Sheet, data: seq<seq<string>>, st: Settings) returns (p: Sheet)
    ensures forall r, c :: CellAt(p, r, c) == PlacedCell(model, data, st, r, c)
    ensures MaxRow(p) == BandEnd(data, st.headerRows, st.tableStartRow)
    ensures forall r :: Height(p, r) == None
    ensures forall c :: Width(p, c) == if st.headerRows >= 1 && 1 <= c <= MaxColumn(model) then Width(model, c) else None
    ensures p.merges == []
  {
    var h := FreshHeader(model, st.headerRows);
    p := PlaceRows(h, data, st.tableStartRow, st.norm);
    PlacedSheet(model, data, st, h, p);
  }

  /** What `HeaderAndRecords` promises, from what its two steps promise. */
  lemma PlacedSheet(model: Sheet, data: seq<seq<string>>, st: Settings, h: Sheet, p: Sheet)
    requires forall r, c :: CellAt(h, r, c) == HeaderPart(model, st.headerRows, r, c)
    requires forall q :: q in h.cells <==> 1 <= q.0 <= st.headerRows && 1 <= q.1 <= MaxColumn(model)
    requires forall c :: Width(h, c) == if st.headerRows >= 1 && 1 <= c <= MaxColumn(model) then Width(model, c) else None
    requires h.rowHeight == map[] && h.merges == []
    requires p == PlaceRows(h, data, st.tableStartRow, st.norm)
    ensures forall r, c :: CellAt(p, r, c) == PlacedCell(model, data, st, r, c)
    ensures MaxRow(p) == BandEnd(data, st.headerRows, st.tableStartRow)
    ensures forall r :: Height(p, r) == None
    ensures forall c :: Width(p, c) == if st.headerRows >= 1 && 1 <= c <= MaxColumn(model) then Width(model, c) else None
    ensures p.merges == []
  {
    PlacedCells(model, data, st, h, p);
    PlacedEnd(model, data, st, h, p);
    assert p.colWidth == h.colWidth && p.rowHeight == map[];
    assert forall c :: Width(p, c) == Width(h, c);
  }

  /** The cells as the header copy and `PlaceRows` leave them. */
  lemma PlacedCells(model: Sheet, data: seq<seq<string>>, st: Settings, h: Sheet, p: Sheet)
    requires forall r, c :: CellAt(h, r, c) == HeaderPart(model, st.headerRows, r, c)
    requires forall r, c :: CellAt(p, r, c) ==
               if st.tableStartRow <= r < st.tableStartRow + |data| && 1 <= c <= |data[r - st.tableStartRow]|
               then Written(CellAt(h, r, c), st.norm(Str(data[r - st.tableStartRow][c - 1])))
               else CellAt(h, r, c)
    ensures forall r, c :: CellAt(p, r, c) == PlacedCell(model, data, st, r, c)
  {
  }

  /** The cells that exist after the header copy and the placing end at `BandEnd`. */
  lemma PlacedEnd(model: Sheet, data: seq<seq<string>>, st: Settings, h: Sheet, p: Sheet)
    requires forall q :: q in h.cells <==> 1 <= q.0 <= st.headerRows && 1 <= q.1 <= MaxColumn(model)
    requires forall q :: q in p.cells <==>
               q in h.cells || (st.tableStartRow <= q.0 < st.tableStartRow + |data| && 1 <= q.1 <= |data[q.0 - st.tableStartRow]|)
    requires p.merges == []
    ensures MaxRow(p) == BandEnd(data, st.headerRows, st.tableStartRow)
  {
    var tsr := st.tableStartRow;
    var x, e := MaxRow(p), BandEnd(data, st.headerRows, tsr);
    assert e <= x by {
      if e != 1 {
        assert (e, 1) in p.cells;
      }
    }
    assert x <= e by {
      if x != 1 {
        var q :| q in p.cells && q.0 == x;
        if q !in h.cells {
          assert RecordRow(data, tsr, q.0);
        }
      }
    }
  }

  /** The banding over the first half: everything a file is but the tail. */
  method Band(model: Sheet, data: seq<seq<string>>, st: Settings) returns (b: Sheet)
    ensures forall r, c :: CellAt(b, r, c) == BandedCell(model, data, st, r, c)
    ensures forall r :: Height(b, r) ==
              if st.tableStartRow <= r <= BandEnd(data, st.headerRows, st.tableStartRow)
              then Height(model, RefRow(r, st.rowRefOdd, st.rowRefEven)) else None
    ensures forall c :: Width(b, c) == if 1 <= c <= MaxColumn(model) then Width(model, c) else None
    ensures b.merges == model.merges + ReplicatedMerges(model.merges, st.rowRefOdd, st.tableStartRow, LastRow(model, data, st))
    ensures MaxRow(b) == LastRow(model, data, st)
  {
    var p := HeaderAndRecords(model, data, st);
    b := ApplyAlternating(model, p, st.tableStartRow, st.rowRefOdd, st.rowRefEven, st.copyNumberFormat);
    MergedEndIsMaxRow(model, p);
  }

  /** The tail step keeps everything but the last row's style, which it sets. */
  method Tail(model: Sheet, data: seq<seq<string>>, st: Settings, b: Sheet) returns (u: Sheet)
    requires st.tailRow
    requires forall r, c :: CellAt(b, r, c) == BandedCell(model, data, st, r, c)
    requires MaxRow(b) == LastRow(model, data, st)
    ensures forall r, c :: CellAt(u, r, c) == PartCell(model, data, st, true, r, c)
    ensures MaxRow(u) == MaxRow(b)
    ensures u.rowHeight == b.rowHeight && u.colWidth == b.colWidth && u.merges == b.merges
  {
    u := ApplyLastRowFormat(model, b, ModelLastRow);
  }

  /** One pass of the loop body of `split_csv_to_excel`: a fresh workbook, the model's header,
      the chunk's records, the banding, and the tail step on the last file. */
  method BuildPart(model: Sheet, data: seq<seq<string>>, st: Settings, last: bool) returns (u: Sheet)
    ensures IsPart(model, data, st, last, u)
  {
    var b := Band(model, data, st);
    if last && st.tailRow {
      u := Tail(model, data, st, b);
      assert forall r :: Height(u, r) == Height(b, r);
      assert forall c :: Width(u, c) == Width(b, c);
    } else {
      u := b;
    }
  }

  // ---------------------------------------------------------------------------
  // One output file, as a reader sees it

  /** Field `k` of record `j` is in column `k + 1` of row `tableStartRow + j`, normalised. */
  ghost predicate RecordValues(data: seq<seq<string>>, st: Settings, u: Sheet)
  {
    KeepsText(st.norm) ==>
      forall j, k :: 0 <= j < |data| && 0 <= k < |data[j]| ==>
        CellAt(u, st.tableStartRow + j, k + 1).value == st.norm(Str(data[j][k]))
  }

  /** With a normaliser that keeps texts, the records' values are unconditional. */
  lemma KeptValues(data: seq<seq<string>>, st: Settings, u: Sheet)
    requires KeepsText(st.norm) && RecordValues(data, st, u)
    ensures forall j, k :: 0 <= j < |data| && 0 <= k < |data[j]| ==>
              CellAt(u, st.tableStartRow + j, k + 1).value == st.norm(Str(data[j][k]))
  {
  }

  /** A cell that is neither in the header block nor a record's field holds no value. */
  ghost predicate NothingElse(model: Sheet, data: seq<seq<string>>, st: Settings, u: Sheet)
  {
    var tsr := st.tableStartRow;
    forall r, c ::
      (&& !(1 <= r <= st.headerRows && 1 <= c <= MaxColumn(model))
       && !(tsr <= r < tsr + |data| && 1 <= c <= |data[r - tsr]|)) ==> CellAt(u, r, c).value == Empty
  }

  /** The header rows above the table are the model's header copies, value and style,
      unless the tail step restyles one of them. */
  predicate HeaderCells(model: Sheet, data: seq<seq<string>>, st: Settings, last: bool, u: Sheet)
  {
    forall r, c :: 1 <= r <= st.headerRows && r < st.tableStartRow && 1 <= c <= MaxColumn(model)
                   && !(last && st.tailRow && r == LastRow(model, data, st)) ==>
      CellAt(u, r, c) == HeaderCell(CellAt(model, r, c), EmptyCell)
  }

  /** Every banded row below the header has, in the model's columns, the style its parity's
      model row hands an unstyled cell, except where the tail step restyles the last row. */
  predicate RecordStyles(model: Sheet, data: seq<seq<string>>, st: Settings, last: bool, u: Sheet)
  {
    forall r, c :: st.tableStartRow <= r <= BandEnd(data, st.headerRows, st.tableStartRow) && st.headerRows < r
                   && 1 <= c <= MaxColumn(model)
                   && !(last && st.tailRow && r == LastRow(model, data, st) && HasStyle(CellAt(model, ModelLastRow, c))) ==>
      CellAt(u, r, c).style
      == CopyStyle(CellAt(model, RefRow(r, st.rowRefOdd, st.rowRefEven), c), EmptyCell, st.copyNumberFormat).style
  }

  /** The sheet's last row has model row 45's style wherever that row has one. */
  predicate TailStyle(model: Sheet, u: Sheet)
  {
    forall c :: 1 <= c <= MaxColumn(model) && HasStyle(CellAt(model, ModelLastRow, c)) ==>
      CellAt(u, MaxRow(u), c).style == CellAt(model, ModelLastRow, c).style
  }

  /** The model's ranges in order, then only one-row copies, from the table start row to
      `max_row`, of the model ranges starting at the odd reference row, and every such copy. */
  predicate MergeList(model: Sheet, st: Settings, u: Sheet)
  {
    var odd, tsr := st.rowRefOdd, st.tableStartRow;
    && |u.merges| >= |model.merges| && u.merges[..|model.merges|] == model.merges
    && (forall k :: |model.merges| <= k < |u.merges| ==>
          OneRowCopy(model.merges, odd, tsr, u.merges[k]) && u.merges[k].minRow <= MaxRow(u))
    && (forall q, r :: q in model.merges && q.minRow == odd && tsr <= r <= MaxRow(u) ==>
          Range(r, q.minCol, r, q.maxCol) in u.merges)
  }

  /** What a file holds, as its reader would check it. */
  lemma PartFacts(model: Sheet, data: seq<seq<string>>, st: Settings, last: bool, u: Sheet)
    requires IsPart(model, data, st, last, u)
    ensures RecordValues(data, st, u) && NothingElse(model, data, st, u)
    ensures HeaderCells(model, data, st, last, u)
    ensures RecordStyles(model, data, st, last, u)
    ensures last && st.tailRow ==> TailStyle(model, u)
    ensures MergeList(model, st, u)
  {
    PartValues(model, data, st, last, u);
    PartStyles(model, data, st, last, u);
    PartMerges(model, data, st, last, u);
  }

  /** The values of a file are those the header copy and the placing wrote. */
  lemma PartValues(model: Sheet, data: seq<seq<string>>, st: Settings, last: bool, u: Sheet)
    requires forall r, c :: CellAt(u, r, c) == PartCell(model, data, st, last, r, c)
    ensures RecordValues(data, st, u) && NothingElse(model, data, st, u)
  {
    var tsr := st.tableStartRow;
    assert forall r, c :: CellAt(u, r, c).value == PlacedCell(model, data, st, r, c).value;
    if KeepsText(st.norm) {
      forall j, k | 0 <= j < |data| && 0 <= k < |data[j]|
        ensures CellAt(u, tsr + j, k + 1).value == st.norm(Str(data[j][k]))
      {
        assert !st.norm(Str(data[j][k])).Empty?;
      }
    }
  }

  /** The styles of the header rows, the banded rows and the tail row. */
  lemma PartStyles(model: Sheet, data: seq<seq<string>>, st: Settings, last: bool, u: Sheet)
    requires forall r, c :: CellAt(u, r, c) == PartCell(model, data, st, last, r, c)
    requires MaxRow(u) == LastRow(model, data, st)
    ensures HeaderCells(model, data, st, last, u)
    ensures RecordStyles(model, data, st, last, u)
    ensures last && st.tailRow ==> TailStyle(model, u)
  {
    var tsr, e := st.tableStartRow, BandEnd(data, st.headerRows, st.tableStartRow);
    forall r, c | tsr <= r <= e && st.headerRows < r && 1 <= c <= MaxColumn(model)
                  && !(last && st.tailRow && r == LastRow(model, data, st) && HasStyle(CellAt(model, ModelLastRow, c)))
      ensures CellAt(u, r, c).style
              == CopyStyle(CellAt(model, RefRow(r, st.rowRefOdd, st.rowRefEven), c), EmptyCell, st.copyNumberFormat).style
    {
      var placed := PlacedCell(model, data, st, r, c);
      assert placed.style == DefaultStyle;
      assert CellAt(u, r, c).style == BandedCell(model, data, st, r, c).style;
    }
  }

  /** The merged ranges of a file, read as membership. */
  lemma PartMerges(model: Sheet, data: seq<seq<string>>, st: Settings, last: bool, u: Sheet)
    requires u.merges == model.merges + ReplicatedMerges(model.merges, st.rowRefOdd, st.tableStartRow, LastRow(model, data, st))
    requires MaxRow(u) == LastRow(model, data, st)
    ensures MergeList(model, st, u)
  {
    var odd, tsr, m := st.rowRefOdd, st.tableStartRow, LastRow(model, data, st);
    var repl := ReplicatedMerges(model.merges, odd, tsr, m);
    assert u.merges[..|model.merges|] == model.merges;
    forall k | |model.merges| <= k < |u.merges|
      ensures OneRowCopy(model.merges, odd, tsr, u.merges[k]) && u.merges[k].minRow <= MaxRow(u)
    {
      ReplicatedMergesShape(model.merges, odd, tsr, m, k - |model.merges|);
    }
    forall q, r | q in model.merges && q.minRow == odd && tsr <= r <= MaxRow(u)
      ensures Range(r, q.minCol, r, q.maxCol) in u.merges
    {
      ReplicatedMergesComplete(model.merges, odd, tsr, m, q, r);
    }
  }

  // ---------------------------------------------------------------------------
  // Rows openpyxl refuses

  /** Every row `ws.cell` is asked for while a file holding `data` is built is at least 1,
      as openpyxl demands (it raises ValueError otherwise): the rows the records go to, the
      banded rows and the model rows they copy. The header rows and the tail rows always
      are. */
  ghost predicate RowsInRange(data: seq<seq<string>>, st: Settings)
  {
    var tsr := st.tableStartRow;
    && (forall r :: RecordRow(data, tsr, r) ==> r >= 1)
    && (forall r :: tsr <= r <= BandEnd(data, st.headerRows, tsr) ==>
          r >= 1 && RefRow(r, st.rowRefOdd, st.rowRefEven) >= 1)
  }

  /** The same test on the first two banded rows only, which between them have both
      parities. */
  predicate FirstRowsInRange(data: seq<seq<string>>, st: Settings)
  {
    var tsr, e := st.tableStartRow, BandEnd(data, st.headerRows, st.tableStartRow);
    && tsr >= 1
    && (tsr <= e ==> RefRow(tsr, st.rowRefOdd, st.rowRefEven) >= 1)
    && (tsr < e ==> RefRow(tsr + 1, st.rowRefOdd, st.rowRefEven) >= 1)
  }

  lemma FirstRowsDecide(data: seq<seq<string>>, st: Settings)
    ensures FirstRowsInRange(data, st) <==> RowsInRange(data, st)
  {
    var tsr, e := st.tableStartRow, BandEnd(data, st.headerRows, st.tableStartRow);
    var odd, even := st.rowRefOdd, st.rowRefEven;
    if FirstRowsInRange(data, st) {
      forall r | tsr <= r <= e ensures r >= 1 && RefRow(r, odd, even) >= 1 {
        if r % 2 != tsr % 2 {
          assert r != tsr && r % 2 == (tsr + 1) % 2;
        }
      }
    }
    if RowsInRange(data, st) {
      if tsr <= e {
        assert tsr >= 1 && RefRow(tsr, odd, even) >= 1;
      }
      if tsr < e {
        assert RefRow(tsr + 1, odd, even) >= 1;
      }
    }
  }

  /** A table start row below 1 always fails; from row 1 on, reference rows from 1 on
      never do. */
  lemma RowsInRangeWhen(data: seq<seq<string>>, st: Settings)
    ensures st.tableStartRow < 1 ==> !RowsInRange(data, st)
    ensures st.tableStartRow >= 1 && st.rowRefOdd >= 1 && st.rowRefEven >= 1 ==> RowsInRange(data, st)
  {
    FirstRowsDecide(data, st);
  }

  // ---------------------------------------------------------------------------
  // The whole split

  /** The records file `i` of `n` gets out of the text. */
  function FileRows(text: string, headerRows: nat, n: int, i: nat): seq<seq<string>>
    requires Unquoted(text) && n >= 1
  {
    var rows := ReadCsv(text);
    ChunkRows(rows, headerRows, ChunkSize(headerRows, |rows|, n), i)
  }

  /** Some file of the `n` asks openpyxl for a row below 1. */
  ghost predicate SomeRowOutOfRange(text: string, n: int, st: Settings)
    requires Unquoted(text)
  {
    n >= 1 && exists i :: 0 <= i < n && !RowsInRange(FileRows(text, st.headerRows, n, i), st)
  }

  /** Whether some file asks for a row below 1 is decided on the first two banded rows of
      each file. */
  lemma OutOfRangeDecided(text: string, n: int, st: Settings)
    requires Unquoted(text) && n >= 1
    ensures SomeRowOutOfRange(text, n, st) <==>
              exists i :: 0 <= i < n && !FirstRowsInRange(FileRows(text, st.headerRows, n, i), st)
  {
    forall i | 0 <= i < n {
      FirstRowsDecide(FileRows(text, st.headerRows, n, i), st);
    }
  }

  /** `split_csv_to_excel(csv_path, model_path, output_folder, product_name, n)`: the records
      after the header are cut into `n` chunks of `ceil((len(rows) - header_rows) / n)`
      records and file `i` is built from chunk `i`, named `{product}{infix}{i + 1}.xlsx`.
      `n = 0` fails on the division, a file that needs a row below 1 fails in openpyxl, and a
      negative `n` makes no file. */
  method Split(model: Sheet, text: string, product: string, n: int, st: Settings)
    returns (r: Result<seq<OutputFile>, string>)
    requires Unquoted(text)
    ensures r.Failure? <==> n == 0 || SomeRowOutOfRange(text, n, st)
    ensures r.Success? ==> |r.value| == Max(n, 0)
    ensures r.Success? ==> forall i :: 0 <= i < |r.value| ==> r.value[i].name == PartName(product, st.infix, i)
    ensures r.Success? ==> forall i :: 0 <= i < |r.value| ==>
              IsPart(model, FileRows(text, st.headerRows, n, i), st, i == n - 1, r.value[i].sheet)
  {
    if n == 0 {
      return Failure("integer division or modulo by zero");
    } else if n < 0 {
      return Success([]);
    }
    OutOfRangeDecided(text, n, st);
    if exists i :: 0 <= i < n && !FirstRowsInRange(FileRows(text, st.headerRows, n, i), st) {
      return Failure("Row or column values must be at least 1");
    }
    var rows := ReadCsv(text);
    var size := ChunkSize(st.headerRows, |rows|, n);
    var files := BuildFiles(model, rows, size, product, n, st);
    return Success(files);
  }

  /** The loop over the files, each from the records of its chunk. */
  method BuildFiles(model: Sheet, rows: seq<seq<string>>, size: int, product: string, n: nat, st: Settings)
    returns (files: seq<OutputFile>)
    ensures |files| == n
    ensures forall i :: 0 <= i < n ==> files[i].name == PartName(product, st.infix, i)
    ensures forall i :: 0 <= i < n ==>
              IsPart(model, ChunkRows(rows, st.headerRows, size, i), st, i == n - 1, files[i].sheet)
  {
    files := [];
    var i := 0;
    while i < n
      invariant 0 <= i <= n && |files| == i
      invariant forall k :: 0 <= k < i ==> files[k].name == PartName(product, st.infix, k)
      invariant forall k :: 0 <= k < i ==>
                  IsPart(model, ChunkRows(rows, st.headerRows, size, k), st, k == n - 1, files[k].sheet)
    {
      var sheet := BuildPart(model, ChunkRows(rows, st.headerRows, size, i), st, i == n - 1);
      PartsGrow(model, rows, size, product, n, st, files, OutputFile(PartName(product, st.infix, i), sheet));
      files := files + [OutputFile(PartName(product, st.infix, i), sheet)];
      i := i + 1;
    }
  }

  /** Appending file `|files|` keeps every earlier file what it was. */
  lemma PartsGrow(model: Sheet, rows: seq<seq<string>>, size: int, product: string, n: nat, st: Settings,
                  files: seq<OutputFile>, f: OutputFile)
    requires forall k :: 0 <= k < |files| ==> files[k].name == PartName(product, st.infix, k)
    requires forall k :: 0 <= k < |files| ==>
               IsPart(model, ChunkRows(rows, st.headerRows, size, k), st, k == n - 1, files[k].sheet)
    requires f.name == PartName(product, st.infix, |files|)
    requires IsPart(model, ChunkRows(rows, st.headerRows, size, |files|), st, |files| == n - 1, f.sheet)
    ensures forall k :: 0 <= k < |files| + 1 ==> (files + [f])[k].name == PartName(product, st.infix, k)
    ensures forall k :: 0 <= k < |files| + 1 ==>
              IsPart(model, ChunkRows(rows, st.headerRows, size, k), st, k == n - 1, (files + [f])[k].sheet)
  {
    forall k | 0 <= k < |files| + 1
      ensures (files + [f])[k].name == PartName(product, st.infix, k)
      ensures IsPart(model, ChunkRows(rows, st.headerRows, size, k), st, k == n - 1, (files + [f])[k].sheet)
    {
      if k < |files| {
        assert (files + [f])[k] == files[k];
      }
    }
  }

  // ---------------------------------------------------------------------------
  // From the source workbook

  /** The record the `;` reader gives back for a row `excel_to_csv` wrote. */
  function Record(row: seq<Value>): (r: seq<string>)
    ensures Line(row, ";") != "" ==> |r| == |row| && forall k :: 0 <= k < |row| ==> r[k] == FieldText(row[k])
  {
    if Line(row, ";") == "" then [] else Fields(row)
  }

  /** File `i` of `n` has a `j`-th record. */
  predicate InFile(len: int, headerRows: nat, n: int, i: nat, j: int)
  {
    n >= 1 && 0 <= j < |Chunk(headerRows, len, ChunkSize(headerRows, len, n), i)|
  }

  /** The source row the `j`-th record of file `i` comes from. */
  function SourceRow(len: int, headerRows: nat, n: int, i: nat, j: int): (r: int)
    requires InFile(len, headerRows, n, i, j)
    ensures 0 <= r < len
  {
    ChunkInBounds(headerRows, len, ChunkSize(headerRows, len, n), i);
    Chunk(headerRows, len, ChunkSize(headerRows, len, n), i)[j]
  }

  /** Written with `excel_to_csv` and read back, the source rows reach file `i` as the records
      of its chunk of row indices: record `j` is source row `SourceRow(j)` as its field texts. */
  lemma FileRowsOfWorkbook(source: seq<seq<Value>>, headerRows: nat, n: int, i: nat)
    requires PlainRows(source) && n >= 1
    ensures Unquoted(ExcelToCsv(source, ";"))
    ensures forall j :: InFile(|source|, headerRows, n, i, j) <==> 0 <= j < |FileRows(ExcelToCsv(source, ";"), headerRows, n, i)|
    ensures forall j :: InFile(|source|, headerRows, n, i, j) ==>
              && 0 <= SourceRow(|source|, headerRows, n, i, j) < |source|
              && FileRows(ExcelToCsv(source, ";"), headerRows, n, i)[j] == Record(source[SourceRow(|source|, headerRows, n, i, j)])
  {
    ReadExcelToCsv(source);
  }
}
