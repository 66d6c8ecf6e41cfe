/** The splitter of common/utilities/xls_splitter.py, which works on the source sheet itself:
    every output file gets the source's first 12 rows (row 11 with a thin dark-grey bottom
    border), their heights, the column widths and the merged ranges, and then the source rows
    of its chunk AT THEIR OWN ROW NUMBERS, each cell's date-time turned into its day. Reading
    a source cell creates it, and formatting a date-time gives the source cell the
    `DD/MM/YYYY` number format, so the source sheet is threaded through the files. */
module XlsSplitter {
  import opened Prelude
  import opened Text
  import opened Values
  import opened Sheets
  import opened Layout
  import opened Partition

  // ---------------------------------------------------------------------------
  // Removing the odd columns

  /** The sheet holds a cell at row `r`, column `k`. */
  predicate Occupied(s: Sheet, r: int, k: int)
  {
    (r, k) in s.cells
  }

  /** The column a cell comes from after `delete_cols(c)`. */
  function ShiftSource(c: int, k: int): int
  {
    if k < c then k else k + 1
  }

  /** `sheet.delete_cols(c)`: column `c` goes and every column to its right moves one place
      left, cells with their styles; merged ranges, widths and heights stay where they are. */
  method DeleteCol(s: Sheet, c: int) returns (u: Sheet)
    ensures forall r, k :: CellAt(u, r, k) == CellAt(s, r, ShiftSource(c, k))
    ensures forall r, k :: Occupied(u, r, k) <==> Occupied(s, r, ShiftSource(c, k))
    ensures u.rowHeight == s.rowHeight && u.colWidth == s.colWidth && u.merges == s.merges
  {
    u := s.(cells := ShiftedCells(s, c));
  }

  /** Where the cell at `p` goes when column `c` is deleted. */
  function ShiftTarget(c: int, p: (int, int)): (int, int)
  {
    if p.1 < c then p else (p.0, p.1 - 1)
  }

  /** The cells of `s` after column `c` is deleted. */
  function ShiftedCells(s: Sheet, c: int): (m: map<(int, int), Cell>)
    ensures forall r, k :: (r, k) in m <==> Occupied(s, r, ShiftSource(c, k))
    ensures forall r, k :: (r, k) in m ==> m[(r, k)] == CellAt(s, r, ShiftSource(c, k))
  {
    var targets := set p | p in s.cells :: ShiftTarget(c, p);
    forall r, k | Occupied(s, r, ShiftSource(c, k))
      ensures (r, k) in targets
    {
      var p := (r, ShiftSource(c, k));
      assert ShiftTarget(c, p) == (r, k);
    }
    map q | q in targets && (q.0, ShiftSource(c, q.1)) in s.cells :: s.cells[(q.0, ShiftSource(c, q.1))]
  }

  /** The column a cell at column `k` comes from once the odd columns `top, top - 2, ..,
      c + 2` are deleted, in that order. */
  function SourceColumn(c: int, top: int, k: int): int
    decreases top - c
  {
    if c >= top then k else SourceColumn(c + 2, top, ShiftSource(c + 2, k))
  }

  /** The same, in closed form: the columns up to `c + 1` stay, the even columns up to
      `top + 1` close up behind them, and the columns after `top + 1` follow. */
  function Spread(c: int, top: int, k: int): int
  {
    var j, n := k - (c + 1), (top - c) / 2;
    if k <= c + 1 then k else if j <= n then c + 1 + 2 * j else k + n
  }

  /** One deletion more, in closed form. */
  lemma SpreadStep(c: int, top: int, k: int)
    requires c % 2 == 1 && top % 2 == 1 && c + 2 <= top
    ensures Spread(c + 2, top, ShiftSource(c + 2, k)) == Spread(c, top, k)
  {
    assert (top - c) / 2 == (top - (c + 2)) / 2 + 1;
  }

  lemma {:induction false} SourceColumnSpread(c: int, top: int, k: int)
    requires c % 2 == 1 && top % 2 == 1 && c <= top
    ensures SourceColumn(c, top, k) == Spread(c, top, k)
    decreases top - c
  {
    if c < top {
      SourceColumnSpread(c + 2, top, ShiftSource(c + 2, k));
      SpreadStep(c, top, k);
    }
  }

  /** The largest odd number up to `m`. */
  function LastOdd(m: int): (c: int)
    ensures c % 2 == 1 && m - 1 <= c <= m
  {
    if m % 2 == 1 then m else m - 1
  }

  /** `remove_odd_columns(sheet)`: the odd columns `1, 3, ..` up to `max_column`, deleted
      from the last one back. Column `k` ends up holding what column `2k` held, no cell is
      left beyond column `max_column / 2`, and ranges, widths and heights are as they were. */
  method RemoveOddColumns(s: Sheet) returns (u: Sheet)
    ensures forall r, k :: k >= 1 ==> CellAt(u, r, k) == CellAt(s, r, 2 * k)
    ensures forall r, k :: k < 1 ==> CellAt(u, r, k) == CellAt(s, r, k)
    ensures forall r, k :: 1 <= k ==> (Occupied(u, r, k) <==> Occupied(s, r, 2 * k))
    ensures forall p :: p in u.cells && p.1 >= 1 ==> p.1 <= MaxColumn(s) / 2
    ensures u.rowHeight == s.rowHeight && u.colWidth == s.colWidth && u.merges == s.merges
  {
    var top := LastOdd(MaxColumn(s));
    u := DeleteOddColumns(s, top);
    EvenColumns(s, u, top);
  }

  /** The deletion loop: the odd columns `top, top - 2, .., 1`, in that order. */
  method DeleteOddColumns(s: Sheet, top: int) returns (u: Sheet)
    requires top % 2 == 1 && top >= -1
    ensures forall r, k :: CellAt(u, r, k) == CellAt(s, r, SourceColumn(-1, top, k))
    ensures forall r, k :: Occupied(u, r, k) <==> Occupied(s, r, SourceColumn(-1, top, k))
    ensures u.rowHeight == s.rowHeight && u.colWidth == s.colWidth && u.merges == s.merges
  {
    var c := top;
    ghost var passes := 0;
    u := s;
    while c >= 1
      invariant -1 <= c <= top && c == top - 2 * passes
      invariant forall r, k {:trigger CellAt(u, r, k)} :: CellAt(u, r, k) == CellAt(s, r, SourceColumn(c, top, k))
      invariant forall r, k {:trigger Occupied(u, r, k)} :: Occupied(u, r, k) <==> Occupied(s, r, SourceColumn(c, top, k))
      invariant u.rowHeight == s.rowHeight && u.colWidth == s.colWidth && u.merges == s.merges
      decreases c
    {
      var d := DeleteCol(u, c);
      DeleteStep(s, u, d, c, top);
      u, c, passes := d, c - 2, passes + 1;
    }
    OddStep(top, passes);
  }

  /** An odd number less an even one is not zero. */
  lemma OddStep(top: int, passes: int)
    requires top % 2 == 1
    ensures top - 2 * passes != 0
  {
  }

  /** One pass of the deletion loop keeps its invariant. */
  lemma DeleteStep(s: Sheet, u: Sheet, d: Sheet, c: int, top: int)
    requires c <= top
    requires forall r, k :: CellAt(u, r, k) == CellAt(s, r, SourceColumn(c, top, k))
    requires forall r, k :: Occupied(u, r, k) <==> Occupied(s, r, SourceColumn(c, top, k))
    requires forall r, k :: CellAt(d, r, k) == CellAt(u, r, ShiftSource(c, k))
    requires forall r, k :: Occupied(d, r, k) <==> Occupied(u, r, ShiftSource(c, k))
    ensures forall r, k :: CellAt(d, r, k) == CellAt(s, r, SourceColumn(c - 2, top, k))
    ensures forall r, k :: Occupied(d, r, k) <==> Occupied(s, r, SourceColumn(c - 2, top, k))
  {
    forall r, k
      ensures CellAt(d, r, k) == CellAt(s, r, SourceColumn(c - 2, top, k))
      ensures Occupied(d, r, k) <==> Occupied(s, r, SourceColumn(c - 2, top, k))
    {
      var j := ShiftSource(c, k);
      assert SourceColumn(c - 2, top, k) == SourceColumn(c, top, j);
      assert CellAt(d, r, k) == CellAt(u, r, j) && (Occupied(d, r, k) <==> Occupied(u, r, j));
    }
  }

  /** Once every odd column up to `top` is gone, column `k` is what column `2k` was. */
  lemma EvenColumns(s: Sheet, u: Sheet, top: int)
    requires top % 2 == 1 && MaxColumn(s) - 1 <= top <= MaxColumn(s)
    requires forall r, k :: CellAt(u, r, k) == CellAt(s, r, SourceColumn(-1, top, k))
    requires forall r, k :: Occupied(u, r, k) <==> Occupied(s, r, SourceColumn(-1, top, k))
    ensures forall r, k :: k >= 1 ==> CellAt(u, r, k) == CellAt(s, r, 2 * k)
    ensures forall r, k :: k < 1 ==> CellAt(u, r, k) == CellAt(s, r, k)
    ensures forall r, k :: 1 <= k ==> (Occupied(u, r, k) <==> Occupied(s, r, 2 * k))
    ensures forall p :: p in u.cells && p.1 >= 1 ==> p.1 <= MaxColumn(s) / 2
  {
    var m := MaxColumn(s);
    forall r, k
      ensures k >= 1 ==> CellAt(u, r, k) == CellAt(s, r, 2 * k)
      ensures k < 1 ==> CellAt(u, r, k) == CellAt(s, r, k)
      ensures k >= 1 ==> (Occupied(u, r, k) <==> Occupied(s, r, 2 * k))
    {
      SourceColumnSpread(-1, top, k);
      if k > (top + 1) / 2 {
        assert !Occupied(s, r, Spread(-1, top, k)) && !Occupied(s, r, 2 * k);
      }
    }
    forall p | p in u.cells && p.1 >= 1 ensures p.1 <= m / 2 {
      assert Occupied(u, p.0, p.1) && Occupied(s, p.0, 2 * p.1);
    }
  }

  // ---------------------------------------------------------------------------
  // The header

  /** The bottom border `copy_header` gives row 11: thin and dark grey, no other side. */
  const GrayBottom := Border(NoSide, NoSide, NoSide, Side(Some("thin"), Some("A0A0A0")))

  function Bordered(c: Cell): (r: Cell)
    ensures r.value == c.value && r.style.border.bottom.color == Some("A0A0A0")
    ensures r.style == c.style.(border := GrayBottom)
  {
    c.(style := c.style.(border := GrayBottom))
  }

  /** What `copy_header` does to its source: reading rows 1..12 over its columns creates
      those cells, which changes no cell's contents and no column count but raises
      `max_row` to at least 12. */
  method TouchHeader(source: Sheet) returns (src: Sheet)
    ensures forall r, c :: CellAt(src, r, c) == CellAt(source, r, c)
    ensures MaxColumn(src) == MaxColumn(source) && MaxRow(src) == Max(MaxRow(source), 12)
    ensures src.rowHeight == source.rowHeight && src.colWidth == source.colWidth && src.merges == source.merges
  {
    src := TouchBlock(source, 1, 12, MaxColumn(source));
    TouchKeepsSize(source, src);
  }

  /** Reading cells `a .. b` over columns `1 .. cols` creates the missing ones, empty. */
  method TouchBlock(s: Sheet, a: int, b: int, cols: int) returns (u: Sheet)
    ensures forall r, c :: CellAt(u, r, c) == CellAt(s, r, c)
    ensures forall p :: p in u.cells <==> p in s.cells || (a <= p.0 <= b && 1 <= p.1 <= cols)
    ensures u.rowHeight == s.rowHeight && u.colWidth == s.colWidth && u.merges == s.merges
  {
    u := UpdateBlock(s, a, b, 1, cols, (p: (int, int), c: Cell) => c);
  }

  /** Creating cells 1..12 of the used columns raises `max_row` to 12 at least. */
  lemma TouchKeepsSize(s: Sheet, u: Sheet)
    requires forall p :: p in u.cells <==> p in s.cells || (1 <= p.0 <= 12 && 1 <= p.1 <= MaxColumn(s))
    requires u.merges == s.merges
    ensures MaxColumn(u) == MaxColumn(s) && MaxRow(u) == Max(MaxRow(s), 12)
  {
    MaxColumnStable(s, u);
    MaxRowRaised(s, u, 12, 1);
  }

  /** The grey bottom border on row 11, columns `1 .. cols`. */
  method BorderRow(t: Sheet, cols: int) returns (u: Sheet)
    ensures forall r, c :: CellAt(u, r, c) == if r == 11 && 1 <= c <= cols then Bordered(CellAt(t, r, c)) else CellAt(t, r, c)
    ensures u.rowHeight == t.rowHeight && u.colWidth == t.colWidth && u.merges == t.merges
  {
    u := UpdateRow(t, 11, 1, cols, (p: (int, int), c: Cell) => Bordered(c));
  }

  /** What `copy_header` does to its target: rows 1..12 over the source's columns as the
      header copy of every splitter, the widths of those columns, the heights of rows 1..12,
      the grey bottom border on row 11 across the target's columns, and the source's merged
      ranges. */
  method HeaderTarget(source: Sheet, target: Sheet) returns (t: Sheet)
    ensures forall r, c :: 1 <= r <= 12 && r != 11 && 1 <= c <= MaxColumn(source) ==>
              CellAt(t, r, c) == HeaderCell(CellAt(source, r, c), CellAt(target, r, c))
    ensures forall c :: 1 <= c <= MaxColumn(source) ==>
              CellAt(t, 11, c) == Bordered(HeaderCell(CellAt(source, 11, c), CellAt(target, 11, c)))
    ensures forall r, c :: (r < 1 || 12 < r) ==> CellAt(t, r, c) == CellAt(target, r, c)
    ensures forall r :: Height(t, r) == if 1 <= r <= 12 then Height(source, r) else Height(target, r)
    ensures forall c :: Width(t, c) == if 1 <= c <= MaxColumn(source) then Width(source, c) else Width(target, c)
    ensures t.merges == target.merges + source.merges
  {
    var t2 := CopyHeaderRows(source, target);
    var t3 := BorderRow(t2, MaxColumn(t2));
    t := CopyMerges(source, t3);
  }

  /** `copy_header(source_sheet, target_sheet)`, on both sheets. */
  method CopyHeader(source: Sheet, target: Sheet) returns (t: Sheet, src: Sheet)
    ensures forall r, c :: 1 <= r <= 12 && r != 11 && 1 <= c <= MaxColumn(source) ==>
              CellAt(t, r, c) == HeaderCell(CellAt(source, r, c), CellAt(target, r, c))
    ensures forall c :: 1 <= c <= MaxColumn(source) ==>
              CellAt(t, 11, c) == Bordered(HeaderCell(CellAt(source, 11, c), CellAt(target, 11, c)))
    ensures forall r, c :: (r < 1 || 12 < r) ==> CellAt(t, r, c) == CellAt(target, r, c)
    ensures forall r :: Height(t, r) == if 1 <= r <= 12 then Height(source, r) else Height(target, r)
    ensures forall c :: Width(t, c) == if 1 <= c <= MaxColumn(source) then Width(source, c) else Width(target, c)
    ensures t.merges == target.merges + source.merges
    ensures forall r, c :: CellAt(src, r, c) == CellAt(source, r, c)
    ensures MaxColumn(src) == MaxColumn(source) && MaxRow(src) == Max(MaxRow(source), 12)
    ensures src.rowHeight == source.rowHeight && src.colWidth == source.colWidth && src.merges == source.merges
  {
    t := HeaderTarget(source, target);
    src := TouchHeader(source);
  }

  // ---------------------------------------------------------------------------
  // The data rows

  /** One data cell: `format_date_cell` on the source cell, its result written into the
      target, then the style copy, without number format, from the source cell as
      `format_date_cell` left it. */
  function DataCell(src: Cell, tgt: Cell): (r: Cell)
    ensures src.value.Stamp? ==> r.value == Day(DateOf(src.value.t))
    ensures !src.value.Stamp? ==> r.value == (if src.value.Empty? then tgt.value else src.value)
    ensures HasStyle(src) || src.value.Stamp? ==> r.style == src.style.(numberFormat := tgt.style.numberFormat)
    ensures !HasStyle(src) && !src.value.Stamp? ==> r.style == tgt.style
  {
    var (v, formatted) := FormatDateCell(src);
    CopyStyle(formatted, Written(tgt, v), false)
  }

  /** The data loop of `split_excel` on the target, source rows `a .. b` over columns
      `1 .. cols`: each target cell becomes the data cell of its source cell. */
  method CopyRows(src: Sheet, t: Sheet, a: int, b: int, cols: int) returns (u: Sheet)
    ensures forall r, c :: CellAt(u, r, c) ==
              if a <= r <= b && 1 <= c <= cols then DataCell(CellAt(src, r, c), CellAt(t, r, c)) else CellAt(t, r, c)
    ensures u.rowHeight == t.rowHeight && u.colWidth == t.colWidth && u.merges == t.merges
  {
    u := UpdateBlock(t, a, b, 1, cols, (p: (int, int), c: Cell) => DataCell(CellAt(src, p.0, p.1), c));
  }

  /** The same loop on the source: each cell read is left as `format_date_cell` leaves it,
      which changes no value. */
  method FormatRows(src: Sheet, a: int, b: int, cols: int) returns (src2: Sheet)
    ensures forall r, c :: CellAt(src2, r, c) ==
              if a <= r <= b && 1 <= c <= cols then FormatDateCell(CellAt(src, r, c)).1 else CellAt(src, r, c)
    ensures forall p :: p in src2.cells <==> p in src.cells || (a <= p.0 <= b && 1 <= p.1 <= cols)
    ensures src2.rowHeight == src.rowHeight && src2.colWidth == src.colWidth && src2.merges == src.merges
  {
    src2 := UpdateBlock(src, a, b, 1, cols, (p: (int, int), c: Cell) => FormatDateCell(c).1);
  }

  /** Touching cells inside the used columns, and inside the used rows, changes neither
      count. */
  lemma BlockKeepsSize(s: Sheet, u: Sheet, a: int, b: int)
    requires forall p :: p in u.cells <==> p in s.cells || (a <= p.0 <= b && 1 <= p.1 <= MaxColumn(s))
    requires u.merges == s.merges
    ensures MaxColumn(u) == MaxColumn(s)
    ensures b <= MaxRow(s) ==> MaxRow(u) == MaxRow(s)
  {
    MaxColumnStable(s, u);
    if b <= MaxRow(s) {
      MaxRowStable(s, u);
    }
  }

  // ---------------------------------------------------------------------------
  // The split

  /** Sheet row `r` belongs to file `i`: from `13 + i*size` to `min(12 + (i+1)*size, last)`. */
  predicate InChunk(size: int, last: int, i: nat, r: int)
  {
    13 + Offset(i, size) <= r <= Min(12 + Offset(i + 1, size), last)
  }

  /** A chunk holds no header row, and lies before the rows of every later chunk. */
  lemma InChunkPlace(size: int, last: int, i: nat, r: int)
    requires InChunk(size, last, i, r)
    ensures size >= 1 && 13 + Offset(i, size) >= 13
    ensures 13 + Max(Offset(i, size), 0) <= r < 13 + Max(Offset(i + 1, size), 0)
  {
    OffsetMonotone(0, i, size);
  }

  /** The header of a file: the source's rows 1..12, row 11 with the grey border. */
  ghost predicate XlsHeader(source: Sheet, u: Sheet)
  {
    && (forall r, c :: 1 <= r <= 12 && r != 11 && 1 <= c <= MaxColumn(source) ==>
          CellAt(u, r, c) == HeaderCell(CellAt(source, r, c), EmptyCell))
    && (forall c :: 1 <= c <= MaxColumn(source) ==> CellAt(u, 11, c) == Bordered(HeaderCell(CellAt(source, 11, c), EmptyCell)))
  }

  /** The dimensions and ranges of a file: the header heights, the source's widths, its
      merged ranges. */
  ghost predicate XlsLayout(source: Sheet, u: Sheet)
  {
    && (forall r :: Height(u, r) == if 1 <= r <= 12 then Height(source, r) else None)
    && (forall c :: Width(u, c) == if 1 <= c <= MaxColumn(source) then Width(source, c) else None)
    && u.merges == source.merges
  }

  /** The body of file `i`: the data cells of its chunk's rows at their own row numbers, and
      nothing else below the header. */
  ghost predicate XlsBody(source: Sheet, size: int, i: nat, u: Sheet)
  {
    var last := Max(MaxRow(source), 12);
    && (forall r, c :: InChunk(size, last, i, r) && 1 <= c <= MaxColumn(source) ==>
          CellAt(u, r, c) == DataCell(CellAt(source, r, c), EmptyCell))
    && (forall r, c :: r < 1 || (12 < r && !(InChunk(size, last, i, r) && 1 <= c <= MaxColumn(source))) ==>
          CellAt(u, r, c) == EmptyCell)
  }

  /** What file `i` of the split holds, `size` rows per file. */
  ghost predicate XlsFile(source: Sheet, size: int, i: nat, u: Sheet)
  {
    XlsHeader(source, u) && XlsLayout(source, u) && XlsBody(source, size, i, u)
  }

  /** The source sheet as the loop leaves it before file `i`: every value as it was, every
      cell as it was outside the rows already copied, the same columns, rows, dimensions and
      ranges. */
  ghost predicate SourceBefore(source: Sheet, size: int, i: nat, src: Sheet)
  {
    && (forall r, c :: CellAt(src, r, c).value == CellAt(source, r, c).value)
    && (forall r, c :: r < 13 || r >= 13 + Max(Offset(i, size), 0) ==> CellAt(src, r, c) == CellAt(source, r, c))
    && MaxColumn(src) == MaxColumn(source)
    && (MaxRow(src) == MaxRow(source) || MaxRow(src) == Max(MaxRow(source), 12))
    && src.rowHeight == source.rowHeight && src.colWidth == source.colWidth && src.merges == source.merges
  }

  /** The header of file `i`, built from the source as the loop left it. */
  method BuildHeader(src: Sheet, ghost source: Sheet, size: int, i: nat) returns (t: Sheet, s1: Sheet)
    requires SourceBefore(source, size, i, src)
    ensures XlsHeader(source, t) && XlsLayout(source, t)
    ensures forall r, c :: (r < 1 || 12 < r) ==> CellAt(t, r, c) == EmptyCell
    ensures SourceBefore(source, size, i, s1) && MaxRow(s1) == Max(MaxRow(source), 12)
  {
    t := HeaderTarget(src, Blank);
    s1 := TouchHeader(src);
    HeaderOfFile(src, t, source, size, i);
  }

  /** The header `copy_header` gives a new sheet from the source as the loop left it is the
      header of the source itself: the loop has not touched rows 1..12. */
  lemma HeaderOfFile(src: Sheet, t: Sheet, source: Sheet, size: int, i: nat)
    requires SourceBefore(source, size, i, src)
    requires forall r, c :: 1 <= r <= 12 && r != 11 && 1 <= c <= MaxColumn(src) ==>
               CellAt(t, r, c) == HeaderCell(CellAt(src, r, c), CellAt(Blank, r, c))
    requires forall c :: 1 <= c <= MaxColumn(src) ==>
               CellAt(t, 11, c) == Bordered(HeaderCell(CellAt(src, 11, c), CellAt(Blank, 11, c)))
    requires forall r, c :: (r < 1 || 12 < r) ==> CellAt(t, r, c) == CellAt(Blank, r, c)
    requires forall r :: Height(t, r) == if 1 <= r <= 12 then Height(src, r) else Height(Blank, r)
    requires forall c :: Width(t, c) == if 1 <= c <= MaxColumn(src) then Width(src, c) else Width(Blank, c)
    requires t.merges == Blank.merges + src.merges
    ensures XlsHeader(source, t) && XlsLayout(source, t)
    ensures forall r, c :: (r < 1 || 12 < r) ==> CellAt(t, r, c) == EmptyCell
  {
    HeaderCellsOfFile(src, t, source, size, i);
    HeaderLayoutOfFile(src, t, source, size, i);
  }

  /** The cells half of `HeaderOfFile`. */
  lemma HeaderCellsOfFile(src: Sheet, t: Sheet, source: Sheet, size: int, i: nat)
    requires SourceBefore(source, size, i, src)
    requires forall r, c :: 1 <= r <= 12 && r != 11 && 1 <= c <= MaxColumn(src) ==>
               CellAt(t, r, c) == HeaderCell(CellAt(src, r, c), CellAt(Blank, r, c))
    requires forall c :: 1 <= c <= MaxColumn(src) ==>
               CellAt(t, 11, c) == Bordered(HeaderCell(CellAt(src, 11, c), CellAt(Blank, 11, c)))
    requires forall r, c :: (r < 1 || 12 < r) ==> CellAt(t, r, c) == CellAt(Blank, r, c)
    ensures XlsHeader(source, t)
    ensures forall r, c :: (r < 1 || 12 < r) ==> CellAt(t, r, c) == EmptyCell
  {
  }

  /** The dimensions half of `HeaderOfFile`. */
  lemma HeaderLayoutOfFile(src: Sheet, t: Sheet, source: Sheet, size: int, i: nat)
    requires SourceBefore(source, size, i, src)
    requires forall r :: Height(t, r) == if 1 <= r <= 12 then Height(src, r) else Height(Blank, r)
    requires forall c :: Width(t, c) == if 1 <= c <= MaxColumn(src) then Width(src, c) else Width(Blank, c)
    requires t.merges == Blank.merges + src.merges
    ensures XlsLayout(source, t)
  {
    assert Blank.merges + src.merges == source.merges;
  }

  /** The rows of file `i`, copied under its header. */
  method BuildBody(s1: Sheet, t: Sheet, ghost source: Sheet, size: int, i: nat) returns (u: Sheet, src2: Sheet)
    requires XlsHeader(source, t) && XlsLayout(source, t)
    requires forall r, c :: (r < 1 || 12 < r) ==> CellAt(t, r, c) == EmptyCell
    requires SourceBefore(source, size, i, s1) && MaxRow(s1) == Max(MaxRow(source), 12)
    ensures XlsFile(source, size, i, u)
    ensures SourceBefore(source, size, i + 1, src2) && MaxRow(src2) == Max(MaxRow(source), 12)
  {
    u := CopyChunk(s1, t, source, size, i);
    src2 := FormatChunk(s1, source, size, i);
  }

  /** The rows of chunk `i` of the source, copied under the header. */
  method CopyChunk(s1: Sheet, t: Sheet, ghost source: Sheet, size: int, i: nat) returns (u: Sheet)
    requires XlsHeader(source, t) && XlsLayout(source, t)
    requires forall r, c :: (r < 1 || 12 < r) ==> CellAt(t, r, c) == EmptyCell
    requires SourceBefore(source, size, i, s1) && MaxRow(s1) == Max(MaxRow(source), 12)
    ensures XlsFile(source, size, i, u)
  {
    var a, b := 13 + Offset(i, size), Min(12 + Offset(i + 1, size), MaxRow(s1));
    u := CopyRows(s1, t, a, b, MaxColumn(s1));
    BodyOfFile(s1, t, u, source, size, i, a, b);
  }

  /** The rows of chunk `i` of the source as reading and formatting them leaves them. */
  method FormatChunk(s1: Sheet, ghost source: Sheet, size: int, i: nat) returns (src2: Sheet)
    requires SourceBefore(source, size, i, s1) && MaxRow(s1) == Max(MaxRow(source), 12)
    ensures SourceBefore(source, size, i + 1, src2) && MaxRow(src2) == Max(MaxRow(source), 12)
  {
    var a, b := 13 + Offset(i, size), Min(12 + Offset(i + 1, size), MaxRow(s1));
    src2 := FormatRows(s1, a, b, MaxColumn(s1));
    SourceAfterFile(s1, src2, source, size, i, a, b);
  }

  /** The cells of a file, from the header and the rows copied under it. */
  lemma BodyOfFile(s1: Sheet, t: Sheet, u: Sheet, source: Sheet, size: int, i: nat, a: int, b: int)
    requires a == 13 + Offset(i, size) && b == Min(12 + Offset(i + 1, size), MaxRow(s1))
    requires XlsHeader(source, t) && XlsLayout(source, t)
    requires forall r, c :: (r < 1 || 12 < r) ==> CellAt(t, r, c) == EmptyCell
    requires SourceBefore(source, size, i, s1) && MaxRow(s1) == Max(MaxRow(source), 12)
    requires forall r, c :: CellAt(u, r, c) ==
               if a <= r <= b && 1 <= c <= MaxColumn(s1) then DataCell(CellAt(s1, r, c), CellAt(t, r, c)) else CellAt(t, r, c)
    requires u.rowHeight == t.rowHeight && u.colWidth == t.colWidth && u.merges == t.merges
    ensures XlsFile(source, size, i, u)
  {
    var last := MaxRow(s1);
    CopiedCells(s1, t, u, source, size, i, a, b);
    forall r | r <= 12 ensures !InChunk(size, last, i, r) {
      if InChunk(size, last, i, r) {
        InChunkPlace(size, last, i, r);
      }
    }
    assert forall r :: Height(u, r) == Height(t, r);
    assert forall c :: Width(u, c) == Width(t, c);
  }

  /** Every cell of the file: the source's data cell in the rows and columns of chunk `i`,
      the header sheet's cell everywhere else. */
  lemma CopiedCells(s1: Sheet, t: Sheet, u: Sheet, source: Sheet, size: int, i: nat, a: int, b: int)
    requires a == 13 + Offset(i, size) && b == Min(12 + Offset(i + 1, size), MaxRow(s1))
    requires forall r, c :: (r < 1 || 12 < r) ==> CellAt(t, r, c) == EmptyCell
    requires SourceBefore(source, size, i, s1)
    requires forall r, c :: CellAt(u, r, c) ==
               if a <= r <= b && 1 <= c <= MaxColumn(s1) then DataCell(CellAt(s1, r, c), CellAt(t, r, c)) else CellAt(t, r, c)
    ensures forall r, c :: CellAt(u, r, c) ==
              if InChunk(size, MaxRow(s1), i, r) && 1 <= c <= MaxColumn(source)
              then DataCell(CellAt(source, r, c), EmptyCell) else CellAt(t, r, c)
  {
    forall r, c
      ensures CellAt(u, r, c) ==
              if InChunk(size, MaxRow(s1), i, r) && 1 <= c <= MaxColumn(source)
              then DataCell(CellAt(source, r, c), EmptyCell) else CellAt(t, r, c)
    {
      if InChunk(size, MaxRow(s1), i, r) {
        InChunkPlace(size, MaxRow(s1), i, r);
      }
    }
  }

  /** The source as a file leaves it: the rows of this chunk are no longer as they were,
      every other cell still is. */
  lemma SourceAfterFile(s1: Sheet, src2: Sheet, source: Sheet, size: int, i: nat, a: int, b: int)
    requires a == 13 + Offset(i, size) && b == Min(12 + Offset(i + 1, size), MaxRow(s1))
    requires SourceBefore(source, size, i, s1) && MaxRow(s1) == Max(MaxRow(source), 12)
    requires forall r, c :: CellAt(src2, r, c) ==
               if a <= r <= b && 1 <= c <= MaxColumn(s1) then FormatDateCell(CellAt(s1, r, c)).1 else CellAt(s1, r, c)
    requires forall p :: p in src2.cells <==> p in s1.cells || (a <= p.0 <= b && 1 <= p.1 <= MaxColumn(s1))
    requires src2.rowHeight == s1.rowHeight && src2.colWidth == s1.colWidth && src2.merges == s1.merges
    ensures SourceBefore(source, size, i + 1, src2) && MaxRow(src2) == MaxRow(s1)
  {
    var last := MaxRow(s1);
    BlockKeepsSize(s1, src2, a, b);
    ChunkStartsRise(size, i);
    assert forall r, c :: CellAt(src2, r, c).value == CellAt(s1, r, c).value;
    forall r, c | r < 13 || r >= 13 + Max(Offset(i + 1, size), 0)
      ensures CellAt(src2, r, c) == CellAt(source, r, c)
    {
      if InChunk(size, last, i, r) {
        InChunkPlace(size, last, i, r);
      }
    }
  }

  /** The first row not yet copied only moves down from one file to the next, whatever
      the sign of `size`. */
  lemma ChunkStartsRise(size: int, i: nat)
    ensures Max(Offset(i, size), 0) <= Max(Offset(i + 1, size), 0)
  {
    if size >= 0 {
      OffsetMonotone(i, i + 1, size);
    } else {
      OffsetMonotone(0, i, -size);
      OffsetNegate(i, size);
    }
  }

  /** One pass of the loop body of `split_excel`. */
  method BuildFile(src: Sheet, ghost source: Sheet, size: int, i: nat) returns (u: Sheet, src2: Sheet)
    requires SourceBefore(source, size, i, src)
    ensures XlsFile(source, size, i, u)
    ensures SourceBefore(source, size, i + 1, src2) && MaxRow(src2) == Max(MaxRow(source), 12)
  {
    var t, s1 := BuildHeader(src, source, size, i);
    u, src2 := BuildBody(s1, t, source, size, i);
  }

  /** `split_excel(input_file, product_name, output_folder, N)`: `N` files named
      `{product}_part_{i + 1}.xlsx`, `size = ceil((max_row - 12) / N)` source rows each, file
      `i` built as `XlsFile` says; `N = 0` fails on the division before anything happens.
      The source comes out with the same values, `max_row` raised to at least 12 once a file
      was made, and the same columns. */
  method SplitExcel(source: Sheet, product: string, n: int) returns (r: Result<seq<OutputFile>, string>, after: Sheet)
    ensures r.Failure? <==> n == 0
    ensures r.Success? ==> |r.value| == Max(n, 0)
    ensures r.Success? ==> forall i :: 0 <= i < |r.value| ==> r.value[i].name == PartName(product, "_part_", i)
    ensures r.Success? ==> forall i :: 0 <= i < |r.value| ==>
              XlsFile(source, CeilDiv(MaxRow(source) - 12, n), i, r.value[i].sheet)
    ensures forall row, col :: CellAt(after, row, col).value == CellAt(source, row, col).value
    ensures MaxColumn(after) == MaxColumn(source)
    ensures n >= 1 ==> MaxRow(after) == Max(MaxRow(source), 12)
  {
    if n == 0 {
      return Failure("division by zero"), source;
    } else if n < 0 {
      return Success([]), source;
    }
    var size := CeilDiv(MaxRow(source) - 12, n);
    var files;
    files, after := BuildFiles(source, product, n, size);
    return Success(files), after;
  }

  /** The loop of `split_excel` over the files, `size` source rows each. */
  method BuildFiles(source: Sheet, product: string, n: nat, size: int) returns (files: seq<OutputFile>, after: Sheet)
    ensures |files| == n
    ensures forall i :: 0 <= i < n ==> files[i].name == PartName(product, "_part_", i)
    ensures forall i :: 0 <= i < n ==> XlsFile(source, size, i, files[i].sheet)
    ensures SourceBefore(source, size, n, after)
    ensures n >= 1 ==> MaxRow(after) == Max(MaxRow(source), 12)
  {
    files := [];
    after := source;
    var i := 0;
    while i < n
      invariant 0 <= i <= n && |files| == i
      invariant FilesSoFar(source, size, product, files)
      invariant SourceBefore(source, size, i, after)
      invariant i >= 1 ==> MaxRow(after) == Max(MaxRow(source), 12)
    {
      var u;
      u, after := BuildFile(after, source, size, i);
      var f := OutputFile(PartName(product, "_part_", i), u);
      FilesExtend(source, size, product, files, f);
      files := files + [f];
      i := i + 1;
    }
  }

  /** The files so far are named and built as the split makes them. */
  ghost predicate FilesSoFar(source: Sheet, size: int, product: string, files: seq<OutputFile>)
  {
    forall k :: 0 <= k < |files| ==>
      files[k].name == PartName(product, "_part_", k) && XlsFile(source, size, k, files[k].sheet)
  }

  /** One more file, of the next index and name, keeps the files as the split makes them. */
  lemma FilesExtend(source: Sheet, size: int, product: string, files: seq<OutputFile>, f: OutputFile)
    requires FilesSoFar(source, size, product, files)
    requires f.name == PartName(product, "_part_", |files|) && XlsFile(source, size, |files|, f.sheet)
    ensures FilesSoFar(source, size, product, files + [f])
  {
    var fs := files + [f];
    forall k | 0 <= k < |fs|
      ensures fs[k].name == PartName(product, "_part_", k) && XlsFile(source, size, k, fs[k].sheet)
    {
      if k < |files| {
        assert fs[k] == files[k];
      }
    }
  }
}
