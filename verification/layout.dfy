/** The layout transforms the splitters apply to an output sheet, each written as the loop
    the source runs (cell after cell, row after row) and specified pointwise: which cells,
    heights, widths and merged ranges end up with what. */
module Layout {
  import opened Prelude
  import opened Values
  import opened Sheets

  // ---------------------------------------------------------------------------
  // Per-cell steps

  /** `copy_style`: when the source cell has a style, the target takes its font, fill,
      border and alignment, and also its number format in the variant that copies it;
      otherwise the target is left alone. The value is never touched. */
  function CopyStyle(src: Cell, tgt: Cell, withNumberFormat: bool): (r: Cell)
    ensures r.value == tgt.value
    ensures !HasStyle(src) ==> r == tgt
    ensures HasStyle(src) ==>
              && r.style.font == src.style.font && r.style.fill == src.style.fill
              && r.style.border == src.style.border && r.style.alignment == src.style.alignment
              && r.style.numberFormat == (if withNumberFormat then src.style.numberFormat
                                          else tgt.style.numberFormat)
  {
    if HasStyle(src) then
      var st := tgt.style.(font := src.style.font, fill := src.style.fill,
                           border := src.style.border, alignment := src.style.alignment);
      tgt.(style := if withNumberFormat then st.(numberFormat := src.style.numberFormat) else st)
    else tgt
  }

  /** The number-format-copying variant hands an unstyled target the source's whole style. */
  lemma CopyStyleWhole(src: Cell, tgt: Cell)
    requires !HasStyle(tgt)
    ensures CopyStyle(src, tgt, true) == tgt.(style := src.style)
  {
  }

  /** Copying a style twice is copying it once. */
  lemma CopyStyleIdempotent(src: Cell, tgt: Cell, withNumberFormat: bool)
    ensures CopyStyle(src, CopyStyle(src, tgt, withNumberFormat), withNumberFormat)
            == CopyStyle(src, tgt, withNumberFormat)
  {
  }

  /** Without the number format, the copy keeps the target's number format, so a
      `DD/MM/YYYY` format on a target survives it. */
  lemma CopyStyleKeepsNumberFormat(src: Cell, tgt: Cell)
    ensures CopyStyle(src, tgt, false).style.numberFormat == tgt.style.numberFormat
  {
  }

  /** One cell of a header copy: `target.cell(r, c, value=cell.value)` followed by the
      style copy without the number format. */
  function HeaderCell(src: Cell, tgt: Cell): (r: Cell)
    ensures r.value == (if src.value.Empty? then tgt.value else src.value)
    ensures !HasStyle(src) ==> r.style == tgt.style
    ensures HasStyle(src) ==> r.style == src.style.(numberFormat := tgt.style.numberFormat)
  {
    CopyStyle(src, Written(tgt, src.value), false)
  }

  /** Onto a fresh cell, the header copy brings the value and every part of the style but
      the number format. */
  lemma HeaderCellOnEmpty(src: Cell)
    ensures HeaderCell(src, EmptyCell).value == src.value
    ensures HeaderCell(src, EmptyCell).style == src.style.(numberFormat := "General")
                || (!HasStyle(src) && HeaderCell(src, EmptyCell).style == DefaultStyle)
  {
  }

  // ---------------------------------------------------------------------------
  // Loops over cells

  /** Columns `c0 .. c1` of row `r`, left to right, each cell replaced by `f` of its
      position and current contents. */
  function UpdateRow(s: Sheet, r: int, c0: int, c1: int, f: ((int, int), Cell) -> Cell): (u: Sheet)
    ensures forall rr, cc :: CellAt(u, rr, cc) ==
              if rr == r && c0 <= cc <= c1 then f((rr, cc), CellAt(s, rr, cc)) else CellAt(s, rr, cc)
    ensures forall p :: p in u.cells <==> p in s.cells || (p.0 == r && c0 <= p.1 <= c1)
    ensures u.rowHeight == s.rowHeight && u.colWidth == s.colWidth && u.merges == s.merges
    decreases c1 - c0
  {
    if c1 < c0 then s
    else
      var t := UpdateRow(s, r, c0, c1 - 1, f);
      t.(cells := t.cells[(r, c1) := f((r, c1), CellAt(t, r, c1))])
  }

  /** Rows `r0 .. r1`, top to bottom, each over columns `c0 .. c1`. */
  function UpdateBlock(s: Sheet, r0: int, r1: int, c0: int, c1: int, f: ((int, int), Cell) -> Cell): (u: Sheet)
    ensures forall rr, cc :: CellAt(u, rr, cc) ==
              if r0 <= rr <= r1 && c0 <= cc <= c1 then f((rr, cc), CellAt(s, rr, cc)) else CellAt(s, rr, cc)
    ensures forall p :: p in u.cells <==> p in s.cells || (r0 <= p.0 <= r1 && c0 <= p.1 <= c1)
    ensures u.rowHeight == s.rowHeight && u.colWidth == s.colWidth && u.merges == s.merges
    decreases r1 - r0
  {
    if r1 < r0 then s
    else UpdateRow(UpdateBlock(s, r0, r1 - 1, c0, c1, f), r1, c0, c1, f)
  }

  /** Row heights of rows `a .. b` set, in order, to `f` of the row. */
  function SetHeights(s: Sheet, a: int, b: int, f: int -> Option<real>): (u: Sheet)
    ensures forall r :: Height(u, r) == if a <= r <= b then f(r) else Height(s, r)
    ensures u.cells == s.cells && u.colWidth == s.colWidth && u.merges == s.merges
    decreases b - a
  {
    if b < a then s
    else
      var t := SetHeights(s, a, b - 1, f);
      t.(rowHeight := t.rowHeight[b := f(b)])
  }

  /** Column widths of columns `a .. b` set, in order, to `f` of the column. */
  function SetWidths(s: Sheet, a: int, b: int, f: int -> Option<real>): (u: Sheet)
    ensures forall c :: Width(u, c) == if a <= c <= b then f(c) else Width(s, c)
    ensures u.cells == s.cells && u.rowHeight == s.rowHeight && u.merges == s.merges
    decreases b - a
  {
    if b < a then s
    else
      var t := SetWidths(s, a, b - 1, f);
      t.(colWidth := t.colWidth[b := f(b)])
  }

  // ---------------------------------------------------------------------------
  // Header copy

  /** The header copy common to every splitter (`copy_header_and_style`, the first part of
      `copy_header` and of `copy_formatting`): rows `1 .. headerRows` and columns
      `1 .. model.max_column` cell by cell, then the widths of those columns, which the
      source sets inside the row loop and so only when there is a header row. */
  method CopyHeaderBlock(model: Sheet, t: Sheet, headerRows: int) returns (u: Sheet)
    ensures forall r, c :: CellAt(u, r, c) ==
              if 1 <= r <= headerRows && 1 <= c <= MaxColumn(model)
              then HeaderCell(CellAt(model, r, c), CellAt(t, r, c)) else CellAt(t, r, c)
    ensures forall p :: p in u.cells <==> p in t.cells || (1 <= p.0 <= headerRows && 1 <= p.1 <= MaxColumn(model))
    ensures forall c :: Width(u, c) ==
              if headerRows >= 1 && 1 <= c <= MaxColumn(model) then Width(model, c) else Width(t, c)
    ensures u.rowHeight == t.rowHeight && u.merges == t.merges
  {
    var maxCol := MaxColumn(model);
    u := UpdateBlock(t, 1, headerRows, 1, maxCol, (p: (int, int), c: Cell) => HeaderCell(CellAt(model, p.0, p.1), c));
    if headerRows >= 1 {
      u := SetWidths(u, 1, maxCol, c => Width(model, c));
    }
  }

  /** The row heights of rows `1 .. 12` copied (`copy_header`, `copy_formatting`). */
  method CopyHeaderHeights(model: Sheet, t: Sheet) returns (u: Sheet)
    ensures forall r :: Height(u, r) == if 1 <= r <= 12 then Height(model, r) else Height(t, r)
    ensures u.cells == t.cells && u.colWidth == t.colWidth && u.merges == t.merges
  {
    u := SetHeights(t, 1, 12, r => Height(model, r));
  }

  /** `target.merge_cells(str(r))` for every range of the model, in order. */
  function CopyMerges(model: Sheet, t: Sheet): (u: Sheet)
    ensures u.merges == t.merges + model.merges
    ensures u.cells == t.cells && u.rowHeight == t.rowHeight && u.colWidth == t.colWidth
  {
    t.(merges := t.merges + model.merges)
  }

  /** Rows 1..12 as `copy_header` and `copy_formatting` copy them: the cells over the model's
      columns, the widths of those columns and the heights of the rows; the target then has
      at least the model's columns. */
  method CopyHeaderRows(model: Sheet, t: Sheet) returns (u: Sheet)
    ensures forall r, c :: CellAt(u, r, c) ==
              if 1 <= r <= 12 && 1 <= c <= MaxColumn(model) then HeaderCell(CellAt(model, r, c), CellAt(t, r, c))
              else CellAt(t, r, c)
    ensures MaxColumn(model) <= MaxColumn(u)
    ensures forall r :: Height(u, r) == if 1 <= r <= 12 then Height(model, r) else Height(t, r)
    ensures forall c :: Width(u, c) == if 1 <= c <= MaxColumn(model) then Width(model, c) else Width(t, c)
    ensures u.merges == t.merges
  {
    var t1 := CopyHeaderBlock(model, t, 12);
    u := CopyHeaderHeights(model, t1);
    ColumnWithin(u, 1, MaxColumn(model));
  }

  // ---------------------------------------------------------------------------
  // Banding

  /** The model row a data row copies its look from: by the parity of its own row number. */
  function RefRow(r: int, odd: int, even: int): int
  {
    if r % 2 == 1 then odd else even
  }

  /** The one-row copies `(r, min_col)-(r, max_col)` of a range, for `r = a .. b`. */
  function RowMerges(m: Range, a: int, b: int): (rs: seq<Range>)
    ensures |rs| == if a <= b then b - a + 1 else 0
    ensures forall k :: 0 <= k < |rs| ==> rs[k] == Range(a + k, m.minCol, a + k, m.maxCol)
    decreases b - a
  {
    if b < a then [] else RowMerges(m, a, b - 1) + [Range(b, m.minCol, b, m.maxCol)]
  }

  /** The one-row copies of every model range starting at row `odd`, for rows `a .. b`. */
  function ReplicatedMerges(refs: seq<Range>, odd: int, a: int, b: int): seq<Range>
    decreases |refs|
  {
    if |refs| == 0 then []
    else
      var last := refs[|refs| - 1];
      ReplicatedMerges(refs[..|refs| - 1], odd, a, b) + (if last.minRow == odd then RowMerges(last, a, b) else [])
  }

  /** `m` is a one-row copy, in a row from `from` on, of a range in `refs` starting at row
      `odd`. */
  predicate OneRowCopy(refs: seq<Range>, odd: int, from: int, m: Range)
  {
    && m.minRow == m.maxRow && from <= m.minRow
    && exists q :: q in refs && q.minRow == odd && q.minCol == m.minCol && q.maxCol == m.maxCol
  }

  /** Every replicated range is a one-row copy, in a row from `a` to `b`, of a model range
      starting at row `odd`. */
  lemma {:induction false} ReplicatedMergesShape(refs: seq<Range>, odd: int, a: int, b: int, k: nat)
    requires k < |ReplicatedMerges(refs, odd, a, b)|
    ensures OneRowCopy(refs, odd, a, ReplicatedMerges(refs, odd, a, b)[k])
    ensures ReplicatedMerges(refs, odd, a, b)[k].minRow <= b
    decreases |refs|
  {
    var front := refs[..|refs| - 1];
    var last := refs[|refs| - 1];
    var before := ReplicatedMerges(front, odd, a, b);
    if k < |before| {
      ReplicatedMergesShape(front, odd, a, b, k);
      var m := before[k];
      var q :| q in front && q.minRow == odd && q.minCol == m.minCol && q.maxCol == m.maxCol;
      assert q in refs;
    } else {
      assert last in refs;
    }
  }

  /** Every model range starting at row `odd` is copied into every row from `a` to `b`. */
  lemma {:induction false} ReplicatedMergesComplete(refs: seq<Range>, odd: int, a: int, b: int, q: Range, r: int)
    requires q in refs && q.minRow == odd && a <= r <= b
    ensures Range(r, q.minCol, r, q.maxCol) in ReplicatedMerges(refs, odd, a, b)
    decreases |refs|
  {
    var front := refs[..|refs| - 1];
    var last := refs[|refs| - 1];
    if q == last {
      var rs := RowMerges(last, a, b);
      assert rs[r - a] == Range(r, q.minCol, r, q.maxCol);
      assert ReplicatedMerges(refs, odd, a, b) == ReplicatedMerges(front, odd, a, b) + rs;
    } else {
      assert q in front by {
        var k :| 0 <= k < |refs| && refs[k] == q;
        assert k < |refs| - 1 && front[k] == q;
      }
      ReplicatedMergesComplete(front, odd, a, b, q, r);
    }
  }

  /** `max_row` once the ranges `refs` are merged into a sheet whose `max_row` is `e`: the
      larger of `e` and the last row of every range of more than one cell. */
  function MergedEnd(refs: seq<Range>, e: int): (m: int)
    ensures m >= e
    ensures forall k :: 0 <= k < |refs| && Spans(refs[k]) ==> refs[k].maxRow <= m
    ensures m == e || exists k :: 0 <= k < |refs| && Spans(refs[k]) && refs[k].maxRow == m
    decreases |refs|
  {
    if |refs| == 0 then e
    else
      var m := MergedEnd(refs[..|refs| - 1], e);
      var last := refs[|refs| - 1];
      assert forall k :: 0 <= k < |refs| - 1 ==> refs[k] == refs[..|refs| - 1][k];
      if Spans(last) && last.maxRow > m then last.maxRow else m
  }

  /** Merging the model's ranges into a sheet without ranges raises its `max_row` exactly to
      `MergedEnd`. */
  lemma MergedEndIsMaxRow(model: Sheet, t: Sheet)
    requires t.merges == []
    ensures MaxRow(CopyMerges(model, t)) == MergedEnd(model.merges, MaxRow(t))
  {
    var m := CopyMerges(model, t);
    var x, y := MaxRow(m), MergedEnd(model.merges, MaxRow(t));
    assert m.merges == model.merges;
    assert y <= x by {
      MaxRowGrows(t, m);
      if y != MaxRow(t) {
        var k :| 0 <= k < |model.merges| && Spans(model.merges[k]) && model.merges[k].maxRow == y;
        assert m.merges[k] == model.merges[k];
      }
    }
    assert x <= y by {
      if x != 1 {
        if exists p :: p in m.cells && p.0 == x {
          var p :| p in m.cells && p.0 == x;
          assert p in t.cells;
        } else {
          var k :| 0 <= k < |m.merges| && Spans(m.merges[k]) && m.merges[k].maxRow == x;
          assert model.merges[k] == m.merges[k];
        }
      }
    }
  }

  /** The last loop of the banding: for each model range starting at row `odd`, in order,
      a one-row copy for every row from `tsr` to `max_row`, the bound read afresh for each
      range. */
  function ReplicateMerges(s: Sheet, refs: seq<Range>, tsr: int, odd: int): (u: Sheet)
    ensures u.cells == s.cells && u.rowHeight == s.rowHeight && u.colWidth == s.colWidth
    ensures MaxRow(u) == MaxRow(s)
    ensures u.merges == s.merges + ReplicatedMerges(refs, odd, tsr, MaxRow(s))
    decreases |refs|
  {
    if |refs| == 0 then s
    else
      var t := ReplicateMerges(s, refs[..|refs| - 1], tsr, odd);
      var last := refs[|refs| - 1];
      if last.minRow == odd then
        var u := t.(merges := t.merges + RowMerges(last, tsr, MaxRow(t)));
        assert u.merges[..|t.merges|] == t.merges;
        MaxRowStable(t, u);
        u
      else t
  }

  /** `apply_alternating_styles_and_dimensions`: every row from `tsr` to the sheet's
      `max_row` takes, in columns `1 .. model.max_column`, the style of model row `odd` or
      `even` by its own parity, and that row's height; the model's column widths follow;
      then every model range is merged in as it is, and every model range starting at row
      `odd` once more per row. */
  method ApplyAlternating(model: Sheet, t: Sheet, tsr: int, odd: int, even: int, withNumberFormat: bool) returns (u: Sheet)
    ensures forall r, c :: CellAt(u, r, c) ==
              if tsr <= r <= MaxRow(t) && 1 <= c <= MaxColumn(model)
              then CopyStyle(CellAt(model, RefRow(r, odd, even), c), CellAt(t, r, c), withNumberFormat)
              else CellAt(t, r, c)
    ensures withNumberFormat ==>
              forall r, c :: tsr <= r <= MaxRow(t) && 1 <= c <= MaxColumn(model) && !HasStyle(CellAt(t, r, c)) ==>
                CellAt(u, r, c).style == CellAt(model, RefRow(r, odd, even), c).style
    ensures forall p :: p in u.cells <==> p in t.cells || (tsr <= p.0 <= MaxRow(t) && 1 <= p.1 <= MaxColumn(model))
    ensures forall r :: Height(u, r) == if tsr <= r <= MaxRow(t) then Height(model, RefRow(r, odd, even)) else Height(t, r)
    ensures forall c :: Width(u, c) == if 1 <= c <= MaxColumn(model) then Width(model, c) else Width(t, c)
    ensures u.merges == t.merges + model.merges
                        + ReplicatedMerges(model.merges, odd, tsr, MaxRow(CopyMerges(model, t)))
    ensures MaxRow(u) == MaxRow(CopyMerges(model, t))
  {
    var s := BandRows(model, t, tsr, odd, even, withNumberFormat);
    var s4 := s.(merges := s.merges + model.merges);
    MaxRowAfterMerges(model, t, s4);
    u := ReplicateMerges(s4, model.merges, tsr, odd);
    SameContents(s, u);
    if withNumberFormat {
      WholeStyles(model, t, u, tsr, odd, even);
    }
  }

  /** Two sheets with the same cells, heights and widths agree on every one of them. */
  lemma SameContents(s: Sheet, u: Sheet)
    requires u.cells == s.cells && u.rowHeight == s.rowHeight && u.colWidth == s.colWidth
    ensures forall r, c :: CellAt(u, r, c) == CellAt(s, r, c)
    ensures forall r :: Height(u, r) == Height(s, r)
    ensures forall c :: Width(u, c) == Width(s, c)
  {
  }

  /** With the number format copied, a banded cell that had no style of its own takes the
      reference cell's whole style. */
  lemma WholeStyles(model: Sheet, t: Sheet, u: Sheet, tsr: int, odd: int, even: int)
    requires forall r, c :: CellAt(u, r, c) ==
               if tsr <= r <= MaxRow(t) && 1 <= c <= MaxColumn(model)
               then CopyStyle(CellAt(model, RefRow(r, odd, even), c), CellAt(t, r, c), true)
               else CellAt(t, r, c)
    ensures forall r, c :: tsr <= r <= MaxRow(t) && 1 <= c <= MaxColumn(model) && !HasStyle(CellAt(t, r, c)) ==>
              CellAt(u, r, c).style == CellAt(model, RefRow(r, odd, even), c).style
  {
    forall r, c | tsr <= r <= MaxRow(t) && 1 <= c <= MaxColumn(model) && !HasStyle(CellAt(t, r, c))
      ensures CellAt(u, r, c).style == CellAt(model, RefRow(r, odd, even), c).style
    {
      CopyStyleWhole(CellAt(model, RefRow(r, odd, even), c), CellAt(t, r, c));
    }
  }

  /** The style, height and width part of the banding, before any range is merged. */
  method BandRows(model: Sheet, t: Sheet, tsr: int, odd: int, even: int, withNumberFormat: bool) returns (u: Sheet)
    ensures forall r, c :: CellAt(u, r, c) ==
              if tsr <= r <= MaxRow(t) && 1 <= c <= MaxColumn(model)
              then CopyStyle(CellAt(model, RefRow(r, odd, even), c), CellAt(t, r, c), withNumberFormat)
              else CellAt(t, r, c)
    ensures forall p :: p in u.cells <==> p in t.cells || (tsr <= p.0 <= MaxRow(t) && 1 <= p.1 <= MaxColumn(model))
    ensures forall r :: Height(u, r) == if tsr <= r <= MaxRow(t) then Height(model, RefRow(r, odd, even)) else Height(t, r)
    ensures forall c :: Width(u, c) == if 1 <= c <= MaxColumn(model) then Width(model, c) else Width(t, c)
    ensures u.merges == t.merges
  {
    var s1 := BandCells(model, t, tsr, MaxRow(t), MaxColumn(model), odd, even, withNumberFormat);
    u := BandSizes(model, s1, tsr, MaxRow(t), MaxColumn(model), odd, even);
  }

  /** The style copies of the banding, rows `tsr .. last` over columns `1 .. cols`. */
  method BandCells(model: Sheet, t: Sheet, tsr: int, last: int, cols: int, odd: int, even: int, withNumberFormat: bool)
    returns (u: Sheet)
    ensures forall r, c :: CellAt(u, r, c) ==
              if tsr <= r <= last && 1 <= c <= cols
              then CopyStyle(CellAt(model, RefRow(r, odd, even), c), CellAt(t, r, c), withNumberFormat)
              else CellAt(t, r, c)
    ensures forall p :: p in u.cells <==> p in t.cells || (tsr <= p.0 <= last && 1 <= p.1 <= cols)
    ensures u.rowHeight == t.rowHeight && u.colWidth == t.colWidth && u.merges == t.merges
  {
    u := UpdateBlock(t, tsr, last, 1, cols,
           (p: (int, int), c: Cell) => CopyStyle(CellAt(model, RefRow(p.0, odd, even), p.1), c, withNumberFormat));
  }

  /** The heights of rows `tsr .. last` from their reference rows, the widths of columns
      `1 .. cols` from the model. */
  method BandSizes(model: Sheet, t: Sheet, tsr: int, last: int, cols: int, odd: int, even: int) returns (u: Sheet)
    ensures forall r :: Height(u, r) == if tsr <= r <= last then Height(model, RefRow(r, odd, even)) else Height(t, r)
    ensures forall c :: Width(u, c) == if 1 <= c <= cols then Width(model, c) else Width(t, c)
    ensures u.cells == t.cells && u.merges == t.merges
  {
    var s := SetHeights(t, tsr, last, r => Height(model, RefRow(r, odd, even)));
    u := SetWidths(s, 1, cols, c => Width(model, c));
    assert forall r :: Height(u, r) == Height(s, r);
  }

  /** Cells gained in rows up to `max_row` do not move `max_row`, before or after the model's
      ranges are merged in. */
  lemma MaxRowAfterMerges(model: Sheet, t: Sheet, s: Sheet)
    requires forall p :: p in s.cells <==> p in t.cells || (p.0 <= MaxRow(t) && p in s.cells)
    requires s.merges == t.merges + model.merges
    ensures MaxRow(s) == MaxRow(CopyMerges(model, t))
  {
    var m := CopyMerges(model, t);
    MaxRowGrows(t, m);
    assert s.merges[..|m.merges|] == m.merges;
    MaxRowStable(m, s);
  }

  /** Ranges appended after the existing ones never lower `max_row`. */
  lemma MaxRowGrows(t: Sheet, m: Sheet)
    requires m.cells == t.cells
    requires |t.merges| <= |m.merges| && m.merges[..|t.merges|] == t.merges
    ensures MaxRow(t) <= MaxRow(m)
  {
    var x := MaxRow(t);
    if x != 1 && !(exists p :: p in t.cells && p.0 == x) {
      var k :| 0 <= k < |t.merges| && Spans(t.merges[k]) && t.merges[k].maxRow == x;
      assert m.merges[k] == t.merges[k];
    }
  }

  /** Odd rows follow model row `odd`, even rows model row `even`, whatever `tsr` is. */
  lemma RefRowParity(r: int, odd: int, even: int)
    ensures r % 2 == 1 ==> RefRow(r, odd, even) == odd
    ensures r % 2 == 0 ==> RefRow(r, odd, even) == even
    ensures RefRow(r + 2, odd, even) == RefRow(r, odd, even)
    ensures RefRow(r + 1, odd, even) != RefRow(r, odd, even) || odd == even
  {
  }

  // ---------------------------------------------------------------------------
  // Tail row

  /** `apply_last_row_format`: the sheet's `max_row` row takes, in columns
      `1 .. model.max_column`, the style (number format included) of model row `modelRow`. */
  method ApplyLastRowFormat(model: Sheet, t: Sheet, modelRow: int) returns (u: Sheet)
    ensures forall r, c :: CellAt(u, r, c) ==
              if r == MaxRow(t) && 1 <= c <= MaxColumn(model)
              then CopyStyle(CellAt(model, modelRow, c), CellAt(t, r, c), true) else CellAt(t, r, c)
    ensures MaxRow(u) == MaxRow(t)
    ensures u.rowHeight == t.rowHeight && u.colWidth == t.colWidth && u.merges == t.merges
  {
    u := UpdateRow(t, MaxRow(t), 1, MaxColumn(model),
           (p: (int, int), c: Cell) => CopyStyle(CellAt(model, modelRow, p.1), c, true));
    MaxRowStable(t, u);
  }

  /** The default model row of the tail step. */
  const ModelLastRow := 45

  // ---------------------------------------------------------------------------
  // Placing data

  /** One record into row `r`: field `k` (0-based) into column `k + 1`, as `norm` of it. */
  function PlaceFields(s: Sheet, r: int, fields: seq<string>, norm: Value -> Value): (u: Sheet)
    ensures forall rr, cc :: CellAt(u, rr, cc) ==
              if rr == r && 1 <= cc <= |fields| then Written(CellAt(s, rr, cc), norm(Str(fields[cc - 1])))
              else CellAt(s, rr, cc)
    ensures forall p :: p in u.cells <==> p in s.cells || (p.0 == r && 1 <= p.1 <= |fields|)
    ensures u.rowHeight == s.rowHeight && u.colWidth == s.colWidth && u.merges == s.merges
    decreases |fields|
  {
    if |fields| == 0 then s
    else
      var k := |fields| - 1;
      var t := PlaceFields(s, r, fields[..k], norm);
      var u := Write(t, r, k + 1, norm(Str(fields[k])));
      PlaceFieldsCells(s, r, fields, norm, t, u);
      u
  }

  /** The cells after one more field: those of the fields before it, and its own cell. */
  lemma PlaceFieldsCells(s: Sheet, r: int, fields: seq<string>, norm: Value -> Value, t: Sheet, u: Sheet)
    requires |fields| >= 1
    requires forall rr, cc :: CellAt(t, rr, cc) ==
               if rr == r && 1 <= cc <= |fields| - 1 then Written(CellAt(s, rr, cc), norm(Str(fields[cc - 1])))
               else CellAt(s, rr, cc)
    requires CellAt(u, r, |fields|).value ==
               (if norm(Str(fields[|fields| - 1])).Empty? then CellAt(t, r, |fields|).value
                else norm(Str(fields[|fields| - 1])))
    requires CellAt(u, r, |fields|).style == CellAt(t, r, |fields|).style
    requires forall rr, cc :: (rr, cc) != (r, |fields|) ==> CellAt(u, rr, cc) == CellAt(t, rr, cc)
    ensures forall rr, cc :: CellAt(u, rr, cc) ==
              if rr == r && 1 <= cc <= |fields| then Written(CellAt(s, rr, cc), norm(Str(fields[cc - 1])))
              else CellAt(s, rr, cc)
  {
    forall rr, cc ensures CellAt(u, rr, cc) ==
              if rr == r && 1 <= cc <= |fields| then Written(CellAt(s, rr, cc), norm(Str(fields[cc - 1])))
              else CellAt(s, rr, cc)
    {
      if (rr, cc) != (r, |fields|) {
        assert CellAt(u, rr, cc) == CellAt(t, rr, cc);
      }
    }
  }

  /** The records of a chunk, record `j` into row `tsr + j`. */
  function PlaceRows(s: Sheet, data: seq<seq<string>>, tsr: int, norm: Value -> Value): (u: Sheet)
    ensures forall r, c :: CellAt(u, r, c) ==
              if tsr <= r < tsr + |data| && 1 <= c <= |data[r - tsr]|
              then Written(CellAt(s, r, c), norm(Str(data[r - tsr][c - 1])))
              else CellAt(s, r, c)
    ensures forall p :: p in u.cells <==> p in s.cells || (tsr <= p.0 < tsr + |data| && 1 <= p.1 <= |data[p.0 - tsr]|)
    ensures u.rowHeight == s.rowHeight && u.colWidth == s.colWidth && u.merges == s.merges
    decreases |data|
  {
    if |data| == 0 then s
    else
      var j := |data| - 1;
      var front := data[..j];
      var t := PlaceRows(s, front, tsr, norm);
      var u := PlaceFields(t, tsr + j, data[j], norm);
      PlaceRowsCells(s, data, tsr, norm, t, u);
      PlaceRowsKeys(s, data, tsr, t, u);
      u
  }

  /** The cells after one more record: those of the records before it, and its own row. */
  lemma PlaceRowsCells(s: Sheet, data: seq<seq<string>>, tsr: int, norm: Value -> Value, t: Sheet, u: Sheet)
    requires |data| >= 1
    requires forall r, c :: CellAt(t, r, c) ==
               if tsr <= r < tsr + |data| - 1 && 1 <= c <= |data[r - tsr]|
               then Written(CellAt(s, r, c), norm(Str(data[r - tsr][c - 1])))
               else CellAt(s, r, c)
    requires forall rr, cc :: CellAt(u, rr, cc) ==
               if rr == tsr + |data| - 1 && 1 <= cc <= |data[|data| - 1]|
               then Written(CellAt(t, rr, cc), norm(Str(data[|data| - 1][cc - 1])))
               else CellAt(t, rr, cc)
    ensures forall r, c :: CellAt(u, r, c) ==
              if tsr <= r < tsr + |data| && 1 <= c <= |data[r - tsr]|
              then Written(CellAt(s, r, c), norm(Str(data[r - tsr][c - 1])))
              else CellAt(s, r, c)
  {
    forall r, c ensures CellAt(u, r, c) ==
              if tsr <= r < tsr + |data| && 1 <= c <= |data[r - tsr]|
              then Written(CellAt(s, r, c), norm(Str(data[r - tsr][c - 1])))
              else CellAt(s, r, c)
    {
      assert CellAt(t, r, c) == if tsr <= r < tsr + |data| - 1 && 1 <= c <= |data[r - tsr]|
               then Written(CellAt(s, r, c), norm(Str(data[r - tsr][c - 1])))
               else CellAt(s, r, c);
    }
  }

  /** The cells present after one more record. */
  lemma PlaceRowsKeys(s: Sheet, data: seq<seq<string>>, tsr: int, t: Sheet, u: Sheet)
    requires |data| >= 1
    requires forall p :: p in t.cells <==> p in s.cells || (tsr <= p.0 < tsr + |data| - 1 && 1 <= p.1 <= |data[p.0 - tsr]|)
    requires forall p :: p in u.cells <==> p in t.cells || (p.0 == tsr + |data| - 1 && 1 <= p.1 <= |data[|data| - 1]|)
    ensures forall p :: p in u.cells <==> p in s.cells || (tsr <= p.0 < tsr + |data| && 1 <= p.1 <= |data[p.0 - tsr]|)
  {
  }
}
