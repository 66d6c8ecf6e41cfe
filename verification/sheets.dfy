/** An abstract worksheet as the splitters use it: cells addressed by (row, column), each
    with a value and a style; row heights; column widths (keyed by column number, since both
    sides of every copy go through the same column letter); and the list of merged ranges.
    `max_row` and `max_column` are functions of the grid: the largest row (column) of any
    cell that exists, where a merged range of more than one cell makes its covered cells
    exist, and 1 for an empty sheet. */
module Sheets {
  import opened Prelude
  import opened Text
  import opened Values

  // ---------------------------------------------------------------------------
  // Styles

  /** One side of a cell border: its line style (None for no line) and its colour. */
  datatype Side = Side(style: Option<string>, color: Option<string>)

  const NoSide := Side(None, None)

  datatype Border = Border(left: Side, right: Side, top: Side, bottom: Side)

  const NoBorder := Border(NoSide, NoSide, NoSide, NoSide)

  /** A cell's formatting. Fonts, fills and alignments are only ever copied whole, so they
      are named by their index in the workbook's style tables, 0 being the default. */
  datatype Style = Style(font: nat, fill: nat, border: Border, alignment: nat, numberFormat: string)

  const DefaultStyle := Style(0, 0, NoBorder, 0, "General")

  datatype Cell = Cell(value: Value, style: Style)

  /** A cell that was never written. */
  const EmptyCell := Cell(Empty, DefaultStyle)

  /** `cell.has_style`: some part of the formatting differs from the default. */
  predicate HasStyle(c: Cell)
  {
    c.style != DefaultStyle
  }

  /** `get_no_border_style()`: a border whose four sides all have no line style. */
  function NoBorderStyle(): (b: Border)
    ensures b.left.style.None? && b.right.style.None? && b.top.style.None? && b.bottom.style.None?
  {
    var side := Side(None, None);
    Border(side, side, side, side)
  }

  /** The border without lines is the border every unstyled cell already has. */
  lemma NoBorderIsDefault()
    ensures NoBorderStyle() == DefaultStyle.border
    ensures DefaultStyle.(border := NoBorderStyle()) == DefaultStyle
  {
  }

  // ---------------------------------------------------------------------------
  // Merged ranges

  datatype Range = Range(minRow: int, minCol: int, maxRow: int, maxCol: int)

  predicate Covers(m: Range, r: int, c: int)
  {
    m.minRow <= r <= m.maxRow && m.minCol <= c <= m.maxCol
  }

  /** A range of more than one cell: merging it creates the cells it covers. */
  predicate Spans(m: Range)
  {
    m.minRow <= m.maxRow && m.minCol <= m.maxCol && (m.minRow < m.maxRow || m.minCol < m.maxCol)
  }

  // ---------------------------------------------------------------------------
  // Sheets

  datatype Sheet = Sheet(cells: map<(int, int), Cell>,
                         rowHeight: map<int, Option<real>>,
                         colWidth: map<int, Option<real>>,
                         merges: seq<Range>)

  /** The active sheet of a new workbook. */
  const Blank := Sheet(map[], map[], map[], [])

  /** A saved workbook: its file name (without the folder) and its active sheet. */
  datatype OutputFile = OutputFile(name: string, sheet: Sheet)

  /** The file name: `{product_name}{infix}{file_index + 1}.xlsx`. */
  function PartName(product: string, infix: string, i: nat): string
  {
    product + infix + NatText(i + 1) + ".xlsx"
  }

  /** Different files get different names. */
  lemma PartNamesDistinct(product: string, infix: string, i: nat, j: nat)
    requires i != j
    ensures PartName(product, infix, i) != PartName(product, infix, j)
  {
    var a := product + infix;
    var x, y := NatText(i + 1), NatText(j + 1);
    if PartName(product, infix, i) == PartName(product, infix, j) {
      assert |x| == |y|;
      assert (a + x + ".xlsx")[|a|..|a| + |x|] == x;
      assert (a + y + ".xlsx")[|a|..|a| + |y|] == y;
      NatTextInjective(i + 1, j + 1);
    }
  }


  function CellAt(s: Sheet, r: int, c: int): Cell
  {
    if (r, c) in s.cells then s.cells[(r, c)] else EmptyCell
  }

  /** `row_dimensions[r].height`; None when the sheet leaves it to the default. */
  function Height(s: Sheet, r: int): Option<real>
  {
    if r in s.rowHeight then s.rowHeight[r] else None
  }

  /** `column_dimensions[letter(c)].width`; None when the sheet leaves it to the default. */
  function Width(s: Sheet, c: int): Option<real>
  {
    if c in s.colWidth then s.colWidth[c] else None
  }

  /** The rows that count for `max_row`. */
  function RowSet(s: Sheet): set<int>
  {
    {1} + (set p | p in s.cells :: p.0) + (set m | m in s.merges && Spans(m) :: m.maxRow)
  }

  /** The columns that count for `max_column`. */
  function ColumnSet(s: Sheet): set<int>
  {
    {1} + (set p | p in s.cells :: p.1) + (set m | m in s.merges && Spans(m) :: m.maxCol)
  }

  /** `ws.max_row`. */
  function MaxRow(s: Sheet): (m: int)
    ensures m >= 1
    ensures forall p :: p in s.cells ==> p.0 <= m
    ensures forall k :: 0 <= k < |s.merges| && Spans(s.merges[k]) ==> s.merges[k].maxRow <= m
    ensures m == 1 || (exists p :: p in s.cells && p.0 == m)
                   || (exists k :: 0 <= k < |s.merges| && Spans(s.merges[k]) && s.merges[k].maxRow == m)
  {
    var rows := RowSet(s);
    assert 1 in rows;
    var m := Greatest(rows);
    assert forall k :: 0 <= k < |s.merges| && Spans(s.merges[k]) ==> s.merges[k].maxRow in rows;
    assert forall p :: p in s.cells ==> p.0 in rows;
    m
  }

  /** `ws.max_column`. */
  function MaxColumn(s: Sheet): (m: int)
    ensures m >= 1
    ensures forall p :: p in s.cells ==> p.1 <= m
    ensures forall k :: 0 <= k < |s.merges| && Spans(s.merges[k]) ==> s.merges[k].maxCol <= m
    ensures m == 1 || (exists p :: p in s.cells && p.1 == m)
                   || (exists k :: 0 <= k < |s.merges| && Spans(s.merges[k]) && s.merges[k].maxCol == m)
  {
    var cols := ColumnSet(s);
    assert 1 in cols;
    var m := Greatest(cols);
    assert forall k :: 0 <= k < |s.merges| && Spans(s.merges[k]) ==> s.merges[k].maxCol in cols;
    assert forall p :: p in s.cells ==> p.1 in cols;
    m
  }

  /** `max_row` stays put when the sheet only gains cells and ranges at or above it. */
  lemma MaxRowStable(s: Sheet, u: Sheet)
    requires forall p :: p in s.cells ==> p in u.cells
    requires forall p :: p in u.cells ==> p in s.cells || p.0 <= MaxRow(s)
    requires |s.merges| <= |u.merges| && u.merges[..|s.merges|] == s.merges
    requires forall k :: |s.merges| <= k < |u.merges| && Spans(u.merges[k]) ==> u.merges[k].maxRow <= MaxRow(s)
    ensures MaxRow(u) == MaxRow(s)
  {
    var m := MaxRow(s);
    assert m in RowSet(s) by {
      if m != 1 {
        if exists p :: p in s.cells && p.0 == m {
          var p :| p in s.cells && p.0 == m;
          assert m in (set p | p in s.cells :: p.0);
        } else {
          var k :| 0 <= k < |s.merges| && Spans(s.merges[k]) && s.merges[k].maxRow == m;
          assert s.merges[k] in s.merges;
        }
      }
    }
    assert RowSet(s) <= RowSet(u) by {
      forall x | x in RowSet(s) ensures x in RowSet(u) {
        if x != 1 && x !in (set p | p in s.cells :: p.0) {
          var mr :| mr in s.merges && Spans(mr) && mr.maxRow == x;
          var k :| 0 <= k < |s.merges| && s.merges[k] == mr;
          assert u.merges[k] == mr;
        }
      }
    }
    forall x | x in RowSet(u) ensures x <= m {
      if x != 1 && x !in (set p | p in u.cells :: p.0) {
        var mr :| mr in u.merges && Spans(mr) && mr.maxRow == x;
        var k :| 0 <= k < |u.merges| && u.merges[k] == mr;
        if k < |s.merges| {
          assert s.merges[k] == mr;
        }
      }
    }
    GreatestUnique(RowSet(u), m);
  }

  /** `max_column` stays put when the sheet only gains cells in columns up to it. */
  lemma MaxColumnStable(s: Sheet, u: Sheet)
    requires forall p :: p in s.cells ==> p in u.cells
    requires forall p :: p in u.cells ==> p in s.cells || p.1 <= MaxColumn(s)
    requires u.merges == s.merges
    ensures MaxColumn(u) == MaxColumn(s)
  {
    var m := MaxColumn(s);
    assert m in ColumnSet(s) by {
      if m != 1 {
        if exists p :: p in s.cells && p.1 == m {
          var p :| p in s.cells && p.1 == m;
          assert m in (set p | p in s.cells :: p.1);
        } else {
          var k :| 0 <= k < |s.merges| && Spans(s.merges[k]) && s.merges[k].maxCol == m;
          assert s.merges[k] in s.merges;
        }
      }
    }
    assert ColumnSet(s) <= ColumnSet(u);
    forall x | x in ColumnSet(u) ensures x <= m {
      if x != 1 && x !in (set p | p in u.cells :: p.1) {
        var mr :| mr in u.merges && Spans(mr) && mr.maxCol == x;
        var k :| 0 <= k < |u.merges| && u.merges[k] == mr;
      }
    }
    GreatestUnique(ColumnSet(u), m);
  }

  /** A column with a cell counts for `max_column`. */
  lemma ColumnWithin(s: Sheet, r: int, c: int)
    requires (r, c) in s.cells
    ensures c <= MaxColumn(s)
  {
  }

  /** Cells gained in rows `1 .. k`, one of them in row `k`, raise `max_row` to `k` when it
      was lower and leave it otherwise. */
  lemma MaxRowRaised(s: Sheet, u: Sheet, k: int, c: int)
    requires k >= 1 && (k, c) in u.cells
    requires forall p :: p in s.cells ==> p in u.cells
    requires forall p :: p in u.cells ==> p in s.cells || 1 <= p.0 <= k
    requires u.merges == s.merges
    ensures MaxRow(u) == Max(MaxRow(s), k)
  {
    var m := MaxRow(s);
    var x := Max(m, k);
    assert x in RowSet(u) by {
      if m <= k {
        assert k in (set p | p in u.cells :: p.0);
      } else if exists p :: p in s.cells && p.0 == m {
        var p :| p in s.cells && p.0 == m;
        assert m in (set p | p in u.cells :: p.0);
      } else {
        var j :| 0 <= j < |s.merges| && Spans(s.merges[j]) && s.merges[j].maxRow == m;
        assert s.merges[j] in u.merges;
      }
    }
    forall y | y in RowSet(u) ensures y <= x {
      if y != 1 && y !in (set p | p in u.cells :: p.0) {
        var mr :| mr in u.merges && Spans(mr) && mr.maxRow == y;
        var j :| 0 <= j < |u.merges| && u.merges[j] == mr;
      }
    }
    GreatestUnique(RowSet(u), x);
  }

  // ---------------------------------------------------------------------------
  // Writing

  /** `ws.cell(row=r, column=c, value=v)`: the cell comes into existence, and takes `v`
      unless `v` is None. */
  function Write(s: Sheet, r: int, c: int, v: Value): (u: Sheet)
    ensures (r, c) in u.cells
    ensures CellAt(u, r, c).value == (if v.Empty? then CellAt(s, r, c).value else v)
    ensures CellAt(u, r, c).style == CellAt(s, r, c).style
    ensures forall p :: p != (r, c) ==> (p in u.cells <==> p in s.cells)
    ensures forall rr, cc :: (rr, cc) != (r, c) ==> CellAt(u, rr, cc) == CellAt(s, rr, cc)
    ensures u.rowHeight == s.rowHeight && u.colWidth == s.colWidth && u.merges == s.merges
  {
    s.(cells := s.cells[(r, c) := Written(CellAt(s, r, c), v)])
  }

  /** A cell after `value=v` was passed for it. */
  function Written(c: Cell, v: Value): Cell
  {
    if v.Empty? then c else c.(value := v)
  }

  /** `format_date_cell(cell)`: a date-time value yields its day, and the cell itself is
      given the number format `DD/MM/YYYY`; any other value is returned as it is and the
      cell is left alone. */
  function FormatDateCell(c: Cell): (r: (Value, Cell))
    ensures c.value.Stamp? ==>
              r.0 == Day(DateOf(c.value.t)) && r.1 == c.(style := c.style.(numberFormat := "DD/MM/YYYY"))
    ensures !c.value.Stamp? ==> r == (c.value, c)
  {
    if c.value.Stamp? then
      (Day(DateOf(c.value.t)), c.(style := c.style.(numberFormat := "DD/MM/YYYY")))
    else (c.value, c)
  }

  /** The day a cell yields is no longer a date-time: a second application changes nothing,
      and a day-valued cell is not formatted. */
  lemma FormatDateCellSettles(c: Cell)
    ensures var (v, c1) := FormatDateCell(c);
            FormatDateCell(c1.(value := v)) == (v, c1.(value := v))
  {
  }

  /** A formatted date-time cell has a style, whatever it had before. */
  lemma FormatDateCellStyled(c: Cell)
    requires c.value.Stamp?
    ensures HasStyle(FormatDateCell(c).1)
  {
  }
}
