/** The splitter of common/utilities/xls_splitter_large.py: the lines of a CSV file are cut
    into `N` chunks of `total_rows // N` lines, the last chunk taking the remainder; each
    chunk goes under a copy of the model's first 12 rows (`copy_formatting`), one line per
    row from row 13, its comma-separated fields one per column, with the merged-range rule
    of lines 95-118 deciding what a cell inside a merged range receives. The line selection
    here is the corrected one that skips the header line (see `Partition.SelectData`). */
module XlsSplitterLarge {
  import opened Prelude
  import opened Text
  import opened Values
  import opened Sheets
  import opened Layout
  import opened Partition

  // ---------------------------------------------------------------------------
  // The header

  /** `copy_formatting(source_sheet, target_sheet)`: rows 1..12 over the source's columns
      as the header copy of every splitter, the widths of those columns, the heights of rows
      1..12, and every merged range of the source, in order. */
  method CopyFormatting(source: Sheet, target: Sheet) returns (t: Sheet)
    ensures forall r, c :: CellAt(t, r, c) ==
              if 1 <= r <= 12 && 1 <= c <= MaxColumn(source) then HeaderCell(CellAt(source, r, c), CellAt(target, r, c))
              else CellAt(target, r, c)
    ensures forall r :: Height(t, r) == if 1 <= r <= 12 then Height(source, r) else Height(target, r)
    ensures forall c :: Width(t, c) == if 1 <= c <= MaxColumn(source) then Width(source, c) else Width(target, c)
    ensures t.merges == target.merges + source.merges
  {
    var t1 := CopyHeaderRows(source, target);
    t := CopyMerges(source, t1);
  }

  // ---------------------------------------------------------------------------
  // The write rule for one field

  /** The index of the first range of `ms` covering cell `(r, c)`: the range the loop over
      `merged_cells.ranges` stops at. */
  function FirstCover(ms: seq<Range>, r: int, c: int): (o: Option<nat>)
    ensures o.Some? ==> o.value < |ms| && Covers(ms[o.value], r, c)
    ensures o.Some? ==> forall k :: 0 <= k < o.value ==> !Covers(ms[k], r, c)
    ensures o.None? <==> forall k :: 0 <= k < |ms| ==> !Covers(ms[k], r, c)
    decreases |ms|
  {
    if |ms| == 0 then None
    else if Covers(ms[0], r, c) then Some(0)
    else
      match FirstCover(ms[1..], r, c)
      case None => None
      case Some(k) => Some(k + 1)
  }

  /** `cell.value = v` on the cell `ws.cell(r, c)` returns: the cell exists and holds `v`,
      even when `v` is None, its style untouched. */
  function Assign(s: Sheet, r: int, c: int, v: Value): (u: Sheet)
    ensures (r, c) in u.cells && CellAt(u, r, c) == CellAt(s, r, c).(value := v)
    ensures forall rr, cc :: (rr, cc) != (r, c) ==> CellAt(u, rr, cc) == CellAt(s, rr, cc)
    ensures u.rowHeight == s.rowHeight && u.colWidth == s.colWidth && u.merges == s.merges
  {
    s.(cells := s.cells[(r, c) := CellAt(s, r, c).(value := v)])
  }

  /** Whether cell `(r, c)` of `u` shows field text `v` as the write rule leaves it: a cell
      inside a merged range, other than that range's top-left cell, holds the same value as
      the top-left cell (the first range covering it decides); any other cell holds the
      text. */
  predicate Placed(u: Sheet, r: int, c: int, v: string)
  {
    var o := FirstCover(u.merges, r, c);
    if o.Some? && (u.merges[o.value].minRow, u.merges[o.value].minCol) != (r, c)
    then CellAt(u, r, c).value == CellAt(u, u.merges[o.value].minRow, u.merges[o.value].minCol).value
    else CellAt(u, r, c).value == Str(v)
  }

  /** Lines 92-118 for field `v` of cell `(r, c)`: the cell is fetched (which creates it);
      when the first range covering it starts there, or no range covers it, it takes the
      text; otherwise the range's top-left cell is fetched and its value copied. No style
      changes, and no other cell's value. */
  function PutField(s: Sheet, r: int, c: int, v: string): (u: Sheet)
    ensures Placed(u, r, c, v)
    ensures forall rr, cc :: CellAt(u, rr, cc).style == CellAt(s, rr, cc).style
    ensures forall rr, cc :: (rr, cc) != (r, c) ==> CellAt(u, rr, cc).value == CellAt(s, rr, cc).value
    ensures u.rowHeight == s.rowHeight && u.colWidth == s.colWidth && u.merges == s.merges
  {
    var u1 := Write(s, r, c, Empty);
    match FirstCover(s.merges, r, c)
    case None => Assign(u1, r, c, Str(v))
    case Some(k) =>
      var m := s.merges[k];
      if r == m.minRow && c == m.minCol then Assign(u1, r, c, Str(v))
      else
        var u2 := Write(u1, m.minRow, m.minCol, Empty);
        Assign(u2, r, c, CellAt(u2, m.minRow, m.minCol).value)
  }

  // ---------------------------------------------------------------------------
  // The fields of a chunk

  /** `line.strip().split(",")`. */
  function LineFields(line: string): (r: seq<string>)
    ensures |r| >= 1
  {
    Split(Strip(line), ',')
  }

  /** A text that neither starts nor ends with whitespace survives a trailing newline and
      the strip. */
  lemma StripNewline(s: string)
    requires |s| > 0 ==> !IsSpace(s[0]) && !IsSpace(s[|s| - 1])
    ensures Strip(s + "\n") == s
  {
    var t := s + "\n";
    if |s| > 0 {
      assert t[0] == s[0];
      assert StripLeft(t) == t;
      assert t[..|t| - 1] == s;
      assert StripRight(t) == StripRight(s) == s;
    } else {
      assert t[1..] == "";
      assert StripLeft(t) == StripLeft("") == "";
    }
  }

  /** A line written as fields joined by commas, with a newline after, reads back as those
      fields, provided none holds a comma and the line neither starts nor ends with
      whitespace. */
  lemma LineFieldsRoundTrip(fields: seq<string>)
    requires |fields| >= 1
    requires forall i :: 0 <= i < |fields| ==> Free(fields[i], ',')
    requires var s := Join(fields, ","); |s| > 0 ==> !IsSpace(s[0]) && !IsSpace(s[|s| - 1])
    ensures LineFields(Join(fields, ",") + "\n") == fields
  {
    StripNewline(Join(fields, ","));
    SplitJoin(fields, ',');
  }

  /** The rows of a chunk: every selected line stripped and split on commas. */
  function ChunkFields(lines: seq<string>): (data: seq<seq<string>>)
    ensures |data| == |lines|
    ensures forall j :: 0 <= j < |lines| ==> data[j] == LineFields(lines[j])
  {
    seq(|lines|, j requires 0 <= j < |lines| => LineFields(lines[j]))
  }

  /** The rows of output file `i` of `n`: the fields of the data lines of its chunk. */
  function FileFields(lines: seq<string>, n: int, i: nat): seq<seq<string>>
    requires n >= 1
  {
    ChunkFields(SelectData(lines, n, i))
  }

  // ---------------------------------------------------------------------------
  // Filling the rows

  /** Cell `(r, c)` receives a field: row `13 + j` for chunk entry `j`, column `k + 1` for
      its field `k`. */
  predicate IsField(data: seq<seq<string>>, r: int, c: int)
  {
    13 <= r < 13 + |data| && 1 <= c <= |data[r - 13]|
  }

  /** ... and is written before field `k` of entry `j`. */
  predicate Before(data: seq<seq<string>>, j: int, k: int, r: int, c: int)
  {
    IsField(data, r, c) && (r - 13 < j || (r - 13 == j && c - 1 < k))
  }

  /** The cell of a field shows it as the write rule leaves it. */
  predicate Settled(u: Sheet, data: seq<seq<string>>, r: int, c: int)
  {
    IsField(data, r, c) && Placed(u, r, c, data[r - 13][c - 1])
  }

  /** Sheet `u` is header sheet `h` once the fields before field `k` of entry `j` are
      written: those settled, every other value as in `h`, every style and dimension and
      range as in `h`. */
  ghost predicate Progress(h: Sheet, data: seq<seq<string>>, j: int, k: int, u: Sheet)
  {
    && (forall r, c :: Before(data, j, k, r, c) ==> Settled(u, data, r, c))
    && (forall r, c :: !Before(data, j, k, r, c) ==> CellAt(u, r, c).value == CellAt(h, r, c).value)
    && (forall r, c :: CellAt(u, r, c).style == CellAt(h, r, c).style)
    && u.rowHeight == h.rowHeight && u.colWidth == h.colWidth && u.merges == h.merges
  }

  /** Writing one more field keeps the earlier ones settled: a range's top-left cell comes
      before every other cell of the range in row order, so it is never the cell being
      written when an earlier cell depends on it. */
  lemma PutStep(h: Sheet, data: seq<seq<string>>, j: int, k: int, u: Sheet, u': Sheet)
    requires 0 <= j < |data| && 0 <= k < |data[j]|
    requires Progress(h, data, j, k, u)
    requires Placed(u', 13 + j, k + 1, data[j][k])
    requires forall rr, cc :: CellAt(u', rr, cc).style == CellAt(u, rr, cc).style
    requires forall rr, cc :: (rr, cc) != (13 + j, k + 1) ==> CellAt(u', rr, cc).value == CellAt(u, rr, cc).value
    requires u'.rowHeight == u.rowHeight && u'.colWidth == u.colWidth && u'.merges == u.merges
    ensures Progress(h, data, j, k + 1, u')
  {
    forall r, c | Before(data, j, k + 1, r, c) ensures Settled(u', data, r, c) {
      if (r, c) != (13 + j, k + 1) {
        KeptSettled(data, j, k, u, u', r, c);
      }
    }
  }

  /** A field written before the current one stays settled. */
  lemma KeptSettled(data: seq<seq<string>>, j: int, k: int, u: Sheet, u': Sheet, r: int, c: int)
    requires Before(data, j, k, r, c) && Settled(u, data, r, c)
    requires forall rr, cc :: (rr, cc) != (13 + j, k + 1) ==> CellAt(u', rr, cc).value == CellAt(u, rr, cc).value
    requires u'.merges == u.merges
    ensures Settled(u', data, r, c)
  {
    var o := FirstCover(u.merges, r, c);
    assert CellAt(u', r, c).value == CellAt(u, r, c).value;
    if o.Some? {
      var m := u.merges[o.value];
      assert CellAt(u', m.minRow, m.minCol).value == CellAt(u, m.minRow, m.minCol).value;
    }
  }

  /** Lines 91-118 for entry `j`: its fields, left to right. */
  method PutRow(h: Sheet, data: seq<seq<string>>, j: int, u0: Sheet) returns (u: Sheet)
    requires 0 <= j < |data|
    requires Progress(h, data, j, 0, u0)
    ensures Progress(h, data, j + 1, 0, u)
  {
    u := u0;
    var k := 0;
    while k < |data[j]|
      invariant 0 <= k <= |data[j]|
      invariant Progress(h, data, j, k, u)
    {
      var u' := PutField(u, 13 + j, k + 1, data[j][k]);
      PutStep(h, data, j, k, u, u');
      u, k := u', k + 1;
    }
    RowDone(h, data, j, u);
  }

  /** Entry `j` written to its end is the next entry not yet begun. */
  lemma RowDone(h: Sheet, data: seq<seq<string>>, j: int, u: Sheet)
    requires 0 <= j < |data|
    requires Progress(h, data, j, |data[j]|, u)
    ensures Progress(h, data, j + 1, 0, u)
  {
    forall r, c ensures Before(data, j, |data[j]|, r, c) == Before(data, j + 1, 0, r, c) {
    }
  }

  /** Lines 89-118: every entry of the chunk, in order. */
  method PutRows(h: Sheet, data: seq<seq<string>>) returns (u: Sheet)
    ensures Progress(h, data, |data|, 0, u)
  {
    u := h;
    var j := 0;
    while j < |data|
      invariant 0 <= j <= |data|
      invariant Progress(h, data, j, 0, u)
    {
      u := PutRow(h, data, j, u);
      j := j + 1;
    }
  }

  // ---------------------------------------------------------------------------
  // One output file

  /** What an output file holds: the model's rows 1..12 as the header copy gives them to a
      new sheet, with its heights, widths and ranges; every field's cell settled by the
      write rule, without style; every other cell empty. */
  ghost predicate LargeFile(model: Sheet, data: seq<seq<string>>, u: Sheet)
  {
    && (forall r, c :: 1 <= r <= 12 && 1 <= c <= MaxColumn(model) ==>
          CellAt(u, r, c) == HeaderCell(CellAt(model, r, c), EmptyCell))
    && (forall r, c :: IsField(data, r, c) ==> Settled(u, data, r, c) && CellAt(u, r, c).style == DefaultStyle)
    && (forall r, c :: !IsField(data, r, c) && !(1 <= r <= 12 && 1 <= c <= MaxColumn(model)) ==>
          CellAt(u, r, c) == EmptyCell)
    && (forall r :: Height(u, r) == if 1 <= r <= 12 then Height(model, r) else None)
    && (forall c :: Width(u, c) == if 1 <= c <= MaxColumn(model) then Width(model, c) else None)
    && u.merges == model.merges
  }

  /** The body of the loop of `process_large_excel` for one file, its rows given. */
  method BuildFile(model: Sheet, data: seq<seq<string>>) returns (u: Sheet)
    ensures LargeFile(model, data, u)
  {
    var h := CopyFormatting(model, Blank);
    u := PutRows(h, data);
    FileOfProgress(model, data, h, u);
  }

  /** The filled sheet, from what the header copy gave and what the rows loop left. */
  lemma FileOfProgress(model: Sheet, data: seq<seq<string>>, h: Sheet, u: Sheet)
    requires forall r, c :: CellAt(h, r, c) ==
               if 1 <= r <= 12 && 1 <= c <= MaxColumn(model) then HeaderCell(CellAt(model, r, c), CellAt(Blank, r, c))
               else CellAt(Blank, r, c)
    requires forall r :: Height(h, r) == if 1 <= r <= 12 then Height(model, r) else Height(Blank, r)
    requires forall c :: Width(h, c) == if 1 <= c <= MaxColumn(model) then Width(model, c) else Width(Blank, c)
    requires h.merges == Blank.merges + model.merges
    requires Progress(h, data, |data|, 0, u)
    ensures LargeFile(model, data, u)
  {
    assert Blank.merges + model.merges == model.merges;
    assert forall r :: Height(u, r) == Height(h, r);
    assert forall c :: Width(u, c) == Width(h, c);
    forall r, c ensures IsField(data, r, c) <==> Before(data, |data|, 0, r, c) {
    }
  }

  /** Where no range covers a field's cell, the file holds the field's text there, as a
      plain text cell. */
  lemma FieldReadsBack(model: Sheet, data: seq<seq<string>>, u: Sheet, j: int, k: int)
    requires LargeFile(model, data, u)
    requires 0 <= j < |data| && 0 <= k < |data[j]|
    requires forall q :: 0 <= q < |model.merges| ==> !Covers(model.merges[q], 13 + j, k + 1)
    ensures CellAt(u, 13 + j, k + 1) == Cell(Str(data[j][k]), DefaultStyle)
  {
    assert Settled(u, data, 13 + j, k + 1);
  }

  /** A merged range whose top-left cell receives a field shows that field's text in every
      cell of it that receives a field and that no earlier range covers. */
  lemma MergedShowsAnchor(model: Sheet, data: seq<seq<string>>, u: Sheet, q: nat, r: int, c: int)
    requires LargeFile(model, data, u)
    requires q < |model.merges|
    requires IsField(data, r, c) && FirstCover(model.merges, r, c) == Some(q)
    requires var m := model.merges[q];
             IsField(data, m.minRow, m.minCol) && FirstCover(model.merges, m.minRow, m.minCol) == Some(q)
    ensures CellAt(u, r, c).value == Str(data[model.merges[q].minRow - 13][model.merges[q].minCol - 1])
  {
    var m := model.merges[q];
    assert Settled(u, data, r, c);
    assert Settled(u, data, m.minRow, m.minCol);
  }

  // ---------------------------------------------------------------------------
  // The whole run

  /** `process_large_excel(small_file, large_file, N)` on the CSV file's lines: `N` files
      named `output_part_{i + 1}.xlsx`, file `i` holding the fields of the data lines of its
      chunk; `N = 0` fails on the floor division before any file is made, and a negative `N`
      makes none. */
  method ProcessLargeExcel(model: Sheet, lines: seq<string>, n: int) returns (r: Result<seq<OutputFile>, string>)
    ensures r.Failure? <==> n == 0
    ensures r.Success? ==> |r.value| == Max(n, 0)
    ensures r.Success? ==> forall i :: 0 <= i < |r.value| ==> r.value[i].name == PartName("output", "_part_", i)
    ensures r.Success? ==> forall i :: 0 <= i < |r.value| ==> LargeFile(model, FileFields(lines, n, i), r.value[i].sheet)
  {
    if n == 0 {
      return Failure("integer division or modulo by zero");
    } else if n < 0 {
      return Success([]);
    }
    var files: seq<OutputFile> := [];
    var i := 0;
    while i < n
      invariant 0 <= i <= n && |files| == i
      invariant forall k :: 0 <= k < i ==> files[k].name == PartName("output", "_part_", k)
      invariant forall k :: 0 <= k < i ==> LargeFile(model, FileFields(lines, n, k), files[k].sheet)
    {
      var u := BuildFile(model, FileFields(lines, n, i));
      var f := OutputFile(PartName("output", "_part_", i), u);
      FilesExtend(model, lines, n, files, f);
      files := files + [f];
      i := i + 1;
    }
    return Success(files);
  }

  /** One more file, of the next index and name, keeps the files as the run makes them. */
  lemma FilesExtend(model: Sheet, lines: seq<string>, n: int, files: seq<OutputFile>, f: OutputFile)
    requires n >= 1
    requires forall k :: 0 <= k < |files| ==> files[k].name == PartName("output", "_part_", k)
    requires forall k :: 0 <= k < |files| ==> LargeFile(model, FileFields(lines, n, k), files[k].sheet)
    requires f.name == PartName("output", "_part_", |files|) && LargeFile(model, FileFields(lines, n, |files|), f.sheet)
    ensures forall k :: 0 <= k < |files| + 1 ==> (files + [f])[k].name == PartName("output", "_part_", k)
    ensures forall k :: 0 <= k < |files| + 1 ==> LargeFile(model, FileFields(lines, n, k), (files + [f])[k].sheet)
  {
  }

  /** The files' chunks, one after the other, are the lines after the header, each once;
      with the selection as written they would be every line but the last. */
  lemma ChunksCoverData(lines: seq<string>, n: int)
    requires n >= 1 && |lines| >= 1
    ensures Concat(seq(n, i requires 0 <= i < n => SelectData(lines, n, i))) == lines[1..]
  {
    SelectDataCover(lines, n);
    assert SelectAll(lines, n, n, true) == seq(n, i requires 0 <= i < n => SelectData(lines, n, i));
  }
}
