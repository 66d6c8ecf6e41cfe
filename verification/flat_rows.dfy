/** `excel_to_csv`: every row of the input sheet becomes one line of text, its cells joined
    by a delimiter, `None` written as the empty text and every other value as `str(value)`;
    and the `;` reader (`csv.reader(f, delimiter=";")`) the splitters read those lines back
    with. The reader is modelled on texts without quote characters and carriage returns,
    which is where it reduces to splitting lines at `\n` and records at `;`. */
module FlatRows {
  import opened Prelude
  import opened Text
  import opened Values

  /** How one cell is written: `str(value) if value is not None else ""`. */
  function FieldText(v: Value): string
  {
    if v.Empty? then "" else Show(v)
  }

  /** The texts of a row's cells, in column order. */
  function Fields(row: seq<Value>): (r: seq<string>)
    ensures |r| == |row|
    ensures forall k :: 0 <= k < |row| ==> r[k] == FieldText(row[k])
  {
    seq(|row|, k requires 0 <= k < |row| => FieldText(row[k]))
  }

  /** One written line, without its newline: `delimiter.join(fields)`. */
  function Line(row: seq<Value>, delimiter: string): string
  {
    Join(Fields(row), delimiter)
  }

  /** Everything `excel_to_csv` writes: each row's line followed by `\n`, in row order. */
  function ExcelToCsv(rows: seq<seq<Value>>, delimiter: string): (text: string)
    decreases |rows|
  {
    if |rows| == 0 then ""
    else ExcelToCsv(rows[..|rows| - 1], delimiter) + Line(rows[|rows| - 1], delimiter) + "\n"
  }

  /** The lines of the written rows, in order. */
  function LinesOf(rows: seq<seq<Value>>, delimiter: string): (r: seq<string>)
    ensures |r| == |rows|
    ensures forall i :: 0 <= i < |rows| ==> r[i] == Line(rows[i], delimiter)
  {
    seq(|rows|, i requires 0 <= i < |rows| => Line(rows[i], delimiter))
  }

  // ---------------------------------------------------------------------------
  // Reading back

  /** A text `csv.reader` takes literally: no quote character and no carriage return. */
  predicate Unquoted(text: string)
  {
    Free(text, '"') && Free(text, '\r')
  }

  /** The lines of a text: the pieces between newlines, the piece after the last newline
      only when it is not empty. */
  function Lines(text: string): (r: seq<string>)
  {
    var parts := Split(text, '\n');
    if parts[|parts| - 1] == "" then parts[..|parts| - 1] else parts
  }

  /** The record `csv.reader` makes of one unquoted line: no fields for an empty line,
      otherwise the pieces between the `;`s. */
  function ReadRecord(line: string): (r: seq<string>)
    ensures line != "" ==> Join(r, ";") == line
    ensures line == "" <==> r == []
  {
    if line == "" then []
    else
      JoinSplit(line, ';');
      Split(line, ';')
  }

  /** `list(csv.reader(f, delimiter=";"))` over an unquoted text. */
  function ReadCsv(text: string): (r: seq<seq<string>>)
    requires Unquoted(text)
    ensures |r| == |Lines(text)|
    ensures forall i :: 0 <= i < |r| ==> r[i] == ReadRecord(Lines(text)[i])
  {
    var ls := Lines(text);
    seq(|ls|, i requires 0 <= i < |ls| => ReadRecord(ls[i]))
  }

  // ---------------------------------------------------------------------------
  // Properties

  /** A field text the `;` reader gives back unchanged: no delimiter, quote or line break. */
  predicate Plain(s: string)
  {
    Free(s, ';') && Free(s, '\n') && Free(s, '"') && Free(s, '\r')
  }

  /** Every cell of every row is written as a plain field text. */
  predicate PlainRows(rows: seq<seq<Value>>)
  {
    forall i, k :: 0 <= i < |rows| && 0 <= k < |rows[i]| ==> Plain(FieldText(rows[i][k]))
  }

  lemma {:induction false} JoinWithEmptyLast(ls: seq<string>, l: string, sep: string)
    ensures Join(ls + [l], sep) == Join(ls + [""], sep) + l
    decreases |ls|
  {
    if |ls| == 1 {
      assert ls + [l] == [ls[0], l];
      assert ls + [""] == [ls[0], ""];
    } else if |ls| > 1 {
      JoinWithEmptyLast(ls[1..], l, sep);
      assert (ls + [l])[1..] == ls[1..] + [l];
      assert (ls + [""])[1..] == ls[1..] + [""];
    }
  }

  /** The written text is the lines joined by newlines, with a newline after the last. */
  lemma {:induction false} ExcelToCsvLines(rows: seq<seq<Value>>, delimiter: string)
    ensures ExcelToCsv(rows, delimiter) == Join(LinesOf(rows, delimiter) + [""], "\n")
    decreases |rows|
  {
    if |rows| > 0 {
      var front := rows[..|rows| - 1];
      var ls := LinesOf(front, delimiter);
      var l := Line(rows[|rows| - 1], delimiter);
      ExcelToCsvLines(front, delimiter);
      assert LinesOf(rows, delimiter) == ls + [l];
      JoinWithEmptyLast(ls, l, "\n");
      JoinLast(ls + [l], "", "\n");
    }
  }

  lemma {:induction false} JoinLast(xs: seq<string>, y: string, sep: string)
    requires |xs| >= 1
    ensures Join(xs + [y], sep) == Join(xs, sep) + sep + y
    decreases |xs|
  {
    if |xs| == 1 {
      assert xs + [y] == [xs[0], y];
    } else {
      JoinLast(xs[1..], y, sep);
      assert (xs + [y])[1..] == xs[1..] + [y];
    }
  }

  /** A line of plain fields has no line break, quote or carriage return. */
  lemma LineFree(row: seq<Value>, c: char)
    requires c == '\n' || c == '"' || c == '\r'
    requires forall k :: 0 <= k < |row| ==> Plain(FieldText(row[k]))
    ensures Free(Line(row, ";"), c)
  {
    JoinFree(Fields(row), ";", c);
  }

  /** Reading back what `excel_to_csv` wrote with `;` gives one record per row, in order;
      each record is the row's field texts, except that a row written as an empty line
      (no cells, or one empty cell) reads back as a record with no fields. */
  lemma ReadExcelToCsv(rows: seq<seq<Value>>)
    requires PlainRows(rows)
    ensures Unquoted(ExcelToCsv(rows, ";"))
    ensures |ReadCsv(ExcelToCsv(rows, ";"))| == |rows|
    ensures forall i :: 0 <= i < |rows| ==>
              ReadCsv(ExcelToCsv(rows, ";"))[i] == if Line(rows[i], ";") == "" then [] else Fields(rows[i])
  {
    var ls := LinesOf(rows, ";");
    ExcelToCsvLines(rows, ";");
    forall i, c | 0 <= i < |rows| && (c == '\n' || c == '"' || c == '\r')
      ensures Free(ls[i], c)
    {
      LineFree(rows[i], c);
    }
    var all := ls + [""];
    assert forall i :: 0 <= i < |all| ==> Free(all[i], '\n') by {
      forall i | 0 <= i < |all| ensures Free(all[i], '\n') {
        if i < |ls| {
          assert all[i] == ls[i];
        }
      }
    }
    SplitJoin(all, '\n');
    assert Lines(ExcelToCsv(rows, ";")) == ls;
    forall c | c == '"' || c == '\r'
      ensures Free(ExcelToCsv(rows, ";"), c)
    {
      forall i | 0 <= i < |all| ensures Free(all[i], c) {
        if i < |ls| {
          assert all[i] == ls[i];
        }
      }
      JoinFree(all, "\n", c);
    }
    forall i | 0 <= i < |rows| && Line(rows[i], ";") != ""
      ensures ReadRecord(ls[i]) == Fields(rows[i])
    {
      var fs := Fields(rows[i]);
      assert |fs| >= 1;
      SplitJoin(fs, ';');
    }
  }

  /** The written line is empty exactly when the row has no cells or one cell written empty. */
  lemma EmptyLine(row: seq<Value>, delimiter: string)
    requires |delimiter| >= 1
    ensures Line(row, delimiter) == "" <==> |row| == 0 || (|row| == 1 && FieldText(row[0]) == "")
  {
    if |row| >= 2 {
      assert |Line(row, delimiter)| >= |delimiter|;
    }
  }
}
