/** The splitter of common/xlsx/large_xlsx_splitter_utils.py: the source workbook is written
    out with `excel_to_csv`, and `split_csv_to_excel` cuts the records into files whose table
    start row, header size and reference rows are parameters (13, 12, 13 and 14 by default),
    whose fields go through `format_value`, whose style copies include the number format, and
    whose last file's last row takes the look of model row 45. */
module XlsxSplitter {
  import opened Prelude
  import opened Text
  import opened Values
  import opened Normalise
  import opened FlatRows
  import opened Sheets
  import opened Layout
  import opened CsvSplit

  /** The settings of `split_csv_to_excel` for the given table layout. */
  function UtilsSettings(tableStartRow: int, headerRows: nat, rowRefOdd: int, rowRefEven: int): Settings
  {
    Settings(tableStartRow, headerRows, rowRefOdd, rowRefEven, FormatValue, true, true, "_")
  }

  /** The default arguments. */
  const Defaults := UtilsSettings(13, 12, 13, 14)

  /** `format_value` never turns a text into None. */
  lemma FormatValueKeepsText()
    ensures KeepsText(FormatValue)
  {
    forall s: string ensures !FormatValue(Str(s)).Empty? {
      assert Str(s).Str?;
    }
  }

  /** With the number format copied, a record row's cell takes the reference cell's whole
      style, whether it has one or not. */
  lemma ReferenceStyleWhole(src: Cell)
    ensures CopyStyle(src, EmptyCell, true).style == src.style
  {
    if HasStyle(src) {
      CopyStyleWhole(src, EmptyCell);
    }
  }

  /** What a file of this splitter holds, in the terms of its arguments: field `k` of record
      `j` is `format_value` of its text, at row `table_start_row + j`, column `k + 1`, and
      no other cell below the header has a value; the header rows above the table are the
      model's; every banded row below the header has the whole style of its reference row
      (but where the last file's tail step restyles row `max_row`) and its height; the last
      file's row `max_row` has model row 45's style wherever that row has one; the model's
      column widths; the model's ranges and their one-row copies. */
  ghost predicate UtilsFile(model: Sheet, data: seq<seq<string>>, tableStartRow: int, headerRows: nat,
                            rowRefOdd: int, rowRefEven: int, last: bool, u: Sheet)
  {
    var st := UtilsSettings(tableStartRow, headerRows, rowRefOdd, rowRefEven);
    var e := BandEnd(data, headerRows, tableStartRow);
    && (forall j, k :: 0 <= j < |data| && 0 <= k < |data[j]| ==>
          CellAt(u, tableStartRow + j, k + 1).value == FormatValue(Str(data[j][k])))
    && NothingElse(model, data, st, u)
    && HeaderCells(model, data, st, last, u)
    && (forall row, c :: tableStartRow <= row <= e && headerRows < row && 1 <= c <= MaxColumn(model)
                         && !(last && row == MaxRow(u) && HasStyle(CellAt(model, ModelLastRow, c))) ==>
          CellAt(u, row, c).style == CellAt(model, RefRow(row, rowRefOdd, rowRefEven), c).style)
    && (last ==> TailStyle(model, u))
    && (forall row :: Height(u, row) ==
          if tableStartRow <= row <= e then Height(model, RefRow(row, rowRefOdd, rowRefEven)) else None)
    && (forall c :: Width(u, c) == if 1 <= c <= MaxColumn(model) then Width(model, c) else None)
    && MergeList(model, st, u)
  }

  /** A file built with these settings is such a file. */
  lemma UtilsPart(model: Sheet, data: seq<seq<string>>, tableStartRow: int, headerRows: nat,
                  rowRefOdd: int, rowRefEven: int, last: bool, u: Sheet)
    requires IsPart(model, data, UtilsSettings(tableStartRow, headerRows, rowRefOdd, rowRefEven), last, u)
    ensures UtilsFile(model, data, tableStartRow, headerRows, rowRefOdd, rowRefEven, last, u)
  {
    var st := UtilsSettings(tableStartRow, headerRows, rowRefOdd, rowRefEven);
    FormatValueKeepsText();
    PartFacts(model, data, st, last, u);
    WholeRecordStyles(model, data, st, last, u);
    UtilsValues(model, data, tableStartRow, headerRows, rowRefOdd, rowRefEven, u);
  }

  /** The records' values are `format_value` of their texts. */
  lemma UtilsValues(model: Sheet, data: seq<seq<string>>, tableStartRow: int, headerRows: nat,
                    rowRefOdd: int, rowRefEven: int, u: Sheet)
    requires RecordValues(data, UtilsSettings(tableStartRow, headerRows, rowRefOdd, rowRefEven), u)
    ensures forall j, k :: 0 <= j < |data| && 0 <= k < |data[j]| ==>
              CellAt(u, tableStartRow + j, k + 1).value == FormatValue(Str(data[j][k]))
  {
    var st := UtilsSettings(tableStartRow, headerRows, rowRefOdd, rowRefEven);
    FormatValueKeepsText();
    forall j, k | 0 <= j < |data| && 0 <= k < |data[j]|
      ensures CellAt(u, tableStartRow + j, k + 1).value == FormatValue(Str(data[j][k]))
    {
      assert CellAt(u, st.tableStartRow + j, k + 1).value == st.norm(Str(data[j][k]));
    }
  }

  /** With the number format copied, the banded rows below the header have their reference
      rows' whole styles. */
  lemma WholeRecordStyles(model: Sheet, data: seq<seq<string>>, st: Settings, last: bool, u: Sheet)
    requires st.copyNumberFormat && st.tailRow
    requires RecordStyles(model, data, st, last, u) && MaxRow(u) == LastRow(model, data, st)
    ensures forall row, c :: st.tableStartRow <= row <= BandEnd(data, st.headerRows, st.tableStartRow)
                             && st.headerRows < row && 1 <= c <= MaxColumn(model)
                             && !(last && row == MaxRow(u) && HasStyle(CellAt(model, ModelLastRow, c))) ==>
              CellAt(u, row, c).style == CellAt(model, RefRow(row, st.rowRefOdd, st.rowRefEven), c).style
  {
    forall row, c | st.tableStartRow <= row <= BandEnd(data, st.headerRows, st.tableStartRow)
                    && st.headerRows < row && 1 <= c <= MaxColumn(model)
                    && !(last && row == MaxRow(u) && HasStyle(CellAt(model, ModelLastRow, c)))
      ensures CellAt(u, row, c).style == CellAt(model, RefRow(row, st.rowRefOdd, st.rowRefEven), c).style
    {
      ReferenceStyleWhole(CellAt(model, RefRow(row, st.rowRefOdd, st.rowRefEven), c));
    }
  }

  /** `split_csv_to_excel(model, csv, folder, product, N, table_start_row, header_rows,
      row_ref_odd, row_ref_even)`: `N` files named `{product}_{i + 1}.xlsx`, file `i` built
      from the `i`-th chunk of records. `N = 0` fails, and so does a run in which some file
      needs a row below 1: always when `table_start_row < 1`, never when the three rows are
      at least 1. */
  method SplitCsvToExcel(model: Sheet, text: string, product: string, n: int,
                         tableStartRow: int, headerRows: nat, rowRefOdd: int, rowRefEven: int)
    returns (r: Result<seq<OutputFile>, string>)
    requires Unquoted(text)
    ensures r.Failure? <==>
              n == 0 || SomeRowOutOfRange(text, n, UtilsSettings(tableStartRow, headerRows, rowRefOdd, rowRefEven))
    ensures n >= 1 && tableStartRow < 1 ==> r.Failure?
    ensures tableStartRow >= 1 && rowRefOdd >= 1 && rowRefEven >= 1 ==> (r.Failure? <==> n == 0)
    ensures r.Success? ==> |r.value| == Max(n, 0)
    ensures r.Success? ==> forall i :: 0 <= i < |r.value| ==> r.value[i].name == PartName(product, "_", i)
    ensures r.Success? ==> forall i :: 0 <= i < |r.value| ==>
              IsPart(model, FileRows(text, headerRows, n, i), UtilsSettings(tableStartRow, headerRows, rowRefOdd, rowRefEven),
                     i == n - 1, r.value[i].sheet)
    ensures r.Success? ==> forall i :: 0 <= i < |r.value| ==>
              UtilsFile(model, FileRows(text, headerRows, n, i), tableStartRow, headerRows, rowRefOdd, rowRefEven,
                        i == n - 1, r.value[i].sheet)
  {
    var st := UtilsSettings(tableStartRow, headerRows, rowRefOdd, rowRefEven);
    r := CsvSplit.Split(model, text, product, n, st);
    if n >= 1 {
      RowsInRangeWhen(FileRows(text, headerRows, n, 0), st);
      forall i | 0 <= i < n {
        RowsInRangeWhen(FileRows(text, headerRows, n, i), st);
      }
    }
    if r.Success? {
      forall i | 0 <= i < |r.value|
        ensures UtilsFile(model, FileRows(text, headerRows, n, i), tableStartRow, headerRows, rowRefOdd, rowRefEven,
                          i == n - 1, r.value[i].sheet)
      {
        UtilsPart(model, FileRows(text, headerRows, n, i), tableStartRow, headerRows, rowRefOdd, rowRefEven,
                  i == n - 1, r.value[i].sheet);
      }
    }
  }

  // ---------------------------------------------------------------------------
  // The CSV detour

  /** What a source cell value becomes in an output file: written by `excel_to_csv`, read
      back as text, and put through `format_value`. */
  function Detour(v: Value): Value
  {
    FormatValue(Str(FieldText(v)))
  }

  /** Through the detour an empty cell becomes the empty text, an int stays that int, a float
      becomes the number it denotes (an int when integral), a date-time without microseconds
      becomes the `DD/MM/YYYY` text of its day, and a text that is neither a date-time nor a
      decimal literal stays as it is. */
  lemma DetourKinds(v: Value)
    ensures v.Empty? ==> Detour(v) == Str("")
    ensures v.Int? ==> Detour(v) == v
    ensures v.Float? && WellFormedFloat(v.num) && Positional(v.num) ==> Detour(v) == Numeric(v.num)
    ensures v.Float? && WellFormedFloat(v.num) && Positional(v.num) && Numeric(v.num).Float? ==> Detour(v) == v
    ensures v.Stamp? && ValidDateTime(v.t) && v.t.micro == 0 ==> Detour(v) == Str(DmyText(DateOf(v.t)))
    ensures v.Str? && ParseDateTime(v.s).None? && ParseDecimal(v.s).None? ==> Detour(v) == v
  {
    match v
    case Empty => FormatValueExampleText();
    case Int(i) => FormatValueIntText(i);
    case Float(d) =>
      if WellFormedFloat(d) && Positional(d) {
        assert FieldText(v) == DecimalText(d);
        FormatValueDecimalText(d);
      }
    case Stamp(t) =>
      if ValidDateTime(t) && t.micro == 0 {
        FormatValueDate(t);
      }
    case Str(s) =>
    case Bool(_) =>
    case Day(_) =>
  }

  /** The whole run, `excel_to_csv` then `split_csv_to_excel` with the default arguments:
      field `k` of the `j`-th record of file `i` is the detour of cell `k` of the source row
      that record comes from, unless that row was written as an empty line. */
  method SplitWorkbook(model: Sheet, source: seq<seq<Value>>, product: string, n: int)
    returns (r: Result<seq<OutputFile>, string>)
    requires PlainRows(source)
    ensures r.Failure? <==> n == 0
    ensures r.Success? ==> |r.value| == Max(n, 0)
    ensures r.Success? ==> forall i, j, k ::
              (&& 0 <= i < |r.value| && InFile(|source|, 12, n, i, j)
               && 0 <= k < |source[SourceRow(|source|, 12, n, i, j)]|
               && Line(source[SourceRow(|source|, 12, n, i, j)], ";") != "") ==>
                CellAt(r.value[i].sheet, 13 + j, k + 1).value == Detour(source[SourceRow(|source|, 12, n, i, j)][k])
  {
    ReadExcelToCsv(source);
    var text := ExcelToCsv(source, ";");
    r := SplitCsvToExcel(model, text, product, n, 13, 12, 13, 14);
    if r.Success? {
      forall i | 0 <= i < |r.value| {
        FileRowsOfWorkbook(source, 12, n, i);
      }
    }
  }
}
