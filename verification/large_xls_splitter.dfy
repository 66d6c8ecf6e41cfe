/** The splitter of common/utilities/large_xls_splitter.py: the same CSV detour as the utils
    splitter, with the layout fixed (header rows 1..12, records from row 13, reference rows 13
    and 14), fields put through `format_date_value` only, style copies that leave the number
    format alone, no tail-row step, and files named `{product}_part_{i + 1}.xlsx`. */
module LargeXlsSplitter {
  import opened Prelude
  import opened Text
  import opened Values
  import opened Normalise
  import opened FlatRows
  import opened Sheets
  import opened Layout
  import opened CsvSplit

  const LargeSettings := Settings(13, 12, 13, 14, FormatDateValue, false, false, "_part_")

  /** `format_date_value` never turns a text into None. */
  lemma FormatDateValueKeepsText()
    ensures KeepsText(FormatDateValue)
  {
    forall s: string ensures !FormatDateValue(Str(s)).Empty? {
      assert Str(s).Str?;
    }
  }

  /** What a file of this splitter holds: field `k` of record `j` is `format_date_value` of
      its text, at row `13 + j`, column `k + 1`, and no other cell below the header has a
      value; rows 1 to 12 are the model's header copies; every banded row has, in the
      model's columns, its reference row's style with the number format left at the
      default, and its reference row's height; the model's column widths; the model's
      ranges and their one-row copies. */
  ghost predicate LargeFile(model: Sheet, data: seq<seq<string>>, u: Sheet)
  {
    && (forall j, k :: 0 <= j < |data| && 0 <= k < |data[j]| ==>
          CellAt(u, 13 + j, k + 1).value == FormatDateValue(Str(data[j][k])))
    && NothingElse(model, data, LargeSettings, u)
    && (forall row, c :: 1 <= row <= 12 && 1 <= c <= MaxColumn(model) ==>
          CellAt(u, row, c) == HeaderCell(CellAt(model, row, c), EmptyCell))
    && (forall row, c :: 13 <= row <= BandEnd(data, 12, 13) && 1 <= c <= MaxColumn(model) ==>
          CellAt(u, row, c).style
          == (if HasStyle(CellAt(model, RefRow(row, 13, 14), c))
              then CellAt(model, RefRow(row, 13, 14), c).style.(numberFormat := "General")
              else DefaultStyle))
    && (forall row :: Height(u, row) == if 13 <= row <= BandEnd(data, 12, 13) then Height(model, RefRow(row, 13, 14)) else None)
    && (forall c :: Width(u, c) == if 1 <= c <= MaxColumn(model) then Width(model, c) else None)
    && MergeList(model, LargeSettings, u)
  }

  /** A file built with these settings is such a file. */
  lemma LargePart(model: Sheet, data: seq<seq<string>>, last: bool, u: Sheet)
    requires IsPart(model, data, LargeSettings, last, u)
    ensures LargeFile(model, data, u)
  {
    PartFacts(model, data, LargeSettings, last, u);
    LargeValues(data, u);
    LargeHeader(model, data, last, u);
    LargeStyles(model, data, last, u);
  }

  /** The records' values are `format_date_value` of their texts. */
  lemma LargeValues(data: seq<seq<string>>, u: Sheet)
    requires RecordValues(data, LargeSettings, u)
    ensures forall j, k :: 0 <= j < |data| && 0 <= k < |data[j]| ==>
              CellAt(u, 13 + j, k + 1).value == FormatDateValue(Str(data[j][k]))
  {
    FormatDateValueKeepsText();
    forall j, k | 0 <= j < |data| && 0 <= k < |data[j]|
      ensures CellAt(u, 13 + j, k + 1).value == FormatDateValue(Str(data[j][k]))
    {
      assert CellAt(u, LargeSettings.tableStartRow + j, k + 1).value == LargeSettings.norm(Str(data[j][k]));
    }
  }

  /** Without a tail step, all twelve header rows are the model's header copies. */
  lemma LargeHeader(model: Sheet, data: seq<seq<string>>, last: bool, u: Sheet)
    requires HeaderCells(model, data, LargeSettings, last, u)
    ensures forall row, c :: 1 <= row <= 12 && 1 <= c <= MaxColumn(model) ==>
              CellAt(u, row, c) == HeaderCell(CellAt(model, row, c), EmptyCell)
  {
  }

  /** Without the number format, a banded cell keeps the default one. */
  lemma LargeStyles(model: Sheet, data: seq<seq<string>>, last: bool, u: Sheet)
    requires RecordStyles(model, data, LargeSettings, last, u)
    ensures forall row, c :: 13 <= row <= BandEnd(data, 12, 13) && 1 <= c <= MaxColumn(model) ==>
              CellAt(u, row, c).style
              == (if HasStyle(CellAt(model, RefRow(row, 13, 14), c))
                  then CellAt(model, RefRow(row, 13, 14), c).style.(numberFormat := "General")
                  else DefaultStyle)
  {
    forall row, c | 13 <= row <= BandEnd(data, 12, 13) && 1 <= c <= MaxColumn(model)
      ensures CellAt(u, row, c).style
              == (if HasStyle(CellAt(model, RefRow(row, 13, 14), c))
                  then CellAt(model, RefRow(row, 13, 14), c).style.(numberFormat := "General")
                  else DefaultStyle)
    {
      assert CellAt(u, row, c).style == CopyStyle(CellAt(model, RefRow(row, 13, 14), c), EmptyCell, false).style;
    }
  }

  /** `split_csv_to_excel(source_excel_file, source_csv_file, output_folder, product_name, N)`:
      `N` files named `{product}_part_{i + 1}.xlsx`, file `i` built from the `i`-th chunk of
      the records after the first 12; with the rows fixed at 13 and 14 only `N = 0` fails. */
  method SplitCsvToExcel(model: Sheet, text: string, product: string, n: int)
    returns (r: Result<seq<OutputFile>, string>)
    requires Unquoted(text)
    ensures r.Failure? <==> n == 0
    ensures r.Success? ==> |r.value| == Max(n, 0)
    ensures r.Success? ==> forall i :: 0 <= i < |r.value| ==> r.value[i].name == PartName(product, "_part_", i)
    ensures r.Success? ==> forall i :: 0 <= i < |r.value| ==>
              IsPart(model, FileRows(text, 12, n, i), LargeSettings, i == n - 1, r.value[i].sheet)
    ensures r.Success? ==> forall i :: 0 <= i < |r.value| ==> LargeFile(model, FileRows(text, 12, n, i), r.value[i].sheet)
  {
    r := CsvSplit.Split(model, text, product, n, LargeSettings);
    if n >= 1 {
      forall i | 0 <= i < n {
        RowsInRangeWhen(FileRows(text, 12, n, i), LargeSettings);
      }
    }
    if r.Success? {
      forall i | 0 <= i < |r.value| ensures LargeFile(model, FileRows(text, 12, n, i), r.value[i].sheet) {
        LargePart(model, FileRows(text, 12, n, i), i == n - 1, r.value[i].sheet);
      }
    }
  }

  // ---------------------------------------------------------------------------
  // The CSV detour

  /** What a source cell value becomes in an output file: written by `excel_to_csv`, read
      back as text, and put through `format_date_value`. */
  function Detour(v: Value): Value
  {
    FormatDateValue(Str(FieldText(v)))
  }

  /** Through this detour every value ends up as text: an empty cell as the empty text, a
      number as its `str`, a date-time without microseconds as the `DD/MM/YYYY` text of its
      day, and a text that is not a date-time as it is. */
  lemma DetourKinds(v: Value)
    ensures Detour(v).Str?
    ensures v.Empty? ==> Detour(v) == Str("")
    ensures v.Int? ==> Detour(v) == Str(IntText(v.i))
    ensures v.Float? && WellFormedFloat(v.num) ==> Detour(v) == Str(FloatText(v.num))
    ensures v.Stamp? && ValidDateTime(v.t) && v.t.micro == 0 ==> Detour(v) == Str(DmyText(DateOf(v.t)))
    ensures v.Str? && ParseDateTime(v.s).None? ==> Detour(v) == v
  {
    match v
    case Empty => FormatValueExampleText();
    case Int(i) =>
      ParseIntText(i);
      FormatValueNumber(IntText(i), Decimal(i, 0));
    case Float(d) =>
      if !Positional(d) {
        ExponentTextNotDate(d);
      } else if WellFormedFloat(d) {
        ParseDecimalText(d);
        FormatValueNumber(DecimalText(d), d);
      }
    case Stamp(t) =>
      if ValidDateTime(t) && t.micro == 0 {
        FormatValueDate(t);
      }
    case Str(s) =>
    case Bool(_) =>
    case Day(_) =>
  }

  /** The whole run, `excel_to_csv` then `split_csv_to_excel`: field `k` of the `j`-th record
      of file `i` is the detour of cell `k` of the source row that record comes from, unless
      that row was written as an empty line. */
  method SplitWorkbook(model: Sheet, source: seq<seq<Value>>, product: string, n: int)
    returns (r: Result<seq<OutputFile>, string>)
    requires PlainRows(source)
    ensures r.Failure? <==> n == 0
    ensures r.Success? ==> |r.value| == Max(n, 0)
    ensures r.Success? ==> forall i, j, k ::
              (&& 0 <= i < |r.value| && InFile(|source|, 12, n, i, j)
               && 0 <= k < |source[SourceRow(|source|, 12, n, i, j)]|
               && Line(source[SourceRow(|source|, 12, n, i, j)], ";") != "") ==>
                CellAt(r.value[i].sheet, 13 + j, k + 1).value == Detour(source[SourceRow(|source|, 12, n, i, j)][k])
  {
    ReadExcelToCsv(source);
    var text := ExcelToCsv(source, ";");
    r := SplitCsvToExcel(model, text, product, n);
    if r.Success? {
      forall i | 0 <= i < |r.value| {
        FileRowsOfWorkbook(source, 12, n, i);
      }
    }
  }
}
