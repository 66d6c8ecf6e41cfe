# Excel splitters, modelled in Dafny

This project models the four splitters of large spreadsheets that the repository ships.
Each one cuts the data rows of a workbook into `N` output workbooks. Every output gets a
copy of the model workbook's 12-row header, its column widths, its merged ranges and its
row styles.

- `common/xlsx/large_xlsx_splitter_utils.py` writes the source workbook out as
  `;`-separated text (`excel_to_csv`). `split_csv_to_excel` then cuts the records after
  the header into `N` chunks of `ceil(total / N)` records. It puts the chunks under the
  model's header from `table_start_row` on, with every field through `format_value`. It
  gives the record rows the alternating styles of the two reference rows, replicates the
  reference row's merged ranges, and styles the last row of the last file like model
  row 45.
- `common/utilities/large_xls_splitter.py` is the same pipeline with a fixed layout. It
  uses `format_date_value` instead of `format_value`, copies styles without the number
  format, and has no tail-row step.
- `common/utilities/xls_splitter.py` copies straight from workbook to workbook
  (`split_excel`). Source rows `13 + i*size .. 12 + (i+1)*size` keep their own row
  numbers in file `i`. `format_date_cell` turns date-times into dates. Row 11 of the
  header gets a grey bottom border. `remove_odd_columns` deletes every odd column from
  the right.
- `common/utilities/xls_splitter_large.py` reads comma-separated lines, `total // N` per
  file, the last file taking the remainder. It writes them from row 13 under
  `copy_formatting`'s header, with a rule for cells inside merged ranges.

The workbook is modelled as a value (`Sheets.Sheet`):

- a map from `(row, column)` to cells, where a cell is a value and a style;
- row heights and column widths;
- the list of merged ranges.

`max_row` and `max_column` follow the library's rules (`Sheets.MaxRow`,
`Sheets.MaxColumn`). Every loop of the source is a method or a recursive function whose
contract says, cell by cell, what the sheet holds afterwards. The top-level operations
state what every output file holds, what it is named, and when the run fails: `N == 0`
divides by zero, and in `split_csv_to_excel` a table start row or reference row below 1
makes openpyxl refuse the cell.

Modules, one per file:

- `Prelude`: `Option`, `Result`, sequence concatenation.
- `Text`: digits, `str` of integers, split, join, strip.
- `Values`: cell values, dates, `strptime`/`strftime`.
- `Normalise`: `format_value`, `format_date_value`.
- `FlatRows`: `excel_to_csv`, the CSV reader.
- `Partition`: the four chunkings.
- `Sheets`: the workbook.
- `Layout`: the style, header, dimension and merge copies.
- `CsvSplit`: the CSV-based `split_csv_to_excel`.
- `XlsxSplitter`, `LargeXlsSplitter`, `XlsSplitter`, `XlsSplitterLarge`: one per source file.

## Model

| member | source | states |
|---|---|---|
| Sheets.NoBorderStyle | common/utilities/xls_splitter.py:16-24 | the border returned has no line on any of its four sides |
| Sheets.NoBorderIsDefault | common/utilities/xls_splitter.py:16-24 | the no-border style is the default border, so applying it to a default style changes nothing |
| Sheets.MaxRow | common/xlsx/large_xlsx_splitter_utils.py:169 | `max_row` is at least 1, bounds every stored cell and every merged range, and is attained by one of them (or is 1) |
| Sheets.MaxColumn | common/xlsx/large_xlsx_splitter_utils.py:167 | `max_column` is at least 1, bounds every stored cell and merged range, and is attained by one of them (or is 1) |
| Sheets.MaxRowRaised | common/utilities/xls_splitter.py:47-52 | touching cells in rows `1..k` raises `max_row` to exactly the larger of the old value and `k` |
| Sheets.Write | common/utilities/xls_splitter.py:50-52 | `ws.cell(row, column, value=v)` stores the cell, keeps its style, and writes `v` unless it is None; no other cell changes |
| Sheets.PartNamesDistinct | common/utilities/xls_splitter.py:135 | two different file indexes never give the same output file name |
| Sheets.FormatDateCell | common/utilities/xls_splitter.py:85-91 | a date-time cell yields its date and gets number format `DD/MM/YYYY`; any other cell yields its value unchanged |
| Sheets.FormatDateCellSettles | common/utilities/xls_splitter.py:85-91 | applying `format_date_cell` to the cell it produced changes nothing more |
| Sheets.FormatDateCellStyled | common/utilities/xls_splitter.py:85-91 | a date-time cell comes out with a style, so the copy loop copies its formatting |
| Values.ParseDateTime | common/xlsx/large_xlsx_splitter_utils.py:110 | a text accepted by `strptime("%Y-%m-%d %H:%M:%S")` is a valid date-time that prints back to that exact text |
| Values.ParseDateTimeText | common/xlsx/large_xlsx_splitter_utils.py:110 | every valid date-time without microseconds, printed, parses back to itself |
| Values.DateTimeTextFields | common/xlsx/large_xlsx_splitter_utils.py:110 | the printed form of a whole-second date-time holds its six fields as digits at fixed places, each denoting that field of the moment |
| Values.ParseDateTimeExactly | common/xlsx/large_xlsx_splitter_utils.py:110 | parsing yields `t` if and only if `t` is valid, has no microseconds, and the text is `t` printed |
| Values.ParseDmyText | common/xlsx/large_xlsx_splitter_utils.py:111 | `strftime("%d/%m/%Y")` of a valid date is ten characters long and reads back as that date |
| Values.ExponentText | common/xlsx/large_xlsx_splitter_utils.py:50 | the exponent form of `str(x)` never starts with two digits |
| Values.ExponentTextNotDate | common/utilities/large_xls_splitter.py:65-77 | an exponent-form float text never parses as a date-time, so `format_date_value` keeps it |
| Values.TrimZerosValue | common/xlsx/large_xlsx_splitter_utils.py:50 | the digits left after cutting trailing zeros, shifted back by the cut places, denote the number again |
| Values.SignificandValue | common/xlsx/large_xlsx_splitter_utils.py:50 | the significant digits of a positive magnitude start with a non-zero digit and, times ten to the number of zeros cut, give back the magnitude |
| Normalise.ParseDecimal | common/xlsx/large_xlsx_splitter_utils.py:116 | `float(text)` succeeds only on a signed decimal literal |
| Normalise.ParseDecimalText | common/xlsx/large_xlsx_splitter_utils.py:116 | the text a float prints as parses back to the same digits and scale |
| Normalise.Numeric | common/xlsx/large_xlsx_splitter_utils.py:117 | the result is an int exactly when the number is integral, and has the same value either way |
| Normalise.FormatValue | common/xlsx/large_xlsx_splitter_utils.py:95-121 | non-text values pass unchanged; a date text becomes `DD/MM/YYYY` of its day; only a numeric literal becomes a number; any other text is kept |
| Normalise.FormatDateValue | common/utilities/large_xls_splitter.py:65-77 | only a date text is changed, to `DD/MM/YYYY` of its day; every other value passes unchanged |
| Normalise.NumberIsNotDate | common/xlsx/large_xlsx_splitter_utils.py:109-116 | no numeric literal parses as a date-time, so the two branches of `format_value` never compete |
| Normalise.FormatValueDate | common/xlsx/large_xlsx_splitter_utils.py:107-111 | both normalisers send a printed date-time to the `DD/MM/YYYY` text of its day |
| Normalise.FormatValueNumber | common/xlsx/large_xlsx_splitter_utils.py:112-117 | `format_value` turns a numeric literal into its number, while `format_date_value` keeps it as text |
| Normalise.FormatValueVersusFormatDateValue | common/utilities/large_xls_splitter.py:65-77 | the two normalisers differ exactly on numeric literals that are not dates |
| Normalise.FormatValueIntText | common/xlsx/large_xlsx_splitter_utils.py:117 | an int printed by `str` comes back from `format_value` as the same int |
| Normalise.FormatValueDecimalText | common/xlsx/large_xlsx_splitter_utils.py:117 | a float printed by `str` comes back as its number; a non-integral one comes back as the same float |
| Normalise.FormatValuePassThrough | common/xlsx/large_xlsx_splitter_utils.py:118-120 | a text that is neither date nor number is returned as it is by both normalisers |
| Normalise.FormatValueExampleDate | common/xlsx/large_xlsx_splitter_utils.py:104-111 | `"2023-12-31 00:00:00"` becomes `"31/12/2023"` |
| Normalise.FormatValueExampleInt | common/xlsx/large_xlsx_splitter_utils.py:117 | `"42"` becomes the int 42 under `format_value` and stays text under `format_date_value` |
| Normalise.FormatValueExampleFloat | common/xlsx/large_xlsx_splitter_utils.py:117 | `"42.5"` becomes the float 42.5 |
| Normalise.FormatValueExampleText | common/xlsx/large_xlsx_splitter_utils.py:118-120 | `"abc"` and the empty text come back unchanged |
| FlatRows.Fields | common/xlsx/large_xlsx_splitter_utils.py:50 | each cell becomes its `str`, or the empty text for None, position by position |
| FlatRows.ReadCsv | common/xlsx/large_xlsx_splitter_utils.py:269-271 | the reader yields one record per line, each record's fields joined by `;` giving back its line |
| FlatRows.ReadRecord | common/xlsx/large_xlsx_splitter_utils.py:270 | an empty line reads as the empty record; any other line is the `;`-join of its fields |
| FlatRows.ExcelToCsvLines | common/xlsx/large_xlsx_splitter_utils.py:45-53 | the written text is the rows' lines, each ended by a newline |
| FlatRows.ReadExcelToCsv | common/xlsx/large_xlsx_splitter_utils.py:32-55 | reading back what `excel_to_csv` wrote gives one record per source row, holding that row's field texts, or nothing for a row written as an empty line |
| FlatRows.EmptyLine | common/xlsx/large_xlsx_splitter_utils.py:48-53 | a row is written as an empty line exactly when it has no cells, or one cell whose text is empty |
| Text.SplitJoin | common/utilities/xls_splitter_large.py:86 | splitting the comma-join of comma-free fields gives back the fields |
| Text.JoinSplit | common/utilities/xls_splitter_large.py:86 | joining the pieces of a split with the separator gives back the text |
| Text.Strip | common/utilities/xls_splitter_large.py:86 | `strip()` removes only whitespace, from both ends, and leaves no whitespace at either end |
| Text.NatTextValue | common/xlsx/large_xlsx_splitter_utils.py:50 | the digits `str` prints for a natural number denote that number |
| Text.ZeroPadExact | common/xlsx/large_xlsx_splitter_utils.py:111 | a zero-padded field has exactly the requested width and denotes the number |
| Partition.CeilDiv | common/xlsx/large_xlsx_splitter_utils.py:274 | the chunk size is the least `q` with `q * N >= total` |
| Partition.CeilOfQuotient | common/utilities/xls_splitter.py:102 | `math.ceil(total / N)` equals `total // N + (total % N > 0)`, so the two rounding-up forms agree |
| Partition.ChunksCover | common/xlsx/large_xlsx_splitter_utils.py:273-290 | the `N` chunks laid end to end are exactly the record indexes after the header, each once, in order |
| Partition.ConcatChunks | common/xlsx/large_xlsx_splitter_utils.py:273-290 | any leading run of chunks, laid end to end, is the indexes from the first record up to the end of the last chunk of the run |
| Partition.ChunksOrdered | common/xlsx/large_xlsx_splitter_utils.py:285-286 | every index of an earlier chunk lies before every index of a later one |
| Partition.ChunkLength | common/xlsx/large_xlsx_splitter_utils.py:285-286 | no chunk holds more than `rows_per_file` records |
| Partition.ChunkEmpty | common/xlsx/large_xlsx_splitter_utils.py:285-286 | a chunk is empty exactly when its start is past the last record |
| Partition.ChunksWhenShort | common/xlsx/large_xlsx_splitter_utils.py:273-286 | with fewer records than header rows every chunk is empty |
| Partition.ChunkExample | common/xlsx/large_xlsx_splitter_utils.py:273-286 | 1000 records after 12 header rows in 10 files give 100 per file, from index 12 to 1011 |
| Partition.InclusiveIsHalfOpen | common/utilities/xls_splitter.py:114-118 | the inclusive range `13 + i*size .. min(12 + (i+1)*size, max_row)` is the half-open chunk of rows `13 .. max_row` |
| Partition.InclusiveChunksCover | common/utilities/xls_splitter.py:100-118 | the `N` inclusive row ranges together are rows 13 to `max_row`, each once, in order |
| Partition.FloorBounds | common/utilities/xls_splitter_large.py:67-79 | each start and end lies between 0 and `total_rows`, start before end |
| Partition.FloorChunksCover | common/utilities/xls_splitter_large.py:67-79 | the `N` ranges together are `0 .. total_rows`, each index once, in order |
| Partition.FloorChunkLength | common/utilities/xls_splitter_large.py:67-79 | every file but the last gets `total // N` lines; the last gets the remainder on top |
| Partition.Select | common/utilities/xls_splitter_large.py:83-86 | the lines whose index lies in `[start, end)` are the slice of the file between those bounds, clipped to the file |
| Partition.SelectCover | common/utilities/xls_splitter_large.py:63-86 | the selected chunks together are a window of `|lines| - 1` consecutive lines, starting at the line the selection counts from |
| Partition.SelectAsWrittenCover | common/utilities/xls_splitter_large.py:63-86 | as written, the chunks together are every line but the last, the header included |
| Partition.SelectAsWrittenExample | common/utilities/xls_splitter_large.py:63-86 | for a header and two lines in one file, the selection as written takes the header and the first line, not the two data lines |
| Partition.SelectDataCover | common/utilities/xls_splitter_large.py:63-86 | with the header skipped, the chunks together are exactly the data lines |
| Layout.CopyStyle | common/xlsx/large_xlsx_splitter_utils.py:124-144 | a styled source hands its font, fill, border and alignment, and its number format when asked, to the target; an unstyled one changes nothing; the value is never touched |
| Layout.CopyStyleWhole | common/xlsx/large_xlsx_splitter_utils.py:139-144 | copying onto an unstyled cell with the number format gives it the source's whole style |
| Layout.CopyStyleIdempotent | common/xlsx/large_xlsx_splitter_utils.py:124-144 | copying a style a second time changes nothing |
| Layout.CopyStyleKeepsNumberFormat | common/utilities/large_xls_splitter.py:80-91 | without the number format, the target keeps its own |
| Layout.HeaderCell | common/xlsx/large_xlsx_splitter_utils.py:75-85 | the header copy gives the model's value unless it is None, and the model's style but the target's number format when the model cell is styled |
| Layout.HeaderCellOnEmpty | common/xlsx/large_xlsx_splitter_utils.py:75-85 | on a fresh cell, the header copy reproduces the model cell's value and style, with the number format at `General` |
| Layout.CopyHeaderBlock | common/xlsx/large_xlsx_splitter_utils.py:58-92 | rows `1..header_rows` over the model's columns hold the header copies, every other cell is as before, and those columns take the model's widths |
| Layout.CopyHeaderRows | common/utilities/xls_splitter_large.py:17-40 | rows 1..12 over the model's columns hold the header copies, and rows 1..12 and those columns take the model's heights and widths; nothing else changes |
| Layout.CopyMerges | common/xlsx/large_xlsx_splitter_utils.py:193-194 | the target's merged ranges are followed by every range of the model, in order; cells and dimensions are unchanged |
| Layout.RowMerges | common/xlsx/large_xlsx_splitter_utils.py:200-206 | one single-row range per row from the start row to the last, over the reference range's columns |
| Layout.ReplicatedMergesShape | common/xlsx/large_xlsx_splitter_utils.py:196-206 | every replicated range is a one-row copy of a model range that starts on the odd reference row, placed on a row from the table start to `max_row` |
| Layout.ReplicatedMergesComplete | common/xlsx/large_xlsx_splitter_utils.py:196-206 | every range of the model starting on the odd reference row is copied onto every row from the table start to `max_row` |
| Layout.MergedEnd | common/xlsx/large_xlsx_splitter_utils.py:193-194 | the last row after the model's ranges are merged in: no lower than before, no lower than any spanning range's last row, and one of those |
| Layout.MergedEndIsMaxRow | common/xlsx/large_xlsx_splitter_utils.py:193-194 | merging the model's ranges into a sheet without ranges gives it `MergedEnd` as `max_row` |
| Layout.ReplicateMerges | common/xlsx/large_xlsx_splitter_utils.py:196-206 | replicating adds ranges only after the existing ones, and leaves cells, dimensions and `max_row` alone |
| Layout.ApplyAlternating | common/xlsx/large_xlsx_splitter_utils.py:147-206 | rows from the table start to `max_row` take the style and height of the reference row of their parity, over the model's columns; the model's widths and ranges are copied; nothing else changes |
| Layout.BandRows | common/xlsx/large_xlsx_splitter_utils.py:169-190 | the per-row style and height loop and the width loop, before any range is added |
| Layout.RefRowParity | common/xlsx/large_xlsx_splitter_utils.py:170-173 | odd rows use the odd reference row and even rows the even one, so the choice alternates with period two |
| Layout.MaxRowGrows | common/xlsx/large_xlsx_splitter_utils.py:193-200 | appending ranges never lowers `max_row`, so the replication loop reads a bound at least as large |
| Layout.ApplyLastRowFormat | common/xlsx/large_xlsx_splitter_utils.py:209-240 | only the cells of the last row, over the model's columns, take model row 45's style, number format included; `max_row` is unchanged |
| Layout.PlaceFields | common/xlsx/large_xlsx_splitter_utils.py:291-296 | field `k` lands in column `k + 1` of the row, normalised; no other cell changes |
| Layout.PlaceRows | common/xlsx/large_xlsx_splitter_utils.py:288-296 | record `j` lands in row `table_start_row + j`, field by field; no other cell changes |
| CsvSplit.ChunkRows | common/xlsx/large_xlsx_splitter_utils.py:285-290 | file `i`'s records are the records at the indexes of chunk `i`, in order |
| CsvSplit.ChunkRowsCover | common/xlsx/large_xlsx_splitter_utils.py:273-290 | the records of all files, laid end to end, are every record after the header, once each |
| CsvSplit.ChunkRowsWhenShort | common/xlsx/large_xlsx_splitter_utils.py:273-290 | with fewer records than header rows no file gets a record |
| CsvSplit.BandEnd | common/xlsx/large_xlsx_splitter_utils.py:169 | the row the banding loop runs to, `max_row` after the header copy and the placing: at least 1 and the header height, no lower than any row holding a field, and one of those three |
| CsvSplit.HeaderAndRecords | common/xlsx/large_xlsx_splitter_utils.py:282-296 | after the header copy and the placing: header cells over the model's columns, normalised fields at the record rows, nothing else; `max_row` is `BandEnd`; widths only from the header copy; no heights and no ranges |
| CsvSplit.PlacedSheet | common/xlsx/large_xlsx_splitter_utils.py:282-296 | the header copy followed by the placing yields exactly the sheet `HeaderAndRecords` promises |
| CsvSplit.Band | common/xlsx/large_xlsx_splitter_utils.py:147-206 | after the banding every cell is the placed cell restyled from its parity's reference row, rows from the table start to `BandEnd` take the reference heights, the model's widths, its ranges and the replicated ones, and `max_row` reaches the last row of a spanning range |
| CsvSplit.Tail | common/xlsx/large_xlsx_splitter_utils.py:209-240 | the tail step restyles only row `max_row` over the model's columns from model row 45 and keeps heights, widths and ranges |
| CsvSplit.PartFacts | common/xlsx/large_xlsx_splitter_utils.py:278-307 | a file holds the normalised fields at their rows and no other value below the header, the model's header cells above the table, the reference styles on every banded row below the header, the tail style on the last file, and the model's ranges followed by one-row copies that cover every row from the table start to `max_row` |
| CsvSplit.FirstRowsDecide | common/xlsx/large_xlsx_splitter_utils.py:169-178 | every row `ws.cell` is asked for is at least 1 exactly when the table start row and the reference rows of the first two banded rows are |
| CsvSplit.RowsInRangeWhen | common/xlsx/large_xlsx_splitter_utils.py:169-178 | a table start row below 1 always makes a file fail, and rows that are all at least 1 never do |
| CsvSplit.OutOfRangeDecided | common/xlsx/large_xlsx_splitter_utils.py:277-301 | some file fails on a row below 1 exactly when some file's first two banded rows show it |
| CsvSplit.BuildPart | common/xlsx/large_xlsx_splitter_utils.py:278-307 | one file, cell by cell: the model's header rows over its columns, each record's normalised fields at their rows, every row from the table start to the pre-range `max_row` styled from the reference row of its parity and given its height, the model's widths, the model's ranges followed by one-row copies of the odd reference row's ranges down to the final `max_row`, and on the last file the tail style on row `max_row` |
| CsvSplit.Split | common/xlsx/large_xlsx_splitter_utils.py:243-315 | the run fails exactly when `N = 0` or some file needs a row below 1 from openpyxl; otherwise `max(N, 0)` files, file `i` named with `i + 1` and built from chunk `i`'s records as `BuildPart` says |
| CsvSplit.Record | common/xlsx/large_xlsx_splitter_utils.py:45-53 | a source row not written as an empty line reads back as its field texts, one per cell |
| CsvSplit.FileRowsOfWorkbook | common/xlsx/large_xlsx_splitter_utils.py:32-55 | after the detour through text, record `j` of file `i` is the field texts of exactly one source row, and the records of file `i` are exactly the rows that chunk selects |
| XlsxSplitter.FormatValueKeepsText | common/xlsx/large_xlsx_splitter_utils.py:107-121 | `format_value` never turns a text into None, so every placed field is written |
| XlsxSplitter.ReferenceStyleWhole | common/xlsx/large_xlsx_splitter_utils.py:139-144 | a fresh record cell takes its reference cell's whole style |
| XlsxSplitter.UtilsPart | common/xlsx/large_xlsx_splitter_utils.py:278-307 | each file holds `format_value` of every field at its row and column and no other value below the header; the header rows above the table are the model's; every banded row below the header has its reference row's whole style, except the cells the last file's tail step restyles, which have model row 45's; the reference heights; the model's widths; the model's ranges and complete one-row copies |
| XlsxSplitter.UtilsValues | common/xlsx/large_xlsx_splitter_utils.py:290-296 | the record cells hold `format_value` of their texts |
| XlsxSplitter.WholeRecordStyles | common/xlsx/large_xlsx_splitter_utils.py:139-144 | with the number format copied, the banded rows below the header have their reference rows' whole styles |
| XlsxSplitter.SplitCsvToExcel | common/xlsx/large_xlsx_splitter_utils.py:243-315 | the run fails exactly when `N = 0` or some file needs a row below 1, always when `table_start_row < 1` and never when the three rows are at least 1; otherwise `max(N, 0)` files named `{product}_{i + 1}`, each holding its chunk as `UtilsPart` says |
| XlsxSplitter.DetourKinds | common/xlsx/large_xlsx_splitter_utils.py:32-55 | through `excel_to_csv` and `format_value`: None becomes the empty text, an int stays that int, a float `str` writes positionally becomes its number (itself when not integral), a date-time becomes `DD/MM/YYYY`, and any other text that is neither a date nor a decimal literal is kept |
| XlsxSplitter.SplitWorkbook | common/xlsx/large_xlsx_splitter_utils.py:32-315 | each output cell from row 13 on is the detour of the cell of the one source row its record came from |
| LargeXlsSplitter.FormatDateValueKeepsText | common/utilities/large_xls_splitter.py:65-77 | `format_date_value` never turns a text into None |
| LargeXlsSplitter.LargePart | common/utilities/large_xls_splitter.py:164-188 | each file holds `format_date_value` of every field from row 13 and no other value below the header, the model's twelve header rows, on every banded row the reference row's style with the number format left at `General` and its height, the model's widths, and the model's ranges with complete one-row copies of row 13's |
| LargeXlsSplitter.LargeValues | common/utilities/large_xls_splitter.py:179-185 | the record cells hold `format_date_value` of their texts |
| LargeXlsSplitter.LargeStyles | common/utilities/large_xls_splitter.py:80-91 | without the number format, each banded cell has its reference cell's style with the number format at `General`, or the default style |
| LargeXlsSplitter.SplitCsvToExcel | common/utilities/large_xls_splitter.py:145-197 | `N = 0` fails and nothing else does; otherwise `max(N, 0)` files named `{product}_part_{i + 1}`, each holding its chunk of the records after the first 12 as `LargePart` says |
| LargeXlsSplitter.DetourKinds | common/utilities/large_xls_splitter.py:17-32 | through the detour every value ends as text: None as the empty text, an int as its `str`, a float as its `str` (positional or exponent form), a date-time as `DD/MM/YYYY`, any other non-date text as it is |
| LargeXlsSplitter.SplitWorkbook | common/utilities/large_xls_splitter.py:17-197 | each output cell from row 13 on is the detour of the cell of the one source row its record came from |
| XlsSplitter.DeleteCol | common/utilities/xls_splitter.py:41 | deleting column `c` moves every column right of it one to the left and keeps every column left of it |
| XlsSplitter.ShiftedCells | common/utilities/xls_splitter.py:41 | the stored cells after the deletion are exactly the shifted stored cells of the columns that remain |
| XlsSplitter.SourceColumnSpread | common/utilities/xls_splitter.py:39-41 | after deleting the odd columns from `top` down to `c`, column `k` holds the source column given by the closed form |
| XlsSplitter.RemoveOddColumns | common/utilities/xls_splitter.py:27-42 | afterwards column `k >= 1` holds what column `2k` held, and no column beyond half of `max_column` holds a cell |
| XlsSplitter.DeleteOddColumns | common/utilities/xls_splitter.py:39-41 | the deletion loop from the right keeps, as invariant, the mapping from every column to its source column |
| XlsSplitter.EvenColumns | common/utilities/xls_splitter.py:27-42 | the source-column mapping after the whole loop is `k -> 2k` on the positive columns |
| XlsSplitter.Bordered | common/utilities/xls_splitter.py:74-78 | the cell keeps its value and every style part but the border, which becomes a thin grey bottom line |
| XlsSplitter.BorderRow | common/utilities/xls_splitter.py:74-78 | row 11 over the used columns gets the grey bottom border; nothing else changes |
| XlsSplitter.HeaderTarget | common/utilities/xls_splitter.py:45-82 | the target's rows 1..12 hold the header copies, row 11 bordered, rows 1..12 and the source's columns take its heights and widths, and every source range follows the target's |
| XlsSplitter.TouchHeader | common/utilities/xls_splitter.py:47-52 | reading the source's header cells changes none of them, keeps `max_column`, and raises `max_row` to at least 12 |
| XlsSplitter.CopyHeader | common/utilities/xls_splitter.py:45-82 | `copy_header` on both sheets: the target as above, the source with its values and columns unchanged |
| XlsSplitter.DataCell | common/utilities/xls_splitter.py:118-129 | a copied data cell takes the date of a date-time or the source value unless None, and the source's style when it is styled or a date |
| XlsSplitter.CopyRows | common/utilities/xls_splitter.py:118-129 | rows `start..end` over the source's columns hold the data cells; nothing else changes |
| XlsSplitter.FormatRows | common/utilities/xls_splitter.py:118-122 | the same loop leaves each read source cell as `format_date_cell` leaves it |
| XlsSplitter.InChunkPlace | common/utilities/xls_splitter.py:114-118 | a row of chunk `i` is below the header and before every row of later chunks |
| XlsSplitter.BuildHeader | common/utilities/xls_splitter.py:106-111 | a new file's header is the source's own, since the loop never touches rows 1..12 |
| XlsSplitter.BuildBody | common/utilities/xls_splitter.py:113-129 | file `i` holds exactly its chunk's rows under the header, and the source keeps every value |
| XlsSplitter.CopyChunk | common/utilities/xls_splitter.py:113-129 | the new file holds the data cells of chunk `i` at their own row numbers under the header, and nothing else below it |
| XlsSplitter.CopiedCells | common/utilities/xls_splitter.py:118-129 | each cell of the file is the data cell of the source inside chunk `i`'s rows and the source's columns, and the header sheet's cell everywhere else |
| XlsSplitter.FormatChunk | common/utilities/xls_splitter.py:118-122 | reading chunk `i` leaves the source with every value, and with every cell outside the rows copied so far as it was |
| XlsSplitter.SourceAfterFile | common/utilities/xls_splitter.py:118-129 | after file `i` only the rows of chunk `i` of the source have changed, and only in style |
| XlsSplitter.ChunkStartsRise | common/utilities/xls_splitter.py:114 | the first row not yet copied never moves up from one file to the next |
| XlsSplitter.BuildFile | common/utilities/xls_splitter.py:105-137 | one pass of the file loop builds file `i` as `XlsFile` says |
| XlsSplitter.SplitExcel | common/utilities/xls_splitter.py:94-137 | `N = 0` fails; otherwise `max(N, 0)` files named `{product}_part_{i + 1}`, file `i` holding rows `13 + i*size .. 12 + (i+1)*size` with `size = ceil((max_row - 12) / N)`; the source keeps its values and columns |
| XlsSplitter.BuildFiles | common/utilities/xls_splitter.py:105-137 | the file loop produces file `i` for every `i < N`, in order |
| XlsSplitterLarge.CopyFormatting | common/utilities/xls_splitter_large.py:15-44 | rows 1..12 hold the header copies, rows 1..12 and the source's columns take its heights and widths, and every source range follows the target's |
| XlsSplitterLarge.FirstCover | common/utilities/xls_splitter_large.py:96-101 | the range found is the first in list order that covers the cell; none is found exactly when no range covers it |
| XlsSplitterLarge.Assign | common/utilities/xls_splitter_large.py:104-118 | `cell.value = v` stores the value even when it is None, keeps the style, and changes no other cell |
| XlsSplitterLarge.PutField | common/utilities/xls_splitter_large.py:92-118 | the cell gets the text unless a covering range has another anchor, in which case it gets the anchor's value; no style and no other value changes |
| XlsSplitterLarge.StripNewline | common/utilities/xls_splitter_large.py:86 | `strip()` removes exactly the line end of a line without outer blanks |
| XlsSplitterLarge.LineFieldsRoundTrip | common/utilities/xls_splitter_large.py:86 | a line written as comma-joined comma-free fields reads back as those fields |
| XlsSplitterLarge.ChunkFields | common/utilities/xls_splitter_large.py:82-86 | one record per selected line, holding that line's fields |
| XlsSplitterLarge.PutStep | common/utilities/xls_splitter_large.py:91-118 | one inner-loop pass settles one more field and unsettles none before it |
| XlsSplitterLarge.PutRow | common/utilities/xls_splitter_large.py:91-118 | the inner loop settles every field of record `j` |
| XlsSplitterLarge.PutRows | common/utilities/xls_splitter_large.py:89-118 | the outer loop settles every field of every record, styles, dimensions and ranges unchanged |
| XlsSplitterLarge.BuildFile | common/utilities/xls_splitter_large.py:71-118 | a file holds the header, every field placed by the merge rule, and nothing else |
| XlsSplitterLarge.FieldReadsBack | common/utilities/xls_splitter_large.py:116-118 | a field outside every merged range reads back as its text, in the default style |
| XlsSplitterLarge.MergedShowsAnchor | common/utilities/xls_splitter_large.py:107-112 | a field inside a merged range whose anchor is a field shows the anchor's text |
| XlsSplitterLarge.ProcessLargeExcel | common/utilities/xls_splitter_large.py:55-123 | `N = 0` fails; a negative `N` makes no file; otherwise `N` files named `output_part_{i + 1}`, file `i` holding the fields of its chunk of data lines |
| XlsSplitterLarge.ChunksCoverData | common/utilities/xls_splitter_large.py:63-86 | the files' lines together are exactly the data lines after the header, each once, in order |

## Left out

- File I/O (`load_workbook`, `save`, `open`, `os.makedirs`), progress bars, `print` and logging are left out. The source workbook, the CSV text and the model workbook are parameters; the outputs are returned as name and sheet pairs without the output folder.
- The module-level scripts and `main` drivers (`xls_splitter.py:140-147`, `xls_splitter_large.py:126-129`, `large_xls_splitter.py:200-227`) are left out: they only fix paths and `N`.
- `remove_odd_columns` is modelled (`XlsSplitter.RemoveOddColumns`), but `split_excel` never calls it, so no splitter result depends on it.
- `format_date_cell` appears twice, in `xls_splitter.py` and `xls_splitter_large.py`. It is modelled once, as `Sheets.FormatDateCell`. `process_large_excel` never calls it.
- Styles are five parts: font, fill, border, alignment and number format. Font, fill and alignment are opaque tokens. `has_style` is "differs from the default style"; protection and named styles are left out.
- The library's `delete_cols` leaves merged ranges and dimensions in place, and the model does the same. The library's refusal to store a value in a non-anchor merged cell is also left out: the cell is written as the Python rule of `xls_splitter_large.py` says.
- `merge_cells` de-duplication, and clearing covered cells when a range is merged, are left out. Merged ranges are a plain list, and `merged_cells.ranges` is read in list order.
- When openpyxl stores a date value, it sets an automatic date number format. This is left out: a cell's number format changes only where the source sets one.
- A float is carried as the decimal digits its `repr` prints (`Values.Decimal`), so `-0.0`, `nan` and `inf` are not representable. `str` of a float is modelled in both its forms, positional and exponent (`Values.FloatText`).
- `float()` is modelled on decimal literals: a sign, digits and an optional fraction. Exponents, `nan`, `inf`, underscores and surrounding whitespace, which `float()` also accepts, are left out.
- Normalise.Numeric: the number is kept exactly; `float()` rounding to the nearest double is not modelled, so a literal with more than 17 significant digits (`1.0000000000000001`, `12345678901234567890.5`) keeps digits Python drops, and a literal beyond the double range does not become `inf`.
- Normalise.FormatValueIntText: Python's `format_value` sends the text through `float()` before `int()`, so an int beyond `2**53` comes back rounded (`"9007199254740993"` gives `9007199254740992`); the lemma states the exact round trip, which the source keeps only up to `2**53`.
- XlsxSplitter.DetourKinds: the float clauses are stated only for floats `str` writes positionally (`Values.Positional`), because the exponent form `str` uses for `|x| < 1e-4` or `|x| >= 1e16` is not parsed by the modelled `float()`; they and the int clause also inherit the exact arithmetic of `Normalise.Numeric`, so for ints beyond `2**53` and floats with more than 17 significant digits they promise more than the source keeps.
- `strptime` accepts only the zero-padded canonical `YYYY-MM-DD HH:MM:SS`. Its leniency (single-digit fields) is left out.
- The CSV reader is modelled for text without quotes or carriage returns (`FlatRows.Unquoted`). Quoted fields are left out. `excel_to_csv` is modelled for cells whose text holds none of those characters (`FlatRows.PlainRows`).
- `header_rows` is a natural number. A negative `header_rows`, which the Python accepts, is left out.
- Python's ints are unbounded, as the model's are; the only bounded numbers in the source are floats, covered above.
- Files written before a failing file stay on disk in the source; the model returns only the failure.
- XlsSplitterLarge.ProcessLargeExcel: uses the corrected line selection, `Partition.SelectData`. The selection as written is modelled and refuted under Findings.

## Findings

| source | as written | input that shows it | evidently intended | confidence | as-written member | corrected member |
|---|---|---|---|---|---|---|
| common/utilities/xls_splitter_large.py:63-86 | `total_rows` is the line count minus one, for the header. The chunks are then `[i*rows_per_file, end)` over the line numbers of the whole file, header line included. | A file with a header line and two data lines, with `N = 1`: the one output gets the header line and the first data line, and the second data line is lost. | Skip the header line: chunk `i` covers line numbers `1 + start` up to, not including, `1 + end`, so the chunks together are exactly the data lines. | not executed | Partition.SelectAsWrittenExample | Partition.SelectDataCover |
