# Bloaty size-diff report, modelled in Dafny

`scripts/bloaty_diff_csv_output.py` compares two CSV reports produced by the
bloaty binary-size profiler, a golden baseline and the current build. The
script reads three columns of each report, `inputfiles`, `filesize` and
`vmsize`; a file may have any number of rows. The script works in four steps:

1. It groups each report by `inputfiles` and sums both columns.
2. It subtracts baseline from current, aligned by file name.
3. It drops the files that appear in only one report. Label alignment gives
   them NaN, and `dropna` removes those rows.
4. It renders the remaining files as a markdown table. The table has two
   fixed header lines, then one `|file|file size cell|vm size cell|` row per
   file, joined with newlines.

Each cell is `$\color{C}{\textsf{M U S}}$`. C and S come from the delta's sign:

- growth is `red` with an up triangle;
- shrinkage is `lime` with a down triangle;
- no change is `gray` with a blank.

M is the absolute value, divided by 1000 while it exceeds 1000 and at most
four times. U is looked up in the table {0: B, 1: KB, 2: MB, 3: GB}.

Modules:

- `SizeTable` covers the rows, the per-file column sums and the grouping
  (`Aggregate`).
- `Differ` covers the aligned subtraction (`Subtract`, with `None` for NaN),
  `dropna` (`DropMissing`) and the whole grouping-and-difference step
  (`SizeDiff`).
- `KeyOrder` covers the order in which the grouped table is iterated:
  ascending by file name, lexicographic by code point, as Python compares
  strings.
- `CellFormat` covers one cell. `CellOf` is the specification and
  `FormatCell` is the source's loop.
- `TextLines` covers `'\n'.join` and the matching split.
- `MarkdownTable` covers the table. `RenderTable` is the specification and
  `FormatTable`/`FormatRow` are the source's loop.
- `Report` covers the whole comparison, `CompareReports`, and what it
  produces in terms of the two input reports.
- `Wrappers` holds `Option`/`Result` and the "collect results until the first
  error" combinator.

A magnitude above 10^12 makes the scaling loop stop at power 4. The unit
table of `format_byte_difference_as_markdown_table_cell` (lines 49-54) has no
key 4, so the lookup raises `KeyError(4)` and no report is produced; the model
returns `Failure(KeyError(4))` there. A "B" entry for power 4 exists only in
the unused `format_rounded_number` (lines 21-27), which the model does not
follow.

## Model

| member | source | states |
|---|---|---|
| SizeTable.Aggregate | scripts/bloaty_diff_csv_output.py:86-87 | the grouped table has exactly the file names of the rows, and each file maps to the sums of its rows' `filesize` and `vmsize` |
| SizeTable.ColumnSumPermutation | scripts/bloaty_diff_csv_output.py:86-87 | a per-file column sum is the same for any reordering of the rows |
| SizeTable.AggregateOrderIndependent | scripts/bloaty_diff_csv_output.py:86-87 | grouping gives the same table for any reordering of the report's rows |
| SizeTable.MultisetRemoveAt | scripts/bloaty_diff_csv_output.py:86-87 | taking one row out of a report removes exactly one occurrence of it |
| SizeTable.ColumnSumRemoveAt | scripts/bloaty_diff_csv_output.py:86-87 | a file's column sum is one row's share plus the sum over the other rows |
| SizeTable.ColumnSumAbsent | scripts/bloaty_diff_csv_output.py:86-87 | a file no row belongs to sums to zero in both columns |
| SizeTable.ColumnSumAppend | scripts/bloaty_diff_csv_output.py:86-87 | the sum over two concatenated row lists is the sum of the two sums |
| Differ.Subtract | scripts/bloaty_diff_csv_output.py:88 | label-aligned subtraction over the union of the two tables' file names, `None` (NaN) for a file missing on either side (a definition; `Diff`, `DiffOnIntersection` and `SizeDiffSpec` state what alignment followed by `dropna` computes) |
| Differ.DropMissing | scripts/bloaty_diff_csv_output.py:91 | `dropna`: keeps the files whose difference is defined (a definition; `Diff`, `DiffOnIntersection` and `SizeDiffSpec` state what alignment followed by `dropna` computes) |
| Differ.Diff | scripts/bloaty_diff_csv_output.py:88-91 | after the aligned subtraction and `dropna` the keys are exactly the files of both tables |
| Differ.DiffOnIntersection | scripts/bloaty_diff_csv_output.py:88-91 | on those files each metric of the difference is current minus baseline |
| Differ.SizeDiff | scripts/bloaty_diff_csv_output.py:86-91 | a file is in the difference of two reports iff both reports have rows for it |
| Differ.SizeDiffSpec | scripts/bloaty_diff_csv_output.py:86-91 | each file's entry is the current column sum minus the baseline column sum |
| Differ.SizeDiffOrderIndependent | scripts/bloaty_diff_csv_output.py:86-91 | the difference does not depend on the row order of either report |
| Differ.AddedFileExcluded | scripts/bloaty_diff_csv_output.py:88-91 | a file added in the current report gets no entry; the shared file gets (500, -200) |
| KeyOrder.SortedNames | scripts/bloaty_diff_csv_output.py:64 | the files are visited once each, all of them, in strictly ascending name order |
| KeyOrder.BelowTotal | scripts/bloaty_diff_csv_output.py:64 | any two file names are comparable in the order the rows are visited in |
| KeyOrder.BelowTransitive | scripts/bloaty_diff_csv_output.py:64 | the visiting order is transitive |
| KeyOrder.BelowAntisymmetric | scripts/bloaty_diff_csv_output.py:64 | two names each at most the other are equal |
| KeyOrder.BelowReflexive | scripts/bloaty_diff_csv_output.py:64 | every name is at most itself in the visiting order |
| KeyOrder.LeastUnique | scripts/bloaty_diff_csv_output.py:64 | a set of names has at most one least name, so the first row is determined |
| KeyOrder.LeastExists | scripts/bloaty_diff_csv_output.py:64 | every non-empty set of names has a least one, so a first row exists |
| CellFormat.FormatCell | scripts/bloaty_diff_csv_output.py:31-54 | the loop computes exactly `CellOf`: colour and symbol by sign, magnitude scaled by 1000 per step, unit looked up or KeyError |
| CellFormat.CellMagnitudeExact | scripts/bloaty_diff_csv_output.py:42-54 | the magnitude times 1000^power is the delta's absolute value, it is at most 1000, it is above 1 when scaled, and the unit is the table's entry for that power |
| CellFormat.CellOf | scripts/bloaty_diff_csv_output.py:32-54 | the cell of a delta (colour, symbol, scaled magnitude, unit); the lookup raises iff the absolute delta exceeds 10^12, and the error is then KeyError(4) |
| CellFormat.ScalePower | scripts/bloaty_diff_csv_output.py:44-47 | the number of divisions in closed form: at most 4; each division was taken because the magnitude exceeds 1000^power; below 4 the scaled value is at most 1000 |
| CellFormat.Annotation | scripts/bloaty_diff_csv_output.py:32-40 | the colour and symbol chosen by sign (a definition; CellAnnotationBySign states its iff properties) |
| CellFormat.CellThreshold | scripts/bloaty_diff_csv_output.py:45 | up to and including 1000 the value is unscaled in B; in (1000, 10^6] it is divided once and shown in KB |
| CellFormat.CellAnnotationBySign | scripts/bloaty_diff_csv_output.py:32-40 | red and up triangle iff positive, lime and down triangle iff negative, gray and blank iff zero |
| CellFormat.CellNegationSymmetric | scripts/bloaty_diff_csv_output.py:32-47 | a delta and its negation show the same magnitude and unit; for a positive delta the colour and the symbol swap from growth to shrinkage |
| CellFormat.CellExamples | scripts/bloaty_diff_csv_output.py:31-56 | 500 stays 500 B; 1500 becomes 1.5 KB; -2,500,000 becomes 2.5 MB in lime; 0 is gray 0 B |
| TextLines.Join | scripts/bloaty_diff_csv_output.py:70 | `'\n'.join`: the lines with one separator between neighbours (a definition; SplitJoin proves it can be read back) |
| TextLines.Split | scripts/bloaty_diff_csv_output.py:70 | splitting on the separator yields at least one piece |
| TextLines.SplitJoin | scripts/bloaty_diff_csv_output.py:70 | joining lines free of the separator and splitting again gives the lines back |
| TextLines.SplitAfterPiece | scripts/bloaty_diff_csv_output.py:70 | a separator-free prefix is glued onto the first piece of the split of what follows |
| MarkdownTable.FormatRow | scripts/bloaty_diff_csv_output.py:65-68 | formats the file size cell and then the vm size cell (first error wins) and builds the row (file name and the two cells between bars) as `RenderRow` specifies |
| MarkdownTable.FormatTable | scripts/bloaty_diff_csv_output.py:58-70 | the header-then-append-rows loop and the join produce exactly `RenderTable`, or the first row's error |
| MarkdownTable.RenderRowsExtend | scripts/bloaty_diff_csv_output.py:64-68 | one more entry appends its row, or makes the whole table fail with that row's error |
| MarkdownTable.RenderRowsSpec | scripts/bloaty_diff_csv_output.py:64-68 | the rows render iff every entry's row does, and then there is one row per entry, in order |
| MarkdownTable.CellText | scripts/bloaty_diff_csv_output.py:56 | the cell text `$\color{C}{\textsf{M U S}}$` (a definition; CellTextSingleLine and TableShape state what it is used for) |
| MarkdownTable.RowText | scripts/bloaty_diff_csv_output.py:68 | the row text: file name and the two cells between bars (a definition; TableShape places it in the output) |
| MarkdownTable.RenderRow | scripts/bloaty_diff_csv_output.py:65-68 | a row renders iff both of its deltas are at most 10^12 in magnitude, and otherwise raises KeyError(4), the file size cell's error first |
| MarkdownTable.RenderTable | scripts/bloaty_diff_csv_output.py:58-70 | header and rows joined with newlines; the only error it raises is KeyError(4) |
| MarkdownTable.TableSucceeds | scripts/bloaty_diff_csv_output.py:58-70 | the table renders iff every entry's deltas are within the unit table's range |
| MarkdownTable.HeaderSingleLine | scripts/bloaty_diff_csv_output.py:59-62 | neither header line contains a newline |
| MarkdownTable.CellTextSingleLine | scripts/bloaty_diff_csv_output.py:56 | a cell's text contains no newline when the number's formatting has none |
| MarkdownTable.TableShape | scripts/bloaty_diff_csv_output.py:58-70 | the text has 2 + n lines: the two header lines, then line i + 2 is the file name and its two cells between bars for entry i |
| Report.DeltaRows | scripts/bloaty_diff_csv_output.py:64-65 | the writer visits as many rows as the difference has files, each row carrying a file of the difference with that file's own deltas |
| Report.DeltaRowsCoverTable | scripts/bloaty_diff_csv_output.py:64-65 | every file of the difference is visited |
| Report.DeltaRowsAscending | scripts/bloaty_diff_csv_output.py:64-65 | the visited files come in strictly ascending name order, so none is visited twice |
| Report.DeltaRowsInUnitRange | scripts/bloaty_diff_csv_output.py:64-67 | the visited rows are all in range iff every file of the difference has both deltas in range |
| Report.EntriesOfDiff | scripts/bloaty_diff_csv_output.py:64-67 | the cells receive, for each shared file in ascending order, the difference of its column sums |
| Report.SizeDiffIsDiffOf | scripts/bloaty_diff_csv_output.py:86-91 | the grouped difference holds exactly the shared files with their column-sum differences |
| Report.DeltaTableRenders | scripts/bloaty_diff_csv_output.py:64-70 | the table of a difference renders iff every file's deltas are within range |
| Report.EntriesInRangeIffDeltas | scripts/bloaty_diff_csv_output.py:86-91 | a difference's entries are in range iff every shared file's deltas are |
| Report.CompareReports | scripts/bloaty_diff_csv_output.py:86-96 | the whole comparison: grouped difference, ascending iteration, table; the only error it raises is KeyError(4) |
| Report.CompareReportsSucceeds | scripts/bloaty_diff_csv_output.py:86-96 | a report is produced iff every file present in both snapshots has both deltas at most 10^12 in magnitude; otherwise the unit lookup raises |
| Report.ShapeOfDiff | scripts/bloaty_diff_csv_output.py:58-70 | the table of a difference has the header then one row per shared file, in ascending order, with that file's delta cells |
| Report.CompareReportsShape | scripts/bloaty_diff_csv_output.py:86-96 | the report is the header and then, in ascending name order, one line per file present in both snapshots with its file size and vm size delta cells; other files get no line |
| Report.NoSharedFilesGivesHeaderOnly | scripts/bloaty_diff_csv_output.py:59-70 | with no file in both snapshots the report is just the two header lines |
| Report.SingleFileDeltaRows | scripts/bloaty_diff_csv_output.py:64 | a one-file difference is visited as that single entry |
| Report.SingleEntryTable | scripts/bloaty_diff_csv_output.py:59-70 | a one-entry table is the header followed by that entry's row |
| Report.SingleSharedFileReport | scripts/bloaty_diff_csv_output.py:86-96 | baseline fileA (1000, 2000) against current fileA (1500, 1800) and fileB (300, 300) gives the header and one fileA row with red 500 B growth and lime 200 B shrinkage |
| Wrappers.CollectResults | scripts/bloaty_diff_csv_output.py:64-68 | the loop over rows that stops at the first raise; when it completes it holds one result per element |
| Wrappers.CollectResultsFailureWitness | scripts/bloaty_diff_csv_output.py:64-68 | a failed collection carries the error of one of the elements |
| Wrappers.CollectResultsSpec | scripts/bloaty_diff_csv_output.py:64-68 | collecting succeeds iff every element succeeds, and then holds each element's result in order |
| Wrappers.CollectResultsStep | scripts/bloaty_diff_csv_output.py:64-68 | collecting one more element appends its result or stops with its error |
| Wrappers.CollectResultsFailureSticks | scripts/bloaty_diff_csv_output.py:64-68 | once a prefix fails, the whole sequence fails with the same error |

## Left out

- The command line (lines 72-80 and 94) is not modelled: the argument parsing, the `--output-path` length assertion and the output-format assertion.
- Reading the CSV files (lines 82-83) is not modelled: a report is a sequence of `SizeRow` values.
- Writing the output file (lines 98-99) is not modelled. As written, line 98 uses `output_file` before it is bound, so the script would fail there after computing the report. The model stops at the report text.
- `format_rounded_number` (lines 15-29) is not modelled because nothing calls it.
- MarkdownTable.CellText: the two-decimal rendering (`.2f`) of the magnitude is the parameter `fmt`, not modelled digit by digit.
- CellFormat.FormatCell: magnitudes are exact reals, so floating-point rounding in the division by 1000 is not modelled, and neither are float deltas with fractional parts arising from the CSV.
- SizeTable.Aggregate: sizes are unbounded integers, so 64-bit overflow in the pandas sums is not modelled.
- A CSV row with an empty `filesize`/`vmsize` (NaN in pandas) or an empty file name is not modelled. Every row carries two integers and a name.
- `diff_df.reset_index()` (line 92) is not modelled because its result is discarded, so it has no effect.
- The iteration order of the difference is taken to be ascending by file name. That is the order groupby produces and label alignment keeps. pandas internals are not modelled beyond that.
