# Smart Data Cleaning: a verified model of the cleaning core

This project models the part of the Smart Data Cleaning app that decides what
happens to an uploaded table:

- `remove_outliers_iqr` (`modules/outliers.py`). For each numeric column in
  turn, rows whose value lies outside `[Q1 - m·IQR, Q3 + m·IQR]` are dropped.
  The quartiles are recomputed on the rows that are still left.
- `clean_data` (`modules/cleaning.py`). It drops the requested columns, fills
  missing numbers with the column median and missing strings with the column
  mode, and drops duplicate rows. Then it runs the outlier filter, label-encodes
  the text columns, and returns the three counters.
- `generate_report` (`modules/report.py`): the eight-entry summary of a run.
- The parts of `app.py` that decide something:
  - the file type of an upload and the reader it selects (lines 49-56)
  - the IQR multiplier (lines 68-70)
  - the report call (lines 73-89)
  - the name and format of the download (lines 101-110)

A table is a `Frames.Frame`: a list of typed columns and a list of rows. A cell
is a number, a string or `Missing`, which stands for NaN. The pandas data frame
object, which Python code shares by reference, is the class `Frames.Table`.
Each step of `clean_data` that reassigns `df` to a new frame returns a `fresh`
table. Each step that writes columns into `df` modifies the object it was given.
So the model shows which of the caller's objects `clean_data` changes.

Each operation is stated as a function on values: `Clean`, `RemoveOutliers`,
`FillNumeric`, `DropDuplicates`, `EncodeAll` and `GenerateReport`. The
imperative methods `RemoveOutliersIqr`, `CleanData`, `HandleClean` and their
branches are proved against those functions. The properties the program relies
on are proved about the functions as lemmas.

Module layout, one file each:

- `wrappers.dfy`: `Option`, `Result`
- `frames.dfy`: cells, columns, tables, mask selection, subsequences, the `Table` class
- `text_order.dfy`: Python's string order
- `outliers.dfy`: sorting, linear-interpolation quantiles, fences, the filter
- `imputation.dfy`: median, mode, fills
- `duplicates.dfy`: `duplicated()`, `drop_duplicates()`
- `encoding.dfy`: `LabelEncoder`
- `cleaning.dfy`: `clean_data`
- `report.dfy`: `generate_report`
- `app.py` decisions: `app.dfy`

Two behaviours of the code shape the model:

- `clean_data` writes the filled columns, and sometimes the encoded ones, into
  the caller's data frame (`Cleaning.CallerAfter`). This aliasing is the cause
  of the first finding below.
- `mode()` returns tied values sorted, so `iloc[0]` is the least string in
  Python order (`Imputation.Mode`).

## Model

| member | source | states |
|---|---|---|
| Frames.Positions | modules/outliers.py:2 | the selected column positions are increasing, lie in range and satisfy the predicate, and every column that satisfies it is selected (`select_dtypes`) |
| Frames.NumbersOf | modules/outliers.py:4-5 | the numbers of a column are exactly the values of its numeric cells, never more than its cells; NaN is skipped |
| Frames.NumbersOfCounts | modules/outliers.py:4-5 | each number occurs among the column's numbers as often as a cell holds it, so duplicates weigh in the quantiles |
| Frames.TextsOf | modules/cleaning.py:16 | the strings of a column are exactly the values of its text cells; NaN is skipped |
| Frames.TextsOfCounts | modules/cleaning.py:16 | each string occurs among the column's strings as often as a cell holds it, so the mode counts every occurrence |
| Frames.Select | modules/outliers.py:9 | boolean-mask selection keeps as many rows as the mask has true entries |
| Frames.SelectSubseq | modules/outliers.py:9 | mask selection keeps the order of the rows |
| Frames.SelectMembers | modules/outliers.py:9 | an element is selected exactly when some position holding it has a true mask entry |
| Frames.TruePositions | modules/cleaning.py:9 | the positions of the true mask entries are increasing, in range, and as many as the true entries |
| Frames.SelectAt | modules/cleaning.py:9 | element k of a selection is the element at the k-th true mask position |
| Frames.SubseqTransitive | modules/outliers.py:9 | filtering a filtered table is a filtering of the original |
| Frames.SubseqMembers | modules/outliers.py:9 | a subsequence holds only elements of the sequence |
| Frames.SubseqLength | modules/outliers.py:9 | a subsequence is never longer than the sequence |
| Frames.SubseqReflexive | modules/outliers.py:10 | the table returned unfiltered is a subsequence of itself |
| Frames.Table.Assign | modules/cleaning.py:13 | column assignment replaces the object's whole value with the new frame |
| Outliers.InsertSorted | modules/outliers.py:4-5 | inserting into a sorted list keeps it sorted and adds exactly the one value |
| Outliers.SortedCons | modules/outliers.py:4-5 | a least element put in front of a sorted list keeps it sorted |
| Outliers.Sort | modules/outliers.py:4-5 | the sort behind `quantile` is sorted, a permutation of its input and the same length |
| Outliers.Position | modules/outliers.py:4-5 | the interpolation position `(n-1)·q` lies in `[0, n-1]` |
| Outliers.PositionMonotone | modules/outliers.py:4-5 | a larger quantile has a later position |
| Outliers.Rank | modules/outliers.py:4-5 | the lower index of the interpolation is a valid index at or just below the position |
| Outliers.LerpBetween | modules/outliers.py:4-5 | linear interpolation stays between its two end points |
| Outliers.LerpMonotone | modules/outliers.py:4-5 | interpolation grows with its fraction |
| Outliers.Quantile | modules/outliers.py:4-5 | of sorted values, the quantile lies between the two values at the closest ranks around `(n-1)·q`, and is the value itself when the position is a whole rank |
| Outliers.QuantileBetween | modules/outliers.py:4-5 | a quantile lies between the least and the greatest value |
| Outliers.QuantileMonotone | modules/outliers.py:4-5 | Q1 is at most Q3, and generally a lower quantile is never larger |
| Outliers.QuantileOfConstant | modules/outliers.py:4-5 | every quantile of a constant column is its value |
| Outliers.ColumnQuantile | modules/outliers.py:4-5 | a column's quantile exists exactly when the column holds a number; otherwise it is NaN |
| Outliers.ColumnQuantileBetween | modules/outliers.py:4-5 | the column quantile lies between two of the column's numbers |
| Outliers.QuartilesOrdered | modules/outliers.py:4-5 | Q1 ≤ Q3 for every column with a number |
| Outliers.FenceOf | modules/outliers.py:6-8 | the fence is centred on the midpoint of Q1 and Q3 and is `(1 + 2m)·IQR` wide |
| Outliers.FenceWidens | modules/outliers.py:6-8 | for a non-negative multiplier the fence contains `[Q1, Q3]` |
| Outliers.FenceCollapses | modules/outliers.py:6-8 | with a zero IQR the fence is the single point Q1, whatever the multiplier |
| Outliers.ColumnFence | modules/outliers.py:4-8 | a column has a fence exactly when it holds a number |
| Outliers.FenceContainsQuartiles | modules/outliers.py:4-9 | every value between Q1 and Q3 passes the fence |
| Outliers.ZeroIqrKeepsOnlyQ1 | modules/outliers.py:4-9 | when Q1 = Q3 a cell passes exactly when it equals Q1 |
| Outliers.ConstantColumnFence | modules/outliers.py:4-9 | in a column whose numbers are all x, the cells that pass are exactly those equal to x |
| Outliers.KeepRows | modules/outliers.py:9 | one column's filter never adds a row |
| Outliers.KeepRowsMembers | modules/outliers.py:9 | a row survives one column's filter exactly when its cell passes the fence |
| Outliers.KeepRowsSubseq | modules/outliers.py:9 | one column's filter keeps the row order |
| Outliers.SelectByMask | modules/outliers.py:9 | `df[mask]` with the comparison mask is the filtered row list |
| Outliers.ColumnStep | modules/outliers.py:4-9 | one loop iteration keeps the header, and keeps exactly the rows whose cell passes the fence computed on the current rows |
| Outliers.MissingRemovedAtStep | modules/outliers.py:9 | a row with NaN in the filtered column is dropped |
| Outliers.Filtered | modules/outliers.py:3-9 | after any number of iterations the table is well formed with the original header |
| Outliers.ColumnStepSubseq | modules/outliers.py:9 | one iteration keeps the order of the rows it keeps |
| Outliers.FilteredSubseq | modules/outliers.py:3-9 | after any number of iterations the rows are an order-preserving selection of the input |
| Outliers.RemoveOutliers | modules/outliers.py:1-10 | the result has the input's header and an order-preserving selection of its rows, never more rows |
| Outliers.FilterColumn | modules/outliers.py:4-9 | the loop body computes the iteration's table |
| Outliers.RemoveOutliersIqr | modules/outliers.py:1-10 | the method returns `RemoveOutliers` of the input; it returns the caller's object when there is no numeric column and a new one otherwise |
| Outliers.StagesTrace | modules/outliers.py:3-9 | each intermediate table is the previous one filtered on the next numeric column |
| Outliers.TracePassed | modules/outliers.py:3-9 | a row in the final table passed the fence of every iteration |
| Outliers.FilteredPassedEveryStep | modules/outliers.py:3-9 | a surviving row passed the fence of every numeric column, each computed on the rows then left |
| Outliers.SurvivorsHaveNumbers | modules/outliers.py:1-10 | every surviving row holds a number, not NaN, in every numeric column |
| Outliers.NoNumericColumnUnchanged | modules/outliers.py:2-3 | a table without numeric columns is returned unchanged |
| Imputation.Median | modules/cleaning.py:13 | the median exists exactly when the column holds a number |
| Imputation.MedianIsMiddle | modules/cleaning.py:13 | the 0.5 quantile is the middle value for odd counts and the mean of the two middle values for even counts |
| Imputation.Best | modules/cleaning.py:16 | the chosen candidate is one of the candidates and is preferred to every other |
| Imputation.PrefersTransitive | modules/cleaning.py:16 | the mode preference (higher count, then smaller string) is transitive |
| Imputation.PrefersTotal | modules/cleaning.py:16 | any two strings are comparable under the mode preference |
| Imputation.Mode | modules/cleaning.py:16 | the mode exists exactly when the column holds a string, and it is one of its strings |
| Imputation.ModeIsMostFrequent | modules/cleaning.py:16 | no string is more frequent than the mode; a string as frequent is not smaller |
| Imputation.ModeUnique | modules/cleaning.py:16 | the string preferred to all others is the mode |
| Imputation.FillMissing | modules/cleaning.py:13 | filling keeps the header and the row count |
| Imputation.NumericFills | modules/cleaning.py:12-13 | one fill entry per column |
| Imputation.TextFills | modules/cleaning.py:15-16 | one fill entry per column |
| Imputation.FillNumeric | modules/cleaning.py:12-13 | the numeric fill keeps the header and the row count |
| Imputation.FillText | modules/cleaning.py:15-16 | the text fill keeps the header and the row count |
| Imputation.FillNumericCell | modules/cleaning.py:12-13 | a cell becomes the column median exactly when it is missing in a numeric column that has a number; otherwise it is kept |
| Imputation.FillTextCell | modules/cleaning.py:15-16 | a cell becomes the column mode exactly when it is missing in a text column that has a string; otherwise it is kept |
| Imputation.FilledColumn | modules/cleaning.py:13 | each cell of a filled column is its fill value if it was missing, else itself |
| Imputation.UnfilledColumnKept | modules/cleaning.py:13 | a column without a fill value is unchanged |
| Imputation.NumericMissingAfterFill | modules/cleaning.py:12-13 | after the fill a numeric cell is missing exactly when its column had no number at all |
| Imputation.TextMissingAfterFill | modules/cleaning.py:15-16 | after the fill a text cell is missing exactly when its column had no string at all |
| Imputation.FillNumericIdempotent | modules/cleaning.py:12-13 | filling numbers twice is filling once |
| Imputation.FillTextIdempotent | modules/cleaning.py:15-16 | filling strings twice is filling once |
| TextOrder.LessIrreflexive | modules/cleaning.py:16 | no string sorts before itself |
| TextOrder.LessAsymmetric | modules/cleaning.py:16 | two strings never sort before each other |
| TextOrder.LessTransitive | modules/cleaning.py:34 | the string order is transitive |
| TextOrder.LessTotal | modules/cleaning.py:34 | of two different strings one sorts first |
| Duplicates.DuplicateCount | modules/cleaning.py:18 | at most one flag per row, and none for a table of at most one row |
| Duplicates.DropDuplicates | modules/cleaning.py:19 | the result is never longer than the input and always keeps the first row |
| Duplicates.CountTrueSplit | modules/cleaning.py:18-19 | the marked and unmarked rows together are all the rows |
| Duplicates.MaskOfPrefix | modules/cleaning.py:18-19 | whether a row is a duplicate depends only on the rows before it |
| Duplicates.MaskSelectionSnoc | modules/cleaning.py:19 | selecting the unmarked rows keeps a last row exactly when it is new |
| Duplicates.DropDuplicatesIsMaskSelection | modules/cleaning.py:18-19 | `drop_duplicates()` keeps exactly the rows `duplicated()` does not mark |
| Duplicates.DuplicateCountIsRemoved | modules/cleaning.py:18-19 | the reported duplicate count is exactly the number of rows removed |
| Duplicates.KeepsEachRowOnceSnoc | modules/cleaning.py:19 | one more row keeps the result free of repeats with the same rows |
| Duplicates.DistinctStep | modules/cleaning.py:19 | appending a row only when it is new keeps the result free of repeats |
| Duplicates.DropDuplicatesDistinct | modules/cleaning.py:19 | the result has no repeated row and holds every row of the input |
| Duplicates.AppendFresh | modules/cleaning.py:19 | appending a row not yet present keeps the rows distinct |
| Duplicates.DropDuplicatesKeepsFirst | modules/cleaning.py:19 | the result keeps the input order and keeps each first occurrence |
| Duplicates.DistinctHasNoDuplicates | modules/cleaning.py:18-19 | on rows without repeats the count is zero and the table is unchanged |
| LabelEncoding.Classes | modules/cleaning.py:34 | the classes are the column's distinct strings |
| LabelEncoding.Code | modules/cleaning.py:34 | a label never exceeds the number of classes |
| LabelEncoding.CodeInRange | modules/cleaning.py:34 | each label lies in `0..k-1` for k classes |
| LabelEncoding.CodeMonotone | modules/cleaning.py:34 | a class earlier in sorted order gets a smaller label |
| LabelEncoding.CodeInjective | modules/cleaning.py:34 | two classes get the same label exactly when they are equal |
| LabelEncoding.EncodeCell | modules/cleaning.py:34 | a string becomes its label; other cells are kept |
| LabelEncoding.EncodeColumn | modules/cleaning.py:34 | encoding a column keeps the table's shape |
| LabelEncoding.EncodeColumnCells | modules/cleaning.py:34 | the encoded column becomes numeric with each string replaced by its label; every other column is unchanged |
| LabelEncoding.EncodedColumnInRange | modules/cleaning.py:34 | a string cell becomes a number in `[0, k)` |
| LabelEncoding.EncodeAll | modules/cleaning.py:33-34 | the loop over the text columns keeps the table's shape |
| LabelEncoding.EncodeAllUnlisted | modules/cleaning.py:33-34 | a column not in the list is left as it was |
| LabelEncoding.EncodeAllUnlistedColumn | modules/cleaning.py:33-34 | a column not in the list keeps all its cells |
| LabelEncoding.EncodeAllListedLast | modules/cleaning.py:33-34 | the last listed column is encoded with the classes it had at the start |
| LabelEncoding.EncodeAllListed | modules/cleaning.py:33-34 | every listed column is encoded with the classes it had before the loop, since a fresh encoder is fitted per column |
| Cleaning.Requested | modules/cleaning.py:9 | the names dropped are exactly the requested names that are columns |
| Cleaning.DropColumns | modules/cleaning.py:9 | dropping columns keeps every row |
| Cleaning.DropColumnsKeeps | modules/cleaning.py:9 | the kept columns are in their old order and are exactly those whose name is not requested |
| Cleaning.DropColumnsCells | modules/cleaning.py:9 | column k of the result is the k-th kept column of the input, with the same header and every cell unchanged; kept positions are increasing and their names were not requested |
| Cleaning.AfterDrop | modules/cleaning.py:8-9 | the drop step keeps every row and a well-formed table |
| Cleaning.Filled | modules/cleaning.py:12-16 | both fills keep the header and the row count |
| Cleaning.AfterCleaning | modules/cleaning.py:11-22 | the cleaning branch keeps the header, and the rows kept plus the duplicates counted are the rows it received |
| Cleaning.Pipeline | modules/cleaning.py:11-37 | lines 11-37 produce a well-formed table |
| Cleaning.Clean | modules/cleaning.py:5-41 | `clean_data` produces a well-formed table |
| Cleaning.CleanRowAccounting | modules/cleaning.py:18-27 | rows kept + duplicates removed + outliers removed = rows received; the result never grows |
| Cleaning.CleanCounters | modules/cleaning.py:20-37 | a disabled step reports 0; the encoded count is the number of text columns after the drop; the column count is the count after the drop |
| Cleaning.CleaningLeavesDistinctRows | modules/cleaning.py:18-19 | with cleaning on, no two rows of the table leaving the cleaning branch are equal |
| Cleaning.FilledHasNoMissing | modules/cleaning.py:12-16 | when every column holds a value of its kind, the fill leaves no missing cell |
| Cleaning.SubseqKeepsNoMissing | modules/cleaning.py:19-26 | dropping rows cannot bring a missing cell back |
| Cleaning.EncodingKeepsNoMissing | modules/cleaning.py:31-34 | encoding cannot bring a missing cell back |
| Cleaning.CleanedHasNoMissing | modules/cleaning.py:11-37 | with cleaning on and a value in every column, the returned table has no missing cell |
| Cleaning.HasModeRow | modules/cleaning.py:16 | `mode()` of the text columns has a row 0 exactly when some text column has a mode, that is, holds a string |
| Cleaning.CleanAsWritten | modules/cleaning.py:5-41 | as written, `clean_data` fails (IndexError at line 16) exactly when cleaning is on and no text column left after the drop holds a string; otherwise it returns `Clean` |
| Cleaning.NoModeRowWithoutText | modules/cleaning.py:15-16 | a table with no row, or with only numeric columns, has no first row of `mode()` |
| Cleaning.NoTextUploadFails | modules/cleaning.py:15-16 | as written, with cleaning on, an upload with no row or with no text column makes `clean_data` raise at `iloc[0]`, whatever is dropped |
| Cleaning.NoTextUploadCleaned | modules/cleaning.py:11-37 | as intended, with cleaning on, numeric columns that each hold a number come out with no missing cell |
| Cleaning.NumericSampleFails | modules/cleaning.py:15-16 | one numeric column holding 1.0 and a missing cell: the written code raises, the corrected pipeline fills the cell |
| Cleaning.InPlace | modules/cleaning.py:11-37 | what lines 11-37 write into the object they receive is a well-formed table |
| Cleaning.CallerAfter | modules/cleaning.py:8-37 | the caller's table after the call is well formed |
| Cleaning.CallerKeepsShape | modules/cleaning.py:8-37 | the caller's table keeps its row and column counts |
| Cleaning.CallerSeesFills | modules/cleaning.py:8-19 | with no drop and cleaning on, the caller's table becomes the filled table, and the duplicate count is that of the caller's changed table |
| Cleaning.InPlaceUnfolds | modules/cleaning.py:11-37 | the object is encoded in place exactly when neither cleaning nor the outlier filter copied it |
| Cleaning.CleaningBranch | modules/cleaning.py:11-22 | the branch computes `AfterCleaning`; it fills the received object in place and returns a new one after `drop_duplicates` |
| Cleaning.OutlierBranch | modules/cleaning.py:24-29 | the branch computes the filtered table and the number of rows it removed |
| Cleaning.EncodingBranch | modules/cleaning.py:31-37 | the branch encodes the listed columns of the object in place and counts them |
| Cleaning.CleanAndFilter | modules/cleaning.py:11-29 | the first two branches together, and which object the result is |
| Cleaning.RunPipeline | modules/cleaning.py:11-41 | lines 11-41 compute `Pipeline`, and leave `InPlace` in the object they received |
| Cleaning.CleanData | modules/cleaning.py:5-41 | `clean_data` returns `Clean` of its input and leaves `CallerAfter` of it in the caller's object |
| Report.KeyNamesDistinct | modules/report.py:3-10 | the eight key strings are pairwise different, so no entry overwrites another |
| Report.MissingByRows | modules/report.py:5-6 | the row-by-row count of missing cells, the reference for `isnull().sum().sum()` |
| Report.CountMissing | modules/report.py:5-6 | a column's count never exceeds its cells and is zero when none is missing |
| Report.MissingCells | modules/report.py:5-6 | the table total counted column by column equals the row-by-row count |
| Report.CountMissingSnoc | modules/report.py:5-6 | one more cell adds one exactly when it is missing |
| Report.MissingUpToSnoc | modules/report.py:5-6 | one more row adds its own missing cells to every column prefix's count |
| Report.MissingUpToByRows | modules/report.py:5-6 | summing per column (`isnull().sum().sum()`) equals counting row by row |
| Report.MissingUpToEmpty | modules/report.py:5-6 | a table without rows has no missing cell |
| Report.CountMissingZero | modules/report.py:5-6 | a column's count is zero exactly when it has no missing cell |
| Report.MissingZeroIffNone | modules/report.py:5-6 | the table total is zero exactly when no cell is missing |
| Report.RowsZeroIffNone | modules/report.py:5-6 | the row-by-row total is zero exactly when no cell is missing |
| Report.GenerateReport | modules/report.py:1-10 | the report has exactly the eight keys, in order |
| Report.Lookup | modules/report.py:2-10 | a key is found exactly when some entry carries it |
| Report.LookupAt | modules/report.py:2-10 | the first entry with a key gives that key's value |
| Report.KeysDistinct | modules/report.py:3-10 | no key appears twice |
| Report.LookupKey | modules/report.py:3-10 | in a report with the eight keys in order, each key finds its own entry |
| Report.ReportValues | modules/report.py:1-10 | each key holds its value: both shapes, both missing totals, the three counters, and the dropped list or "None" when the list is empty or absent |
| Report.ReportIgnoresOriginalCells | modules/report.py:3-5 | of the original table only the shape and the missing total reach the report |
| App.LowerIdempotent | app.py:49 | lowering twice is lowering once; the result holds no upper-case letter and every other character is kept |
| App.AfterLastDot | app.py:49 | `split('.')[-1]` is the longest dot-free suffix, preceded by a dot unless it is the whole name |
| App.AfterLastDotOf | app.py:49 | the extension is what follows the last dot, however many dots the stem holds; a dot-free name is its own extension |
| App.FileType | app.py:49 | the file type holds no dot and no upper-case letter, and is never longer than the name |
| App.FileTypeIgnoresCase | app.py:49 | ".csv", ".CSV" and ".Csv" all give file type csv; ".xlsx" and ".XLSX" give xlsx |
| App.ExtensionOf | app.py:49 | the file type of `stem.ext` is the lowered extension |
| App.SelectReader | app.py:50-56 | csv selects the CSV reader, xlsx the Excel reader, and any other type fails with "Unsupported file format." |
| App.ReaderOfUpload | app.py:49-56 | an upload is read exactly when its extension is csv or xlsx in any case |
| App.IqrMultiplier | app.py:68-70 | the multiplier is 1.5 when outlier removal is off, and otherwise the slider value in `[1.0, 3.0]` on the 0.1 grid |
| App.SliderDefault | app.py:68-70 | the untouched slider gives the same 1.5 as the hidden one |
| App.ReplaceAbsent | app.py:103 | `replace` leaves a string without the pattern unchanged |
| App.Replace | app.py:103 | replacing by something no longer than the pattern never lengthens the string; a string shorter than the pattern is kept |
| App.ReplaceStep | app.py:103 | a character that cannot start a match is passed over |
| App.ReplaceSkip | app.py:103 | a prefix that cannot start a match is passed over |
| App.ReplaceWhole | app.py:103 | the pattern alone is replaced by nothing |
| App.ReplaceKeepsUpperCase | app.py:103 | the case-sensitive replace leaves ".CSV" unchanged |
| App.OutputFormat | app.py:101-110 | csv gives a CSV download; anything else gives an Excel workbook with sheet "Cleaned Data" |
| App.DownloadName | app.py:101-110 | the download name ends in `_cleaned.csv` for csv and `_cleaned.xlsx` otherwise, and is at most the suffix longer than the upload name |
| App.DownloadNameOfStem | app.py:101-110 | for a lower-case extension and a dot-free stem the name is the stem with `_cleaned.csv` or `_cleaned.xlsx` |
| App.UpperCaseExtensionKept | app.py:103 | an upload `stem.CSV` is read as CSV, but its download name is `stem.CSV_cleaned.csv` |
| App.StemOf | app.py:49 | the stem is a prefix of the name that stops at its last dot, or the whole name when there is no dot |
| App.StemOfDotted | app.py:49 | the stem of `stem.ext` is `stem`, however many dots the stem holds |
| App.CorrectedDownloadName | app.py:101-110 | the corrected name is a prefix of the upload name followed by the suffix of the chosen format |
| App.CorrectedNameOfStem | app.py:101-110 | the corrected name strips the extension the file type came from, in any case and for any stem |
| App.CorrectedAgreesOnLowerCase | app.py:101-110 | on ordinary lower-case names the corrected and written names agree |
| App.ReportAsWritten | app.py:73-89 | the report as requested has the eight entries |
| App.ReportIntended | app.py:73-89 | the report on the unmodified upload has the eight entries |
| App.AsWrittenBeforeIsZero | app.py:73-89 | with no drop and cleaning on, a table with a value in every column is reported as having had no missing cell |
| App.TwoColumnsHaveValues | app.py:73-89 | a numeric column starting with a number beside a text column of strings gives a table with a value in every column |
| App.SampleHasValues | app.py:73-89 | each column of the sample holds a value of its kind |
| App.SampleMissingOne | app.py:73-89 | one of the sample's four cells is missing |
| App.SampleFacts | app.py:73-89 | the sample table has one missing cell and a value in each of its two columns |
| App.AsWrittenMisreportsSample | app.py:82-84 | the sample's report says 0 missing cells before cleaning, though it had 1 |
| App.IntendedCountsUpload | app.py:82-84 | the corrected report counts the upload's own missing cells and agrees with the written one on every other key |
| App.HandleClean | app.py:73-89 | the click handler returns `Clean` of the upload and `ReportAsWritten`, and leaves `CallerAfter` of the upload in the caller's table |
| App.HandleCleanCorrected | app.py:73-89 | the handler that captures the upload first returns `Clean` of it and `ReportIntended`, and leaves `CallerAfter` of the upload in the caller's table |

## Left out

- The Streamlit user interface is not modelled: widgets, previews, the navigation and the "About" page. Its inputs become parameters (`Options`, the slider step, the file name).
- File reading and writing are not modelled: `read_csv`, `read_excel`, `to_csv`, `ExcelWriter`, UTF-8 encoding and the download buttons. The model starts from a parsed table and ends at the name and format of the download.
- Floating-point arithmetic is modelled on exact reals. So are the rounding of quartiles and medians and the `float` type of filled integer columns.
- Type inference when a file is read is not modelled. Each column is given as numeric or text, and a column changes kind only where the code changes it (label encoding).
- CleanData, Clean, HandleClean and HandleCleanCorrected follow the corrected text fill of the third finding: each text column is filled with its own mode and a column without a string is left unfilled. In the code, line 16 raises IndexError whenever cleaning is on and no text column holds a string: every upload with no text column, and every upload with no row, under the default settings. The whole `clean_data` call then aborts, after line 13 has already written the numeric fill into the caller's frame. `Cleaning.CleanAsWritten` models the abort as a `Failure`; it does not model that partial write.
- Columns that mix strings with NaN or numbers are not modelled for `LabelEncoder`: the model encodes the strings and leaves the other cells as they are.
- App.Lower: lowers ASCII letters only. Python's full Unicode case mapping is not modelled.
- App.Replace: requires a non-empty pattern. The two patterns the app uses are non-empty; `replace` with an empty pattern is not modelled.
- App.IqrMultiplier: the slider is modelled as its 21 positions on the 0.1 grid. Which position the user picks is input.
- Imputation.Mode: ties are broken by the least string, following the sorted result of `mode()`. This holds for text columns; pandas' handling of mixed-type ties is not modelled.
- `original_rows` (modules/cleaning.py:6) is computed and never used, so it has no counterpart.

## Findings

| source | as written | input that shows it | evidently intended | confidence | as-written member | corrected member |
|---|---|---|---|---|---|---|
| app.py:82-84 | `original_df=df` is read after `clean_data` has filled the same object in place (no column dropped, cleaning on) | a numeric column holding 1.0 and a missing cell beside a text column holding "a" and "b", no drop, cleaning on: "Missing Values (Before)" is 0 | the missing count of the table as uploaded, here 1 | high, not executed | App.AsWrittenMisreportsSample | App.IntendedCountsUpload |
| app.py:103 | `name.replace(".csv", "")` is case-sensitive, while the file type at line 49 is lowered | the upload `a.CSV` is read as CSV and downloaded as `a.CSV_cleaned.csv` | `a_cleaned.csv`: the extension removed in whatever case it had | high, not executed | App.UpperCaseExtensionKept | App.CorrectedNameOfStem |
| modules/cleaning.py:16 | `df[cat_cols].mode().iloc[0]` reads the first row of the modes, which exists only when some text column holds a string | one numeric column holding 1.0 and a missing cell, cleaning on: IndexError, nothing returned | the numeric column filled with its median and the text fill skipped | high, not executed | Cleaning.NumericSampleFails | Cleaning.NoTextUploadCleaned |
