# MIMIC benchmark to Mamba: the first four pipeline stages in Dafny

This project models the four batch stages that turn per-stay MIMIC-III benchmark
CSVs into fixed-length sequences and target arrays for a Mamba model. It also
proves what each stage guarantees.

- **Stage 1, the event normaliser** (`LoadClean`, `1_load_clean.py`).
  - Finds the splits.
  - Normalises the manifest header and resolves its filename column.
  - Selects the label columns.
  - For each manifest row, resolves the series file. It detects the series' time column, sorts the rows by time and converts minutes to hours. It then unpivots ("melts") the wide series into (hours, variable, value) rows under the sample id `{split}_{row}`. This is stage 1 as corrected: as written, the melt call fails and, once fixed, still leaves minutes unconverted (see "## Findings", where both the as-written and the corrected behaviour are modelled).
  - Collects one label record per row.
- **Stage 2, the vocabulary builder** (`FormatConvert`, `2_format_convert.py`).
  - Takes the sorted, distinct union of all variable names.
  - Builds the id map `vocab[i] -> i + 1`, with 0 kept for padding.
  - Converts each split. Each event file is checked for its columns, sorted by (sample_id, hours) and re-encoded to variable ids. The files are then concatenated in listing order.
- **Stage 3, the sequence packer** (`BuildSeq`, `3_build_seq.py`).
  - Sorts a split's events and groups them by sample in order of first appearance.
  - Packs each group into a `max_len x 4` array of (hours, var_id, value, 0) rows.
  - A group that fits is copied from row 0 and zero-padded. A longer group keeps its newest `max_len` events.
- **Stage 4, the target builder** (`BuildTargets`, `4_build_targets.py`).
  - Reorders the label table to the tensor's sample order. A missing id is an error.
  - Picks target columns by a case-insensitive task name: the first present candidate column for mortality, decompensation and length of stay, and every non-identifier column for phenotyping.

Files and dataframes are values:
- a CSV is a `Frame` (column names plus rows of `Cell`s);
- a split's series files are a `map` from path to frame, and "the file exists" is membership in it;
- a directory listing is a sequence in listing order;
- pandas' number parser is a parameter `parse: string -> Option<real>`;
- the existence of a split's `listfile.csv` is a parameter.

The shared modules hold the rest:
- `Strings`: lower-casing, stripping, substring tests, Python's string order and decimal rendering.
- `Seqs`: filters and first-present searches.
- `Sorting`: `sort_values`, specified as an ordered permutation.
- `Tables`: the row types passed between stages.

## Model

| member | source | states |
|---|---|---|
| LoadClean.DetectTimeColumn | main/mimic_benchmark_mamba/1_load_clean.py:8-12 | fails with NoTimeColumn exactly when none of Hours, hours, Time, time, Minutes, minutes is a column; otherwise returns a present candidate before which no candidate is present |
| LoadClean.HoursOf | main/mimic_benchmark_mamba/1_load_clean.py:15-19 | a time value of a column whose lower-cased name contains "min" is divided by 60 (result x 60 = input); any other is unchanged |
| LoadClean.ToHours | main/mimic_benchmark_mamba/1_load_clean.py:15-19 | the converted series has the input's length and holds each value converted by HoursOf |
| LoadClean.HoursOfMonotone | main/mimic_benchmark_mamba/1_load_clean.py:15-19 | converting to hours keeps the order of time values |
| LoadClean.MinuteCandidates | main/mimic_benchmark_mamba/1_load_clean.py:9-18 | of the six recognised time columns exactly Minutes and minutes are converted |
| LoadClean.NormalizeColumn | main/mimic_benchmark_mamba/1_load_clean.py:37 | a normalised name is the lower-cased slice of the raw name that remains once only white space is cut from both ends; it has no surrounding white space and no upper-case letter |
| Strings.Lower | main/mimic_benchmark_mamba/1_load_clean.py:37 | lower-casing maps each character on its own and keeps the length |
| Strings.Strip | main/mimic_benchmark_mamba/1_load_clean.py:37 | the stripped name is a slice of the input, everything cut off is white space, and the slice neither starts nor ends with white space |
| LoadClean.NormalizeColumns | main/mimic_benchmark_mamba/1_load_clean.py:37 | the header keeps its column count and order, each name normalised |
| LoadClean.NormalizeColumnsIdempotent | main/mimic_benchmark_mamba/1_load_clean.py:37 | normalising a normalised header changes nothing |
| LoadClean.FirstContaining | main/mimic_benchmark_mamba/1_load_clean.py:71-74 | None exactly when no name contains the text; otherwise the first position whose name contains it |
| LoadClean.ResolveFilenameColumn | main/mimic_benchmark_mamba/1_load_clean.py:69-74 | a header with "filename" is kept; otherwise the first name containing "file" is renamed "filename" and the rest are kept; with neither it fails with NoFilenameColumn (both directions) |
| LoadClean.ExtractLabelColumns | main/mimic_benchmark_mamba/1_load_clean.py:56-60 | the label columns are exactly the header's names outside the identifier set, in header order |
| LoadClean.ManifestHeader | main/mimic_benchmark_mamba/1_load_clean.py:66-78 | fails exactly when the filename column cannot be resolved or no label column remains; on success its columns are the normalised names with the filename column resolved, keep the width, include "filename", and the label list is non-empty |
| LoadClean.FindSplits | main/mimic_benchmark_mamba/1_load_clean.py:41-53 | the result is a duplicate-free subsequence of train, val, validation, test holding exactly the names whose listfile exists |
| LoadClean.Basename | main/mimic_benchmark_mamba/1_load_clean.py:90 | the basename has no '/', ends the path, is cut exactly after the path's last '/', and is the path itself when that has no '/' |
| LoadClean.ResolveSeriesPath | main/mimic_benchmark_mamba/1_load_clean.py:87-94 | split_dir/filename when it exists, else split_dir/basename when that exists, else SeriesNotFound naming the first path; a returned path always exists |
| LoadClean.FallbackNeedsDirectory | main/mimic_benchmark_mamba/1_load_clean.py:87-94 | for a filename without '/' resolution succeeds exactly when the primary path exists |
| LoadClean.SampleIdInjective | main/mimic_benchmark_mamba/1_load_clean.py:114 | two rows of a split with the same sample id are the same row |
| LoadClean.SampleIdsDistinct | main/mimic_benchmark_mamba/1_load_clean.py:114 | the ids of rows 0..n-1 of a split are pairwise distinct |
| LoadClean.SampleIdsSortAsText | main/mimic_benchmark_mamba/1_load_clean.py:114 | "train_10" sorts before "train_2" in Python's string order |
| LoadClean.KeptCells | main/mimic_benchmark_mamba/1_load_clean.py:24-29 | the kept cells of one column are exactly those whose value is present and numeric, top to bottom |
| LoadClean.MeltOrigins | main/mimic_benchmark_mamba/1_load_clean.py:23-29 | melt keeps only present, numeric cells outside the time column, in column-major order |
| LoadClean.MeltOriginsBound | main/mimic_benchmark_mamba/1_load_clean.py:23-24 | at most one output row per cell of a value column |
| LoadClean.MeltOriginsComplete | main/mimic_benchmark_mamba/1_load_clean.py:24-29 | every present, numeric cell outside the time column is kept |
| LoadClean.MeltLong | main/mimic_benchmark_mamba/1_load_clean.py:22-31 | at most (columns - 1) x rows output rows; row a is (the row's time value, the column name, the coerced value) of the a-th kept cell in column-major order |
| LoadClean.MeltVariables | main/mimic_benchmark_mamba/1_load_clean.py:23-24 | every emitted variable is a column of the frame and never the time column |
| LoadClean.MeltComplete | main/mimic_benchmark_mamba/1_load_clean.py:24-29 | every present, numeric cell of a value column appears as a row of the output |
| LoadClean.MeltChronologicalPerVariable | main/mimic_benchmark_mamba/1_load_clean.py:24 | for time-sorted input, each variable's rows come out in time order |
| LoadClean.MeltColumnMajor | main/mimic_benchmark_mamba/1_load_clean.py:24 | a later output row never names an earlier column of the frame |
| LoadClean.MeltIsColumnMajor | main/mimic_benchmark_mamba/1_load_clean.py:24 | variables a and b observed at hours 0 and 1 melt to hours 0, 1, 0, 1, so the output is not chronological within a sample |
| LoadClean.MeltedColumns | main/mimic_benchmark_mamba/1_load_clean.py:102 | the melted columns are exactly the series' columns other than the time column and "hours" |
| LoadClean.WideRow | main/mimic_benchmark_mamba/1_load_clean.py:103 | a wide row is the time cell followed by the cells of the melted columns |
| LoadClean.WideFrame | main/mimic_benchmark_mamba/1_load_clean.py:103 | the wide frame has the time column first, then the melted columns, one row per input row, each cell taken from its named column |
| LoadClean.SeriesWide | main/mimic_benchmark_mamba/1_load_clean.py:96-103 | the sorted, cut-down series keeps the row count and has columns [time] + melted columns |
| LoadClean.SeriesWideRows | main/mimic_benchmark_mamba/1_load_clean.py:98 | its rows are a permutation of the series' rows in time order |
| LoadClean.SeriesWideTimes | main/mimic_benchmark_mamba/1_load_clean.py:98 | with numeric times, the wide frame's time column is numeric and non-decreasing |
| LoadClean.MeltSeries | main/mimic_benchmark_mamba/1_load_clean.py:96-104 | fails with NoTimeColumn without a time column, and with NonNumericTime exactly when a time cell is not a number; otherwise melts against the detected column |
| LoadClean.CleanSample | main/mimic_benchmark_mamba/1_load_clean.py:96-115 | fails exactly when melting fails, with its error; every event carries the sample id |
| LoadClean.CleanSampleSound | main/mimic_benchmark_mamba/1_load_clean.py:96-115 | every event names a melted column and records that column's coerced value in some row, at that row's time in hours |
| LoadClean.CleanSampleComplete | main/mimic_benchmark_mamba/1_load_clean.py:96-115 | every present, numeric cell of a melted column becomes an event at its row's time in hours |
| LoadClean.CleanSampleChronological | main/mimic_benchmark_mamba/1_load_clean.py:98-111 | each variable's events are in time order |
| LoadClean.CleanSampleAsWritten | main/mimic_benchmark_mamba/1_load_clean.py:104 | as written the melt call lacks its time-column argument, so cleaning always fails, with MeltMissingArgument once a time column is found |
| LoadClean.AsWrittenLosesEverySample | main/mimic_benchmark_mamba/1_load_clean.py:104 | every series the corrected cleaning accepts is rejected as written |
| LoadClean.CleanSampleRawTimes | main/mimic_benchmark_mamba/1_load_clean.py:99-111 | with the argument supplied, the events equal the corrected ones except that a minute column's times stay in minutes (60 times the hours) |
| LoadClean.MinuteReadingConverted | main/mimic_benchmark_mamba/1_load_clean.py:99-111 | with a minute time column, a reading melted at 60 becomes an event at hour 1.0 |
| LoadClean.MinuteReadingRaw | main/mimic_benchmark_mamba/1_load_clean.py:99-111 | as written, the same reading is reported at hours == 60.0 |
| LoadClean.MinutesNotConverted | main/mimic_benchmark_mamba/1_load_clean.py:99-107 | the two cleanings disagree on any such minute-timed series |
| LoadClean.MinuteSeriesNotConverted | main/mimic_benchmark_mamba/1_load_clean.py:99-107 | the series (minutes, hr) = (60, 80) is one: hours 60.0 as written, 1.0 corrected |
| LoadClean.LoadRowTagged | main/mimic_benchmark_mamba/1_load_clean.py:114-115 | a loaded row's events all carry `{split}_{idx}` |
| LoadClean.LoadRowsElement | main/mimic_benchmark_mamba/1_load_clean.py:86-122 | when rows 0..n-1 load, entry i is row i's events |
| LoadClean.LoadRowsFailure | main/mimic_benchmark_mamba/1_load_clean.py:86-94 | a failed prefix reports the error of a row that fails after all earlier rows load |
| LoadClean.LoadRowsAbort | main/mimic_benchmark_mamba/1_load_clean.py:86-94 | once a prefix fails, the split fails with that error |
| LoadClean.SplitFails | main/mimic_benchmark_mamba/1_load_clean.py:86-94 | a failing row after rows that all load fails the whole split with its error |
| LoadClean.SplitIds | main/mimic_benchmark_mamba/1_load_clean.py:114 | the ids of rows 0..n-1 are `{split}_{i}` in row order |
| LoadClean.LabelRecords | main/mimic_benchmark_mamba/1_load_clean.py:122 | one label record per manifest row, in row order, keyed by its id and holding the row's label-column cells |
| LoadClean.RecordsStep | main/mimic_benchmark_mamba/1_load_clean.py:122 | row n's id and record extend those of rows 0..n-1 |
| LoadClean.SplitResultSound | main/mimic_benchmark_mamba/1_load_clean.py:84-126 | a processed split has one id, event list and label record per manifest row, in manifest order; ids are distinct, records are keyed by their row's id and hold one value per label column; a failure is the first failing row's error |
| LoadClean.ProcessRows | main/mimic_benchmark_mamba/1_load_clean.py:84-126 | the row loop returns exactly SplitResult: the first row error, or all rows' ids, events and label records |
| LoadClean.ProcessSplit | main/mimic_benchmark_mamba/1_load_clean.py:63-126 | a header error is returned first; otherwise the result is SplitResult over the resolved header and the directory task_root/split |
| Seqs.FirstPresent | main/mimic_benchmark_mamba/1_load_clean.py:9-12 | None exactly when no candidate is present; otherwise a present candidate's position before which none is present |
| Seqs.Without | main/mimic_benchmark_mamba/1_load_clean.py:59 | the filter keeps exactly the elements outside the excluded set, in order, and keeps distinctness |
| Sorting.SortBy | main/mimic_benchmark_mamba/2_format_convert.py:43 | the result is sorted by the key and is a permutation of the input |
| Strings.NatToStringInjective | main/mimic_benchmark_mamba/1_load_clean.py:114 | distinct row indices render as distinct decimal strings |
| FormatConvert.SortStrings | main/mimic_benchmark_mamba/2_format_convert.py:20 | the result is strictly ascending in Python's string order and holds exactly the set's elements |
| FormatConvert.ScanDirectory | main/mimic_benchmark_mamba/2_format_convert.py:15-19 | succeeds exactly when every event file of the split has a "variable" column, and then returns the union of their variables |
| FormatConvert.LoadVariableVocab | main/mimic_benchmark_mamba/2_format_convert.py:9-21 | succeeds exactly when every event file under every split directory has a "variable" column; the vocabulary is strictly ascending and holds exactly their variables |
| FormatConvert.RootVarsMember | main/mimic_benchmark_mamba/2_format_convert.py:11-19 | every variable of every event file under the root is in the union |
| FormatConvert.BuildVarToId | main/mimic_benchmark_mamba/2_format_convert.py:24-26 | the map's keys are exactly the vocabulary; each id k lies in 1..N and vocab[k-1] is its name |
| FormatConvert.VarToIdInjective | main/mimic_benchmark_mamba/2_format_convert.py:24-26 | distinct names get distinct ids, and 0 is never given out |
| FormatConvert.VarToIdBijection | main/mimic_benchmark_mamba/2_format_convert.py:24-26 | over a duplicate-free vocabulary the ids are a bijection onto 1..N with inverse k -> vocab[k-1] |
| FormatConvert.AscendingNoDup | main/mimic_benchmark_mamba/2_format_convert.py:20 | a sorted set has no duplicates, so the bijection applies to the built vocabulary |
| FormatConvert.Encode | main/mimic_benchmark_mamba/2_format_convert.py:44-47 | re-encoding never adds rows, and drops none when every variable has an id |
| FormatConvert.Mapped | main/mimic_benchmark_mamba/2_format_convert.py:45 | the surviving rows are exactly those whose variable has an id |
| FormatConvert.MappedFilter | main/mimic_benchmark_mamba/2_format_convert.py:45 | the surviving rows keep their order and appear as often as in the input; rows without an id are gone |
| FormatConvert.EncodeIds | main/mimic_benchmark_mamba/2_format_convert.py:44-46 | every written id lies in 1..N |
| FormatConvert.EncodeDecode | main/mimic_benchmark_mamba/2_format_convert.py:44-47 | decoding the re-encoded rows gives back exactly the rows with a mapped variable, in order, with sample id, hours and value unchanged |
| FormatConvert.EncodeDecodeTotal | main/mimic_benchmark_mamba/2_format_convert.py:44-47 | when the vocabulary covers the rows, decoding returns every row |
| FormatConvert.EncodeSorted | main/mimic_benchmark_mamba/2_format_convert.py:43-47 | dropping rows and replacing names by ids keeps (sample_id, hours) order |
| FormatConvert.ConvertFileSorted | main/mimic_benchmark_mamba/2_format_convert.py:43-47 | each converted file is non-decreasing in (sample_id, hours) |
| FormatConvert.ConvertFileRoundTrip | main/mimic_benchmark_mamba/2_format_convert.py:43-47 | with a covering vocabulary, decoding a converted file gives its rows sorted by (sample_id, hours) |
| FormatConvert.ConvertFileComplete | main/mimic_benchmark_mamba/2_format_convert.py:43-45 | with a covering vocabulary, conversion keeps the row count and decodes to a permutation of the file's rows |
| FormatConvert.EventFilesMembers | main/mimic_benchmark_mamba/2_format_convert.py:36-38 | the processed files are exactly the listed .parquet files other than labels.parquet |
| FormatConvert.FirstWithoutColumns | main/mimic_benchmark_mamba/2_format_convert.py:41-42 | None exactly when every file has sample_id, hours, variable and value; otherwise the first file that lacks one |
| FormatConvert.FirstBadFile | main/mimic_benchmark_mamba/2_format_convert.py:36-42 | a bad event file after good ones is the one the split reports |
| FormatConvert.FlattenLength | main/mimic_benchmark_mamba/2_format_convert.py:54 | the concatenation has as many rows as the parts together |
| FormatConvert.ConvertAll | main/mimic_benchmark_mamba/2_format_convert.py:36-48 | one converted table per event file, in listing order |
| FormatConvert.ConvertSplit | main/mimic_benchmark_mamba/2_format_convert.py:29-55 | the first event file without the four columns fails the split with MissingColumns; no event file gives NoEventFiles; otherwise the labels pass through unchanged and the events are the converted files concatenated in listing order |
| FormatConvert.SameRootDropsNothing | main/mimic_benchmark_mamba/2_format_convert.py:44-45 | with a vocabulary built from the same root, conversion drops no row of any file, and a split's table has as many rows as its files together |
| FormatConvert.ConcatenationNotSorted | main/mimic_benchmark_mamba/2_format_convert.py:54 | two sorted files concatenated in listing order can give an unsorted table |
| BuildSeq.SampleOrder | main/mimic_benchmark_mamba/3_build_seq.py:14 | the groups are the distinct sample ids, each once |
| BuildSeq.Group | main/mimic_benchmark_mamba/3_build_seq.py:14 | a group holds exactly the events of its sample |
| BuildSeq.GroupFilter | main/mimic_benchmark_mamba/3_build_seq.py:14 | a group keeps the sorted order of its events and holds each of them as often as the split does, and nothing else |
| BuildSeq.GroupNonEmpty | main/mimic_benchmark_mamba/3_build_seq.py:14 | every group has at least one event |
| BuildSeq.GroupChronological | main/mimic_benchmark_mamba/3_build_seq.py:33 | after the sort each group is in time order |
| BuildSeq.SortedSampleOrder | main/mimic_benchmark_mamba/3_build_seq.py:33 | after the sort the groups come in strictly ascending id order (as strings) |
| BuildSeq.SplitOrder | main/mimic_benchmark_mamba/3_build_seq.py:33 | the sorted split's groups are ascending, cover every sample of the input, and are each chronological |
| BuildSeq.Kept | main/mimic_benchmark_mamba/3_build_seq.py:17-22 | the kept events number min(count, max_len) and are a suffix of the group |
| BuildSeq.Packed | main/mimic_benchmark_mamba/3_build_seq.py:12-15 | the array has max_len rows of 4 cells and its fourth column is zero |
| BuildSeq.PackedSuffix | main/mimic_benchmark_mamba/3_build_seq.py:17-25 | the first min(count, max_len) rows are the newest that many events in order; every later row is zero |
| BuildSeq.PackedShort | main/mimic_benchmark_mamba/3_build_seq.py:17-20 | a group that fits is copied from row 0 in order and zero-padded |
| BuildSeq.PackedLong | main/mimic_benchmark_mamba/3_build_seq.py:21-25 | a longer group keeps its last max_len events in order |
| BuildSeq.PackedNewestTwo | main/mimic_benchmark_mamba/3_build_seq.py:22 | with max_len 2 three events keep the second and third |
| BuildSeq.PackSample | main/mimic_benchmark_mamba/3_build_seq.py:15-25 | a fresh max_len x 4 array equal, cell for cell, to Packed |
| BuildSeq.PadTruncate | main/mimic_benchmark_mamba/3_build_seq.py:10-27 | one (id, array) pair per sample in order of first appearance; each array is a distinct fresh array packed from that sample's events alone |
| BuildSeq.ProcessSplit | main/mimic_benchmark_mamba/3_build_seq.py:30-39 | the ids are the sorted split's samples, and xs[k] is the array packed for ids[k]; stacking fails exactly for an empty split |
| BuildTargets.ParseTask | main/mimic_benchmark_mamba/4_build_targets.py:11-41 | each task is selected exactly by its lower-cased names; any other name selects none |
| BuildTargets.ParseTaskCaseInsensitive | main/mimic_benchmark_mamba/4_build_targets.py:11 | lower-casing a name first never changes the task |
| BuildTargets.UpperCaseLos | main/mimic_benchmark_mamba/4_build_targets.py:11 | "LOS" selects length of stay |
| BuildTargets.SelectColumns | main/mimic_benchmark_mamba/4_build_targets.py:12-39 | a single-column task takes the first present candidate and fails exactly when none is present; phenotyping takes exactly the non-identifier columns in order and fails exactly when there are none |
| BuildTargets.SampleIdNeverSelected | main/mimic_benchmark_mamba/4_build_targets.py:34 | the sample_id column never changes the selection |
| BuildTargets.BuildTargets | main/mimic_benchmark_mamba/4_build_targets.py:9-41 | an unknown name is UnknownTask; a selection failure is the error; otherwise one target row per label row whose j-th value is that row's value in the j-th selected column |
| BuildTargets.SingleColumnTargets | main/mimic_benchmark_mamba/4_build_targets.py:14-31 | a single-column task gives an N x 1 target from the first present candidate |
| BuildTargets.Matching | main/mimic_benchmark_mamba/4_build_targets.py:47 | the rows matched by an id are exactly the label rows with that id |
| BuildTargets.MatchingFilter | main/mimic_benchmark_mamba/4_build_targets.py:47 | the rows matched by an id keep table order and appear as often as in the table, and rows with other ids are absent |
| BuildTargets.MatchingUnique | main/mimic_benchmark_mamba/4_build_targets.py:47 | with unique ids, an id matches exactly its one row |
| BuildTargets.AlignSamples | main/mimic_benchmark_mamba/4_build_targets.py:44-48 | succeeds exactly when every tensor id has a label row; a failure names a missing id; the columns are kept and every row is a label row |
| BuildTargets.AlignUnique | main/mimic_benchmark_mamba/4_build_targets.py:44-48 | with unique label ids, the aligned table has one row per tensor id, and row k carries id k |
| BuildTargets.Stage1IdsUnique | main/mimic_benchmark_mamba/4_build_targets.py:47 | label tables keyed `{split}_{row}` have unique ids |
| BuildTargets.TargetsFollowTensorOrder | main/mimic_benchmark_mamba/4_build_targets.py:51-57 | for a stage-1 label table, target row k holds the selected labels of tensor sample k, whatever the tensor's order |

## Left out

- Every `main()`: argument parsing, directory creation and directory enumeration. A listing is an input sequence in arbitrary order.
- `5_build_hdf5.py` is not part of this model.
- File formats: CSV, parquet, npz/npy and JSON reading and writing.
  - A file is a value passed in.
  - Stage 2's label table (`labels.parquet`) is an opaque value of a type parameter, copied unchanged.
  - Partial outputs written before an error are not modelled.
- Tables.Coerce: pandas' `to_numeric` parsing rules are the abstract parameter `parse`. NaN produced by parsing is not modelled.
- LoadClean.MeltSeries: a time column with a missing (NaN) cell is the error NonNumericTime, whereas pandas would sort that row last and carry a NaN time on. A text cell is an error in the source as well: the sort at 1_load_clean.py:98 or `astype(float)` at 1_load_clean.py:18-19 raises.
- LoadClean.LabelRecords: a label column literally named "sample_id" would overwrite the generated id in the record dict at line 122. The model keeps the generated id.
- LoadClean.ResolveFilenameColumn: duplicate names produced by normalisation are renamed together, as pandas' rename does. A later lookup of such a name takes its first column; pandas would return several columns and fail.
- Strings.Lower: only ASCII letters are lower-cased.
- Strings.Strip: only ASCII white space is removed.
- Sorting.SortBy: the model sorts with one stable insertion sort, and its contract states only sortedness and permutation. The tie order of pandas' sorts, including the unstable default sort at 1_load_clean.py:98, is not modelled: where keys tie, the model's order is one of the orders pandas may produce.
- Floating point:
  - times and values are `real`;
  - the division by 60 is exact;
  - the float32 array of 3_build_seq.py:15 holds `real`s.
- BuildSeq.PackSample: the kept events are written row by row rather than as three column slices. The resulting array is the same.
- BuildSeq.PadTruncate: requires max_len >= 1. With max_len = 0, `seq[-0:]` at line 22 is the whole group and the slice assignment raises a shape error, which is not modelled.
- BuildSeq.ProcessSplit: `np.stack` of the arrays is the sequence of arrays. The npz's `sample_ids` is the id sequence.
- BuildTargets.BuildTargets: the `astype(int)` and `astype(float)` casts and the `reshape(-1, 1)` are not modelled. Label values are of a type parameter, and a target row is the sequence of its selected values.
- BuildTargets.AlignSamples: reports the first tensor id without a label row. pandas' `.loc` raises one KeyError listing all of them.
- BuildTargets.AlignSamples: with duplicate ids in the labels, `.loc` returns every matching row, and so does the model. Uniqueness is a separate lemma.
- FormatConvert.ScanDirectory: an event file without a "variable" column is the error NoVariableColumn, where pandas raises while reading it.
- FormatConvert.LoadVariableVocab: entries of the clean root that are not directories are skipped, as at line 13.
- The list `candidates` at 1_load_clean.py:43 and the list `sample_ids` at 2_format_convert.py:35,49 are never read, so they are not modelled.

## Findings

| source | as written | input that shows it | evidently intended | confidence | as-written member | corrected member |
|---|---|---|---|---|---|---|
| main/mimic_benchmark_mamba/1_load_clean.py:104 | `_melt_long(wide)` omits the required `time_col` argument, so every series with a time column raises TypeError | any series with an "Hours" column, for example (Hours, hr) = (0, 80) | `_melt_long(wide, time_col)` | high (not executed) | LoadClean.CleanSampleAsWritten, LoadClean.AsWrittenLosesEverySample | LoadClean.CleanSample |
| main/mimic_benchmark_mamba/1_load_clean.py:99-107 | with the argument supplied, the melt renames the raw time column to "hours". The converted `ts["hours"]` of line 99 is excluded from the melt at line 102, and the fallback at lines 106-107 never fires, so a Minutes column's times stay in minutes | the series (minutes, hr) = (60, 80): the reading is reported at hours 60.0 | hours == 1.0, the time in hours | high (not executed) | LoadClean.CleanSampleRawTimes, LoadClean.MinutesNotConverted, LoadClean.MinuteSeriesNotConverted | LoadClean.CleanSample, LoadClean.MinuteReadingConverted |

The model also records three behaviours a reader of the pipeline may not
expect. None of them is a defect.

- Stage 1 emits a sample's rows column by column (`LoadClean.MeltIsColumnMajor`), not in time order. Time order holds only per variable (`LoadClean.CleanSampleChronological`). Full (sample_id, hours) order first appears after the sort in stage 2.
- Stage 2 sorts each file but concatenates the files in listing order, so a split's table need not be sorted (`FormatConvert.ConcatenationNotSorted`). Stage 3 sorts again (`BuildSeq.SplitOrder`).
- Sample ids sort as text (`LoadClean.SampleIdsSortAsText`), so the tensor's sample order is not manifest order. Stage 4's alignment is what puts the targets back in tensor order (`BuildTargets.TargetsFollowTensorOrder`).
