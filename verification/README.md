# CPU temperature logs and the rsync backup command, in Dafny

This project models the core of two small command-line utilities.

- **`cpuTemp/plotCoreTemp.py`** reads a directory of CPU temperature logs, then summarises them per day.
  - `read_temp_data` visits the log files in sorted name order.
  - Each file's first line is its header and is skipped.
  - Every later row becomes a `LogEntry`. The timestamp is parsed from the file name followed by the row's first field. The two core temperatures are the second and third fields, with their first character and last two characters cut off (`+45.0°C` becomes `45.0`). The first character is dropped whatever it is, so `-5.0°C` reads as `5.0`, and the model keeps this.
  - The first row of a file that cannot be read ends that file. The readings before it are kept, and one warning names the file and the 0-based data row.
  - A file without even a header line raises `StopIteration` outside the `try`, which ends the whole read. The readings gathered so far are lost with the exception. The warnings logged for earlier files stay in the log, so the failed outcome carries them.
  - `summarize` cuts the readings into runs of consecutive readings on the same day, as `itertools.groupby` does. Each run gets a `LogSummary`: its day at midnight, and the min, max, mean and median of each core.
- **`utils/backup.py`**: `get_command` builds the `rsync` argument list from the parsed command line.

Modules:

- `Wrappers`: `Option` and `Result`.
- `TempLog`: the records `LogEntry`, `DataSummary` and `LogSummary`, plus the `datetime` order and truncation to midnight.
- `TextOrder`: Python's `str` order, and `sorted` on the set of file names.
- `Statistics`:
  - `min` and `max`;
  - `statistics.mean`, on exact reals;
  - `statistics.median`, via insertion sort.
- `LogReader`: `read_temp_data`.
  - The directory is a map from file name to the rows the CSV reader yields.
  - `strptime` and `float` are the partial functions `parseTime` and `parseFloat`, passed as parameters.
  - Warnings are returned instead of logged.
  - `ReadDirectory` is the reference definition. `ReadTempData` is the loop, proved equal to it.
- `Summarizer`: `summarize`.
  - `Runs` is the reference definition of `groupby` by day. `Summarize` is the loop, proved equal to `SummariesOf(Runs(data))`.
- `Backup`: `get_command`.

## Model

| member | source | states |
|---|---|---|
| LogReader.ReadTempData | cpuTemp/plotCoreTemp.py:47-67 | The loop over the sorted file names gives exactly `ReadDirectory`: files in `sorted` order, each file's readings appended after the earlier files' ones, and a missing header ending the read on that file with the warnings logged before it. |
| LogReader.ReadFileRows | cpuTemp/plotCoreTemp.py:60-66 | The per-file row loop appends to the readings and warnings gathered so far exactly what `ReadRows` gives for the file's data rows. |
| LogReader.ParseRow | cpuTemp/plotCoreTemp.py:50-64 | One data row made into a reading; characterised by `ParseRowSpec`. |
| LogReader.StripUnit | cpuTemp/plotCoreTemp.py:53-54 | `temp_string[1:-2]`; characterised by `StripUnitRoundTrip` and `StripUnitShort`. |
| LogReader.ReadRows | cpuTemp/plotCoreTemp.py:60-66 | The data rows of a file from one index on; characterised by `ReadRowsSpec`. |
| LogReader.ReadFile | cpuTemp/plotCoreTemp.py:57-66 | One file: missing header, or its data rows read; characterised by `ReadFileSpec`, `HeaderIgnored` and `ReadOneFile`. |
| LogReader.ReadFiles | cpuTemp/plotCoreTemp.py:56-66 | Files read one after the other; a file without a header ends the read and keeps the earlier files' warnings; characterised by `ReadFilesAppend`, `ReadFilesSnoc`, `HeaderMissingFirst` and `HeaderMissingPrefix`. |
| LogReader.ReadDirectory | cpuTemp/plotCoreTemp.py:47-67 | Reference definition of `read_temp_data`: the files in `sorted` order, read one after the other, with `ReadFiles`' outcome on a missing header; characterised by `ReadDirectorySplit`, and the loop `ReadTempData` is proved equal to it. |
| LogReader.ParseRowSpec | cpuTemp/plotCoreTemp.py:50-64 | A row yields a reading iff it has three fields, `file + row[0]` parses as a timestamp and both stripped temperatures parse. The reading is made of those three values. Otherwise the error is the first failing step, in Python's evaluation order: field 0, the timestamp, field 1, core 1's temperature, field 2, core 2's temperature. |
| LogReader.ReadRowsSpec | cpuTemp/plotCoreTemp.py:60-66 | From any data row on: at most one warning; the readings are the parses of the consecutive rows, in order; no warning means every row was read; a warning names the first failing row and its error, and nothing after it is read. |
| LogReader.ReadFileSpec | cpuTemp/plotCoreTemp.py:58-66 | For a file with a header: the readings are the data rows `rows[1..]` read in order up to the first failure; the warning carries the 0-based data row index of that failure; no warning iff every data row was read. |
| LogReader.HeaderIgnored | cpuTemp/plotCoreTemp.py:59 | The first line is never read as data: two files that differ only in their header give the same outcome. |
| LogReader.StripUnitRoundTrip | cpuTemp/plotCoreTemp.py:53-54 | `temp_string[1:-2]` applied to any first character + number + two-character unit gives back the number text. |
| LogReader.StripUnitShort | cpuTemp/plotCoreTemp.py:53-54 | The slice is clamped: a text of fewer than three characters becomes the empty string. |
| LogReader.HeaderMissingFirst | cpuTemp/plotCoreTemp.py:56-66 | The read fails iff some file in the visiting order has no line at all. It then names the first such file, every file before it has a header, and its warnings are exactly those the files before it logged. |
| LogReader.WarningBeforeHeaderMissing | cpuTemp/plotCoreTemp.py:56-66 | File `a` with an empty data row, then a file `b` with no line: the read fails on `b` and still carries `a`'s warning for data row 0. |
| LogReader.HeaderMissingPrefix | cpuTemp/plotCoreTemp.py:59 | Once a file without a header is reached, the files after it change nothing: the outcome is that failure. |
| LogReader.ReadFilesAppend | cpuTemp/plotCoreTemp.py:56-66 | Reading two stretches of files one after the other is combining their outcomes: earlier readings and warnings first, the first failure wins. |
| LogReader.Then | cpuTemp/plotCoreTemp.py:56-66 | Two stretches of files combined: readings and warnings in order; a failure in the first skips the second, as the uncaught `StopIteration` at line 59 does; a failure in the second keeps the first's warnings. See `ThenAssociative` and `ReadFilesAppend`. |
| LogReader.ThenAssociative | cpuTemp/plotCoreTemp.py:56-66 | Combining outcomes is associative and has the empty read as unit. |
| LogReader.ReadOneFile | cpuTemp/plotCoreTemp.py:56-66 | A stretch of one file reads as that file on its own. |
| LogReader.ReadFilesSnoc | cpuTemp/plotCoreTemp.py:56-66 | Reading one more file extends the outcome of the files before it. |
| LogReader.ReadDirectorySplit | cpuTemp/plotCoreTemp.py:56-66 | The directory read splits at any file into three parts: the files named before it, the file itself, and the files named after it. So a file's readings and warnings do not depend on the other files. |
| LogReader.FilesOfSplit | cpuTemp/plotCoreTemp.py:56-57 | Looking up the files of a split name list gives the split list of files. |
| TextOrder.SortNames | cpuTemp/plotCoreTemp.py:56 | `sorted(os.listdir(...))`: strictly ascending, holds exactly the directory's names, and equals the unique listing `Listing`. |
| TextOrder.Insert | cpuTemp/plotCoreTemp.py:56 | Inserting a new name keeps a listing strictly ascending and adds exactly that name. |
| TextOrder.Listing | cpuTemp/plotCoreTemp.py:56 | The sorted listing of a set of names is strictly ascending and holds exactly those names. |
| TextOrder.AscendingUnique | cpuTemp/plotCoreTemp.py:56 | Two strictly ascending listings of the same names are equal. |
| TextOrder.ListingSplit | cpuTemp/plotCoreTemp.py:56 | The sorted listing splits at any name into three parts: the names below it, the name, and the names above it. |
| TextOrder.AscendingAround | cpuTemp/plotCoreTemp.py:56 | Names below a name, then the name, then names above it, form an ascending listing. |
| TextOrder.Less | cpuTemp/plotCoreTemp.py:56 | Python's `str` `<`: code point by code point, a proper prefix first; see `LessIrreflexive`, `LessTransitive`, `LessTotal`. |
| TextOrder.LessIrreflexive | cpuTemp/plotCoreTemp.py:56 | No name sorts before itself. |
| TextOrder.LessTransitive | cpuTemp/plotCoreTemp.py:56 | The string order is transitive. |
| TextOrder.LessTotal | cpuTemp/plotCoreTemp.py:56 | Any two different names are ordered one way or the other. |
| Summarizer.Summarize | cpuTemp/plotCoreTemp.py:70-82 | The `groupby` loop gives one summary per run of `Runs(data)`, in order. |
| Summarizer.RunEnd | cpuTemp/plotCoreTemp.py:76-77 | The scan for one group stops at the first reading of another day or at the end, and every reading it passes has the group's day. |
| Summarizer.SummarizeStep | cpuTemp/plotCoreTemp.py:76-80 | One pass of the loop: the group found is the next run, and its summary is appended. |
| Summarizer.Core1Temps | cpuTemp/plotCoreTemp.py:78 | `[log.core_1_temp for log in group_logs]`: the first core's readings of a group, in order; see `SummaryOf`. |
| Summarizer.Core2Temps | cpuTemp/plotCoreTemp.py:79 | `[log.core_2_temp for log in group_logs]`: the second core's readings of a group, in order; see `SummaryOf`. |
| Summarizer.SummaryOf | cpuTemp/plotCoreTemp.py:77-80 | The `LogSummary` of one group: its first reading's day and both cores' statistics; see `SummarizeLogs`, `SingleReadingSummary` and `SummaryDaysDiffer`. |
| Summarizer.DayOf | cpuTemp/plotCoreTemp.py:76 | The `groupby` key, a reading's timestamp at midnight; see `MidnightMonotone` and `TimeOrderedDaysOrdered`. |
| TempLog.Midnight | cpuTemp/plotCoreTemp.py:76 | `replace(hour=0, minute=0, second=0)`; see `MidnightMonotone`. |
| Summarizer.SummarizeLogs | cpuTemp/plotCoreTemp.py:73-74 | min and max are values of the run and bound every value; the mean and the median lie between them. |
| Summarizer.RunLength | cpuTemp/plotCoreTemp.py:76 | A run is non-empty, all its readings share the first one's day, and the reading after it has another day. |
| Summarizer.Runs | cpuTemp/plotCoreTemp.py:76 | Every run is non-empty, and the first run starts with the first reading. |
| Summarizer.RunsAreDayRuns | cpuTemp/plotCoreTemp.py:76-77 | The runs laid end to end give the input back; each run has one day; adjacent runs have different days. |
| Summarizer.RunsUnique | cpuTemp/plotCoreTemp.py:76-77 | Any cut of the input with those properties is `Runs`: the grouping is the maximal-run one. |
| Summarizer.RunLengthIs | cpuTemp/plotCoreTemp.py:76 | A same-day prefix followed by a change of day is exactly the first run. |
| Summarizer.SummaryDaysDiffer | cpuTemp/plotCoreTemp.py:76-82 | Empty input gives no summaries and only empty input does; summary `i` carries the day of run `i`; adjacent summaries have different days. |
| Summarizer.SummaryDaysAscending | cpuTemp/plotCoreTemp.py:76-82 | For readings whose day keys never go backwards (`DaysOrdered`): the summaries' days strictly increase, and there is exactly one summary per distinct day. |
| Summarizer.TimeOrderedSummaries | cpuTemp/plotCoreTemp.py:76-82 | The same for readings in time order, as the log files hold them: the summaries' days strictly increase, one summary per distinct day. |
| Summarizer.TimeOrderedDaysOrdered | cpuTemp/plotCoreTemp.py:76 | Readings in time order have their day keys in order. |
| Summarizer.DaysOrderedSuffix | cpuTemp/plotCoreTemp.py:76 | What follows a run of day-ordered readings is day-ordered. |
| Summarizer.RunDaysAscending | cpuTemp/plotCoreTemp.py:76 | For day-ordered readings, the runs' days strictly increase. |
| Summarizer.RunCountIsDayCount | cpuTemp/plotCoreTemp.py:76 | For day-ordered readings, the number of runs is the number of distinct days. |
| Summarizer.DaysFollow | cpuTemp/plotCoreTemp.py:76 | In day-ordered readings, a later reading is never on an earlier day. |
| Summarizer.DayNotInLaterRuns | cpuTemp/plotCoreTemp.py:76 | In day-ordered readings, the first run's day does not occur after the run. |
| Summarizer.DayNotAfterChange | cpuTemp/plotCoreTemp.py:76 | Once day-ordered readings leave a day, that day does not come back. |
| Summarizer.NextRun | cpuTemp/plotCoreTemp.py:76-77 | A maximal same-day stretch found by scanning is the next run. |
| Summarizer.RunsAdvance | cpuTemp/plotCoreTemp.py:76-77 | After the runs done so far, the scanned stretch is the next run. |
| Summarizer.SummariesSnoc | cpuTemp/plotCoreTemp.py:80 | One more run appends one more summary. |
| Summarizer.SingleReadingSummary | cpuTemp/plotCoreTemp.py:73-80 | A day with a single reading has that reading as min, max, mean and median of each core. |
| Summarizer.TwoReadingSummary | cpuTemp/plotCoreTemp.py:73-74 | Readings 45.0 and 47.0 give min 45.0, max 47.0, mean 46.0, and median 46.0 (the average of the two middle values). |
| Statistics.Mean | cpuTemp/plotCoreTemp.py:74 | `statistics.mean`: `Sum(s) / |s|`, the sum over the count; characterised by `MeanTimesCount` and `MeanBounds`. |
| Statistics.Sort | cpuTemp/plotCoreTemp.py:74 | The sort the median uses; characterised by `SortSpec`. |
| Statistics.Median | cpuTemp/plotCoreTemp.py:74 | `statistics.median`: `Middle(Sort(s))`, the middle value of the sorted values, or the average of the two middle ones; characterised by `MedianOfAscending`, `MedianOfPermutation` and `MedianBounds`. |
| Statistics.Min | cpuTemp/plotCoreTemp.py:74 | `min` is an element that no element is below. |
| Statistics.Max | cpuTemp/plotCoreTemp.py:74 | `max` is an element that no element is above. |
| Statistics.MeanBounds | cpuTemp/plotCoreTemp.py:74 | min ≤ mean ≤ max. |
| Statistics.MeanTimesCount | cpuTemp/plotCoreTemp.py:74 | The mean times the count is the sum. |
| Statistics.SumBounds | cpuTemp/plotCoreTemp.py:74 | The sum of values in [lo, hi] lies between count·lo and count·hi. |
| Statistics.QuotientBounds | cpuTemp/plotCoreTemp.py:74 | Dividing by a positive count keeps the bounds. |
| Statistics.MedianBounds | cpuTemp/plotCoreTemp.py:74 | min ≤ median ≤ max. |
| Statistics.SortSpec | cpuTemp/plotCoreTemp.py:74 | The sort used by the median returns the same values (as a multiset), ascending. |
| Statistics.InsertValues | cpuTemp/plotCoreTemp.py:74 | Insertion adds exactly the inserted value. |
| Statistics.InsertAscending | cpuTemp/plotCoreTemp.py:74 | Insertion keeps values ascending. |
| Statistics.AscendingUnique | cpuTemp/plotCoreTemp.py:74 | Two ascending sequences with the same values are equal. |
| Statistics.MedianOfPermutation | cpuTemp/plotCoreTemp.py:74 | The median depends only on the values, not on their order. |
| Statistics.MedianOfAscending | cpuTemp/plotCoreTemp.py:74 | On ascending values the median is the middle element (odd count) or the average of the two middle elements (even count). |
| TempLog.MidnightMonotone | cpuTemp/plotCoreTemp.py:76 | Truncating to midnight keeps the time order. |
| TempLog.BeforeTransitive | cpuTemp/plotCoreTemp.py:76 | The datetime order is transitive. |
| TempLog.BeforeThenAtOrBefore | cpuTemp/plotCoreTemp.py:76 | A moment before another is before, and different from, everything at or after that one. |
| Backup.GetCommand | utils/backup.py:35-43 | The command is `BaseCommand`, `rsync --archive --delete --human-readable` (line 36), then `--verbose` iff verbose, then `--dry-run` iff dry run (after `--verbose` when both are set), then src, then dest. Its length is 6 plus the number of flags set, and the arguments are read back from it by `ArgsOf`. |

## Left out

- Plotting (`plot`, matplotlib), `parse_args`, `init_logging` and `main` are not part of this model. Warnings are returned as `Warning` values instead of being written through `logging`. Their text is the error kind (`RowError`), not Python's exception message.
- File system access is not modelled. `os.listdir`, `open` and `csv.reader` are replaced by a `Directory`: a map from file name to the rows the reader yields.
  - Quoting and other CSV tokenisation rules are not modelled.
  - A reader error raised while iterating (a NUL byte or a decoding error, say) is not modelled. The handler's warning would carry the last index `enumerate` yielded: the previous row of the same file, or an index from an earlier file. If no data row has been yielded yet, `i` is unbound, and the handler's `UnboundLocalError` ends the whole read.
- `datetime.strptime` and `float` are the parameters `parseTime` and `parseFloat`. Their formats are not modelled.
  - `DateTime` has no microsecond field: `strptime` with `%Y%m%d%H%M%S` always sets it to zero.
  - `replace(hour=0, minute=0, second=0)` therefore gives midnight.
- Statistics.Mean: temperatures are exact reals. IEEE-754 rounding in `float`, `statistics.mean` and `statistics.median` is not modelled.
- `float()` also accepts `nan` and `inf`, which have no `real` counterpart. A `parseFloat` that returns a real can only model finite readings.
- Summarizer.SummarizeLogs: does not state `mean * count == sum` itself. That fact is the separate lemma `Statistics.MeanTimesCount`.
- `read_temp_data` requires nothing of the files' contents. It is modelled on the whole map, with no preconditions.
- `validate`, `subprocess.run` and `main` of `utils/backup.py` are not part of this model. `utils/makeLinks.py` is not part of this model.
