# Latest-file resolver and model naming of the sales MLOps pipeline

This project models, in Dafny, the decision-making core of a small sales-data
pipeline:

- **`find_latest_csv_file` of `src/helper.py`** (`Helper`).
  - Given a directory listing, it keeps the `.csv` entries.
  - It keeps the names shaped `sales_<date>_<time>.csv` or
    `sales_processed_<date>_<time>.csv`: 3 or 4 `_`-segments, `sales` first,
    and the last two segments, joined and stripped of `.csv`, 13 characters
    long and containing `_`.
  - It returns the first of those whose timestamp is lexicographically
    greatest.
  - Its two `exit(1)` calls become the results `NoRawCsvFiles` and
    `NoMatchingPattern`. A `None` return becomes `NotFound`.
- **`find_latest_csv_file` of `src/preprocessed.py`** (`Preprocessed`), the
  older variant.
  - It accepts 3-segment names only.
  - It measures the timestamp as `"_".join(parts[1:])`.
  - It compares only the date segment, `split("_")[1]`. Two files of the same
    day therefore tie, and the first listed wins whatever its time.
  - The model keeps this behaviour as written.
- **`get_model_filename` and `prepare_data` of `src/train.py`** (`Train`).
  - `get_model_filename` picks the standard path `model/model.pkl` or a path
    stamped with `strftime("%Y%m%d_%H%M")`. The clock reading is a parameter.
  - `prepare_data` splits a table into the feature columns and the `sales`
    target.

The shared machinery is in four modules:

- `PyStr`: `str.split`, `str.join`, `endswith`, `parts[-2:]` and Python's
  code-point order on strings.
- `Naming`: `.csv`, `sales`, `processed`, the length 13, and
  `str.replace(".csv", "")`.
- `Seqs`: list comprehensions with an `if` clause.
- `LatestFile`: the generic resolver and its first-maximum scan.
  - `ResolveBy(listing, matches, key)` is the resolver, defined on the
    listing.
  - `LatestIndex` is the scan `latest_ts = ""; if ts > latest_ts: …`, as the
    position it settles on.

Each variant's `FindLatestCsvFile` method mirrors the source's two loops and
is proved equal to that variant's `Resolve`. The lemmas then say what
`Resolve` means in terms of the listing alone.

Behaviour of the code that the model makes explicit:

- On equal timestamps the first file listed wins, because the comparison
  at src/helper.py:36 is a strict `>`.
- The first error (src/helper.py:10-13) fires when the listing holds no
  `.csv` entry, whatever else it holds.
- The `_` test only asks for an underscore. Given the segment-count test
  before it, it never rejects anything: the model proves the timestamp then
  holds exactly one.
- Nothing checks that the date and time are digits.

## Model

| member | source | states |
|---|---|---|
| PyStr.Split | src/helper.py:18 | `name.split("_")` is never empty and no part holds the separator |
| PyStr.JoinSplit | src/helper.py:18 | joining the parts of a split gives back the name |
| PyStr.SplitJoin | src/helper.py:18-22 | splitting a join of separator-free parts gives back the parts |
| PyStr.SplitCons | src/helper.py:18 | a separator-free first segment is split off unchanged and the rest is split on its own |
| PyStr.SplitThree | src/preprocessed.py:35 | `a_b_c` splits into exactly `[a, b, c]` |
| PyStr.SplitFour | src/helper.py:18 | `a_b_c_d` splits into exactly `[a, b, c, d]` |
| PyStr.Join | src/helper.py:22 | `"_".join(parts)`: undone by `split` (JoinSplit) and undoing it on separator-free parts (SplitJoin) |
| PyStr.LastTwo | src/helper.py:22 | `parts[-2:]` has the last two parts, or all when fewer |
| PyStr.LexLess | src/helper.py:36 | Python's `<` on `str`, code point by code point with a proper prefix smaller; a strict total order by LexLessIrreflexive, LexLessTransitive and LexLessTotal |
| PyStr.LexLessIrreflexive | src/helper.py:36 | no timestamp is strictly greater than itself |
| PyStr.LexLessTransitive | src/helper.py:36 | the string order `>` is transitive |
| PyStr.LexLessTotal | src/helper.py:36 | two different strings are ordered exactly one way |
| PyStr.LexLessAt | src/helper.py:36 | strings with a common prefix compare by their first differing character |
| PyStr.LexLessConcat | src/helper.py:36 | equally long leading parts decide first, the rest decides a tie |
| Naming.IsCsv | src/helper.py:10 | `f.endswith(".csv")`: the test of the comprehension, whose survivors Filter, ResolveByErrors and ResolveByIgnoresNonCsv describe |
| Naming.StripCsv | src/helper.py:23 | removing `.csv` never lengthens a string |
| Naming.StripCsvKeeps | src/helper.py:23 | removing `.csv` keeps every `_` |
| Naming.StripCsvPrefix | src/helper.py:23 | a leading part without `.` survives the removal untouched |
| Naming.StripCsvSuffix | src/helper.py:23 | for a stem without `.`, only the extension is removed |
| Naming.StripCsvNoDot | src/preprocessed.py:51 | a segment without `.` is left as it is |
| Seqs.Filter | src/helper.py:10 | the comprehension keeps only elements passing the test and is no longer than its input |
| Seqs.FilterMembers | src/helper.py:10 | an element survives exactly when it is in the input and passes the test |
| Seqs.FilterStep | src/helper.py:15-25 | one more loop iteration appends the element exactly when it passes |
| Seqs.FilterEmpty | src/helper.py:11 | the comprehension is empty exactly when no element passes |
| Seqs.FilterConcat | src/helper.py:10 | filtering a concatenation filters each part |
| Seqs.FilterCompose | src/helper.py:10-25 | the `.csv` comprehension and then the pattern loop equal one filter by both tests |
| Seqs.FilterIndex | src/helper.py:15-25 | the i-th survivor comes from a position whose prefix yields exactly the earlier survivors |
| Seqs.FilterPartition | src/train.py:52-53 | survivors and dropped elements together are the input as a multiset |
| Seqs.FilterAllBut | src/train.py:52 | with one failing element, the filter is the input without it, order kept |
| Seqs.FilterAll | src/helper.py:10 | a filter that every element passes keeps the whole input |
| Seqs.FilterOnly | src/train.py:53 | with one passing element, the filter is that element alone |
| Seqs.FilterNone | src/helper.py:10 | a filter that no element passes keeps nothing |
| LatestFile.ResolveBy | src/helper.py:10-40 | the outcome on a listing, shared by both resolvers: characterised by ResolveByErrors, ResolveByFound and ResolveByNotFound, and equal to what each FindLatestCsvFile method returns |
| LatestFile.LatestIndex | src/helper.py:31-38 | the scan returns nothing exactly when every key is `""`, otherwise a position whose key is the greatest and strictly greater than all earlier ones |
| LatestFile.LatestIndexStep | src/helper.py:36-38 | a key replaces the best so far only when strictly greater |
| LatestFile.FirstMaxUnique | src/helper.py:36 | at most one position is the first maximum |
| LatestFile.FirstLatestUnique | src/helper.py:36 | at most one listing position is the first latest eligible entry |
| LatestFile.ResolveByErrors | src/helper.py:10-29 | first error exactly when no `.csv` entry; second exactly when `.csv` entries exist and none matches |
| LatestFile.KeyOfEligible | src/helper.py:15-25 | every eligible entry appears among the collected files |
| LatestFile.FirstMaxIsFirstLatest | src/helper.py:31-38 | the scan's first maximum over collected files is the first latest eligible entry of the listing |
| LatestFile.ResolveByFound | src/helper.py:31-40 | a returned file is an eligible entry, with a key at least every eligible key and above every earlier eligible key |
| LatestFile.ResolveByNotFound | src/helper.py:31-40 | `None` exactly when eligible entries exist and all their keys are `""` |
| LatestFile.ResolveByEligible | src/helper.py:31-40 | on eligible entries only, the result is what the scan settles on |
| LatestFile.ResolveByPair | src/helper.py:31-40 | on two eligible files, the result is what the scan over their two keys settles on |
| LatestFile.LatestOfTwoKeys | src/helper.py:36-38 | over two keys the strictly greater is chosen in either order |
| LatestFile.ResolveByTwo | src/helper.py:31-40 | of two eligible files the one with the strictly greater key is returned in either order |
| LatestFile.LatestOfEqualKeys | src/helper.py:36 | over two equal non-empty keys the first is kept |
| LatestFile.ResolveByTie | src/helper.py:36 | of two eligible files with equal non-empty keys the first listed is returned |
| LatestFile.ResolveByIgnoresNonCsv | src/helper.py:10 | inserting a non-`.csv` entry anywhere does not change the outcome |
| Helper.TimestampOf | src/helper.py:22-23 | `"_".join(name.split("_")[-2:]).replace(".csv", "")`, also recomputed at lines 34-35: the last two segments joined with the `.csv` removed (TimestampOfParts, TimestampOfThree, TimestampOfFour) |
| Helper.MatchesPattern | src/helper.py:18-24 | 3 or 4 segments, `sales` first, a 13-character timestamp holding `_`; the `_` test is implied by the others (UnderscoreTestRedundant) and raw and processed exports pass (AcceptsRaw, AcceptsProcessed) |
| Helper.FindLatestCsvFile | src/helper.py:6-40 | the function's outcome is the resolver's outcome for the listing |
| Helper.CollectMatching | src/helper.py:15-25 | `ts_files` is exactly the `.csv` names passing the pattern, in order |
| Helper.ScanLatest | src/helper.py:31-38 | `latest_file` ends as the file at the scan's first-maximum position, or `None` |
| Helper.JoinLastTwo | src/helper.py:22 | joining `parts[-2:]` is the second-to-last part, `_`, the last part |
| Helper.UnderscoreTestRedundant | src/helper.py:18-25 | for 3 or 4 segments the timestamp holds exactly one `_`, so the pattern is segment count, `sales` first and length 13 |
| Helper.ResolveErrors | src/helper.py:10-29 | the two `exit(1)` paths happen exactly on listings without `.csv` entries, and on listings whose `.csv` entries all fail the pattern |
| Helper.ResolveIsLatest | src/helper.py:31-40 | never `None`; with an eligible entry a file is returned, and it is the first eligible entry with the greatest timestamp |
| Helper.NonCsvEntriesIgnored | src/helper.py:10 | entries not ending in `.csv` never influence the result |
| Helper.TimestampOfParts | src/helper.py:22-23 | the timestamp is the last two segments joined, with `.csv` removed |
| Helper.TimestampOfThree | src/helper.py:18-23 | `a_b_c.csv` splits into its segments and carries the timestamp `b_c` |
| Helper.TimestampOfFour | src/helper.py:18-23 | `a_b_c_d.csv` splits into its segments and carries the timestamp `c_d` |
| Helper.TimestampTestPasses | src/helper.py:24 | a 13-character `date_time` passes both timestamp tests |
| Helper.AcceptsRaw | src/helper.py:17-25 | `sales_<date>_<time>.csv` with a 13-character `date_time` is eligible and keyed on `date_time` |
| Helper.AcceptsProcessed | src/helper.py:17-25 | `sales_processed_<date>_<time>.csv` is eligible too, with the same key |
| Helper.LaterOfTwo | src/helper.py:31-38 | of two eligible files the greater timestamp is returned in either order |
| Helper.TieKeepsFirst | src/helper.py:36 | of two eligible files with equal timestamps the first listed is returned |
| Helper.TimestampOrder | src/helper.py:36 | a later date, or the same date and a later time, gives a greater timestamp |
| Helper.LaterExportWins | src/helper.py:31-38 | of two raw exports the later date, or same date and later time, is returned in either order |
| Helper.NextDayExample | src/helper.py:31-38 | `sales_20240102_1000.csv` beats `sales_20240101_0900.csv` in either order |
| Preprocessed.TimestampOf | src/preprocessed.py:39-40 | `"_".join(parts[1:]).replace(".csv", "")`: on a 3-segment name the date and time joined (NameOfThree) |
| Preprocessed.MatchesPattern | src/preprocessed.py:37-41 | exactly 3 segments, `sales` first, a 13-character timestamp holding `_`; the `_` test is implied (UnderscoreTestRedundant) and `sales_processed_` names fail (ProcessedNeverQualifies) |
| Preprocessed.DateKey | src/preprocessed.py:51 | `name.split("_")[1].replace(".csv", "")`: the date segment alone, so the time never decides (AcceptsRaw, SameDayKeepsFirst) |
| Preprocessed.FindLatestCsvFile | src/preprocessed.py:25-56 | the function's outcome is the resolver's outcome for the listing |
| Preprocessed.CollectMatching | src/preprocessed.py:32-42 | `ts_files` is exactly the `.csv` names passing the 3-segment pattern, in order |
| Preprocessed.ScanLatest | src/preprocessed.py:48-54 | `latest_file` ends as the file at the first maximum of the date keys, or `None` |
| Preprocessed.UnderscoreTestRedundant | src/preprocessed.py:35-42 | for 3 segments the measured timestamp holds exactly one `_`, so the pattern is segment count, `sales` first and length 13 |
| Preprocessed.ResolveErrors | src/preprocessed.py:27-46 | the two `exit(1)` paths happen exactly on listings without `.csv` entries, and on listings whose `.csv` entries all fail the pattern |
| Preprocessed.ResolveIsLatestByDate | src/preprocessed.py:48-56 | a returned file is the first eligible entry with the greatest date; `None` exactly when all eligible dates are empty |
| Preprocessed.NonCsvEntriesIgnored | src/preprocessed.py:27 | entries not ending in `.csv` never influence the result |
| Preprocessed.NameOfThree | src/preprocessed.py:35-51 | `a_b_c.csv` splits into its segments, measures `b_c` and compares `b` |
| Preprocessed.AcceptsRaw | src/preprocessed.py:35-42 | `sales_<date>_<time>.csv` with a 13-character `date_time` is eligible and keyed on the date alone |
| Preprocessed.ProcessedNeverQualifies | src/preprocessed.py:37 | a `sales_processed_` name is never eligible here, though the resolver of src/helper.py takes it |
| Preprocessed.LaterDateWins | src/preprocessed.py:50-54 | of two exports with different dates the later date is returned in either order |
| Preprocessed.SameDayKeepsFirst | src/preprocessed.py:51-53 | two exports of one date tie and the first listed is returned whatever the times, where src/helper.py returns the later time |
| Preprocessed.EmptyDateNotFound | src/preprocessed.py:48-56 | a lone `sales__<12 chars>.csv` is eligible but the result is `None` |
| Preprocessed.EmptyDateExample | src/preprocessed.py:48-56 | `sales__123456789012.csv` alone gives `None` |
| Train.DaysInMonth | src/train.py:198 | every month has 28 to 31 days |
| Train.Digits | src/train.py:198 | `%m`, `%d`, `%H`, `%M` give exactly two digits |
| Train.Decimal | src/train.py:198 | `%Y` gives at least one digit |
| Train.DateStamp | src/train.py:198 | `%Y%m%d` is all digits |
| Train.TimeStamp | src/train.py:198 | `%H%M` is four digits |
| Train.DecimalDigits | src/train.py:198 | a year of w digits is written as exactly those w digits |
| Train.DigitsOrder | src/train.py:198 | fixed-width digits are equal and ordered exactly as the numbers are |
| Train.YearStamp | src/train.py:198 | for 4-digit years `%Y%m%d` is 8 characters |
| Train.DateStampOrder | src/train.py:198 | for 4-digit years `%Y%m%d` tells apart and orders dates as the calendar does |
| Train.TimeStampOrder | src/train.py:198 | `%H%M` tells apart and orders times of day as the clock does |
| Train.FormatTimestamp | src/train.py:198 | `strftime("%Y%m%d_%H%M")`: 13 characters with one `_` (TimestampShape), injective on minutes and ordered chronologically (FormatTimestampOrder) |
| Train.FormatTimestampOrder | src/train.py:198 | for 4-digit years the timestamp is equal exactly for the same minute, and its string order is the order of time |
| Train.TimestampShape | src/train.py:198 | for 4-digit years the timestamp has 13 characters, exactly one `_` and no `.` |
| Train.GetModelFilename | src/train.py:186-199 | the standard path exactly when no standard model exists; otherwise `model/model_` + the timestamp + `.pkl`; always `model/model…pkl` |
| Train.DistinctMinutesDistinctPaths | src/train.py:197-199 | models saved in different minutes get different paths |
| Train.TimestampAccepted | src/train.py:198 | `sales_<timestamp>.csv` is eligible for the resolver of src/helper.py and keyed on that timestamp |
| Train.LaterStampChosen | src/train.py:198 | of two exports stamped in this format, the resolver of src/helper.py returns the later one |
| Train.PrepareData | src/train.py:43-54 | `KeyError` exactly when no `sales` column; otherwise features hold no `sales` column, the target only `sales` columns, and rows are unchanged |
| Train.PrepareDataPartition | src/train.py:52-53 | features and target together are the input columns, none lost or duplicated |
| Train.PrepareDataWellFormed | src/train.py:52-54 | a table with one value per row in every column splits into two such tables |
| Train.PrepareDataSingleTarget | src/train.py:52-53 | with one `sales` column, the features are the other columns in order and the target is that column |

## Left out

- Directory listing, path joining and file I/O are left out.
  - The listing is an input sequence of entry names.
  - The resolvers return the entry name, not `dir_path / f`.
  - The model assumes a listing entry and its `Path.name` are the same,
    which holds for what `os.listdir` returns.
  - Left out for the same reason: `os.path.exists` (`check_model_exists`, so
    whether the standard model exists is a parameter), `load_data`,
    `pd.read_csv`, `save_model` and pickling.
- `exit(1)` does not halt anything. It is modelled as the results
  `NoRawCsvFiles` and `NoMatchingPattern`.
- `print` logging is not modelled, nor are the `__main__` blocks of
  src/train.py and src/preprocessed.py.
- `split_train_test`, `train_model` and `evaluate_model` are left out. They
  wrap scikit-learn and XGBoost, which are not part of this model.
- `check_model_metrics_quality` and `print_metrics` are left out: they are
  floating-point thresholds and printing only.
- The test files under tests/ are not part of this model.
- `datetime.now()` is replaced by a `DateTime` parameter holding the fields
  the format shows.
- Train.Decimal: `%Y` is written without padding, as the GNU C library does.
  Some Python versions and platforms pad years below 1000 to four digits. The
  lemmas about the timestamp's shape and order therefore assume 4-digit
  years.
- Preprocessed.ScanLatest: it requires every name to have at least two
  segments. On a shorter name `split("_")[1]` raises `IndexError`, which the
  model does not represent. The function itself only scans 3-segment names.
- Preprocessed.FindLatestCsvFile: the model does not capture that
  src/preprocessed.py builds paths as `raw_dir / f` with `raw_dir` annotated
  as `str`. The model works on names only.
- Dafny strings cannot hold lone surrogate code points, which Python's
  `os.listdir` produces (through `surrogateescape`) for file names that are
  not valid UTF-8; listings holding such names are not modelled.
- Train.PrepareData: cell values are of an abstract type, and a table is its
  columns plus a row count.
  - Dtypes and the index are not modelled.
  - When the `sales` column is unique, pandas returns a Series rather than a
    one-column frame; the model does not distinguish the two.
