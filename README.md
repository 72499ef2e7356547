# Analysis scripts of the actor-based cooperation simulation, in Dafny

The simulation writes one CSV file per run: a `#` comment header such as
`# coopRatio = 0,35`, then one row per agent and step with the columns
`step`, `strategy` (`"C"` cooperates, anything else defects) and, in some
runs, `cooperatorClusters`. Five Python scripts read these files and plot
what they find. This project models what each script computes before it
plots, and proves the properties that computation promises.

- `clusters-coopFinal.py`:
  - reads the initial ratio from each `ratio*.csv` file name;
  - computes the final cooperation percentage and the final cluster count;
  - sorts the records by ratio.
- `clusters.py`:
  - groups one run by step, giving the percentage of `"C"` and the first cluster count of each step;
  - smooths the cluster column with a centred rolling mean of width 5.
- `plot_cooperates.py`:
  - reads the initial ratio from the first line of each baseline file (`# coopRatio = I,F`, times 100);
  - pairs it with the final cooperation percentage.
- `plots.py`:
  - builds the per-step cooperation series of six configured conditions;
  - takes the last value of each series.
- `temptation.py`:
  - reads the temptation value T from `Temptation<A-B>.csv` names, where `1-2` means 1.2;
  - computes the final cooperation percentage of each file;
  - sorts the `(T, pct)` pairs and unzips them.

Modules:
- `Wrappers`: `Option`, `Result` and the Python exceptions the scripts can raise.
- `Text`: character-level pieces.
  - Digit and whitespace runs of the regular expressions.
  - Python's `float()` on the numerals they capture.
  - `str.replace`, `os.path.basename` and `readline`.
- `Frames`: a parsed CSV (`Csv`, `Row`) and the pandas operations the scripts share.
  - The percentage of `"C"` rows.
  - `step.max()` and the rows at that step.
  - `groupby("step")`.
- One module per script: `CoopFinal`, `Clusters`, `Cooperates` (for `plot_cooperates.py`), `Plots` and `Temptation`.

Each script's loop over its files is a method with a `while` loop. It is proved equal to a function defined over growing prefixes of the file list, and the lemmas are about that function. Pure pandas expressions are functions.

The file system is a parameter. A discovered file is a `DataFile`: its path, its decoded text and its parsed `Csv`. `plots.py` opens fixed paths, so there the file system is a map from path to rows, and a path outside the map raises `FileNotFoundError`.

Pandas' NaN results are `None`:
- the mean of an empty selection. An empty frame has no maximum step, so its final selection has no rows and the final mean is `None`;
- a missing cluster value.

Behaviour the model keeps:
- **A failure ends the script.**
  - In `clusters-coopFinal.py`, a file with a `cooperatorClusters` column but no rows makes `.iloc[0]` raise `IndexError`, which ends the run.
  - In `temptation.py`, a token such as `1-2-3` passes the regex, but `float("1.2.3")` raises `ValueError`. No matching file at all raises `ValueError` from `zip(*[])`.
  - In `plots.py`, a missing file raises `FileNotFoundError`, and a file without rows raises `IndexError` at `frac.values[-1]`.
  - Skipping, with a warning, happens only where a script tests for it: `clusters-coopFinal.py` skips a file whose name gives no ratio, `temptation.py` one whose name does not match its pattern, and `plot_cooperates.py` one whose first line holds no readable header.
- **The order of ties after `sort_values` is not fixed.**
  - `sort_values` uses quicksort. The model sorts by insertion and promises only that the result is sorted and a permutation of its input.
  - In `temptation.py`, the tuple order is a total order, and the result is proved to be the only sorted arrangement.
- **The header value is always multiplied by 100.** There is no check whether the header holds a fraction.
- **A dot decimal loses its fraction.** The header pattern expects a comma, so `coopRatio = 0.35` captures `0` only.
- **A file without rows is not a load failure.**
  - Its final percentage is NaN.
  - In `plot_cooperates.py` and `temptation.py` it still yields a point.

## Model

| member | source | states |
|---|---|---|
| Text.PyFloatRaisesIff | python/plot_cooperates.py:22 | `float()` on a numeral of digits and points raises `ValueError` exactly when the numeral holds two points |
| Text.PyFloatOfDigits | python/temptation.py:26 | `float("I")` is the integer value of the digits I |
| Text.PyFloatOfDecimal | python/plot_cooperates.py:21-22 | `float("I.F")` is the decimal I.F |
| Text.PyFloat | python/plot_cooperates.py:22 | `float()` on digits is their integer value, on `I.F` with one point the decimal I.F, and it raises `ValueError` exactly when a second point follows the first |
| Text.ReplaceChar | python/temptation.py:25 | `s.replace(a, b)` keeps the length and changes exactly the positions that hold `a` into `b` |
| Text.ReplaceCharAppend | python/temptation.py:25 | `str.replace` of one character works piecewise on a concatenation |
| Text.ReplaceCharAbsent | python/temptation.py:25 | replacing a character that does not occur leaves the string unchanged |
| Text.Basename | python/clusters-coopFinal.py:15 | `os.path.basename` holds no `/` and is no longer than the path (BasenameIsLastComponent says which suffix it is) |
| Text.BasenameIsLastComponent | python/clusters-coopFinal.py:15 | `os.path.basename` is the suffix after the last `/`, or the whole path when there is none |
| Text.BasenameOfJoin | python/clusters-coopFinal.py:15 | the basename of `dir/name` is `name` whenever `name` holds no `/` |
| Text.FirstLine | python/plot_cooperates.py:13-14 | `readline` returns no more than the text, and all of a text without a newline |
| Text.FirstLineIsPrefix | python/plot_cooperates.py:13-14 | `readline` returns a prefix of the text that holds no newline except a final one, and it ends in a newline whenever text remains |
| Text.FirstLineOf | python/plot_cooperates.py:13-14 | on `line + "\n" + rest`, `readline` returns `line + "\n"`, whatever `rest` is |
| Text.SpaceRunEndMaximal | python/plot_cooperates.py:9 | the greedy `\s*` takes only whitespace and stops before another character or at the end |
| Text.DigitRunEndMaximal | python/clusters-coopFinal.py:15 | the greedy `\d*` takes only digits and stops before a non-digit or at the end |
| Frames.CountCoopAll | python/plots.py:20 | the `"C"` count equals the row count exactly when every row cooperates |
| Frames.CountCoopNone | python/plots.py:20 | the `"C"` count is 0 exactly when no row cooperates |
| Frames.PercentBounds | python/clusters-coopFinal.py:33 | 100·c/n (0 ≤ c ≤ n, n > 0) lies in [0, 100], is 100 exactly when c = n and 0 exactly when c = 0, and times n it is 100·c |
| Frames.CoopPctMeaning | python/clusters-coopFinal.py:33 | for rows, the percentage times the row count is 100 times the `"C"` count; it is 100 exactly when all rows cooperate and 0 exactly when none does |
| Frames.CoopPct | python/temptation.py:36 | the mean is missing (NaN) exactly for no rows, and otherwise lies in [0, 100] |
| Frames.MaxStep | python/clusters-coopFinal.py:29 | `step.max()` is the step of some row and no row has a larger one |
| Frames.AtStep | python/clusters-coopFinal.py:30 | the selection `df[df.step == s]` holds only rows of step s, and it is empty exactly when no row has step s |
| Frames.AtStepMembers | python/temptation.py:33 | the selection holds exactly the rows of step s |
| Frames.AtStepForallDown | python/plot_cooperates.py:29 | a property of every selected row holds for every row of step s in the frame |
| Frames.AtStepForallUp | python/plot_cooperates.py:29 | a property of every row of step s in the frame holds for every selected row |
| Frames.AtStepForall | python/plot_cooperates.py:29 | a property holds for every selected row exactly when it holds for every row of step s in the frame |
| Frames.AtStepHead | python/clusters-coopFinal.py:38 | the first selected row is the first row of step s in file order |
| Frames.FinalRows | python/clusters-coopFinal.py:29-30 | the last-step rows are empty exactly for an empty frame, and otherwise are the rows at the maximum step |
| Frames.FinalCoopPct | python/temptation.py:32-36 | the final percentage is missing exactly for an empty frame, and otherwise lies in [0, 100] |
| Frames.FinalCoopPctAllOrNone | python/temptation.py:32-36 | for a frame with rows, the final percentage is 100 exactly when every agent of the last step cooperates, and 0 exactly when none does |
| Frames.DistinctSteps | python/plots.py:20 | the group keys ascend strictly and are exactly the steps that occur |
| Frames.StrictlyIncreasingUnique | python/plots.py:20 | two strictly increasing sequences with the same elements are equal, so the group keys are determined |
| Frames.DistinctStepsOrderFree | python/plots.py:20 | the group keys do not depend on the order of the rows |
| Frames.LastStepIsMax | python/plots.py:20 | the last group key is the maximum step |
| Frames.StepCoopPct | python/plots.py:20 | the value of a step is the percentage of `"C"` among that step's rows only, in [0, 100] |
| Frames.CoopSeries | python/plots.py:20 | the series has one point per distinct step, ascending; each point is that step's percentage of `"C"`, in [0, 100] |
| Frames.SeriesEndsAtFinalStep | python/plots.py:35 | for a frame with rows, the last point of the series is at the maximum step and equals the final-step percentage |
| CoopFinal.RatioAtMatches | python/clusters-coopFinal.py:15 | `ratio(\d+)` matches at position i exactly when `ratio` and a digit stand there, and it then captures the whole digit run that follows |
| CoopFinal.RatioFromLeftmost | python/clusters-coopFinal.py:15 | the search from k finds nothing exactly when the pattern matches at no position from k on, and otherwise returns the capture at the leftmost match |
| CoopFinal.RatioFromZeroLeftmost | python/clusters-coopFinal.py:15 | a capture of `re.search` is the one at the leftmost position where the pattern matches |
| CoopFinal.ExtractRatioNone | python/clusters-coopFinal.py:14-16 | `extract_ratio` is `None` exactly when the pattern occurs nowhere in the basename |
| CoopFinal.ExtractRatioSome | python/clusters-coopFinal.py:14-16 | a ratio found is the integer value of the digits at the pattern's leftmost occurrence in the basename |
| CoopFinal.ExtractRatioLeftmost | python/clusters-coopFinal.py:14-16 | `extract_ratio` is `None` exactly when the pattern occurs nowhere in the basename, and otherwise is the integer value of the digits at its leftmost occurrence |
| CoopFinal.ExtractRatio | python/clusters-coopFinal.py:14-16 | an extracted ratio is never negative |
| CoopFinal.RatioIgnoresDirectory | python/clusters-coopFinal.py:15 | only the basename is searched: `dir/name` gives what `name` gives |
| CoopFinal.ExtractRatioExample | python/clusters-coopFinal.py:13-16 | `ratio20.csv` gives 20.0 |
| CoopFinal.ExtractRatioInAnyDirectory | python/clusters-coopFinal.py:15 | `<dir>/ratio20.csv` gives 20.0 whatever the directory holds |
| CoopFinal.ExtractRatioDirectoryOnly | python/clusters-coopFinal.py:15 | a file name in which `ratio(\d+)` matches nowhere gives no ratio, even when the directory part holds `ratio` and digits |
| CoopFinal.FinalClusters | python/clusters-coopFinal.py:37-40 | without the column the value is missing; it raises exactly when the column exists and the frame has no row, and then it raises `IndexError` |
| CoopFinal.FinalClustersFirstAtLastStep | python/clusters-coopFinal.py:37-38 | with the column and some rows, the value is that of the first row, in file order, at the maximum step |
| CoopFinal.FileRecord | python/clusters-coopFinal.py:21-42 | a file is skipped exactly when its name gives no ratio; it raises exactly when the ratio is read, the column exists and the frame is empty; otherwise the record holds the ratio, the final percentage and the final cluster value |
| CoopFinal.Collect | python/clusters-coopFinal.py:20-42 | a completed run records or skips every file; a run that raises raises `IndexError` |
| CoopFinal.RaisedPersists | python/clusters-coopFinal.py:38 | an exception among the first n files ends the whole run with it |
| CoopFinal.Unextracted | python/clusters-coopFinal.py:21-24 | the paths of the files whose name gives no ratio, in order; with the files that give one, they count all files |
| CoopFinal.SkippedAreUnextracted | python/clusters-coopFinal.py:20-24 | in a completed run the skipped paths are exactly the files whose name gives no ratio, in discovery order |
| CoopFinal.CollectOneRecordPerExtractedFile | python/clusters-coopFinal.py:20-42 | in a completed run the k-th record comes from the k-th file whose name gives a ratio, and the skipped paths are exactly those of the other files, in order |
| CoopFinal.CollectRaisesIff | python/clusters-coopFinal.py:21-42 | the run raises exactly when some file has a ratio, the cluster column and no rows |
| CoopFinal.CollectPrefix | python/clusters-coopFinal.py:21-42 | the run over i + 1 files is the run over i files followed by the outcome of file i |
| CoopFinal.CollectRecords | python/clusters-coopFinal.py:20-42 | the script's loop returns exactly what `Collect` describes |
| CoopFinal.InsertByRatio | python/clusters-coopFinal.py:46 | inserting into a list sorted by ratio keeps it sorted and adds one record |
| CoopFinal.InsertByRatioPermutes | python/clusters-coopFinal.py:46 | inserting adds exactly the one record and loses none (multiset) |
| CoopFinal.SortByRatio | python/clusters-coopFinal.py:46 | the result is sorted by `init_ratio` and is a permutation of the input |
| CoopFinal.Table | python/clusters-coopFinal.py:20-46 | the table raises exactly when the run does; otherwise it is sorted, a permutation of the records, and records plus skipped count the files |
| Clusters.FirstPresent | python/clusters.py:11 | a present `"first"` value is the value of some row |
| Clusters.FirstPresentIsFirst | python/clusters.py:11 | `"first"` is missing exactly when every value is, and otherwise is the value of a row before which every value is missing |
| Clusters.FirstPresentCons | python/clusters.py:11 | `"first"` over one more row in front is that row's value when present, and otherwise the old `"first"` |
| Clusters.FirstPresentAtGroups | python/clusters.py:9-12 | the first present value of step s in file order is `"first"` over the group of step s |
| Clusters.FirstClusterMissing | python/clusters.py:11 | the cluster value of step s is missing exactly when no row of step s has one |
| Clusters.FirstClusterFound | python/clusters.py:11 | a present cluster value of step s is that of a row of step s before which no row of step s has one |
| Clusters.Aggregate | python/clusters.py:9-12 | one grouped row per distinct step, ascending; each row holds that step's percentage of `"C"` (in [0, 100]) and its first present cluster value |
| Clusters.AggregateStepsOrderFree | python/clusters.py:9-12 | the grouped steps do not depend on the order of the rows |
| Clusters.CountPresentZero | python/clusters.py:15 | no value is present exactly when every value is missing |
| Clusters.SumPresentBounds | python/clusters.py:15 | values between lo and hi sum to between lo and hi times their number |
| Clusters.MeanPresent | python/clusters.py:15 | the NaN-skipping mean is missing exactly when every value in the window is missing |
| Clusters.MeanPresentBounds | python/clusters.py:15 | the mean of values between lo and hi lies between lo and hi |
| Clusters.Rolling | python/clusters.py:15 | one smoothed value per position, each the NaN-skipping mean over the centred window, which is cut at the edges |
| Clusters.RollingMissingIff | python/clusters.py:15 | a smoothed value is missing exactly when every value in positions max(0, i − half) to min(n − 1, i + half) is missing (half = 2 in the script) |
| Clusters.RollingWithinWindowBounds | python/clusters.py:15 | a smoothed value lies within any bounds of the values present in its window |
| Clusters.RollingConstant | python/clusters.py:15 | smoothing a series without gaps and with a single value leaves it unchanged |
| Clusters.RollingHalfZero | python/clusters.py:15 | a window of one position returns each value unchanged |
| Clusters.ClustersScript | python/clusters.py:5-15 | `KeyError` exactly when the column is absent; otherwise the grouped frame and its cluster column smoothed over 5 positions, one value per grouped row |
| Cooperates.HeaderAt | python/plot_cooperates.py:9 | a match at position i starts with `coopRatio` and captures a well-formed numeral `I` or `I,F` |
| Cooperates.CaptureValueIsFloat | python/plot_cooperates.py:21-22 | `float(group.replace(",", ".")) * 100` never raises on a capture and equals I·100 or I.F·100 |
| Cooperates.CaptureValue | python/plot_cooperates.py:21-22 | the percentage of a capture lies in [I·100, (I+1)·100), and is exactly I·100 when there is no `,F` (its value against `float()` is CaptureValueIsFloat) |
| Cooperates.HeaderRatio | python/plot_cooperates.py:15-22 | a ratio found by `rx.search` is never negative (which one it is, HeaderRatioLeftmost states) |
| Cooperates.InitRatio | python/plot_cooperates.py:13-22 | a text of one line is searched whole, and a ratio found is never negative |
| Cooperates.HeaderRatioLeftmost | python/plot_cooperates.py:15-18 | `rx.search` finds nothing exactly when the pattern matches at no position, and otherwise reports the leftmost match |
| Cooperates.SearchHeader | python/plot_cooperates.py:15 | the search returns the leftmost matching position at or after k, or none when nothing from k on matches |
| Cooperates.InitRatioFirstLineOnly | python/plot_cooperates.py:13-15 | only the first line is searched: what follows it has no influence |
| Cooperates.HeaderAtKey | python/plot_cooperates.py:9 | after a key at position i (`coopRatio`, `=` and the whitespace around it), the pattern goes on with the number |
| Cooperates.KeySpaces | python/plot_cooperates.py:9 | the two `\s*` runs of a key end at the `=` and at the number |
| Cooperates.HeaderAtShape | python/plot_cooperates.py:9 | conversely, every match at position i is such a key followed by its number |
| Cooperates.NoMatchBeforeKey | python/plot_cooperates.py:9 | the pattern cannot match at a position that does not hold a `c` |
| Cooperates.HeaderRatioAt | python/plot_cooperates.py:15 | when the first match is at i, `rx.search` reports the value captured there |
| Cooperates.NumberAtComma | python/plot_cooperates.py:9 | `I,F` followed by a non-digit is captured whole |
| Cooperates.NumberAtDigits | python/plot_cooperates.py:9 | digits not followed by a comma and a digit are captured alone |
| Cooperates.CommaDecimalHeader | python/plot_cooperates.py:9-22 | a key `coopRatio = I,F` at the first position where the pattern matches gives the percentage I.F·100 |
| Cooperates.IntegerHeader | python/plot_cooperates.py:9-22 | a first key `coopRatio = I`, not followed by a digit or by `,` and a digit, gives I·100 |
| Cooperates.DotDecimalHeader | python/plot_cooperates.py:9-22 | a first key `coopRatio = I.F`, with a dot, gives I·100: the fraction is lost |
| Cooperates.CommaLayout | python/plot_cooperates.py:9 | in `# coopRatio = I,F` and its newline the key stands at 2, the pattern does not match before it, and `I` and `F` stand at 14 and after the comma |
| Cooperates.CommaLine | python/plot_cooperates.py:9-22 | the line `# coopRatio = I,F` with its newline is searched to I.F·100 |
| Cooperates.IntegerLine | python/plot_cooperates.py:9-22 | the line `# coopRatio = I` with its newline is searched to I·100 |
| Cooperates.DotLine | python/plot_cooperates.py:9-22 | the line `# coopRatio = I.F` with its newline is searched to I·100 |
| Cooperates.CanonicalCommaHeader | python/plot_cooperates.py:13-22 | a file whose first line is `# coopRatio = I,F`, whatever follows that line, starts at I.F·100 |
| Cooperates.CanonicalIntegerHeader | python/plot_cooperates.py:13-22 | a file whose first line is `# coopRatio = I`, whatever follows, starts at I·100 |
| Cooperates.CanonicalDotHeader | python/plot_cooperates.py:13-22 | a file whose first line is `# coopRatio = I.F`, whatever follows, starts at I·100 |
| Cooperates.InitRatioExample | python/plot_cooperates.py:13-22 | a file whose first line is `# coopRatio = 0,35` starts at 35 |
| Cooperates.Points | python/plot_cooperates.py:11-33 | the two lists always have the same length, and together with the skipped paths they count the files |
| Cooperates.PointsFollowDiscoveryOrder | python/plot_cooperates.py:11-33 | the k-th point comes from the k-th file with a readable header, in discovery order, unsorted |
| Cooperates.PointsFinalsBounded | python/plot_cooperates.py:28-30 | every final percentage that is present lies in [0, 100] |
| Cooperates.CollectPoints | python/plot_cooperates.py:11-33 | the script's loop returns exactly the lists and skipped paths `Points` describes |
| Plots.PathOf | python/plots.py:6-17 | the joined path lies under `../output/`, and a file name without `/` is its basename |
| Plots.LoadPrefix | python/plots.py:16-21 | one more iteration of the loop either raises `FileNotFoundError` for a missing file or adds that label's per-step series |
| Plots.LoadOkStep | python/plots.py:16-21 | the loop gets past one more condition exactly when it got past the earlier ones and that condition's file exists |
| Plots.LoadOkIff | python/plots.py:16-18 | the loop completes exactly when every configured file exists |
| Plots.Load | python/plots.py:16-21 | a loop that does not complete raises `FileNotFoundError` |
| Plots.LoadKeys | python/plots.py:16-21 | the keys of `data` are exactly the labels of the conditions read |
| Plots.LoadCard | python/plots.py:7-21 | with distinct labels, `data` has one entry per condition |
| Plots.LoadAt | python/plots.py:16-21 | with distinct labels, each condition's label maps to the per-step series of its own file |
| Plots.LoadRaisedPersists | python/plots.py:18 | a missing file among the first n conditions ends the script with `FileNotFoundError` |
| Plots.ConditionsDistinct | python/plots.py:7-14 | the six configured labels are distinct |
| Plots.LoadSeries | python/plots.py:15-21 | the script's loop returns what `Load` describes for the six conditions, with six keys when it completes |
| Plots.Finals | python/plots.py:35 | `IndexError` exactly when some series is empty; otherwise one value per label |
| Plots.SeriesEmptyIff | python/plots.py:20 | a series is empty exactly when its file has no rows |
| Plots.FinalsRaiseIff | python/plots.py:35 | once every file is read, the comprehension raises exactly when some file has no rows |
| Plots.FinalAt | python/plots.py:35 | each label's final value is the percentage of `"C"` at the last step of its file |
| Plots.OnlyExactCCounts | python/plots.py:20 | in a run where no row says exactly `"C"` (only `"D"`, `"c"` and the like), every point of the series is 0 |
| Temptation.TokenScanSound | python/temptation.py:12 | the greedy scan extends a word of `\d+(?:-\d+)*` to one that neither a digit nor `-digit` can continue |
| Temptation.TokenScanComplete | python/temptation.py:12 | a word of the pattern followed by neither a digit nor a dash is exactly what the scan takes |
| Temptation.MatchTemptation | python/temptation.py:12 | a group match is always a dash numeral |
| Temptation.MatchTemptationSound | python/temptation.py:12 | a match means the name is `Temptation`, the token, `.csv`, then anything: only the start is anchored |
| Temptation.MatchTemptationComplete | python/temptation.py:12 | every name `Temptation<token>.csv<anything>` with a dash-numeral token matches, with that token as group 1 |
| Temptation.TemptationValue | python/temptation.py:25-26 | converting a token fails only with `ValueError` |
| Temptation.TemptationOfInteger | python/temptation.py:25-26 | a bare token `A` gives the integer A |
| Temptation.TemptationOfDecimal | python/temptation.py:25-26 | a token `A-B` gives the decimal A.B |
| Temptation.TemptationOneDashTwo | python/temptation.py:24-26 | `1-2` gives 1.2 |
| Temptation.TemptationRaisesIff | python/temptation.py:25-26 | conversion raises exactly for tokens with two or more dashes |
| Temptation.FilePoint | python/temptation.py:18-39 | a file is skipped exactly when its name does not match; an exception is `ValueError`; a point holds T and the final percentage |
| Temptation.FilePointRaisesIff | python/temptation.py:19-26 | a file raises exactly when its name matches with a two-dash token |
| Temptation.Collect | python/temptation.py:17-39 | a completed run adds a point for or skips every file, recording a skipped file by its basename; an exception is `ValueError` |
| Temptation.CollectPrefix | python/temptation.py:17-39 | the run over i + 1 files is the run over i files followed by the outcome of file i |
| Temptation.RaisedPersists | python/temptation.py:26 | an exception among the first n files ends the whole run with it |
| Temptation.CollectRaisesIff | python/temptation.py:17-39 | the run raises exactly when some file's name matches with a two-dash token |
| Temptation.Unmatched | python/temptation.py:17-22 | the basenames of the files whose name does not match, in order; with the matching files, they count all files |
| Temptation.SkippedAreUnmatched | python/temptation.py:17-22 | in a completed run the skipped names are exactly the basenames of the non-matching files, in discovery order |
| Temptation.CollectOnePointPerMatchedFile | python/temptation.py:17-39 | in a completed run the k-th point comes from the k-th file whose name matches, and the skipped names are exactly the basenames of the other files, in order |
| Temptation.CollectLists | python/temptation.py:14-39 | the script's loop raises as the run does, and otherwise `Ts` and `final_coop` are the columns of the collected points |
| Temptation.PointLeTotalOrder | python/temptation.py:42 | the `(T, pct)` tuple order (NaN first) is total, transitive and antisymmetric |
| Temptation.InsertPoint | python/temptation.py:42 | inserting into a sorted list keeps it sorted and adds one pair |
| Temptation.InsertPointPermutes | python/temptation.py:42 | inserting adds exactly the one pair and loses none (multiset) |
| Temptation.SortPoints | python/temptation.py:42 | `sorted` gives a list in tuple order that is a permutation of the pairs |
| Temptation.SortedPermutationUnique | python/temptation.py:42 | two sorted arrangements of the same pairs are equal, so the result is the one `sorted` returns |
| Temptation.Unzip | python/temptation.py:43 | `zip(*pairs)` into two names raises `ValueError` exactly for no pairs, and otherwise gives the two columns |
| Temptation.Zip | python/temptation.py:42-43 | `zip(Ts, final_coop)` pairs the k-th temptation with the k-th percentage, one pair per position (ZipUnzip is its inverse) |
| Temptation.ZipUnzip | python/temptation.py:42-43 | zipping the unzipped columns gives the pairs back |
| Temptation.UnzipSorted | python/temptation.py:42-43 | the columns of sorted pairs have non-decreasing temptations |
| Temptation.PlottedRaisesIff | python/temptation.py:17-43 | the plot gets `ValueError` exactly when some matching name has a two-dash token or no name matches |
| Temptation.Plotted | python/temptation.py:17-43 | the plot's columns, when it gets them, are non-empty and of equal length, and its only exception is `ValueError` |
| Temptation.PlottedSorted | python/temptation.py:17-43 | otherwise it gets one point per matching file, in tuple order, with temptations non-decreasing |

## Left out

- All matplotlib charting, figure layout and `plt.show()`: presentation only.
- `glob.glob`: its result order depends on the file system. The model takes the file list, in discovery order, as a parameter.
- Opening files and `pd.read_csv` internals. They become the `DataFile`/`Csv` parameter:
  - type conversion;
  - `comment="#"` handling;
  - a `KeyError` or parse error for a missing `step` or `strategy` column;
  - the `dtype` argument of `plot_cooperates.py`.
- The print statements of the skip warnings. The skipped paths are returned instead.
- Floating point. Percentages, means and parsed numbers are exact reals, so rounding (for example in `1.2` or `100 * 2/3`) is not modelled.
- Unicode digits. `\d` and `[0-9]` are taken as ASCII digits, and `\s` as the characters `str.isspace()` accepts.
- Windows path separators. Paths use `/` only, as POSIX `os.path.join` and `os.path.basename` do.
- Plots.PathOf: joins relative names only. `os.path.join` returns an absolute second argument unchanged, and the model does not; the six configured names of `plots.py` are all relative.
- Universal-newline translation in `readline`. The text is assumed already decoded.
- How NaN orders inside the tuples `sorted` compares in `temptation.py`. The model puts a missing percentage first, whereas Python's order with NaN depends on the input.
- The tie order of pandas' unstable `sort_values` in `clusters-coopFinal.py`.
- The simulation that writes `cooperatorClusters`. The value is taken as given per row.
- Clusters.ClustersScript: `clusters.py` reads a fixed file. The model takes its parsed frame as a parameter, so a missing file is not modelled.
- CoopFinal.FinalClusters: the cluster value is an integer, and pandas' conversion of the column to float is not modelled.
