# CleanSweep cleaning engine in Dafny

This project models the data-cleaning core of CleanSweep-Agent, a Streamlit app
that loads a CSV file into a pandas DataFrame, scores its health, profiles its
columns, flags outliers and cleans it. The model covers five pieces:

- the auto-cleaner `apply_cleaning_suggestions`. It runs four fixed stages and
  keeps a change log:
  1. drop duplicate rows;
  2. drop columns with more than half of their cells missing;
  3. fill the remaining missing cells with the mean or the mode;
  4. rename the columns to snake case.
- the outlier detector `detect_outliers`. It flags a numeric column holding a
  present value with |z| > 3.
- the health scorer `calculate_data_health`. It reports the missing percentage,
  the duplicate percentage, the outlier count and a score out of 100.
- the manual cleaning panel's "Apply Fixes" handler, written as a function of the
  table and the panel's options.
- the profiler `profile_dataset`.

A table is column-major: `Tables.Table(cols, height)`. Each column is
`Tables.Column(name, numeric, cells)`, and a cell is `Option<Value>`, where
`None` is pandas' NaN. Numbers are exact reals. A statistic that pandas reports
as NaN because it was taken over no values is `None` as well.

Modules, in dependency order:

- `Values`: cells.
- `Seqs`: masks, selection, `duplicated`, first occurrences and modes.
- `Tables`: the table, null counts, present values and rows.
- `Stats`: sum, mean, population variance and the z-score test. The test is
  written as (x - mean)^2 > 9 * variance, so it needs no square root.
- `ColumnNames`: `strip().lower().replace(" ", "_")`.
- `Outliers`: the outlier detector.
- `Health`: the health scorer.
- `AutoClean`: the auto-cleaner.
- `ManualClean`: the manual panel.
- `Profiler`: the profiler.

Three behaviours of the code that a reader might not expect, each proved:

- **Health of a table without rows.** `missing_pct.mean()` and
  `duplicated().mean()` are NaN, and Python's `max(0, nan)` returns 0. So two of
  the three terms are 0, the outlier term is 100, and the score is 100/3
  (`Health.EmptyTableScore`).
- **Mode fill of an all-missing column.** `mode().iloc[0]` raises on a column
  without a present value. In the auto-cleaner this cannot happen: stage 2 has
  already dropped any such column from a table with rows
  (`AutoClean.SparseLeavesFillValues`). So `AutoClean.FillStage` requires a
  present value in every non-numeric column that has a missing cell.
- **Running the auto-cleaner twice.** The auto-cleaner is not idempotent. When
  the cleaned names are distinct, a second run does only stage 1
  (`AutoClean.SecondRunOnlyDeduplicates`), and stage 1 can still remove rows.
  Filling with the mean can make two rows equal: the column `[x, missing]`
  becomes `[x, x]` (`AutoClean.SampleFirstRun`). The next run then removes one
  row and logs it (`AutoClean.SampleSecondRunTable`,
  `AutoClean.SampleSecondRunLog`). Stage 1 keeps the header, so that second run
  drops no column.

## Model

| member | source | states |
|---|---|---|
| Tables.NullCount | helpers/profiler.py:6 | The missing-cell count is at most the column length. It is 0 exactly when every cell is present, and equals the length exactly when every cell is missing. |
| Seqs.DuplicatedFlagsRepeats | app.py:39 | `duplicated()` flags exactly the rows equal to some earlier row. |
| Tables.Present | helpers/cleaning_suggestions.py:16 | `dropna()` keeps the present values: their number plus the null count is the length, and a value is kept exactly when some cell holds it. |
| Tables.PresentInOrder | helpers/cleaning_suggestions.py:16 | `dropna()` keeps each present cell's value once and in order: entry k is the value of the k-th present cell. |
| Tables.NumbersInOrder | helpers/cleaning_suggestions.py:15-16 | The numbers of a column are kept once each and in order: entry k is the k-th number. |
| Seqs.NoDuplicatesIffNoneFlagged | app.py:39 | `duplicated()` flags no row exactly when no row repeats. |
| Seqs.FirstOccurrences | helpers/cleaning_suggestions.py:58 | `drop_duplicates()` keeps the first occurrence of every row, in order, and drops exactly as many rows as `duplicated()` flags. |
| Seqs.FirstOccurrencesAreDistinct | helpers/cleaning_suggestions.py:58 | No row repeats after duplicates are dropped. |
| Seqs.FirstOccurrencesSameElements | helpers/cleaning_suggestions.py:58 | Dropping duplicates loses no distinct row. |
| Seqs.MostFrequent | helpers/cleaning_suggestions.py:79 | The mode is a value of the column, and no value occurs more often than it. |
| Stats.Mean | helpers/cleaning_suggestions.py:76 | pandas' `mean()` is NaN exactly when the column has no number. |
| Stats.MeanTimesCount | helpers/cleaning_suggestions.py:76 | The mean of n numbers is the value whose n-fold is their sum. |
| Stats.PopVariance | helpers/cleaning_suggestions.py:16 | The population variance `zscore` divides by (`ddof=0`) is never negative. |
| Stats.DeviationWithinVariance | helpers/cleaning_suggestions.py:16 | No value's squared distance from the mean exceeds n times the population variance. |
| Stats.OutlierCount | helpers/cleaning_suggestions.py:16-17 | The outlier count is positive exactly when some value is more than 3 population standard deviations from the mean. |
| Stats.OutlierNeedsSpread | helpers/cleaning_suggestions.py:16-17 | A value with \|z\| > 3 differs from the mean, and its column has a positive variance and at least ten numbers. |
| Stats.FewValuesHaveNoOutlier | helpers/cleaning_suggestions.py:16-18 | A column with at most nine present numbers has no value with \|z\| > 3. |
| Stats.ConstantHasNoOutlier | helpers/cleaning_suggestions.py:16-18 | A constant column has zero variance and no outlier, so scipy's 0/0 flags nothing. |
| Stats.MeanBetween | helpers/cleaning_suggestions.py:76 | The fill mean lies between any lower and upper bound of the column's numbers. |
| ColumnNames.Lower | helpers/cleaning_suggestions.py:84 | `lower()` keeps the length and lower-cases each character on its own. |
| ColumnNames.LowerLeavesNoUpper | helpers/cleaning_suggestions.py:84 | After `lower()` no upper-case letter is left, and lower-casing again changes nothing. |
| ColumnNames.ReplaceSpaces | helpers/cleaning_suggestions.py:84 | `replace(" ", "_")` keeps the length, turns each space into `_` and keeps every other character. |
| ColumnNames.ReplaceSpacesLeavesNoSpace | helpers/cleaning_suggestions.py:84 | After the replacement no space is left, and replacing again changes nothing. |
| ColumnNames.SnakeCaseIsSnakeCase | helpers/cleaning_suggestions.py:84 | A renamed name has no surrounding whitespace, no upper-case letter and no space. |
| ColumnNames.SnakeCaseFixedPoint | helpers/cleaning_suggestions.py:84 | A name is left unchanged by the renaming exactly when it is already in that normal form. |
| ColumnNames.SnakeCaseIdempotent | helpers/cleaning_suggestions.py:84 | Renaming twice gives the same name as renaming once. |
| ColumnNames.TrimStartRemovesSpaces | helpers/cleaning_suggestions.py:84 | `strip()` removes only whitespace from the front. |
| ColumnNames.TrimEndRemovesSpaces | helpers/cleaning_suggestions.py:84 | `strip()` removes only whitespace from the back. |
| ColumnNames.Strip | helpers/cleaning_suggestions.py:84 | `strip()` never lengthens a name, and leaves no whitespace at either end. |
| ColumnNames.SnakeCase | helpers/cleaning_suggestions.py:84 | The renaming never lengthens a name; its normal form is stated by `ColumnNames.SnakeCaseIsSnakeCase`. |
| Outliers.DetectOutliers | helpers/cleaning_suggestions.py:13-20 | Every key is the name of a numeric column. Every numeric column with a present value at \|z\| > 3 is a key. |
| Outliers.KeyIffOutlier | helpers/cleaning_suggestions.py:15-19 | With unique names, a column is a key exactly when it is numeric and one of its present numbers has \|z\| > 3. |
| Outliers.ConstantColumnIsNotKey | helpers/cleaning_suggestions.py:15-19 | A column whose numbers are all equal is never reported. |
| Outliers.SmallColumnIsNotKey | helpers/cleaning_suggestions.py:15-19 | A column with at most nine present numbers is never reported. |
| Health.Percent | app.py:38-39 | A count out of a positive total, times 100, is in [0, 100] and is 0 exactly when the count is. |
| Health.PercentValue | app.py:38-39 | That percentage is `100 * count / total`. |
| Health.ColumnMissingPct | app.py:38 | A column's `isnull().mean() * 100` is in [0, 100], is 0 exactly when no cell is missing, and is 100 times its null count over the row count. |
| Health.SumMissingPctValue | app.py:38 | The columns' missing percentages add up to 100 times all their nulls over the row count. |
| Health.MissingPct | app.py:38 | The mean missing percentage is NaN exactly when the table has no rows or no columns. Otherwise it is in [0, 100], and it is 0 exactly when no cell is missing. |
| Health.MissingPctValue | app.py:38 | For a table with rows and columns, the mean missing percentage is 100 times the missing cells over all cells (rows × columns). |
| Health.DuplicatePct | app.py:39 | The duplicate percentage is NaN exactly when the table has no rows or no columns. Otherwise it is in [0, 100], and it is 0 exactly when no row repeats. |
| Health.DuplicatePctValue | app.py:39 | For a table with rows and columns, the duplicate percentage is the percentage of rows that `drop_duplicates()` removes: with `kept` rows left, it is `Percent(height - kept, height)`. |
| Health.DuplicatePctOfKept | app.py:39 | If the rows `duplicated()` does not flag number `kept`, the duplicate percentage is `Percent(height - kept, height)`. |
| Health.PctTerm | app.py:48-49 | `max(0, 100 - p)` is never negative. For a percentage p it is at most 100, and it is 100 exactly when p is 0. When p is NaN it is 0. |
| Health.HealthOutlierCount | app.py:41-46 | The outlier count is at most rows × columns. It is 0 without rows or without numeric columns. |
| Health.ZScoreOutliers | app.py:43-44 | A numeric column with a missing cell has a NaN mean, so it contributes no outlier. A complete column contributes its number of values with \|z\| > 3. |
| Health.NumericOutliersPositive | app.py:43-44 | The summed count is positive exactly when some numeric column without missing cells holds a value with \|z\| > 3. |
| Health.HealthOutliersIff | app.py:41-46 | The outlier count is positive exactly when the table has rows and some complete numeric column holds a value with \|z\| > 3. |
| Health.CountedOutliersAreDetected | app.py:41-46 | Whenever the scorer counts an outlier, the detector reports some column. |
| Health.HealthOutliersAreDetected | app.py:41-46 | On a table without missing cells, the scorer counts an outlier exactly when the detector reports a column. |
| Health.OutlierTerm | app.py:50 | The third term is in [0, 100]. It is 100 without rows, and otherwise exactly when there is no outlier. |
| Health.CalculateDataHealth | app.py:37-52 | The score lies in [0, 100]. |
| Health.PerfectScoreIff | app.py:37-52 | A table with rows and columns scores 100 exactly when it has no missing cell, no repeated row and no outlier. |
| Health.EmptyTableScore | app.py:37-52 | A table without rows has NaN percentages and an outlier term of 100, so its score is 100/3. |
| AutoClean.DropDuplicatesKeepsFirst | helpers/cleaning_suggestions.py:57-59 | Stage 1 keeps the first occurrences of the rows, in order. No kept row repeats. The number of rows removed is the number `duplicated()` flags. |
| AutoClean.DropDuplicatesRemovesFlagged | helpers/cleaning_suggestions.py:57-59 | `drop_duplicates()` keeps every row but the ones `duplicated()` flags: kept plus flagged is the row count. |
| AutoClean.DropDuplicatesOfDistinct | helpers/cleaning_suggestions.py:58 | A table without repeated rows is left unchanged by stage 1. |
| AutoClean.DropDuplicatesIdempotent | helpers/cleaning_suggestions.py:58 | Dropping duplicates a second time changes nothing. |
| AutoClean.DropDuplicates | helpers/cleaning_suggestions.py:58 | `drop_duplicates()` keeps the table well formed and its header, never adds a row, and returns a table without columns unchanged. |
| AutoClean.DedupStage | helpers/cleaning_suggestions.py:56-61 | Stage 1 produces the deduplicated table and logs the rows it removed. |
| AutoClean.RemovalLog | helpers/cleaning_suggestions.py:60-61 | The stage 1 log has an entry exactly when rows were removed, and the entry reports before minus after. |
| AutoClean.DedupLoggedIff | helpers/cleaning_suggestions.py:56-61 | Stage 1 logs exactly when the table has columns and a repeated row. The count it logs is the number of rows `duplicated()` flags. |
| AutoClean.DropSparseColumns | helpers/cleaning_suggestions.py:64-66 | Stage 2 keeps, in order, exactly the columns in which at least half of the cells are present. |
| AutoClean.SparseColumnDropped | helpers/cleaning_suggestions.py:65-66 | A column is dropped exactly when more than half of its cells are missing. |
| AutoClean.SparseLeavesFillValues | helpers/cleaning_suggestions.py:66-79 | After stage 2, every column with a missing cell still has a present value, so `mode().iloc[0]` cannot fail. |
| AutoClean.SparseLoggedIff | helpers/cleaning_suggestions.py:64-69 | Stage 2 logs exactly when some name is gone, and the entry carries the set of names that are gone. When no column is dropped, nothing is logged. |
| AutoClean.DroppedNamesExact | helpers/cleaning_suggestions.py:67 | With unique names, the logged set is exactly the names of the columns that have more missing cells than half the rows. |
| AutoClean.SparseStage | helpers/cleaning_suggestions.py:63-69 | Stage 2 produces the table without its sparse columns and logs at most one entry, from stage 2. |
| AutoClean.FillValue | helpers/cleaning_suggestions.py:75-79 | A numeric column fills with the mean of its numbers, or with NaN when it has none. Any other column fills with a present value that no other value outnumbers. |
| AutoClean.FillMissing | helpers/cleaning_suggestions.py:76 | `fillna(v)` replaces exactly the missing cells with `v` and keeps present cells. A non-NaN `v` leaves nothing missing. |
| AutoClean.FillColumn | helpers/cleaning_suggestions.py:72-80 | Stage 3 keeps a column's name, kind, length and present cells. Every missing cell of a column that has one takes the column's fill value (`AutoClean.FillValue`). A column with a present value loses all its missing cells, and a column without missing cells is untouched. |
| AutoClean.FillLog | helpers/cleaning_suggestions.py:72-80 | The stage 3 log has one entry per column with missing cells, all from stage 3. |
| AutoClean.FillLogEntries | helpers/cleaning_suggestions.py:73-80 | Entry k of the stage 3 log names the k-th column with missing cells, its strategy and its missing count. |
| AutoClean.FillStage | helpers/cleaning_suggestions.py:71-80 | Stage 3 keeps the row and column counts, changes each column only as a fill may (names, kinds and present cells stay; a column with a present value is completed; a complete column is untouched), and logs one entry per column with missing cells. |
| AutoClean.FillStageValue | helpers/cleaning_suggestions.py:72-80 | After stage 3, each cell that was missing holds its column's fill value: the mean for a numeric column, a mode otherwise. |
| AutoClean.FillStageKeepsShape | helpers/cleaning_suggestions.py:72-80 | Stage 3 keeps the table well formed and keeps the header. |
| AutoClean.FillStageCompletes | helpers/cleaning_suggestions.py:72-80 | When every column that needs a fill value has a present value, stage 3 leaves no missing cell. |
| AutoClean.RenameColumns | helpers/cleaning_suggestions.py:83-87 | Stage 4 keeps the cells and kinds, and gives each column the normal form of its name. |
| AutoClean.RenameGivesSnakeCase | helpers/cleaning_suggestions.py:84-87 | After stage 4 every name is in normal form. |
| AutoClean.RenameLoggedIff | helpers/cleaning_suggestions.py:85-86 | Stage 4 logs exactly when the list of names changes, which happens exactly when some name is not yet in normal form. |
| AutoClean.RenameKeepsNormalTable | helpers/cleaning_suggestions.py:83-87 | A table whose names are all in normal form is left unchanged by stage 4. |
| AutoClean.RenameStage | helpers/cleaning_suggestions.py:82-87 | Stage 4 produces the renamed table and logs at most one rename entry, from stage 4. |
| AutoClean.ApplyCleaningSuggestions | helpers/cleaning_suggestions.py:52-89 | The cleaned table is well formed and has no more rows or columns than the input. |
| AutoClean.CleanedHasNoMissing | helpers/cleaning_suggestions.py:52-89 | The auto-cleaned table has no missing cell. |
| AutoClean.CleanedNamesAreSnakeCase | helpers/cleaning_suggestions.py:52-89 | Every name in the auto-cleaned table is in normal form. |
| AutoClean.CleanedLogInStageOrder | helpers/cleaning_suggestions.py:52-89 | The change log lists the stages' entries in stage order. |
| AutoClean.LaterStagesKeepCleanTable | helpers/cleaning_suggestions.py:63-87 | On a table with no missing cell and every name in normal form, stages 2-4 change nothing and log nothing. |
| AutoClean.CleanTableOnlyDeduplicates | helpers/cleaning_suggestions.py:52-89 | On such a table the whole pipeline is stage 1, both table and log. |
| AutoClean.SecondRunOnlyDeduplicates | helpers/cleaning_suggestions.py:52-89 | When the cleaned names are distinct, running on an auto-cleaned table only drops duplicate rows. It logs exactly when that table has a repeated row. |
| AutoClean.SampleFirstRun | helpers/cleaning_suggestions.py:52-89 | The column `[x, missing]` is cleaned into `[x, x]`. |
| AutoClean.SampleFilledRepeats | helpers/cleaning_suggestions.py:57-59 | In `[x, x]` the second row is flagged as a duplicate, and one row is kept. |
| AutoClean.SampleSecondRunTable | helpers/cleaning_suggestions.py:52-89 | A second run on `[x, x]` leaves one row. |
| AutoClean.SampleSecondRunLog | helpers/cleaning_suggestions.py:56-61 | A second run on `[x, x]` logs one removed duplicate row. |
| ManualClean.DropColumns | app.py:94-95 | `drop(columns=...)` keeps, in order, exactly the columns whose names were not picked. |
| ManualClean.DropColumnsNames | app.py:94-95 | After the drop, the names are the table's names minus the picked ones. |
| ManualClean.DropColumnsCount | app.py:94-95 | The kept columns and the columns carrying a picked name together number the original columns. |
| ManualClean.RenameWith | app.py:96 | `rename(columns=m)` keeps cells, kinds and order. A name that is a key of `m` takes its value, and any other name stays. |
| ManualClean.RenameIgnoresOtherKeys | app.py:88-96 | A map key that names no column has no effect. |
| ManualClean.RenameIdentity | app.py:88-96 | Name boxes left at the columns' own names change nothing. |
| ManualClean.RenameNames | app.py:96 | After renaming, the names are the old names passed through the map. |
| ManualClean.FillZeroCompletes | app.py:98-99 | "Fill with 0" leaves no missing cell, and every missing cell becomes 0. |
| ManualClean.FillZeroTable | app.py:98-99 | "Fill with 0" keeps the shape and every present cell, and fills each column with 0. |
| ManualClean.MeanFillColumn | app.py:100-101 | "Fill with mean" changes only numeric columns, keeps present cells, and fills every gap of a column that has a number. |
| ManualClean.FillMeanOnlyNumericGaps | app.py:100-101 | Across the table, "Fill with mean" changes only missing cells of numeric columns, and fills them all when the column has a number. |
| ManualClean.FillMeanValue | app.py:100-101 | The value put into a missing numeric cell is the mean of that column's numbers. |
| ManualClean.FillMeanTable | app.py:100-101 | "Fill with mean" keeps the shape and every present cell, and fills each column by its own mean. |
| ManualClean.ModeFillColumn | app.py:102-105 | A column with a present value loses its missing cells. An all-missing column is untouched. |
| ManualClean.FillModeEffect | app.py:102-105 | "Fill with mode" does nothing when the mode frame is empty. Otherwise every column with a present value is completed, and all-missing columns stay. |
| ManualClean.FillModeValue | app.py:102-105 | A cell filled by "Fill with mode" holds a value of its column that no other value outnumbers. |
| ManualClean.FillModeTable | app.py:102-105 | "Fill with mode" keeps the shape and every present cell. |
| ManualClean.FillNulls | app.py:98-105 | Every null strategy keeps names, kinds, lengths and present cells, and keeps the table well formed. |
| ManualClean.ApplyManualCleaning | app.py:90-105 | The result is well formed and has no more rows or columns than the input. |
| ManualClean.ManualDefaultsKeepTable | app.py:85-105 | With the panel at its defaults (no dedup, no column picked, names unchanged, nulls left alone), the table comes back unchanged. |
| ManualClean.ManualNames | app.py:90-105 | The result's names are the names not picked for dropping, each passed through the rename map. |
| ManualClean.ManualHeight | app.py:92-93 | Without dedup the row count stays. With dedup, exactly the rows `duplicated()` flags are removed. |
| ManualClean.ManualFillZeroCompletes | app.py:90-105 | With "Fill with 0" the result has no missing cell. |
| ManualClean.ManualIgnoresDroppedKeys | app.py:88-96 | The name typed for a column that is also picked for dropping has no effect. |
| Profiler.ProfileColumn | helpers/profiler.py:5-13 | A profile row carries the column's name and kind. Its null and unique counts together are at most the column length. Nulls are 0 exactly when no cell is missing, and the unique count is 0 exactly when every cell is missing. |
| Profiler.NullsCountMissingPositions | helpers/profiler.py:6 | The null count is the number of positions holding a missing cell. |
| Profiler.UniqueCountsDistinctPresent | helpers/profiler.py:7 | The unique count is the number of distinct present values. |
| Profiler.ProfileColumnCounts | helpers/profiler.py:6-7 | Both counts of a profile row, in terms of the column's cells. |
| Profiler.ProfileDataset | helpers/profiler.py:1-15 | One profile row per column, in column order and under the column's name. |
| Profiler.ProfileRowBounds | helpers/profiler.py:4-13 | In a well-formed table, nulls plus unique values are at most the row count. A column has as many nulls as rows exactly when it has no unique value. |
| Profiler.CleanedProfileHasNoNulls | helpers/profiler.py:6 | After the auto-cleaner, every profile row reports 0 nulls. |

## Left out

- Streamlit UI, CSV reading, session state and display: I/O, not cleaning logic. The manual handler is a function of the table and the chosen options.
- LLM calls (`get_cleaning_suggestions`, overview, action plan): foreign services. Only `detect_outliers`, which `get_cleaning_suggestions` calls, is modelled; the appended text is not.
- IEEE floating point: numbers are exact reals, so rounding in means, variances and percentages is not modelled.
- dtype inference: each column carries a numeric flag instead of a pandas dtype. The profiler's `Type` text is reduced to that flag, and booleans are not treated as numbers.
- Log message text: log entries are a datatype carrying the facts each message reports. The dropped-column names are a set, because the message joins a Python set in unspecified order.
- Outliers.DetectOutliers: the message for each key depends only on the column name and is not modelled.
- Stats.Mean: its own contract states only when it is NaN. Its value is stated by `Stats.MeanTimesCount` and bounded by `Stats.MeanBetween`.
- Stats.PopVariance: its contract states only that it is never negative. `Stats.DeviationWithinVariance` bounds each squared deviation by it, and `Stats.ConstantHasNoOutlier` shows a constant column has variance 0. The converse, that variance 0 forces every value to equal the mean, is not proved.
- Seqs.MostFrequent: pandas' `mode()` sorts tied modes and `iloc[0]` takes the smallest. The model only promises some value that no other value outnumbers.
- ColumnNames.Lower: `str.lower()` is modelled for ASCII letters only. Other characters are kept.
- AutoClean.FillStage: requires a present value in every non-numeric column that has a missing cell, where the code would raise. Inside the pipeline this always holds.
- ManualClean.ApplyManualCleaning: requires every picked column to be a name of the table. The panel only offers the table's columns, and pandas raises on an unknown one.
- ManualClean.ManualNames: the names are stated as a set. Two columns renamed to the same name, and pandas' behaviour on such duplicate labels in later fills, are not modelled.
- Health.ZScoreOutliers: a numeric column with a missing cell is taken to contribute no outlier (NaN propagation through scipy's `zscore`). The exact NaN comparisons are not modelled further.
- Outliers.KeyIffOutlier: requires unique column names, which a CSV header gives. With repeated names, the keys still come only from numeric columns that have an outlier (`Outliers.DetectOutliers`).
- AutoClean.ApplyCleaningSuggestions: a column name that occurs twice makes `cleaned_df[col]` a frame in stage 3, and `if nulls > 0` then raises ValueError. That error path is not modelled; the model fills each such column on its own.
- AutoClean.SecondRunOnlyDeduplicates: requires the first run's names to be distinct. Stage 4 can give two columns one name (`Age` and `age`), and the second run would then raise in stage 3.
