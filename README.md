# PLATO stock-data transforms in Dafny

This project models the table transforms of PLATO's data pipeline: the
cleaning, indicator and splitting steps of `src/data/process_data.py` and
the feature builder of `src/features/build_features.py`. It then proves what
those steps promise about the rows and columns they produce.

A pandas DataFrame is modelled as a `Frame.Table` value with three parts:

- the column names, in order;
- a map from each name to a `Column`;
- the row count.

A `Column` is a `seq<Option<real>>`, and `None` stands for NaN. An
assignment `data[name] = column` replaces a column in place, or appends a
new one as the last column. It is `Frame.WithColumn`, which returns the
updated table. A missing column raises a `KeyError`, and that becomes an
`Err(KeyError(name))` result.

The model has six modules:

- `Frame`: the table, the `Result` type and positional row selection.
  It also renders window sizes as the decimal text inside names like
  `ma_20` and `MA_5`.
- `Rows`: `dropna`, `drop_duplicates(subset='date', keep='first')` and
  `sort_values(by='date')`. The sort is a stable insertion sort over row
  positions.
- `Rolling`: the trailing-window arithmetic both source files share.
  - `rolling(window=w).mean()`, defined only where a full window has no
    missing cell (pandas' default `min_periods = w`).
  - `diff(1)` and the `where` gain/loss split.
  - The RSI formula `100 - 100 / (1 + gain / loss)`, evaluated the way
    IEEE arithmetic evaluates it:
    - a zero loss with a positive gain gives 100;
    - 0/0 gives NaN.
  - The sample standard deviation (ddof = 1) behind the Bollinger bands.
- `Fill`: `fillna(method='ffill')` followed by `fillna(method='bfill')`.
  Both are proved equal to "nearest defined cell above" and "nearest
  defined cell below".
- `ProcessData`: the steps of `process_data.py` (listed below).
- `BuildFeatures`: the steps of `build_features.py` (listed below).

`ProcessData` covers:

- `clean_data`;
- `add_moving_average` (`MA_w`);
- `add_rsi` (`RSI`);
- `normalize_features`, as an opaque scaler;
- `pad_missing_values`;
- `prepare_data`: sort by date and cut at `int(n * (1 - test_size))`.

`BuildFeatures` covers:

- `add_moving_averages`: the `for window in windows` loop, a method with a
  loop invariant;
- `add_rsi` (`rsi`);
- `add_bollinger_bands`;
- `build_features`: the 50-row guard, then the three steps.

Two behaviours of the code are worth knowing.

`prepare_data` scales the hard-coded list `open, high, low, close, volume,
MA_5, RSI` (`src/data/process_data.py:74`). So with `ma_window_size` other
than 5, it fails with `KeyError('MA_5')` unless the input already has a
`MA_5` column. The model keeps this: see `ProcessData.HasScalerInputs` and
`ProcessData.PrepareDataOutcome`.

`clean_data` drops duplicate dates after `dropna`. The row it keeps for a
date is therefore the first complete row with that date, not the first row
with that date.

## Model

| member | source | states |
|---|---|---|
| Frame.WithColumn | src/data/process_data.py:37 | `data[name] = c`: the column holds `c`; an existing name keeps its place and a new one is appended last; every other column and the row count are unchanged |
| Frame.Select | src/data/process_data.py:120-121 | positional `iloc` with a list of positions: row `m` of every column is row `idx[m]` of the input, names unchanged |
| Frame.Slice | src/data/process_data.py:120-121 | `iloc[lo:hi]`: every column is cut to rows `lo..hi-1`, names unchanged |
| Frame.NatToString | src/features/build_features.py:24 | the decimal text of a window size is never empty (its round trip is `Frame.DecimalRoundTrip`) |
| Frame.DecimalRoundTrip | src/features/build_features.py:24 | reading back the decimal text of `n` gives `n` |
| Frame.NatToStringInjective | src/features/build_features.py:24 | different window sizes give different decimal texts, so different column names |
| Rows.Filter | src/data/process_data.py:18-20 | the positions that pass a row test: increasing, in range, each passes, and none that passes is missed |
| Rows.FilterAll | src/data/process_data.py:18 | a test every row passes keeps every position |
| Rows.CompleteRows | src/data/process_data.py:18 | `dropna` keeps exactly the rows with no missing cell in any column, in order |
| Rows.FirstRows | src/data/process_data.py:20 | `drop_duplicates(keep='first')` keeps exactly the first occurrence of each value, in order |
| Rows.CompleteRowsOfComplete | src/data/process_data.py:18 | `dropna` on a table without missing cells keeps every row |
| Rows.FirstRowsOfDistinct | src/data/process_data.py:20 | `drop_duplicates` on distinct values keeps every row |
| Rows.DropMissing | src/data/process_data.py:18 | `dropna` keeps the column names and their order |
| Rows.DropDuplicates | src/data/process_data.py:20 | `drop_duplicates` keeps the column names and their order |
| Rows.SelectRange | src/data/process_data.py:18-20 | selecting every row in order gives the table back |
| Rows.SelectSelect | src/data/process_data.py:18-20 | `dropna` then `drop_duplicates` is one order-preserving selection of the input rows |
| Rows.IncreasingLength | src/data/process_data.py:18-20 | a selection never has more rows than its input |
| Rows.ComposeIncreasing | src/data/process_data.py:18-20 | a selection of an order-preserving selection preserves order |
| Rows.Insert | src/data/process_data.py:114 | one insertion step of the sort adds exactly the new position, keeping positions in range |
| Rows.InsertSorted | src/data/process_data.py:114 | an insertion step keeps the positions ordered by date, missing dates last |
| Rows.InsertDistinct | src/data/process_data.py:114 | an insertion step never repeats a position |
| Rows.SortedPositions | src/data/process_data.py:114 | the sort's row order is a permutation of `0..n-1` ordered by date |
| Rows.SortedStep | src/data/process_data.py:114 | inserting row `n-1` into a date-ordered permutation of `0..n-2` gives a date-ordered permutation of `0..n-1` |
| Rows.SortBy | src/data/process_data.py:114 | `sort_values(by='date')` keeps the names and the row count, and moves whole rows: row `m` of every column is input row `p[m]` for the one date-ordered permutation `p` of `Rows.SortedPositions` |
| Rows.PickInsert | src/data/process_data.py:114 | an insertion step adds exactly one copy of the inserted row's cell |
| Rows.PickSortedPositions | src/data/process_data.py:114 | the cells in sorted order are the original cells, each as often as before |
| Rows.SortByPermutes | src/data/process_data.py:114 | sorting rearranges rows: every column keeps the same multiset of cells |
| Rows.SortByStrictlyIncreasing | src/data/process_data.py:114 | with defined, distinct dates, the sorted `date` column is strictly increasing |
| Fill.ForwardFill | src/data/process_data.py:90-91 | `ffill` keeps the column length (its values: `Fill.ForwardFillIsLastDefined`) |
| Fill.BackFill | src/data/process_data.py:90-91 | `bfill` keeps the column length (its values: `Fill.BackFillIsNextDefined`) |
| Fill.Pad | src/data/process_data.py:90-91 | `ffill` then `bfill` keeps the column length (its values: `Fill.PadAt`) |
| Fill.ForwardFillIsLastDefined | src/data/process_data.py:90-91 | `ffill` puts at each row the nearest defined cell at or above it |
| Fill.BackFillIsNextDefined | src/data/process_data.py:90-91 | `bfill` puts at each row the nearest defined cell at or below it |
| Fill.PadAt | src/data/process_data.py:90-91 | after padding: a defined cell stays; a gap after a defined cell takes the nearest earlier one; a gap before every defined cell takes the first one; an all-missing column stays missing |
| Fill.PadFillsEverything | src/data/process_data.py:90-91 | a column with at least one defined cell has no gap after padding |
| Rolling.RollingMean | src/data/process_data.py:37 | `rolling(window=w).mean()` has one cell per row (its values: `Rolling.RollingMeanAt`) |
| Rolling.RollingMeanAt | src/data/process_data.py:37 | the mean at row `i` is defined iff a full window ends there with no missing cell, and then it is the window's sum over `w` |
| Rolling.RollingMeanOfComplete | src/features/build_features.py:23-24 | on a column without gaps, the mean is defined exactly from row `w-1`; a window longer than the column leaves it all missing |
| Rolling.MeanWithinBounds | src/data/process_data.py:37 | a trailing mean lies between any bounds of the prices |
| Rolling.SlidingMean | src/data/process_data.py:37 | each next mean is the previous one plus (new price - dropped price)/`w` |
| Rolling.MovingAverageOfEvenlySpaced | src/data/process_data.py:37 | for evenly spaced prices the mean is the midpoint of the window's first and last price |
| Rolling.EvenlySpacedSum | src/data/process_data.py:37 | the sum of evenly spaced values is their count times the mean of the ends |
| Rolling.Diff | src/data/process_data.py:53 | `diff(1)` has one cell per row (its values where the price rose: `Rolling.GainAt`, `Rolling.NoLossAt`) |
| Rolling.Gains | src/data/process_data.py:54 | `delta.where(delta > 0, 0)` is defined and non-negative everywhere; the NaN first delta becomes 0 |
| Rolling.Losses | src/data/process_data.py:55 | `-delta.where(delta < 0, 0)` is defined and non-negative everywhere |
| Rolling.GainLossSplit | src/data/process_data.py:53-55 | at most one of gain and loss is non-zero, and gain - loss is the change (0 where it is missing) |
| Rolling.MeanNonNegative | src/data/process_data.py:54-55 | the trailing means of gains and of losses are never negative |
| Rolling.RsiAlgebra | src/data/process_data.py:56-57 | with a positive loss, `100 - 100/(1 + gain/loss)` is `100·gain/(gain+loss)` |
| Rolling.Rsi | src/data/process_data.py:53-57 | the RSI column has one cell per row (its values: `Rolling.RsiAt`) |
| Rolling.RsiAt | src/data/process_data.py:53-57 | RSI at row `i` is defined iff a full window exists and gain + loss > 0; it is `100·gain/(gain+loss)`, so in [0, 100]; it is 100 when the loss is 0 and the gain is positive |
| Rolling.RsiCell | src/data/process_data.py:53-57 | any column equal to the RSI of `c` has, at each row, the facts of `Rolling.RsiAt` (collected in the predicate `RsiCellFacts`) |
| Rolling.RsiOfValues | src/data/process_data.py:53-57 | for defined mean gain `g` and loss `l`, the RSI is defined iff `g + l > 0`, equals `100·g/(g+l)` in [0, 100], and is 100 when `l = 0 < g` |
| Rolling.RsiOfRisingPrices | src/features/build_features.py:41-46 | on strictly rising prices, every RSI with a full window after the first row is 100 |
| Rolling.RisingLosses | src/features/build_features.py:43 | on strictly rising prices the mean loss of a full window is 0 |
| Rolling.RisingGains | src/features/build_features.py:42 | on strictly rising prices the mean gain of a full window after the first row is positive |
| Rolling.NoLossAt | src/features/build_features.py:41-43 | where the price rose (or at the first row) the loss is 0 |
| Rolling.GainAt | src/features/build_features.py:41-42 | where the price rose the gain is the price difference |
| Rolling.SampleVarianceFacts | src/features/build_features.py:62 | the sample variance is never negative and is 0 for a flat window |
| Rolling.RollingStd | src/features/build_features.py:62 | `rolling(window=w).std()` has one cell per row, and every defined cell is non-negative |
| Rolling.BandHigh | src/features/build_features.py:64 | `ma + std*2` has one cell per row (its values: `Rolling.BandsAt`) |
| Rolling.BandLow | src/features/build_features.py:65 | `ma - std*2` has one cell per row (its values: `Rolling.BandsAt`) |
| Rolling.BandsAt | src/features/build_features.py:61-65 | both bands are defined iff the std is, which needs a full gap-free window of at least 2 rows; then `bb_high - ma = ma - bb_low = 2·std`, so `bb_low <= bb_high` |
| ProcessData.MaKeyFacts | src/data/process_data.py:37 | `MA_w` never collides with `date`, `close` or `RSI`, and is `MA_5` exactly when `w = 5` |
| ProcessData.CleanData | src/data/process_data.py:18-20 | fails with `KeyError('date')` iff there is no `date` column; otherwise it keeps the names and the columns and never adds rows |
| ProcessData.CleanRows | src/data/process_data.py:18-20 | the rows `clean_data` keeps are increasing positions of input rows |
| ProcessData.CleanDataSelectsRows | src/data/process_data.py:18-20 | `clean_data` is an order-preserving selection of the input rows |
| ProcessData.CleanRowsSound | src/data/process_data.py:18-20 | a kept row has no missing cell, and no earlier complete row has its date |
| ProcessData.CleanRowsComplete | src/data/process_data.py:18-20 | every such row is kept |
| ProcessData.CleanDataKeepsFirstCompleteRows | src/data/process_data.py:18-20 | a row is kept iff it is complete and is the first complete row with its date |
| ProcessData.CleanDataComplete | src/data/process_data.py:18 | the output has no missing cell |
| ProcessData.CleanDataDistinctDates | src/data/process_data.py:20 | the output dates are pairwise distinct |
| ProcessData.CleanDataOfCleanTable | src/data/process_data.py:18-20 | a table with no gap and distinct dates is returned unchanged |
| ProcessData.CleanDataIdempotent | src/data/process_data.py:18-20 | cleaning twice is cleaning once |
| ProcessData.CleanDataExample | tests/unit/test_data.py:92-108 | of rows dated 1, 1, 2 with `close` 105, NaN, NaN, one row is kept, with `open` = 100 |
| ProcessData.CleanDataExampleRows | tests/unit/test_data.py:92-105 | in that table only the first row survives |
| ProcessData.CleanRowsSingle | src/data/process_data.py:18-20 | when one row is the only complete row, it is all that is kept |
| ProcessData.AddMovingAverage | src/data/process_data.py:37 | `KeyError('close')` iff `close` is absent; otherwise `MA_w` is written, and the rows and every other column are unchanged |
| ProcessData.AddMovingAverageColumn | src/data/process_data.py:37 | `MA_w` is missing before row `w-1`; from there it is defined iff the window has no gap, and then it is the mean of the last `w` closes |
| ProcessData.MovingAverageExample | tests/unit/test_data.py:110-116 | `close` = 1..5 with window 3 gives [NaN, NaN, 2, 3, 4] |
| ProcessData.AddRsi | src/data/process_data.py:53-57 | `KeyError('close')` iff `close` is absent; otherwise `RSI` is written, and the rows and every other column are unchanged |
| ProcessData.AddRsiColumn | src/data/process_data.py:53-57 | `RSI` is defined iff a full window has movement, is `100·gain/(gain+loss)` in [0, 100], and is 100 on zero loss with a positive gain |
| ProcessData.DateIsNotAFeature | src/data/process_data.py:74 | `date` is not among the scaled columns |
| ProcessData.Standardize | src/data/process_data.py:77 | a scaled column keeps its length and its missing positions |
| ProcessData.MissingKey | src/data/process_data.py:77 | finds a listed column that is absent iff one is, and what it finds is listed and absent |
| ProcessData.NormalizeFeatures | src/data/process_data.py:73-77 | `KeyError` for the first absent listed column, an error on zero rows, and otherwise the same names, rows and missing positions, with unlisted columns untouched |
| ProcessData.PadMissingValues | src/data/process_data.py:90-91 | `KeyError` iff `MA_w` or `RSI` is absent, naming `MA_w` when it is absent and `RSI` otherwise; on success `MA_w` and `RSI` are the forward-then-back fills of the input columns and every other column is unchanged |
| ProcessData.PadIsPaddedFrom | src/data/process_data.py:90-91 | padding keeps every defined cell, gives a gap below a defined cell the nearest defined cell above it, gives a leading gap the first defined cell, fills every gap when a defined cell exists, and leaves an all-missing column alone |
| ProcessData.PadMissingValuesPads | src/data/process_data.py:90-91 | both `MA_w` and `RSI` come out padded from what went in, forward fill taking precedence over back fill |
| ProcessData.SplitIndex | src/data/process_data.py:117 | `int(n * (1 - test_size))` is the floor: `k <= n(1 - test_size) < k + 1`, and `k <= n` |
| ProcessData.Split | src/data/process_data.py:120-121 | train has `split_idx` rows, train + test rows = n, both keep the names, and train ++ test is each input column |
| ProcessData.Preprocess | src/data/process_data.py:107-111 | on success: the row count of the `clean_data` output, its `date` column unchanged, exactly the input columns plus `MA_w` and `RSI`, and every column outside the scaled list, `MA_w` and `RSI` equal to the `clean_data` output's |
| ProcessData.PreprocessOutcome | src/data/process_data.py:107-111 | fails with `KeyError('date')`, then `KeyError('close')`, then a `KeyError` for a scaled column, then the empty-table error; succeeds iff all inputs are present and cleaning leaves a row |
| ProcessData.FeaturesPresent | src/data/process_data.py:74-77 | all scaled columns are present after the indicators iff the input has `open`, `high`, `low`, `volume`, and `MA_5` or window 5 |
| ProcessData.FeaturesOf | src/data/process_data.py:74 | no scaled column is missing iff all seven are present |
| ProcessData.SortAndSplit | src/data/process_data.py:114-121 | both halves keep the names; train has `split_idx` rows; train ++ test is, column by column, the table sorted by date, so each column keeps its cells with their multiplicities |
| ProcessData.SortAndSplitRows | src/data/process_data.py:114-121 | one date-ordered permutation `p` of the row positions gives row `m` of train ++ test as input row `p[m]` in every column, so whole rows move together |
| ProcessData.SortAndSplitChronological | src/data/process_data.py:114-121 | with defined, distinct dates, the dates of train ++ test are strictly increasing, so every train date precedes every test date |
| ProcessData.PrepareData | src/data/process_data.py:94-123 | clean, indicators, scale, pad, sort, split; on success the halves share their names and together have the `clean_data` row count (its errors: `ProcessData.PrepareDataOutcome`; its halves: `ProcessData.PrepareDataSplit`) |
| ProcessData.PrepareDataOutcome | src/data/process_data.py:107-123 | which inputs `prepare_data` accepts, and the error it raises for each of the others |
| ProcessData.PrepareDataSplit | src/data/process_data.py:107-123 | on success, train ++ test is, column by column, the preprocessed table sorted by date; train + test rows = the `clean_data` rows, train has `split_idx` rows, both carry `MA_w` and `RSI`, and the dates of train ++ test strictly increase |
| ProcessData.PrepareDataExample | tests/unit/test_data.py:147-168 | five gap-free rows dated 1..5 with test share 0.4 split into 3 and 2 rows, both with `MA_5` and `RSI` |
| ProcessData.DistinctDays | tests/unit/test_data.py:149 | the five dates are pairwise distinct |
| BuildFeatures.MaNames | src/features/build_features.py:23-24 | one `ma_w` name per window, in list order |
| BuildFeatures.MaNameFacts | src/features/build_features.py:24 | an `ma_w` name never collides with `close`, `rsi`, `bb_high` or `bb_low` |
| BuildFeatures.MaNameInjective | src/features/build_features.py:24 | different windows give different `ma_w` names |
| BuildFeatures.AppendNewFresh | src/features/build_features.py:23-24 | assigning names none of which exists appends them in order |
| BuildFeatures.AppendNewSnoc | src/features/build_features.py:24 | one more assignment appends its name unless the name exists |
| BuildFeatures.AppendNewConcat | src/features/build_features.py:90-92 | assigning one list of names and then another is assigning both in sequence |
| BuildFeatures.WithColumnAppends | src/features/build_features.py:24 | writing a column extends the name order as one more assignment |
| BuildFeatures.MovingAveragesStep | src/features/build_features.py:23-24 | one loop turn keeps the loop invariant for one more window |
| BuildFeatures.StepNames | src/features/build_features.py:23-24 | one loop turn extends the names, and the other columns stay untouched |
| BuildFeatures.StepColumns | src/features/build_features.py:23-24 | after one loop turn, every `ma_w` written so far holds the trailing mean of `close` for its window |
| BuildFeatures.WrittenNone | src/features/build_features.py:23 | before the first turn no window has been written and the table is the input |
| BuildFeatures.WrittenNext | src/features/build_features.py:23-24 | the turn for `windows[j]` extends what holds for the first `j` windows to the first `j + 1`, and `close` is still the input's |
| BuildFeatures.WrittenAll | src/features/build_features.py:23-25 | after the last turn the description covers the whole window list |
| BuildFeatures.AddMovingAverages | src/features/build_features.py:10-25 | `KeyError('close')` iff the window list is non-empty and `close` is absent; otherwise one `ma_w` column per window holding the trailing `w`-row mean of `close`, names appended in list order, and every other column and the rows unchanged |
| BuildFeatures.AddRsi | src/features/build_features.py:41-46 | `KeyError('close')` iff `close` is absent; otherwise `rsi` is written, and the rows and every other column are unchanged |
| BuildFeatures.AddRsiColumn | src/features/build_features.py:41-46 | `rsi` is defined iff a full window has movement, is then `100·gain/(gain+loss)` in [0, 100], and is 100 on zero loss with a positive gain |
| BuildFeatures.AddBollingerBands | src/features/build_features.py:61-65 | `KeyError('close')` iff `close` is absent; otherwise `bb_high` and `bb_low` are written in that order as `ma ± 2·std`, and every other column is unchanged |
| BuildFeatures.DefaultNames | src/features/build_features.py:10 | the default windows 5, 20, 50 give `ma_5`, `ma_20` and `ma_50` |
| BuildFeatures.AddIndicators | src/features/build_features.py:91-92 | `add_rsi` then `add_bollinger_bands` keep the rows |
| BuildFeatures.IndicatorsKeep | src/features/build_features.py:91-92 | those two steps leave every column other than `rsi`, `bb_high` and `bb_low` alone |
| BuildFeatures.IndicatorsNames | src/features/build_features.py:90-92 | the three steps give the input names followed by the six feature names, absent ones appended in order |
| BuildFeatures.IndicatorsKeys | src/features/build_features.py:90-92 | the columns are the input columns plus the six features; other columns are unchanged |
| BuildFeatures.IndicatorsColumns | src/features/build_features.py:90-92 | `close` is unchanged and each feature column holds its indicator of `close` |
| BuildFeatures.IndicatorsFeature | src/features/build_features.py:90-92 | the `j`-th feature column holds the `j`-th indicator of `close` |
| BuildFeatures.FeatureColumnsAt | src/features/build_features.py:90-92 | the first three feature names get the trailing means for windows 5, 20 and 50, then `rsi` the 14-row RSI, `bb_high` and `bb_low` the 20-row bands |
| BuildFeatures.CloseKept | src/features/build_features.py:23-24 | the moving averages leave `close` as it was |
| BuildFeatures.IndicatorsMovingAverage | src/features/build_features.py:90-92 | `ma_5`, `ma_20` and `ma_50` survive the later steps with their trailing means |
| BuildFeatures.IndicatorsOwn | src/features/build_features.py:91-92 | `rsi`, `bb_high` and `bb_low` hold RSI over 14 rows and the bands over 20 rows of `close` |
| BuildFeatures.BuildFeatures | src/features/build_features.py:82-92 | an error iff the row count is below 50 outside test mode (the length error) or `close` is absent (`KeyError`); otherwise the rows and `close` are kept, the six features are appended in order, and each holds its indicator |
| BuildFeatures.SteadyRiseMovingAverages | tests/unit/test_features.py:11-23 | for `close` = 10, 12, ..., 108, the last `ma_2` is 107 and the last `ma_4` is 105 |
| BuildFeatures.SteadyRiseRsi | tests/unit/test_features.py:25-32 | on that rising `close`, `rsi` is 100 from row 13 on (the first full 14-row window), so it is not all missing |
| BuildFeatures.BandsDefined | tests/unit/test_features.py:34-42 | on a gap-free `close`, both bands are defined from row `w-1` on, with `bb_low <= bb_high` |
| BuildFeatures.CloseOnlyNames | tests/integration/test_features.py:15-21 | a table of `close` alone ends up with `close` followed by the six feature names |
| BuildFeatures.BuildFeaturesOnShortTable | tests/integration/test_features.py:9-21 | ten rows of `close` in test mode: success, columns `close, ma_5, ma_20, ma_50, rsi, bb_high, bb_low`, and `ma_50` entirely missing |

## Left out

- `fetch_data.py`, `save_data.py`, `visualize.py` and the scripts are not part of this model. They do network, database, file and plotting I/O.
- Prices are exact reals, not IEEE doubles. Rounding is not modelled. The two non-finite cases the RSI formula reaches (a zero loss, and 0/0) are modelled explicitly.
- The square root in `rolling().std()` is the parameter `sqrt`, with only non-negativity assumed.
- `StandardScaler` is the parameter `z`. `normalize_features` is modelled only by its shape: the scaled column list, the `KeyError` for a missing column, the error on zero rows, and unchanged missing positions. Mean 0 and variance 1 are not stated.
- ProcessData.NormalizeFeatures: reports only the first absent column of the list. pandas names every absent column in one `KeyError`.
- The `RUNNING_TESTS` environment variable is the parameter `runningTests` of `BuildFeatures.BuildFeatures`.
- DataFrames are values. The source writes columns into the caller's DataFrame in place, and that aliasing is not modelled.
- pandas index labels are not modelled. `iloc` and the row operations work on positions.
- Dates are numeric cells, day numbers as reals, rather than calendar dates.
- `sort_values` uses an unstable quicksort. The model sorts stably, so rows with equal dates may come out in a different order. After `clean_data` all dates are distinct, so in `prepare_data` the two orders agree.
- Every window must be at least 1. pandas rejects negative windows, and a window of 0 is not modelled.
- `test_size` must lie in [0, 1]. The source does not check it and still cuts outside that range: `int()` truncates toward zero, so the index can be negative (from `test_size` ≥ 1 + 1/n on) or reach or pass the row count (`test_size` < 0), and `iloc` then silently returns halves that do not match `test_size`.
- ProcessData.PrepareDataExample: states the unit test for every table shaped like its input, not only for its literal values. It covers five gap-free rows dated 1 to 5 with the pipeline's columns.
- `prepare_data` runs `add_moving_average` and `add_rsi` from `process_data.py`, not `build_features`.
- `prepare_data` always scales the hard-coded column list rather than every numeric column.
