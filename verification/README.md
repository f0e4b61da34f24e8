# Outlier scoring and change selection, modelled in Dafny

This project models the computational core of `lib/outliers.py`.

`get_stats` scores a table. Every row is joined with the mean, sample standard
deviation, skewness and kurtosis of its group's measure values, and gets the
z-score `(value - mean) / std`. Every row with an undefined (NaN) field is then
dropped.

`filtered_sparkline` selects reportable changes. It takes the change detector's
candidate rows for one measure and the per-entity monthly rate series. It keeps
the candidates whose initial level is strictly above the batch's 0.8 quantile.
It drops entities whose rate series has a spike, that is, a maximum not strictly
below `mean + 1.96 * std`. It keeps the first row of each entity. It sorts by
proportional change, largest first, and keeps ten. Each reported change gets its
calendar month: the earliest month of the rate data advanced by the 1-based
change index minus one.

Values are exact reals. Pandas' NaN is `None` of an `Option`. An exception the
code raises is `Failure` of a `Result`.

Modules:
- `Wrappers`: `Option` and `Result`.
- `RealArith`: small facts of real arithmetic.
- `Seqs`: boolean-mask filtering, column projection and the subsequence relation.
- `Stats`: sum, mean, maximum, sample variance and standard deviation, plus Samuelson's inequality.
- `Quantiles`: the linear-interpolation quantile pandas uses by default (Hyndman–Fan type 7).
- `Sorting`: descending sort and head, `sort_values(ascending=False).head(n)`.
- `Months`: calendar months and month offsets.
- `GroupStats`: `get_stats`.
- `Selection`: the selection chain of `filtered_sparkline`.

The square root, skewness and kurtosis are estimators that pandas supplies. They
are parameters (`GroupStats.Estimators`), and the lemmas assume only what
`GroupStats.Faithful` states:
- `sqrt` returns the non-negative square root;
- skewness is defined from three values on;
- kurtosis is defined from four values on.

The quantile at `lib/outliers.py:161` is the library's default definition, not
the repository's code. It is modelled as that definition on an ascending copy of
the values.

Some behaviours of the code are easy to misread; the model follows the code:
- **Spike test and short series.** One might expect the series 1, 1, 1, 1, 50
  to be excluded as a spike. The test at lines 165-166 keeps it.
  - By Samuelson's inequality, no value of a series of n values lies more than
    `(n - 1) / sqrt(n)` sample standard deviations from the mean.
  - For n ≤ 5 that is at most 1.79 < 1.96. So every non-constant series of two
    to five values passes (`Selection.ShortSeriesPasses`,
    `Selection.FiveMonthSeriesPass`).
  - A constant series always fails: its maximum equals its mean and its standard
    deviation is zero (`Selection.ConstantSeriesFails`).
  - A series passes only when the maximum is *strictly* below the bound. Equality
    excludes.
- **Entities without rate data.** Line 167 masks the candidates with a boolean
  series indexed by the entities of the rate data. Pandas raises when a
  candidate's entity is missing from that index. The model returns
  `Failure(UnalignableMask)` instead of dropping the row.
- **Order of ties.** The sort at line 172 uses pandas' default sort, which is
  not stable. The model's insertion sort keeps tied rows in input order. No
  stated property depends on that order: every descending order of the same
  rows reports the same proportional changes (`Sorting.TieOrderIrrelevant`).
- **Kurtosis needs four values.** Not only single-value groups are dropped.
  Kurtosis is undefined below four values, so `get_stats` drops every row of a
  group with fewer than four defined values
  (`GroupStats.KeptExactly`).

## Model

| member | source | states |
|---|---|---|
| GroupStats.GroupValues | lib/outliers.py:114 | there are no more grouped values than rows, and every defined value of a row of `g` is among them |
| GroupStats.GroupValuesExactly | lib/outliers.py:114 | the values grouped for `g` are exactly the measure column of the rows of `g` with a defined value, in row order and with repeats |
| GroupStats.GroupValuesOnlyGroup | lib/outliers.py:114 | every value grouped for `g` is the defined value of some row of `g` |
| GroupStats.MomentsOf | lib/outliers.py:114-116 | the group mean is defined exactly when the group has a value, the sample standard deviation exactly when it has two |
| GroupStats.ZScore | lib/outliers.py:119 | the z-score is defined exactly when the value, mean and standard deviation are defined and the deviation is non-zero (0/0 is NaN) |
| GroupStats.Score | lib/outliers.py:117-121 | a row that survives `dropna` is the input row unchanged, joined with its group's fields |
| GroupStats.ScoreRows | lib/outliers.py:117-121 | every output row comes from the input and carries exactly the fields `Score` attaches to it |
| GroupStats.GetStats | lib/outliers.py:110-122 | at most as many rows come out as go in, and each is an input row with its own group's moments and z-score |
| GroupStats.ScoreRowsKeepsOrder | lib/outliers.py:117-121 | the rows that come out are exactly the input rows that pass `dropna`, in input order |
| GroupStats.GetStatsKeepsOrder | lib/outliers.py:110-122 | `get_stats` only removes rows: its output rows are the kept input rows in order, a subsequence of the input |
| GroupStats.KeptExactly | lib/outliers.py:114-121 | a row survives if and only if its value and other columns are defined and its group holds at least four values that are not all equal |
| GroupStats.ScoredFields | lib/outliers.py:117-119 | a kept row carries its own group's mean, a positive deviation whose square is the group's sample variance, and a z-score with `z * std == value - mean` |
| GroupStats.ZeroStdAtMean | lib/outliers.py:119 | in a group with zero standard deviation every value equals the mean, so the z-score is 0/0 and never infinite |
| GroupStats.SingleObservationGroup | lib/outliers.py:114-121 | a group with one value has that value as its mean and undefined deviation, skewness and kurtosis, and its rows are dropped |
| Stats.Variance | lib/outliers.py:114 | the sample variance is non-negative |
| Stats.Max | lib/outliers.py:165 | the series maximum is one of the values and no value exceeds it |
| Stats.StdDev | lib/outliers.py:114 | the sample standard deviation is non-negative and squares to the sample variance |
| Stats.VarianceZeroIffConstant | lib/outliers.py:114 | the sample variance is zero if and only if all values are equal |
| Stats.StdDevZeroIffConstant | lib/outliers.py:119 | the standard deviation is zero if and only if all values are equal |
| Stats.ConstantIsMean | lib/outliers.py:114 | every value of a constant series is its mean |
| Stats.MaxAtLeastMean | lib/outliers.py:165-166 | the maximum of a series is at least its mean |
| Stats.SumSqDev | lib/outliers.py:114 | the sum of squared deviations from any centre expands into the sum of squares, the sum and the count |
| Stats.CauchySchwarz | lib/outliers.py:165-166 | the square of a sum is at most the count times the sum of squares |
| Stats.Samuelson | lib/outliers.py:165-166 | `n * (x - mean)^2` is at most `n - 1` times the sum of squared deviations, for every value `x` |
| Stats.DeviationBound | lib/outliers.py:165-166 | every value's squared deviation from the mean is at most `(n - 1)^2 / n` sample variances |
| Quantiles.SortAscending | lib/outliers.py:161 | the quantile's sorted copy is ascending and a permutation of the values |
| Quantiles.AscendingUnique | lib/outliers.py:161 | two ascending orders of the same values are equal, so the sorted copy is unique |
| Quantiles.LowerRank | lib/outliers.py:161 | the lower order statistic is the floor of `(n - 1) * p`, a valid index |
| Quantiles.InterpolateBetween | lib/outliers.py:161 | interpolating between two order statistics stays between them |
| Quantiles.Quantile | lib/outliers.py:161 | the quantile is defined exactly when there is a value |
| Quantiles.SortedQuantileBracketed | lib/outliers.py:161 | the quantile lies between the order statistic at the lower rank and the next, and between the smallest and the largest value |
| Quantiles.QuantileWithinRange | lib/outliers.py:161 | some value lies at or below the quantile and some value at or above it |
| Quantiles.QuantilePermutation | lib/outliers.py:161 | the quantile does not depend on the order of the rows |
| Quantiles.AboveQuantileCount | lib/outliers.py:161-162 | at most `n - 1 - floor(0.8 (n - 1))` values lie strictly above the quantile |
| Quantiles.QuantileOfFiveLevels | lib/outliers.py:161 | the levels 10, 20, 30, 90 and 95 have 0.8 quantile 91 |
| Seqs.Filter | lib/outliers.py:162 | boolean-mask filtering keeps every row that passes and only rows that pass |
| Seqs.FilterPositions | lib/outliers.py:162 | the positions a mask keeps are exactly the positions whose row passes, in increasing order |
| Seqs.FilterIsSubsequence | lib/outliers.py:162 | a masked table is a subsequence of the table |
| Seqs.SubsequenceTransitive | lib/outliers.py:162-170 | deleting rows in two stages is deleting rows once |
| Seqs.FilterCountPermutation | lib/outliers.py:161-162 | how many rows pass a mask depends only on which rows there are, not on their order |
| Seqs.FilterMapCount | lib/outliers.py:161-162 | masking a table by a condition on one column keeps as many rows as masking the column itself |
| Sorting.Insert | lib/outliers.py:172 | inserting into a descending table keeps it descending and adds exactly the one row |
| Sorting.SortDesc | lib/outliers.py:172 | the sort is descending by the key and a permutation of its input |
| Sorting.HeadAndTail | lib/outliers.py:172 | the head of a descending table is descending and no row of the tail has a larger key than a row of the head |
| Sorting.TopN | lib/outliers.py:172 | `head(n)` of the descending sort has `min(n, rows)` rows, descending, all from the input, and no left-out row has a larger key than a kept one |
| Sorting.SortedPermutationsEqual | lib/outliers.py:172 | two descending orders of the same keys are equal |
| Sorting.SameKeyColumn | lib/outliers.py:172 | two descending orders of the same rows have the same key column |
| Sorting.TieOrderIrrelevant | lib/outliers.py:172 | whatever order an unstable sort gives ties, the head reports the same key values |
| Months.FromOrdinal | lib/outliers.py:190-192 | the month built from a month count has that count |
| Months.OrdinalInjective | lib/outliers.py:190-192 | two months are equal if and only if their month counts are |
| Months.FromOrdinalOrdinal | lib/outliers.py:190-192 | counting months and rebuilding the month gives the month back |
| Months.AddMonths | lib/outliers.py:192 | adding `k` months moves the month count by exactly `k` |
| Months.AddMonthsFields | lib/outliers.py:192 | an offset month's index wraps modulo 12 and each wrap carries one year |
| Months.AddMonthsWithinYear | lib/outliers.py:192 | an offset that stays inside the year changes only the month |
| Months.AddMonthsCompose | lib/outliers.py:192 | month offsets compose by adding their counts |
| Months.AddMonthsInverse | lib/outliers.py:192 | the opposite offset undoes an offset |
| Months.AddMonthsMonotone | lib/outliers.py:192 | offsets preserve the order of months in both directions |
| Months.ChangeMonth | lib/outliers.py:190-192 | the change month lies `tfirst - 1` months after the earliest month |
| Months.ChangeMonthFirstIndex | lib/outliers.py:190-192 | change index 1 is the earliest month itself |
| Months.ChangeMonthStep | lib/outliers.py:190-192 | consecutive change indices give consecutive months |
| Months.ChangeMonthMarch2020 | lib/outliers.py:190-192 | index 3 from January 2020 is March 2020 |
| Months.ChangeMonthYearCarry | lib/outliers.py:190-192 | index 3 from November 2019 is January 2020 |
| Selection.ForMeasure | lib/outliers.py:158 | every row selected for the measure is a candidate row of that measure, and every candidate row of that measure is selected |
| Selection.ForMeasureExactly | lib/outliers.py:158 | the measure's rows are, in order, exactly the candidate rows of that measure, row by row: the kept positions are exactly those of the measure, so a repeated row is kept as often as it occurs |
| Selection.LevelThreshold | lib/outliers.py:161 | the threshold is defined exactly when the measure has candidates |
| Selection.StartsHigh | lib/outliers.py:161-162 | stage 1 never adds rows |
| Selection.StartsHighExactly | lib/outliers.py:161-162 | stage 1 keeps, in order, exactly the candidates strictly above the 0.8 quantile, row by row: the kept positions are exactly those above it, so a repeated row survives as often as it occurs; one at the quantile is dropped |
| Selection.StartsHighCount | lib/outliers.py:161-162 | stage 1 keeps at most `n - 1 - floor(0.8 (n - 1))` of `n` candidates |
| Selection.StartsHighFiveLevels | lib/outliers.py:161-162 | with initial levels 10, 20, 30, 90 and 95 only the candidate at 95 starts high |
| Selection.Rates | lib/outliers.py:165 | an entity's series is exactly the rate column of its rows with a defined rate, in row order and with repeats |
| Selection.RatesOnlyEntity | lib/outliers.py:165 | every rate in an entity's series is the defined rate of one of that entity's rows |
| Selection.DropSpikes | lib/outliers.py:165-167 | stage 2 fails, with an unalignable mask, exactly when some candidate's entity has no rate data |
| Selection.DropSpikesExactly | lib/outliers.py:165-167 | a successful stage 2 keeps, in order, exactly the candidates whose series passes the spike test, row by row: the kept positions are exactly the passing ones, so a repeated row survives as often as it occurs; series of fewer than two rates never pass |
| Selection.SpikeFreeSquared | lib/outliers.py:165-166 | the spike test holds if and only if the series has two values and `(max - mean)^2 < 1.96^2` sample variances |
| Selection.ConstantSeriesFails | lib/outliers.py:165-166 | a constant series fails the strict spike test |
| Selection.ShortSeriesPasses | lib/outliers.py:165-166 | every non-constant series of two to five values passes the spike test |
| Selection.FiveMonthSeriesPass | lib/outliers.py:165-166 | the series 1, 1, 1, 1, 50 and 1, 2, 3, 8, 9 both pass |
| Selection.SixMonthSpikeFails | lib/outliers.py:165-166 | the series 0, 0, 0, 0, 0, 1 fails: its last value lies `5 / sqrt(6)` deviations above the mean |
| Selection.Dedup | lib/outliers.py:170 | dropping duplicates never adds rows |
| Selection.DedupPositions | lib/outliers.py:170 | the rows kept are, in order, exactly those whose entity has not occurred earlier |
| Selection.DedupIsSubsequence | lib/outliers.py:170 | dropping duplicates deletes rows and keeps the order of the rest |
| Selection.DedupDistinct | lib/outliers.py:170 | no two kept rows share an entity |
| Selection.DedupMember | lib/outliers.py:170 | every kept row is an input row |
| Selection.DedupCovers | lib/outliers.py:170 | an entity has a kept row if and only if it has an input row |
| Selection.DistinctSubMultiset | lib/outliers.py:170-172 | rows drawn from a table with distinct entities have distinct entities |
| Selection.Top | lib/outliers.py:172 | at most ten rows are reported |
| Selection.TopProperties | lib/outliers.py:172 | from rows with distinct entities, the head keeps `min(10, rows)` rows with distinct entities, largest change first, and no left-out row has a larger change than a kept one |
| Selection.EarliestMonth | lib/outliers.py:189 | the earliest month is defined exactly when there is rate data, is one of its months and precedes all of them |
| Selection.Selected | lib/outliers.py:158-172 | the selection fails for a missing measure exactly when the measure has no candidates, fails for an unalignable mask exactly when a candidate that starts high has no rate data, and otherwise yields at most ten rows |
| Selection.FilteredSparkline | lib/outliers.py:158-193 | the report fails in exactly the cases the selection does and otherwise lists at most ten changes |
| Selection.StagesKeepOrder | lib/outliers.py:158-170 | the rows reaching the sort are a subsequence of the candidate table |
| Selection.UniqueMember | lib/outliers.py:158-170 | a row after deduplication is a candidate of the measure that starts high and whose series has no spike |
| Selection.SelectedMembers | lib/outliers.py:158-172 | every reported row is a deduplicated candidate of the measure that starts high and has no spike |
| Selection.SelectedProperties | lib/outliers.py:158-172 | the report has `min(10, rows)` rows of distinct entities, largest change first, and no unreported deduplicated row has a larger change than a reported one |
| Selection.SelectedNeedsData | lib/outliers.py:165-172 | a non-empty report implies the rate data is non-empty |
| Selection.ReportsOf | lib/outliers.py:189-193 | reporting keeps the order, entities and changes, and puts each change `tfirst - 1` months after the earliest month |
| Selection.FilteredSparklineReports | lib/outliers.py:158-193 | a successful report lists the selected entities in order with their changes and change months, largest change first, each entity once |

## Left out

- Plotting and HTML (`lib/outliers.py:26-108`, `124-150`, `173`, `195-203`) are presentation only.
- The entity hyperlinks (`lib/outliers.py:176-186`) and `get_entity_names` (`lib/outliers.py:206-217`) are presentation or a remote query.
- The pandas and matplotlib configuration (`lib/outliers.py:9-23`) is ambient process state.
- Reading the CSV cache, parsing dates, computing the rate from numerator and denominator, and sorting by month (`lib/outliers.py:153-156`) are I/O. The model takes the rate series as given, with `None` for an undefined rate. A zero denominator gives plus or minus infinity, or NaN when the numerator is also zero. The NaN is the model's `None`; the infinity is floating-point behaviour and not modelled.
- Floating-point rounding, infinities and NaN propagation are not modelled. Values are exact reals and NaN is `None`.
- GroupStats.MomentsOf: skewness and kurtosis are estimator parameters. Their formulas and pandas' bias conventions are library internals. Only when they are defined is modelled.
- Stats.StdDev: the square root is a parameter assumed to return the non-negative root. Its rounding is not modelled.
- Quantiles.Quantile: pandas' default quantile definition is library behaviour. It is written out as that definition, not taken from the repository's code.
- Sorting.TopN: pandas' default sort is not stable, so the code does not fix the order among rows with equal proportional change. The model keeps such rows in input order. When a tie straddles the tenth place, the entity the model reports can differ from the one the code reports. Only properties that hold for every tie order are stated.
- Months.AddMonths: works at month granularity. Pandas' `DateOffset` also clips the day of month, which the first-of-month observation dates never need.
- The `apply` at `lib/outliers.py:190-193` on an empty table, and the earliest month of empty rate data (NaT), give an empty report.
- GroupStats.GetStats: assumes the table's row index is unique and has the group key as a level. The join at `lib/outliers.py:117` and the subtraction at `lib/outliers.py:119` align on that index. If the group key were an ordinary column, every row would get NaN moments and `dropna` would remove them all. If the index repeated keys in arbitrary order, pandas' join could reorder rows. The model keeps input order.
- Selection.Candidate: the row index of `df.loc[measure]` is modelled as a measure field and an entity code on each candidate. Pandas' index alignment is reduced to matching entity codes. A NaN initial level or proportional change is not modelled. The change index `tFirst` is an integer. A NaN or fractional `is.tfirst.big` makes `pd.DateOffset(months=...)` at `lib/outliers.py:192` raise, and that error path is not modelled.
- The notebooks and the external change detector that produces the candidate rows are not part of this model.
