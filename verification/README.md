# lifelines estimation core in Dafny

This project models the nonparametric estimation engine of
`lifelines/estimation.py`, the early lifelines survival-analysis library:

- **`_additive_estimate`**: the risk-set recursion shared by the Nelson-Aalen
  and Kaplan-Meier fitters. It walks a risk-set table in time order and keeps:
  - the risk-set size `N`;
  - a running estimate `v`;
  - a running variance `v_sq`;
  - a cursor `t_0`.

  At each row it writes `v`/`v_sq` into the timeline points of `[t_0, t)`.
  It then removes the censored subjects from `N`, adds `f(N, d)` and
  `g(N, d)`, and removes the deaths. Finally, every point at or after the last
  row time receives the final values. The model is the imperative method
  `Additive.AdditiveEstimate`. It writes into two arrays with loop invariants
  and is proved against the step-function specification `Additive.ValueAt`.
- **The increment and variance functions**:
  - the smooth and discrete Nelson-Aalen pairs, chosen by the constructor's
    `nelson_aalen_smoothing` flag;
  - the Kaplan-Meier log step factor `log(1 - d/N)` and the Greenwood term
    `d / (N (N - d))`.
- **The two fitters**, as classes whose `Fit` stores the results in their
  fields:
  - `NelsonAalenFitter` stores the cumulative hazard;
  - `KaplanMeierFitter` stores the survival function `exp(log-survival)` and
    its median.

  In the source, the variance table `cumulative_sq_` is a local of `fit`
  (lines 59 and 132), used only to compute `confidence_interval_`. The model
  keeps it in a `cumulativeSq` field, as a stand-in for
  `confidence_interval_`, which is left out.
- **`qth_survival_times` / `median_survival_times`**: the first point where a
  curve is below `q`, or the sentinel `-1`.

The risk-set table is the input `seq<Row>`. It is produced by
`dataframe_from_events_censorship` (`lifelines/utils`), which is not part of
this model. Its output contract is the predicate `RiskSets.WellFormed`:
- non-negative counts;
- `removed == deaths + missing` on every row;
- strictly increasing times.

How the model represents the source's values:
- Floats are modelled as `real`.
- The Kaplan-Meier log-survival is a `LogValue`: the list of the arguments of
  its logarithms. Their sum is kept exactly, `log 0` included, and `Exp` is
  their product.
- The Kaplan-Meier variance is an `ExtReal`. The Greenwood term divides by
  zero when a non-empty risk set dies out, and numpy then yields `+inf`.
  Because this happens whenever the last subject dies, the model keeps that
  case instead of excluding it by a precondition.
- Where the source raises an error, the model returns a status or a `Result`:
  - `EmptyTimeline`: indexing an empty timeline;
  - `EmptyTable`: reading the unbound loop variable `t` after a loop over an
    empty table;
  - `QOutOfRange`: the quantile assertion;
  - `NoPoints`: a lookup on a table without rows.

Where the code and the usual description of the estimators differ, the model
follows the code:
- **Censorings at a death time.** Lines 188-189 remove the censored subjects
  of a row from `N` before the increment is taken. The usual convention
  counts them as still at risk at that time. On the example `CensoredTie` the
  difference shows. Its times are 1, 2, 2, 3, and the second subject at time
  2 is censored. The code gives N = 2 at time 2, not 3. The proved values are
  therefore:
  - Kaplan-Meier S(2) = 3/8 rather than 1/2 (`KaplanMeier.CensoredTieSurvival`);
  - Nelson-Aalen H(2) = 1/4 + 1/2 rather than 1/4 + 1/3
    (`NelsonAalen.CensoredTieHazard`).
- **Smooth and discrete Nelson-Aalen without ties.** The two increments
  coincide exactly when a time has at most one death. The two variances do
  not coincide: for one death they are 1/N^2 and (N - 1)/N^3
  (`NelsonAalen.VariancesCompare`).

## Model

| member | source | states |
|---|---|---|
| RiskSets.SumRemoved | lifelines/estimation.py:176 | the initial N, the sum of the `removed` column, is never negative on a well-formed table |
| RiskSets.AtRiskBefore | lifelines/estimation.py:176-191 | the running N before row j: the initial N less the censorings and deaths of the earlier rows, never negative on a well-formed table |
| RiskSets.AtRiskAt | lifelines/estimation.py:188-189 | the N the increment sees at row j, after that row's censorings leave: on a well-formed table it covers the row's deaths, 0 <= d <= N |
| RiskSets.AtRiskIsRemaining | lifelines/estimation.py:176-191 | before row j, N equals the number of subjects the rows from j on will remove |
| RiskSets.RiskSetBookkeeping | lifelines/estimation.py:176-191 | N starts at the sum of `removed`. At row j it covers that row's removals and never goes negative. The censorings leave before the increment, so the increment sees 0 <= d <= N. The deaths leave after it, which gives the next row's N. |
| RiskSets.RiskSetEmptiesOut | lifelines/estimation.py:176-191 | once every row has been processed, N is 0 |
| RiskSets.CountUpToLocates | lifelines/estimation.py:184-194 | the number of rows at or before x is k exactly when t_{k-1} <= x < t_k (both directions, with open ends) |
| RiskSets.CountUpToMonotone | lifelines/estimation.py:184-194 | a later point never has fewer rows at or before it |
| RiskSets.Times | lifelines/estimation.py:55-56 | the default timeline has one point per row, the row's time |
| RiskSets.FitTimeline | lifelines/estimation.py:55-58 | the timeline a fit uses (the same branch is at lines 128-131): the given one, else one point per row, the row's time |
| RiskSets.CensoredTieWellFormed | lifelines/estimation.py:184-191 | the example table is well formed, and its risk sets at the three rows are 4, 2 and 1 |
| Additive.ExtendTimeline | lifelines/estimation.py:168-170 | one point more exactly when the first point is positive; the result then starts at 0, otherwise it is unchanged; it always ends with the given timeline |
| Additive.FillBetween | lifelines/estimation.py:185-187 | after the masked write, entry i is the value exactly when t_0 <= point i < t, and is unchanged otherwise |
| Additive.FillFrom | lifelines/estimation.py:193-194 | after the masked write, entry i is the value exactly when point i >= t, and is unchanged otherwise |
| Additive.AssignBetween | lifelines/estimation.py:185-187 | the in-place masked assignment leaves the array equal to FillBetween of its old contents |
| Additive.AssignFrom | lifelines/estimation.py:193-194 | the in-place masked assignment leaves the array equal to FillFrom of its old contents |
| Additive.WrittenStep | lifelines/estimation.py:184-192 | processing row j writes the running value of the first j rows into [t_0, t_j) and leaves every other point alone |
| Additive.WrittenFinal | lifelines/estimation.py:193-194 | after the final write, every point holds the step-function value: the total at or after the last row time, and the interval writes before it |
| Additive.WriteInterval | lifelines/estimation.py:185-187 | one row's write takes the array from its state after j rows to its state after j + 1 rows |
| Additive.WriteIntervals | lifelines/estimation.py:185-187 | the same for the estimate and the variance array together |
| Additive.WriteTail | lifelines/estimation.py:193-194 | the final write turns the array into the step function over the timeline |
| Additive.WriteTails | lifelines/estimation.py:193-194 | the same for both arrays |
| Additive.ZeroTables | lifelines/estimation.py:172-180 | two fresh, distinct arrays with one zero per timeline point, the state before any row |
| Additive.WalkRows | lifelines/estimation.py:176-192 | the loop returns the running estimate and variance accumulated over every row, and leaves both arrays as the interval writes made them |
| Additive.AdditiveEstimate | lifelines/estimation.py:162-195 | fails on an empty timeline, and on an empty table otherwise (both iff); on success it reports on the extended timeline, and each entry of both arrays is the running value of the rows at or before its point. The two arrays are always fresh and distinct, like the two DataFrames of line 195. |
| Additive.Accumulated | lifelines/estimation.py:182-191 | the running `v` (and `v_sq`) after k rows: the domain zero, then row j adds f(N, d) with the N of `RiskSets.AtRiskAt`; it carries no contract of its own, and the lemmas on `Additive.ValueAt` state its properties |
| Additive.ValueAt | lifelines/estimation.py:184-194 | the value reported at a timeline point: the running value after every row at or before it; it carries no contract of its own, and `Additive.StepFunction`, `Additive.FlatTail` and `Additive.BeforeFirstRow` state what it is |
| Additive.Cursor | lifelines/estimation.py:177-192 | the `t_0` of the loop after j rows: 0 at line 177, then the time of the last processed row (line 192); it carries no contract of its own, and `Additive.WalkRows`'s loop invariant ties the loop's cursor to it |
| Additive.StepFunction | lifelines/estimation.py:177-194 | a point with t_{k-1} <= x < t_k reports the running value of the first k rows |
| Additive.FlatTail | lifelines/estimation.py:193-194 | every point at or after the last row time reports the same, final value |
| Additive.BeforeFirstRow | lifelines/estimation.py:177-187 | points before the first row time, negative ones included, and every point on an empty table report the zero of the domain |
| NelsonAalen.SmoothIncrement | lifelines/estimation.py:85-88 | sum of 1/(N - i) for i < d, 0 when N = d = 0; non-negative, and zero exactly when d = 0 |
| NelsonAalen.SmoothVariance | lifelines/estimation.py:75-78 | sum of 1/(N - i)^2 for i < d, 0 when N = d = 0; non-negative, and zero exactly when d = 0 |
| NelsonAalen.DiscreteIncrement | lifelines/estimation.py:90-94 | d/N, 0 when N = d = 0: in [0, 1], 0 exactly when d = 0, 1 exactly when a non-empty risk set dies out, and r * N = d |
| NelsonAalen.DiscreteVariance | lifelines/estimation.py:80-83 | (N - d) d / N^3, 0 when N = d = 0: non-negative, and zero exactly when d = 0 or d = N |
| NelsonAalen.ReciprocalSumBound | lifelines/estimation.py:85-88 | the smoothed sum is at least d/N, and equal to it exactly when d <= 1 |
| NelsonAalen.SquaredReciprocalSumBound | lifelines/estimation.py:75-78 | the smoothed squared sum is at least d/N^2, and equal to it exactly when d <= 1 |
| NelsonAalen.IncrementsCompare | lifelines/estimation.py:75-94 | the smooth increment is at least the discrete one; they are equal exactly when d <= 1 |
| NelsonAalen.VariancesCompare | lifelines/estimation.py:75-94 | the smooth variance is at least the discrete one; they are equal exactly when d = 0 |
| NelsonAalen.FunctionsNonNegative | lifelines/estimation.py:75-94 | all four functions are defined and non-negative on every 0 <= d <= N |
| NelsonAalen.AccumulatedNonDecreasing | lifelines/estimation.py:184-191 | with non-negative increments the running sum starts at 0 and never decreases from row to row |
| NelsonAalen.CumulativeHazardNonDecreasing | lifelines/estimation.py:184-194 | the fitted cumulative hazard (and its variance) is non-negative and non-decreasing along the timeline |
| NelsonAalen.SmoothHazardDominates | lifelines/estimation.py:25-30 | the smoothed running hazard is at least the discrete one, and equal to it when no row has two deaths |
| NelsonAalen.NoDeathsAccumulatedZero | lifelines/estimation.py:182-191 | for a non-negative function that adds 0 at a row without deaths, the running sum stays 0 as long as no row has a death |
| NelsonAalen.NoDeathsNoHazard | lifelines/estimation.py:75-94 | on a table where every subject is censored, the cumulative hazard and its variance are 0 at every point, under both smoothing choices |
| NelsonAalen.FlagMattersOnlyForTies | lifelines/estimation.py:25-30 | without tied deaths, the smoothing flag does not change the fitted cumulative hazard at any point |
| NelsonAalen.CensoredTieHazard | lifelines/estimation.py:184-194 | on the censored-tie example the discrete hazard is 0, 1/4, 3/4 and 7/4 at 0.5, 1, 2 and 3.5 |
| NelsonAalen.NelsonAalenFitter.constructor | lifelines/estimation.py:22-30 | alpha defaults to 0.95 and the flag to true. The flag alone selects the pair: the smoothed increment and variance when it is set, the discrete pair otherwise. |
| NelsonAalen.NelsonAalenFitter.Fit | lifelines/estimation.py:32-65 | stores the table and the timeline (the given one, else the table's times; no timeline is the default). On success the hazard and variance arrays are fresh, distinct, and report the step function of the selected pair on the extended timeline. On failure the old results are kept. |
| KaplanMeier.LogIncrement | lifelines/estimation.py:141-144 | the increment log(1 - d/N), 0 when N = d = 0: a single logarithm whose exponential lies in [0, 1], is 1 exactly when d = 0 and 0 exactly when a non-empty risk set dies out, and times N gives N - d |
| KaplanMeier.StepFactor | lifelines/estimation.py:141-144 | 1 - d/N, 1 when N = d = 0: in [0, 1], 1 exactly when d = 0, 0 exactly when a non-empty risk set dies out, and r * N = N - d |
| KaplanMeier.VarianceIncrement | lifelines/estimation.py:156-159 | d / (N (N - d)), 0 when N = d = 0: infinite exactly when a non-empty risk set dies out; otherwise non-negative, zero exactly when d = 0, and r * N (N - d) = d |
| KaplanMeier.LogSurvivalFactors | lifelines/estimation.py:141-144 | the log-survival after k rows is the sum of the logs of the first k step factors, each in [0, 1] |
| KaplanMeier.LogSurvivalPrefix | lifelines/estimation.py:184-191 | the log-survival after k1 rows is a prefix of the one after k2 >= k1 |
| KaplanMeier.ProductLimit | lifelines/estimation.py:135-144 | exp of the running log-survival is the product-limit estimate: each row multiplies the survival by its factor 1 - d/N |
| KaplanMeier.ProductUnitInterval | lifelines/estimation.py:135 | a product of factors in [0, 1] lies in [0, 1] |
| KaplanMeier.ProductPrefix | lifelines/estimation.py:135 | more factors in [0, 1] never give a larger product |
| KaplanMeier.ProductZero | lifelines/estimation.py:135 | a product is 0 exactly when one of its factors is |
| KaplanMeier.SurvivalBounds | lifelines/estimation.py:135 | the survival after any number of rows lies in [0, 1] |
| KaplanMeier.SurvivalNonIncreasing | lifelines/estimation.py:135 | the survival never increases from one row to a later one |
| KaplanMeier.SurvivalAlongTimeline | lifelines/estimation.py:135 | at timeline points x <= y: 0 <= S(y) <= S(x) <= 1 |
| KaplanMeier.SurvivalStartsAtOne | lifelines/estimation.py:135 | before the first row time, and on an empty table, the survival is 1 |
| KaplanMeier.NoDeathsSurvivalOne | lifelines/estimation.py:141-144 | as long as no row has a death, the survival after k rows is 1 |
| KaplanMeier.NoDeathVariance | lifelines/estimation.py:156-159 | a row without deaths adds a finite 0 to the variance, whatever its risk set |
| KaplanMeier.NoDeathsVarianceZero | lifelines/estimation.py:156-159 | as long as no row has a death, the running variance is a finite 0 |
| KaplanMeier.NoDeathsFullSurvival | lifelines/estimation.py:132-135 | on a table where every subject is censored, the fitted survival is 1 and its variance 0 at every point |
| KaplanMeier.SurvivalZeroIffDiedOut | lifelines/estimation.py:141-144 | the survival after k rows is 0 exactly when one of them emptied a non-empty risk set |
| KaplanMeier.VarianceInfiniteIffDiedOut | lifelines/estimation.py:156-159 | the running variance after k rows is infinite exactly when one of them emptied a non-empty risk set |
| KaplanMeier.VarianceInfiniteWhereSurvivalZero | lifelines/estimation.py:135-159 | at every point the variance is infinite exactly where the survival is 0 |
| KaplanMeier.CensoredTieFactors | lifelines/estimation.py:141-144 | the step factors of the censored-tie example are 3/4, 1/2 and 0 |
| KaplanMeier.CensoredTieProducts | lifelines/estimation.py:135-144 | the survival after each row of the example is 3/4, 3/8 and 0 |
| KaplanMeier.CensoredTieSurvival | lifelines/estimation.py:131-135 | the fitted survival of the example is 1, 3/4, 3/8 and 0 at 0.5, 1, 2 and 3 |
| KaplanMeier.CensoredTieVariance | lifelines/estimation.py:156-159 | the fitted variance of the example is 1/12, 7/12 and infinite at 1, 2 and 3 |
| KaplanMeier.ExpAll | lifelines/estimation.py:135 | the elementwise exp of a log-survival table, one value per entry |
| KaplanMeier.SurvivalCurve | lifelines/estimation.py:135 | the `survival_function_` on a timeline, one entry per point; its own ensures give only the length, and `KaplanMeier.SurvivalCurveAt` gives the value at each point |
| KaplanMeier.SurvivalCurveAt | lifelines/estimation.py:135 | entry i of the survival curve is the exponentiated step function at point i |
| KaplanMeier.ReportedSurvival | lifelines/estimation.py:131-135 | exponentiating a finished log-survival table gives the survival curve on its timeline |
| KaplanMeier.SurvivalCurveNonIncreasing | lifelines/estimation.py:135 | on an ascending timeline the survival curve is non-increasing and lies in [0, 1] |
| KaplanMeier.MedianOfFittedCurve | lifelines/estimation.py:136 | the median of a fitted curve on an ascending timeline is -1 exactly when the survival never drops below 1/2; otherwise it is the first point from which on the survival stays below 1/2 |
| KaplanMeier.KaplanMeierEstimate | lifelines/estimation.py:131-136 | fails exactly as the additive estimator does. On success the survival is the fitted curve on the extended timeline, the median is the label of its first point below 1/2 (or -1), and the variance array reports the Greenwood step function. |
| KaplanMeier.KaplanMeierFitter.constructor | lifelines/estimation.py:98-99 | stores alpha, 0.95 by default; nothing is fitted yet |
| KaplanMeier.KaplanMeierFitter.Fit | lifelines/estimation.py:101-139 | stores the table and the timeline (the given one, else the table's times; no timeline is the default). On success it stores the extended timeline, the fitted survival curve, its median and the variance array. On failure the old results are kept. |
| Quantiles.Below | lifelines/estimation.py:357 | the mask marks exactly the entries below q |
| Quantiles.ArgMax | lifelines/estimation.py:359-362 | the first true entry of the mask, or 0 when every entry is false |
| Quantiles.QthIndex | lifelines/estimation.py:357-363 | -1 exactly when the last value is not below q; otherwise the first position whose value is below q |
| Quantiles.QthIndices | lifelines/estimation.py:357-363 | the lookup applied to every column |
| Quantiles.QthSurvivalIndices | lifelines/estimation.py:348-364 | fails with QOutOfRange exactly when q is outside [0, 1], else with NoPoints on a table without points. Otherwise each column gets -1 or the first position below q. |
| Quantiles.Labels | lifelines/estimation.py:359-360 | each position becomes its label, and the sentinel stays -1 |
| Quantiles.QthSurvivalTimes | lifelines/estimation.py:348-364 | on a labelled table each column gets -1 when its last value is not below q, or else the label of its first point below q |
| Quantiles.MedianSurvivalIndices | lifelines/estimation.py:366-367 | the q = 1/2 lookup on positions, which fails only on a table without points: each column gets -1 exactly when its last value is not below 1/2, otherwise the first position below 1/2 |
| Quantiles.MedianSurvivalTimes | lifelines/estimation.py:366-367 | the q = 1/2 lookup on labels, which fails only on a table without points: each column gets -1 when its last value is not below 1/2, or else the label of its first point below 1/2 |
| Quantiles.SingleCurveMedian | lifelines/estimation.py:366-367 | the median of a single curve is the label of its q = 1/2 position |
| Quantiles.NonIncreasingLookup | lifelines/estimation.py:348-364 | on a non-increasing curve, -1 means the curve never drops below q, and a found position k is exactly where it is below q from then on |

## Left out

- `AalenAdditiveFitter` (lines 198-343): its fit, its predictions, `smoothed_hazards_` and `_compute_confidence_intervals` are floating-point linear algebra (matrix inverses and a `LinAlgError` catch) with no exact real counterpart.
- `gaussian` and `ipcw` (lines 369-373): a kernel in `exp` and `sqrt`, and an empty stub.
- `_bounds` of both fitters (lines 67-73, 146-154) and `self.confidence_interval_`: they need `sqrt`, `exp`, `log` and `inv_normal_cdf`, and `lifelines/utils` is not part of this model. The model's `cumulativeSq` field holds the variance table these bounds are computed from (a local of `fit` in the source), in place of `confidence_interval_`.
- `plot_dataframes` and `self.plot`: plotting.
- `dataframe_from_events_censorship`: it is not part of this model, so the censorship defaulting and copying in both `fit` methods is left out too. The fitters take the risk-set table it returns, and its contract is `RiskSets.WellFormed`.
- The `alpha` argument of `fit`, which overrides the constructor's alpha for the bounds only: it has no effect on what is modelled.
- pandas plumbing: index labels, column names and the DataFrame results. Tables are positional arrays over a timeline `seq<real>`, and a survival table is held column by column.
- Floating-point rounding, NaN and the `astype(float)` cast: values are exact reals. `log` and `exp` are kept symbolically, as the product of the step factors.
- Quantiles.QthSurvivalTimes: a curve whose first point below q has the label -1.0 cannot be told apart from the sentinel. The model reproduces this ambiguity and does not resolve it.
- The bare `except` of `qth_survival_times`: the DataFrame branch (labels, `Quantiles.QthSurvivalTimes`) and the array branch (positions, `Quantiles.QthSurvivalIndices`) are two functions, and the fall-back from one to the other is not modelled. Both fail on a table without points, which the model reports as one `NoPoints` error.
- KaplanMeier.KaplanMeierFitter.Fit: it states the median as the label of the first point below 1/2 (`QthIndex`) rather than through `median_survival_times`. The two are proved equal by `Quantiles.SingleCurveMedian` and `KaplanMeier.MedianOfFittedCurve`.
