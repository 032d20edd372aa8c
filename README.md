# Projection-error pipeline, modelled in Dafny

This project models the analysis core of CBO's evaluation of its past
budget projections. Four tables go in:

- historical actuals;
- baseline projections;
- changes to projections, classed as legislative, economic or technical;
- GDP.

For one budgetary component (outlay, revenue, deficit or debt), the pipeline
works in four stages:

- **merge engine** (`src/merge.py`): picks the baselines the component is
  evaluated from, joins them with the actual outcome and the GDP of the year
  they project, and sums the legislative changes enacted after each
  baseline. For debt the changes are the deficit's changes, accumulated over
  the projection years of a baseline vintage with the sign reversed. The
  engine then drops Fannie Freddie and year-0 rows and sorts the table in the
  component's fixed presentation order.
- **error calculator** (`src/errors.py`): adjusts each projection by those
  legislative changes, computes the signed error against the actual (the
  sign is reversed for the deficit), and expresses it as a percent of GDP
  (deficit, debt) or of the actual (outlay, revenue).
- **summary aggregator** (`src/summary.py`): groups the errors by component,
  category, subcategory and projection year number, using only winter
  baselines for revenue. Each group reports:
  - the range of fiscal years it covers;
  - the count of defined errors;
  - the mean error;
  - the mean absolute error;
  - the root mean squared error (the model keeps its square, so that no
    square root is taken);
  - the spread between the 1/6 and 5/6 quantiles.
- **actuals scalers** (`src/scale.py`, `src/scale_actuals.py`): express
  actuals as a percentage of GDP.

Tables are sequences of row datatypes. A missing cell is `None`, whether it
comes from a left join without a partner or a division by a missing or zero
value. Amounts are `real`. Dates are day numbers. The legislative columns of
a row are a map from column name to value, so that `calc_errors`'
`legislative_<component>_change` look-up is modelled literally.

`tables.dfy` holds the shared rows and cell operations. `seqs.dfy` holds the
row filter and the distinct-keys helper. Then there is one module per stage:

- `merge.dfy`;
- `aggregate.dfy` for the legislative-change aggregation;
- `ordering.dfy` for `sort_data`;
- `errors.dfy`;
- `statistics.dfy` and `summary.dfy`;
- `scale.dfy` and `outlay_scale.dfy`.

`sort_data` is modelled as an in-place sort of an array of keyed rows. The
debt running totals are modelled as the loops that compute them into
arrays. The rest of the pipeline is pure table transformations and is
modelled as functions.

## Model

| member | source | states |
|---|---|---|
| Tables.GdpCells | src/merge.py:219-227 | A left join on the fiscal year gives each row one GDP cell per GDP row of that year: each value occurs as often as a GDP row of that year and value does. The single missing cell appears exactly when the year has no GDP, and never otherwise. |
| Tables.PercentOf | src/errors.py:47-54 | The percentage is defined exactly when the denominator is present and nonzero, and then percentage times denominator equals 100 times the numerator. |
| Seqs.Filter | src/merge.py:478 | A boolean row mask keeps exactly the rows that pass, with their multiplicity, in their original order. |
| Merge.GetRelevantBaselines | src/merge.py:125-137 | Keeps each baseline row (with its multiplicity) exactly when it is of the component and from the Winter release for revenue or the Spring release otherwise, in table order. |
| Merge.BaselineSeason | src/merge.py:125-130 | The Winter release is used exactly for revenue. The others use the Spring release. |
| Merge.MergeBaselinesActuals | src/merge.py:175-185 | A joined row exists exactly when its baseline is in the table and an actual of the same component, category, subcategory and projected fiscal year has its value. Baselines without an actual are dropped. |
| Merge.MergeBaselinesActualsCount | src/merge.py:175-181 | Each joined row occurs as many times as its baseline times its actual. |
| Merge.MergeOnGdp | src/merge.py:219-229 | Every baseline-actual row is kept. A GDP value attached to a row comes from that year's GDP row. A missing GDP means the year has none. Every matching GDP row yields a row. |
| Merge.MergeOnGdpCount | src/merge.py:219-225 | Each fact row occurs as many times as its baseline-actual row times the copies of its GDP cell: the GDP rows of its year and value, or exactly one missing cell when the year has no GDP and none when it has. |
| Merge.GetLegChanges | src/merge.py:271-286 | Only Legislative changes of the component are kept, with their multiplicity. For debt, exactly the Legislative deficit changes are kept, relabelled as debt. |
| Merge.DebtChangesAreDeficitChanges | src/merge.py:271-273 | The debt changes are the deficit changes, in the same order, relabelled as debt. |
| Merge.RightJoinChanges | src/merge.py:325-330 | Every change is kept. A row with a fact row pairs a fact row and a change of the same component, category, subcategory and projected fiscal year. A row without a fact row appears only for a change that no fact row matches. |
| Merge.RightJoinChangesCount | src/merge.py:325-330 | A matching fact row and change are paired once per copy of the change and per copy of the fact row. |
| Merge.MergeOnLegChanges | src/merge.py:325-339 | A joined row exists exactly when a fact row and a change agree on component, category, subcategory and projected fiscal year and the change was published strictly after the baseline. Changes without a fact row are dropped. |
| Merge.MergeOnLegChangesCount | src/merge.py:325-339 | Each kept row occurs as many times as its fact row times its change. A pair that does not match, or whose change does not post-date the baseline, does not occur. |
| Merge.MergeOnAggLegChanges | src/merge.py:447 | A merged row exists exactly when its fact row is present and an aggregated row with the fact's key carries its legislative columns. |
| Merge.MergeOnAggLegChangesCount | src/merge.py:447 | Each merged row occurs as many times as its fact row times its aggregated row. |
| Merge.FilterMergedData | src/merge.py:475-478 | Keeps each row, with its multiplicity and in order, exactly when it is not Fannie Freddie and its projection year number is not 0. |
| Merge.ParseComponent | src/merge.py:73 | Accepts exactly the four component names, and the result prints back as its name. |
| Merge.MergedFacts | src/merge.py:78-85 | Every row of `merge_data` before sorting is reported and has a fact row of the component. |
| Merge.MergedRowProvenance | src/merge.py:78-86 | Each merged row comes from a relevant baseline with a matching actual and is reported. Some joined row of its key pairs a baseline of that key with a legislative change published strictly after that baseline. Its legislative column is the sum of the joined changes of its key. For debt, the deficit column is minus that sum, and the cumulative column is minus every joined change of the same vintage up to its projection year. |
| Merge.MergedRowsComplete | src/merge.py:78-86 | Every reported fact row that has a legislative change enacted after its baseline appears in the merged table. |
| Merge.MergeData | src/merge.py:73-88 | Fails exactly on an unknown component name. Otherwise the result is sorted in the component's order and is a permutation of the merged rows. |
| LegAggregation.SumFor | src/merge.py:391-393 | A key that no joined row has sums to zero. |
| LegAggregation.GroupSum | src/merge.py:391-393 | One total per observed key of the joined rows, keys distinct, every groupable row's key present, each total the sum of that key's changes. |
| LegAggregation.GroupSumConservesTotal | src/merge.py:391-393 | The group totals add up to the sum of all groupable legislative changes. |
| LegAggregation.RunningDebtStep | src/merge.py:404-414 | The debt effect at projection year n is the effect at year n-1 plus the negated change of year n of that vintage. |
| LegAggregation.RunningDebtChange | src/merge.py:404-410 | Rows outside the vintage or after the projection year contribute nothing, so the change is zero when every row is outside. |
| LegAggregation.RunningDebtStartsAtZero | src/merge.py:404-410 | Before the first projection year of a vintage the debt effect is zero, whatever the rows of other vintages hold. |
| LegAggregation.RunningDebtOfGroupSum | src/merge.py:391-416 | The running total over the group sums equals minus the sum of the raw joined changes of the same vintage up to that projection year. |
| LegAggregation.RunningDebtExample | src/merge.py:395-416 | Per-year deficit changes +1.0, -0.5, +2.0 give debt effects -1.0, -0.5, -2.5. |
| LegAggregation.RunningDebtIgnoresCategory | src/merge.py:404-410 | For all inputs, rewriting the component, category or subcategory of any per-year row leaves the running debt change unchanged: only the vintage, the projection year number and the total matter. |
| LegAggregation.Aggregate | src/merge.py:391-418 | Non-debt rows carry only their component's column, holding the group total. Debt rows carry the deficit column, negated, and the cumulative debt column. |
| LegAggregation.AggregatedLegChanges | src/merge.py:391-418 | Distinct keys covering every groupable row. Each row holds the sum of its key's changes, or, for debt, the negated sum and the vintage running total. |
| LegAggregation.NegatedTotals | src/merge.py:395-402 | Fills the vintage and the negated total of every group row. |
| LegAggregation.CumulativeDeficitEffects | src/merge.py:404-410 | The scan over all rows returns the running debt total of row i's vintage and projection year. |
| LegAggregation.RunningDebtRows | src/merge.py:395-416 | The debt branch produces exactly the debt-aggregated rows. |
| LegAggregation.AggregateLegChanges | src/merge.py:391-418 | Produces exactly the aggregated legislative changes specified above. |
| Ordering.Categories | src/merge.py:521-535 | Each component's category list starts with Total and lists no value twice. |
| Ordering.Subcategories | src/merge.py:537-563 | Each component's subcategory list starts with Total and lists no value twice. Revenue reuses its category list. |
| Ordering.Rank | src/merge.py:565-571 | The position of a value in the component's category list, or the list's length for an unlisted value. |
| Ordering.InsertAt | src/merge.py:573 | Inserting one row extends the sorted prefix and permutes the rows. |
| Ordering.SortByKey | src/merge.py:573 | The array ends sorted by key and is a permutation of its old contents. |
| Ordering.SortData | src/merge.py:519-575 | The result is sorted by component, category rank, subcategory rank and projection year number, and is a permutation of the input. |
| Errors.LegislativeColumn | src/errors.py:36 | The column read is `legislative_<component>_change`: the per-component label for outlay, revenue and deficit, and the cumulative debt column for debt. |
| Errors.LegislativeColumnWritten | src/errors.py:35-37 | The column `calc_errors` reads is the one the aggregation wrote. For debt it is the cumulative column, not the deficit one. |
| Errors.ErrorRowOf | src/errors.py:35-54 | The adjustment is the legislative column. The error is zero exactly when the adjusted projection equals the actual. The error is positive when the projection is too high, or for the deficit too low. Deficit and debt use percent of GDP, the others percent of the actual, with the percentage defined exactly when its denominator is nonzero. |
| Errors.CalcErrors | src/errors.py:33-56 | Fails exactly when a row lacks the legislative column. Otherwise it keeps the row count, the row order and every input row, and adds the error columns. |
| Errors.OnePercentColumn | src/errors.py:46-54 | Every row gets exactly one of the two percentage columns, fixed by the component. |
| Errors.DeficitErrorSign | src/errors.py:39-44 | Projection 100, no change and actual 90 give an error of -10 for the deficit and +10 for outlays. |
| Errors.ErrorsOfMergedData | src/errors.py:36 | `calc_errors` succeeds on any permutation of the rows `merge_data` produces. |
| Errors.AdjustedProjectionOfMergedRow | src/errors.py:35-37 | End to end, the adjusted projection is the baseline value plus the later legislative changes of its key. For debt it is the baseline value minus the deficit changes of its vintage up to its year. |
| Statistics.SumAbsBound | src/summary.py:65-66 | The absolute value of a sum is at most the sum of absolute values. |
| Statistics.SumAbsSquared | src/summary.py:66-67 | (sum of absolute values)^2 is at most n times the sum of squares. |
| Statistics.SortReals | src/summary.py:68 | Sorted permutation of the values. |
| Statistics.QuantileOfSorted | src/summary.py:68 | A linearly interpolated quantile lies between the minimum and the maximum. |
| Statistics.QuantileAtKnot | src/summary.py:68 | When (n-1)q is a whole number k, the quantile is the k-th smallest value. |
| Statistics.QuantileExtremes | src/summary.py:68 | The 0-quantile is the minimum and the 1-quantile the maximum. |
| Statistics.QuantileBetweenKnots | src/summary.py:68 | When k <= (n-1)q <= k+1, the quantile lies between the k-th and the (k+1)-th smallest values. |
| Statistics.QuantileMonotone | src/summary.py:68 | Quantiles grow with the quantile level. |
| Statistics.TwoThirdsSpread | src/summary.py:68 | The 5/6 quantile minus the 1/6 quantile is not negative. |
| Statistics.Describe | src/summary.py:61-71 | The count is the number of values. The other statistics are defined exactly when there is one. mean*n is the sum, mean-abs*n the sum of absolute values, mean-square*n the sum of squares. Also \|mean\| <= mean-abs, mean-abs^2 <= mean-square. The spread is the 5/6 quantile minus the 1/6 quantile of the values, and is >= 0. |
| Statistics.MeanBounds | src/summary.py:65-67 | \|mean\| <= mean absolute value and (mean absolute value)^2 <= mean square. |
| Summary.Contributing | src/summary.py:47-49 | For revenue only winter-baseline rows contribute, each with its multiplicity. For the other components every row does. |
| Summary.GroupRows | src/summary.py:61 | A group holds exactly the rows of its key, each with its multiplicity. |
| Summary.Defined | src/summary.py:63-64 | The group's non-missing errors: each value as often as it occurs in the error column, and as many values as rows minus missing cells. There are as many values as rows exactly when none is missing. |
| Summary.YearRangeOf | src/summary.py:51-56 | The range's ends are the earliest and the latest projected fiscal year of the group, both attained. |
| Summary.ObservedKeys | src/summary.py:52-61 | The observed groups: distinct keys, each with at least one row, covering every row. |
| Summary.SummaryTable | src/summary.py:61-75 | One row per observed group, no two with the same key, each the summary of its group's rows. |
| Summary.CalcSummaryStats | src/summary.py:38-88 | Fails exactly when a row lacks the component's error column. Otherwise it gives one row per observed group of contributing rows, keys distinct, covering every contributing row, each summarising its group. |
| Summary.SummaryOfGroup | src/summary.py:61-71 | The count is the number of rows of the group minus its missing errors. The statistics are defined exactly when some error is. Also \|mean\| <= mean-abs, mean-abs^2 <= mean-square, spread >= 0, and the range spans the group's years. |
| Summary.NonWinterRevenueIgnored | src/summary.py:47-49 | Adding a non-winter revenue row leaves the revenue summary unchanged. |
| Scale.ScaledRow | src/scale.py:32-34 | The actual is carried unchanged. The percentage is defined exactly when GDP is present and nonzero, and then percentage times GDP is 100 times the actual. |
| Scale.JoinGdp | src/scale.py:30-34 | Left join of the actuals with GDP on the fiscal year, every actual kept, with the percentage column. |
| Scale.JoinGdpCount | src/scale.py:30 | Each joined row occurs as many times as its actual times the copies of its GDP cell: the GDP rows of its year and value, or exactly one missing cell when the year has no GDP and none when it has. Rows that no actual and cell produce do not occur. |
| Scale.ScaleActuals | src/scale.py:30-49 | No Fannie Freddie row. Every other actual appears with each GDP of its year, or with a missing GDP, whatever its year. The percentage is actual/GDP*100. |
| Scale.ActualRetained | src/scale.py:36-37 | An actual appears unchanged in the output exactly when it is not Fannie Freddie. |
| OutlayScale.ScaledRow | src/scale_actuals.py:31-34 | The outlay is carried unchanged. The percentage is defined exactly when GDP is present and nonzero, and then percentage times GDP is 100 times the outlay. |
| OutlayScale.JoinGdp | src/scale_actuals.py:21-26 | Left join of the outlays with GDP on the fiscal year, every outlay kept. |
| OutlayScale.JoinGdpCount | src/scale_actuals.py:21-26 | Each joined row occurs as many times as its outlay times the copies of its GDP cell: the GDP rows of its year and value, or exactly one missing cell when the year has no GDP and none when it has. Rows that no outlay and cell produce do not occur. |
| OutlayScale.ScaleActuals | src/scale_actuals.py:21-60 | Output rows are from 1993 on, never Fannie Freddie, and never Defense or Nondefense Discretionary before 1998. Every outlay passing those tests appears, with its GDP or a missing GDP. |
| OutlayScale.OutlayRetained | src/scale_actuals.py:28-48 | An outlay appears unchanged exactly when it is from 1993 on, not Fannie Freddie, and not Defense or Nondefense Discretionary before 1998. |
| OutlayScale.EarlyYears | src/scale_actuals.py:41-48 | Between 1993 and 1997, only Defense Discretionary, Nondefense Discretionary and Fannie Freddie outlays are dropped. |

## Left out

- Reading and writing CSV and Excel files, the report writer under
  `src/ExcelWriter`, `src/write_Excel.py` and the driver `src/main.py` are
  not part of this model. `src/main.py` calls functions with signatures that
  `src/errors.py` does not have.
- Statistics.Describe: stores the mean of squares, not its square root. The
  RMSE column is the square root of `meanSquare`, and the model states
  mean-abs^2 <= mean-square in place of mean-abs <= RMSE.
- Summary.CalcSummaryStats: `projection_year_range` is kept as the pair
  (first, last) rather than the text "first-last".
- Summary.CalcSummaryStats: output groups come in order of first
  occurrence, not in pandas' sorted group order.
- LegAggregation.AggregatedLegChanges: aggregated rows come in order of
  first occurrence. Their order is only consumed through the key join.
- Errors.CalcErrors: a missing column is checked per row. An empty table
  whose column is missing fails in pandas but succeeds here.
- Summary.CalcSummaryStats: a missing error column is checked per row. The
  same empty-table case applies.
- Tables.PercentOf: does not tell a division by zero (infinity in pandas)
  from a missing denominator (NaN). Both are `None`. This changes the
  summaries downstream. In pandas a zero GDP or a zero actual gives a
  percentage of plus or minus infinity. `count` counts that cell, and the
  mean and the other statistics become infinite or NaN. In the model the
  cell is missing, so `Summary.Defined` drops it and the count leaves it out.
- Ordering.SortData: the contract states only that the result is sorted and
  a permutation of the input. It leaves open the order of rows whose sort
  keys are equal, although the source's multi-column sort keeps them in
  input order.
- Summary.CalcSummaryStats: a category or subcategory outside the
  component's lists becomes a missing key in pandas, and the group-by in
  `src/summary.py` drops rows with a missing key. The model keeps the string
  and gives such rows a group of their own.
- Ordering.SortData: categories and subcategories outside the component's
  lists become missing in pandas and sort last. The model keeps the string
  and ranks it after every listed value.
- Merge.ParseComponent: component arguments are the `Component` enumeration
  after parsing. Only `merge_data` checks the string. The other stages take
  the enumeration, so a misspelt component there is not modelled.
- Date parsing (`pd.to_datetime`) is not modelled. Dates are already
  integers ordered like the calendar.
- Floating point is modelled as exact real arithmetic, with no rounding.
