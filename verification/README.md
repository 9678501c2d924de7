# COVID-19 dashboard data path, modelled in Dafny

This project models the integer data-reshaping path of `covid_dashboard.py`, a
pandas and Dash dashboard of the Johns Hopkins COVID-19 time series, and proves
properties of that model. The path has two phases.

Built once at start-up:

1. Each of the three wide tables (confirmed, deaths, recovered) is melted. A
   wide table has one row per province and one column per date; the melt
   gives one long row per (province, date).
2. The three long tables are inner-merged on (country, province, date).
3. The merged rows are summed per (country, date).

Recomputed on every change of the country or of the date-index range:

1. The rows of the chosen country are kept, sorted by date and sliced by
   position.
2. Daily confirmed, deaths and recovered figures are derived from the
   cumulative counts.
3. The window is split, without shuffling, into a training part and a
   held-out part. A line is fitted on the training part, and its predictions
   for the held-out rows are plotted at those rows' dates.

Modules, one file each:

- `Table` (`table.dfy`): the shared row types.
- `Reshape` (`reshape.dfy`): the melt.
- `Join` (`join.dfy`): the inner merges.
- `Aggregate` (`aggregate.dfy`): the group-by sum.
- `Selection` (`selection.dfy`): country filter, date sort and positional slice.
- `Deltas` (`deltas.dfy`): daily figures.
- `TrainTest` (`traintest.dfy`): the ordered split and the prediction trace.
- `Dashboard` (`dashboard.dfy`): the start-up build and the per-request update, composed.

Modelling choices:

- **Dates** are ordinal day numbers and **counts** are unbounded integers.
- **Least-squares fit.** The fit is a parameter `fit` that turns the training points into a line (`Day -> real`).
- **Held-out count.** For `test_size=0.2` this is ⌈n/5⌉.
- **Too few rows.** When the window has fewer than two rows, no training row is left and the split refuses to run. The update is then the outcome `EmptyTrainingSet`.
- **Behaviour taken from the code:**
  - deaths deltas are not clamped at zero;
  - the held-out split is kept, and predictions are drawn only on the held-out rows;
  - an unknown country yields an empty window, not an error;
  - a first index at or past the country's row count yields an empty window; a last index past the end is clamped, so the window is then shorter but not empty;
  - an empty merged table yields an empty grouped table, not an error.

## Model

| member | source | states |
|---|---|---|
| Reshape.Melt | covid_dashboard.py:12-13 | the long table has rows × date-columns rows, and the row at position j·rows + i is source row i's identity columns with date column j and that cell's count (column after column, as a melt emits them) |
| Reshape.MeltRowIsCell | covid_dashboard.py:12-13 | conversely, every long row is exactly one cell of the wide table, at the position j·rows + i of its date column j and source row i |
| Reshape.MeltColumnsCells | covid_dashboard.py:12-13 | melting the first m date columns places each of their cells at its block offset |
| Join.InnerMergeMembership | covid_dashboard.py:25-26 | an inner merge output row is exactly the combination of a left row and a right row with equal keys (both directions) |
| Join.JoinMembership | covid_dashboard.py:25-28 | a merged row exists exactly when a confirmed, a deaths and a recovered row share (country, province, date); it carries the confirmed row's identity and the three counts |
| Join.UnmatchedKeyDropped | covid_dashboard.py:25-28 | a key absent from the deaths or the recovered table produces no merged row: it is dropped, not filled |
| Join.JoinedKeyInAllTables | covid_dashboard.py:25-28 | every merged row's key and each of its three counts come from a row of the corresponding input table |
| Join.MatchesAtMostOne | covid_dashboard.py:25-28 | in a table with unique keys a key matches at most one row |
| Join.InnerMergeAtMostLeft | covid_dashboard.py:25-26 | against a right table with unique keys an inner merge yields at most one row per left row |
| Join.JoinAtMostConfirmed | covid_dashboard.py:25-28 | with one row per key in the deaths and recovered tables, the merge has at most as many rows as the confirmed table |
| Join.InnerMergeLength | covid_dashboard.py:25-26 | an inner merge emits exactly one row per (left row, matching right row) pair, so its length is the total number of partners of the left rows |
| Join.InnerMergeAppend | covid_dashboard.py:25-28 | merging a concatenation of left tables gives the concatenation of their merges, in order |
| Join.MatchCount | covid_dashboard.py:25-28 | in a table with unique keys a key matches exactly one row when some row has it and none otherwise |
| Join.JoinCount | covid_dashboard.py:25-28 | with one row per key in the deaths and recovered tables, the merge has exactly one row per confirmed row whose key both of those tables have |
| Aggregate.KeysInOrder | covid_dashboard.py:30 | the group keys are distinct and are exactly the (country, date) pairs present |
| Aggregate.GroupSum | covid_dashboard.py:30 | one row per (country, date) present and no other, each carrying, per count column, the sum of that column over the input rows with that key |
| Aggregate.PerCountry | covid_dashboard.py:30 | the per-country table has a (country, date) row exactly when some merged row has that key, and its counts are the per-key sums |
| Aggregate.GroupSumConserves | covid_dashboard.py:30 | grouping preserves each column's grand total |
| Aggregate.GroupSumOfUnique | covid_dashboard.py:30 | a table whose keys are already unique is grouped into itself |
| Aggregate.GroupSumIdempotent | covid_dashboard.py:30 | grouping twice is grouping once |
| Selection.OfCountry | covid_dashboard.py:77 | the filter keeps exactly the rows of the chosen country, each as many times as the table holds it (multiset equality with the country's part of the table), and no other row |
| Selection.SortByDate | covid_dashboard.py:77 | the sort result is in ascending date order and is a permutation of its input |
| Selection.SortStrict | covid_dashboard.py:77 | rows with distinct dates sort into strictly ascending date order |
| Selection.StrictOrderUnique | covid_dashboard.py:77 | two strictly date-ordered permutations of the same rows are equal, so the unstable sort's tie-breaking cannot change the result once dates are distinct |
| Selection.SliceBound | covid_dashboard.py:78 | a positional slice bound counts from the end when negative and is clamped to [0, n] |
| Selection.Slice | covid_dashboard.py:78 | the slice has max(0, stop′ − start′) elements, the normalised bounds' difference, and element k is the input's element start′ + k |
| Selection.SliceLength | covid_dashboard.py:78 | for non-negative bounds the slice holds max(0, min(stop, n) − start) elements |
| Selection.Window | covid_dashboard.py:77-78 | the window holds only rows of the table of the chosen country, in ascending date order, and no more rows than the country has |
| Selection.WindowLength | covid_dashboard.py:78 | for non-negative indices the window has max(0, min(last + 1, n) − first) rows |
| Selection.WindowInRange | covid_dashboard.py:78 | for 0 ≤ first ≤ last < n the window is the last − first + 1 consecutive sorted rows starting at position first |
| Selection.WindowStrict | covid_dashboard.py:77-78 | when the per-country table has unique keys the window is strictly ascending by date |
| Selection.WindowIndependentOfOrder | covid_dashboard.py:77-78 | two per-country tables with the same rows and unique keys give the same window, whatever their row order |
| Deltas.Diff | covid_dashboard.py:80 | same length as the cumulative column; the first daily value is the first cumulative value; each later one is the difference from the previous cumulative value |
| Deltas.DiffPrefixSum | covid_dashboard.py:80 | the daily values up to any row sum to that row's cumulative value |
| Deltas.RunningOfDiff | covid_dashboard.py:80 | running totals of the daily values give back the cumulative column |
| Deltas.DiffOfRunning | covid_dashboard.py:80 | daily values of running totals give back the original values |
| Deltas.DiffOfLaterWindow | covid_dashboard.py:78-80 | a window that starts later agrees with the full series' daily values except in its first row, which exceeds the series' value by the previous cumulative count |
| Deltas.FallingCountKept | covid_dashboard.py:80 | cumulative 10, 15, 13, 20 give daily 10, 5, −2, 7: a fall is kept as a negative day |
| Deltas.Derive | covid_dashboard.py:80-82 | each window row is kept in order, and each metric's daily column is the daily difference of that metric's own cumulative column |
| Deltas.DeriveReconstructs | covid_dashboard.py:80-82 | for each metric, the daily column sums up to any row to that row's cumulative count |
| Deltas.MetricsIndependent | covid_dashboard.py:80-82 | a metric's daily column depends only on that metric's cumulative column |
| TrainTest.HeldOut | covid_dashboard.py:110 | the held-out count k for n rows satisfies n ≤ 5k < n + 5, i.e. 0.2 · n rounded up |
| TrainTest.SplitAcceptedIffTwoRows | covid_dashboard.py:110 | the held-out count never exceeds the row count, and a training row remains exactly when there are at least two rows |
| TrainTest.OrderedSplit | covid_dashboard.py:110 | the unshuffled split's training part followed by its test part is the input, with the requested test size |
| TrainTest.TrainBeforeTest | covid_dashboard.py:110 | in a chronological window every training date precedes every test date |
| TrainTest.TrainingPoints | covid_dashboard.py:107-112 | the fitted points are the training rows' dates paired with their daily confirmed counts, in order |
| TrainTest.ForecastTrace | covid_dashboard.py:113-117 | the trace has one point per held-out row, at the date of the row from the first non-training position onwards, with the prediction for that date |
| TrainTest.ForecastAtLastDays | covid_dashboard.py:113-117 | for rows carrying a series of days, the trace points are those days' last dates with their predictions |
| TrainTest.PointsBeforeTrace | covid_dashboard.py:107-117 | training points and trace together cover the window once, and in a chronological window every fitted date precedes every predicted date |
| Dashboard.BuildTable | covid_dashboard.py:21-30 | the per-country table built from the three wide tables has unique (country, date) keys |
| Dashboard.BuildTableKeys | covid_dashboard.py:21-30 | it has a (country, date) row exactly when some province of that country has a confirmed, a deaths and a recovered count for that date |
| Dashboard.Update | covid_dashboard.py:76-117 | the update renders exactly when the window has at least two rows; then the rows shown are the window's rows, in order, with their daily columns, and the trace has ⌈n/5⌉ points, fewer than the rows |
| Dashboard.UpdateRowsOfCountry | covid_dashboard.py:77-78 | every row shown is a row of the per-country table of the chosen country |
| Dashboard.DerivedRowsOfCountry | covid_dashboard.py:77-80 | adding daily columns to rows of one country keeps every row a row of that country's table |
| Dashboard.UpdateChronological | covid_dashboard.py:77-78 | with unique keys the rows shown are strictly ascending by date |
| Dashboard.UpdateReconstructs | covid_dashboard.py:80-82 | every metric's daily column shown sums, up to any row, to that row's cumulative count |
| Dashboard.UpdateForecastDates | covid_dashboard.py:110-117 | the trace is drawn at the dates of the last rows shown, each point at the value for its date of the line fitted on the earlier rows |

## Left out

- Reading the CSV files is not modelled; the wide tables are inputs.
- Parsing the date headers is not modelled; dates are already day ordinals. The ordinal conversion for the fit is the identity.
- Latitude and longitude are not summed. The group-by sum adds them too, but nothing downstream reads them, so the grouped rows carry only the key and the three counts.
- Floating point and missing values are not modelled. Counts are integers; with integer counts, `diff().fillna(...)` only ever fills the first row of the window, which is what `Diff` models.
- Group order: the grouped table lists keys in order of first occurrence, where pandas sorts them by (country, date). The only consumer filters by country and re-sorts by date, and `Selection.WindowIndependentOfOrder` shows that the re-sorted window does not depend on the order.
- Merge row order is modelled as left-row order, each left row followed by its partners in right-table order.
- The least-squares fit is a parameter: `fit` maps the training points to a line. Its floating-point arithmetic is not modelled.
- TrainTest.HeldOut: is the exact ⌈n/5⌉, not `ceil(0.2 * n)` in double precision. The two agree for every row count a daily series can reach.
- Dashboard.Update: the update returns the outcome `EmptyTrainingSet`, not the library's ValueError, when the window has fewer than two rows. It does not model that the rendered figures are then not updated.
- The correlation heat map is not modelled (floating point).
- The figures are not modelled: Plotly traces, layout, titles and axis labels.
- The Dash layout and its callback wiring are not modelled.
- The diagnostic print of missing-value counts is not modelled.
- The slider's range comes from the number of distinct dates in the whole table, not the country's. It is not modelled: `Update` takes any integer indices and slices as the source does.
