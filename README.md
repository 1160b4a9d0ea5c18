# Photovoltaic analysis scripts, modelled in Dafny

The repository holds two pandas scripts for photovoltaic data. This project models their table
transformations and proves their properties.

- **`central.py`** analyses one plant. It reads an hourly table indexed by timestamp, replaces
  negative irradiation by 0 and fills gaps by time-weighted interpolation. It then builds one
  row per calendar day with these columns:
  - mean and maximum module temperature;
  - summed power (the daily energy) and summed plane-of-module irradiation;
  - the performance ratio `RP = energy / (4641 × irradiation)`;
  - the first time of the day's maximum module temperature, and the power at that time.

  Finally it selects two kinds of abnormal days: low RP, and zero energy despite significant
  irradiation.
- **`PV_analysis.py`** joins a production time series with weather data and with theoretical
  PV profiles on the timestamp. It then works on the joined table as follows:
  - computes an efficiency percentage per row;
  - labels the rows with station names round robin;
  - summarises the table per station and day, and per station and month;
  - builds a plotly dashboard with six traces per station and one menu button per station.
    Each button's visibility mask chooses which traces to show.

How the model represents things:
- Timestamps are integers (seconds) and cell values are `real`. A missing cell is `None` of
  `Cells.Option`.
- A float division's outcome is `Cells.Ratio`: a finite value, +inf, -inf or NaN, as IEEE
  arithmetic gives it.
- The calendar day of a timestamp is `t div 86400`. The calendar month of a day is given by the
  caller as a function `monthOfDay`, so the model does no calendar arithmetic.

The form of the code follows the scripts:
- **In-place updates are imperative.** `Cleaning.PlantTable` is a class whose methods rewrite
  its columns: the clamp loop and `interpolate(inplace=True)`. `Dashboard.Figure` is a class
  that `add_trace` appends to. The button loops are methods with nested loops writing into a
  fresh array.
- **Expressions are functions.** The daily resample, the anomaly filters, the merges, the
  efficiency, the round robin and the group-bys are functions over sequences and maps.

Module layout:

| module | models |
|---|---|
| `Cells` | missing values, IEEE division outcomes, float comparison |
| `Calendar` | day and month keys of a timestamp |
| `Reducers` | pandas reducers that skip missing values (sum, count, mean, max, first argmax), boolean-mask selection, grouping, and the group-sum partition lemmas |
| `Cleaning` | the clamp and the time interpolation, on columns and on the `PlantTable` class |
| `PlantDaily` | the daily table of `central.py`: resample, RP, peak temperature time and power |
| `Anomalies` | the two abnormal-day filters |
| `PlantPipeline` | `central.py` from the clamp to the anomaly lists, as one method |
| `Merge` | `pd.merge(..., on='DateTime', how='left')` |
| `Stations` | `df_full`: the two merges, the efficiency, the station labels, the date and month keys |
| `Summaries` | `daily_summary` and `monthly_summary` |
| `Dashboard` | the traces, the visibility masks as written, and the corrected masks |

## Model

| member | source | states |
|---|---|---|
| Cells.Divide | central.py:64 | Float division: finite exactly when the denominator is non-zero, and then quotient × denominator = numerator; 0/0 is NaN; x/0 is +inf for x > 0 and -inf for x < 0 |
| Cells.LessThan | central.py:189 | The float comparison `RP < x`: on a finite value it is the comparison of reals; NaN and +inf are never below a number, -inf always is |
| Cells.DivideLessThan | central.py:189 | A quotient is below a threshold exactly when the dividend is below threshold × divisor (positive divisor), or when the dividend is negative (zero divisor) |
| Cells.Scale | PV_analysis.py:24 | Multiplying by a positive constant scales a finite outcome and leaves inf and NaN unchanged |
| Calendar.DayOf | central.py:71 | The day key of a timestamp is the day whose 86400 seconds contain it |
| Calendar.MonthOf | PV_analysis.py:33 | Every timestamp in the 86400 seconds of a timestamp's day has that timestamp's month |
| Calendar.DayOfMonotone | central.py:53 | A later timestamp never falls on an earlier day |
| Reducers.CountPresent | central.py:54 | The count of present values is zero exactly when every value is missing |
| Reducers.MeanPresent | central.py:54 | The mean is missing exactly when every value is missing; otherwise mean × count = sum of the present values |
| Reducers.MaxPresent | central.py:54 | The maximum is missing exactly when every value is missing; otherwise it is one of the values and bounds every present value |
| Reducers.FirstArgMax | central.py:68 | `idxmax` gives a position holding the maximum, and every earlier present value is strictly smaller |
| Reducers.SumPresentOfMissing | central.py:55-56 | `sum` skips missing values: a column without a present value sums to 0 |
| Reducers.SumPresentAppend | central.py:55-56 | The sum of a concatenation is the sum of the sums |
| Reducers.SumPresentNonNegative | central.py:56 | Present values that are all ≥ 0 have a sum ≥ 0 |
| Reducers.MeanAtMostMax | central.py:54 | With one present value or more, the mean and the maximum exist, and the mean is at most the maximum |
| Reducers.Filter | central.py:189-195 | A boolean-mask selection holds exactly the rows that satisfy the mask, and no more rows than the table |
| Reducers.FilterKeepsOrder | central.py:189-195 | A boolean-mask selection keeps its rows in table order |
| Reducers.KeyGroup | central.py:71 | A group holds exactly the rows with its key, and no more rows than the table |
| Reducers.KeyGroupOrdered | central.py:71 | A group keeps its rows in table order |
| Reducers.GroupSumsPartition | PV_analysis.py:35-48 | Over distinct keys covering every row, the group sums add up to the sum of the whole column |
| Reducers.GroupSumRefines | PV_analysis.py:35-48 | A coarse group whose rows are exactly those of some fine groups sums to the sum of those fine groups |
| Reducers.NumberCount | PV_analysis.py:38 | The count of non-NaN outcomes is zero exactly when all are NaN |
| Reducers.MeanRatio | PV_analysis.py:38 | Mean of division outcomes. It is +inf (-inf) exactly when +inf (-inf) occurs and the opposite infinity does not. It is NaN exactly when nothing is a number or both infinities occur. A finite mean × the count of numbers = the sum of the finite values |
| Cleaning.ClampValue | central.py:29 | `max(x, 0)`: a missing value stays missing, a non-negative value is unchanged, a negative value becomes 0 |
| Cleaning.Clamped | central.py:29 | The clamped column has the same length, and each cell is `max(x, 0)` of the cell at the same position |
| Cleaning.ClampedNonNegative | central.py:24-29 | After the clamp every present value is ≥ 0, and exactly the same cells are present |
| Cleaning.LerpBetween | central.py:35 | A time-weighted interpolant lies between its two neighbours |
| Cleaning.InterpolatedAt | central.py:35 | An observed cell is kept, and a cell left missing has no observed value at or before it |
| Cleaning.TimeInterpolated | central.py:35 | Interpolation keeps the length and never alters a present value |
| Cleaning.InterpolationLeavesOnlyLeadingGap | central.py:35 | After interpolation a cell is present exactly when some value at or before it was present |
| Cleaning.InterpolationFillsInteriorGap | central.py:35 | A gap with observed neighbours (t0, v0) and (t1, v1) becomes v0 + (v1 − v0)(t − t0)/(t1 − t0), which lies between v0 and v1 |
| Cleaning.InterpolationHoldsLastValue | central.py:35 | A gap after the last observed value takes that value |
| Cleaning.InterpolationKeepsNonNegative | central.py:35 | Interpolating a column whose present values are ≥ 0 gives present values ≥ 0 |
| Cleaning.InterpolationIdempotent | central.py:35 | Interpolating twice is the same as interpolating once |
| Cleaning.PlantTable.constructor | central.py:21 | The table holds the given timestamp index and columns |
| Cleaning.PlantTable.ClampIrradiation | central.py:24-29 | The clamp loop rewrites exactly the three irradiation columns in place; the index, the set of columns and every other column are unchanged |
| Cleaning.PlantTable.InterpolateTime | central.py:35 | In-place interpolation: every column becomes its time interpolation over the unchanged index |
| PlantDaily.Dedup | central.py:71 | The distinct day keys: same membership, strictly increasing when the keys are sorted |
| PlantDaily.GroupDays | central.py:71 | A day is a `groupby` key exactly when some timestamp falls on it |
| PlantDaily.DayRange | central.py:53 | `resample('D')` days: every day from the first to the last, one each |
| PlantDaily.ResampleDays | central.py:53 | `resample('D')` rows: consecutive days starting at the first timestamp's day and ending at the last timestamp's day; no day for an empty index |
| PlantDaily.DedupCoversRange | central.py:71-72 | There are at most as many days with rows as days in the range, and exactly as many iff no day in the range is empty |
| PlantDaily.DedupIsRange | central.py:71-72 | With no empty day, the `groupby` days are the resampled days |
| PlantDaily.GroupDaysMatchResampleDays | central.py:53-72 | The positional assignment's length condition (groupby days = resampled days) holds iff no day is empty; then the two day lists are equal |
| PlantDaily.PeakTime | central.py:67-69 | The time of a day's peak temperature is the time of a reading |
| PlantDaily.LocatePosition | central.py:73 | `df.loc[t]` finds the first row at timestamp `t`, or none when there is none |
| PlantDaily.PowerAt | central.py:73 | `df.loc[t, 'Puissance [kW]']` is the power of the first row whose timestamp is `t` |
| PlantDaily.PerformanceRatio | central.py:63-64 | With non-zero irradiation, RP × (4641 × irradiation) = energy; with zero irradiation RP is not a finite number |
| PlantDaily.DailyRowFor | central.py:53-73 | A daily row is on its day; its RP is the performance ratio of its energy and irradiation; its mean and maximum temperature are missing together; its peak power is the power of a reading at its peak time |
| PlantDaily.DailyTable | central.py:53-73 | One row per resampled day, in day order, each with RP = energy / (4641 × irradiation) |
| PlantDaily.GroupDaysAreReadingDays | central.py:71 | The groupby days are strictly increasing, contain the day of every reading, and each has a reading |
| PlantDaily.DailyTableOneRowPerDay | central.py:53-57 | The daily table's days are strictly increasing and are exactly the days that hold readings |
| PlantDaily.FirstPeakOfGroup | central.py:68 | The argmax of a group holds the group's maximum temperature and no earlier row reaches it |
| PlantDaily.LocateReading | central.py:73 | With unique timestamps, looking up a reading's time finds that reading and its power |
| PlantDaily.DayMaximumBound | central.py:54 | A day's maximum temperature bounds every temperature of that day |
| PlantDaily.PeakTimeIsFirstMaximum | central.py:67-71 | The peak time is the time of a reading of that day with the maximum temperature, and no earlier reading of that day reaches the maximum |
| PlantDaily.DailyPeakIsFirstMaximum | central.py:67-73 | Each daily row's peak time is the first time of that day at which the module temperature equals the day's maximum, and its power is the power at exactly that time |
| PlantDaily.DailyTotal | central.py:55-56 | The daily sums of a column add up to the column's total |
| PlantDaily.DailyTotalsMatchReadings | central.py:53-57 | Summed over the daily table, energy and irradiation equal the totals of the hourly power and irradiation |
| PlantDaily.DailyPerformanceRatio | central.py:63-64 | Each day's RP: finite with RP × 4641 × irradiation = energy when the irradiation is non-zero; otherwise NaN, +inf or -inf according to the sign of the energy |
| PlantDaily.DailyRowBounds | central.py:53-57 | The daily irradiation is ≥ 0 when the readings are, and the mean temperature is at most the maximum |
| Anomalies.LowRpDays | central.py:185-189 | Exactly the daily rows with RP < 0.6 as a float comparison (NaN and +inf excluded), in table order |
| Anomalies.ZeroOutputDays | central.py:185-195 | Exactly the daily rows with zero energy and irradiation > 50, in table order |
| Anomalies.ZeroOutputDaysAreLowRp | central.py:185-195 | Every zero-output day has RP = 0 and so is also a low-RP day |
| PlantPipeline.InterpolatedTemperatureEveryDay | central.py:35-68 | After the time interpolation every day holding rows has a module temperature exactly when the first day had one before it |
| PlantPipeline.AnalysePlant | central.py:23-73 | Clamp, then interpolate in place. It needs a temperature reading on the first day only, because interpolation carries it to every later day. The new columns are the interpolations of the clamped (irradiation) or original columns, and the daily table is built from them. It has one row per day and non-negative daily irradiation, and the anomaly lists are its two filters |
| Merge.Matches | PV_analysis.py:20 | The right rows at a timestamp: every one is at that timestamp, and every right row at it is among them |
| Merge.MergeRow | PV_analysis.py:20 | A left row yields at least one output row, each with its timestamp and columns |
| Merge.LeftMerge | PV_analysis.py:20-21 | A left merge has at least as many rows as its left table |
| Merge.Lookup | PV_analysis.py:20-21 | The right row at a timestamp, missing exactly when no right row has that timestamp |
| Merge.MatchesUnique | PV_analysis.py:20-21 | With unique right timestamps, a timestamp matches at most one right row |
| Merge.LeftMergeOneRowPerLeftRow | PV_analysis.py:20-21 | With unique right timestamps: one output row per left row, in left order, left columns unchanged, right columns of the matching row or missing |
| Merge.LeftMergeKeepsLeftColumns | PV_analysis.py:20-21 | Every output row carries the timestamp and columns of a left row |
| Merge.MergeRowCount | PV_analysis.py:20-21 | A left row yields one output row per matching right row, or one row when nothing matches |
| Stations.Efficiency | PV_analysis.py:24 | Missing operand gives NaN. With non-zero theoretical production, efficiency × theoretical = actual × 100. With zero theoretical production it is NaN, +inf or -inf exactly when the actual production is 0, positive or negative |
| Stations.RoundRobin | PV_analysis.py:27-28 | One label per row, each a station of the list |
| Stations.RoundRobinStartsInOrder | PV_analysis.py:28 | The first rows take the stations in list order |
| Stations.RoundRobinPeriodic | PV_analysis.py:28 | The labels repeat with period `len(station_names)` |
| Stations.RoundRobinStationRows | PV_analysis.py:28 | With distinct names, row i is labelled with station k iff i mod n = k |
| Stations.MergedRows | PV_analysis.py:20-21 | The joined table has at least one row per production row |
| Stations.FullTable | PV_analysis.py:20-33 | Every row has efficiency = the efficiency of its actual and theoretical production, a station of the list, date = the day of its timestamp, month = the month of its date |
| Stations.FullTableOneRowPerSeriesRow | PV_analysis.py:20-28 | With unique weather and profile timestamps: one row per production row, in order. Its production value is kept and its weather and profile columns are those at its timestamp (or missing). Row i is labelled `station_names[i mod n]` |
| Summaries.DayStatsOf | PV_analysis.py:35-42 | A station-day's production sum without a present value is 0; a weather mean is missing exactly when every value of the group is; the efficiency mean is NaN exactly when no efficiency is a number or +inf meets -inf |
| Summaries.MonthStatsOf | PV_analysis.py:44-48 | A station-month's production sum without a present value is 0; the efficiency mean is NaN exactly when no efficiency is a number or +inf meets -inf |
| Summaries.DailySummary | PV_analysis.py:35-42 | One entry for exactly each (station, date) pair present, each aggregating a non-empty group |
| Summaries.MonthlySummary | PV_analysis.py:44-48 | One entry for exactly each (station, month) pair present, each aggregating a non-empty group |
| Summaries.SumFieldOverGroups | PV_analysis.py:35-48 | Summary rows holding group sums add up like the groups |
| Summaries.DailyTotalsMatchTable | PV_analysis.py:35-42 | Over all station-days, the daily actual and theoretical sums add up to the table's totals |
| Summaries.MonthlyTotalsMatchTable | PV_analysis.py:44-48 | Over all station-months, the monthly actual and theoretical sums add up to the table's totals |
| Summaries.MonthlyIsSumOfDaily | PV_analysis.py:32-48 | A station's monthly actual and theoretical sums equal the sums of its daily values over the days of that month |
| Dashboard.Traces | PV_analysis.py:65-89 | The figure has six traces per station |
| Dashboard.TracesLayout | PV_analysis.py:65-89 | Trace t belongs to station t div 6 and plots kind t mod 6 in that kind's subplot row. Only the first station's six traces are initially visible |
| Dashboard.Figure.constructor | PV_analysis.py:50-62 | A new figure has no traces |
| Dashboard.Figure.AddTrace | PV_analysis.py:70-71 | `add_trace` appends one trace |
| Dashboard.AddStationTraces | PV_analysis.py:65-89 | The trace loop appends exactly the six traces of every station, in station order |
| Dashboard.AsWrittenMask | PV_analysis.py:93-97 | The as-written mask of button i has the figure's length and is true exactly at the positions whose quotient by 5 is i |
| Dashboard.StationMask | PV_analysis.py:91-97 | The corrected mask of button i has the figure's length and is true exactly at the positions whose quotient by 6 is i |
| Dashboard.BuildButtonsAsWritten | PV_analysis.py:91-101 | One button per station, in list order, labelled and titled with it. Its mask has the figure's length and is true exactly at 5i .. 5i+4; the writes stay in range when there are at least 5 traces per station |
| Dashboard.AsWrittenMaskMisaligned | PV_analysis.py:91-97 | As written, button 0 hides the first station's daily efficiency trace (trace 5), which starts visible. With two stations, button 1 shows that trace and hides the second station's traces 10 and 11 |
| Dashboard.BuildStationButtons | PV_analysis.py:91-101 | With stride 6: one button per station, in list order, whose mask is true exactly at 6i .. 6i+5 |
| Dashboard.StationMaskSelectsStation | PV_analysis.py:65-97 | The corrected mask of button i shows exactly station i's traces, and button 0's mask is the initial visibility |
| Dashboard.BuildDashboard | PV_analysis.py:50-104 | The figure holds every station's traces, button i is station i's corrected button, and the title names the first station |

## Left out

- Reading the Excel and CSV files, `to_datetime`, `set_index`, the column-name `strip`, every
  `print`, `describe`, the zero-power hour count and every export (central.py:14-21, 31-32,
  40-45, 78-83, 132-149, 197-210; PV_analysis.py:8-16). These are I/O. The model starts from
  the parsed tables.
- Rendering is not modelled: matplotlib and seaborn figures, the plotly scatter data, names and
  modes, the layout (height, axis titles, subplot titles) and `fig.show()`. A trace is modelled
  by its station, kind, subplot row and initial visibility.
- The broken statement at PV_analysis.py:119-120 is a syntax error, and the imports at :1-2 are
  unused. Neither contributes behaviour.
- Floating-point rounding: values are exact reals. Division by zero is modelled by its IEEE
  outcome (`Cells.Ratio`) rather than excluded, because neither script guards it.
- Cleaning.TimeInterpolated: trailing gaps take the last observed value, as pandas' time
  interpolation does, and leading gaps stay missing. This follows the code rather than a
  reading in which trailing gaps stay missing.
- Cleaning.PlantTable.InterpolateTime: every column is interpolated over the timestamp index.
  The model holds only numeric columns, and the index is strictly increasing (timestamps
  unique and sorted).
- PlantDaily.DailyTable: requires as many `groupby` days as resampled days, because the
  positional assignment at central.py:72 raises otherwise. It also requires a temperature on
  every day, because the lookup of `idxmax` on an all-missing day fails. On the interpolated
  table this holds exactly when the first day has a reading
  (`PlantPipeline.InterpolatedTemperatureEveryDay`), which is all `AnalysePlant` requires. A day in the range
  without rows is therefore outside the model; `GroupDaysMatchResampleDays` shows the length
  condition is the same as having no empty day.
- PlantDaily.PowerAt: requires the timestamp to be in the index (a `KeyError` otherwise). With
  duplicate timestamps `df.loc` would return several rows; the model takes the first, and
  `LocateReading` assumes unique timestamps.
- Calendar.MonthOf: the month of a day is a parameter of the model, not calendar arithmetic.
  Time zones are not modelled.
- Stations.FullTableOneRowPerSeriesRow: requires unique timestamps in the weather and profile
  tables. With duplicates the merge multiplies rows, and `Merge.MergeRowCount` states by how
  much.
- Stations.FullTable: the merged tables are assumed to share no column other than `DateTime`,
  so pandas' `_x`/`_y` suffixes do not arise. Each source file's columns are the ones named
  in `SeriesRow`, `WeatherRow` and `ProfileRow`.
- Stations.RoundRobin: requires a non-empty station list whenever there are rows, because
  `i % len(station_names)` at PV_analysis.py:28 raises `ZeroDivisionError` on an empty list.
  The model does not represent that error.
- Stations.FullTable: has the same requirement, for the same reason (PV_analysis.py:28).
- Dashboard.BuildDashboard: requires at least one station, because `station_names[0]` in the
  title at PV_analysis.py:106 raises `IndexError` on an empty list. The model does not
  represent that error.
- Summaries.DailySummary: a summary is a map keyed by the group. The sorted row order of
  `groupby(...).reset_index()` is not modelled, and neither is the dropping of rows with a
  missing key: station and date are never missing in the joined table.
- Summaries.MonthlyIsSumOfDaily: relates the production sums only. The monthly efficiency
  mean is the mean over the month's rows, which is not in general the mean of the daily means.
- Dashboard.BuildDashboard: uses the corrected stride-6 masks. The as-written masks are
  `Dashboard.BuildButtonsAsWritten`. The menu's `active=0` and the `method="update"` wiring
  are not modelled.

## Findings

| source | as written | input that shows it | evidently intended | confidence | as-written member | corrected member |
|---|---|---|---|---|---|---|
| PV_analysis.py:94-97 | Button i's mask is true at traces 5i .. 5i+4 (stride 5, and index 5i+4 is written twice) | one station `["A"]` (6 traces): button 0 hides trace 5, the station's daily efficiency, which is visible at start; two stations: button 1 shows trace 5 of station 0 and hides traces 10 and 11 of station 1 | Button i shows the six traces 6i .. 6i+5 that the trace loop (PV_analysis.py:65-89) added for station i | not executed | Dashboard.AsWrittenMaskMisaligned | Dashboard.StationMaskSelectsStation |
