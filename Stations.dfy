/**
 * The full table of the multi-source script (PV_analysis.py:20-33): the
 * production time series left-merged with the weather and with the PV
 * profiles on `DateTime`, the efficiency percentage, the round-robin
 * station label and the date and month keys of every row.
 */
module Stations {
  import opened Cells
  import opened Calendar
  import opened Merge

  /** The column of `Time_Series_PV.csv` the script reads: `Actual_Production`. */
  datatype SeriesRow = SeriesRow(actual: Option<real>)

  /** The columns of `Weather_Data_PV.csv`: `Irradiance_W_m2`, `Temperature_C`, `Cloudiness_%`. */
  datatype WeatherRow = WeatherRow(irradiance: Option<real>, temperature: Option<real>, cloudiness: Option<real>)

  /** The column of `Renewables_ninja_PV_Profiles.csv`: `Theoretical_Production_W`. */
  datatype ProfileRow = ProfileRow(theoretical: Option<real>)

  /** A row of `df_full`. */
  datatype FullRow = FullRow(
    time: int,                    // DateTime
    actual: Option<real>,         // Actual_Production
    theoretical: Option<real>,    // Theoretical_Production_W
    irradiance: Option<real>,     // Irradiance_W_m2
    temperature: Option<real>,    // Temperature_C
    cloudiness: Option<real>,     // Cloudiness_%
    efficiency: Ratio,            // Efficiency_Calc
    station: string,              // System_Name
    date: int,                    // Date
    month: int)                   // Month

  const PercentScale: real := 100.0

  /** `Actual_Production / Theoretical_Production_W * 100`; a missing operand gives NaN. */
  function Efficiency(actual: Option<real>, theoretical: Option<real>): (e: Ratio)
    ensures actual.None? || theoretical.None? ==> e.NaN?
    ensures actual.Some? && theoretical.Some? && theoretical.value != 0.0 ==>
              e.Finite? && e.value * theoretical.value == actual.value * PercentScale
    ensures actual.Some? && theoretical.Some? && theoretical.value == 0.0 ==>
              && !e.Finite?
              && (e.NaN? <==> actual.value == 0.0)
              && (e.PosInf? <==> actual.value > 0.0)
              && (e.NegInf? <==> actual.value < 0.0)
  {
    if actual.None? || theoretical.None? then NaN
    else
      var q := Divide(actual.value, theoretical.value);
      assert q.Finite? ==> q.value * PercentScale * theoretical.value == q.value * theoretical.value * PercentScale;
      Scale(q, PercentScale)
  }

  /** `[station_names[i % len(station_names)] for i in range(count)]`: every label is a station of the list. */
  function RoundRobin(names: seq<string>, count: nat): (labels: seq<string>)
    requires |names| > 0 || count == 0
    ensures |labels| == count
    ensures forall i :: 0 <= i < count ==> labels[i] in names
  {
    seq(count, i requires 0 <= i < count => names[i % |names|])
  }

  /** The first rows take the stations in list order. */
  lemma RoundRobinStartsInOrder(names: seq<string>, count: nat)
    requires |names| > 0 || count == 0
    ensures forall i :: 0 <= i < count && i < |names| ==> RoundRobin(names, count)[i] == names[i]
  {
    forall i | 0 <= i < count && i < |names| ensures RoundRobin(names, count)[i] == names[i] {
      RemainderUnique(i, |names|, 0, i);
    }
  }

  /** The labels repeat with period `len(station_names)`. */
  lemma RoundRobinPeriodic(names: seq<string>, count: nat)
    requires |names| > 0 || count == 0
    ensures forall i :: 0 <= i && i + |names| < count ==>
              RoundRobin(names, count)[i + |names|] == RoundRobin(names, count)[i]
  {
    var labels := RoundRobin(names, count);
    forall i | 0 <= i && i + |names| < count ensures labels[i + |names|] == labels[i] {
      ModuloShift(i, |names|);
      assert labels[i + |names|] == names[(i + |names|) % |names|];
    }
  }

  /** Adding the modulus does not change the remainder. */
  lemma ModuloShift(i: nat, n: nat)
    requires n > 0
    ensures (i + n) % n == i % n
  {
    var q, r := i / n, i % n;
    assert i == q * n + r;
    assert i + n == (q + 1) * n + r;
    RemainderUnique(i + n, n, q + 1, r);
  }

  /** The remainder is the only value in `[0, n)` that differs from `x` by a multiple of `n`. */
  lemma RemainderUnique(x: int, n: int, q: int, r: int)
    requires n > 0 && 0 <= r < n && x == q * n + r
    ensures x % n == r
  {
    var q', r' := x / n, x % n;
    assert (q - q') * n == r' - r;
    if q > q' {
      MultipleAtLeast(q - q', n);
    } else if q < q' {
      MultipleAtLeast(q' - q, n);
    }
  }

  lemma {:induction false} MultipleAtLeast(a: int, n: int)
    requires a >= 1 && n > 0
    ensures a * n >= n
  {
    if a > 1 {
      MultipleAtLeast(a - 1, n);
      assert a * n == (a - 1) * n + n;
    }
  }

  /** With distinct station names, row `i` belongs to station `k` exactly when `i mod n = k`. */
  lemma RoundRobinStationRows(names: seq<string>, count: nat, k: nat)
    requires forall a, b :: 0 <= a < b < |names| ==> names[a] != names[b]
    requires k < |names|
    ensures forall i :: 0 <= i < count ==> (RoundRobin(names, count)[i] == names[k] <==> i % |names| == k)
  {
  }

  /** The rows of `df_full` after the two merges. */
  function MergedRows(series: seq<Keyed<SeriesRow>>, weather: seq<Keyed<WeatherRow>>, profiles: seq<Keyed<ProfileRow>>)
    : (merged: seq<Keyed<((SeriesRow, Option<WeatherRow>), Option<ProfileRow>)>>)
    ensures |merged| >= |series|
  {
    LeftMerge(LeftMerge(series, weather), profiles)
  }

  /** One row of `df_full` from a merged row, its station label and the month calendar. */
  function FullRowOf(row: Keyed<((SeriesRow, Option<WeatherRow>), Option<ProfileRow>)>, station: string,
                     monthOfDay: int -> int): FullRow
  {
    var series := row.data.0.0;
    var weather := row.data.0.1;
    var profile := row.data.1;
    var theoretical := if profile.Some? then profile.value.theoretical else None;
    FullRow(row.time, series.actual, theoretical,
            if weather.Some? then weather.value.irradiance else None,
            if weather.Some? then weather.value.temperature else None,
            if weather.Some? then weather.value.cloudiness else None,
            Efficiency(series.actual, theoretical), station,
            DayOf(row.time), MonthOf(monthOfDay, row.time))
  }

  /**
   * `df_full`. The round-robin label divides by the number of stations,
   * which fails on an empty station list unless there are no rows.
   */
  function FullTable(series: seq<Keyed<SeriesRow>>, weather: seq<Keyed<WeatherRow>>, profiles: seq<Keyed<ProfileRow>>,
                     names: seq<string>, monthOfDay: int -> int): (full: seq<FullRow>)
    requires |names| > 0 || series == []
    ensures |full| == |MergedRows(series, weather, profiles)|
    ensures forall i :: 0 <= i < |full| ==> full[i].efficiency == Efficiency(full[i].actual, full[i].theoretical)
    ensures forall i :: 0 <= i < |full| ==> full[i].station in names
    ensures forall i :: 0 <= i < |full| ==> full[i].date == DayOf(full[i].time)
    ensures forall i :: 0 <= i < |full| ==> full[i].month == monthOfDay(full[i].date)
  {
    var merged := MergedRows(series, weather, profiles);
    var labels := RoundRobin(names, |merged|);
    seq(|merged|, i requires 0 <= i < |merged| => FullRowOf(merged[i], labels[i], monthOfDay))
  }

  /** The right-hand columns of a row whose weather lookup gave `w`. */
  function IrradianceOf(w: Option<WeatherRow>): Option<real> { if w.Some? then w.value.irradiance else None }
  function TemperatureOf(w: Option<WeatherRow>): Option<real> { if w.Some? then w.value.temperature else None }
  function CloudinessOf(w: Option<WeatherRow>): Option<real> { if w.Some? then w.value.cloudiness else None }
  function TheoreticalOf(p: Option<ProfileRow>): Option<real> { if p.Some? then p.value.theoretical else None }

  /**
   * With `DateTime` unique in the weather and the profile tables, `df_full`
   * has one row per production row, in order: the production columns are
   * those of that row, the weather and profile columns those of the rows
   * with the same timestamp (missing where there is none), and the station
   * label of row `i` is `station_names[i mod n]`.
   */
  lemma FullTableOneRowPerSeriesRow(series: seq<Keyed<SeriesRow>>, weather: seq<Keyed<WeatherRow>>,
                                    profiles: seq<Keyed<ProfileRow>>, names: seq<string>, monthOfDay: int -> int)
    requires UniqueTimes(weather) && UniqueTimes(profiles)
    requires |names| > 0 || series == []
    ensures var full := FullTable(series, weather, profiles, names, monthOfDay);
      && |full| == |series|
      && forall i :: 0 <= i < |series| ==>
           && full[i].time == series[i].time
           && full[i].actual == series[i].data.actual
           && full[i].irradiance == IrradianceOf(Lookup(weather, series[i].time))
           && full[i].temperature == TemperatureOf(Lookup(weather, series[i].time))
           && full[i].cloudiness == CloudinessOf(Lookup(weather, series[i].time))
           && full[i].theoretical == TheoreticalOf(Lookup(profiles, series[i].time))
           && full[i].station == names[i % |names|]
  {
    var first := LeftMerge(series, weather);
    LeftMergeOneRowPerLeftRow(series, weather);
    LeftMergeOneRowPerLeftRow(first, profiles);
    var full := FullTable(series, weather, profiles, names, monthOfDay);
    forall i | 0 <= i < |series|
      ensures full[i].time == series[i].time && full[i].actual == series[i].data.actual
    {
      assert first[i].time == series[i].time;
    }
  }
}
