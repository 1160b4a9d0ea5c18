/**
 * The two summaries of the multi-source script (PV_analysis.py:35-48):
 * `df_full` grouped by station and date, and by station and month. Each
 * group gives the sums of the production columns and the means of the
 * others (missing values skipped). A summary is modelled as a map from the
 * group key to the aggregated row.
 */
module Summaries {
  import opened Cells
  import opened Reducers
  import opened Stations

  /** The key of `groupby(['System_Name','Date'])`. */
  datatype StationDay = StationDay(station: string, date: int)

  /** The key of `groupby(['System_Name','Month'])`. */
  datatype StationMonth = StationMonth(station: string, month: int)

  /** A row of `daily_summary`. */
  datatype DayStats = DayStats(actual: real, theoretical: real, efficiency: Ratio,
                               irradiance: Option<real>, temperature: Option<real>, cloudiness: Option<real>)

  /** A row of `monthly_summary`. */
  datatype MonthStats = MonthStats(actual: real, theoretical: real, efficiency: Ratio)

  function DayKey(r: FullRow): StationDay { StationDay(r.station, r.date) }
  function MonthKey(r: FullRow): StationMonth { StationMonth(r.station, r.month) }

  function Actual(r: FullRow): Option<real> { r.actual }
  function Theoretical(r: FullRow): Option<real> { r.theoretical }
  function Irradiance(r: FullRow): Option<real> { r.irradiance }
  function Temperature(r: FullRow): Option<real> { r.temperature }
  function Cloudiness(r: FullRow): Option<real> { r.cloudiness }

  /** The `Efficiency_Calc` column of some rows. */
  function Efficiencies(g: seq<FullRow>): (es: seq<Ratio>)
    ensures |es| == |g|
  {
    seq(|g|, i requires 0 <= i < |g| => g[i].efficiency)
  }

  /** The keys that occur in the table. */
  function PresentKeys<K>(full: seq<FullRow>, key: FullRow -> K): set<K>
  {
    set i | 0 <= i < |full| :: key(full[i])
  }

  /**
   * The aggregation of one station-day: a production sum without a present
   * value is 0, a weather mean without one is missing, and the efficiency
   * mean is NaN exactly when no efficiency is a number or a +inf meets a -inf.
   */
  function DayStatsOf(g: seq<FullRow>): (r: DayStats)
    ensures CountPresent(Project(g, Actual)) == 0.0 ==> r.actual == 0.0
    ensures CountPresent(Project(g, Theoretical)) == 0.0 ==> r.theoretical == 0.0
    ensures r.efficiency.NaN? <==> NumberCount(Efficiencies(g)) == 0.0 || (PosInf in Efficiencies(g) && NegInf in Efficiencies(g))
    ensures r.irradiance.None? <==> forall i :: 0 <= i < |g| ==> g[i].irradiance.None?
    ensures r.temperature.None? <==> forall i :: 0 <= i < |g| ==> g[i].temperature.None?
    ensures r.cloudiness.None? <==> forall i :: 0 <= i < |g| ==> g[i].cloudiness.None?
  {
    SumPresentOfMissing(Project(g, Actual));
    SumPresentOfMissing(Project(g, Theoretical));
    DayStats(SumPresent(Project(g, Actual)), SumPresent(Project(g, Theoretical)), MeanRatio(Efficiencies(g)),
             MeanPresent(Project(g, Irradiance)), MeanPresent(Project(g, Temperature)), MeanPresent(Project(g, Cloudiness)))
  }

  /** The aggregation of one station-month, with the same sums and efficiency mean. */
  function MonthStatsOf(g: seq<FullRow>): (r: MonthStats)
    ensures CountPresent(Project(g, Actual)) == 0.0 ==> r.actual == 0.0
    ensures CountPresent(Project(g, Theoretical)) == 0.0 ==> r.theoretical == 0.0
    ensures r.efficiency.NaN? <==> NumberCount(Efficiencies(g)) == 0.0 || (PosInf in Efficiencies(g) && NegInf in Efficiencies(g))
  {
    SumPresentOfMissing(Project(g, Actual));
    SumPresentOfMissing(Project(g, Theoretical));
    MonthStats(SumPresent(Project(g, Actual)), SumPresent(Project(g, Theoretical)), MeanRatio(Efficiencies(g)))
  }

  /**
   * `daily_summary`: one entry per station and date that occur in the
   * table, and only those; no entry aggregates an empty group.
   */
  function DailySummary(full: seq<FullRow>): (m: map<StationDay, DayStats>)
    ensures forall k :: k in m <==> exists i :: 0 <= i < |full| && DayKey(full[i]) == k
    ensures forall k :: k in m ==> KeyGroup(full, DayKey, k) != []
  {
    map k | k in PresentKeys(full, DayKey) :: DayStatsOf(KeyGroup(full, DayKey, k))
  }

  /**
   * `monthly_summary`: one entry per station and month that occur in the
   * table, and only those; no entry aggregates an empty group.
   */
  function MonthlySummary(full: seq<FullRow>): (m: map<StationMonth, MonthStats>)
    ensures forall k :: k in m <==> exists i :: 0 <= i < |full| && MonthKey(full[i]) == k
    ensures forall k :: k in m ==> KeyGroup(full, MonthKey, k) != []
  {
    map k | k in PresentKeys(full, MonthKey) :: MonthStatsOf(KeyGroup(full, MonthKey, k))
  }

  function DayActual(s: DayStats): real { s.actual }
  function DayTheoretical(s: DayStats): real { s.theoretical }
  function MonthActual(s: MonthStats): real { s.actual }
  function MonthTheoretical(s: MonthStats): real { s.theoretical }

  /** The sum of the field `f` of the summary rows listed in `ks`. */
  function SumField<K, V>(m: map<K, V>, ks: seq<K>, f: V -> real): real
    requires forall k :: k in ks ==> k in m
  {
    if ks == [] then 0.0 else f(m[ks[0]]) + SumField(m, ks[1..], f)
  }

  /** Summary rows that hold group sums add up like the groups. */
  lemma {:induction false} SumFieldOverGroups<K, V>(m: map<K, V>, ks: seq<K>, f: V -> real,
                                                   full: seq<FullRow>, key: FullRow -> K, val: FullRow -> Option<real>)
    requires forall k :: k in ks ==> k in m && f(m[k]) == SumPresent(Project(KeyGroup(full, key, k), val))
    ensures SumField(m, ks, f) == SumOverKeys(full, key, val, ks)
  {
    if ks != [] {
      SumFieldOverGroups(m, ks[1..], f, full, key, val);
    }
  }

  /**
   * The station-days of the daily summary partition the table: over any
   * list naming each of its keys once, the daily production totals add up
   * to the production total of the whole table, for the actual and the
   * theoretical production alike.
   */
  lemma DailyTotalsMatchTable(full: seq<FullRow>, ks: seq<StationDay>)
    requires Distinct(ks)
    requires forall k :: k in ks <==> k in DailySummary(full)
    ensures SumField(DailySummary(full), ks, DayActual) == SumPresent(Project(full, Actual))
    ensures SumField(DailySummary(full), ks, DayTheoretical) == SumPresent(Project(full, Theoretical))
  {
    var m := DailySummary(full);
    assert forall i :: 0 <= i < |full| ==> DayKey(full[i]) in ks;
    SumFieldOverGroups(m, ks, DayActual, full, DayKey, Actual);
    GroupSumsPartition(full, DayKey, Actual, ks);
    SumFieldOverGroups(m, ks, DayTheoretical, full, DayKey, Theoretical);
    GroupSumsPartition(full, DayKey, Theoretical, ks);
  }

  /**
   * The same for the monthly summary: over any list naming each of its
   * station-months once, the monthly production totals add up to the
   * production total of the whole table.
   */
  lemma MonthlyTotalsMatchTable(full: seq<FullRow>, ks: seq<StationMonth>)
    requires Distinct(ks)
    requires forall k :: k in ks <==> k in MonthlySummary(full)
    ensures SumField(MonthlySummary(full), ks, MonthActual) == SumPresent(Project(full, Actual))
    ensures SumField(MonthlySummary(full), ks, MonthTheoretical) == SumPresent(Project(full, Theoretical))
  {
    var m := MonthlySummary(full);
    assert forall i :: 0 <= i < |full| ==> MonthKey(full[i]) in ks;
    SumFieldOverGroups(m, ks, MonthActual, full, MonthKey, Actual);
    GroupSumsPartition(full, MonthKey, Actual, ks);
    SumFieldOverGroups(m, ks, MonthTheoretical, full, MonthKey, Theoretical);
    GroupSumsPartition(full, MonthKey, Theoretical, ks);
  }

  /**
   * A month's production sums are the sums of its days: when every row's
   * month is the month of its date, the monthly actual and theoretical
   * production of a station equal the sums of its daily values over the
   * days of that month (listed once each).
   */
  lemma MonthlyIsSumOfDaily(full: seq<FullRow>, monthOfDay: int -> int, station: string, month: int, ks: seq<StationDay>)
    requires forall i :: 0 <= i < |full| ==> full[i].month == monthOfDay(full[i].date)
    requires StationMonth(station, month) in MonthlySummary(full)
    requires Distinct(ks)
    requires forall k :: k in ks ==> k in DailySummary(full) && k.station == station && monthOfDay(k.date) == month
    requires forall i :: 0 <= i < |full| && full[i].station == station && full[i].month == month ==> DayKey(full[i]) in ks
    ensures MonthlySummary(full)[StationMonth(station, month)].actual == SumField(DailySummary(full), ks, DayActual)
    ensures MonthlySummary(full)[StationMonth(station, month)].theoretical == SumField(DailySummary(full), ks, DayTheoretical)
  {
    var mk := StationMonth(station, month);
    assert forall i :: 0 <= i < |full| ==> (MonthKey(full[i]) == mk <==> DayKey(full[i]) in ks);
    var daily := DailySummary(full);
    GroupSumRefines(full, DayKey, MonthKey, Actual, mk, ks);
    SumFieldOverGroups(daily, ks, DayActual, full, DayKey, Actual);
    GroupSumRefines(full, DayKey, MonthKey, Theoretical, mk, ks);
    SumFieldOverGroups(daily, ks, DayTheoretical, full, DayKey, Theoretical);
  }
}
