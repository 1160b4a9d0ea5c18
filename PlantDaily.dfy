/**
 * The daily table of the single-plant pipeline (central.py): the daily
 * resample with its reducers, the performance ratio, and the time of peak
 * module temperature with the power read at that time, which the script
 * computes by a separate `groupby` on the date and assigns to the resampled
 * table by position.
 */
module PlantDaily {
  import opened Cells
  import opened Reducers
  import opened Calendar
  import opened Cleaning

  /** Installed peak power of the plant, in kWc (`puissance_installee`). */
  const InstalledPower: real := 4641.0

  /** The columns of one timestamp that the daily table reads. */
  datatype Reading = Reading(time: int, temperature: Option<real>, power: Option<real>, irradiation: Option<real>)

  function Time(r: Reading): int { r.time }
  function Day(r: Reading): int { DayOf(r.time) }
  function PowerOf(r: Reading): Option<real> { r.power }
  function Irradiation(r: Reading): Option<real> { r.irradiation }

  /** The rows of the plant table, restricted to module temperature, power and plane irradiation. */
  function Readings(index: seq<int>, columns: map<Column, seq<Option<real>>>): (rs: seq<Reading>)
    requires WellFormed(index, columns)
    ensures |rs| == |index|
    ensures forall i :: 0 <= i < |rs| ==>
              rs[i] == Reading(index[i], columns[ModuleTemperature][i], columns[Power][i], columns[IrradiationPlane][i])
  {
    seq(|index|, i requires 0 <= i < |index| =>
      Reading(index[i], columns[ModuleTemperature][i], columns[Power][i], columns[IrradiationPlane][i]))
  }

  /** The module temperature column of the readings. */
  function Temperatures(rs: seq<Reading>): (temps: seq<Option<real>>)
    ensures |temps| == |rs|
  {
    seq(|rs|, i requires 0 <= i < |rs| => rs[i].temperature)
  }

  /** The index of the readings. */
  function Times(rs: seq<Reading>): (ts: seq<int>)
    ensures |ts| == |rs|
  {
    seq(|rs|, i requires 0 <= i < |rs| => rs[i].time)
  }

  lemma ReadingsTimes(index: seq<int>, columns: map<Column, seq<Option<real>>>)
    requires WellFormed(index, columns)
    ensures Times(Readings(index, columns)) == index
  {
  }

  // ---------------------------------------------------------------------
  // The days of the two groupings
  // ---------------------------------------------------------------------

  predicate NonDecreasing(ds: seq<int>)
  {
    forall i, j :: 0 <= i < j < |ds| ==> ds[i] <= ds[j]
  }

  /** Consecutive equal keys collapsed to one. */
  function Dedup(ds: seq<int>): (r: seq<int>)
    ensures forall x :: x in r <==> x in ds
    ensures NonDecreasing(ds) ==> StrictlyIncreasing(r)
  {
    if |ds| <= 1 then ds
    else if ds[0] == ds[1] then Dedup(ds[1..])
    else
      var rest := Dedup(ds[1..]);
      assert forall x :: x in ds <==> x == ds[0] || x in ds[1..];
      assert NonDecreasing(ds) ==> StrictlyIncreasing([ds[0]] + rest) by {
        if NonDecreasing(ds) {
          assert NonDecreasing(ds[1..]);
          forall x | x in rest ensures ds[0] < x {
            var m :| 0 <= m < |ds[1..]| && ds[1..][m] == x;
            assert x == ds[m + 1];
          }
          var r := [ds[0]] + rest;
          forall i, j | 0 <= i < j < |r| ensures r[i] < r[j] {
            if i == 0 {
              assert r[j] in rest;
            } else {
              assert r[i] == rest[i - 1] && r[j] == rest[j - 1];
            }
          }
        }
      }
      [ds[0]] + rest
  }

  /** The day key of each timestamp. */
  function DayKeys(ts: seq<int>): (ks: seq<int>)
    ensures |ks| == |ts|
  {
    seq(|ts|, i requires 0 <= i < |ts| => DayOf(ts[i]))
  }

  /**
   * The keys of `groupby(df.index.date)`: the days that hold at least one
   * row, ascending (the timestamps are sorted, so collapsing consecutive
   * equal days gives the sorted distinct days).
   */
  function GroupDays(ts: seq<int>): (days: seq<int>)
    ensures forall d :: d in days <==> exists i :: 0 <= i < |ts| && DayOf(ts[i]) == d
  {
    var ks := DayKeys(ts);
    assert forall i :: 0 <= i < |ts| ==> ks[i] == DayOf(ts[i]);
    Dedup(ks)
  }

  /** Every day from `lo` to `hi`, both included. */
  function DayRange(lo: int, hi: int): (r: seq<int>)
    ensures hi >= lo ==> |r| == hi - lo + 1
    ensures forall k :: 0 <= k < |r| ==> r[k] == lo + k
  {
    if hi < lo then [] else seq(hi - lo + 1, k requires 0 <= k <= hi - lo => lo + k)
  }

  /** The rows of `resample('D')`: every day from the first timestamp's to the last one's. */
  function ResampleDays(ts: seq<int>): (days: seq<int>)
    ensures ts == [] ==> days == []
    ensures ts != [] ==> forall k :: 0 <= k < |days| ==> days[k] == DayOf(ts[0]) + k
    ensures ts != [] && DayOf(ts[0]) <= DayOf(ts[|ts| - 1]) ==>
              |days| > 0 && days[|days| - 1] == DayOf(ts[|ts| - 1])
  {
    if ts == [] then [] else DayRange(DayOf(ts[0]), DayOf(ts[|ts| - 1]))
  }

  /** No calendar day between the first and last timestamp is without a row. */
  predicate NoEmptyDay(ds: seq<int>)
  {
    forall i :: 0 <= i < |ds| - 1 ==> ds[i + 1] <= ds[i] + 1
  }

  lemma DayKeysSorted(ts: seq<int>)
    requires StrictlyIncreasing(ts)
    ensures NonDecreasing(DayKeys(ts))
  {
    forall i, j | 0 <= i < j < |ts| ensures DayKeys(ts)[i] <= DayKeys(ts)[j] {
      DayOfMonotone(ts[i], ts[j]);
    }
  }

  lemma NoEmptyDayTail(ds: seq<int>)
    requires |ds| > 1
    ensures NoEmptyDay(ds) <==> ds[1] <= ds[0] + 1 && NoEmptyDay(ds[1..])
  {
    var tail := ds[1..];
    if NoEmptyDay(ds) {
      forall i | 0 <= i < |tail| - 1 ensures tail[i + 1] <= tail[i] + 1 {
        assert tail[i] == ds[i + 1] && tail[i + 1] == ds[i + 2];
      }
    }
    if ds[1] <= ds[0] + 1 && NoEmptyDay(tail) {
      forall i | 1 <= i < |ds| - 1 ensures ds[i + 1] <= ds[i] + 1 {
        assert ds[i] == tail[i - 1] && ds[i + 1] == tail[i];
      }
    }
  }

  /**
   * Over sorted day keys, collapsing repeats gives at most one key per day
   * of the range, and exactly one per day when no day is empty.
   */
  lemma {:induction false} DedupCoversRange(ds: seq<int>)
    requires ds != [] && NonDecreasing(ds)
    ensures |Dedup(ds)| <= ds[|ds| - 1] - ds[0] + 1
    ensures |Dedup(ds)| == ds[|ds| - 1] - ds[0] + 1 <==> NoEmptyDay(ds)
  {
    if |ds| > 1 {
      var tail := ds[1..];
      assert NonDecreasing(tail);
      assert ds[0] <= ds[1];
      DedupCoversRange(tail);
      assert tail[|tail| - 1] == ds[|ds| - 1];
      NoEmptyDayTail(ds);
    }
  }

  /** With no empty day, the collapsed keys are the whole range of days. */
  lemma {:induction false} DedupIsRange(ds: seq<int>)
    requires ds != [] && NonDecreasing(ds) && NoEmptyDay(ds)
    ensures Dedup(ds) == DayRange(ds[0], ds[|ds| - 1])
  {
    if |ds| > 1 {
      var tail := ds[1..];
      var last := ds[|ds| - 1];
      assert NonDecreasing(tail);
      assert ds[0] <= ds[1];
      NoEmptyDayTail(ds);
      DedupIsRange(tail);
      assert tail[|tail| - 1] == last;
      if ds[0] != ds[1] {
        assert ds[1] == ds[0] + 1 && ds[1] <= last;
        DayRangeCons(ds[0], last);
      }
    }
  }

  /** A range of days is its first day followed by the rest. */
  lemma DayRangeCons(lo: int, hi: int)
    requires lo < hi
    ensures DayRange(lo, hi) == [lo] + DayRange(lo + 1, hi)
  {
    assert DayRange(lo, hi)[1..] == DayRange(lo + 1, hi);
  }

  /**
   * The positional assignment of the peak times (central.py:72) lines up
   * the `groupby` days with the `resample` days: the two lists have the
   * same length exactly when no day is empty, and then they are equal.
   */
  lemma GroupDaysMatchResampleDays(ts: seq<int>)
    requires StrictlyIncreasing(ts)
    ensures |GroupDays(ts)| == |ResampleDays(ts)| <==> NoEmptyDay(DayKeys(ts))
    ensures NoEmptyDay(DayKeys(ts)) ==> GroupDays(ts) == ResampleDays(ts)
  {
    if ts != [] {
      DayKeysSorted(ts);
      DedupCoversRange(DayKeys(ts));
      if NoEmptyDay(DayKeys(ts)) {
        DedupIsRange(DayKeys(ts));
      }
    }
  }

  // ---------------------------------------------------------------------
  // Reducers of one day, peak temperature and its power
  // ---------------------------------------------------------------------

  /** The rows of day `d`, in time order. */
  function DayGroup(rs: seq<Reading>, d: int): seq<Reading>
  {
    KeyGroup(rs, Day, d)
  }

  /** Day `d` holds a reading with a module temperature (`idxmax` needs one). */
  predicate TemperatureObserved(rs: seq<Reading>, d: int)
  {
    exists i :: 0 <= i < |rs| && Day(rs[i]) == d && rs[i].temperature.Some?
  }

  lemma ObservedInGroup(rs: seq<Reading>, d: int)
    requires TemperatureObserved(rs, d)
    ensures FirstArgMax(Temperatures(DayGroup(rs, d))).Some?
  {
    var i :| 0 <= i < |rs| && Day(rs[i]) == d && rs[i].temperature.Some?;
    var g := DayGroup(rs, d);
    assert rs[i] in g;
    var j :| 0 <= j < |g| && g[j] == rs[i];
    assert Temperatures(g)[j].Some?;
  }

  /**
   * `heure_temp_max`: the timestamp label that `idxmax` returns for the
   * module temperature of day `d`, the first reading holding the day's maximum.
   */
  function PeakTime(rs: seq<Reading>, d: int): (t: int)
    requires TemperatureObserved(rs, d)
    ensures exists i :: 0 <= i < |rs| && rs[i].time == t
  {
    ObservedInGroup(rs, d);
    var g := DayGroup(rs, d);
    var k := FirstArgMax(Temperatures(g)).value;
    assert g[k] in rs;
    g[k].time
  }

  /** `df.loc[t]` as a position: the first row whose timestamp is `t`. */
  function LocatePosition(rs: seq<Reading>, t: int): (p: Option<nat>)
    ensures p.Some? ==> p.value < |rs| && rs[p.value].time == t
    ensures p.Some? ==> forall i :: 0 <= i < p.value ==> rs[i].time != t
    ensures p.None? <==> forall i :: 0 <= i < |rs| ==> rs[i].time != t
  {
    if rs == [] then None
    else if rs[0].time == t then Some(0)
    else
      var p := LocatePosition(rs[1..], t);
      assert forall i :: 1 <= i < |rs| ==> rs[i] == rs[1..][i - 1];
      if p.None? then None else Some(p.value + 1)
  }

  /** `df.loc[t, 'Puissance [kW]']`; a timestamp absent from the index is a `KeyError`. */
  function PowerAt(rs: seq<Reading>, t: int): (power: Option<real>)
    requires exists i :: 0 <= i < |rs| && rs[i].time == t
    ensures exists p :: 0 <= p < |rs| && rs[p].time == t && power == rs[p].power &&
              forall i :: 0 <= i < p ==> rs[i].time != t
  {
    rs[LocatePosition(rs, t).value].power
  }

  /** RP = daily energy / (installed power × daily irradiation), as a float division. */
  function PerformanceRatio(energy: real, irradiation: real): (rp: Ratio)
    ensures irradiation != 0.0 ==> rp.Finite? && rp.value * (InstalledPower * irradiation) == energy
    ensures irradiation == 0.0 ==> !rp.Finite?
  {
    Divide(energy, InstalledPower * irradiation)
  }

  /** One row of the daily table (central.py:53-73). */
  datatype DailyRow = DailyRow(
    day: int,
    tempMean: Option<real>,      // Temp_module_moy
    tempMax: Option<real>,       // Temp_module_max
    energy: real,                // Energie_journaliere
    irradiation: real,           // Irradiation_journaliere
    rp: Ratio,                   // RP
    timeOfMax: int,              // Heure_temp_max
    powerAtMax: Option<real>)    // Puissance_temp_max

  /** The day column of a daily table. */
  function Days(table: seq<DailyRow>): (ds: seq<int>)
    ensures |ds| == |table|
  {
    seq(|table|, k requires 0 <= k < |table| => table[k].day)
  }

  function Energy(row: DailyRow): real { row.energy }
  function DailyIrradiation(row: DailyRow): real { row.irradiation }

  /**
   * The row of resampled day `d`; its peak columns come from the `groupby`
   * day `peakDay` that the positional assignment puts beside it.
   */
  function DailyRowFor(rs: seq<Reading>, d: int, peakDay: int): (row: DailyRow)
    requires TemperatureObserved(rs, peakDay)
    ensures row.day == d
    ensures row.rp == PerformanceRatio(row.energy, row.irradiation)
    ensures row.tempMean.None? <==> row.tempMax.None?
    ensures exists i :: 0 <= i < |rs| && rs[i].time == row.timeOfMax && row.powerAtMax == rs[i].power
  {
    var g := DayGroup(rs, d);
    var temps := Temperatures(g);
    var energy := SumPresent(Project(g, PowerOf));
    var irradiation := SumPresent(Project(g, Irradiation));
    var t := PeakTime(rs, peakDay);
    DailyRow(d, MeanPresent(temps), MaxPresent(temps), energy, irradiation,
             PerformanceRatio(energy, irradiation), t, PowerAt(rs, t))
  }

  /** Every `groupby` day has a module temperature reading. */
  predicate EveryDayHasTemperature(rs: seq<Reading>)
  {
    forall d :: d in GroupDays(Times(rs)) ==> TemperatureObserved(rs, d)
  }

  /** The rows of `days`, row `k` taking its peak columns from the day `peaks[k]`. */
  function DailyRows(rs: seq<Reading>, days: seq<int>, peaks: seq<int>): (rows: seq<DailyRow>)
    requires |peaks| == |days|
    requires forall p :: p in peaks ==> TemperatureObserved(rs, p)
    ensures |rows| == |days|
    ensures forall k :: 0 <= k < |rows| ==> rows[k].day == days[k]
    ensures forall k :: 0 <= k < |rows| ==> rows[k].rp == PerformanceRatio(rows[k].energy, rows[k].irradiation)
  {
    if days == [] then []
    else [DailyRowFor(rs, days[0], peaks[0])] + DailyRows(rs, days[1..], peaks[1..])
  }

  lemma {:induction false} DailyRowsAt(rs: seq<Reading>, days: seq<int>, peaks: seq<int>, k: nat)
    requires |peaks| == |days| && k < |days|
    requires forall p :: p in peaks ==> TemperatureObserved(rs, p)
    ensures DailyRows(rs, days, peaks)[k] == DailyRowFor(rs, days[k], peaks[k])
  {
    if k > 0 {
      assert forall p :: p in peaks[1..] ==> p in peaks;
      DailyRowsAt(rs, days[1..], peaks[1..], k - 1);
    }
  }

  /**
   * What the daily table demands of the readings: a sorted index, a
   * reading with a module temperature on every day that has readings, and
   * as many `groupby` days as resampled days, without which the positional
   * assignment of the peak columns raises an error.
   */
  predicate DailyTableDefined(rs: seq<Reading>)
  {
    && StrictlyIncreasing(Times(rs))
    && |GroupDays(Times(rs))| == |ResampleDays(Times(rs))|
    && EveryDayHasTemperature(rs)
  }

  /** The daily table (central.py:53-73). */
  function DailyTable(rs: seq<Reading>): (table: seq<DailyRow>)
    requires DailyTableDefined(rs)
    ensures |table| == |ResampleDays(Times(rs))|
    ensures forall k :: 0 <= k < |table| ==> table[k].day == ResampleDays(Times(rs))[k]
    ensures forall k :: 0 <= k < |table| ==> table[k].rp == PerformanceRatio(table[k].energy, table[k].irradiation)
  {
    DailyRows(rs, ResampleDays(Times(rs)), GroupDays(Times(rs)))
  }

  /** Row `k` of the daily table: both its aggregates and its peak columns come from day `k`. */
  lemma DailyTableAt(rs: seq<Reading>, k: nat)
    requires DailyTableDefined(rs)
    requires k < |DailyTable(rs)|
    ensures GroupDays(Times(rs)) == ResampleDays(Times(rs))
    ensures DailyTable(rs)[k] == DailyRowFor(rs, GroupDays(Times(rs))[k], GroupDays(Times(rs))[k])
  {
    GroupDaysMatchResampleDays(Times(rs));
    DailyRowsAt(rs, ResampleDays(Times(rs)), GroupDays(Times(rs)), k);
  }

  // ---------------------------------------------------------------------
  // What the daily table promises
  // ---------------------------------------------------------------------

  /** The `groupby` days are ascending and are exactly the days of the readings. */
  lemma GroupDaysAreReadingDays(rs: seq<Reading>)
    requires StrictlyIncreasing(Times(rs))
    ensures StrictlyIncreasing(GroupDays(Times(rs)))
    ensures forall i :: 0 <= i < |rs| ==> Day(rs[i]) in GroupDays(Times(rs))
    ensures forall d :: d in GroupDays(Times(rs)) ==> exists i :: 0 <= i < |rs| && Day(rs[i]) == d
  {
    var ts := Times(rs);
    DayKeysSorted(ts);
    assert forall i :: 0 <= i < |rs| ==> ts[i] == rs[i].time;
  }

  /**
   * One row per calendar day that holds data, ascending: the table's days
   * are exactly the days of the readings, each once.
   */
  lemma DailyTableOneRowPerDay(rs: seq<Reading>)
    requires DailyTableDefined(rs)
    ensures StrictlyIncreasing(Days(DailyTable(rs)))
    ensures forall i :: 0 <= i < |rs| ==> Day(rs[i]) in Days(DailyTable(rs))
    ensures forall d :: d in Days(DailyTable(rs)) ==> exists i :: 0 <= i < |rs| && Day(rs[i]) == d
  {
    GroupDaysMatchResampleDays(Times(rs));
    assert Days(DailyTable(rs)) == GroupDays(Times(rs));
    GroupDaysAreReadingDays(rs);
  }

  /** The position of a reading of day `d` within the day's group. */
  lemma GroupPosition(rs: seq<Reading>, d: int, j: nat) returns (b: nat)
    requires j < |rs| && Day(rs[j]) == d
    ensures b < |DayGroup(rs, d)| && DayGroup(rs, d)[b] == rs[j]
  {
    var g := DayGroup(rs, d);
    assert rs[j] in g;
    b :| 0 <= b < |g| && g[b] == rs[j];
  }

  lemma BeforePeak(g: seq<Reading>, a: nat)
    requires FirstArgMax(Temperatures(g)) == Some(a)
    ensures a < |g|
    ensures forall b :: 0 <= b < a ==> g[b].temperature != g[a].temperature
  {
    var temps := Temperatures(g);
    forall b | 0 <= b < a ensures g[b].temperature != g[a].temperature {
      assert temps[b] == g[b].temperature && temps[a] == g[a].temperature;
    }
  }

  lemma NotBeforeInTime(g: seq<Reading>, a: nat)
    requires OrderedBy(g, Time)
    requires a < |g|
    ensures forall b :: a <= b < |g| ==> g[a].time <= g[b].time
  {
    forall b | a <= b < |g| ensures g[a].time <= g[b].time {
      assert Time(g[a]) <= Time(g[b]);
    }
  }

  /** In a time-ordered group, `idxmax` picks the earliest reading holding the maximum. */
  lemma FirstPeakOfGroup(g: seq<Reading>, a: nat)
    requires OrderedBy(g, Time)
    requires FirstArgMax(Temperatures(g)) == Some(a)
    ensures a < |g| && g[a].temperature == MaxPresent(Temperatures(g))
    ensures forall b :: 0 <= b < |g| && g[b].time < g[a].time ==> g[b].temperature != g[a].temperature
  {
    BeforePeak(g, a);
    NotBeforeInTime(g, a);
  }

  /** With a strictly increasing index, `df.loc` at a reading's timestamp finds that reading. */
  lemma LocateReading(rs: seq<Reading>, i: nat)
    requires StrictlyIncreasing(Times(rs))
    requires i < |rs|
    ensures LocatePosition(rs, rs[i].time) == Some(i)
    ensures PowerAt(rs, rs[i].time) == rs[i].power
  {
    var ts := Times(rs);
    var p := LocatePosition(rs, rs[i].time).value;
    assert ts[p] == ts[i];
  }

  /** `Temp_module_max` of day `d` bounds every module temperature read that day. */
  lemma DayMaximumBound(rs: seq<Reading>, d: int)
    requires TemperatureObserved(rs, d)
    ensures MaxPresent(Temperatures(DayGroup(rs, d))).Some?
    ensures forall j :: 0 <= j < |rs| && Day(rs[j]) == d && rs[j].temperature.Some? ==>
              rs[j].temperature.value <= MaxPresent(Temperatures(DayGroup(rs, d))).value
  {
    ObservedInGroup(rs, d);
    forall j | 0 <= j < |rs| && Day(rs[j]) == d && rs[j].temperature.Some?
      ensures rs[j].temperature.value <= MaxPresent(Temperatures(DayGroup(rs, d))).value
    {
      var b := GroupPosition(rs, d, j);
      assert Temperatures(DayGroup(rs, d))[b] == rs[j].temperature;
    }
  }

  /**
   * `heure_temp_max` of day `d` is the time of a reading of that day that
   * holds the day's maximum module temperature, no earlier reading of the
   * day reaches that maximum, and the power looked up at that time is the
   * power of that same reading.
   */
  lemma PeakTimeIsFirstMaximum(rs: seq<Reading>, d: int)
    requires StrictlyIncreasing(Times(rs))
    requires TemperatureObserved(rs, d)
    ensures var m := MaxPresent(Temperatures(DayGroup(rs, d)));
      && m.Some?
      && (exists i :: 0 <= i < |rs| && rs[i].time == PeakTime(rs, d) && Day(rs[i]) == d
            && rs[i].temperature == m && PowerAt(rs, PeakTime(rs, d)) == rs[i].power)
      && (forall j :: 0 <= j < |rs| && Day(rs[j]) == d && rs[j].temperature.Some? ==>
            rs[j].temperature.value <= m.value)
      && (forall j :: 0 <= j < |rs| && Day(rs[j]) == d && rs[j].time < PeakTime(rs, d) ==>
            rs[j].temperature != m)
  {
    var ts := Times(rs);
    ObservedInGroup(rs, d);
    var g := DayGroup(rs, d);
    var a := FirstArgMax(Temperatures(g)).value;
    var m := MaxPresent(Temperatures(g));
    assert OrderedBy(rs, Time) by {
      assert forall j :: 0 <= j < |rs| ==> ts[j] == Time(rs[j]);
    }
    KeyGroupOrdered(rs, Day, d, Time);
    FirstPeakOfGroup(g, a);
    assert PeakTime(rs, d) == g[a].time;
    assert g[a] in rs;
    var i :| 0 <= i < |rs| && rs[i] == g[a];
    LocateReading(rs, i);
    DayMaximumBound(rs, d);
    forall j | 0 <= j < |rs| && Day(rs[j]) == d && rs[j].time < g[a].time
      ensures rs[j].temperature != m
    {
      var b := GroupPosition(rs, d, j);
    }
  }

  /**
   * The peak columns of row `k`: `Heure_temp_max` falls on the row's own
   * day, the reading at that time holds the day's maximum temperature
   * `Temp_module_max`, no earlier reading of that day reaches it, and
   * `Puissance_temp_max` is the power of that same reading.
   */
  lemma DailyPeakIsFirstMaximum(rs: seq<Reading>, k: nat)
    requires DailyTableDefined(rs)
    requires k < |DailyTable(rs)|
    ensures var row := DailyTable(rs)[k];
      && row.tempMax.Some?
      && (exists i :: 0 <= i < |rs| && rs[i].time == row.timeOfMax && Day(rs[i]) == row.day
            && rs[i].temperature == row.tempMax && rs[i].power == row.powerAtMax)
      && (forall j :: 0 <= j < |rs| && Day(rs[j]) == row.day && rs[j].temperature.Some? ==>
            rs[j].temperature.value <= row.tempMax.value)
      && (forall j :: 0 <= j < |rs| && Day(rs[j]) == row.day && rs[j].time < row.timeOfMax ==>
            rs[j].temperature != row.tempMax)
  {
    DailyTableAt(rs, k);
    var d := GroupDays(Times(rs))[k];
    assert d in GroupDays(Times(rs));
    PeakTimeIsFirstMaximum(rs, d);
  }

  /** Sum of a column of the daily table. */
  function Total(table: seq<DailyRow>, f: DailyRow -> real): real
  {
    if table == [] then 0.0 else f(table[0]) + Total(table[1..], f)
  }

  lemma {:induction false} TotalOverDays(rs: seq<Reading>, table: seq<DailyRow>, days: seq<int>,
                                         f: DailyRow -> real, val: Reading -> Option<real>)
    requires |table| == |days|
    requires forall k :: 0 <= k < |table| ==> f(table[k]) == SumPresent(Project(DayGroup(rs, days[k]), val))
    ensures Total(table, f) == SumOverKeys(rs, Day, val, days)
  {
    if table != [] {
      TotalOverDays(rs, table[1..], days[1..], f, val);
    }
  }

  /** A column of the daily table whose rows sum `val` over their day sums `val` over all readings. */
  lemma DailyTotal(rs: seq<Reading>, f: DailyRow -> real, val: Reading -> Option<real>)
    requires DailyTableDefined(rs)
    requires forall k :: 0 <= k < |DailyTable(rs)| ==>
               f(DailyTable(rs)[k]) == SumPresent(Project(DayGroup(rs, DailyTable(rs)[k].day), val))
    ensures Total(DailyTable(rs), f) == SumPresent(Project(rs, val))
  {
    var days := ResampleDays(Times(rs));
    GroupDaysMatchResampleDays(Times(rs));
    GroupDaysAreReadingDays(rs);
    assert Distinct(days);
    TotalOverDays(rs, DailyTable(rs), days, f, val);
    GroupSumsPartition(rs, Day, val, days);
  }

  /**
   * Summing `Energie_journaliere` over the daily table gives the sum of
   * `Puissance [kW]` over all readings, and likewise for the irradiation:
   * every reading is counted in exactly one day.
   */
  lemma DailyTotalsMatchReadings(rs: seq<Reading>)
    requires DailyTableDefined(rs)
    ensures Total(DailyTable(rs), Energy) == SumPresent(Project(rs, PowerOf))
    ensures Total(DailyTable(rs), DailyIrradiation) == SumPresent(Project(rs, Irradiation))
  {
    var table := DailyTable(rs);
    forall k | 0 <= k < |table|
      ensures Energy(table[k]) == SumPresent(Project(DayGroup(rs, table[k].day), PowerOf))
      ensures DailyIrradiation(table[k]) == SumPresent(Project(DayGroup(rs, table[k].day), Irradiation))
    {
      DailyTableAt(rs, k);
    }
    DailyTotal(rs, Energy, PowerOf);
    DailyTotal(rs, DailyIrradiation, Irradiation);
  }

  /**
   * What an RP value says about its day: with non-zero irradiation, RP times
   * the installed power times the irradiation is the energy; with zero
   * irradiation it is NaN, +inf or -inf as the energy is zero, positive or
   * negative, as the source does not guard the division.
   */
  predicate RatioOutcome(rp: Ratio, energy: real, irradiation: real)
  {
    && (irradiation != 0.0 ==> rp.Finite? && rp.value * (InstalledPower * irradiation) == energy)
    && (irradiation == 0.0 && energy == 0.0 ==> rp.NaN?)
    && (irradiation == 0.0 && energy > 0.0 ==> rp.PosInf?)
    && (irradiation == 0.0 && energy < 0.0 ==> rp.NegInf?)
  }

  lemma RowRatio(rp: Ratio, energy: real, irradiation: real)
    requires rp == PerformanceRatio(energy, irradiation)
    ensures RatioOutcome(rp, energy, irradiation)
  {
  }

  /** The RP column: every day's RP has that outcome for the day's energy and irradiation. */
  lemma DailyPerformanceRatio(rs: seq<Reading>, k: nat)
    requires DailyTableDefined(rs)
    requires k < |DailyTable(rs)|
    ensures RatioOutcome(DailyTable(rs)[k].rp, DailyTable(rs)[k].energy, DailyTable(rs)[k].irradiation)
  {
    var row := DailyTable(rs)[k];
    assert row.rp == PerformanceRatio(row.energy, row.irradiation);
    RowRatio(row.rp, row.energy, row.irradiation);
  }

  /**
   * With non-negative irradiation readings (as the clamp leaves them) every
   * daily irradiation is non-negative, and the mean module temperature of a
   * day never exceeds its maximum.
   */
  lemma DailyRowBounds(rs: seq<Reading>, k: nat)
    requires DailyTableDefined(rs)
    requires forall i :: 0 <= i < |rs| && rs[i].irradiation.Some? ==> rs[i].irradiation.value >= 0.0
    requires k < |DailyTable(rs)|
    ensures DailyTable(rs)[k].irradiation >= 0.0
    ensures DailyTable(rs)[k].tempMean.Some? && DailyTable(rs)[k].tempMax.Some?
    ensures DailyTable(rs)[k].tempMean.value <= DailyTable(rs)[k].tempMax.value
  {
    var ts := Times(rs);
    DailyTableAt(rs, k);
    var row := DailyTable(rs)[k];
    var g := DayGroup(rs, row.day);
    var irr := Project(g, Irradiation);
    forall i | 0 <= i < |irr| && irr[i].Some? ensures irr[i].value >= 0.0 {
      assert g[i] in rs;
    }
    SumPresentNonNegative(irr);
    assert row.day in GroupDays(ts);
    ObservedInGroup(rs, row.day);
    MeanAtMostMax(Temperatures(g));
  }
}
