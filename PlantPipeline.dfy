/**
 * The single-plant script from the cleaned frame to the anomaly lists
 * (central.py:23-73 and 185-195): the clamp and the interpolation rewrite
 * the table in place, then the daily table is built from it and filtered.
 */
module PlantPipeline {
  import opened Cells
  import opened Calendar
  import opened Reducers
  import opened Cleaning
  import opened PlantDaily
  import opened Anomalies

  /** Every day holding rows has a module temperature reading in `temps`. */
  predicate TemperatureEveryDay(index: seq<int>, temps: seq<Option<real>>)
  {
    forall d :: d in GroupDays(index) ==>
      exists i :: 0 <= i < |index| && i < |temps| && DayOf(index[i]) == d && temps[i].Some?
  }

  /** The first day holding rows has a module temperature reading in `temps`. */
  predicate FirstDayObserved(index: seq<int>, temps: seq<Option<real>>)
  {
    |index| > 0 ==>
      exists i :: 0 <= i < |index| && i < |temps| && DayOf(index[i]) == DayOf(index[0]) && temps[i].Some?
  }

  /**
   * After the time interpolation every day holding rows has a temperature
   * exactly when the first day had one before it: interpolation fills every
   * cell after the first observed one and none before it.
   */
  lemma InterpolatedTemperatureEveryDay(ts: seq<int>, s: seq<Option<real>>)
    requires |ts| == |s| && StrictlyIncreasing(ts)
    ensures TemperatureEveryDay(ts, TimeInterpolated(ts, s)) <==> FirstDayObserved(ts, s)
  {
    if FirstDayObserved(ts, s) {
      FirstDayFillsEveryDay(ts, s);
    }
    if TemperatureEveryDay(ts, TimeInterpolated(ts, s)) {
      EveryDayNeedsFirstDay(ts, s);
    }
  }

  /** A reading on the first day is carried forward to every later day. */
  lemma FirstDayFillsEveryDay(ts: seq<int>, s: seq<Option<real>>)
    requires |ts| == |s| && StrictlyIncreasing(ts)
    requires FirstDayObserved(ts, s)
    ensures TemperatureEveryDay(ts, TimeInterpolated(ts, s))
  {
    var r := TimeInterpolated(ts, s);
    if |ts| > 0 {
      var j :| 0 <= j < |ts| && DayOf(ts[j]) == DayOf(ts[0]) && s[j].Some?;
      assert r[j].Some?;
      forall d | d in GroupDays(ts)
        ensures exists i :: 0 <= i < |ts| && i < |r| && DayOf(ts[i]) == d && r[i].Some?
      {
        var i :| 0 <= i < |ts| && DayOf(ts[i]) == d;
        if j <= i {
          InterpolationLeavesOnlyLeadingGap(ts, s, i);
        } else {
          DayOfMonotone(ts[0], ts[i]);
          DayOfMonotone(ts[i], ts[j]);
        }
      }
    }
  }

  /** Interpolation leaves the first day without a reading when it had none. */
  lemma EveryDayNeedsFirstDay(ts: seq<int>, s: seq<Option<real>>)
    requires |ts| == |s| && StrictlyIncreasing(ts)
    requires TemperatureEveryDay(ts, TimeInterpolated(ts, s))
    ensures FirstDayObserved(ts, s)
  {
    var r := TimeInterpolated(ts, s);
    if |ts| > 0 {
      assert DayOf(ts[0]) in GroupDays(ts);
      var i :| 0 <= i < |ts| && i < |r| && DayOf(ts[i]) == DayOf(ts[0]) && r[i].Some?;
      InterpolationLeavesOnlyLeadingGap(ts, s, i);
      var j :| 0 <= j <= i && s[j].Some?;
      DayOfMonotone(ts[0], ts[j]);
      DayOfMonotone(ts[j], ts[i]);
    }
  }

  /** A temperature on every day of the table's column is one on every day of its readings. */
  lemma ReadingsHaveTemperatureEveryDay(index: seq<int>, columns: map<Column, seq<Option<real>>>)
    requires WellFormed(index, columns)
    requires TemperatureEveryDay(index, columns[ModuleTemperature])
    ensures EveryDayHasTemperature(Readings(index, columns))
  {
    var rs := Readings(index, columns);
    ReadingsTimes(index, columns);
    forall d | d in GroupDays(Times(rs)) ensures TemperatureObserved(rs, d) {
      var i :| 0 <= i < |index| && i < |columns[ModuleTemperature]| && DayOf(index[i]) == d && columns[ModuleTemperature][i].Some?;
      assert Day(rs[i]) == d && rs[i].temperature.Some?;
    }
  }

  /**
   * The script from the clamp to the anomaly lists. It needs as many
   * `groupby` days as resampled days (the positional assignment at
   * central.py:72 raises otherwise) and, after the interpolation, a
   * temperature reading on every day (`idxmax` of a day without one has no
   * answer), which holds exactly when the first day has a reading.
   */
  method AnalysePlant(t: PlantTable) returns (daily: seq<DailyRow>, lowRp: seq<DailyRow>, zeroOutput: seq<DailyRow>)
    requires t.Valid()
    requires |GroupDays(t.index)| == |ResampleDays(t.index)|
    requires FirstDayObserved(t.index, t.columns[ModuleTemperature])
    modifies t
    ensures t.Valid() && t.index == old(t.index) && t.columns.Keys == old(t.columns).Keys
    ensures forall c :: c in t.columns ==>
              t.columns[c] == TimeInterpolated(t.index, if c in IrradiationColumns then Clamped(old(t.columns)[c]) else old(t.columns)[c])
    ensures DailyTableDefined(Readings(t.index, t.columns))
    ensures daily == DailyTable(Readings(t.index, t.columns))
    ensures lowRp == LowRpDays(daily) && zeroOutput == ZeroOutputDays(daily)
    ensures |daily| == |GroupDays(t.index)|
    ensures forall k :: 0 <= k < |daily| ==> daily[k].irradiation >= 0.0
  {
    var oldTemps := t.columns[ModuleTemperature];
    var oldPlane := t.columns[IrradiationPlane];
    t.ClampIrradiation();
    t.InterpolateTime();
    var rs := Readings(t.index, t.columns);
    ReadingsTimes(t.index, t.columns);
    assert Times(rs) == t.index;

    // Irradiation: clamped, then interpolated, so never negative.
    ClampedNonNegative(oldPlane);
    InterpolationKeepsNonNegative(t.index, Clamped(oldPlane));
    assert t.columns[IrradiationPlane] == TimeInterpolated(t.index, Clamped(oldPlane));
    assert forall i :: 0 <= i < |rs| && rs[i].irradiation.Some? ==> rs[i].irradiation.value >= 0.0;

    // Temperature: after interpolation every day has a reading.
    var temps := t.columns[ModuleTemperature];
    assert temps == TimeInterpolated(t.index, oldTemps);
    InterpolatedTemperatureEveryDay(t.index, oldTemps);
    ReadingsHaveTemperatureEveryDay(t.index, t.columns);

    daily := DailyTable(rs);
    forall k | 0 <= k < |daily| ensures daily[k].irradiation >= 0.0 {
      DailyRowBounds(rs, k);
    }
    lowRp := LowRpDays(daily);
    zeroOutput := ZeroOutputDays(daily);
  }
}
