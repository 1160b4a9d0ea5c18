/**
 * The cleaning stage of the single-plant pipeline (central.py): the
 * time-indexed measurement table, the clamp of negative irradiation to 0,
 * and the in-place time-weighted linear interpolation of missing cells.
 */
module Cleaning {
  import opened Cells
  import opened Reducers

  /** The columns of the plant table that the pipeline names; any other column is `Other`. */
  datatype Column =
    | IrradiationHorizontal   // 'Irradiation (Horizontal) [W/m²]'
    | IrradiationPlane        // 'Irradiation (Plan de module) [W/m²]'
    | IrradiationAlbedo       // 'Irradiation (ALBEDO) [W/m²]'
    | ModuleTemperature       // 'Température module [°C]'
    | Power                   // 'Puissance [kW]'
    | Other(name: string)

  /** The three irradiation columns, in the order the clamp loop visits them. */
  const IrradiationColumns: seq<Column> := [IrradiationHorizontal, IrradiationPlane, IrradiationAlbedo]

  /** The columns the pipeline reads by name. */
  const RequiredColumns: set<Column> :=
    {IrradiationHorizontal, IrradiationPlane, IrradiationAlbedo, ModuleTemperature, Power}

  /**
   * A loaded table: the timestamp index is unique and sorted, the named
   * columns exist, and every column has one cell per timestamp.
   */
  predicate WellFormed(index: seq<int>, columns: map<Column, seq<Option<real>>>)
  {
    && StrictlyIncreasing(index)
    && RequiredColumns <= columns.Keys
    && forall c :: c in columns ==> |columns[c]| == |index|
  }

  // ---------------------------------------------------------------------
  // Clamp: `max(x, 0)` on every cell of an irradiation column
  // ---------------------------------------------------------------------

  /**
   * Python's `max(x, 0)`: a negative reading becomes 0, any other reading
   * is kept, and a NaN stays NaN (`max` keeps its first argument when the
   * comparison `0 > nan` is false).
   */
  function ClampValue(x: Option<real>): (y: Option<real>)
    ensures y.None? <==> x.None?
    ensures y.Some? ==> y.value >= 0.0
    ensures x.Some? && x.value >= 0.0 ==> y == x
    ensures x.Some? && x.value < 0.0 ==> y == Some(0.0)
  {
    match x
    case None => None
    case Some(v) => if 0.0 > v then Some(0.0) else Some(v)
  }

  /** `column.apply(lambda x: max(x, 0))`. */
  function Clamped(s: seq<Option<real>>): (r: seq<Option<real>>)
    ensures |r| == |s|
    ensures forall i :: 0 <= i < |s| ==> r[i] == ClampValue(s[i])
  {
    seq(|s|, i requires 0 <= i < |s| => ClampValue(s[i]))
  }

  /** After the clamp, every present cell is non-negative; missing cells stay missing. */
  lemma ClampedNonNegative(s: seq<Option<real>>)
    ensures forall i :: 0 <= i < |s| ==> Clamped(s)[i].None? == s[i].None?
    ensures forall i :: 0 <= i < |s| && Clamped(s)[i].Some? ==> Clamped(s)[i].value >= 0.0
  {
  }

  // ---------------------------------------------------------------------
  // Time interpolation: `interpolate(method='time')`
  // ---------------------------------------------------------------------

  /** The nearest observed position strictly before `i`, if any. */
  function PrevObserved(s: seq<Option<real>>, i: nat): (p: Option<nat>)
    requires i <= |s|
    ensures p.Some? ==> p.value < i && s[p.value].Some?
    ensures p.Some? ==> forall j :: p.value < j < i ==> s[j].None?
    ensures p.None? ==> forall j :: 0 <= j < i ==> s[j].None?
  {
    if i == 0 then None
    else if s[i - 1].Some? then Some(i - 1)
    else PrevObserved(s, i - 1)
  }

  /** The nearest observed position strictly after `i`, if any. */
  function NextObserved(s: seq<Option<real>>, i: nat): (n: Option<nat>)
    requires i < |s|
    ensures n.Some? ==> i < n.value < |s| && s[n.value].Some?
    ensures n.Some? ==> forall j :: i < j < n.value ==> s[j].None?
    ensures n.None? ==> forall j :: i < j < |s| ==> s[j].None?
    decreases |s| - i
  {
    if i + 1 == |s| then None
    else if s[i + 1].Some? then Some(i + 1)
    else NextObserved(s, i + 1)
  }

  /** The straight line through (t0, v0) and (t1, v1), read at time t. */
  function Lerp(t0: int, v0: real, t1: int, v1: real, t: int): real
    requires t0 < t1
  {
    v0 + (v1 - v0) * (((t - t0) as real) / ((t1 - t0) as real))
  }

  function Min(a: real, b: real): real { if a <= b then a else b }
  function Max(a: real, b: real): real { if a <= b then b else a }

  /** Between its two observations the line stays between their values. */
  lemma LerpBetween(t0: int, v0: real, t1: int, v1: real, t: int)
    requires t0 <= t <= t1 && t0 < t1
    ensures Min(v0, v1) <= Lerp(t0, v0, t1, v1, t) <= Max(v0, v1)
  {
    var f := ((t - t0) as real) / ((t1 - t0) as real);
    FractionInUnit(t - t0, t1 - t0);
    ScaledStaysBetween(v1 - v0, f);
  }

  lemma FractionInUnit(a: int, b: int)
    requires 0 <= a <= b && 0 < b
    ensures 0.0 <= (a as real) / (b as real) <= 1.0
  {
    var f := (a as real) / (b as real);
    assert f * (b as real) == a as real;
  }

  lemma ScaledStaysBetween(d: real, f: real)
    requires 0.0 <= f <= 1.0
    ensures d >= 0.0 ==> 0.0 <= d * f <= d
    ensures d < 0.0 ==> d <= d * f <= 0.0
  {
  }

  /**
   * The interpolated cell at position `i`: an observed cell is kept; a gap
   * between two observations lies on the line through them, weighted by
   * time; a gap before the first observation stays missing (pandas fills
   * forward only); a gap after the last observation takes the last
   * observed value (numpy's `interp` holds the end value).
   */
  function InterpolatedAt(ts: seq<int>, s: seq<Option<real>>, i: nat): (r: Option<real>)
    requires |ts| == |s| && StrictlyIncreasing(ts) && i < |s|
    ensures s[i].Some? ==> r == s[i]
    ensures r.None? ==> forall j :: 0 <= j <= i ==> s[j].None?
  {
    if s[i].Some? then s[i]
    else match PrevObserved(s, i)
      case None => None
      case Some(p) =>
        match NextObserved(s, i)
        case None => s[p]
        case Some(n) => Some(Lerp(ts[p], s[p].value, ts[n], s[n].value, ts[i]))
  }

  /** `column.interpolate(method='time')` over the timestamp index `ts`. */
  function TimeInterpolated(ts: seq<int>, s: seq<Option<real>>): (r: seq<Option<real>>)
    requires |ts| == |s| && StrictlyIncreasing(ts)
    ensures |r| == |s|
    ensures forall i :: 0 <= i < |s| && s[i].Some? ==> r[i] == s[i]
  {
    seq(|s|, i requires 0 <= i < |s| => InterpolatedAt(ts, s, i))
  }

  /**
   * A cell is present after interpolation exactly when some cell at or
   * before it was observed: only the leading run of missing cells is left.
   */
  lemma InterpolationLeavesOnlyLeadingGap(ts: seq<int>, s: seq<Option<real>>, i: nat)
    requires |ts| == |s| && StrictlyIncreasing(ts) && i < |s|
    ensures TimeInterpolated(ts, s)[i].Some? <==> exists j :: 0 <= j <= i && s[j].Some?
  {
    var r := TimeInterpolated(ts, s);
    if s[i].None? {
      if PrevObserved(s, i).Some? {
        var p := PrevObserved(s, i).value;
        assert s[p].Some?;
      }
    }
  }

  /**
   * A gap with observations on both sides is filled with the time-weighted
   * value v0 + (v1 - v0)·(t - t0)/(t1 - t0) from its nearest neighbours,
   * which lies between v0 and v1.
   */
  lemma InterpolationFillsInteriorGap(ts: seq<int>, s: seq<Option<real>>, p: nat, i: nat, n: nat)
    requires |ts| == |s| && StrictlyIncreasing(ts)
    requires p < i < n < |s|
    requires s[p].Some? && s[i].None? && s[n].Some?
    requires forall j :: p < j < n ==> s[j].None?
    ensures TimeInterpolated(ts, s)[i] == Some(Lerp(ts[p], s[p].value, ts[n], s[n].value, ts[i]))
    ensures Min(s[p].value, s[n].value) <= TimeInterpolated(ts, s)[i].value <= Max(s[p].value, s[n].value)
  {
    var pp := PrevObserved(s, i);
    var nn := NextObserved(s, i);
    assert pp == Some(p);
    assert nn == Some(n);
    LerpBetween(ts[p], s[p].value, ts[n], s[n].value, ts[i]);
  }

  /** A gap after the last observation takes the last observed value. */
  lemma InterpolationHoldsLastValue(ts: seq<int>, s: seq<Option<real>>, p: nat, i: nat)
    requires |ts| == |s| && StrictlyIncreasing(ts)
    requires p < i < |s|
    requires s[p].Some?
    requires forall j :: p < j < |s| ==> s[j].None?
    ensures TimeInterpolated(ts, s)[i] == s[p]
  {
    assert PrevObserved(s, i) == Some(p);
    assert NextObserved(s, i).None?;
  }

  /** A column whose observed cells are non-negative stays non-negative after interpolation. */
  lemma InterpolationKeepsNonNegative(ts: seq<int>, s: seq<Option<real>>)
    requires |ts| == |s| && StrictlyIncreasing(ts)
    requires forall i :: 0 <= i < |s| && s[i].Some? ==> s[i].value >= 0.0
    ensures forall i :: 0 <= i < |s| && TimeInterpolated(ts, s)[i].Some? ==> TimeInterpolated(ts, s)[i].value >= 0.0
  {
    var r := TimeInterpolated(ts, s);
    forall i | 0 <= i < |s| && r[i].Some? ensures r[i].value >= 0.0 {
      if s[i].None? {
        var p := PrevObserved(s, i).value;
        match NextObserved(s, i)
        case None =>
        case Some(n) =>
          LerpBetween(ts[p], s[p].value, ts[n], s[n].value, ts[i]);
      }
    }
  }

  /** Interpolating an interpolated column changes nothing. */
  lemma InterpolationIdempotent(ts: seq<int>, s: seq<Option<real>>)
    requires |ts| == |s| && StrictlyIncreasing(ts)
    ensures TimeInterpolated(ts, TimeInterpolated(ts, s)) == TimeInterpolated(ts, s)
  {
    var r := TimeInterpolated(ts, s);
    var rr := TimeInterpolated(ts, r);
    forall i | 0 <= i < |s| ensures rr[i] == r[i] {
      if r[i].None? {
        InterpolationLeavesOnlyLeadingGap(ts, s, i);
        forall j | 0 <= j < i ensures r[j].None? {
          InterpolationLeavesOnlyLeadingGap(ts, s, j);
        }
        assert PrevObserved(r, i).None?;
      }
    }
  }

  // ---------------------------------------------------------------------
  // The plant table, cleaned in place
  // ---------------------------------------------------------------------

  /** The measurement data frame of central.py, indexed by timestamp (`set_index('Date')`). */
  class PlantTable {
    var index: seq<int>
    var columns: map<Column, seq<Option<real>>>

    ghost predicate Valid()
      reads this
    {
      WellFormed(index, columns)
    }

    constructor (index: seq<int>, columns: map<Column, seq<Option<real>>>)
      requires WellFormed(index, columns)
      ensures Valid()
      ensures this.index == index && this.columns == columns
    {
      this.index := index;
      this.columns := columns;
    }

    /**
     * The loop over the three irradiation columns, replacing each by its
     * clamped copy; every other column, the index and the row order are
     * unchanged.
     */
    method ClampIrradiation()
      requires Valid()
      modifies this
      ensures Valid()
      ensures index == old(index)
      ensures columns.Keys == old(columns).Keys
      ensures forall c :: c in columns ==>
                columns[c] == if c in IrradiationColumns then Clamped(old(columns)[c]) else old(columns)[c]
    {
      for k := 0 to |IrradiationColumns|
        invariant Valid()
        invariant index == old(index)
        invariant columns.Keys == old(columns).Keys
        invariant forall c :: c in columns ==>
                    columns[c] == if c in IrradiationColumns[..k] then Clamped(old(columns)[c]) else old(columns)[c]
      {
        var c := IrradiationColumns[k];
        columns := columns[c := Clamped(columns[c])];
        assert IrradiationColumns[..k + 1] == IrradiationColumns[..k] + [c];
      }
      assert IrradiationColumns[..|IrradiationColumns|] == IrradiationColumns;
    }

    /** `interpolate(method='time', inplace=True)`: every column is interpolated over the index. */
    method InterpolateTime()
      requires Valid()
      modifies this
      ensures Valid()
      ensures index == old(index)
      ensures columns.Keys == old(columns).Keys
      ensures forall c :: c in columns ==> columns[c] == TimeInterpolated(index, old(columns)[c])
    {
      columns := map c | c in columns :: TimeInterpolated(index, columns[c]);
    }
  }
}
