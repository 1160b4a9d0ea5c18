/**
 * The interactive dashboard of the multi-source script
 * (PV_analysis.py:50-104): six traces per station added to one figure, only
 * the first station's shown at first, and one menu button per station
 * whose visibility mask selects traces of the figure.
 */
module Dashboard {

  /** What a trace plots. */
  datatype Kind = ActualPower | TheoreticalPower | EfficiencyVsIrradiance | AirTemperature | Cloudiness | DailyEfficiency

  /** A trace of `fig.data`: its station, what it plots, its subplot row and its initial visibility. */
  datatype Trace = Trace(station: string, kind: Kind, row: int, visible: bool)

  /** `dict(label=station, method="update", args=[{"visible": visibility}, {"title": ...}])`; the label is `caption`. */
  datatype Button = Button(caption: string, visible: seq<bool>, title: string)

  /** The kind of the `j`-th trace a station adds. */
  function KindOf(j: nat): Kind
    requires j < 6
  {
    [ActualPower, TheoreticalPower, EfficiencyVsIrradiance, AirTemperature, Cloudiness, DailyEfficiency][j]
  }

  /** The subplot row of each kind: temperature and cloudiness share row 4. */
  function RowOf(k: Kind): int
  {
    match k
    case ActualPower => 1
    case TheoreticalPower => 2
    case EfficiencyVsIrradiance => 3
    case AirTemperature => 4
    case Cloudiness => 4
    case DailyEfficiency => 5
  }

  /** The six traces the `i`-th station adds, visible when it is the first. */
  function StationTraces(station: string, i: nat): (ts: seq<Trace>)
    ensures |ts| == 6
  {
    seq(6, j requires 0 <= j < 6 => Trace(station, KindOf(j), RowOf(KindOf(j)), i == 0))
  }

  /** The traces of the figure after the loop over `station_names`: six per station. */
  function Traces(names: seq<string>): (ts: seq<Trace>)
    ensures |ts| == 6 * |names|
  {
    if names == [] then []
    else Traces(names[..|names| - 1]) + StationTraces(names[|names| - 1], |names| - 1)
  }

  /**
   * Trace `t` of the figure is trace `t mod 6` of station `t div 6`: it
   * belongs to that station, plots the kind of that position in the
   * kind's row, and is visible exactly when it is one of the first
   * station's six traces.
   */
  lemma {:induction false} TracesLayout(names: seq<string>)
    ensures forall t :: 0 <= t < |Traces(names)| ==>
              Traces(names)[t] == Trace(names[t / 6], KindOf(t % 6), RowOf(KindOf(t % 6)), t < 6)
  {
    if names != [] {
      var n := |names|;
      var prefix := names[..n - 1];
      TracesLayout(prefix);
      forall t | 0 <= t < |Traces(names)|
        ensures Traces(names)[t] == Trace(names[t / 6], KindOf(t % 6), RowOf(KindOf(t % 6)), t < 6)
      {
        if t < 6 * (n - 1) {
          assert Traces(names)[t] == Traces(prefix)[t];
          assert prefix[t / 6] == names[t / 6];
        } else {
          assert t / 6 == n - 1 && t % 6 == t - 6 * (n - 1);
          assert Traces(names)[t] == StationTraces(names[n - 1], n - 1)[t - 6 * (n - 1)];
        }
      }
    }
  }

  /** `go.Figure.data`, to which `add_trace` appends. */
  class Figure {
    var data: seq<Trace>

    constructor()
      ensures data == []
    {
      data := [];
    }

    /** `fig.add_trace(...)`. */
    method AddTrace(t: Trace)
      modifies this
      ensures data == old(data) + [t]
    {
      data := data + [t];
    }
  }

  /** The trace loop: six `add_trace` calls per station, in station order. */
  method AddStationTraces(fig: Figure, names: seq<string>)
    modifies fig
    ensures fig.data == old(fig.data) + Traces(names)
  {
    for i := 0 to |names|
      invariant fig.data == old(fig.data) + Traces(names[..i])
    {
      var station := names[i];
      fig.AddTrace(Trace(station, ActualPower, 1, i == 0));
      fig.AddTrace(Trace(station, TheoreticalPower, 2, i == 0));
      fig.AddTrace(Trace(station, EfficiencyVsIrradiance, 3, i == 0));
      fig.AddTrace(Trace(station, AirTemperature, 4, i == 0));
      fig.AddTrace(Trace(station, Cloudiness, 4, i == 0));
      fig.AddTrace(Trace(station, DailyEfficiency, 5, i == 0));
      assert names[..i + 1][..i] == names[..i];
      assert StationTraces(station, i) == [Trace(station, ActualPower, 1, i == 0), Trace(station, TheoreticalPower, 2, i == 0),
                                           Trace(station, EfficiencyVsIrradiance, 3, i == 0), Trace(station, AirTemperature, 4, i == 0),
                                           Trace(station, Cloudiness, 4, i == 0), Trace(station, DailyEfficiency, 5, i == 0)];
    }
    assert names[..|names|] == names;
  }

  /** `f"PV Dashboard for {station}"`. */
  function Title(station: string): string
  {
    "PV Dashboard for " + station
  }

  /** The mask the button loop builds for button `i`: the traces whose position divided by 5 is `i`. */
  function AsWrittenMask(i: nat, count: nat): (m: seq<bool>)
    ensures |m| == count
    ensures forall t :: 0 <= t < count ==> (m[t] <==> t / 5 == i)
  {
    seq(count, t requires 0 <= t < count => 5 * i <= t < 5 * i + 5)
  }

  /** The mask that selects the six traces of station `i`: those whose position divided by 6 is `i`. */
  function StationMask(i: nat, count: nat): (m: seq<bool>)
    ensures |m| == count
    ensures forall t :: 0 <= t < count ==> (m[t] <==> t / 6 == i)
  {
    seq(count, t requires 0 <= t < count => 6 * i <= t < 6 * i + 6)
  }

  /**
   * The button loop as written: for button `i` it sets `5i + j` for
   * `j < 5`, and `5i + 4` a second time when `j = 3`. The writes stay in
   * range exactly when the figure has at least five traces per station.
   */
  method BuildButtonsAsWritten(names: seq<string>, traceCount: nat) returns (buttons: seq<Button>)
    requires 5 * |names| <= traceCount
    ensures |buttons| == |names|
    ensures forall i :: 0 <= i < |names| ==>
              buttons[i] == Button(names[i], AsWrittenMask(i, traceCount), Title(names[i]))
  {
    buttons := [];
    for i := 0 to |names|
      invariant |buttons| == i
      invariant forall k :: 0 <= k < i ==> buttons[k] == Button(names[k], AsWrittenMask(k, traceCount), Title(names[k]))
    {
      var visibility := new bool[traceCount](_ => false);
      for j := 0 to 5
        invariant forall t :: 0 <= t < traceCount ==>
                    (visibility[t] <==> 5 * i <= t < 5 * i + j + (if j == 4 then 1 else 0))
      {
        visibility[i * 5 + j] := true;
        if j == 3 {
          visibility[i * 5 + j + 1] := true;
        }
      }
      assert visibility[..] == AsWrittenMask(i, traceCount);
      buttons := buttons + [Button(names[i], visibility[..], Title(names[i]))];
    }
  }

  /**
   * The mask as written does not follow the six-traces-per-station layout:
   * the first button hides the first station's daily efficiency (trace 5),
   * which is visible at start, and with two stations the second button
   * shows that trace and hides the second station's cloudiness and daily
   * efficiency (traces 10 and 11).
   */
  lemma AsWrittenMaskMisaligned(names: seq<string>)
    requires |names| >= 1
    ensures var ts := Traces(names);
            var count := |ts|;
      && ts[5].station == names[0] && ts[5].kind == DailyEfficiency && ts[5].visible
      && !AsWrittenMask(0, count)[5]
      && (|names| >= 2 ==>
            && AsWrittenMask(1, count)[5]
            && ts[10].station == names[1] && ts[11].station == names[1]
            && !AsWrittenMask(1, count)[10] && !AsWrittenMask(1, count)[11])
  {
    TracesLayout(names);
    assert Traces(names)[5] == Trace(names[0], DailyEfficiency, 5, true);
    if |names| >= 2 {
      assert Traces(names)[10].station == names[1] && Traces(names)[11].station == names[1];
    }
  }

  /** The button loop with the stride of the trace layout: button `i` sets `6i + j` for `j < 6`. */
  method BuildStationButtons(names: seq<string>, traceCount: nat) returns (buttons: seq<Button>)
    requires 6 * |names| <= traceCount
    ensures |buttons| == |names|
    ensures forall i :: 0 <= i < |names| ==>
              buttons[i] == Button(names[i], StationMask(i, traceCount), Title(names[i]))
  {
    buttons := [];
    for i := 0 to |names|
      invariant |buttons| == i
      invariant forall k :: 0 <= k < i ==> buttons[k] == Button(names[k], StationMask(k, traceCount), Title(names[k]))
    {
      var visibility := new bool[traceCount](_ => false);
      for j := 0 to 6
        invariant forall t :: 0 <= t < traceCount ==>
                    (visibility[t] <==> 6 * i <= t < 6 * i + j)
      {
        visibility[i * 6 + j] := true;
      }
      assert visibility[..] == StationMask(i, traceCount);
      buttons := buttons + [Button(names[i], visibility[..], Title(names[i]))];
    }
  }

  /**
   * The corrected mask of button `i` shows exactly the six traces of
   * station `i` (those at positions `t` with `t div 6 = i`), and the first
   * button's mask is the visibility the figure starts with.
   */
  lemma StationMaskSelectsStation(names: seq<string>, i: nat)
    requires i < |names|
    ensures forall t :: 0 <= t < |Traces(names)| ==> (StationMask(i, |Traces(names)|)[t] <==> t / 6 == i)
    ensures forall t :: 0 <= t < |Traces(names)| && StationMask(i, |Traces(names)|)[t] ==> Traces(names)[t].station == names[i]
    ensures forall t :: 0 <= t < |Traces(names)| ==> StationMask(0, |Traces(names)|)[t] == Traces(names)[t].visible
  {
    TracesLayout(names);
  }

  /**
   * The dashboard with the corrected buttons: the figure holds the traces
   * of every station, button `i` is labelled with station `i` and shows its
   * traces, and the title names the first station (which must exist).
   */
  method BuildDashboard(names: seq<string>) returns (fig: Figure, buttons: seq<Button>, title: string)
    requires |names| > 0
    ensures fresh(fig)
    ensures fig.data == Traces(names)
    ensures |buttons| == |names|
    ensures forall i :: 0 <= i < |names| ==>
              buttons[i] == Button(names[i], StationMask(i, |fig.data|), Title(names[i]))
    ensures title == Title(names[0])
  {
    fig := new Figure();
    AddStationTraces(fig, names);
    buttons := BuildStationButtons(names, |fig.data|);
    title := Title(names[0]);
  }
}
