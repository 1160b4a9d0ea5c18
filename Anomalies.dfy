/**
 * Detection of abnormal days in the daily table (central.py:185-195): days
 * whose performance ratio is below a threshold, and days that produced no
 * energy although the plane irradiation was significant. Both are boolean
 * masks over the daily table, computed independently of each other.
 */
module Anomalies {
  import opened Cells
  import opened Reducers
  import opened PlantDaily

  /** `rp_seuil`. */
  const RpThreshold: real := 0.6
  /** `irradiation_min`, in W/m². */
  const IrradiationMin: real := 50.0

  /** `RP < rp_seuil`, as a float comparison: NaN and +inf are not below, -inf is. */
  predicate IsLowRp(row: DailyRow)
  {
    LessThan(row.rp, RpThreshold)
  }

  /** `Energie_journaliere == 0` and `Irradiation_journaliere > irradiation_min`. */
  predicate IsZeroOutput(row: DailyRow)
  {
    row.energy == 0.0 && row.irradiation > IrradiationMin
  }

  /** `jours_rp_faible`: the daily rows with a low performance ratio, in table order. */
  function LowRpDays(table: seq<DailyRow>): (r: seq<DailyRow>)
    ensures forall row :: row in r <==> row in table && IsLowRp(row)
    ensures SubsequenceOf(r, table)
  {
    FilterKeepsOrder(table, IsLowRp);
    Filter(table, IsLowRp)
  }

  /** `jours_puissance_zero`: the daily rows without output despite irradiation, in table order. */
  function ZeroOutputDays(table: seq<DailyRow>): (r: seq<DailyRow>)
    ensures forall row :: row in r <==> row in table && IsZeroOutput(row)
    ensures SubsequenceOf(r, table)
  {
    FilterKeepsOrder(table, IsZeroOutput);
    Filter(table, IsZeroOutput)
  }

  /** A zero product with a non-zero factor has a zero other factor. */
  lemma ZeroProduct(x: real, y: real)
    requires y != 0.0 && x * y == 0.0
    ensures x == 0.0
  {
  }

  /**
   * Although the two masks are computed independently, a day of the daily
   * table without output despite irradiation has RP = 0 and so is also a
   * low-RP day.
   */
  lemma ZeroOutputDaysAreLowRp(rs: seq<Reading>)
    requires DailyTableDefined(rs)
    ensures forall row :: row in ZeroOutputDays(DailyTable(rs)) ==>
              row in LowRpDays(DailyTable(rs)) && row.rp == Finite(0.0)
  {
    var table := DailyTable(rs);
    forall k | 0 <= k < |table| && IsZeroOutput(table[k])
      ensures IsLowRp(table[k]) && table[k].rp == Finite(0.0)
    {
      var row := table[k];
      ZeroProduct(row.rp.value, InstalledPower * row.irradiation);
    }
  }
}
