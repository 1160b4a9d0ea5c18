/**
 * Calendar keys of a timestamp. A timestamp is a whole number of seconds on
 * the naive (timezone-free) clock of the data files; the calendar day of a
 * timestamp (`.date`, `resample('D')`) is the number of the day that
 * contains it. The calendar month (`to_period('M')`) is a function of the
 * day, given by the caller as `monthOfDay`: the model does no calendar
 * arithmetic of its own.
 */
module Calendar {

  const SecondsPerDay: int := 86400

  /** The day key of timestamp `t`: the day whose 86400 seconds contain `t`. */
  function DayOf(t: int): (d: int)
    ensures d * SecondsPerDay <= t < d * SecondsPerDay + SecondsPerDay
  {
    t / SecondsPerDay
  }

  /**
   * The month key of timestamp `t`, under the calendar `monthOfDay`: every
   * timestamp in the 86400 seconds of `t`'s day has the same month.
   */
  function MonthOf(monthOfDay: int -> int, t: int): (m: int)
    ensures forall u :: DayOf(t) * SecondsPerDay <= u < DayOf(t) * SecondsPerDay + SecondsPerDay ==>
              monthOfDay(DayOf(u)) == m
  {
    monthOfDay(DayOf(t))
  }

  /** Later timestamps never fall on earlier days. */
  lemma DayOfMonotone(t1: int, t2: int)
    requires t1 <= t2
    ensures DayOf(t1) <= DayOf(t2)
  {
  }
}
