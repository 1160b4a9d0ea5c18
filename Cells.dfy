/**
 * Cell values of the pandas tables: a numeric cell that may be missing (NaN in
 * the data frames) and the outcome of a floating-point division, whose zero
 * divisor gives an infinity or NaN instead of an error.
 */
module Cells {

  /** A table cell: `None` is a missing value (NaN in the data frame). */
  datatype Option<+T> = None | Some(value: T)

  /**
   * The outcome of a float division `n / d` with exact real arithmetic for
   * the finite case; a zero divisor gives +inf, -inf or NaN as in IEEE 754
   * (the divisor is taken to be +0.0).
   */
  datatype Ratio = Finite(value: real) | PosInf | NegInf | NaN

  /** Float division `n / d`. */
  function Divide(n: real, d: real): (q: Ratio)
    ensures q.Finite? <==> d != 0.0
    ensures q.Finite? ==> q.value * d == n
    ensures q.NaN? <==> d == 0.0 && n == 0.0
    ensures q.PosInf? <==> d == 0.0 && n > 0.0
    ensures q.NegInf? <==> d == 0.0 && n < 0.0
  {
    if d != 0.0 then Finite(n / d)
    else if n > 0.0 then PosInf
    else if n < 0.0 then NegInf
    else NaN
  }

  /** Multiplication of a division outcome by a positive constant. */
  function Scale(q: Ratio, k: real): (r: Ratio)
    requires k > 0.0
    ensures r.Finite? <==> q.Finite?
    ensures r.Finite? ==> r.value == q.value * k
    ensures !q.Finite? ==> r == q
  {
    if q.Finite? then Finite(q.value * k) else q
  }

  /**
   * The float comparison `q < x`: on a finite value it is the comparison of
   * reals; NaN and +inf are never below a number, -inf always is.
   */
  predicate LessThan(q: Ratio, x: real)
    ensures q.Finite? ==> (LessThan(q, x) <==> q.value < x)
    ensures LessThan(q, x) ==> !q.NaN? && !q.PosInf?
    ensures q.NegInf? ==> LessThan(q, x)
  {
    match q
    case Finite(v) => v < x
    case NegInf => true
    case PosInf => false
    case NaN => false
  }

  /**
   * Comparing a quotient with a threshold compares the dividend with the
   * threshold times a positive divisor; over a zero divisor only a negative
   * dividend (giving -inf) is below the threshold.
   */
  lemma DivideLessThan(n: real, d: real, x: real)
    requires d >= 0.0
    ensures d > 0.0 ==> (LessThan(Divide(n, d), x) <==> n < x * d)
    ensures d == 0.0 ==> (LessThan(Divide(n, d), x) <==> n < 0.0)
  {
    if d > 0.0 {
      var q := n / d;
      assert q * d == n;
      assert q < x <==> q * d < x * d;
    }
  }
}
