/**
 * JavaScript number values as the dashboard's code meets them.
 *
 * Finite values are exact reals (no IEEE-754 rounding, and no negative zero);
 * the two non-finite kinds that `Number(...)` can produce are kept apart so
 * that truthiness, `||` defaults and division behave as in the browser.
 */
module JsNumber {

  datatype Num = Finite(value: real) | NaN | Infinite(negative: bool)

  /** JavaScript truthiness of a number: every value except 0 and NaN. */
  predicate Truthy(n: Num) {
    match n
    case Finite(v) => v != 0.0
    case NaN => false
    case Infinite(_) => true
  }

  /** The expression `x || fallback` on numbers. */
  function Or(x: Num, fallback: Num): Num {
    if Truthy(x) then x else fallback
  }

  /** IEEE division `a / b`, with an unsigned zero standing for both zeros. */
  function Div(a: Num, b: Num): (r: Num)
    ensures a.Finite? && b.Finite? && b.value != 0.0 ==> r == Finite(a.value / b.value)
    ensures a.NaN? || b.NaN? ==> r.NaN?
    ensures a.Finite? && b.Infinite? ==> r == Finite(0.0)
  {
    match (a, b)
    case (NaN, _) => NaN
    case (_, NaN) => NaN
    case (Finite(x), Finite(y)) =>
      if y != 0.0 then Finite(x / y)
      else if x == 0.0 then NaN
      else Infinite(x < 0.0)
    case (Finite(_), Infinite(_)) => Finite(0.0)
    case (Infinite(_), Infinite(_)) => NaN
    case (Infinite(na), Finite(y)) =>
      if y < 0.0 then Infinite(!na) else Infinite(na)
  }

  /** `x * 100` for a JavaScript number. */
  function Times100(x: Num): (r: Num)
    ensures x.Finite? ==> r.Finite? && r.value == 100.0 * x.value
    ensures !x.Finite? ==> r == x
  {
    match x
    case Finite(v) => Finite(v * 100.0)
    case _ => x
  }
}
