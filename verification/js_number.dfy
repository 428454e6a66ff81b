/**
 * The slice of JavaScript `number` semantics the ledger and the statistics
 * rely on.  Arithmetic on finite values is exact (`real`): rounding is not
 * modelled.  What is modelled is that a division by zero does not fail but
 * yields Infinity, -Infinity or NaN, that every comparison with NaN is
 * false, and that `JSON.stringify` writes a non-finite number as `null`.
 */
module JsNum {
  import opened Wrappers

  datatype JsNumber = Finite(r: real) | PosInf | NegInf | NaN

  /** `a / b` on finite numbers. */
  function Divide(a: real, b: real): (q: JsNumber)
    ensures q.Finite? <==> b != 0.0
    ensures q.Finite? ==> q.r * b == a
    ensures b == 0.0 ==> (q.NaN? <==> a == 0.0) && (q.PosInf? <==> a > 0.0)
  {
    if b != 0.0 then Finite(a / b)
    else if a > 0.0 then PosInf
    else if a < 0.0 then NegInf
    else NaN
  }

  /** `x * 100`. */
  function Times100(x: JsNumber): (y: JsNumber)
    ensures y.Finite? <==> x.Finite?
    ensures x.Finite? ==> y.r == x.r * 100.0
    ensures !x.Finite? ==> y == x
  {
    if x.Finite? then Finite(x.r * 100.0) else x
  }

  /** `(a / b) * 100`, the percentage form used throughout the bot. */
  function Percent(a: real, b: real): (p: JsNumber)
    ensures p.Finite? <==> b != 0.0
    ensures p.Finite? ==> p.r * b == a * 100.0
  {
    var q := Divide(a, b);
    if q.Finite? then
      assert q.r * 100.0 * b == (q.r * b) * 100.0;
      Times100(q)
    else Times100(q)
  }

  /** `x > y`: false whenever either side is NaN. */
  function Greater(x: JsNumber, y: JsNumber): (r: bool)
    ensures r ==> !x.NaN? && !y.NaN? && !x.NegInf? && !y.PosInf? && x != y
    ensures x.Finite? && y.Finite? ==> (r <==> x.r > y.r)
  {
    match (x, y)
      case (Finite(a), Finite(b)) => a > b
      case (PosInf, Finite(_)) => true
      case (PosInf, NegInf) => true
      case (Finite(_), NegInf) => true
      case _ => false
  }

  /** `JSON.stringify` keeps a finite number and writes `null` otherwise. */
  function Stored(x: JsNumber): (s: Option<real>)
    ensures s.Some? <==> x.Finite?
    ensures s.Some? ==> s.value == x.r
  {
    if x.Finite? then Some(x.r) else None
  }
}
