/**
 * The four operators of a universal operation, as the symbols of
 * js/common/EqualityExplorerConstants.js, and exact rational arithmetic on them.
 * Rational values (ReducedFraction) are modelled as `real`, which is exact.
 */
module Operators {
  import opened Wrappers

  const PLUS: string := "+"
  const MINUS: string := "\U{2212}"
  const TIMES: string := "\U{00D7}"
  const DIVIDE: string := "\U{00F7}"

  datatype Operator = Plus | Minus | Times | Divide

  function Symbol(op: Operator): string {
    match op
    case Plus => PLUS
    case Minus => MINUS
    case Times => TIMES
    case Divide => DIVIDE
  }

  /** Recognises an operator symbol; any other string is not an operator. */
  function Parse(s: string): (r: Option<Operator>)
    ensures r.Some? <==> s == PLUS || s == MINUS || s == TIMES || s == DIVIDE
    ensures r.Some? ==> Symbol(r.value) == s
  {
    if s == PLUS then Some(Plus)
    else if s == MINUS then Some(Minus)
    else if s == TIMES then Some(Times)
    else if s == DIVIDE then Some(Divide)
    else None
  }

  /** Each operator's symbol parses back to that operator. */
  lemma ParseSymbol(op: Operator)
    ensures Parse(Symbol(op)) == Some(op)
  {
  }

  /** Operand zero is excluded for division; the source has no guard, its callers never pass 0. */
  predicate Applicable(op: Operator, operand: int) {
    op == Divide ==> operand != 0
  }

  /** `v op n` on exact rationals (ReducedFraction.plusInteger, minusInteger, timesInteger, divideByInteger). */
  function Eval(op: Operator, v: real, n: int): real
    requires Applicable(op, n)
  {
    match op
    case Plus => v + n as real
    case Minus => v - n as real
    case Times => v * n as real
    case Divide => v / n as real
  }

  /** Each operator is undone by its opposite: + by −, × by ÷. */
  lemma EvalUndo(v: real, n: int)
    ensures Eval(Minus, Eval(Plus, v, n), n) == v
    ensures Eval(Plus, Eval(Minus, v, n), n) == v
    ensures n != 0 ==> Eval(Divide, Eval(Times, v, n), n) == v
    ensures n != 0 ==> Eval(Times, Eval(Divide, v, n), n) == v
  {
  }

  /** `Util.sign`: -1, 0 or 1 according to the sign of `x`. */
  function Sign(x: real): (r: int)
    ensures r == 1 <==> x > 0.0
    ensures r == -1 <==> x < 0.0
    ensures r == 0 <==> x == 0.0
  {
    if x > 0.0 then 1 else if x < 0.0 then -1 else 0
  }
}
