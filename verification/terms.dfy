/**
 * Terms (js/common/model/ConstantTerm.js, js/common/model/VariableTerm.js).
 *
 * A constant term has a rational value; a variable term has a symbol, the identity of the
 * variable whose value it reads, and a nonzero rational coefficient. A mystery term (Basics screen)
 * stands for a mystery object, whose constant weight is not shown to the user; the mystery term class
 * itself is not part of this model.
 * A variable's current value is read from a valuation `values`, which stands for the shared
 * NumberProperty each variable term observes.
 */
module Terms {
  import opened Wrappers

  /** Identity of a variable's value Property: terms of one variable share it. */
  type VariableId = nat

  datatype Term =
    | ConstantTerm(constantValue: real)
    | VariableTerm(symbol: string, variable: VariableId, coefficient: real)
    | MysteryTerm(objectName: string, weight: real)

  /** `new ConstantTerm(options)`: the value defaults to the integer 1. */
  function NewConstantTerm(constantValue: Option<real>): (t: Term)
    ensures t.ConstantTerm?
    ensures constantValue.None? ==> t.constantValue == 1.0
    ensures constantValue.Some? ==> t.constantValue == constantValue.value
  {
    ConstantTerm(constantValue.GetOr(1.0))
  }

  /**
   * `new VariableTerm(symbol, variableValueProperty, options)`: the coefficient defaults to 1
   * and construction is refused when it is zero.
   */
  function NewVariableTerm(symbol: string, variable: VariableId, coefficient: Option<real>): (r: Result<Term>)
    ensures r.Success? <==> coefficient.GetOr(1.0) != 0.0
    ensures r.Success? ==> r.value == VariableTerm(symbol, variable, coefficient.GetOr(1.0))
    ensures r.Failure? ==> r.error.InvalidOption?
  {
    var c := coefficient.GetOr(1.0);
    if c == 0.0 then Failure(InvalidOption("coefficient cannot be zero"))
    else Success(VariableTerm(symbol, variable, c))
  }

  /** A term the constructors can produce: variable terms never have a zero coefficient. */
  predicate WellFormed(t: Term) {
    t.VariableTerm? ==> t.coefficient != 0.0
  }

  lemma ConstructedTermsAreWellFormed(symbol: string, variable: VariableId, coefficient: Option<real>, value: Option<real>)
    ensures WellFormed(NewConstantTerm(value))
    ensures NewVariableTerm(symbol, variable, coefficient).Success? ==> WellFormed(NewVariableTerm(symbol, variable, coefficient).value)
  {
  }

  /**
   * `weight`: a constant weighs its value; a variable term weighs coefficient times the current value
   * of its variable, read afresh from `values` (the derived weight Property re-evaluates on every change);
   * a mystery term weighs its object's constant weight.
   */
  function Weight(t: Term, values: VariableId -> int): (w: real)
    ensures t.ConstantTerm? ==> w == t.constantValue
    ensures t.VariableTerm? ==> w == t.coefficient * (values(t.variable) as real)
    ensures t.MysteryTerm? ==> w == t.weight
  {
    match t
    case ConstantTerm(v) => v
    case VariableTerm(_, x, c) => c * (values(x) as real)
    case MysteryTerm(_, weight) => weight
  }

  /** Only a variable term's weight depends on the variables' values, and it depends on its own variable's. */
  lemma WeightIgnoresValuesUnlessVariable(t: Term, values: VariableId -> int, others: VariableId -> int)
    requires WellFormed(t)
    ensures !t.VariableTerm? ==> Weight(t, values) == Weight(t, others)
    ensures t.VariableTerm? ==> (Weight(t, values) == Weight(t, others) <==> values(t.variable) == others(t.variable))
  {
    if t.VariableTerm? && Weight(t, values) == Weight(t, others) {
      ProductCancels(t.coefficient, values(t.variable) as real, others(t.variable) as real);
    }
  }

  lemma ProductCancels(c: real, a: real, b: real)
    requires c != 0.0 && c * a == c * b
    ensures a == b
  {
    assert c * (a - b) == 0.0;
  }

  /**
   * `isInverseOf` as written. For variable terms the same-variable test reads a field that is never
   * assigned on either term, so it always passes and only symbol and coefficients are compared.
   */
  function IsInverseOfAsWritten(t: Term, other: Term): (r: Result<bool>)
    ensures t.MysteryTerm? <==> r.Failure?
    ensures t.ConstantTerm? ==> (r == Success(true) <==> other.ConstantTerm? && t.constantValue == -other.constantValue)
    ensures t.VariableTerm? ==> (r == Success(true) <==>
      other.VariableTerm? && t.symbol == other.symbol && t.coefficient == -other.coefficient)
  {
    match t
    case ConstantTerm(v) => Success(other.ConstantTerm? && v == -other.constantValue)
    case VariableTerm(s, _, c) => Success(other.VariableTerm? && s == other.symbol && c == -other.coefficient)
    case MysteryTerm(_, _) => Failure(Unsupported("isInverseOf must be implemented by subtype"))
  }

  /**
   * `isInverseOf` as the comment beside the test means it: two variable terms are inverses when they
   * read the same variable (the same Property, not merely the same value), have the same symbol,
   * and have opposite coefficients.
   */
  function IsInverseOf(t: Term, other: Term): (r: Result<bool>)
    ensures t.MysteryTerm? <==> r.Failure?
    ensures t.ConstantTerm? ==> (r == Success(true) <==> other.ConstantTerm? && t.constantValue == -other.constantValue)
    ensures t.VariableTerm? ==> (r == Success(true) <==>
      other.VariableTerm? && t.symbol == other.symbol && t.variable == other.variable && t.coefficient == -other.coefficient)
  {
    match t
    case ConstantTerm(v) => Success(other.ConstantTerm? && v == -other.constantValue)
    case VariableTerm(s, x, c) =>
      Success(other.VariableTerm? && s == other.symbol && x == other.variable && c == -other.coefficient)
    case MysteryTerm(_, _) => Failure(Unsupported("isInverseOf must be implemented by subtype"))
  }

  /** Being inverses is symmetric, and a constant is never the inverse of a non-constant term. */
  lemma IsInverseOfSymmetric(t: Term, other: Term)
    requires !t.MysteryTerm? && !other.MysteryTerm?
    ensures IsInverseOf(t, other) == IsInverseOf(other, t)
    ensures t.ConstantTerm? && !other.ConstantTerm? ==> IsInverseOf(t, other) == Success(false)
  {
  }

  /** Inverse terms weigh exactly nothing together, whatever the variables' values. */
  lemma InversesCancel(t: Term, other: Term, values: VariableId -> int)
    requires IsInverseOf(t, other) == Success(true)
    ensures Weight(t, values) + Weight(other, values) == 0.0
  {
  }

  /**
   * As written, two terms of different variables that share a symbol count as inverses although their
   * weights need not cancel: 1·x with x = 2 and −1·x with x = 3 weigh 2 and −3.
   */
  lemma AsWrittenInverseNeedNotCancel()
    ensures var a, b := VariableTerm("x", 0, 1.0), VariableTerm("x", 1, -1.0);
      var values := (v: VariableId) => if v == 0 then 2 else 3;
      IsInverseOfAsWritten(a, b) == Success(true) && IsInverseOf(a, b) == Success(false) &&
      Weight(a, values) + Weight(b, values) != 0.0
  {
  }
}
