/**
 * The second-generation constant term (js/common/model/ConstantTerm2.js): a mutable rational
 * value with the four Term2 operand methods and a reset to the value it was created with.
 */
module ConstantTerm2 {
  import opened Wrappers
  import Operators
  import TermDispatch

  datatype ConstantTerm2 = ConstantTerm2(initialValue: real, value: real)

  /** The value starts at the given one, ReducedFraction.ONE when none is given. */
  function New(value: Option<real>): (t: ConstantTerm2)
    ensures t.value == t.initialValue
    ensures value.None? ==> t.value == 1.0
    ensures value.Some? ==> t.value == value.value
  {
    var v := value.GetOr(1.0);
    ConstantTerm2(v, v)
  }

  function Plus(t: ConstantTerm2, n: int): (r: ConstantTerm2)
    ensures r.initialValue == t.initialValue
    ensures r.value == Operators.Eval(Operators.Plus, t.value, n)
  {
    t.(value := t.value + n as real)
  }

  function Minus(t: ConstantTerm2, n: int): (r: ConstantTerm2)
    ensures r.initialValue == t.initialValue
    ensures r.value == Operators.Eval(Operators.Minus, t.value, n)
  {
    t.(value := t.value - n as real)
  }

  function Times(t: ConstantTerm2, n: int): (r: ConstantTerm2)
    ensures r.initialValue == t.initialValue
    ensures r.value == Operators.Eval(Operators.Times, t.value, n)
  {
    t.(value := t.value * n as real)
  }

  /** The divisor must be nonzero; the method has no guard of its own. */
  function Divide(t: ConstantTerm2, n: int): (r: ConstantTerm2)
    requires n != 0
    ensures r.initialValue == t.initialValue
    ensures r.value == Operators.Eval(Operators.Divide, t.value, n)
  {
    t.(value := t.value / n as real)
  }

  /** `reset` puts the value back to the value the term was created with. */
  function Reset(t: ConstantTerm2): (r: ConstantTerm2)
    ensures r.value == r.initialValue == t.initialValue
  {
    t.(value := t.initialValue)
  }

  /** The Term2 method table of a constant term: all four methods are defined. */
  function Methods(): (table: TermDispatch.MethodTable<ConstantTerm2>)
    ensures table.plus.body.Some? && table.minus.body.Some? && table.times.body.Some? && table.divide.body.Some?
    ensures forall t: ConstantTerm2, n: int :: n != 0 ==> table.divide.body.value.requires(t, n)
  {
    TermDispatch.Term2Methods(
      Some((t: ConstantTerm2, n: int) => Plus(t, n)),
      Some((t: ConstantTerm2, n: int) => Minus(t, n)),
      Some((t: ConstantTerm2, n: int) => Times(t, n)),
      Some((t: ConstantTerm2, n: int) requires n != 0 => Divide(t, n)))
  }

  /** Dispatching any of the four operators to a constant term sets its value to `value op n`. */
  lemma ApplyComputes(t: ConstantTerm2, op: Operators.Operator, n: int)
    requires Operators.Applicable(op, n)
    ensures TermDispatch.Callable(Methods(), t, Operators.Symbol(op), n)
    ensures TermDispatch.Apply(Methods(), t, Operators.Symbol(op), n)
         == Success(t.(value := Operators.Eval(op, t.value, n)))
  {
    Operators.ParseSymbol(op);
  }

  /** plus(n) then minus(n) restores the value; times(n) then divide(n) too when n is nonzero. */
  lemma OperationsUndo(t: ConstantTerm2, n: int)
    ensures Minus(Plus(t, n), n) == t
    ensures n != 0 ==> Divide(Times(t, n), n) == t
  {
    Operators.EvalUndo(t.value, n);
  }

  /** After any sequence of operations, reset gives back the term as it was created. */
  lemma {:induction false} ResetAfterOperations(value: Option<real>, ops: seq<(Operators.Operator, int)>)
    requires forall i :: 0 <= i < |ops| ==> Operators.Applicable(ops[i].0, ops[i].1)
    ensures Reset(ApplyEach(New(value), ops)) == New(value)
  {
    InitialValueKept(New(value), ops);
  }

  /** The term after the operations in order. */
  function ApplyEach(t: ConstantTerm2, ops: seq<(Operators.Operator, int)>): ConstantTerm2
    requires forall i :: 0 <= i < |ops| ==> Operators.Applicable(ops[i].0, ops[i].1)
    decreases |ops|
  {
    if ops == [] then t
    else ApplyEach(t.(value := Operators.Eval(ops[0].0, t.value, ops[0].1)), ops[1..])
  }

  lemma {:induction false} InitialValueKept(t: ConstantTerm2, ops: seq<(Operators.Operator, int)>)
    requires forall i :: 0 <= i < |ops| ==> Operators.Applicable(ops[i].0, ops[i].1)
    ensures ApplyEach(t, ops).initialValue == t.initialValue
    decreases |ops|
  {
    if ops != [] {
      InitialValueKept(t.(value := Operators.Eval(ops[0].0, t.value, ops[0].1)), ops[1..]);
    }
  }
}
