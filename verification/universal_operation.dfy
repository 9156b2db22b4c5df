/**
 * A universal operation (js/solving/model/UniversalOperation.js): an operator symbol and an
 * integer operand, applied to a list of terms one after the other.
 */
module UniversalOperation {
  import opened Wrappers
  import Operators
  import TermDispatch
  import ConstantTerm2

  /**
   * The constructor's checks (a string operator, an integer operand) are carried by the field types,
   * so every pair can be built, and both fields are kept exactly as given.
   */
  datatype UniversalOperation = UniversalOperation(operator: string, operand: int)

  /** The operand is nonzero whenever the operator is ÷ (the operand pickers never offer 0). */
  predicate DividesByNonzero(operation: UniversalOperation) {
    operation.operator == Operators.DIVIDE ==> operation.operand != 0
  }

  /** Every term of the list accepts the call the operation makes on it. */
  ghost predicate CallableOnAll<T>(table: TermDispatch.MethodTable<T>, operation: UniversalOperation, terms: seq<T>) {
    forall i :: 0 <= i < |terms| ==> TermDispatch.Callable(table, terms[i], operation.operator, operation.operand)
  }

  /** The outcome of `applyTo`: the terms as they are afterwards, and the error that stopped the loop, if any. */
  datatype Outcome<T> = Outcome(terms: seq<T>, error: Option<Error>)

  /**
   * What `applyTo` does to a list: the operation is applied to the terms in array order, once each,
   * and every term is replaced by its result. Whether a dispatch fails depends only on the operator and
   * the method table, so when the loop stops with an error it stops at the first term and no term has
   * changed.
   */
  ghost predicate Describes<T>(table: TermDispatch.MethodTable<T>, operation: UniversalOperation, terms: seq<T>, r: Outcome<T>)
    requires CallableOnAll(table, operation, terms)
  {
    && |r.terms| == |terms|
    && (r.error.None? ==>
         forall i :: 0 <= i < |terms| ==>
           TermDispatch.Apply(table, terms[i], operation.operator, operation.operand) == Success(r.terms[i]))
    && (r.error.Some? ==>
         && terms != []
         && TermDispatch.Apply(table, terms[0], operation.operator, operation.operand) == Failure(r.error.value)
         && r.terms == terms)
  }

  /** Reference for `applyTo`, recursive on the list. */
  function ApplyToAll<T>(table: TermDispatch.MethodTable<T>, operation: UniversalOperation, terms: seq<T>): (r: Outcome<T>)
    requires CallableOnAll(table, operation, terms)
    ensures Describes(table, operation, terms, r)
    decreases |terms|
  {
    if terms == [] then Outcome([], None)
    else
      match TermDispatch.Apply(table, terms[0], operation.operator, operation.operand)
      case Failure(e) => Outcome(terms, Some(e))
      case Success(first) =>
        var rest := ApplyToAll(table, operation, terms[1..]);
        ConsDescribes(table, operation, terms, first, rest);
        Outcome([first] + rest.terms, rest.error)
  }

  /** A successful first step followed by a described rest describes the whole list. */
  lemma ConsDescribes<T>(table: TermDispatch.MethodTable<T>, operation: UniversalOperation, terms: seq<T>, first: T, rest: Outcome<T>)
    requires terms != [] && CallableOnAll(table, operation, terms)
    requires TermDispatch.Apply(table, terms[0], operation.operator, operation.operand) == Success(first)
    requires CallableOnAll(table, operation, terms[1..]) && Describes(table, operation, terms[1..], rest)
    ensures Describes(table, operation, terms, Outcome([first] + rest.terms, rest.error))
  {
    var r := Outcome([first] + rest.terms, rest.error);
    assert forall i :: 1 <= i < |terms| ==> terms[i] == terms[1..][i - 1] && r.terms[i] == rest.terms[i - 1];
  }

  /** `applyTo(terms)`: calls apply(this) on terms[0], terms[1], ... in order. */
  method ApplyTo<T>(table: TermDispatch.MethodTable<T>, operation: UniversalOperation, terms: seq<T>) returns (r: Outcome<T>)
    requires CallableOnAll(table, operation, terms)
    ensures r == ApplyToAll(table, operation, terms)
  {
    var updated: seq<T> := [];
    var i := 0;
    while i < |terms|
      invariant 0 <= i <= |terms|
      invariant |updated| == i
      invariant var rest := ApplyToAll(table, operation, terms[i..]);
        ApplyToAll(table, operation, terms) == Outcome(updated + rest.terms, rest.error)
    {
      assert terms[i..][0] == terms[i] && terms[i..][1..] == terms[i + 1..];
      ghost var rest := ApplyToAll(table, operation, terms[i..]);
      var applied := TermDispatch.Apply(table, terms[i], operation.operator, operation.operand);
      if applied.Failure? {
        assert rest == Outcome(terms[i..], Some(applied.error));
        return Outcome(updated + terms[i..], Some(applied.error));
      }
      ghost var next := ApplyToAll(table, operation, terms[i + 1..]);
      assert rest == Outcome([applied.value] + next.terms, next.error);
      assert updated + rest.terms == (updated + [applied.value]) + next.terms;
      updated := updated + [applied.value];
      i := i + 1;
    }
    assert terms[i..] == [];
    r := Outcome(updated, None);
  }

  /** Applying to no terms changes nothing. */
  lemma ApplyToNothing<T>(table: TermDispatch.MethodTable<T>, operation: UniversalOperation)
    ensures ApplyToAll(table, operation, []) == Outcome([], None)
  {
  }

  /** On constant terms every value v becomes `v op operand`, and nothing fails. */
  lemma {:induction false} ApplyToConstantTerms(op: Operators.Operator, operand: int, terms: seq<ConstantTerm2.ConstantTerm2>)
    requires Operators.Applicable(op, operand)
    ensures CallableOnAll(ConstantTerm2.Methods(), UniversalOperation(Operators.Symbol(op), operand), terms)
    ensures var r := ApplyToAll(ConstantTerm2.Methods(), UniversalOperation(Operators.Symbol(op), operand), terms);
      r.error.None? && |r.terms| == |terms| &&
      forall i :: 0 <= i < |terms| ==> r.terms[i] == terms[i].(value := Operators.Eval(op, terms[i].value, operand))
  {
    forall i | 0 <= i < |terms|
      ensures TermDispatch.Callable(ConstantTerm2.Methods(), terms[i], Operators.Symbol(op), operand)
      ensures TermDispatch.Apply(ConstantTerm2.Methods(), terms[i], Operators.Symbol(op), operand)
           == Success(terms[i].(value := Operators.Eval(op, terms[i].value, operand)))
    {
      ConstantTerm2.ApplyComputes(terms[i], op, operand);
    }
  }
}
