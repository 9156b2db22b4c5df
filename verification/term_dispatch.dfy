/**
 * Universal-operation dispatch on one term (`apply` in js/common/model/Term.js and
 * js/common/model/Term2.js).
 *
 * A term object is modelled by a value of type `T` plus a table of the operand methods its class
 * defines. The two generations differ only in the method names they look up.
 */
module TermDispatch {
  import opened Wrappers
  import Operators

  /** One operand method: the name the dispatch looks up and, when the class defines it, what it does. */
  datatype Method<!T> = Method(name: string, body: Option<(T, int) --> T>)

  datatype MethodTable<!T> = MethodTable(plus: Method<T>, minus: Method<T>, times: Method<T>, divide: Method<T>)

  /** The method the dispatch selects for an operator. */
  function Selected<T>(table: MethodTable<T>, op: Operators.Operator): Method<T> {
    match op
    case Plus => table.plus
    case Minus => table.minus
    case Times => table.times
    case Divide => table.divide
  }

  /** The method about to be called accepts its arguments (a divide method refuses operand 0). */
  ghost predicate Callable<T>(table: MethodTable<T>, subject: T, operator: string, operand: int) {
    var op := Operators.Parse(operator);
    op.Some? && Selected(table, op.value).body.Some? ==> Selected(table, op.value).body.value.requires(subject, operand)
  }

  /**
   * `apply(operation)`: + and − call their method only when the term defines it and otherwise leave
   * the term as it is; × and ÷ call theirs unconditionally, so a term without one fails; any other
   * operator symbol fails as invalid.
   */
  function Apply<T>(table: MethodTable<T>, subject: T, operator: string, operand: int): (r: Result<T>)
    requires Callable(table, subject, operator, operand)
    ensures Operators.Parse(operator).None? <==> r == Failure(InvalidOperator(operator))
    ensures Operators.Parse(operator).Some? ==>
      var m := Selected(table, Operators.Parse(operator).value);
      if m.body.Some? then r == Success(m.body.value(subject, operand))
      else if Operators.Parse(operator).value in {Operators.Plus, Operators.Minus} then r == Success(subject)
      else r == Failure(NotAFunction(m.name))
  {
    if operator == Operators.PLUS then
      (if table.plus.body.Some? then Success(table.plus.body.value(subject, operand)) else Success(subject))
    else if operator == Operators.MINUS then
      (if table.minus.body.Some? then Success(table.minus.body.value(subject, operand)) else Success(subject))
    else if operator == Operators.TIMES then
      (if table.times.body.Some? then Success(table.times.body.value(subject, operand))
       else Failure(NotAFunction(table.times.name)))
    else if operator == Operators.DIVIDE then
      (if table.divide.body.Some? then Success(table.divide.body.value(subject, operand))
       else Failure(NotAFunction(table.divide.name)))
    else Failure(InvalidOperator(operator))
  }

  /** Term.js looks up plusInteger, minusInteger, timesInteger and divideByInteger. */
  function TermMethods<T>(plus: Option<(T, int) --> T>, minus: Option<(T, int) --> T>,
                          times: Option<(T, int) --> T>, divide: Option<(T, int) --> T>): (table: MethodTable<T>)
    ensures table.plus.name == "plusInteger" && table.minus.name == "minusInteger"
    ensures table.times.name == "timesInteger" && table.divide.name == "divideByInteger"
    ensures table.plus.body == plus && table.minus.body == minus && table.times.body == times && table.divide.body == divide
  {
    MethodTable(Method("plusInteger", plus), Method("minusInteger", minus),
                Method("timesInteger", times), Method("divideByInteger", divide))
  }

  /** Term2.js looks up plus, minus, times and divide. */
  function Term2Methods<T>(plus: Option<(T, int) --> T>, minus: Option<(T, int) --> T>,
                           times: Option<(T, int) --> T>, divide: Option<(T, int) --> T>): (table: MethodTable<T>)
    ensures table.plus.name == "plus" && table.minus.name == "minus"
    ensures table.times.name == "times" && table.divide.name == "divide"
    ensures table.plus.body == plus && table.minus.body == minus && table.times.body == times && table.divide.body == divide
  {
    MethodTable(Method("plus", plus), Method("minus", minus), Method("times", times), Method("divide", divide))
  }

  /** A term with no operand methods at all ignores + and −, and fails on × and ÷ naming the missing method. */
  lemma BareTermIgnoresPlusMinus<T>(subject: T, operand: int)
    ensures var table := TermMethods<T>(None, None, None, None);
      Apply(table, subject, Operators.PLUS, operand) == Success(subject) &&
      Apply(table, subject, Operators.MINUS, operand) == Success(subject) &&
      Apply(table, subject, Operators.TIMES, operand) == Failure(NotAFunction("timesInteger")) &&
      Apply(table, subject, Operators.DIVIDE, operand) == Failure(NotAFunction("divideByInteger"))
  {
  }
}
