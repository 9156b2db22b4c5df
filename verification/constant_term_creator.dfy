/**
 * ConstantTermCreator (js/common/model/ConstantTermCreator.js): makes constant terms, combines two
 * of them into one, copies one, and applies a universal operation to one of its terms on the plate.
 * A result whose sign differs from the sign of the creator's default value is made by the creator's
 * inverse creator instead.
 */
module ConstantTermCreator {
  import opened Wrappers
  import Operators
  import Terms
  import Grid
  import Plate
  import UO = UniversalOperation

  /** The kind of a new ConstantTermCreator: its default value is the one given, or 1. */
  function New(defaultConstantValue: Option<real>): (k: Plate.Kind)
    ensures k.ConstantKind?
    ensures forall options: Plate.TermOptions {:trigger Plate.NewTerm(k, options)} :: options.constantValue.None? ==>
      Plate.NewTerm(k, options) == Success(Terms.ConstantTerm(if defaultConstantValue.Some? then defaultConstantValue.value else 1.0))
  {
    Plate.ConstantKind(defaultConstantValue.GetOr(1.0))
  }

  predicate IsConstantCreator(s: Plate.Scene, c: Plate.CreatorId) {
    c < |s.creators| && s.creators[c].kind.ConstantKind?
  }

  /** The default value of creator `c`. */
  function DefaultValue(s: Plate.Scene, c: Plate.CreatorId): real
    requires IsConstantCreator(s, c)
  {
    s.creators[c].kind.defaultConstantValue
  }

  // ---------------------------------------------------------------------------------------
  // combineTerms and copyTerm

  /**
   * `combineTerms(term1, term2, options)`: a new constant term whose value is the sum of the two
   * values. It is made by this creator when the sum has the sign of the default value, and by the
   * inverse creator otherwise; there is no zero test, so a zero sum goes to the inverse creator too.
   * The caller's options must leave the value unset.
   */
  function CombineTerms(s: Plate.Scene, c: Plate.CreatorId, term1: Terms.Term, term2: Terms.Term, options: Plate.TermOptions)
    : (r: Result<(Plate.Scene, Plate.TermId)>)
    requires Plate.Valid(s) && IsConstantCreator(s, c)
    requires term1.ConstantTerm? && term2.ConstantTerm? && options.constantValue.None?
    ensures var sum := term1.constantValue + term2.constantValue;
      var matches := Operators.Sign(sum) == Operators.Sign(DefaultValue(s, c));
      && (r.Failure? <==> !matches && s.creators[c].inverse.None?)
      && (r.Failure? ==> r.error == NoInverseCreator)
      && (r.Success? ==>
            var (t, id) := r.value;
            && Plate.Valid(t) && t.grid == s.grid && id !in s.entries && id in t.entries
            && t.entries == s.entries[id := t.entries[id]]
            && t.entries[id].term == Terms.ConstantTerm(sum)
            && t.entries[id].diameter == options.diameter
            && (matches ==> Plate.Owner(t, id) == c)
            && (!matches ==> Some(Plate.Owner(t, id)) == s.creators[c].inverse))
  {
    var sum := term1.constantValue + term2.constantValue;
    match Plate.Route(s, c, sum)
    case None => Failure(NoInverseCreator)
    case Some(target) => Plate.CreateTerm(s, target, options.(constantValue := Some(sum)))
  }

  /** `copyTerm(term, options)`: a new term of this creator with the value of `term`. */
  function CopyTerm(s: Plate.Scene, c: Plate.CreatorId, term: Terms.Term, options: Plate.TermOptions)
    : (r: (Plate.Scene, Plate.TermId))
    requires Plate.Valid(s) && IsConstantCreator(s, c)
    requires term.ConstantTerm? && options.constantValue.None?
    ensures var (t, id) := r;
      && Plate.Valid(t) && t.grid == s.grid && id !in s.entries && id in t.entries
      && t.entries == s.entries[id := t.entries[id]]
      && Plate.Owner(t, id) == c
      && Terms.Weight(t.entries[id].term, x => 0) == Terms.Weight(term, x => 0)
      && t.entries[id].term == term
  {
    Plate.CreateTerm(s, c, options.(constantValue := Some(term.constantValue))).value
  }

  /**
   * Combining with `matches` routing, stated for a creator and an inverse whose default values are
   * opposite and nonzero: a nonzero sum always ends up with the creator whose default value has the
   * sign of the sum.
   */
  lemma SignRouting(s: Plate.Scene, c: Plate.CreatorId, term1: Terms.Term, term2: Terms.Term, options: Plate.TermOptions)
    requires Plate.Valid(s) && IsConstantCreator(s, c)
    requires term1.ConstantTerm? && term2.ConstantTerm? && options.constantValue.None?
    requires s.creators[c].inverse.Some?
    requires IsInverseOf(s.creators[c].kind, s.creators[s.creators[c].inverse.value].kind)
    requires DefaultValue(s, c) != 0.0 && term1.constantValue + term2.constantValue != 0.0
    ensures CombineTerms(s, c, term1, term2, options).Success?
    ensures var (t, id) := CombineTerms(s, c, term1, term2, options).value;
      Operators.Sign(DefaultValue(t, Plate.Owner(t, id))) == Operators.Sign(term1.constantValue + term2.constantValue)
  {
  }

  /**
   * A zero sum is not annihilated: when the default value is nonzero, the inverse creator (if any)
   * makes a term of value 0.
   */
  lemma ZeroSumGoesToInverse(s: Plate.Scene, c: Plate.CreatorId, term1: Terms.Term, term2: Terms.Term, options: Plate.TermOptions)
    requires Plate.Valid(s) && IsConstantCreator(s, c)
    requires term1.ConstantTerm? && term2.ConstantTerm? && options.constantValue.None?
    requires DefaultValue(s, c) != 0.0 && term1.constantValue == -term2.constantValue
    ensures var r := CombineTerms(s, c, term1, term2, options);
      && (s.creators[c].inverse.None? ==> r == Failure(NoInverseCreator))
      && (s.creators[c].inverse.Some? ==>
            r.Success? && Some(Plate.Owner(r.value.0, r.value.1)) == s.creators[c].inverse &&
            r.value.0.entries[r.value.1].term == Terms.ConstantTerm(0.0))
  {
  }

  // ---------------------------------------------------------------------------------------
  // applyOperation

  /** `v op operand` for the four operator symbols; any other symbol is an invalid operator. */
  function OperationValue(v: real, operation: UO.UniversalOperation): (r: Result<real>)
    requires UO.DividesByNonzero(operation)
    ensures r.Failure? <==> Operators.Parse(operation.operator).None?
    ensures r.Failure? ==> r.error == InvalidOperator(operation.operator)
    ensures r.Success? ==> r.value == Operators.Eval(Operators.Parse(operation.operator).value, v, operation.operand)
    ensures operation.operator == Operators.PLUS ==> r.Success? && r.value == v + operation.operand as real
    ensures operation.operator == Operators.MINUS ==> r.Success? && r.value == v - operation.operand as real
    ensures operation.operator == Operators.TIMES ==> r.Success? && r.value == v * operation.operand as real
    ensures operation.operator == Operators.DIVIDE ==> r.Success? && r.value == v / operation.operand as real
  {
    match Operators.Parse(operation.operator)
    case None => Failure(InvalidOperator(operation.operator))
    case Some(op) => Success(Operators.Eval(op, v, operation.operand))
  }

  /** Term `id` is a term of constant creator `c` that is on the plate. */
  predicate OnPlate(s: Plate.Scene, c: Plate.CreatorId, id: Plate.TermId) {
    Plate.Valid(s) && IsConstantCreator(s, c) && id in s.entries && Plate.Owner(s, id) == c && Some(id) in s.grid.cells
  }

  /** The options `applyOperation` creates its result with: the new value and the big diameter. */
  function ResultOptions(v: real): Plate.TermOptions {
    Plate.TermOptions(Some(v), None, Plate.BigTermDiameter)
  }

  /**
   * `applyOperation(operation, term)` as written: the term is disposed, which removes it from the plate
   * with the grid's shift-down, and a nonzero result is then created at the cell index the term had
   * before. When a term sat above it in the same column, the shift has moved that term into the
   * cell, and the creation fails on an occupied cell.
   */
  function ApplyOperationAsWritten(s: Plate.Scene, c: Plate.CreatorId, operation: UO.UniversalOperation, id: Plate.TermId)
    : (r: Result<Plate.Scene>)
    requires OnPlate(s, c, id) && UO.DividesByNonzero(operation)
    ensures Operators.Parse(operation.operator).None? ==> r == Failure(InvalidOperator(operation.operator))
    ensures OperationValue(s.entries[id].term.constantValue, operation) == Success(0.0) ==>
      r == Success(Plate.DisposeTerm(s, id))
    ensures var cell := Grid.GetCellForTerm(s.grid, id);
      r.Failure? && Operators.Parse(operation.operator).Some? && Plate.Route(s, c, OperationValue(s.entries[id].term.constantValue, operation).value).Some? ==>
        r.error == CellOccupied(cell) && Plate.DisposeTerm(s, id).grid.cells[cell].Some?
  {
    var cell := Grid.GetCellForTerm(s.grid, id);
    match OperationValue(s.entries[id].term.constantValue, operation)
    case Failure(e) => Failure(e)
    case Success(v) =>
      var disposed := Plate.DisposeTerm(s, id);
      if v == 0.0 then Success(disposed)
      else
        match Plate.Route(s, c, v)
        case None => Failure(NoInverseCreator)
        case Some(target) =>
          match Plate.CreateTermOnPlate(disposed, target, cell, ResultOptions(v))
          case Failure(e) => Failure(e)
          case Success((t, _)) => Success(t)
  }

  /**
   * A column of two terms, the constant 3 (id 0) in the bottom cell and another term (id 1) above it.
   * Both belong to a creator with default value 1 and no inverse.
   */
  function StackedScene(): (s: Plate.Scene)
    ensures Plate.Valid(s) && OnPlate(s, 0, 0)
  {
    var s := Plate.Scene(
      [Plate.Creator(Plate.ConstantKind(1.0), None)],
      Grid.Grid(2, 1, [Some(1), Some(0)]),
      map[0 := Plate.Entry(0, Terms.ConstantTerm(3.0), Plate.DefaultDiameter),
          1 := Plate.Entry(0, Terms.ConstantTerm(5.0), Plate.DefaultDiameter)],
      2);
    assert s.grid.cells[1] == Some(0);
    s
  }

  /**
   * Multiplying the bottom constant of `StackedScene` by 2: as written the shift-down drops the upper
   * term into the freed cell and re-creating 6 there fails; applied in place, 6 takes the cell and
   * the upper term stays where it was.
   */
  lemma AsWrittenResultCollides()
    ensures ApplyOperationAsWritten(StackedScene(), 0, UO.UniversalOperation(Operators.TIMES, 2), 0) == Failure(CellOccupied(1))
    ensures var r := ApplyOperation(StackedScene(), 0, UO.UniversalOperation(Operators.TIMES, 2), 0);
      r.Success? && r.value.grid.cells[0] == Some(1) && r.value.grid.cells[1].Some? &&
      r.value.entries[r.value.grid.cells[1].value].term == Terms.ConstantTerm(6.0)
  {
    var s := StackedScene();
    var operation := UO.UniversalOperation(Operators.TIMES, 2);
    assert Grid.GetCellForTerm(s.grid, 0) == 1;
    var disposed := Plate.DisposeTerm(s, 0);
    Grid.NextRow(s.grid, 0);
    assert disposed.grid.cells[1] == Some(1);
  }

  /**
   * A nonzero result `v` replaces term `id` in its own cell, with the big diameter. It is made by this
   * creator when `v` has the sign of the default value and by the inverse creator otherwise; every
   * other cell keeps its occupant.
   */
  function ReplaceWithValue(s: Plate.Scene, c: Plate.CreatorId, id: Plate.TermId, v: real): (r: Result<Plate.Scene>)
    requires OnPlate(s, c, id) && v != 0.0
    ensures r.Success? ==> Plate.Valid(r.value) && r.value.creators == s.creators && id !in r.value.entries
    ensures r.Success? ==> |r.value.grid.cells| == |s.grid.cells|
    ensures var matches := Operators.Sign(v) == Operators.Sign(DefaultValue(s, c));
      var cell := Grid.GetCellForTerm(s.grid, id);
      && (r.Failure? <==> !matches && s.creators[c].inverse.None?)
      && (r.Failure? ==> r.error == NoInverseCreator)
      && (r.Success? ==>
            var t := r.value;
            && t.grid.cells[cell].Some? && t.grid.cells[cell].value in t.entries
            && t.entries[t.grid.cells[cell].value] ==
                 Plate.Entry(if matches then c else s.creators[c].inverse.value, Terms.ConstantTerm(v), Plate.BigTermDiameter)
            && (forall j :: 0 <= j < |s.grid.cells| && j != cell ==> t.grid.cells[j] == s.grid.cells[j]))
  {
    match Plate.Route(s, c, v)
    case None => Failure(NoInverseCreator)
    case Some(target) =>
      var kind := s.creators[target].kind;
      assert kind.ConstantKind?;
      assert Plate.NewTerm(kind, ResultOptions(v)) == Success(Terms.ConstantTerm(v));
      Success(Plate.ReplaceInPlace(s, id, target, ResultOptions(v)).value.0)
  }

  /**
   * `applyOperation(operation, term)` with the result kept in the term's own cell: the new value is
   * `v op operand`; a zero result disposes of the term (with the shift-down) and creates nothing, a
   * nonzero one replaces the term in its cell as `ReplaceWithValue` says.
   */
  function ApplyOperation(s: Plate.Scene, c: Plate.CreatorId, operation: UO.UniversalOperation, id: Plate.TermId)
    : (r: Result<Plate.Scene>)
    requires OnPlate(s, c, id) && UO.DividesByNonzero(operation)
    ensures r.Success? ==> Plate.Valid(r.value) && r.value.creators == s.creators && id !in r.value.entries
    ensures Operators.Parse(operation.operator).None? ==> r == Failure(InvalidOperator(operation.operator))
    ensures Operators.Parse(operation.operator).Some? ==>
      var v := Operators.Eval(Operators.Parse(operation.operator).value, s.entries[id].term.constantValue, operation.operand);
      && (v == 0.0 ==> r.Success? && r.value.grid == Grid.Removed(s.grid, id) && r.value.entries == s.entries - {id})
      && (v != 0.0 ==> r == ReplaceWithValue(s, c, id, v))
  {
    match OperationValue(s.entries[id].term.constantValue, operation)
    case Failure(e) => Failure(e)
    case Success(v) =>
      if v == 0.0 then Success(Plate.DisposeTerm(s, id))
      else ReplaceWithValue(s, c, id, v)
  }

  /**
   * The scenario of one term on the plate with value 3: × 2 leaves a single term of value 6 made by
   * the creator in the same cell, and × −1 leaves −3 made by the inverse creator in the same cell.
   */
  lemma TimesOnSingleTerm(s: Plate.Scene, c: Plate.CreatorId, id: Plate.TermId)
    requires OnPlate(s, c, id) && s.entries[id].term == Terms.ConstantTerm(3.0) && DefaultValue(s, c) > 0.0
    requires s.creators[c].inverse.Some?
    ensures var r := ApplyOperation(s, c, UO.UniversalOperation(Operators.TIMES, 2), id);
      var cell := Grid.GetCellForTerm(s.grid, id);
      r.Success? && r.value.grid.cells[cell].Some? &&
      r.value.entries[r.value.grid.cells[cell].value] == Plate.Entry(c, Terms.ConstantTerm(6.0), Plate.BigTermDiameter)
    ensures var r := ApplyOperation(s, c, UO.UniversalOperation(Operators.TIMES, -1), id);
      var cell := Grid.GetCellForTerm(s.grid, id);
      r.Success? && r.value.grid.cells[cell].Some? &&
      r.value.entries[r.value.grid.cells[cell].value] ==
        Plate.Entry(s.creators[c].inverse.value, Terms.ConstantTerm(-3.0), Plate.BigTermDiameter)
  {
  }

  // ---------------------------------------------------------------------------------------
  // isInverseOf and isEquivalentTo

  /**
   * `isInverseOf(other)`: `other` is a constant creator whose default value is the negation of this one's,
   * that is, whose default term is the inverse of this one's; the two default terms then weigh nothing together.
   */
  function IsInverseOf(k: Plate.Kind, other: Plate.Kind): (r: bool)
    requires k.ConstantKind?
    ensures r <==> (other.ConstantKind? &&
      Terms.IsInverseOf(Terms.ConstantTerm(k.defaultConstantValue), Terms.ConstantTerm(other.defaultConstantValue)) == Success(true))
    ensures r ==> (Terms.Weight(Terms.ConstantTerm(k.defaultConstantValue), x => 0)
      + Terms.Weight(Terms.ConstantTerm(other.defaultConstantValue), x => 0) == 0.0)
  {
    other.ConstantKind? && other.defaultConstantValue == -k.defaultConstantValue
  }

  /** `isEquivalentTo(other)`: `other` is a constant creator whose default term weighs the same as this one's. */
  function IsEquivalentTo(k: Plate.Kind, other: Plate.Kind): (r: bool)
    requires k.ConstantKind?
    ensures r <==> (other.ConstantKind? &&
      Terms.Weight(Terms.ConstantTerm(other.defaultConstantValue), x => 0) == Terms.Weight(Terms.ConstantTerm(k.defaultConstantValue), x => 0))
  {
    other.ConstantKind? && other.defaultConstantValue == k.defaultConstantValue
  }

  /**
   * Being inverses is symmetric and never holds against a non-constant creator; the inverse of an
   * inverse is equivalent to the original, and a creator is its own inverse only with default 0.
   */
  lemma InverseProperties(a: Plate.Kind, b: Plate.Kind, c: Plate.Kind)
    requires a.ConstantKind?
    ensures !b.ConstantKind? ==> !IsInverseOf(a, b)
    ensures b.ConstantKind? ==> (IsInverseOf(a, b) <==> IsInverseOf(b, a))
    ensures b.ConstantKind? && IsInverseOf(a, b) && IsInverseOf(b, c) ==> IsEquivalentTo(a, c)
    ensures IsInverseOf(a, a) <==> a.defaultConstantValue == 0.0
  {
  }

  /** Equivalence is reflexive, symmetric and transitive among constant creators. */
  lemma EquivalenceProperties(a: Plate.Kind, b: Plate.Kind, c: Plate.Kind)
    requires a.ConstantKind?
    ensures IsEquivalentTo(a, a)
    ensures !b.ConstantKind? ==> !IsEquivalentTo(a, b)
    ensures b.ConstantKind? ==> (IsEquivalentTo(a, b) <==> IsEquivalentTo(b, a))
    ensures b.ConstantKind? && IsEquivalentTo(a, b) && IsEquivalentTo(b, c) ==> IsEquivalentTo(a, c)
  {
  }
}
