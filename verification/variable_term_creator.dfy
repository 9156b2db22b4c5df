/**
 * VariableTermCreator (js/common/model/VariableTermCreator.js): makes terms `coefficient · x` for one
 * variable, sums their coefficients on the plate, combines and copies them, applies × and ÷ to one
 * of them, and saves and restores its terms on the plate as a snapshot.
 */
module VariableTermCreator {
  import opened Wrappers
  import Operators
  import Terms
  import Grid
  import Plate
  import PlateRestore
  import UO = UniversalOperation

  /** The kind of a new VariableTermCreator: its default coefficient is the one given, or 1. */
  function New(symbol: string, variable: Terms.VariableId, defaultCoefficient: Option<real>): (k: Plate.Kind)
    ensures k.VariableKind? && k.symbol == symbol && k.variable == variable
    ensures defaultCoefficient.None? ==>
      forall options: Plate.TermOptions {:trigger Plate.NewTerm(k, options)} :: options.coefficient.None? ==>
        Plate.NewTerm(k, options) == Success(Terms.VariableTerm(symbol, variable, 1.0))
  {
    Plate.VariableKind(symbol, variable, defaultCoefficient.GetOr(1.0))
  }

  predicate IsVariableCreator(s: Plate.Scene, c: Plate.CreatorId) {
    c < |s.creators| && s.creators[c].kind.VariableKind?
  }

  function DefaultCoefficient(s: Plate.Scene, c: Plate.CreatorId): real
    requires IsVariableCreator(s, c)
  {
    s.creators[c].kind.defaultCoefficient
  }

  /** The variable term `coefficient · x` that creator `c` makes. */
  function TermOf(s: Plate.Scene, c: Plate.CreatorId, coefficient: real): Terms.Term
    requires IsVariableCreator(s, c)
  {
    Terms.VariableTerm(s.creators[c].kind.symbol, s.creators[c].kind.variable, coefficient)
  }

  // ---------------------------------------------------------------------------------------
  // sumCoefficientsOnScale

  /** The coefficient of live term `id` (0 for anything that is not a variable term). */
  function Coefficient(s: Plate.Scene, id: Plate.TermId): real {
    if id in s.entries && s.entries[id].term.VariableTerm? then s.entries[id].term.coefficient else 0.0
  }

  /** The sum of the coefficients of creator `c`'s terms in the first `n` cells of the plate. */
  function CellSum(s: Plate.Scene, c: Plate.CreatorId, n: nat): real
    requires n <= |s.grid.cells|
  {
    if n == 0 then 0.0
    else CellSum(s, c, n - 1) + (if Plate.Owns(s, c, n - 1) then Coefficient(s, s.grid.cells[n - 1].value) else 0.0)
  }

  /** The sum of the coefficients of a list of terms. */
  function ListSum(s: Plate.Scene, ids: seq<Plate.TermId>): real {
    if ids == [] then 0.0 else ListSum(s, ids[..|ids| - 1]) + Coefficient(s, ids[|ids| - 1])
  }

  /** The terms in a list of occupied cells. */
  function IdsIn(s: Plate.Scene, cells: seq<int>): (ids: seq<Plate.TermId>)
    requires forall k :: 0 <= k < |cells| ==> 0 <= cells[k] < |s.grid.cells| && s.grid.cells[cells[k]].Some?
    ensures |ids| == |cells|
  {
    seq(|cells|, k requires 0 <= k < |cells| => s.grid.cells[cells[k]].value)
  }

  /** Summing the terms of `c` in cell order gives the sum over the cells. */
  lemma {:induction false} ListSumOfOwnedCells(s: Plate.Scene, c: Plate.CreatorId, n: nat)
    requires n <= |s.grid.cells|
    ensures ListSum(s, IdsIn(s, Plate.OwnedCells(s, c, n))) == CellSum(s, c, n)
  {
    if n > 0 {
      ListSumOfOwnedCells(s, c, n - 1);
      if Plate.Owns(s, c, n - 1) {
        var ids := IdsIn(s, Plate.OwnedCells(s, c, n));
        assert ids[..|ids| - 1] == IdsIn(s, Plate.OwnedCells(s, c, n - 1));
      }
    }
  }

  /** With no term of `c` among the first `n` cells, the sum is 0. */
  lemma {:induction false} CellSumOfNoTerms(s: Plate.Scene, c: Plate.CreatorId, n: nat)
    requires n <= |s.grid.cells| && forall i :: 0 <= i < n ==> !Plate.Owns(s, c, i)
    ensures CellSum(s, c, n) == 0.0
  {
    if n > 0 {
      CellSumOfNoTerms(s, c, n - 1);
    }
  }

  /**
   * `sumCoefficientsOnScale`: adds up the coefficients of the creator's terms on the plate, in list
   * order, starting from 0. The total is the sum over the plate's cells, and 0 when none holds a term
   * of this creator.
   */
  method SumCoefficientsOnScale(s: Plate.Scene, c: Plate.CreatorId) returns (sum: real)
    requires Plate.Valid(s)
    ensures sum == CellSum(s, c, |s.grid.cells|)
    ensures (forall i :: 0 <= i < |s.grid.cells| ==> !Plate.Owns(s, c, i)) ==> sum == 0.0
  {
    var terms := Plate.TermsOnPlate(s, c);
    sum := SumList(s, terms);
    TermsOnPlateSum(s, c);
  }

  /** The loop of `sumCoefficientsOnScale`: the coefficients of `terms`, added in order from 0. */
  method SumList(s: Plate.Scene, terms: seq<Plate.TermId>) returns (sum: real)
    ensures sum == ListSum(s, terms)
  {
    sum := 0.0;
    var i := 0;
    while i < |terms|
      invariant 0 <= i <= |terms|
      invariant sum == ListSum(s, terms[..i])
    {
      ListSumStep(s, terms, i);
      sum := sum + Coefficient(s, terms[i]);
      i := i + 1;
    }
    assert terms[..i] == terms;
  }

  lemma ListSumStep(s: Plate.Scene, ids: seq<Plate.TermId>, i: int)
    requires 0 <= i < |ids|
    ensures ListSum(s, ids[..i + 1]) == ListSum(s, ids[..i]) + Coefficient(s, ids[i])
  {
    assert ids[..i + 1][..i] == ids[..i];
  }

  /** The terms of `c` on the plate add up to the sum over the cells, which is 0 when no cell holds one. */
  lemma TermsOnPlateSum(s: Plate.Scene, c: Plate.CreatorId)
    requires Plate.Valid(s)
    ensures ListSum(s, Plate.TermsOnPlate(s, c)) == CellSum(s, c, |s.grid.cells|)
    ensures (forall i :: 0 <= i < |s.grid.cells| ==> !Plate.Owns(s, c, i)) ==> CellSum(s, c, |s.grid.cells|) == 0.0
  {
    assert Plate.TermsOnPlate(s, c) == IdsIn(s, Plate.OwnedCells(s, c, |s.grid.cells|));
    ListSumOfOwnedCells(s, c, |s.grid.cells|);
    if forall i :: 0 <= i < |s.grid.cells| ==> !Plate.Owns(s, c, i) {
      CellSumOfNoTerms(s, c, |s.grid.cells|);
    }
  }

  /**
   * Putting a new term into an empty cell changes the sum of `c` by the term's coefficient when the
   * term is `c`'s and the cell is among the first `n`, and leaves it alone otherwise.
   */
  lemma {:induction false} CellSumAfterPut(s: Plate.Scene, t: Plate.Scene, c: Plate.CreatorId, cell: int, id: Plate.TermId, n: nat)
    requires Plate.Valid(s) && 0 <= cell < |s.grid.cells| && s.grid.cells[cell].None? && id !in s.entries
    requires t.grid.cells == s.grid.cells[cell := Some(id)] && id in t.entries && t.entries == s.entries[id := t.entries[id]]
    requires n <= |s.grid.cells|
    ensures CellSum(t, c, n) ==
      CellSum(s, c, n) + (if cell < n && Plate.Owner(t, id) == c then Coefficient(t, id) else 0.0)
  {
    if n > 0 {
      CellSumAfterPut(s, t, c, cell, id, n - 1);
      var j := n - 1;
      if j != cell && s.grid.cells[j].Some? {
        var other := s.grid.cells[j].value;
        assert other in s.entries && other != id;
        assert Plate.Owns(t, c, j) == Plate.Owns(s, c, j);
        assert Coefficient(t, other) == Coefficient(s, other);
      }
    }
  }

  /**
   * Creating a term on the plate adds its coefficient to the sum of its own creator and leaves the
   * sum of every other creator unchanged.
   */
  lemma CreateOnPlateAddsCoefficient(s: Plate.Scene, target: Plate.CreatorId, c: Plate.CreatorId, cell: int, options: Plate.TermOptions)
    requires Plate.Valid(s) && target < |s.creators| && s.creators[target].kind.VariableKind?
    requires Plate.CreateTermOnPlate(s, target, cell, options).Success?
    ensures var (t, id) := Plate.CreateTermOnPlate(s, target, cell, options).value;
      CellSum(t, c, |t.grid.cells|) ==
        CellSum(s, c, |s.grid.cells|) + (if c == target then options.coefficient.GetOr(s.creators[target].kind.defaultCoefficient) else 0.0)
  {
    var (t, id) := Plate.CreateTermOnPlate(s, target, cell, options).value;
    CellSumAfterPut(s, t, c, cell, id, |s.grid.cells|);
  }

  // ---------------------------------------------------------------------------------------
  // combineTerms and copyTerm

  /**
   * `combineTerms(term1, term2, options)`: nothing when the coefficients sum to 0; otherwise a new term
   * with the summed coefficient, made by this creator when the sum has the sign of the default
   * coefficient and by the inverse creator otherwise. The caller's options leave the coefficient unset.
   */
  function CombineTerms(s: Plate.Scene, c: Plate.CreatorId, term1: Terms.Term, term2: Terms.Term, options: Plate.TermOptions)
    : (r: Result<(Plate.Scene, Option<Plate.TermId>)>)
    requires Plate.Valid(s) && IsVariableCreator(s, c)
    requires term1.VariableTerm? && term2.VariableTerm? && options.coefficient.None?
    ensures var sum := term1.coefficient + term2.coefficient;
      var matches := Operators.Sign(sum) == Operators.Sign(DefaultCoefficient(s, c));
      && (sum == 0.0 ==> r == Success((s, None)))
      && (sum != 0.0 ==> (r.Failure? <==> !matches && s.creators[c].inverse.None?))
      && (r.Failure? ==> r.error == NoInverseCreator)
      && (sum != 0.0 && r.Success? ==>
            var (t, id) := r.value;
            && id.Some? && Plate.Valid(t) && t.grid == s.grid
            && id.value !in s.entries && id.value in t.entries
            && t.entries == s.entries[id.value := t.entries[id.value]]
            && t.entries[id.value].term == TermOf(s, c, sum)
            && t.entries[id.value].diameter == options.diameter
            && (matches ==> Plate.Owner(t, id.value) == c)
            && (!matches ==> Some(Plate.Owner(t, id.value)) == s.creators[c].inverse))
  {
    var sum := term1.coefficient + term2.coefficient;
    if sum == 0.0 then Success((s, None))
    else
      match Plate.Route(s, c, sum)
      case None => Failure(NoInverseCreator)
      case Some(target) =>
        var (t, id) := Plate.CreateTerm(s, target, options.(coefficient := Some(sum))).value;
        Success((t, Some(id)))
  }

  /** `copyTerm(term, options)`: a new term of this creator with the coefficient of `term`. */
  function CopyTerm(s: Plate.Scene, c: Plate.CreatorId, term: Terms.Term, options: Plate.TermOptions)
    : (r: (Plate.Scene, Plate.TermId))
    requires Plate.Valid(s) && IsVariableCreator(s, c)
    requires term.VariableTerm? && Terms.WellFormed(term) && options.coefficient.None?
    ensures var (t, id) := r;
      && Plate.Valid(t) && t.grid == s.grid && id !in s.entries && id in t.entries
      && t.entries == s.entries[id := t.entries[id]]
      && Plate.Owner(t, id) == c
      && t.entries[id].term == TermOf(s, c, term.coefficient)
      && t.entries[id].diameter == options.diameter
  {
    Plate.CreateTerm(s, c, options.(coefficient := Some(term.coefficient))).value
  }

  // ---------------------------------------------------------------------------------------
  // applyOperationToTerm and applyOperationToPlate

  /** Term `id` is a term of variable creator `c` that is on the plate. */
  predicate OnPlate(s: Plate.Scene, c: Plate.CreatorId, id: Plate.TermId) {
    Plate.Valid(s) && IsVariableCreator(s, c) && id in s.entries && Plate.Owner(s, id) == c && Some(id) in s.grid.cells
  }

  /** The options the result is created with: the new coefficient and the old term's diameter. */
  function ResultOptions(s: Plate.Scene, id: Plate.TermId, coefficient: real): Plate.TermOptions
    requires id in s.entries
  {
    Plate.TermOptions(None, Some(coefficient), s.entries[id].diameter)
  }

  /**
   * The new coefficient of a × or ÷ operation; + and − do not reach this point, and any other symbol
   * is refused.
   */
  function OperationCoefficient(coefficient: real, operation: UO.UniversalOperation): (r: Result<real>)
    requires UO.DividesByNonzero(operation)
    ensures r.Success? <==> operation.operator == Operators.TIMES || operation.operator == Operators.DIVIDE
    ensures r.Failure? ==> r.error == InvalidOperator(operation.operator)
    ensures operation.operator == Operators.TIMES ==> r.Success? && r.value == coefficient * operation.operand as real
    ensures operation.operator == Operators.DIVIDE ==> r.Success? && r.value == coefficient / operation.operand as real
  {
    if operation.operator == Operators.TIMES then Success(Operators.Eval(Operators.Times, coefficient, operation.operand))
    else if operation.operator == Operators.DIVIDE then Success(Operators.Eval(Operators.Divide, coefficient, operation.operand))
    else Failure(InvalidOperator(operation.operator))
  }

  /**
   * `applyOperationToTerm(operation, term)` as written: for × and ÷ the term is disposed, which removes
   * it from the plate with the grid's shift-down, and a nonzero result is created at the term's old
   * cell index, which the shift may have refilled.
   */
  function ApplyOperationToTermAsWritten(s: Plate.Scene, c: Plate.CreatorId, operation: UO.UniversalOperation, id: Plate.TermId)
    : (r: Result<(Plate.Scene, Option<Plate.TermId>)>)
    requires OnPlate(s, c, id) && UO.DividesByNonzero(operation)
    ensures operation.operator == Operators.PLUS || operation.operator == Operators.MINUS ==> r == Success((s, Some(id)))
    ensures var cell := Grid.GetCellForTerm(s.grid, id);
      var w := OperationCoefficient(s.entries[id].term.coefficient, operation);
      r.Failure? && w.Success? && Plate.Route(s, c, w.value).Some? ==>
        r.error == CellOccupied(cell) && Plate.DisposeTerm(s, id).grid.cells[cell].Some?
  {
    if operation.operator == Operators.PLUS || operation.operator == Operators.MINUS then Success((s, Some(id)))
    else
      var cell := Grid.GetCellForTerm(s.grid, id);
      match OperationCoefficient(s.entries[id].term.coefficient, operation)
      case Failure(e) => Failure(e)
      case Success(w) =>
        var disposed := Plate.DisposeTerm(s, id);
        if w == 0.0 then Success((disposed, None))
        else
          match Plate.Route(s, c, w)
          case None => Failure(NoInverseCreator)
          case Some(target) =>
            match Plate.CreateTermOnPlate(disposed, target, cell, ResultOptions(s, id, w))
            case Failure(e) => Failure(e)
            case Success((t, newId)) => Success((t, Some(newId)))
  }

  /** Two terms of `x` stacked in one column: 3x (id 0) in the bottom cell and x (id 1) above it. */
  function StackedScene(): (s: Plate.Scene)
    ensures OnPlate(s, 0, 0)
  {
    var s := Plate.Scene(
      [Plate.Creator(Plate.VariableKind("x", 0, 1.0), None)],
      Grid.Grid(2, 1, [Some(1), Some(0)]),
      map[0 := Plate.Entry(0, Terms.VariableTerm("x", 0, 3.0), Plate.DefaultDiameter),
          1 := Plate.Entry(0, Terms.VariableTerm("x", 0, 1.0), Plate.DefaultDiameter)],
      2);
    assert s.grid.cells[1] == Some(0);
    s
  }

  /**
   * Multiplying the bottom term of `StackedScene` by 2: as written the shift-down drops x into the
   * freed cell and re-creating 6x there fails; applied in place, 6x takes the cell and x stays above.
   */
  lemma AsWrittenResultCollides()
    ensures ApplyOperationToTermAsWritten(StackedScene(), 0, UO.UniversalOperation(Operators.TIMES, 2), 0) == Failure(CellOccupied(1))
    ensures var r := ApplyOperationToTerm(StackedScene(), 0, UO.UniversalOperation(Operators.TIMES, 2), 0);
      r.Success? && r.value.1.Some? && r.value.0.grid.cells[0] == Some(1) && r.value.0.grid.cells[1] == r.value.1 &&
      r.value.0.entries[r.value.1.value].term == Terms.VariableTerm("x", 0, 6.0)
  {
    var s := StackedScene();
    assert Grid.GetCellForTerm(s.grid, 0) == 1;
    var disposed := Plate.DisposeTerm(s, 0);
    Grid.NextRow(s.grid, 0);
    assert disposed.grid.cells[1] == Some(1);
  }

  /**
   * A nonzero coefficient `w` replaces term `id` in its own cell, keeping the term's diameter. The
   * replacement is made by this creator when `w` has the sign of the default coefficient and by the
   * inverse creator otherwise, and every other cell keeps its occupant. A zero coefficient disposes
   * of the term, with the shift-down, and creates nothing.
   */
  function ReplaceWithCoefficient(s: Plate.Scene, c: Plate.CreatorId, id: Plate.TermId, w: real)
    : (r: Result<(Plate.Scene, Option<Plate.TermId>)>)
    requires OnPlate(s, c, id)
    ensures r.Success? ==> Plate.Valid(r.value.0) && r.value.0.creators == s.creators && id !in r.value.0.entries
    ensures r.Success? ==> |r.value.0.grid.cells| == |s.grid.cells|
    ensures w == 0.0 ==>
      r.Success? && r.value.1.None? && r.value.0.grid == Grid.Removed(s.grid, id) && r.value.0.entries == s.entries - {id}
    ensures var matches := Operators.Sign(w) == Operators.Sign(DefaultCoefficient(s, c));
      var cell := Grid.GetCellForTerm(s.grid, id);
      && (w != 0.0 ==> (r.Failure? <==> !matches && s.creators[c].inverse.None?))
      && (r.Failure? ==> r.error == NoInverseCreator)
      && (w != 0.0 && r.Success? ==>
            var (t, newId) := r.value;
            && newId.Some? && t.grid.cells[cell] == newId && newId.value in t.entries
            && t.entries[newId.value] ==
                 Plate.Entry(if matches then c else s.creators[c].inverse.value, TermOf(s, c, w), s.entries[id].diameter)
            && (forall j :: 0 <= j < |s.grid.cells| && j != cell ==> t.grid.cells[j] == s.grid.cells[j]))
  {
    if w == 0.0 then Success((Plate.DisposeTerm(s, id), None))
    else
      match Plate.Route(s, c, w)
      case None => Failure(NoInverseCreator)
      case Some(target) =>
        var kind := s.creators[target].kind;
        assert Plate.NewTerm(kind, ResultOptions(s, id, w)) == Success(TermOf(s, c, w));
        var (t, newId) := Plate.ReplaceInPlace(s, id, target, ResultOptions(s, id, w)).value;
        Success((t, Some(newId)))
  }

  /**
   * `applyOperationToTerm(operation, term)` with the result kept in the term's own cell. + and −
   * return the term itself and change nothing; × and ÷ compute the new coefficient and replace the
   * term as `ReplaceWithCoefficient` says (nothing is returned when it is 0); any other operator is
   * refused.
   */
  function ApplyOperationToTerm(s: Plate.Scene, c: Plate.CreatorId, operation: UO.UniversalOperation, id: Plate.TermId)
    : (r: Result<(Plate.Scene, Option<Plate.TermId>)>)
    requires OnPlate(s, c, id) && UO.DividesByNonzero(operation)
    ensures operation.operator == Operators.PLUS || operation.operator == Operators.MINUS ==> r == Success((s, Some(id)))
    ensures operation.operator == Operators.TIMES || operation.operator == Operators.DIVIDE ==>
      r == ReplaceWithCoefficient(s, c, id, OperationCoefficient(s.entries[id].term.coefficient, operation).value)
    ensures Operators.Parse(operation.operator).None? ==> r == Failure(InvalidOperator(operation.operator))
  {
    if operation.operator == Operators.PLUS || operation.operator == Operators.MINUS then Success((s, Some(id)))
    else
      match OperationCoefficient(s.entries[id].term.coefficient, operation)
      case Failure(e) => Failure(e)
      case Success(w) => ReplaceWithCoefficient(s, c, id, w)
  }

  /**
   * For × and ÷ the result is nothing exactly when the new coefficient is 0: with a nonzero divisor
   * that is × 0, never ÷.
   */
  lemma NothingOnlyForTimesZero(s: Plate.Scene, c: Plate.CreatorId, operation: UO.UniversalOperation, id: Plate.TermId)
    requires OnPlate(s, c, id) && UO.DividesByNonzero(operation)
    requires operation.operator == Operators.TIMES || operation.operator == Operators.DIVIDE
    ensures var r := ApplyOperationToTerm(s, c, operation, id);
      r.Success? && r.value.1.None? <==> operation.operator == Operators.TIMES && operation.operand == 0
  {
    var coefficient := s.entries[id].term.coefficient;
    assert coefficient != 0.0;
    if operation.operator == Operators.TIMES && operation.operand != 0 {
      assert coefficient * operation.operand as real != 0.0;
    } else if operation.operator == Operators.DIVIDE {
      assert coefficient / operation.operand as real != 0.0;
    }
  }

  /** `applyOperationToPlate`: no operation creates a variable term on the plate; nothing changes. */
  function ApplyOperationToPlate(s: Plate.Scene, c: Plate.CreatorId, operation: UO.UniversalOperation)
    : (r: (Plate.Scene, Option<Plate.TermId>))
    ensures r.0 == s && r.1.None?
  {
    (s, None)
  }

  // ---------------------------------------------------------------------------------------
  // isEquivalentTo

  /**
   * `isEquivalentTo(other)`: `other` is a variable creator for the same variable with the same default
   * coefficient. So the default terms of equivalent creators weigh the same whatever the variable's value.
   */
  function IsEquivalentTo(k: Plate.Kind, other: Plate.Kind): (r: bool)
    requires k.VariableKind?
    ensures r <==> (other.VariableKind? && other.variable == k.variable &&
      Terms.Weight(Terms.VariableTerm(other.symbol, other.variable, other.defaultCoefficient), x => 1)
        == Terms.Weight(Terms.VariableTerm(k.symbol, k.variable, k.defaultCoefficient), x => 1))
    ensures r ==> forall values: Terms.VariableId -> int ::
      Terms.Weight(Terms.VariableTerm(other.symbol, other.variable, other.defaultCoefficient), values)
        == Terms.Weight(Terms.VariableTerm(k.symbol, k.variable, k.defaultCoefficient), values)
  {
    other.VariableKind? && other.variable == k.variable && other.defaultCoefficient == k.defaultCoefficient
  }

  /**
   * Equivalence is reflexive, symmetric and transitive among variable creators, never holds against
   * another kind, and ignores the symbol.
   */
  lemma EquivalenceProperties(a: Plate.Kind, b: Plate.Kind, c: Plate.Kind)
    requires a.VariableKind?
    ensures IsEquivalentTo(a, a)
    ensures !b.VariableKind? ==> !IsEquivalentTo(a, b)
    ensures b.VariableKind? ==> (IsEquivalentTo(a, b) <==> IsEquivalentTo(b, a))
    ensures b.VariableKind? && IsEquivalentTo(a, b) && IsEquivalentTo(b, c) ==> IsEquivalentTo(a, c)
    ensures IsEquivalentTo(a, a.(symbol := a.symbol + "'"))
  {
  }

  // ---------------------------------------------------------------------------------------
  // createSnapshot and restoreSnapshot

  datatype Record = Record(cellIndex: int, coefficient: real, diameter: Plate.Diameter)

  /**
   * `createSnapshot`: one record per term of this creator on the plate, in cell order, with the
   * term's cell, coefficient and diameter.
   */
  function CreateSnapshot(s: Plate.Scene, c: Plate.CreatorId): (snapshot: seq<Record>)
    requires Plate.Valid(s) && IsVariableCreator(s, c)
    ensures |snapshot| == |Plate.TermsOnPlate(s, c)|
    ensures forall k :: 0 <= k < |snapshot| ==>
      var id := Plate.TermsOnPlate(s, c)[k];
      snapshot[k] == Record(Grid.GetCellForTerm(s.grid, id), Coefficient(s, id), s.entries[id].diameter)
    ensures forall k :: 0 <= k < |snapshot| ==> snapshot[k].cellIndex == Plate.OwnedCells(s, c, |s.grid.cells|)[k]
  {
    var ids := Plate.TermsOnPlate(s, c);
    var cells := Plate.OwnedCells(s, c, |s.grid.cells|);
    forall k | 0 <= k < |ids|
      ensures Grid.GetCellForTerm(s.grid, ids[k]) == cells[k]
    {
      Plate.CellOfTermOnPlate(s, c, k);
    }
    seq(|ids|, k requires 0 <= k < |ids| =>
      Record(Grid.GetCellForTerm(s.grid, ids[k]), Coefficient(s, ids[k]), s.entries[ids[k]].diameter))
  }

  /** The creation requests `restoreSnapshot` makes: one per record, at its cell, with its coefficient and diameter. */
  function Placements(snapshot: seq<Record>): (p: seq<(int, Plate.TermOptions)>)
    ensures |p| == |snapshot|
    ensures forall k :: 0 <= k < |p| ==>
      && p[k].0 == snapshot[k].cellIndex && p[k].1.constantValue.None?
      && p[k].1.coefficient == Some(snapshot[k].coefficient) && p[k].1.diameter == snapshot[k].diameter
  {
    seq(|snapshot|, k requires 0 <= k < |snapshot| =>
      (snapshot[k].cellIndex, Plate.TermOptions(None, Some(snapshot[k].coefficient), snapshot[k].diameter)))
  }

  /** `restoreSnapshot(snapshot)`: creates one term of this creator on the plate per record, in order. */
  function RestoreSnapshot(s: Plate.Scene, c: Plate.CreatorId, snapshot: seq<Record>): (r: Result<Plate.Scene>)
    requires Plate.Valid(s) && IsVariableCreator(s, c)
    ensures r.Success? ==> Plate.Valid(r.value) && r.value.creators == s.creators
    ensures PlateRestore.Placeable(s, c, Placements(snapshot)) ==> r.Success?
  {
    assert PlateRestore.Placeable(s, c, Placements(snapshot)) ==> PlateRestore.CreateAll(s, c, Placements(snapshot)).Success? by {
      if PlateRestore.Placeable(s, c, Placements(snapshot)) {
        PlateRestore.CreateAllSucceeds(s, c, Placements(snapshot));
      }
    }
    PlateRestore.CreateAll(s, c, Placements(snapshot))
  }

  /**
   * When every record names a distinct empty cell and a nonzero coefficient, each record's cell ends up
   * holding a term of this creator's variable with the recorded coefficient and diameter.
   */
  lemma RestoreSnapshotPlaces(s: Plate.Scene, c: Plate.CreatorId, snapshot: seq<Record>, k: int)
    requires Plate.Valid(s) && IsVariableCreator(s, c) && PlateRestore.Placeable(s, c, Placements(snapshot))
    requires 0 <= k < |snapshot|
    ensures RestoreSnapshot(s, c, snapshot).Success?
    ensures var kind := s.creators[c].kind;
      PlateRestore.Holds(RestoreSnapshot(s, c, snapshot).value, snapshot[k].cellIndex,
        Plate.Entry(c, Terms.VariableTerm(kind.symbol, kind.variable, snapshot[k].coefficient), snapshot[k].diameter))
  {
    PlateRestore.CreateAllPlaces(s, c, Placements(snapshot), k);
  }

  /** The creation requests of a snapshot go to distinct, empty cells and make variable terms of `c`. */
  lemma SnapshotPlaceable(s: Plate.Scene, c: Plate.CreatorId, empty: Plate.Scene)
    requires Plate.Valid(s) && IsVariableCreator(s, c)
    requires Plate.Valid(empty) && empty.creators == s.creators && Grid.Empty(empty.grid)
    requires |empty.grid.cells| == |s.grid.cells|
    ensures PlateRestore.Placeable(empty, c, Placements(CreateSnapshot(s, c)))
  {
    var snapshot := CreateSnapshot(s, c);
    var ids := Plate.TermsOnPlate(s, c);
    var p := Placements(snapshot);
    forall k | 0 <= k < |p|
      ensures Plate.NewTerm(empty.creators[c].kind, p[k].1).Success?
    {
      assert s.entries[ids[k]].term.coefficient != 0.0;
    }
  }

  /** A recorded cell gets back a term of `c` equal to the one it held, with the same diameter. */
  lemma RestoresRecordedCell(s: Plate.Scene, c: Plate.CreatorId, empty: Plate.Scene, k: int)
    requires Plate.Valid(s) && IsVariableCreator(s, c)
    requires Plate.Valid(empty) && empty.creators == s.creators && Grid.Empty(empty.grid)
    requires |empty.grid.cells| == |s.grid.cells|
    requires 0 <= k < |Plate.OwnedCells(s, c, |s.grid.cells|)|
    ensures RestoreSnapshot(empty, c, CreateSnapshot(s, c)).Success?
    ensures var t := RestoreSnapshot(empty, c, CreateSnapshot(s, c)).value;
      var i := Plate.OwnedCells(s, c, |s.grid.cells|)[k];
      && Plate.Owns(t, c, i)
      && t.entries[t.grid.cells[i].value].term == s.entries[s.grid.cells[i].value].term
      && t.entries[t.grid.cells[i].value].diameter == s.entries[s.grid.cells[i].value].diameter
  {
    var ids := Plate.TermsOnPlate(s, c);
    var p := Placements(CreateSnapshot(s, c));
    SnapshotPlaceable(s, c, empty);
    PlateRestore.CreateAllPlaces(empty, c, p, k);
    var term := s.entries[ids[k]].term;
    assert p[k].1 == Plate.TermOptions(None, Some(term.coefficient), s.entries[ids[k]].diameter);
    assert Plate.NewTerm(empty.creators[c].kind, p[k].1).value == term;
  }

  /** A cell that held no term of `c` is left empty. */
  lemma LeavesOtherCellEmpty(s: Plate.Scene, c: Plate.CreatorId, empty: Plate.Scene, i: int)
    requires Plate.Valid(s) && IsVariableCreator(s, c)
    requires Plate.Valid(empty) && empty.creators == s.creators && Grid.Empty(empty.grid)
    requires |empty.grid.cells| == |s.grid.cells| && 0 <= i < |s.grid.cells| && !Plate.Owns(s, c, i)
    ensures RestoreSnapshot(empty, c, CreateSnapshot(s, c)).Success?
    ensures RestoreSnapshot(empty, c, CreateSnapshot(s, c)).value.grid.cells[i].None?
  {
    var p := Placements(CreateSnapshot(s, c));
    SnapshotPlaceable(s, c, empty);
    PlateRestore.CreateAllKeepsOtherCells(empty, c, p, i);
  }

  /**
   * Saving a snapshot, clearing the plate and restoring the snapshot gives back this creator's
   * occupancy exactly: a cell holds one of its terms afterwards iff it did before, with the same term
   * and diameter, and no other cell is filled.
   */
  lemma SnapshotRoundTrip(s: Plate.Scene, c: Plate.CreatorId, empty: Plate.Scene, i: int)
    requires Plate.Valid(s) && IsVariableCreator(s, c)
    requires Plate.Valid(empty) && empty.creators == s.creators && Grid.Empty(empty.grid)
    requires |empty.grid.cells| == |s.grid.cells| && 0 <= i < |s.grid.cells|
    ensures RestoreSnapshot(empty, c, CreateSnapshot(s, c)).Success?
    ensures var t := RestoreSnapshot(empty, c, CreateSnapshot(s, c)).value;
      && (Plate.Owns(t, c, i) <==> Plate.Owns(s, c, i))
      && (!Plate.Owns(s, c, i) ==> t.grid.cells[i].None?)
      && (Plate.Owns(s, c, i) ==>
            t.entries[t.grid.cells[i].value].term == s.entries[s.grid.cells[i].value].term &&
            t.entries[t.grid.cells[i].value].diameter == s.entries[s.grid.cells[i].value].diameter)
  {
    var cells := Plate.OwnedCells(s, c, |s.grid.cells|);
    if Plate.Owns(s, c, i) {
      var k :| 0 <= k < |cells| && cells[k] == i;
      RestoresRecordedCell(s, c, empty, k);
    } else {
      LeavesOtherCellEmpty(s, c, empty, i);
    }
  }

  /** The round trip through a plate whose cells have all been cleared. */
  lemma SnapshotRoundTripThroughClearedPlate(s: Plate.Scene, c: Plate.CreatorId)
    requires Plate.Valid(s) && IsVariableCreator(s, c)
    ensures RestoreSnapshot(Plate.Cleared(s), c, CreateSnapshot(s, c)).Success?
    ensures var t := RestoreSnapshot(Plate.Cleared(s), c, CreateSnapshot(s, c)).value;
      forall i :: 0 <= i < |s.grid.cells| ==> (Plate.Owns(t, c, i) <==> Plate.Owns(s, c, i))
  {
    SnapshotPlaceable(s, c, Plate.Cleared(s));
    PlateRestore.CreateAllSucceeds(Plate.Cleared(s), c, Placements(CreateSnapshot(s, c)));
    forall i | 0 <= i < |s.grid.cells|
      ensures Plate.Owns(RestoreSnapshot(Plate.Cleared(s), c, CreateSnapshot(s, c)).value, c, i) <==> Plate.Owns(s, c, i)
    {
      SnapshotRoundTrip(s, c, Plate.Cleared(s), i);
    }
  }
}
