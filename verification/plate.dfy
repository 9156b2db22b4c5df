/**
 * The plate as the term creators see it: one cell grid, the live terms with the creator that made
 * each, and the creators themselves with their inverse links.
 *
 * Plate.js and TermCreator.js are not part of this model. What the creators need from them is
 * modelled here from how the creators use them: `createTerm` makes a term of the creator's kind,
 * `createTermOnPlate` also puts it into a given, empty cell, disposing a term removes it from the
 * grid (Grid.removeTerm, with its shift-down), and a creator's terms on the plate are listed in
 * cell order.
 */
module Plate {
  import opened Wrappers
  import Grid
  import Terms
  import Operators

  type CreatorId = nat
  type TermId = Grid.TermId

  /** The kind of term a creator makes, with its default value or coefficient. */
  datatype Kind =
    | ConstantKind(defaultConstantValue: real)
    | VariableKind(symbol: string, variable: Terms.VariableId, defaultCoefficient: real)
    | MysteryKind(objectName: string, weight: real)

  datatype Creator = Creator(kind: Kind, inverse: Option<CreatorId>)

  /** A term's diameter: its creator's default, or the big diameter given to results of an operation. */
  datatype Diameter = DefaultDiameter | BigTermDiameter

  datatype Entry = Entry(creator: CreatorId, term: Terms.Term, diameter: Diameter)

  datatype Scene = Scene(creators: seq<Creator>, grid: Grid.Grid, entries: map<TermId, Entry>, next: TermId)

  /** The options a creator passes when it creates a term. */
  datatype TermOptions = TermOptions(constantValue: Option<real>, coefficient: Option<real>, diameter: Diameter)

  /** A term is of the kind its creator makes (and a variable term's coefficient is nonzero). */
  predicate Matches(kind: Kind, t: Terms.Term) {
    match kind
    case ConstantKind(_) => t.ConstantTerm?
    case VariableKind(symbol, variable, _) =>
      t.VariableTerm? && t.symbol == symbol && t.variable == variable && t.coefficient != 0.0
    case MysteryKind(name, weight) => t.MysteryTerm? && t.objectName == name && t.weight == weight
  }

  /**
   * A creator and its inverse make the same kind of term (constants, or the same variable, or the
   * same mystery object); the scenes only ever link creators of one kind.
   */
  predicate SameFamily(k1: Kind, k2: Kind) {
    match k1
    case ConstantKind(_) => k2.ConstantKind?
    case VariableKind(symbol, variable, _) => k2.VariableKind? && k2.symbol == symbol && k2.variable == variable
    case MysteryKind(name, weight) => k2.MysteryKind? && k2.objectName == name && k2.weight == weight
  }

  predicate Valid(s: Scene) {
    && Grid.Valid(s.grid)
    && Grid.Distinct(s.grid)
    && (forall i :: 0 <= i < |s.grid.cells| && s.grid.cells[i].Some? ==> s.grid.cells[i].value in s.entries)
    && (forall id :: id in s.entries ==> id < s.next)
    && (forall id :: id in s.entries ==>
          s.entries[id].creator < |s.creators| && Matches(s.creators[s.entries[id].creator].kind, s.entries[id].term))
    && (forall c :: 0 <= c < |s.creators| && s.creators[c].inverse.Some? ==>
          s.creators[c].inverse.value < |s.creators| && s.creators[c].inverse.value != c &&
          SameFamily(s.creators[c].kind, s.creators[s.creators[c].inverse.value].kind))
  }

  /** The default value of a constant creator, the default coefficient of a variable creator. */
  function Default(kind: Kind): real
    requires !kind.MysteryKind?
  {
    if kind.ConstantKind? then kind.defaultConstantValue else kind.defaultCoefficient
  }

  /**
   * The creator that makes a term of value `v` on `c`'s behalf: `c` itself when `v` has the sign of
   * `c`'s default, and `c`'s inverse creator otherwise (None when `c` has none).
   */
  function Route(s: Scene, c: CreatorId, v: real): (r: Option<CreatorId>)
    requires Valid(s) && c < |s.creators| && !s.creators[c].kind.MysteryKind?
    ensures Operators.Sign(v) == Operators.Sign(Default(s.creators[c].kind)) ==> r == Some(c)
    ensures Operators.Sign(v) != Operators.Sign(Default(s.creators[c].kind)) ==> r == s.creators[c].inverse
    ensures r.Some? ==> r.value < |s.creators| && SameFamily(s.creators[c].kind, s.creators[r.value].kind)
  {
    if Operators.Sign(v) == Operators.Sign(Default(s.creators[c].kind)) then Some(c) else s.creators[c].inverse
  }

  /** The creator that made live term `id`. */
  function Owner(s: Scene, id: TermId): CreatorId
    requires id in s.entries
  {
    s.entries[id].creator
  }

  /** Cell `i` holds a term made by creator `c`. */
  predicate Owns(s: Scene, c: CreatorId, i: int) {
    0 <= i < |s.grid.cells| && s.grid.cells[i].Some? && s.grid.cells[i].value in s.entries &&
    s.entries[s.grid.cells[i].value].creator == c
  }

  // ---------------------------------------------------------------------------------------
  // Creating and disposing terms

  /**
   * `createTermProtected` of each creator: a constant takes `constantValue` or the creator's default
   * value; a variable term takes `coefficient` or the default coefficient and is refused when that is
   * zero; a mystery term ignores both.
   */
  function NewTerm(kind: Kind, options: TermOptions): (r: Result<Terms.Term>)
    ensures r.Success? ==> Matches(kind, r.value)
    ensures kind.ConstantKind? ==> r == Success(Terms.ConstantTerm(options.constantValue.GetOr(kind.defaultConstantValue)))
    ensures kind.VariableKind? ==>
      (r.Success? <==> options.coefficient.GetOr(kind.defaultCoefficient) != 0.0) &&
      (r.Success? ==> r.value.coefficient == options.coefficient.GetOr(kind.defaultCoefficient))
    ensures kind.MysteryKind? ==> r.Success? && r.value.objectName == kind.objectName && Terms.Weight(r.value, x => 0) == kind.weight
  {
    match kind
    case ConstantKind(defaultValue) => Success(Terms.NewConstantTerm(Some(options.constantValue.GetOr(defaultValue))))
    case VariableKind(symbol, variable, defaultCoefficient) =>
      Terms.NewVariableTerm(symbol, variable, Some(options.coefficient.GetOr(defaultCoefficient)))
    case MysteryKind(name, weight) => Success(Terms.MysteryTerm(name, weight))
  }

  /** `createTerm`: a new term of creator `c`'s kind under a fresh id; the grid does not change. */
  function CreateTerm(s: Scene, c: CreatorId, options: TermOptions): (r: Result<(Scene, TermId)>)
    requires Valid(s) && c < |s.creators|
    ensures r.Success? <==> NewTerm(s.creators[c].kind, options).Success?
    ensures r.Failure? ==> r.error == NewTerm(s.creators[c].kind, options).error
    ensures r.Success? ==>
      var (t, id) := r.value;
      && Valid(t) && t.creators == s.creators && t.grid == s.grid
      && id !in s.entries && id == s.next
      && t.entries == s.entries[id := Entry(c, NewTerm(s.creators[c].kind, options).value, options.diameter)]
  {
    match NewTerm(s.creators[c].kind, options)
    case Failure(e) => Failure(e)
    case Success(term) =>
      var t := s.(entries := s.entries[s.next := Entry(c, term, options.diameter)], next := s.next + 1);
      Success((t, s.next))
  }

  /**
   * `createTermOnPlate(cellIndex, options)`: a new term of creator `c`'s kind put into the given cell.
   * It fails when the term cannot be made, when the cell is not a cell of the grid, or when the cell
   * is occupied; otherwise only that cell changes.
   */
  function CreateTermOnPlate(s: Scene, c: CreatorId, cellIndex: int, options: TermOptions): (r: Result<(Scene, TermId)>)
    requires Valid(s) && c < |s.creators|
    ensures r.Success? <==>
      NewTerm(s.creators[c].kind, options).Success? && Grid.IsValidCell(s.grid, cellIndex) && s.grid.cells[cellIndex].None?
    ensures NewTerm(s.creators[c].kind, options).Success? && !Grid.IsValidCell(s.grid, cellIndex) ==>
      r == Failure(InvalidCell(cellIndex))
    ensures NewTerm(s.creators[c].kind, options).Success? && Grid.IsValidCell(s.grid, cellIndex) && s.grid.cells[cellIndex].Some? ==>
      r == Failure(CellOccupied(cellIndex))
    ensures r.Success? ==>
      var (t, id) := r.value;
      && Valid(t) && t.creators == s.creators && id == s.next && id !in s.entries
      && t.entries == s.entries[id := Entry(c, NewTerm(s.creators[c].kind, options).value, options.diameter)]
      && t.grid == Grid.PutTerm(s.grid, id, cellIndex)
  {
    match CreateTerm(s, c, options)
    case Failure(e) => Failure(e)
    case Success((t, id)) =>
      if !Grid.IsValidCell(t.grid, cellIndex) then Failure(InvalidCell(cellIndex))
      else if !Grid.IsEmptyCell(t.grid, cellIndex) then Failure(CellOccupied(cellIndex))
      else
        var u := t.(grid := Grid.PutTerm(t.grid, id, cellIndex));
        assert Grid.Distinct(u.grid) by {
          forall i | 0 <= i < |u.grid.cells| && u.grid.cells[i].Some? && i != cellIndex
            ensures u.grid.cells[i] != Some(id)
          {
            assert s.grid.cells[i].value in s.entries;
          }
        }
        Success((u, id))
  }

  /**
   * Disposing a term: it leaves the grid (with the shift-down of Grid.removeTerm when it was on it)
   * and is forgotten. Every other term stays live and on the plate if it was.
   */
  function DisposeTerm(s: Scene, id: TermId): (t: Scene)
    requires Valid(s) && id in s.entries
    ensures Valid(t) && t.creators == s.creators && t.next == s.next
    ensures t.entries == s.entries - {id}
    ensures Some(id) in s.grid.cells ==> t.grid == Grid.Removed(s.grid, id)
    ensures Some(id) !in s.grid.cells ==> t.grid == s.grid
    ensures Grid.Occupants(t.grid) == Grid.Occupants(s.grid) - {id}
  {
    if Some(id) in s.grid.cells then
      Grid.RemoveKeepsOtherTerms(s.grid, id);
      var t := s.(grid := Grid.Removed(s.grid, id), entries := s.entries - {id});
      forall i | 0 <= i < |t.grid.cells| && t.grid.cells[i].Some?
        ensures t.grid.cells[i].value in t.entries
      {
        assert t.grid.cells[i].value in Grid.Occupants(t.grid);
        assert t.grid.cells[i].value in Grid.Occupants(s.grid);
        var j :| 0 <= j < |s.grid.cells| && s.grid.cells[j].Some? && s.grid.cells[j].value == t.grid.cells[i].value;
      }
      t
    else
      var t := s.(entries := s.entries - {id});
      assert Grid.Occupants(s.grid) == Grid.Occupants(s.grid) - {id} by {
        assert id !in Grid.Occupants(s.grid);
      }
      t
  }

  /**
   * Replacing a term in its own cell: the cell is emptied without any shift and a new term is put
   * there, so every other cell keeps its occupant.
   */
  function ReplaceInPlace(s: Scene, id: TermId, c: CreatorId, options: TermOptions): (r: Result<(Scene, TermId)>)
    requires Valid(s) && id in s.entries && Some(id) in s.grid.cells && c < |s.creators|
    ensures r.Success? <==> NewTerm(s.creators[c].kind, options).Success?
    ensures r.Success? ==>
      var (t, newId) := r.value;
      var cell := Grid.GetCellForTerm(s.grid, id);
      && Valid(t) && t.creators == s.creators && newId !in s.entries
      && t.entries == (s.entries - {id})[newId := Entry(c, NewTerm(s.creators[c].kind, options).value, options.diameter)]
      && t.grid.cells == s.grid.cells[cell := Some(newId)]
  {
    var cell := Grid.GetCellForTerm(s.grid, id);
    var cleared := Vacated(s, id);
    CreateTermOnPlate(cleared, c, cell, options)
  }

  /** The scene with term `id` deleted and its cell emptied, nothing shifted. */
  function Vacated(s: Scene, id: TermId): (t: Scene)
    requires Valid(s) && id in s.entries && Some(id) in s.grid.cells
    ensures Valid(t) && t.creators == s.creators && t.next == s.next && t.entries == s.entries - {id}
    ensures t.grid == Grid.ClearCell(s.grid, Grid.GetCellForTerm(s.grid, id))
  {
    var cell := Grid.GetCellForTerm(s.grid, id);
    var t := s.(grid := Grid.ClearCell(s.grid, cell), entries := s.entries - {id});
    forall i | 0 <= i < |t.grid.cells| && t.grid.cells[i].Some?
      ensures t.grid.cells[i].value in t.entries
    {
      assert i != cell;
      assert s.grid.cells[i] != s.grid.cells[cell];
    }
    t
  }

  // ---------------------------------------------------------------------------------------
  // A creator's terms on the plate

  /** The cells among the first `n` that hold a term of creator `c`, in increasing order. */
  function OwnedCells(s: Scene, c: CreatorId, n: nat): (cells: seq<int>)
    requires n <= |s.grid.cells|
    ensures forall k :: 0 <= k < |cells| ==> 0 <= cells[k] < n && Owns(s, c, cells[k])
    ensures forall i :: 0 <= i < n && Owns(s, c, i) ==> i in cells
    ensures forall k1, k2 :: 0 <= k1 < k2 < |cells| ==> cells[k1] < cells[k2]
  {
    if n == 0 then []
    else if Owns(s, c, n - 1) then OwnedCells(s, c, n - 1) + [n - 1]
    else OwnedCells(s, c, n - 1)
  }

  /** `getTermsOnPlate` for creator `c`: its terms on the plate, in cell order. */
  function TermsOnPlate(s: Scene, c: CreatorId): (ids: seq<TermId>)
    requires Valid(s)
    ensures var cells := OwnedCells(s, c, |s.grid.cells|);
      |ids| == |cells| && forall k :: 0 <= k < |ids| ==> s.grid.cells[cells[k]] == Some(ids[k])
    ensures forall k :: 0 <= k < |ids| ==> ids[k] in s.entries && s.entries[ids[k]].creator == c && Some(ids[k]) in s.grid.cells
    ensures forall id :: id in s.entries && s.entries[id].creator == c && Some(id) in s.grid.cells ==> id in ids
  {
    var cells := OwnedCells(s, c, |s.grid.cells|);
    var ids := seq(|cells|, k requires 0 <= k < |cells| => s.grid.cells[cells[k]].value);
    forall id | id in s.entries && s.entries[id].creator == c && Some(id) in s.grid.cells
      ensures id in ids
    {
      var i :| 0 <= i < |s.grid.cells| && s.grid.cells[i] == Some(id);
      assert Owns(s, c, i);
      var k :| 0 <= k < |cells| && cells[k] == i;
      assert ids[k] == id;
    }
    ids
  }

  /** `getCellForTerm` finds each of a creator's terms on the plate in the cell its place in cell order names. */
  lemma CellOfTermOnPlate(s: Scene, c: CreatorId, k: int)
    requires Valid(s) && 0 <= k < |TermsOnPlate(s, c)|
    ensures Grid.GetCellForTerm(s.grid, TermsOnPlate(s, c)[k]) == OwnedCells(s, c, |s.grid.cells|)[k]
  {
    var id := TermsOnPlate(s, c)[k];
    var cell := OwnedCells(s, c, |s.grid.cells|)[k];
    var i := Grid.GetCellForTerm(s.grid, id);
    assert s.grid.cells[cell] == Some(id);
  }

  /** The scene with every cell of the plate cleared; the terms themselves are kept. */
  function Cleared(s: Scene): (t: Scene)
    requires Valid(s)
    ensures Valid(t) && Grid.Empty(t.grid) && t.creators == s.creators && t.entries == s.entries
    ensures t.grid.rows == s.grid.rows && t.grid.columns == s.grid.columns && |t.grid.cells| == |s.grid.cells|
  {
    s.(grid := Grid.ClearAllCells(s.grid))
  }
}
