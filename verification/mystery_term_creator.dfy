/**
 * MysteryTermCreator of the Basics screen (js/basics/model/MysteryTermCreator.js): makes terms for a
 * mystery object whose weight is hidden. It refuses to combine, copy or operate on them, has no
 * inverse and no equivalent, and saves its terms on the plate as a list of cells.
 */
module MysteryTermCreator {
  import opened Wrappers
  import Terms
  import Grid
  import Plate
  import PlateRestore
  import UO = UniversalOperation

  predicate IsMysteryCreator(s: Plate.Scene, c: Plate.CreatorId) {
    c < |s.creators| && s.creators[c].kind.MysteryKind?
  }

  /** `combineTerms` is not supported: every call fails and the scene is untouched. */
  function CombineTerms(s: Plate.Scene, c: Plate.CreatorId, term1: Terms.Term, term2: Terms.Term, options: Plate.TermOptions)
    : (r: Result<(Plate.Scene, Option<Plate.TermId>)>)
    ensures r.Failure? && r.error.Unsupported?
  {
    Failure(Unsupported("combineTerms"))
  }

  /** `copyTerm` is not supported: every call fails. */
  function CopyTerm(s: Plate.Scene, c: Plate.CreatorId, term: Terms.Term, options: Plate.TermOptions)
    : (r: Result<(Plate.Scene, Plate.TermId)>)
    ensures r.Failure? && r.error.Unsupported?
  {
    Failure(Unsupported("copyTerm"))
  }

  /** `applyOperationToTerm` is not supported: every call fails. */
  function ApplyOperationToTerm(s: Plate.Scene, c: Plate.CreatorId, operation: UO.UniversalOperation, id: Plate.TermId)
    : (r: Result<(Plate.Scene, Option<Plate.TermId>)>)
    ensures r.Failure? && r.error.Unsupported?
  {
    Failure(Unsupported("applyOperationToTerm"))
  }

  /** `applyOperationToPlate` is not supported: every call fails. */
  function ApplyOperationToPlate(s: Plate.Scene, c: Plate.CreatorId, operation: UO.UniversalOperation)
    : (r: Result<(Plate.Scene, Option<Plate.TermId>)>)
    ensures r.Failure? && r.error.Unsupported?
  {
    Failure(Unsupported("applyOperationToPlate"))
  }

  /** There are no inverses for mystery objects. */
  function IsInverseOf(k: Plate.Kind, other: Plate.Kind): (r: bool)
    requires k.MysteryKind?
    ensures !r
  {
    false
  }

  /** There are no equivalents for mystery objects, not even the creator itself. */
  function IsEquivalentTo(k: Plate.Kind, other: Plate.Kind): (r: bool)
    requires k.MysteryKind?
    ensures !r
  {
    false
  }

  // ---------------------------------------------------------------------------------------
  // createSnapshot and restoreSnapshot

  /** `createSnapshot`: the cell of each of this creator's terms on the plate, in cell order. */
  function CreateSnapshot(s: Plate.Scene, c: Plate.CreatorId): (snapshot: seq<int>)
    requires Plate.Valid(s) && IsMysteryCreator(s, c)
    ensures |snapshot| == |Plate.TermsOnPlate(s, c)|
    ensures forall k :: 0 <= k < |snapshot| ==> snapshot[k] == Grid.GetCellForTerm(s.grid, Plate.TermsOnPlate(s, c)[k])
    ensures snapshot == Plate.OwnedCells(s, c, |s.grid.cells|)
  {
    var ids := Plate.TermsOnPlate(s, c);
    var cells := Plate.OwnedCells(s, c, |s.grid.cells|);
    forall k | 0 <= k < |ids|
      ensures Grid.GetCellForTerm(s.grid, ids[k]) == cells[k]
    {
      Plate.CellOfTermOnPlate(s, c, k);
    }
    seq(|ids|, k requires 0 <= k < |ids| => Grid.GetCellForTerm(s.grid, ids[k]))
  }

  /** The creation requests `restoreSnapshot` makes: one per recorded cell, with no options. */
  function Placements(snapshot: seq<int>): (p: seq<(int, Plate.TermOptions)>)
    ensures |p| == |snapshot|
    ensures forall k :: 0 <= k < |p| ==> p[k] == (snapshot[k], Plate.TermOptions(None, None, Plate.DefaultDiameter))
  {
    seq(|snapshot|, k requires 0 <= k < |snapshot| => (snapshot[k], Plate.TermOptions(None, None, Plate.DefaultDiameter)))
  }

  /** `restoreSnapshot(snapshot)`: creates one term of this creator in each recorded cell, in order. */
  function RestoreSnapshot(s: Plate.Scene, c: Plate.CreatorId, snapshot: seq<int>): (r: Result<Plate.Scene>)
    requires Plate.Valid(s) && IsMysteryCreator(s, c)
    ensures r.Success? ==> Plate.Valid(r.value) && r.value.creators == s.creators
    ensures PlateRestore.Placeable(s, c, Placements(snapshot)) ==> r.Success?
  {
    assert PlateRestore.Placeable(s, c, Placements(snapshot)) ==> PlateRestore.CreateAll(s, c, Placements(snapshot)).Success? by {
      if PlateRestore.Placeable(s, c, Placements(snapshot)) {
        PlateRestore.CreateAllSucceeds(s, c, Placements(snapshot));
      }
    }
    PlateRestore.CreateAll(s, c, Placements(snapshot))
  }

  /** When the recorded cells are distinct and empty, each of them ends up holding this creator's mystery object. */
  lemma RestoreSnapshotPlaces(s: Plate.Scene, c: Plate.CreatorId, snapshot: seq<int>, k: int)
    requires Plate.Valid(s) && IsMysteryCreator(s, c) && PlateRestore.Placeable(s, c, Placements(snapshot))
    requires 0 <= k < |snapshot|
    ensures RestoreSnapshot(s, c, snapshot).Success?
    ensures var kind := s.creators[c].kind;
      PlateRestore.Holds(RestoreSnapshot(s, c, snapshot).value, snapshot[k],
        Plate.Entry(c, Terms.MysteryTerm(kind.objectName, kind.weight), Plate.DefaultDiameter))
  {
    PlateRestore.CreateAllPlaces(s, c, Placements(snapshot), k);
  }

  /** The creation requests of a snapshot go to distinct, empty cells. */
  lemma SnapshotPlaceable(s: Plate.Scene, c: Plate.CreatorId, empty: Plate.Scene)
    requires Plate.Valid(s) && IsMysteryCreator(s, c)
    requires Plate.Valid(empty) && empty.creators == s.creators && Grid.Empty(empty.grid)
    requires |empty.grid.cells| == |s.grid.cells|
    ensures PlateRestore.Placeable(empty, c, Placements(CreateSnapshot(s, c)))
  {
  }

  /** A recorded cell gets back a term of `c`, the same mystery object it held. */
  lemma RestoresRecordedCell(s: Plate.Scene, c: Plate.CreatorId, empty: Plate.Scene, k: int)
    requires Plate.Valid(s) && IsMysteryCreator(s, c)
    requires Plate.Valid(empty) && empty.creators == s.creators && Grid.Empty(empty.grid)
    requires |empty.grid.cells| == |s.grid.cells|
    requires 0 <= k < |Plate.OwnedCells(s, c, |s.grid.cells|)|
    ensures RestoreSnapshot(empty, c, CreateSnapshot(s, c)).Success?
    ensures var t := RestoreSnapshot(empty, c, CreateSnapshot(s, c)).value;
      var i := Plate.OwnedCells(s, c, |s.grid.cells|)[k];
      && Plate.Owns(t, c, i)
      && t.entries[t.grid.cells[i].value].term == s.entries[s.grid.cells[i].value].term
  {
    var p := Placements(CreateSnapshot(s, c));
    SnapshotPlaceable(s, c, empty);
    PlateRestore.CreateAllPlaces(empty, c, p, k);
  }

  /** A cell that held no term of `c` is left empty. */
  lemma LeavesOtherCellEmpty(s: Plate.Scene, c: Plate.CreatorId, empty: Plate.Scene, i: int)
    requires Plate.Valid(s) && IsMysteryCreator(s, c)
    requires Plate.Valid(empty) && empty.creators == s.creators && Grid.Empty(empty.grid)
    requires |empty.grid.cells| == |s.grid.cells| && 0 <= i < |s.grid.cells| && !Plate.Owns(s, c, i)
    ensures RestoreSnapshot(empty, c, CreateSnapshot(s, c)).Success?
    ensures RestoreSnapshot(empty, c, CreateSnapshot(s, c)).value.grid.cells[i].None?
  {
    var p := Placements(CreateSnapshot(s, c));
    SnapshotPlaceable(s, c, empty);
    PlateRestore.CreateAllKeepsOtherCells(empty, c, p, i);
  }

  /**
   * Saving a snapshot, clearing the plate and restoring it gives back the set of cells holding this
   * creator's terms, each again holding the same mystery object, and fills no other cell.
   */
  lemma SnapshotRoundTrip(s: Plate.Scene, c: Plate.CreatorId, empty: Plate.Scene, i: int)
    requires Plate.Valid(s) && IsMysteryCreator(s, c)
    requires Plate.Valid(empty) && empty.creators == s.creators && Grid.Empty(empty.grid)
    requires |empty.grid.cells| == |s.grid.cells| && 0 <= i < |s.grid.cells|
    ensures RestoreSnapshot(empty, c, CreateSnapshot(s, c)).Success?
    ensures var t := RestoreSnapshot(empty, c, CreateSnapshot(s, c)).value;
      && (Plate.Owns(t, c, i) <==> Plate.Owns(s, c, i))
      && (!Plate.Owns(s, c, i) ==> t.grid.cells[i].None?)
      && (Plate.Owns(s, c, i) ==> t.entries[t.grid.cells[i].value].term == s.entries[s.grid.cells[i].value].term)
  {
    var cells := Plate.OwnedCells(s, c, |s.grid.cells|);
    if Plate.Owns(s, c, i) {
      var k :| 0 <= k < |cells| && cells[k] == i;
      RestoresRecordedCell(s, c, empty, k);
    } else {
      LeavesOtherCellEmpty(s, c, empty, i);
    }
  }
}
