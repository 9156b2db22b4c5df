/**
 * Creating many terms on the plate, one per placement, as restoring a snapshot does
 * (`restoreSnapshot` of js/common/model/VariableTermCreator.js and MysteryTermCreator.js calls
 * `createTermOnPlate` once per recorded cell).
 */
module PlateRestore {
  import opened Wrappers
  import Grid
  import opened Plate

  /** Creates, in order, one term of creator `c` per placement, in the placement's cell and with its options. */
  function CreateAll(s: Scene, c: CreatorId, placements: seq<(int, TermOptions)>): (r: Result<Scene>)
    requires Valid(s) && c < |s.creators|
    ensures r.Success? ==> Valid(r.value) && r.value.creators == s.creators
    ensures r.Success? ==>
      r.value.grid.rows == s.grid.rows && r.value.grid.columns == s.grid.columns &&
      |r.value.grid.cells| == |s.grid.cells|
    decreases |placements|
  {
    if placements == [] then Success(s)
    else
      match CreateTermOnPlate(s, c, placements[0].0, placements[0].1)
      case Failure(e) => Failure(e)
      case Success((t, _)) => CreateAll(t, c, placements[1..])
  }

  /** The placements go to distinct, empty cells and their options make a term of `c`'s kind. */
  predicate Placeable(s: Scene, c: CreatorId, placements: seq<(int, TermOptions)>)
    requires c < |s.creators|
  {
    && (forall k :: 0 <= k < |placements| ==>
          Grid.IsValidCell(s.grid, placements[k].0) && s.grid.cells[placements[k].0].None? &&
          NewTerm(s.creators[c].kind, placements[k].1).Success?)
    && (forall k1, k2 :: 0 <= k1 < k2 < |placements| ==> placements[k1].0 != placements[k2].0)
  }

  /** Creating the first of placeable placements: what it changes, and that the rest stay placeable. */
  lemma PlaceFirst(s: Scene, c: CreatorId, placements: seq<(int, TermOptions)>) returns (t: Scene, id: TermId)
    requires Valid(s) && c < |s.creators| && Placeable(s, c, placements) && placements != []
    ensures Valid(t) && t.creators == s.creators
    ensures CreateAll(s, c, placements) == CreateAll(t, c, placements[1..])
    ensures t.grid.cells == s.grid.cells[placements[0].0 := Some(id)]
    ensures id !in s.entries &&
      t.entries == s.entries[id := Entry(c, NewTerm(s.creators[c].kind, placements[0].1).value, placements[0].1.diameter)]
    ensures Placeable(t, c, placements[1..])
    ensures forall k :: 1 <= k < |placements| ==> placements[k].0 != placements[0].0
  {
    var p := placements[0];
    var r := CreateTermOnPlate(s, c, p.0, p.1);
    t, id := r.value.0, r.value.1;
    var rest := placements[1..];
    forall k | 1 <= k < |placements|
      ensures placements[k].0 != placements[0].0
    {
      assert placements[0].0 != placements[k].0;
    }
    assert Placeable(t, c, rest) by {
      forall k | 0 <= k < |rest|
        ensures Grid.IsValidCell(t.grid, rest[k].0) && t.grid.cells[rest[k].0].None?
      {
        assert rest[k] == placements[k + 1];
      }
      forall k1, k2 | 0 <= k1 < k2 < |rest|
        ensures rest[k1].0 != rest[k2].0
      {
        assert rest[k1] == placements[k1 + 1] && rest[k2] == placements[k2 + 1];
      }
    }
  }

  /** Placeable placements all succeed. */
  lemma {:induction false} CreateAllSucceeds(s: Scene, c: CreatorId, placements: seq<(int, TermOptions)>)
    requires Valid(s) && c < |s.creators| && Placeable(s, c, placements)
    ensures CreateAll(s, c, placements).Success?
    decreases |placements|
  {
    if placements != [] {
      var t, id := PlaceFirst(s, c, placements);
      CreateAllSucceeds(t, c, placements[1..]);
    }
  }

  /** Placeable placements leave every term that existed before unchanged. */
  lemma {:induction false} CreateAllKeepsEntry(s: Scene, c: CreatorId, placements: seq<(int, TermOptions)>, x: TermId)
    requires Valid(s) && c < |s.creators| && Placeable(s, c, placements) && x in s.entries
    ensures CreateAll(s, c, placements).Success?
    ensures x in CreateAll(s, c, placements).value.entries && CreateAll(s, c, placements).value.entries[x] == s.entries[x]
    decreases |placements|
  {
    if placements != [] {
      var t, id := PlaceFirst(s, c, placements);
      CreateAllKeepsEntry(t, c, placements[1..], x);
    }
  }

  /** After placeable placements, every cell that no placement names keeps its occupant. */
  lemma {:induction false} CreateAllKeepsOtherCells(s: Scene, c: CreatorId, placements: seq<(int, TermOptions)>, i: int)
    requires Valid(s) && c < |s.creators| && Placeable(s, c, placements)
    requires 0 <= i < |s.grid.cells| && forall k :: 0 <= k < |placements| ==> placements[k].0 != i
    ensures CreateAll(s, c, placements).Success?
    ensures CreateAll(s, c, placements).value.grid.cells[i] == s.grid.cells[i]
    decreases |placements|
  {
    CreateAllSucceeds(s, c, placements);
    if placements != [] {
      var t, id := PlaceFirst(s, c, placements);
      var rest := placements[1..];
      forall k | 0 <= k < |rest|
        ensures rest[k].0 != i
      {
        assert rest[k] == placements[k + 1];
      }
      CreateAllKeepsOtherCells(t, c, rest, i);
    }
  }

  /** Cell `cell` of the plate holds a term whose entry is `e`. */
  predicate Holds(s: Scene, cell: int, e: Entry) {
    0 <= cell < |s.grid.cells| && s.grid.cells[cell].Some? && s.grid.cells[cell].value in s.entries &&
    s.entries[s.grid.cells[cell].value] == e
  }

  /** After placeable placements, each placement's cell holds a new term of `c` made from its options. */
  lemma {:induction false} CreateAllPlaces(s: Scene, c: CreatorId, placements: seq<(int, TermOptions)>, k: int)
    requires Valid(s) && c < |s.creators| && Placeable(s, c, placements) && 0 <= k < |placements|
    ensures CreateAll(s, c, placements).Success?
    ensures Holds(CreateAll(s, c, placements).value, placements[k].0,
      Entry(c, NewTerm(s.creators[c].kind, placements[k].1).value, placements[k].1.diameter))
    decreases |placements|, 1
  {
    if k == 0 {
      CreateAllPlacesFirst(s, c, placements);
    } else {
      CreateAllPlacesLater(s, c, placements, k);
    }
  }

  /** A later placement's cell: the first placement is made, then the rest place their terms. */
  lemma {:induction false} CreateAllPlacesLater(s: Scene, c: CreatorId, placements: seq<(int, TermOptions)>, k: int)
    requires Valid(s) && c < |s.creators| && Placeable(s, c, placements) && 0 < k < |placements|
    ensures CreateAll(s, c, placements).Success?
    ensures Holds(CreateAll(s, c, placements).value, placements[k].0,
      Entry(c, NewTerm(s.creators[c].kind, placements[k].1).value, placements[k].1.diameter))
    decreases |placements|, 0
  {
    var t, id := PlaceFirst(s, c, placements);
    var rest := placements[1..];
    assert placements[k] == rest[k - 1];
    CreateAllPlaces(t, c, rest, k - 1);
  }

  /** The first placement's cell ends up holding the term made for it: no later placement names that cell. */
  lemma CreateAllPlacesFirst(s: Scene, c: CreatorId, placements: seq<(int, TermOptions)>)
    requires Valid(s) && c < |s.creators| && Placeable(s, c, placements) && placements != []
    ensures CreateAll(s, c, placements).Success?
    ensures Holds(CreateAll(s, c, placements).value, placements[0].0,
      Entry(c, NewTerm(s.creators[c].kind, placements[0].1).value, placements[0].1.diameter))
  {
    var t, id := PlaceFirst(s, c, placements);
    var rest := placements[1..];
    var cell := placements[0].0;
    CreateAllKeepsOtherCells(t, c, rest, cell);
    CreateAllKeepsEntry(t, c, rest, id);
    var u := CreateAll(t, c, rest).value;
    assert u.grid.cells[cell] == t.grid.cells[cell] == Some(id);
    assert u.entries[id] == t.entries[id];
  }
}
