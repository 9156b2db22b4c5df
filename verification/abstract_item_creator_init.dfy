/**
 * The `initialize` step of AbstractItemCreator (js/common/model/AbstractItemCreator.js): once the
 * creator's location is known, the scale is populated with `initialNumberOfItemsOnScale` items, each
 * created into the plate's first empty cell.
 */
module AbstractItemCreatorInit {
  import opened Wrappers
  import Sequences
  import Grid
  import A = AbstractItemCreator

  /** Appending the next `k` ids is appending the first of them and then the other `k - 1`. */
  lemma FreshSplit(a: seq<A.ItemId>, b: seq<A.ItemId>, c: seq<A.ItemId>, first: A.ItemId, second: A.ItemId, k: nat)
    requires k > 0 && second == first + 1 && b == a + [first] && c == b + A.Fresh(second, k - 1)
    ensures c == a + A.Fresh(first, k)
  {
    assert A.Fresh(first, k) == [first] + A.Fresh(first + 1, k - 1);
  }

  lemma FreshElements(first: A.ItemId, second: A.ItemId, k: nat)
    requires k > 0 && second == first + 1
    ensures Sequences.Elements(A.Fresh(first, k)) == {first} + Sequences.Elements(A.Fresh(second, k - 1))
  {
    assert A.Fresh(first, k) == [first] + A.Fresh(first + 1, k - 1);
  }

  lemma UnionStep(a: set<A.ItemId>, b: set<A.ItemId>, c: set<A.ItemId>, x: A.ItemId, f: set<A.ItemId>, g: set<A.ItemId>)
    requires b == a + {x} && c == b + g && f == {x} + g
    ensures c == a + f
  {
  }

  /** One round of the population loop: a new item with the next id goes into the first empty cell. */
  function PlaceNew(st: A.State): (t: A.State)
    requires A.Valid(st) && Grid.EmptyCount(st.plate) > 0
    ensures A.Valid(t) && t.next == st.next + 1
    ensures t.creator == st.creator.(book := t.creator.book)
    ensures t.creator.book.allItems == st.creator.book.allItems + [st.next]
    ensures t.creator.book.itemsOnScale == st.creator.book.itemsOnScale + [st.next]
    ensures Grid.Occupants(t.plate) == Grid.Occupants(st.plate) + {st.next}
    ensures Grid.EmptyCount(t.plate) == Grid.EmptyCount(st.plate) - 1
  {
    var cell := Grid.GetFirstEmptyCell(st.plate);
    Grid.PutTermAddsOccupant(st.plate, st.next, cell);
    A.CreateItemOnScale(st, cell).0
  }

  /** The cell a round of the population loop fills: the plate's first empty cell, and only that cell. */
  lemma PlaceNewFillsFirstEmptyCell(st: A.State)
    requires A.Valid(st) && Grid.EmptyCount(st.plate) > 0
    ensures PlaceNew(st).plate == Grid.PutTerm(st.plate, st.next, Grid.GetFirstEmptyCell(st.plate))
  {
  }

  /**
   * The population loop of `initialize`: `k` times, a new item goes into the plate's first empty cell,
   * and the plate being full is an error. It succeeds exactly when the plate has `k` empty cells.
   */
  function Populate(st: A.State, k: nat): (r: Result<A.State>)
    requires A.Valid(st)
    ensures r.Success? <==> k <= Grid.EmptyCount(st.plate)
    ensures r.Failure? ==> r.error == PlateFull
    ensures r.Success? ==>
      && A.Valid(r.value) && r.value.next == st.next + k
      && r.value.creator == st.creator.(book := r.value.creator.book)
      && Grid.EmptyCount(r.value.plate) == Grid.EmptyCount(st.plate) - k
    decreases k
  {
    if k == 0 then
      assert A.Fresh(st.next, k) == [];
      Success(st)
    else if Grid.GetFirstEmptyCell(st.plate) == -1 then Failure(PlateFull)
    else
      Populate(PlaceNew(st), k - 1)
  }

  /** The population loop adds exactly the next `k` ids to the plate's occupants. */
  lemma {:induction false} PopulateOccupants(st: A.State, k: nat)
    requires A.Valid(st)
    ensures Populate(st, k).Success? ==>
      Grid.Occupants(Populate(st, k).value.plate) == Grid.Occupants(st.plate) + Sequences.Elements(A.Fresh(st.next, k))
    decreases k
  {
    if k == 0 {
      PopulateNone(st);
      assert A.Fresh(st.next, k) == [];
    } else if k <= Grid.EmptyCount(st.plate) {
      PopulateOccupants(PlaceNew(st), k - 1);
      PopulateOccupantsRound(st, k);
    }
  }

  /** One round of `PopulateOccupants`: if the last `k - 1` rounds add their ids, all `k` rounds add theirs. */
  lemma PopulateOccupantsRound(st: A.State, k: nat)
    requires A.Valid(st) && 0 < k <= Grid.EmptyCount(st.plate)
    requires Populate(PlaceNew(st), k - 1).Success? ==>
      Grid.Occupants(Populate(PlaceNew(st), k - 1).value.plate)
        == Grid.Occupants(PlaceNew(st).plate) + Sequences.Elements(A.Fresh(PlaceNew(st).next, k - 1))
    ensures Populate(st, k).Success? &&
      Grid.Occupants(Populate(st, k).value.plate) == Grid.Occupants(st.plate) + Sequences.Elements(A.Fresh(st.next, k))
  {
    var t := PlaceNew(st);
    assert Populate(st, k) == Populate(t, k - 1) by {
      PopulateRound(st, k);
    }
    FreshElements(st.next, t.next, k);
    UnionStep(Grid.Occupants(st.plate), Grid.Occupants(t.plate), Grid.Occupants(Populate(t, k - 1).value.plate), st.next,
      Sequences.Elements(A.Fresh(st.next, k)), Sequences.Elements(A.Fresh(t.next, k - 1)));
  }

  /** The items the population loop creates take the next `k` ids, in order, and all are on the scale. */
  lemma {:induction false} PopulateLists(st: A.State, k: nat)
    requires A.Valid(st)
    ensures Populate(st, k).Success? ==>
      var after := Populate(st, k).value;
      && after.creator.book.allItems == st.creator.book.allItems + A.Fresh(st.next, k)
      && after.creator.book.itemsOnScale == st.creator.book.itemsOnScale + A.Fresh(st.next, k)
    decreases k
  {
    if k > Grid.EmptyCount(st.plate) {
    } else if k == 0 {
      assert A.Fresh(st.next, k) == [];
      assert st.creator.book.allItems + [] == st.creator.book.allItems;
      assert st.creator.book.itemsOnScale + [] == st.creator.book.itemsOnScale;
    } else {
      var t := PlaceNew(st);
      PopulateLists(t, k - 1);
      var after := Populate(t, k - 1).value;
      FreshSplit(st.creator.book.allItems, t.creator.book.allItems, after.creator.book.allItems, st.next, t.next, k);
      FreshSplit(st.creator.book.itemsOnScale, t.creator.book.itemsOnScale, after.creator.book.itemsOnScale, st.next, t.next, k);
    }
  }

  /** A plate filled from the bottom up stays so while the population loop runs. */
  lemma {:induction false} PopulateKeepsGravity(st: A.State, k: nat)
    requires A.Valid(st) && Grid.Gravity(st.plate)
    ensures Populate(st, k).Success? ==> Grid.Gravity(Populate(st, k).value.plate)
    decreases k
  {
    if 0 < k <= Grid.EmptyCount(st.plate) {
      var t := PlaceNew(st);
      PlaceNewFillsFirstEmptyCell(st);
      Grid.PutAtFirstEmptyKeepsGravity(st.plate, st.next);
      PopulateKeepsGravity(t, k - 1);
    }
  }

  /**
   * What cell `j` of the plate `before` holds once the population loop has put the next `k` ids, starting at
   * `first`: an empty cell with `e` empty cells after it receives id `first + e` when `e < k`, and every other
   * cell is kept. So the ids go into the `k` highest-indexed empty cells, in decreasing index order.
   */
  function Placed(before: Grid.Grid, first: A.ItemId, k: nat, j: int): Option<A.ItemId>
    requires Grid.IsValidCell(before, j)
  {
    if before.cells[j].None? && Grid.EmptyAfter(before, j) < k
    then Some(first + Grid.EmptyAfter(before, j)) else before.cells[j]
  }

  /** `after` is `before` with the next `k` ids, starting at `first`, placed as `Placed` says. */
  predicate IsPlacement(after: Grid.Grid, before: Grid.Grid, first: A.ItemId, k: nat) {
    && after.rows == before.rows && after.columns == before.columns && |after.cells| == |before.cells|
    && forall j :: 0 <= j < |before.cells| ==> after.cells[j] == Placed(before, first, k, j)
  }

  /** `Placed` one round at a time: the first id goes into the first empty cell, then the rest follow. */
  lemma PlacementStep(g: Grid.Grid, h: Grid.Grid, first: A.ItemId, k: nat)
    requires Grid.EmptyCount(g) > 0 && k > 0
    requires h == Grid.PutTerm(g, first, Grid.GetFirstEmptyCell(g))
    ensures forall j :: 0 <= j < |g.cells| ==> Placed(h, first + 1, k - 1, j) == Placed(g, first, k, j)
  {
    var f := Grid.GetFirstEmptyCell(g);
    Grid.PutAtFirstEmptyRanks(g, first);
    forall j | 0 <= j < |g.cells|
      ensures Placed(h, first + 1, k - 1, j) == Placed(g, first, k, j)
    {
      if j < f && g.cells[j].None? {
        assert Grid.EmptyAfter(h, j) == Grid.EmptyAfter(g, j) - 1;
      }
    }
  }

  /** The plate after `k` rounds of the population loop: each round, the next id goes into the first empty cell. */
  function Fill(g: Grid.Grid, first: A.ItemId, k: nat): Grid.Grid
    requires k <= Grid.EmptyCount(g)
    decreases k
  {
    if k == 0 then g
    else
      Grid.FillingTakesOneEmptyCell(g.cells, Grid.GetFirstEmptyCell(g), first);
      Fill(Grid.PutTerm(g, first, Grid.GetFirstEmptyCell(g)), first + 1, k - 1)
  }

  /** Round by round filling ends in `Placed`'s plate. */
  lemma {:induction false} FillIsPlacement(g: Grid.Grid, first: A.ItemId, k: nat)
    requires k <= Grid.EmptyCount(g)
    ensures IsPlacement(Fill(g, first, k), g, first, k)
    decreases k
  {
    if k > 0 {
      var h := Grid.PutTerm(g, first, Grid.GetFirstEmptyCell(g));
      FillRound(g, h, first, k);
      FillIsPlacement(h, first + 1, k - 1);
      PlacementStep(g, h, first, k);
    }
  }

  /** The population loop's plate is `Fill`'s. */
  lemma {:induction false} PopulateFills(st: A.State, k: nat)
    requires A.Valid(st)
    ensures Populate(st, k).Success? ==> Populate(st, k).value.plate == Fill(st.plate, st.next, k)
    decreases k
  {
    if k == 0 {
      PopulateNone(st);
    } else if k <= Grid.EmptyCount(st.plate) {
      PopulateFills(PlaceNew(st), k - 1);
      PopulateFillsRound(st, k);
    }
  }

  /** One round of `PopulateFills`: if the last `k - 1` rounds agree with `Fill`, so do all `k`. */
  lemma PopulateFillsRound(st: A.State, k: nat)
    requires A.Valid(st) && 0 < k <= Grid.EmptyCount(st.plate)
    requires Populate(PlaceNew(st), k - 1).Success? ==>
      Populate(PlaceNew(st), k - 1).value.plate == Fill(PlaceNew(st).plate, PlaceNew(st).next, k - 1)
    ensures Populate(st, k).Success? && Populate(st, k).value.plate == Fill(st.plate, st.next, k)
  {
    var t := PlaceNew(st);
    assert Populate(st, k) == Populate(t, k - 1) by {
      PopulateRound(st, k);
    }
    assert Fill(st.plate, st.next, k) == Fill(t.plate, t.next, k - 1) by {
      PlaceNewFillsFirstEmptyCell(st);
      FillRound(st.plate, t.plate, st.next, k);
    }
  }

  lemma PopulateNone(st: A.State)
    requires A.Valid(st)
    ensures Populate(st, 0) == Success(st)
  {
  }

  /** The population loop's first round, then the other `k - 1`. */
  lemma PopulateRound(st: A.State, k: nat)
    requires A.Valid(st) && 0 < k <= Grid.EmptyCount(st.plate)
    ensures Populate(st, k) == Populate(PlaceNew(st), k - 1)
  {
  }

  /** `Fill`'s first round, then the other `k - 1`. */
  lemma FillRound(g: Grid.Grid, h: Grid.Grid, first: A.ItemId, k: nat)
    requires 0 < k <= Grid.EmptyCount(g) && h == Grid.PutTerm(g, first, Grid.GetFirstEmptyCell(g))
    ensures k - 1 <= Grid.EmptyCount(h) && Fill(g, first, k) == Fill(h, first + 1, k - 1)
  {
    Grid.FillingTakesOneEmptyCell(g.cells, Grid.GetFirstEmptyCell(g), first);
  }

  /** The population loop fills the first empty cell at each round, which ends in `Placed`'s plate. */
  lemma PopulatePlaces(st: A.State, k: nat)
    requires A.Valid(st)
    ensures Populate(st, k).Success? ==> IsPlacement(Populate(st, k).value.plate, st.plate, st.next, k)
  {
    PopulateFills(st, k);
    if k <= Grid.EmptyCount(st.plate) {
      FillIsPlacement(st.plate, st.next, k);
    }
  }

  /**
   * `initialize`: may run only once; marks the creator initialized and puts
   * `initialNumberOfItemsOnScale` new items onto the plate, each into the first empty cell at the time.
   * It fails when the plate runs out of empty cells.
   */
  function Initialize(st: A.State): (r: Result<A.State>)
    requires A.Valid(st) && !st.creator.isInitialized
    ensures r.Success? <==> st.creator.initialNumberOfItemsOnScale <= Grid.EmptyCount(st.plate)
    ensures r.Failure? ==> r.error == PlateFull
    ensures r.Success? ==>
      var n := st.creator.initialNumberOfItemsOnScale;
      && A.Valid(r.value) && r.value.creator.isInitialized
      && A.NumberOfItemsOnScale(r.value) == A.NumberOfItemsOnScale(st) + n
      && r.value.creator.book.itemsOnScale == st.creator.book.itemsOnScale + A.Fresh(st.next, n)
      && Grid.Occupants(r.value.plate) == Grid.Occupants(st.plate) + Sequences.Elements(A.Fresh(st.next, n))
      && IsPlacement(r.value.plate, st.plate, st.next, n)
  {
    var st' := st.(creator := st.creator.(isInitialized := true));
    PopulateLists(st', st.creator.initialNumberOfItemsOnScale);
    PopulateOccupants(st', st.creator.initialNumberOfItemsOnScale);
    PopulatePlaces(st', st.creator.initialNumberOfItemsOnScale);
    Populate(st', st.creator.initialNumberOfItemsOnScale)
  }
}
