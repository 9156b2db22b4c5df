/**
 * AbstractItemCreator (js/common/model/AbstractItemCreator.js): creates items, either for a drag
 * gesture or directly into a cell of its plate, and keeps the list of all its items and the list of
 * those on the scale in step with the plate's grid.
 *
 * The plate is the cell grid of js/common/model/Grid.js (Plate.js is not part of this model):
 * `plate.addItem(item, cellIndex)` is `putTerm`, `plate.removeItem(item)` is `removeTerm`, and
 * `plate.getFirstEmptyCell()` is the grid's. Other creators' items may share the plate. The
 * item's location, drag bounds, icons and emitters are not modelled; disposing of an item is the
 * explicit call `ItemWasDisposed`.
 */
module AbstractItemCreator {
  import opened Wrappers
  import Sequences
  import Grid
  import ItemBook

  type ItemId = ItemBook.ItemId

  /** The input event that starts a drag; only its presence matters here. */
  type EventId = nat

  datatype Creator = Creator(initialNumberOfItemsOnScale: nat, isInitialized: bool, book: ItemBook.Book)

  /** A creator with its plate, and the counter fresh item ids are drawn from. */
  datatype State = State(creator: Creator, plate: Grid.Grid, next: ItemId)

  /**
   * The plate is a well-formed grid holding each item at most once; ids were drawn from the counter;
   * and one of this creator's items is on the scale exactly when it sits on the plate.
   */
  predicate Valid(st: State) {
    && Grid.Valid(st.plate) && Grid.Distinct(st.plate)
    && ItemBook.Valid(st.creator.book)
    && (forall x :: x in st.creator.book.allItems ==> x < st.next)
    && (forall x :: x in Grid.Occupants(st.plate) ==> x < st.next)
    && (forall x :: x in st.creator.book.allItems ==>
          (x in st.creator.book.itemsOnScale <==> x in Grid.Occupants(st.plate)))
  }

  /** The constructor: `initialNumberOfItemsOnScale` must be a non-negative integer. */
  function New(initialNumberOfItemsOnScale: int): (r: Result<Creator>)
    ensures r.Success? <==> initialNumberOfItemsOnScale >= 0
    ensures r.Success? ==>
      && r.value.initialNumberOfItemsOnScale == initialNumberOfItemsOnScale
      && !r.value.isInitialized
      && r.value.book == ItemBook.Empty
    ensures r.Failure? ==> r.error.InvalidOption?
  {
    if initialNumberOfItemsOnScale < 0 then Failure(InvalidOption("initialNumberOfItemsOnScale is invalid"))
    else Success(Creator(initialNumberOfItemsOnScale, false, ItemBook.Empty))
  }

  function NumberOfItemsOnScale(st: State): nat {
    |st.creator.book.itemsOnScale|
  }

  function IsItemOnScale(st: State, item: ItemId): bool {
    item in st.creator.book.itemsOnScale
  }

  lemma OccupantInCells(g: Grid.Grid, x: ItemId)
    requires x in Grid.Occupants(g)
    ensures Some(x) in g.cells
  {
    var i :| 0 <= i < |g.cells| && g.cells[i].Some? && g.cells[i].value == x;
    assert g.cells[i] == Some(x);
  }

  lemma GravityKeptByRemoval(g: Grid.Grid, item: ItemId)
    requires Grid.Valid(g) && Some(item) in g.cells
    ensures Grid.Gravity(g) ==> Grid.Gravity(Grid.Removed(g, item))
  {
    if Grid.Gravity(g) {
      Grid.RemovePreservesGravity(g, item);
    }
  }

  /**
   * `putItemOnScale`: requires one of the creator's items that is off the scale, and a valid, empty
   * cell. Afterwards the item is on the scale and in that cell, and no other cell changes.
   */
  function PutItemOnScale(st: State, item: ItemId, cellIndex: int): (r: State)
    requires Valid(st) && item in st.creator.book.allItems && item !in st.creator.book.itemsOnScale
    requires Grid.IsValidCell(st.plate, cellIndex) && Grid.IsEmptyCell(st.plate, cellIndex)
    ensures Valid(r) && r.next == st.next
    ensures Sequences.Elements(r.creator.book.itemsOnScale) == Sequences.Elements(st.creator.book.itemsOnScale) + {item}
    ensures r.creator.book.allItems == st.creator.book.allItems
    ensures |r.plate.cells| == |st.plate.cells|
    ensures r.plate.cells[cellIndex] == Some(item)
    ensures forall j :: 0 <= j < |st.plate.cells| && j != cellIndex ==> r.plate.cells[j] == st.plate.cells[j]
    ensures Grid.Occupants(r.plate) == Grid.Occupants(st.plate) + {item}
    ensures Grid.EmptyCount(r.plate) == Grid.EmptyCount(st.plate) - 1
  {
    Grid.PutTermAddsOccupant(st.plate, item, cellIndex);
    State(st.creator.(book := ItemBook.PutOn(st.creator.book, item)), Grid.PutTerm(st.plate, item, cellIndex), st.next)
  }

  /**
   * `removeItemFromScale`: requires one of the creator's items that is on the scale. The plate removes
   * it (shifting the items above it down) and it leaves the on-scale list; it still exists.
   */
  function RemoveItemFromScale(st: State, item: ItemId): (r: State)
    requires Valid(st) && item in st.creator.book.allItems && item in st.creator.book.itemsOnScale
    ensures Valid(r) && r.next == st.next
    ensures Sequences.Elements(r.creator.book.itemsOnScale) == Sequences.Elements(st.creator.book.itemsOnScale) - {item}
    ensures r.creator.book.allItems == st.creator.book.allItems
    ensures Grid.Occupants(r.plate) == Grid.Occupants(st.plate) - {item}
    ensures Grid.Gravity(st.plate) ==> Grid.Gravity(r.plate)
  {
    OccupantInCells(st.plate, item);
    Grid.RemoveKeepsOtherTerms(st.plate, item);
    GravityKeptByRemoval(st.plate, item);
    State(st.creator.(book := ItemBook.TakeOff(st.creator.book, item)), Grid.Removed(st.plate, item), st.next)
  }

  /**
   * `itemWasDisposed`: requires one of the creator's items. It comes off the scale (and the plate) if it
   * was there, and then leaves the list of all items.
   */
  function ItemWasDisposed(st: State, item: ItemId): (r: State)
    requires Valid(st) && item in st.creator.book.allItems
    ensures Valid(r) && r.next == st.next
    ensures r.creator.book == ItemBook.Drop(st.creator.book, item)
    ensures item !in r.creator.book.allItems && item !in r.creator.book.itemsOnScale
    ensures Grid.Occupants(r.plate) == Grid.Occupants(st.plate) - {item}
    ensures Grid.Gravity(st.plate) ==> Grid.Gravity(r.plate)
    ensures r.creator.initialNumberOfItemsOnScale == st.creator.initialNumberOfItemsOnScale
    ensures r.creator.isInitialized == st.creator.isInitialized
  {
    var st' := if IsItemOnScale(st, item) then RemoveItemFromScale(st, item) else st;
    var book := st'.creator.book;
    Sequences.RemoveFirstKeepsNoDuplicates(book.allItems, item);
    var r := st'.(creator := st'.creator.(book := ItemBook.Book(Sequences.RemoveFirst(book.allItems, item), book.itemsOnScale)));
    assert forall x :: x in r.creator.book.allItems ==> x in book.allItems;
    r
  }

  /**
   * `createItemPrivate(event, cellIndex)`: requires exactly one of a drag event and a cell, and the cell
   * valid and empty. A fresh item joins all items; it goes onto the scale, into that cell, exactly when a
   * cell was given; otherwise the plate does not change.
   */
  function CreateItemPrivate(st: State, event: Option<EventId>, cellIndex: Option<int>): (r: (State, ItemId))
    requires Valid(st)
    requires event.Some? != cellIndex.Some?
    requires cellIndex.Some? ==> Grid.IsValidCell(st.plate, cellIndex.value) && Grid.IsEmptyCell(st.plate, cellIndex.value)
    ensures var (t, item) := r;
      && Valid(t) && |t.plate.cells| == |st.plate.cells|
      && item !in st.creator.book.allItems && item !in Grid.Occupants(st.plate)
      && Sequences.Elements(t.creator.book.allItems) == Sequences.Elements(st.creator.book.allItems) + {item}
      && (item in t.creator.book.itemsOnScale <==> cellIndex.Some?)
      && (forall x :: x != item ==> (x in t.creator.book.itemsOnScale <==> x in st.creator.book.itemsOnScale))
      && (cellIndex.Some? ==> t.plate.cells[cellIndex.value] == Some(item))
      && (cellIndex.Some? ==> forall j :: 0 <= j < |st.plate.cells| && j != cellIndex.value ==> t.plate.cells[j] == st.plate.cells[j])
      && (cellIndex.None? ==> t.plate == st.plate)
  {
    var item := st.next;
    var added := State(st.creator.(book := ItemBook.Add(st.creator.book, item)), st.plate, st.next + 1);
    assert Valid(added);
    match cellIndex
    case None => (added, item)
    case Some(cell) =>
      var t := PutItemOnScale(added, item, cell);
      assert forall x :: x in t.creator.book.itemsOnScale <==> x in Sequences.Elements(t.creator.book.itemsOnScale);
      (t, item)
  }

  /** `createItemDragging(event)`: a fresh item off the scale; the plate does not change. */
  function CreateItemDragging(st: State, event: EventId): (r: (State, ItemId))
    requires Valid(st)
    ensures Valid(r.0) && r.0.plate == st.plate
    ensures r.1 !in st.creator.book.allItems && r.1 in r.0.creator.book.allItems && r.1 !in r.0.creator.book.itemsOnScale
  {
    CreateItemPrivate(st, Some(event), None)
  }

  /** `createItemOnScale(cellIndex)`: a fresh item on the scale, in the given valid, empty cell. */
  function CreateItemOnScale(st: State, cellIndex: int): (r: (State, ItemId))
    requires Valid(st) && Grid.IsValidCell(st.plate, cellIndex) && Grid.IsEmptyCell(st.plate, cellIndex)
    ensures Valid(r.0) && r.1 !in st.creator.book.allItems && r.1 !in Grid.Occupants(st.plate)
    ensures r.0.creator.book.allItems == st.creator.book.allItems + [r.1]
    ensures r.0.creator.book.itemsOnScale == st.creator.book.itemsOnScale + [r.1]
    ensures r.0.plate == Grid.PutTerm(st.plate, r.1, cellIndex)
    ensures r.1 == st.next && r.0.next == st.next + 1
    ensures r.0.creator == st.creator.(book := r.0.creator.book)
  {
    CreateItemPrivate(st, None, Some(cellIndex))
  }

  /** The ids `first`, `first + 1`, ..., `first + k - 1`. */
  function Fresh(first: ItemId, k: nat): (ids: seq<ItemId>)
    ensures |ids| == k
  {
    seq(k, i requires 0 <= i < k => first + i)
  }
}
