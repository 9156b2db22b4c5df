/**
 * The disposal loops of AbstractItemCreator (js/common/model/AbstractItemCreator.js): `reset` and
 * `disposeItemsOnScale` dispose of the head of a list until the list is empty, and each disposal
 * reaches `itemWasDisposed`, which also takes the item off the plate.
 */
module AbstractItemCreatorDispose {
  import Sequences
  import Grid
  import ItemBook
  import A = AbstractItemCreator

  /** Disposing of an item leaves the creator's other fields, the plate's shape and the counter alone. */
  predicate SameCreator(st: A.State, r: A.State) {
    && r.next == st.next
    && r.creator.initialNumberOfItemsOnScale == st.creator.initialNumberOfItemsOnScale
    && r.creator.isInitialized == st.creator.isInitialized
  }

  /**
   * `disposeItemsOnScale`: the scale is emptied; exactly the items that were on it are gone, from
   * the creator and from the plate, and a plate filled from the bottom up stays so.
   */
  method DisposeItemsOnScale(st: A.State) returns (r: A.State)
    requires A.Valid(st)
    ensures A.Valid(r) && SameCreator(st, r)
    ensures r.creator.book.itemsOnScale == []
    ensures Sequences.Elements(r.creator.book.allItems) ==
      Sequences.Elements(st.creator.book.allItems) - Sequences.Elements(st.creator.book.itemsOnScale)
    ensures Grid.Occupants(r.plate) == Grid.Occupants(st.plate) - Sequences.Elements(st.creator.book.itemsOnScale)
    ensures Grid.Gravity(st.plate) ==> Grid.Gravity(r.plate)
  {
    var onScale := st.creator.book.itemsOnScale;
    r := st;
    var i := 0;
    while |r.creator.book.itemsOnScale| > 0
      invariant A.Valid(r) && SameCreator(st, r) && 0 <= i <= |onScale|
      invariant r.creator.book.itemsOnScale == onScale[i..]
      invariant Sequences.Elements(r.creator.book.allItems) ==
        Sequences.Elements(st.creator.book.allItems) - Sequences.Elements(onScale[..i])
      invariant Grid.Occupants(r.plate) == Grid.Occupants(st.plate) - Sequences.Elements(onScale[..i])
      invariant Grid.Gravity(st.plate) ==> Grid.Gravity(r.plate)
      decreases |r.creator.book.itemsOnScale|
    {
      var item := r.creator.book.itemsOnScale[0];
      ItemBook.OnScaleItemExists(r.creator.book, 0);
      ItemBook.DropFirstOnScale(r.creator.book);
      r := A.ItemWasDisposed(r, item);
      assert onScale[..i + 1] == onScale[..i] + [item];
      i := i + 1;
    }
    assert onScale[..i] == onScale;
  }

  /**
   * `reset`: every item the creator made is disposed of. Both lists end up empty, the creator's items
   * leave the plate, and every other occupant of the plate stays.
   */
  method Reset(st: A.State) returns (r: A.State)
    requires A.Valid(st)
    ensures A.Valid(r) && SameCreator(st, r)
    ensures r.creator.book.allItems == [] && r.creator.book.itemsOnScale == []
    ensures Grid.Occupants(r.plate) == Grid.Occupants(st.plate) - Sequences.Elements(st.creator.book.allItems)
    ensures Grid.Gravity(st.plate) ==> Grid.Gravity(r.plate)
  {
    var all := Sequences.Elements(st.creator.book.allItems);
    r := st;
    while |r.creator.book.allItems| > 0
      invariant A.Valid(r) && SameCreator(st, r)
      invariant Sequences.Elements(r.creator.book.allItems) <= all
      invariant Grid.Occupants(r.plate) == Grid.Occupants(st.plate) - (all - Sequences.Elements(r.creator.book.allItems))
      invariant Grid.Gravity(st.plate) ==> Grid.Gravity(r.plate)
      decreases |r.creator.book.allItems|
    {
      r := A.ItemWasDisposed(r, r.creator.book.allItems[0]);
    }
    if |r.creator.book.itemsOnScale| > 0 {
      ItemBook.OnScaleItemExists(r.creator.book, 0);
      assert false;
    }
  }
}
