/**
 * The bookkeeping every item creator keeps (js/common/model/AbstractItemCreator.js and
 * js/common/model/ItemCreator.js): the list of all items it has created and not yet disposed, and
 * the list of those items that are on the scale, which is always part of the first list.
 * Both lists are ObservableArrays: `add`/`push` append, `remove` drops the first occurrence.
 */
module ItemBook {
  import Sequences

  type ItemId = nat

  datatype Book = Book(allItems: seq<ItemId>, itemsOnScale: seq<ItemId>)

  /** No item is listed twice, and every item on the scale is one of the creator's items. */
  predicate Valid(b: Book) {
    && Sequences.NoDuplicates(b.allItems)
    && Sequences.NoDuplicates(b.itemsOnScale)
    && (forall x :: x in b.itemsOnScale ==> x in b.allItems)
  }

  const Empty := Book([], [])

  /** A new item joins all items, and not the scale. */
  function Add(b: Book, item: ItemId): (r: Book)
    requires Valid(b) && item !in b.allItems
    ensures Valid(r)
    ensures Sequences.Elements(r.allItems) == Sequences.Elements(b.allItems) + {item}
    ensures r.itemsOnScale == b.itemsOnScale
  {
    Book(b.allItems + [item], b.itemsOnScale)
  }

  /** An item that exists and is off the scale goes onto the scale; the list of all items is untouched. */
  function PutOn(b: Book, item: ItemId): (r: Book)
    requires Valid(b) && item in b.allItems && item !in b.itemsOnScale
    ensures Valid(r)
    ensures Sequences.Elements(r.itemsOnScale) == Sequences.Elements(b.itemsOnScale) + {item}
    ensures r.allItems == b.allItems
  {
    Book(b.allItems, b.itemsOnScale + [item])
  }

  /** An item on the scale comes off it and still exists. */
  function TakeOff(b: Book, item: ItemId): (r: Book)
    requires Valid(b) && item in b.itemsOnScale
    ensures Valid(r)
    ensures Sequences.Elements(r.itemsOnScale) == Sequences.Elements(b.itemsOnScale) - {item}
    ensures item !in r.itemsOnScale && item in r.allItems
    ensures r.allItems == b.allItems
  {
    Sequences.RemoveFirstKeepsNoDuplicates(b.itemsOnScale, item);
    Book(b.allItems, Sequences.RemoveFirst(b.itemsOnScale, item))
  }

  /** `itemWasDisposed`: the item leaves the scale if it is there, then leaves all items. */
  function Drop(b: Book, item: ItemId): (r: Book)
    requires Valid(b) && item in b.allItems
    ensures Valid(r)
    ensures Sequences.Elements(r.allItems) == Sequences.Elements(b.allItems) - {item}
    ensures Sequences.Elements(r.itemsOnScale) == Sequences.Elements(b.itemsOnScale) - {item}
  {
    var b' := if item in b.itemsOnScale then TakeOff(b, item) else b;
    Sequences.RemoveFirstKeepsNoDuplicates(b'.allItems, item);
    Book(Sequences.RemoveFirst(b'.allItems, item), b'.itemsOnScale)
  }

  /** Putting an item on the scale and taking it off again restores the book exactly. */
  lemma TakeOffUndoesPutOn(b: Book, item: ItemId)
    requires Valid(b) && item in b.allItems && item !in b.itemsOnScale
    ensures TakeOff(PutOn(b, item), item) == b
  {
    Sequences.RemoveFirstOfPushed(b.itemsOnScale, item);
  }

  /** Adding a new item and disposing of it again restores the book exactly. */
  lemma DropUndoesAdd(b: Book, item: ItemId)
    requires Valid(b) && item !in b.allItems
    ensures Drop(Add(b, item), item) == b
  {
    Sequences.RemoveFirstOfPushed(b.allItems, item);
  }

  /** Each entry of the on-scale list is one of all items. */
  lemma OnScaleItemExists(b: Book, k: int)
    requires Valid(b) && 0 <= k < |b.itemsOnScale|
    ensures b.itemsOnScale[k] in b.allItems
  {
  }

  /** Disposing of the first item on the scale shortens the on-scale list by its head. */
  lemma DropFirstOnScale(b: Book)
    requires Valid(b) && |b.itemsOnScale| > 0
    ensures Drop(b, b.itemsOnScale[0]).itemsOnScale == b.itemsOnScale[1..]
  {
  }

  /**
   * The loop `while (itemsOnScale.length > 0) itemsOnScale.get(0).dispose()`: the scale ends up empty,
   * exactly the items that were on it are gone, and the others remain.
   */
  method DropOnScale(b: Book) returns (r: Book)
    requires Valid(b)
    ensures Valid(r) && r.itemsOnScale == []
    ensures Sequences.Elements(r.allItems) == Sequences.Elements(b.allItems) - Sequences.Elements(b.itemsOnScale)
  {
    r := b;
    var i := 0;
    while |r.itemsOnScale| > 0
      invariant Valid(r) && 0 <= i <= |b.itemsOnScale|
      invariant r.itemsOnScale == b.itemsOnScale[i..]
      invariant Sequences.Elements(r.allItems) == Sequences.Elements(b.allItems) - Sequences.Elements(b.itemsOnScale[..i])
      decreases |r.itemsOnScale|
    {
      var item := r.itemsOnScale[0];
      DropFirstOnScale(r);
      r := Drop(r, item);
      assert b.itemsOnScale[..i + 1] == b.itemsOnScale[..i] + [item];
      i := i + 1;
    }
    assert b.itemsOnScale[..i] == b.itemsOnScale;
  }

  /**
   * The loop `while (allItems.length > 0) allItems.get(0).dispose()`: both lists end up empty.
   */
  method DropAll(b: Book) returns (r: Book)
    requires Valid(b)
    ensures Valid(r) && r.allItems == [] && r.itemsOnScale == []
  {
    r := b;
    while |r.allItems| > 0
      invariant Valid(r)
      decreases |r.allItems|
    {
      r := Drop(r, r.allItems[0]);
    }
    if |r.itemsOnScale| > 0 {
      OnScaleItemExists(r, 0);
      assert false;
    }
  }
}
