/**
 * ItemCreator (js/common/model/ItemCreator.js): creates items that all share one weight, and records
 * which of them are on the scale. Items are identified by ids drawn from a counter, standing in for
 * the fresh objects `new Item(...)` makes.
 */
module ItemCreator {
  import Sequences
  import ItemBook

  type ItemId = ItemBook.ItemId

  datatype ItemCreator = ItemCreator(name: string, initialWeight: real, weight: real, book: ItemBook.Book, next: ItemId)

  /** The bookkeeping is consistent and every item id was drawn from the counter. */
  predicate Valid(c: ItemCreator) {
    ItemBook.Valid(c.book) && forall x :: x in c.book.allItems ==> x < c.next
  }

  /** A new creator: no items, and the given weight as both initial and current weight. */
  function New(name: string, weight: real): (c: ItemCreator)
    ensures Valid(c) && c.book.allItems == [] && c.book.itemsOnScale == []
    ensures c.weight == weight && c.initialWeight == weight
  {
    ItemCreator(name, weight, weight, ItemBook.Empty, 0)
  }

  function NumberOfItems(c: ItemCreator): nat {
    |c.book.allItems|
  }

  function NumberOfItemsOnScale(c: ItemCreator): nat {
    |c.book.itemsOnScale|
  }

  /** `createItem`: a fresh item joins all items and is not on the scale. */
  function CreateItem(c: ItemCreator): (r: (ItemCreator, ItemId))
    requires Valid(c)
    ensures var (d, item) := r;
      && Valid(d)
      && item !in c.book.allItems
      && Sequences.Elements(d.book.allItems) == Sequences.Elements(c.book.allItems) + {item}
      && d.book.itemsOnScale == c.book.itemsOnScale
      && NumberOfItems(d) == NumberOfItems(c) + 1
      && d.weight == c.weight
  {
    (c.(book := ItemBook.Add(c.book, c.next), next := c.next + 1), c.next)
  }

  /** `addItemToScale`: requires an existing item that is off the scale; afterwards it is on the scale. */
  function AddItemToScale(c: ItemCreator, item: ItemId): (d: ItemCreator)
    requires Valid(c) && item in c.book.allItems && item !in c.book.itemsOnScale
    ensures Valid(d)
    ensures Sequences.Elements(d.book.itemsOnScale) == Sequences.Elements(c.book.itemsOnScale) + {item}
    ensures d.book.allItems == c.book.allItems
    ensures NumberOfItemsOnScale(d) == NumberOfItemsOnScale(c) + 1
  {
    c.(book := ItemBook.PutOn(c.book, item))
  }

  /** `removeItemFromScale`: requires an item on the scale; it leaves the scale only. */
  function RemoveItemFromScale(c: ItemCreator, item: ItemId): (d: ItemCreator)
    requires Valid(c) && item in c.book.allItems && item in c.book.itemsOnScale
    ensures Valid(d)
    ensures Sequences.Elements(d.book.itemsOnScale) == Sequences.Elements(c.book.itemsOnScale) - {item}
    ensures d.book.allItems == c.book.allItems
  {
    c.(book := ItemBook.TakeOff(c.book, item))
  }

  /** `itemWasDisposed`: the item leaves the scale (if it was there) and all items. */
  function ItemWasDisposed(c: ItemCreator, item: ItemId): (d: ItemCreator)
    requires Valid(c) && item in c.book.allItems
    ensures Valid(d)
    ensures item !in d.book.allItems && item !in d.book.itemsOnScale
    ensures Sequences.Elements(d.book.allItems) == Sequences.Elements(c.book.allItems) - {item}
    ensures Sequences.Elements(d.book.itemsOnScale) == Sequences.Elements(c.book.itemsOnScale) - {item}
  {
    c.(book := ItemBook.Drop(c.book, item))
  }

  /** Adding an item to the scale and removing it again restores the creator. */
  lemma RemoveUndoesAdd(c: ItemCreator, item: ItemId)
    requires Valid(c) && item in c.book.allItems && item !in c.book.itemsOnScale
    ensures RemoveItemFromScale(AddItemToScale(c, item), item) == c
  {
    ItemBook.TakeOffUndoesPutOn(c.book, item);
  }

  /** Creating an item and disposing of it restores both lists; only the id counter has moved on. */
  lemma DisposeUndoesCreate(c: ItemCreator)
    requires Valid(c)
    ensures var (d, item) := CreateItem(c);
      ItemWasDisposed(d, item) == c.(next := c.next + 1)
  {
    ItemBook.DropUndoesAdd(c.book, c.next);
  }

  /** `disposeAllItems`: disposing of items one by one until none is left empties both lists. */
  method DisposeAllItems(c: ItemCreator) returns (d: ItemCreator)
    requires Valid(c)
    ensures Valid(d) && d.book.allItems == [] && d.book.itemsOnScale == []
    ensures d == c.(book := d.book)
  {
    var book := ItemBook.DropAll(c.book);
    d := c.(book := book);
  }

  /** `disposeItemsOnScale`: the scale is emptied; exactly the items that were on it are gone. */
  method DisposeItemsOnScale(c: ItemCreator) returns (d: ItemCreator)
    requires Valid(c)
    ensures Valid(d) && d.book.itemsOnScale == []
    ensures Sequences.Elements(d.book.allItems) ==
      Sequences.Elements(c.book.allItems) - Sequences.Elements(c.book.itemsOnScale)
    ensures d == c.(book := d.book)
  {
    var book := ItemBook.DropOnScale(c.book);
    assert forall x :: x in book.allItems ==> x in Sequences.Elements(book.allItems);
    d := c.(book := book);
  }

  /** `reset`: all items are disposed and the weight returns to its initial value. */
  method Reset(c: ItemCreator) returns (d: ItemCreator)
    requires Valid(c)
    ensures Valid(d) && d.book.allItems == [] && d.book.itemsOnScale == []
    ensures d.weight == c.initialWeight && d.initialWeight == c.initialWeight
  {
    d := DisposeAllItems(c);
    d := d.(weight := d.initialWeight);
  }
}
