/**
 * The earlier, two-dimensional plate (js/common/model/WeighingPlatform.js).
 *
 * Cells are `height` rows of `width` cells, indexed from the upper left; a cell holds an item id
 * or nothing. Like `Grid`, removing an item drops the items above it by one row. Cell locations
 * are not modelled; the distance from a cell to the drop location is an oracle `dist`.
 */
module WeighingPlatform {
  import opened Wrappers

  type ItemId = nat

  datatype Cell = Cell(row: int, column: int)

  datatype Platform = Platform(width: nat, height: nat, cells: seq<seq<Option<ItemId>>>)

  /** `height` rows of `width` cells each. */
  predicate Valid(p: Platform) {
    |p.cells| == p.height && forall r :: 0 <= r < |p.cells| ==> |p.cells[r]| == p.width
  }

  /** `assertValidCell`: row in [0, height) and column in [0, width). */
  predicate IsValidCell(p: Platform, cell: Cell) {
    0 <= cell.row < p.height && 0 <= cell.column < p.width
  }

  /**
   * `getItemInCell`: an item found in a cell is on the platform, and when no item occupies two cells,
   * `getCellForItem` finds it at this very cell.
   */
  function ItemInCell(p: Platform, cell: Cell): (item: Option<ItemId>)
    requires Valid(p) && IsValidCell(p, cell)
    ensures item.Some? ==> Holds(p, item.value)
    ensures item.Some? && Unique(p) ==> GetCellForItem(p, item.value) == Some(cell)
  {
    p.cells[cell.row][cell.column]
  }

  /** `isEmptyCell`: a cell with no item; an empty cell means the platform is not full. */
  function IsEmptyCell(p: Platform, cell: Cell): (b: bool)
    requires Valid(p) && IsValidCell(p, cell)
    ensures b <==> ItemInCell(p, cell).None?
    ensures b ==> !Full(p)
    ensures !b ==> Holds(p, ItemInCell(p, cell).value)
  {
    ItemInCell(p, cell).None?
  }

  predicate Full(p: Platform)
    requires Valid(p)
  {
    forall r, c :: 0 <= r < p.height && 0 <= c < p.width ==> p.cells[r][c].Some?
  }

  /** The item occupies some cell. */
  predicate Holds(p: Platform, item: ItemId)
    requires Valid(p)
  {
    exists r, c :: 0 <= r < p.height && 0 <= c < p.width && p.cells[r][c] == Some(item)
  }

  /** Each item occupies at most one cell. */
  predicate Unique(p: Platform)
    requires Valid(p)
  {
    forall r1, c1, r2, c2 ::
      0 <= r1 < p.height && 0 <= c1 < p.width && 0 <= r2 < p.height && 0 <= c2 < p.width &&
      p.cells[r1][c1].Some? && p.cells[r1][c1] == p.cells[r2][c2]
      ==> r1 == r2 && c1 == c2
  }

  /** Filled from the bottom up: every cell below an occupied cell, in the same column, is occupied. */
  predicate Gravity(p: Platform)
    requires Valid(p)
  {
    forall r1, r2, c :: 0 <= r1 <= r2 < p.height && 0 <= c < p.width && p.cells[r1][c].Some? ==> p.cells[r2][c].Some?
  }

  /** A new platform of the given grid size: numberOfCells = width * height cells, all empty. */
  function NewPlatform(width: nat, height: nat): (p: Platform)
    ensures Valid(p) && p.width == width && p.height == height
    ensures NumberOfCells(p) == width * height
    ensures forall r, c :: 0 <= r < height && 0 <= c < width ==> p.cells[r][c].None?
  {
    Platform(width, height, seq(height, _ => seq(width, _ => None)))
  }

  /** `numberOfCells`: the capacity of the platform. */
  function NumberOfCells(p: Platform): nat {
    p.width * p.height
  }

  /** `putItemInCell`: one cell changes, every other cell keeps its occupant. */
  function PutItemInCell(p: Platform, item: Option<ItemId>, cell: Cell): (q: Platform)
    requires Valid(p) && IsValidCell(p, cell)
    ensures Valid(q) && q.width == p.width && q.height == p.height
    ensures q.cells[cell.row][cell.column] == item
    ensures forall r, c :: 0 <= r < p.height && 0 <= c < p.width && (r != cell.row || c != cell.column) ==>
      q.cells[r][c] == p.cells[r][c]
  {
    p.(cells := p.cells[cell.row := p.cells[cell.row][cell.column := item]])
  }

  // ---------------------------------------------------------------------------------------
  // Looking items up

  /**
   * `getCellForItem`: rows are searched from the top, each row left to right; the first
   * occurrence wins, and None means the item is on no cell.
   */
  function GetCellForItem(p: Platform, item: ItemId): (cell: Option<Cell>)
    requires Valid(p)
    ensures cell.None? <==> !Holds(p, item)
    ensures cell.Some? ==> IsValidCell(p, cell.value) && p.cells[cell.value.row][cell.value.column] == Some(item)
    ensures cell.Some? ==> forall r, c :: 0 <= r < p.height && 0 <= c < p.width && p.cells[r][c] == Some(item) ==>
      cell.value.row < r || (cell.value.row == r && cell.value.column <= c)
  {
    FindFromRow(p, item, 0)
  }

  function FindFromRow(p: Platform, item: ItemId, row: nat): (cell: Option<Cell>)
    requires Valid(p) && row <= p.height
    ensures cell.None? <==> forall r, c :: row <= r < p.height && 0 <= c < p.width ==> p.cells[r][c] != Some(item)
    ensures cell.Some? ==>
      row <= cell.value.row && IsValidCell(p, cell.value) && p.cells[cell.value.row][cell.value.column] == Some(item)
    ensures cell.Some? ==> forall r, c :: row <= r < p.height && 0 <= c < p.width && p.cells[r][c] == Some(item) ==>
      cell.value.row < r || (cell.value.row == r && cell.value.column <= c)
    decreases p.height - row
  {
    if row == p.height then None
    else
      var column := FirstColumn(p.cells[row], item, 0);
      if column < p.width then Some(Cell(row, column))
      else FindFromRow(p, item, row + 1)
  }

  /** `Array.indexOf` on one row, from `from` on; |row| when absent. */
  function FirstColumn(cells: seq<Option<ItemId>>, item: ItemId, from: nat): (column: nat)
    requires from <= |cells|
    ensures from <= column <= |cells|
    ensures column < |cells| ==> cells[column] == Some(item)
    ensures forall c :: from <= c < column ==> cells[c] != Some(item)
    decreases |cells| - from
  {
    if from == |cells| then |cells|
    else if cells[from] == Some(item) then from
    else FirstColumn(cells, item, from + 1)
  }

  /** `containsItem`: true exactly when getCellForItem finds a cell, i.e. when some cell holds the item. */
  function ContainsItem(p: Platform, item: ItemId): (b: bool)
    requires Valid(p)
    ensures b <==> GetCellForItem(p, item).Some?
    ensures b <==> Holds(p, item)
  {
    GetCellForItem(p, item) != None
  }

  // ---------------------------------------------------------------------------------------
  // Adding and removing items

  /**
   * `addItem`: the cell must be valid and empty and the item not yet on the platform.
   * Afterwards getCellForItem finds the item in that cell and no other cell changed.
   */
  function AddItem(p: Platform, item: ItemId, cell: Cell): (q: Platform)
    requires Valid(p) && IsValidCell(p, cell) && IsEmptyCell(p, cell) && !ContainsItem(p, item)
    ensures Valid(q) && q.width == p.width && q.height == p.height
    ensures GetCellForItem(q, item) == Some(cell)
    ensures forall r, c :: 0 <= r < p.height && 0 <= c < p.width && (r != cell.row || c != cell.column) ==>
      q.cells[r][c] == p.cells[r][c]
  {
    var q := PutItemInCell(p, Some(item), cell);
    assert q.cells[cell.row][cell.column] == Some(item);
    q
  }

  /** Adding a fresh item keeps every item on at most one cell. */
  lemma AddItemKeepsUnique(p: Platform, item: ItemId, cell: Cell)
    requires Valid(p) && IsValidCell(p, cell) && IsEmptyCell(p, cell) && !ContainsItem(p, item)
    requires Unique(p)
    ensures Unique(AddItem(p, item, cell))
  {
  }

  /** The occupant of (r, c) while shifting column `column` into the emptied row `removedRow`, with rows k .. removedRow - 1 already moved. */
  function PartlyShifted(p: Platform, removedRow: int, column: int, k: int, r: int, c: int): Option<ItemId>
    requires Valid(p) && 0 <= r < p.height && 0 <= c < p.width && 0 <= k
  {
    if c == column && k <= r <= removedRow then
      if r == k then None else p.cells[r - 1][c]
    else p.cells[r][c]
  }

  /**
   * `removeItem`: the item must be on the platform. Its cell is emptied, then every item above it in
   * the same column moves down one row; the top cell of that column ends empty and every other cell
   * keeps its occupant. Each move asserts that its destination is empty; the loop shows it always is.
   */
  method RemoveItem(p: Platform, item: ItemId) returns (q: Platform)
    requires Valid(p) && ContainsItem(p, item)
    ensures Valid(q) && q.width == p.width && q.height == p.height
    ensures var cell := GetCellForItem(p, item).value;
      forall r, c :: 0 <= r < p.height && 0 <= c < p.width ==>
        q.cells[r][c] == if c == cell.column && r <= cell.row then (if r == 0 then None else p.cells[r - 1][c])
                         else p.cells[r][c]
  {
    var cell := GetCellForItem(p, item).value;
    var cleared := PutItemInCell(p, None, cell);
    q := cleared;
    var row := cell.row - 1;
    while row >= 0
      invariant -1 <= row < cell.row
      invariant Valid(q) && q.width == p.width && q.height == p.height
      invariant forall r, c :: 0 <= r < p.height && 0 <= c < p.width ==>
        q.cells[r][c] == PartlyShifted(cleared, cell.row, cell.column, row + 1, r, c)
      decreases row + 1
    {
      var currentCell := Cell(row, cell.column);
      if !IsEmptyCell(q, currentCell) {
        var moving := ItemInCell(q, currentCell);
        q := PutItemInCell(q, None, currentCell);
        var newCell := Cell(row + 1, cell.column);
        assert IsEmptyCell(q, newCell);
        q := PutItemInCell(q, moving, newCell);
      }
      row := row - 1;
    }
  }

  /** Removing an item from a platform with unique items takes it off the platform and keeps the rest unique. */
  lemma RemoveItemTakesItemOff(p: Platform, item: ItemId, q: Platform)
    requires Valid(p) && ContainsItem(p, item) && Unique(p)
    requires Valid(q) && q.width == p.width && q.height == p.height
    requires var cell := GetCellForItem(p, item).value;
      forall r, c :: 0 <= r < p.height && 0 <= c < p.width ==>
        q.cells[r][c] == if c == cell.column && r <= cell.row then (if r == 0 then None else p.cells[r - 1][c])
                         else p.cells[r][c]
    ensures !ContainsItem(q, item)
    ensures Unique(q)
  {
    var cell := GetCellForItem(p, item).value;
    // Where the occupant of (r, c) came from.
    var srcRow := (r: int, c: int) => if c == cell.column && 0 < r <= cell.row then r - 1 else r;
    forall r, c | 0 <= r < p.height && 0 <= c < p.width && q.cells[r][c] == Some(item)
      ensures false
    {
    }
    forall r1, c1, r2, c2 |
      0 <= r1 < p.height && 0 <= c1 < p.width && 0 <= r2 < p.height && 0 <= c2 < p.width &&
      q.cells[r1][c1].Some? && q.cells[r1][c1] == q.cells[r2][c2]
      ensures r1 == r2 && c1 == c2
    {
      assert p.cells[srcRow(r1, c1)][c1] == p.cells[srcRow(r2, c2)][c2];
    }
  }

  /** Removing an item from a bottom-up filled platform leaves it filled from the bottom up. */
  lemma RemoveItemKeepsGravity(p: Platform, item: ItemId, q: Platform)
    requires Valid(p) && ContainsItem(p, item) && Gravity(p)
    requires Valid(q) && q.width == p.width && q.height == p.height
    requires var cell := GetCellForItem(p, item).value;
      forall r, c :: 0 <= r < p.height && 0 <= c < p.width ==>
        q.cells[r][c] == if c == cell.column && r <= cell.row then (if r == 0 then None else p.cells[r - 1][c])
                         else p.cells[r][c]
    ensures Gravity(q)
  {
    var cell := GetCellForItem(p, item).value;
    forall r1, r2, c | 0 <= r1 <= r2 < p.height && 0 <= c < p.width && q.cells[r1][c].Some?
      ensures q.cells[r2][c].Some?
    {
      if c == cell.column && r1 <= cell.row {
        assert p.cells[r1 - 1][c].Some?;
        if r2 <= cell.row {
          assert q.cells[r2][c] == p.cells[r2 - 1][c];
        } else {
          assert q.cells[r2][c] == p.cells[r2][c];
        }
      }
    }
  }

  // ---------------------------------------------------------------------------------------
  // Finding empty cells

  /**
   * `getFirstEmptyCell`: rows are scanned from the bottom up; once a cell has been found the inner
   * loop no longer runs, so the answer is the leftmost empty cell of the lowest row that has one.
   * (The method's own comment says top to bottom; the loop runs bottom to top.) None when full.
   */
  method GetFirstEmptyCell(p: Platform) returns (emptyCell: Option<Cell>)
    requires Valid(p)
    ensures emptyCell.None? <==> Full(p)
    ensures emptyCell.Some? ==> IsValidCell(p, emptyCell.value) && IsEmptyCell(p, emptyCell.value)
    ensures emptyCell.Some? ==> forall r, c :: emptyCell.value.row < r < p.height && 0 <= c < p.width ==> p.cells[r][c].Some?
    ensures emptyCell.Some? ==> forall c :: 0 <= c < emptyCell.value.column ==> p.cells[emptyCell.value.row][c].Some?
  {
    emptyCell := None;
    var row := p.height - 1;
    while row >= 0
      invariant -1 <= row < p.height
      invariant emptyCell.None? ==> forall r, c :: row < r < p.height && 0 <= c < p.width ==> p.cells[r][c].Some?
      invariant emptyCell.Some? ==> row < emptyCell.value.row && IsValidCell(p, emptyCell.value) && IsEmptyCell(p, emptyCell.value)
      invariant emptyCell.Some? ==> forall r, c :: emptyCell.value.row < r < p.height && 0 <= c < p.width ==> p.cells[r][c].Some?
      invariant emptyCell.Some? ==> forall c :: 0 <= c < emptyCell.value.column ==> p.cells[emptyCell.value.row][c].Some?
      decreases row + 1
    {
      ghost var before := emptyCell;
      var column := 0;
      while column < p.width && emptyCell.None?
        invariant 0 <= column <= p.width
        invariant before.Some? ==> emptyCell == before
        invariant before.None? && emptyCell.None? ==> forall c :: 0 <= c < column ==> p.cells[row][c].Some?
        invariant before.None? && emptyCell.Some? ==>
          emptyCell.value.row == row && IsValidCell(p, emptyCell.value) && IsEmptyCell(p, emptyCell.value) &&
          forall c :: 0 <= c < emptyCell.value.column ==> p.cells[row][c].Some?
      {
        var cell := Cell(row, column);
        if IsEmptyCell(p, cell) {
          emptyCell := Some(cell);
        }
        column := column + 1;
      }
      row := row - 1;
    }
  }

  /** No empty cell lies below `cell` in its column. */
  predicate NoEmptyBelow(p: Platform, cell: Cell)
    requires Valid(p) && IsValidCell(p, cell)
  {
    forall r :: cell.row < r < p.height ==> p.cells[r][cell.column].Some?
  }

  /**
   * `getClosestEmptyCell`: None exactly when the platform is full. Otherwise an empty cell with no
   * empty cell below it, at or below the empty cell nearest (by `dist`) to the drop location.
   */
  method GetClosestEmptyCell(p: Platform, dist: Cell -> real) returns (closest: Option<Cell>)
    requires Valid(p)
    ensures closest.None? <==> Full(p)
    ensures closest.Some? ==> IsValidCell(p, closest.value) && IsEmptyCell(p, closest.value)
    ensures closest.Some? ==> NoEmptyBelow(p, closest.value)
    ensures closest.Some? ==>
      exists nearest: Cell :: IsValidCell(p, nearest) && IsEmptyCell(p, nearest) &&
        nearest.column == closest.value.column && nearest.row <= closest.value.row &&
        (forall r, c :: 0 <= r < p.height && 0 <= c < p.width && p.cells[r][c].None? ==> dist(nearest) <= dist(Cell(r, c)))
  {
    var first := GetFirstEmptyCell(p);
    if first.None? {
      return None;
    }
    var closestCell := first.value;
    var closestDistance := dist(closestCell);
    var row := 0;
    while row < p.height
      invariant 0 <= row <= p.height
      invariant IsValidCell(p, closestCell) && IsEmptyCell(p, closestCell)
      invariant closestDistance == dist(closestCell)
      invariant forall r, c :: 0 <= r < row && 0 <= c < p.width && p.cells[r][c].None? ==> closestDistance <= dist(Cell(r, c))
    {
      var column := 0;
      while column < p.width
        invariant 0 <= column <= p.width
        invariant IsValidCell(p, closestCell) && IsEmptyCell(p, closestCell)
        invariant closestDistance == dist(closestCell)
        invariant forall r, c :: 0 <= r < row && 0 <= c < p.width && p.cells[r][c].None? ==> closestDistance <= dist(Cell(r, c))
        invariant forall c :: 0 <= c < column && p.cells[row][c].None? ==> closestDistance <= dist(Cell(row, c))
      {
        var cell := Cell(row, column);
        if IsEmptyCell(p, cell) {
          var currentDistance := dist(cell);
          if currentDistance < closestDistance {
            closestDistance := currentDistance;
            closestCell := cell;
          }
        }
        column := column + 1;
      }
      row := row + 1;
    }
    ghost var nearest := closestCell;
    var closestRow, closestColumn := closestCell.row, closestCell.column;
    row := p.height - 1;
    while row > closestRow
      invariant closestRow <= row <= p.height - 1
      invariant closestCell == nearest
      invariant forall r :: row < r < p.height ==> p.cells[r][closestColumn].Some?
    {
      var currentCell := Cell(row, closestColumn);
      if IsEmptyCell(p, currentCell) {
        closestCell := currentCell;
        break;
      }
      row := row - 1;
    }
    closest := Some(closestCell);
  }

  // ---------------------------------------------------------------------------------------
  // Weight

  /** What the platform reads from one item creator: how many of its items are on the scale, and the weight of each. */
  datatype CreatorLoad = CreatorLoad(numberOfItemsOnScale: nat, weight: real)

  /** The total weight of a list of creators' items: the sum of count * weight. */
  function TotalWeight(loads: seq<CreatorLoad>): real
  {
    if loads == [] then 0.0
    else TotalWeight(loads[..|loads| - 1]) + loads[|loads| - 1].numberOfItemsOnScale as real * loads[|loads| - 1].weight
  }

  /**
   * The platform's `weightProperty` derivation: walks the creators in order accumulating
   * count * weight. The result is the total weight.
   */
  method Weight(loads: seq<CreatorLoad>) returns (weight: real)
    ensures weight == TotalWeight(loads)
  {
    weight := 0.0;
    var i := 0;
    while i < |loads|
      invariant 0 <= i <= |loads|
      invariant weight == TotalWeight(loads[..i])
    {
      assert loads[..i + 1][..i] == loads[..i];
      weight := weight + loads[i].numberOfItemsOnScale as real * loads[i].weight;
      i := i + 1;
    }
    assert loads[..i] == loads;
  }

  /** The total over two groups of creators is the sum of their totals; creators with nothing on the scale add nothing. */
  lemma {:induction false} TotalWeightAppend(a: seq<CreatorLoad>, b: seq<CreatorLoad>)
    ensures TotalWeight(a + b) == TotalWeight(a) + TotalWeight(b)
    decreases |b|
  {
    if b != [] {
      assert (a + b)[..|a + b| - 1] == a + b[..|b| - 1];
      TotalWeightAppend(a, b[..|b| - 1]);
    } else {
      assert a + b == a;
    }
  }

  lemma {:induction false} EmptyPlatformWeighsNothing(loads: seq<CreatorLoad>)
    requires forall i :: 0 <= i < |loads| ==> loads[i].numberOfItemsOnScale == 0
    ensures TotalWeight(loads) == 0.0
    decreases |loads|
  {
    if loads != [] {
      EmptyPlatformWeighsNothing(loads[..|loads| - 1]);
    }
  }
}
