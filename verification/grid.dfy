/**
 * The cell grid of one plate (js/common/model/Grid.js).
 *
 * The grid is `rows` x `columns` cells stored as one row-major sequence, row 0 at the top.
 * A cell holds the id of the term that occupies it, or nothing. The grid is meant to be
 * filled from the bottom up: removing a term drops every term above it by one row.
 * Cell geometry (locations, bounds, moving terms) is not modelled; the Euclidean part of
 * the closest-cell search is an oracle `dist` from cell index to distance.
 */
module Grid {
  import opened Wrappers
  import Sequences

  type TermId = nat

  datatype Grid = Grid(rows: nat, columns: nat, cells: seq<Option<TermId>>)

  /** The cell sequence always has exactly rows * columns entries. */
  predicate Valid(g: Grid) {
    |g.cells| == g.rows * g.columns
  }

  /** A cell index is an integer in [0, number of cells). */
  predicate IsValidCell(g: Grid, index: int) {
    0 <= index < |g.cells|
  }

  predicate Full(g: Grid) {
    forall i :: 0 <= i < |g.cells| ==> g.cells[i].Some?
  }

  predicate Empty(g: Grid) {
    forall i :: 0 <= i < |g.cells| ==> g.cells[i].None?
  }

  // ---------------------------------------------------------------------------------------
  // Index arithmetic

  /**
   * Row and column of a cell index, defined by repeated subtraction of the row length.
   * `RowColumnOf` and `Decompose` relate them to multiplication, division and remainder.
   */
  function Row(columns: int, j: int): nat
    requires columns > 0 && j >= 0
    decreases j
  {
    if j < columns then 0 else Row(columns, j - columns) + 1
  }

  function Col(columns: int, j: int): (column: nat)
    requires columns > 0 && j >= 0
    ensures column < columns && column <= j
    decreases j
  {
    if j < columns then j else Col(columns, j - columns)
  }

  lemma ValidCellHasColumns(g: Grid, index: int)
    requires Valid(g) && IsValidCell(g, index)
    ensures g.columns > 0 && g.rows > 0
  {
  }

  lemma MulAtLeastOne(a: int, c: int)
    requires c > 0
    ensures a >= 1 ==> a * c >= c
    ensures a <= -1 ==> a * c <= -c
  {
    assert a * c - c == (a - 1) * c;
    assert a * c + c == (a + 1) * c;
  }

  /** Division by a positive divisor is determined by the quotient/remainder decomposition. */
  lemma DivModUnique(c: int, q: int, m: int)
    requires c > 0 && 0 <= m < c
    ensures (q * c + m) / c == q
    ensures (q * c + m) % c == m
  {
    var n := q * c + m;
    var q' := n / c;
    var m' := n % c;
    assert n == q' * c + m';
    assert (q - q') * c == m' - m;
    MulAtLeastOne(q - q', c);
  }

  /** Every index is row * columns + column; hence Row and Col are quotient and remainder. */
  lemma {:induction false} Decompose(g: Grid, j: int)
    requires g.columns > 0 && j >= 0
    ensures j == Row(g.columns, j) * g.columns + Col(g.columns, j)
    ensures Row(g.columns, j) == j / g.columns && Col(g.columns, j) == j % g.columns
    decreases j
  {
    if j >= g.columns {
      Decompose(g, j - g.columns);
      assert (Row(g.columns, j - g.columns) + 1) * g.columns == Row(g.columns, j - g.columns) * g.columns + g.columns;
    }
    DivModUnique(g.columns, Row(g.columns, j), Col(g.columns, j));
  }

  /** Two indices in the same row and column are the same cell. */
  lemma {:induction false} SameCell(g: Grid, i: int, j: int)
    requires g.columns > 0 && i >= 0 && j >= 0
    requires Row(g.columns, i) == Row(g.columns, j) && Col(g.columns, i) == Col(g.columns, j)
    ensures i == j
    decreases i
  {
    if i >= g.columns && j >= g.columns {
      SameCell(g, i - g.columns, j - g.columns);
    }
  }

  /** The index one row further down keeps the column and adds one to the row. */
  lemma NextRow(g: Grid, j: int)
    requires g.columns > 0 && j >= 0
    ensures Row(g.columns, j + g.columns) == Row(g.columns, j) + 1
    ensures Col(g.columns, j + g.columns) == Col(g.columns, j)
  {
  }

  /** In one column, a cell in a higher row lies at least one whole row before a lower one. */
  lemma {:induction false} RowOrder(g: Grid, i: int, k: int)
    requires g.columns > 0 && i >= 0 && k >= 0
    requires Col(g.columns, i) == Col(g.columns, k) && Row(g.columns, i) < Row(g.columns, k)
    ensures i + g.columns <= k
    decreases i
  {
    if i >= g.columns {
      RowOrder(g, i - g.columns, k - g.columns);
    }
  }

  /** An index below r * columns lies in a row below r. */
  lemma {:induction false} RowBound(g: Grid, j: int, r: int)
    requires g.columns > 0 && 0 <= j < r * g.columns
    ensures Row(g.columns, j) < r
    decreases j
  {
    assert r * g.columns == (r - 1) * g.columns + g.columns;
    if j >= g.columns {
      RowBound(g, j - g.columns, r - 1);
    }
  }

  /** row * columns + column has exactly that row and column. */
  lemma {:induction false} RowColumnOf(g: Grid, row: nat, column: int)
    requires g.columns > 0 && 0 <= column < g.columns
    ensures Row(g.columns, row * g.columns + column) == row
    ensures Col(g.columns, row * g.columns + column) == column
    decreases row
  {
    if row > 0 {
      assert row * g.columns + column - g.columns == (row - 1) * g.columns + column;
      RowColumnOf(g, row - 1, column);
    }
  }

  /** Valid cells lie in rows 0 .. rows - 1. */
  lemma RowInRange(g: Grid, j: int)
    requires Valid(g) && IsValidCell(g, j)
    ensures g.columns > 0
    ensures 0 <= Row(g.columns, j) < g.rows
  {
    ValidCellHasColumns(g, j);
    RowBound(g, j, g.rows);
  }

  /** `Math.ceil(a / b)` for a positive divisor. */
  function CeilDiv(a: int, b: int): (r: int)
    requires b > 0
    ensures (r - 1) * b < a <= r * b
  {
    var q := a / b;
    assert a == q * b + a % b;
    assert (q + 1) * b == q * b + b;
    assert (q - 1) * b == q * b - b;
    if a % b == 0 then q else q + 1
  }

  lemma CeilDivOfSuccessor(c: int, q: int, m: int)
    requires c > 0 && 0 <= m < c
    ensures CeilDiv(q * c + m + 1, c) == q + 1
  {
    var a := q * c + m + 1;
    if m + 1 == c {
      assert a == (q + 1) * c + 0;
      DivModUnique(c, q + 1, 0);
    } else {
      assert a == q * c + (m + 1);
      DivModUnique(c, q, m + 1);
    }
  }

  /**
   * `indexToRow`: the source writes ceil((index + 1) / columns) - 1.
   * The result is the row of the cell (index / columns) and lies in [0, rows).
   */
  function IndexToRow(g: Grid, index: int): (row: int)
    requires Valid(g) && IsValidCell(g, index)
    ensures g.columns > 0
    ensures row == Row(g.columns, index) && row == index / g.columns
    ensures 0 <= row < g.rows
  {
    RowInRange(g, index);
    Decompose(g, index);
    CeilDivOfSuccessor(g.columns, Row(g.columns, index), Col(g.columns, index));
    CeilDiv(index + 1, g.columns) - 1
  }

  /** `indexToColumn`: index % columns, the column of the cell, in [0, columns). */
  function IndexToColumn(g: Grid, index: int): (column: int)
    requires Valid(g) && IsValidCell(g, index)
    ensures g.columns > 0
    ensures column == Col(g.columns, index)
    ensures 0 <= column < g.columns
  {
    ValidCellHasColumns(g, index);
    Decompose(g, index);
    index % g.columns
  }

  /** A row below `rows` and a column below `columns` address a cell inside the grid. */
  lemma CellInside(g: Grid, row: nat, column: int)
    requires Valid(g) && row < g.rows && 0 <= column < g.columns
    ensures row * g.columns + column < |g.cells|
  {
    MulSucc(row, g.columns);
    MulMonotone(row + 1, g.rows, g.columns);
  }

  lemma MulSucc(a: nat, c: nat)
    ensures (a + 1) * c == a * c + c
  {
  }

  lemma MulMonotone(a: nat, b: nat, c: nat)
    requires a <= b
    ensures a * c <= b * c
  {
    MulDistributes(a, b - a, c);
  }

  lemma MulDistributes(a: nat, d: nat, c: nat)
    ensures (a + d) * c == a * c + d * c
  {
  }

  /**
   * `rowColumnToIndex`: row * columns + column. The result is a valid cell, and
   * indexToRow / indexToColumn recover the row and column exactly.
   */
  function RowColumnToIndex(g: Grid, row: int, column: int): (index: int)
    requires Valid(g)
    requires 0 <= row < g.rows && 0 <= column < g.columns
    ensures IsValidCell(g, index)
    ensures IndexToRow(g, index) == row && IndexToColumn(g, index) == column
  {
    CellInside(g, row, column);
    RowColumnOf(g, row, column);
    row * g.columns + column
  }

  /** The other direction of the round trip: every valid index is rebuilt from its row and column. */
  lemma {:induction false} IndexRoundTrip(g: Grid, index: int)
    requires Valid(g) && IsValidCell(g, index)
    ensures RowColumnToIndex(g, IndexToRow(g, index), IndexToColumn(g, index)) == index
  {
    Decompose(g, index);
  }

  // ---------------------------------------------------------------------------------------
  // Construction and cell access

  /** A new grid has rows * columns cells, all empty. */
  function NewGrid(rows: nat, columns: nat): (g: Grid)
    ensures Valid(g) && g.rows == rows && g.columns == columns
    ensures |g.cells| == rows * columns
    ensures Empty(g)
  {
    Grid(rows, columns, seq(rows * columns, _ => None))
  }

  /** `isEmptyCell`: an empty cell means the grid is not full and lies at or before the first empty cell. */
  function IsEmptyCell(g: Grid, index: int): (b: bool)
    requires IsValidCell(g, index)
    ensures b ==> !Full(g) && index <= GetFirstEmptyCell(g)
    ensures !b ==> g.cells[index].Some? && g.cells[index].value in Occupants(g)
  {
    g.cells[index].None?
  }

  /**
   * `getTermForCell`: nothing exactly for an empty cell; a term found there is found by `getCellForTerm`
   * at or before this cell, and at this very cell when no term occupies two cells.
   */
  function GetTermForCell(g: Grid, index: int): (term: Option<TermId>)
    requires IsValidCell(g, index)
    ensures term.None? <==> IsEmptyCell(g, index)
    ensures term.Some? ==> 0 <= GetCellForTerm(g, term.value) <= index
    ensures term.Some? && Distinct(g) ==> GetCellForTerm(g, term.value) == index
  {
    g.cells[index]
  }

  /** `clearCell`: the cell becomes empty and no other cell changes. */
  function ClearCell(g: Grid, index: int): (h: Grid)
    requires IsValidCell(g, index)
    ensures h.rows == g.rows && h.columns == g.columns && |h.cells| == |g.cells|
    ensures h.cells[index].None?
    ensures forall j :: 0 <= j < |g.cells| && j != index ==> h.cells[j] == g.cells[j]
  {
    g.(cells := g.cells[index := None])
  }

  /** `clearAllCells`: every cell becomes empty; the dimensions stay. */
  function ClearAllCells(g: Grid): (h: Grid)
    ensures h.rows == g.rows && h.columns == g.columns && |h.cells| == |g.cells|
    ensures Empty(h)
  {
    g.(cells := seq(|g.cells|, _ => None))
  }

  /** `getCellForTerm`: the first cell holding the term, or -1. */
  function GetCellForTerm(g: Grid, term: TermId): (index: int)
    ensures -1 <= index < |g.cells|
    ensures index == -1 <==> Some(term) !in g.cells
    ensures index >= 0 ==> g.cells[index] == Some(term)
    ensures index >= 0 ==> forall j :: 0 <= j < index ==> g.cells[j] != Some(term)
  {
    var index := Sequences.IndexOf(g.cells, Some(term));
    assert index >= 0 ==> forall j :: 0 <= j < index ==> g.cells[j] == g.cells[..index][j];
    index
  }

  /** `putTerm`: requires a valid, empty cell; afterwards it holds the term and no other cell changes. */
  function PutTerm(g: Grid, term: TermId, index: int): (h: Grid)
    requires IsValidCell(g, index) && IsEmptyCell(g, index)
    ensures h.rows == g.rows && h.columns == g.columns && |h.cells| == |g.cells|
    ensures h.cells[index] == Some(term)
    ensures forall j :: 0 <= j < |g.cells| && j != index ==> h.cells[j] == g.cells[j]
  {
    g.(cells := g.cells[index := Some(term)])
  }

  // ---------------------------------------------------------------------------------------
  // Removal with shift-down compaction

  /**
   * Reference for `shiftDown(index)` once cell `index` has been emptied: in the column of `index`,
   * every cell from row 1 down to the emptied row takes the occupant of the cell above it and row 0
   * becomes empty; every other cell keeps its occupant.
   */
  function ShiftedCell(g: Grid, index: int, j: int): Option<TermId>
    requires Valid(g) && IsValidCell(g, index) && 0 <= j < |g.cells|
  {
    RowInRange(g, index);
    if Col(g.columns, j) == Col(g.columns, index) && Row(g.columns, j) <= Row(g.columns, index) then
      if Row(g.columns, j) == 0 then None
      else
        NextRow(g, j - g.columns);
        g.cells[j - g.columns]
    else g.cells[j]
  }

  function Shifted(g: Grid, index: int): (h: Grid)
    requires Valid(g) && IsValidCell(g, index)
    ensures h.rows == g.rows && h.columns == g.columns && |h.cells| == |g.cells|
    ensures forall j :: 0 <= j < |g.cells| ==> h.cells[j] == ShiftedCell(g, index, j)
  {
    g.(cells := seq(|g.cells|, j requires 0 <= j < |g.cells| => ShiftedCell(g, index, j)))
  }

  /** The column of `index` part-way through the shift: rows k .. Row(index) - 1 have already moved down. */
  function PartlyShiftedCell(g: Grid, index: int, k: int, j: int): Option<TermId>
    requires Valid(g) && IsValidCell(g, index) && 0 <= j < |g.cells|
    requires 0 <= k
  {
    RowInRange(g, index);
    if Col(g.columns, j) == Col(g.columns, index) && k <= Row(g.columns, j) <= Row(g.columns, index) then
      if Row(g.columns, j) == k then None
      else
        NextRow(g, j - g.columns);
        g.cells[j - g.columns]
    else g.cells[j]
  }

  /**
   * `shiftDown`: walks from the row above the emptied cell up to row 0 and moves each occupant
   * down one row. Each `PutTerm` call carries the source's assertion that the destination is empty,
   * so verifying the loop shows that assertion never fails. The result is the reference `Shifted`.
   */
  method ShiftDown(g: Grid, index: int) returns (h: Grid)
    requires Valid(g) && IsValidCell(g, index) && IsEmptyCell(g, index)
    ensures h == Shifted(g, index)
  {
    var removedRow := IndexToRow(g, index);
    var removedColumn := IndexToColumn(g, index);
    h := g;
    forall j | 0 <= j < |g.cells|
      ensures h.cells[j] == PartlyShiftedCell(g, index, removedRow, j)
    {
      if Col(g.columns, j) == removedColumn && Row(g.columns, j) == removedRow {
        SameCell(g, j, index);
      }
    }
    var row := removedRow - 1;
    while row >= 0
      invariant -1 <= row < removedRow
      invariant Valid(h) && h.rows == g.rows && h.columns == g.columns
      invariant forall j :: 0 <= j < |g.cells| ==> h.cells[j] == PartlyShiftedCell(g, index, row + 1, j)
      decreases row + 1
    {
      h := ShiftRowDown(g, index, h, row);
      row := row - 1;
    }
    assert forall j :: 0 <= j < |g.cells| ==> h.cells[j] == ShiftedCell(g, index, j);
  }

  /**
   * One round of the `shiftDown` loop: the occupant, if any, of row `row` in the emptied cell's column
   * moves one row down, which extends the shifted part of the column up to row `row`.
   */
  method ShiftRowDown(g: Grid, index: int, h: Grid, row: int) returns (h': Grid)
    requires Valid(g) && IsValidCell(g, index) && g.columns > 0
    requires 0 <= row < Row(g.columns, index)
    requires Valid(h) && h.rows == g.rows && h.columns == g.columns
    requires forall j :: 0 <= j < |g.cells| ==> h.cells[j] == PartlyShiftedCell(g, index, row + 1, j)
    ensures Valid(h') && h'.rows == g.rows && h'.columns == g.columns
    ensures forall j :: 0 <= j < |g.cells| ==> h'.cells[j] == PartlyShiftedCell(g, index, row, j)
  {
    RowInRange(g, index);
    var removedColumn := IndexToColumn(g, index);
    var currentIndex := RowColumnToIndex(g, row, removedColumn);
    var newIndex := RowColumnToIndex(g, row + 1, removedColumn);
    NextRow(g, currentIndex);
    SameCell(g, currentIndex + g.columns, newIndex);
    assert h.cells[currentIndex] == g.cells[currentIndex];
    h' := h;
    if !IsEmptyCell(h, currentIndex) {
      var term := h.cells[currentIndex].value;
      var cleared := ClearCell(h, currentIndex);
      h' := PutTerm(cleared, term, newIndex);
    }
    forall j | 0 <= j < |g.cells|
      ensures h'.cells[j] == PartlyShiftedCell(g, index, row, j)
    {
      ShiftRowCell(g, index, row, h, h', currentIndex, j);
    }
  }

  /**
   * One round of `shiftDown`, cell by cell: moving the occupant of `current` (row `row`) into the cell one
   * row down turns the column shifted from row `row + 1` into the column shifted from row `row`.
   */
  lemma ShiftRowCell(g: Grid, index: int, row: int, h: Grid, h': Grid, current: int, j: int)
    requires Valid(g) && IsValidCell(g, index) && 0 <= j < |g.cells|
    requires 0 <= row && g.columns > 0 && row < Row(g.columns, index)
    requires 0 <= current && current + g.columns < |g.cells|
    requires Row(g.columns, current) == row && Col(g.columns, current) == Col(g.columns, index)
    requires Row(g.columns, current + g.columns) == row + 1 && Col(g.columns, current + g.columns) == Col(g.columns, index)
    requires |h.cells| == |g.cells| && |h'.cells| == |g.cells|
    requires forall k :: 0 <= k < |g.cells| ==> h.cells[k] == PartlyShiftedCell(g, index, row + 1, k)
    requires h.cells[current] == g.cells[current]
    requires h'.cells[current].None? && h'.cells[current + g.columns] == h.cells[current]
    requires forall k :: 0 <= k < |g.cells| && k != current && k != current + g.columns ==> h'.cells[k] == h.cells[k]
    ensures h'.cells[j] == PartlyShiftedCell(g, index, row, j)
  {
    RowInRange(g, index);
    if Col(g.columns, j) == Col(g.columns, index) && Row(g.columns, j) == row {
      SameCell(g, j, current);
    } else if Col(g.columns, j) == Col(g.columns, index) && Row(g.columns, j) == row + 1 {
      SameCell(g, j, current + g.columns);
      NextRow(g, current);
    } else if j != current && j != current + g.columns {
      assert h'.cells[j] == h.cells[j];
    }
  }

  /** The grid after `removeTerm(term)`: the term's (first) cell is emptied and its column shifted down. */
  function Removed(g: Grid, term: TermId): (h: Grid)
    requires Valid(g) && Some(term) in g.cells
    ensures Valid(h) && h.rows == g.rows && h.columns == g.columns
  {
    var index := GetCellForTerm(g, term);
    Shifted(ClearCell(g, index), index)
  }

  /**
   * `removeTerm`: requires the term to be in the grid. Its cell is emptied, every cell above it in the
   * same column moves down exactly one row (the top cell of the column becomes empty), and every cell
   * in another column or below the removed one keeps its occupant.
   */
  method RemoveTerm(g: Grid, term: TermId) returns (h: Grid)
    requires Valid(g) && Some(term) in g.cells
    ensures h == Removed(g, term)
    ensures Valid(h) && h.rows == g.rows && h.columns == g.columns
    ensures forall j :: 0 <= j < |g.cells| ==> CellAfterRemoval(g, h, GetCellForTerm(g, term), j)
  {
    var index := GetCellForTerm(g, term);
    var cleared := ClearCell(g, index);
    h := ShiftDown(cleared, index);
    forall j | 0 <= j < |g.cells|
      ensures CellAfterRemoval(g, h, index, j)
    {
      RemovedCell(g, term, j);
    }
  }

  /**
   * Cell `j` after removing the occupant of `index`: in the column of `index`, at or above its row, the
   * top cell is empty and every other cell holds what the cell one row up held; elsewhere nothing moves.
   */
  predicate CellAfterRemoval(g: Grid, h: Grid, index: int, j: int)
    requires g.columns > 0 && 0 <= index && 0 <= j < |g.cells| && |h.cells| == |g.cells|
  {
    if Col(g.columns, j) == Col(g.columns, index) && Row(g.columns, j) <= Row(g.columns, index) then
      (Row(g.columns, j) == 0 ==> h.cells[j].None?) &&
      (Row(g.columns, j) > 0 ==> j >= g.columns && h.cells[j] == g.cells[j - g.columns])
    else h.cells[j] == g.cells[j]
  }

  lemma RemovedCell(g: Grid, term: TermId, j: int)
    requires Valid(g) && Some(term) in g.cells && 0 <= j < |g.cells|
    ensures g.columns > 0 && CellAfterRemoval(g, Removed(g, term), GetCellForTerm(g, term), j)
  {
    var index := GetCellForTerm(g, term);
    var cleared := ClearCell(g, index);
    RowInRange(g, index);
    assert Removed(g, term).cells[j] == ShiftedCell(cleared, index, j);
    if Col(g.columns, j) == Col(g.columns, index) && Row(g.columns, j) <= Row(g.columns, index) {
      if Row(g.columns, j) > 0 {
        NextRow(g, j - g.columns);
        assert j - g.columns != index;
      }
    } else {
      assert j != index;
    }
  }

  // ---------------------------------------------------------------------------------------
  // Gravity and the set of terms

  /** "Filled from the bottom up": no occupied cell sits directly above an empty one. */
  predicate Gravity(g: Grid) {
    forall j :: 0 <= j && j + g.columns < |g.cells| && g.cells[j].Some? ==> g.cells[j + g.columns].Some?
  }

  /** Each term occupies at most one cell. */
  predicate Distinct(g: Grid) {
    forall i, j :: 0 <= i < j < |g.cells| && g.cells[i].Some? ==> g.cells[i] != g.cells[j]
  }

  function Occupants(g: Grid): set<TermId> {
    set i | 0 <= i < |g.cells| && g.cells[i].Some? :: g.cells[i].value
  }

  /** Removing a term from a bottom-up filled grid leaves it filled from the bottom up. */
  lemma RemovePreservesGravity(g: Grid, term: TermId)
    requires Valid(g) && Some(term) in g.cells && Gravity(g)
    ensures Gravity(Removed(g, term))
  {
    var h := Removed(g, term);
    forall j | 0 <= j && j + g.columns < |g.cells| && h.cells[j].Some?
      ensures h.cells[j + g.columns].Some?
    {
      RemoveKeepsGravityAt(g, term, j);
    }
  }

  /** After the removal, a filled cell still has a filled cell in the row after it. */
  lemma RemoveKeepsGravityAt(g: Grid, term: TermId, j: int)
    requires Valid(g) && Some(term) in g.cells && Gravity(g)
    requires 0 <= j && j + g.columns < |g.cells| && Removed(g, term).cells[j].Some?
    ensures Removed(g, term).cells[j + g.columns].Some?
  {
    var index := GetCellForTerm(g, term);
    RemovedCell(g, term, j);
    RemovedCell(g, term, j + g.columns);
    NextRow(g, j);
    if Col(g.columns, j) == Col(g.columns, index) && Row(g.columns, j) <= Row(g.columns, index) {
      NextRow(g, j - g.columns);
      assert g.cells[j].Some?;
      if Row(g.columns, j) == Row(g.columns, index) {
        SameCell(g, j, index);
      }
    }
  }

  /** The cell whose occupant ends up in cell `j` when the column of `index` shifts down. */
  function ShiftSource(g: Grid, index: int, j: int): (i: int)
    requires Valid(g) && IsValidCell(g, index) && 0 <= j < |g.cells|
    ensures 0 <= i < |g.cells|
  {
    RowInRange(g, index);
    if Col(g.columns, j) == Col(g.columns, index) && 0 < Row(g.columns, j) <= Row(g.columns, index) then j - g.columns
    else j
  }

  /** After a shift into an emptied cell, every occupied cell holds the occupant of its source cell. */
  lemma ShiftedFromSource(g: Grid, index: int, j: int)
    requires Valid(g) && IsValidCell(g, index) && IsEmptyCell(g, index) && 0 <= j < |g.cells|
    requires Shifted(g, index).cells[j].Some?
    ensures Shifted(g, index).cells[j] == g.cells[ShiftSource(g, index, j)]
    ensures ShiftSource(g, index, j) != index
  {
  }

  /** Different cells have different sources. */
  lemma ShiftSourceInjective(g: Grid, index: int, i: int, j: int)
    requires Valid(g) && IsValidCell(g, index) && 0 <= i < |g.cells| && 0 <= j < |g.cells| && i != j
    requires Shifted(g, index).cells[i].Some? && Shifted(g, index).cells[j].Some?
    ensures ShiftSource(g, index, i) != ShiftSource(g, index, j)
  {
    var c := g.columns;
    RowInRange(g, index);
    if ShiftSource(g, index, i) == i - c && ShiftSource(g, index, j) == j {
      NextRow(g, i - c);
    } else if ShiftSource(g, index, i) == i && ShiftSource(g, index, j) == j - c {
      NextRow(g, j - c);
    }
  }

  /** Every occupant other than the emptied cell's is found again after the shift. */
  lemma ShiftedKeeps(g: Grid, index: int, i: int) returns (j: int)
    requires Valid(g) && IsValidCell(g, index) && 0 <= i < |g.cells| && i != index
    ensures 0 <= j < |g.cells| && Shifted(g, index).cells[j] == g.cells[i]
  {
    var c := g.columns;
    RowInRange(g, index);
    NextRow(g, i);
    if Col(c, i) == Col(c, index) && Row(c, i) < Row(c, index) {
      RowOrder(g, i, index);
      j := i + c;
    } else {
      if Col(c, i) == Col(c, index) && Row(c, i) == Row(c, index) {
        SameCell(g, i, index);
      }
      j := i;
    }
  }

  /** Removing a term keeps every other term and the one-cell-per-term property. */
  lemma RemoveKeepsOtherTerms(g: Grid, term: TermId)
    requires Valid(g) && Some(term) in g.cells && Distinct(g)
    ensures Distinct(Removed(g, term))
    ensures Occupants(Removed(g, term)) == Occupants(g) - {term}
  {
    var index := GetCellForTerm(g, term);
    var cleared := ClearCell(g, index);
    var h := Removed(g, term);
    assert Valid(cleared);
    forall i, j | 0 <= i < j < |h.cells| && h.cells[i].Some?
      ensures h.cells[i] != h.cells[j]
    {
      if h.cells[i] == h.cells[j] {
        ShiftedFromSource(cleared, index, i);
        ShiftedFromSource(cleared, index, j);
        ShiftSourceInjective(cleared, index, i, j);
      }
    }
    forall t | t in Occupants(h)
      ensures t in Occupants(g) && t != term
    {
      var j :| 0 <= j < |h.cells| && h.cells[j].Some? && h.cells[j].value == t;
      ShiftedFromSource(cleared, index, j);
      var sj := ShiftSource(cleared, index, j);
      assert g.cells[sj] == Some(t);
      if t == term {
        if sj < index {
          assert false;
        } else {
          assert false;
        }
      }
    }
    forall t | t in Occupants(g) && t != term
      ensures t in Occupants(h)
    {
      var i :| 0 <= i < |g.cells| && g.cells[i].Some? && g.cells[i].value == t;
      var j := ShiftedKeeps(cleared, index, i);
      assert h.cells[j] == g.cells[i];
    }
  }


  // ---------------------------------------------------------------------------------------
  // Finding empty cells

  /**
   * `getFirstEmptyCell` is `lastIndexOf(NO_ITEM)`: the highest-indexed empty cell, which is the
   * rightmost empty cell of the lowest row that has one; -1 exactly when the grid is full.
   */
  function GetFirstEmptyCell(g: Grid): (index: int)
    ensures -1 <= index < |g.cells|
    ensures index == -1 <==> Full(g)
    ensures index >= 0 ==> g.cells[index].None?
    ensures index >= 0 ==> forall j :: index < j < |g.cells| ==> g.cells[j].Some?
    ensures index == -1 <==> EmptyCount(g) == 0
  {
    NoEmptyCellsIffFull(g.cells);
    var index := Sequences.LastIndexOf(g.cells, None);
    assert index >= 0 ==> forall j :: index < j < |g.cells| ==> g.cells[j] == g.cells[index + 1..][j - index - 1];
    index
  }

  /** The grid after placing terms 0, 1, ..., k - 1, each at the first empty cell of an empty grid. */
  function FillFromFirstEmpty(g: Grid, k: nat): (h: Grid)
    requires Valid(g) && Empty(g) && k <= |g.cells|
    ensures Valid(h) && h.rows == g.rows && h.columns == g.columns
    ensures forall i :: 0 <= i < |h.cells| ==> (h.cells[i].Some? <==> i >= |h.cells| - k)
  {
    if k == 0 then g
    else
      var h := FillFromFirstEmpty(g, k - 1);
      var index := GetFirstEmptyCell(h);
      assert h.cells[|h.cells| - k].None?;
      assert index == |h.cells| - k;
      PutTerm(h, k - 1, index)
  }

  /** Filling an empty grid cell by cell: the first empty cell walks down from the last index; a full grid answers -1. */
  lemma FirstEmptyCellWhileFilling(g: Grid, k: nat)
    requires Valid(g) && Empty(g) && k <= |g.cells|
    ensures GetFirstEmptyCell(FillFromFirstEmpty(g, k)) == |g.cells| - k - 1
    ensures k == |g.cells| ==> Full(FillFromFirstEmpty(g, k))
  {
    var h := FillFromFirstEmpty(g, k);
    if k < |g.cells| {
      assert h.cells[|g.cells| - k - 1].None?;
    }
  }

  /** A 6 x 6 grid takes 36 terms at its first empty cell, then reports -1. */
  lemma SixBySixFills()
    ensures var g := FillFromFirstEmpty(NewGrid(6, 6), 36);
      Full(g) && GetFirstEmptyCell(g) == -1
  {
    FirstEmptyCellWhileFilling(NewGrid(6, 6), 36);
  }

  /** No empty cell lies below cell `index` in its column. */
  predicate NoEmptyBelow(g: Grid, index: int)
    requires g.columns > 0 && index >= 0
  {
    forall j :: 0 <= j < |g.cells| && Col(g.columns, j) == Col(g.columns, index) && Row(g.columns, j) > Row(g.columns, index) ==> g.cells[j].Some?
  }

  /**
   * `getClosestEmptyCell`: -1 exactly when the grid is full. Otherwise the result is an empty cell with
   * no empty cell below it in its column, at or below the empty cell nearest to the drop location.
   */
  method GetClosestEmptyCell(g: Grid, dist: int -> real) returns (closest: int)
    requires Valid(g)
    ensures closest == -1 <==> Full(g)
    ensures closest != -1 ==> IsValidCell(g, closest) && g.cells[closest].None?
    ensures closest != -1 ==> g.columns > 0 && NoEmptyBelow(g, closest)
    ensures closest != -1 ==>
      exists nearest :: 0 <= nearest < |g.cells| && g.cells[nearest].None? &&
        Col(g.columns, nearest) == Col(g.columns, closest) && Row(g.columns, nearest) <= Row(g.columns, closest) &&
        (forall j :: 0 <= j < |g.cells| && g.cells[j].None? ==> dist(nearest) <= dist(j))
  {
    closest := GetFirstEmptyCell(g);
    if closest != -1 {
      var closestDistance := dist(closest);
      var index := 0;
      while index < |g.cells|
        invariant 0 <= index <= |g.cells|
        invariant IsValidCell(g, closest) && g.cells[closest].None?
        invariant closestDistance == dist(closest)
        invariant forall j :: 0 <= j < index && g.cells[j].None? ==> closestDistance <= dist(j)
      {
        if IsEmptyCell(g, index) {
          var currentDistance := dist(index);
          if currentDistance < closestDistance {
            closestDistance := currentDistance;
            closest := index;
          }
        }
        index := index + 1;
      }
      ghost var nearest := closest;
      var closestRow := IndexToRow(g, closest);
      var closestColumn := IndexToColumn(g, closest);
      var row := g.rows - 1;
      forall j | 0 <= j < |g.cells|
        ensures Row(g.columns, j) <= row
      {
        RowInRange(g, j);
      }
      while row > closestRow
        invariant closestRow <= row <= g.rows - 1
        invariant closest == nearest
        invariant forall j :: 0 <= j < |g.cells| && Col(g.columns, j) == closestColumn && Row(g.columns, j) > row ==> g.cells[j].Some?
      {
        var indexBelow := RowColumnToIndex(g, row, closestColumn);
        if IsEmptyCell(g, indexBelow) {
          closest := indexBelow;
          break;
        }
        forall j | 0 <= j < |g.cells| && Col(g.columns, j) == closestColumn && Row(g.columns, j) == row
          ensures g.cells[j].Some?
        {
          SameCell(g, j, indexBelow);
        }
        row := row - 1;
      }
    }
  }

  // ---------------------------------------------------------------------------------------
  // Counting empty cells and filling them

  /** The number of empty cells in a cell sequence. */
  function EmptyCells(cells: seq<Option<TermId>>): nat {
    if |cells| == 0 then 0 else (if cells[0].None? then 1 else 0) + EmptyCells(cells[1..])
  }

  function EmptyCount(g: Grid): nat {
    EmptyCells(g.cells)
  }

  /** Filling one empty cell leaves one empty cell fewer. */
  lemma {:induction false} FillingTakesOneEmptyCell(cells: seq<Option<TermId>>, i: int, term: TermId)
    requires 0 <= i < |cells| && cells[i].None?
    ensures EmptyCells(cells[i := Some(term)]) == EmptyCells(cells) - 1
  {
    if i == 0 {
      assert cells[i := Some(term)][1..] == cells[1..];
    } else {
      assert cells[i := Some(term)][1..] == cells[1..][i - 1 := Some(term)];
      FillingTakesOneEmptyCell(cells[1..], i - 1, term);
    }
  }

  /** No empty cell is counted exactly when the grid is full. */
  lemma {:induction false} NoEmptyCellsIffFull(cells: seq<Option<TermId>>)
    ensures EmptyCells(cells) == 0 <==> forall i :: 0 <= i < |cells| ==> cells[i].Some?
  {
    if |cells| > 0 {
      NoEmptyCellsIffFull(cells[1..]);
      assert forall i :: 1 <= i < |cells| ==> cells[i] == cells[1..][i - 1];
    }
  }

  /**
   * The number of empty cells after cell `index`. `getFirstEmptyCell` scans back from the last cell, so an
   * empty cell with `k` empty cells after it is the one reported once those `k` have been filled.
   */
  function EmptyAfter(g: Grid, index: int): nat
    requires IsValidCell(g, index)
  {
    EmptyCells(g.cells[index + 1..])
  }

  /**
   * Putting a term into the first empty cell: no empty cell follows that cell, and every cell before it
   * has exactly one empty cell fewer after it than before.
   */
  lemma PutAtFirstEmptyRanks(g: Grid, term: TermId)
    requires EmptyCount(g) > 0
    ensures var f := GetFirstEmptyCell(g);
      && IsValidCell(g, f) && EmptyAfter(g, f) == 0
      && forall j :: 0 <= j < f ==> EmptyAfter(g, j) > 0 && EmptyAfter(PutTerm(g, term, f), j) == EmptyAfter(g, j) - 1
  {
    var f := GetFirstEmptyCell(g);
    var h := PutTerm(g, term, f);
    NoEmptyCellsIffFull(g.cells[f + 1..]);
    forall j | 0 <= j < f
      ensures EmptyAfter(g, j) > 0 && EmptyAfter(h, j) == EmptyAfter(g, j) - 1
    {
      assert h.cells[j + 1..] == g.cells[j + 1..][f - j - 1 := Some(term)];
      FillingTakesOneEmptyCell(g.cells[j + 1..], f - j - 1, term);
    }
  }

  /** `putTerm` into an empty cell adds the term to the occupants and, for a new term, keeps one cell per term. */
  lemma PutTermAddsOccupant(g: Grid, term: TermId, index: int)
    requires IsValidCell(g, index) && IsEmptyCell(g, index)
    ensures Occupants(PutTerm(g, term, index)) == Occupants(g) + {term}
    ensures EmptyCount(PutTerm(g, term, index)) == EmptyCount(g) - 1
    ensures Distinct(g) && term !in Occupants(g) ==> Distinct(PutTerm(g, term, index))
  {
    var h := PutTerm(g, term, index);
    assert h.cells[index].value == term;
    forall t | t in Occupants(g)
      ensures t in Occupants(h)
    {
      var j :| 0 <= j < |g.cells| && g.cells[j].Some? && g.cells[j].value == t;
      assert h.cells[j] == g.cells[j];
    }
    FillingTakesOneEmptyCell(g.cells, index, term);
    if Distinct(g) && term !in Occupants(g) {
      forall i, j | 0 <= i < j < |h.cells| && h.cells[i].Some?
        ensures h.cells[i] != h.cells[j]
      {
        if i != index && j != index {
          assert h.cells[i] == g.cells[i] && h.cells[j] == g.cells[j];
        } else if i == index && h.cells[j].Some? {
          assert g.cells[j].value in Occupants(g);
        } else if j == index {
          assert g.cells[i].value in Occupants(g);
        }
      }
    }
  }

  /** Putting a term into the first empty cell keeps the grid filled from the bottom up. */
  lemma PutAtFirstEmptyKeepsGravity(g: Grid, term: TermId)
    requires Gravity(g) && !Full(g)
    ensures Gravity(PutTerm(g, term, GetFirstEmptyCell(g)))
  {
  }
}
