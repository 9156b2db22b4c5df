# Equality Explorer model layer in Dafny

This project models the model layer of the Equality Explorer simulation. Weighted items and terms sit in
fixed cell grids on the two plates of a balance scale. Term creators combine like terms and apply
arithmetic "universal operations" to the terms on a plate. The equation text reads both sides and shows
the relation between them.

Everything is modelled with immutable datatypes and pure functions. Loops in the source become methods
with loop invariants.
- A grid is a row-major `seq<Option<TermId>>`.
- Rational numbers (`ReducedFraction`) are exact `real`s.
- Operator symbols are the strings `+`, `−` (U+2212), `×` (U+00D7) and `÷` (U+00F7).
- A source `assert` on the caller becomes a `requires`.
- A failure that depends on data (an unknown operator, a missing inverse creator, an occupied cell, a
  full plate) becomes the `Failure` side of a `Result`.

Modules, following the source files:

| module | file | what it holds |
|---|---|---|
| `Sequences`, `Wrappers` | — | `indexOf`/`lastIndexOf`/removal on sequences; `Option`, `Result` and the error kinds |
| `Grid` | sequences of cells | `Grid.js`: index arithmetic, `putTerm`, `removeTerm`/`shiftDown`, first and closest empty cell, "filled from the bottom up" |
| `WeighingPlatform` | 2-D cells | `WeighingPlatform.js`: the earlier grid, its own scans and the weight sum |
| `ItemBook`, `ItemCreator` | lists of ids | the two lists an item creator keeps; `ItemCreator.js` |
| `AbstractItemCreator`, `AbstractItemCreatorInit`, `AbstractItemCreatorDispose` | creator + plate grid | `AbstractItemCreator.js`, with the plate as a `Grid` |
| `BalanceScale` | reals | `BalanceScale.js`: construction checks, angle, plate placement, item count |
| `Operators`, `Terms`, `TermDispatch`, `ConstantTerm2`, `UniversalOperation` | — | the operator symbols, `ConstantTerm`/`VariableTerm`, `Term.apply`/`Term2.apply`, `ConstantTerm2`, `UniversalOperation.applyTo` |
| `Plate`, `PlateRestore` | scene | creators, live terms and one plate grid; creating, disposing and restoring terms |
| `ConstantTermCreator`, `VariableTermCreator`, `MysteryTermCreator` | scene | the three term creators |
| `Equation` | display children | `EquationNode.js`: the relational operator and each side as a list of text, numbers and terms |

The term creators share one `Plate.Scene`. It holds the creators (each with a kind, a default value and an
optional inverse creator), a map from live term ids to their creator, term and diameter, a plate grid, and
the counter new ids are drawn from. Plate.js and TermCreator.js are not part of this model. Their behaviour
is taken from the way the creators call them:
- `createTermOnPlate` puts a new term into a valid, empty cell;
- disposing of a term removes it from the plate with `Grid.removeTerm`, including the shift-down.

## Model

| member | source | states |
|---|---|---|
| Grid.NewGrid | js/common/model/Grid.js:46-59 | a new grid has rows × columns cells, all empty |
| Grid.IndexToRow | js/common/model/Grid.js:327-332 | the ceiling formula gives index / columns, a row in [0, rows) |
| Grid.IndexToColumn | js/common/model/Grid.js:340-345 | index % columns is the cell's column, in [0, columns) |
| Grid.CeilDiv | js/common/model/Grid.js:329 | `Math.ceil(a / b)` is the integer r with (r − 1)·b < a ≤ r·b |
| Grid.RowColumnToIndex | js/common/model/Grid.js:354-359 | row·columns + column is a valid cell whose indexToRow and indexToColumn give back row and column |
| Grid.IndexRoundTrip | js/common/model/Grid.js:327-360 | every valid index is rowColumnToIndex of its own row and column |
| Grid.ClearCell | js/common/model/Grid.js:104-107 | the cell becomes empty; every other cell and the dimensions stay |
| Grid.IsEmptyCell | js/common/model/Grid.js:94-97 | an empty cell means the grid is not full and lies at or before getFirstEmptyCell; an occupied cell's term is an occupant |
| Grid.GetTermForCell | js/common/model/Grid.js:166-169 | nothing exactly for an empty cell; a term found there is found by getCellForTerm at or before the cell, at the cell itself when no term is in two cells |
| Grid.ClearAllCells | js/common/model/Grid.js:113-117 | every cell becomes empty; the dimensions stay |
| Grid.GetCellForTerm | js/common/model/Grid.js:155-158 | −1 exactly when no cell holds the term; otherwise the first cell holding it |
| Grid.PutTerm | js/common/model/Grid.js:192-198 | requires a valid, empty cell; it then holds the term and no other cell changes |
| Grid.PutTermAddsOccupant | js/common/model/Grid.js:192-198 | putTerm adds the term to the occupants, uses up one empty cell, and keeps a new term in one cell only |
| Grid.ShiftDown | js/common/model/Grid.js:218-242 | the loop yields the reference shift of the column; each move's "destination is empty" assertion holds |
| Grid.ShiftRowCell | js/common/model/Grid.js:225-240 | one round of the shift loop extends the shifted part of the column by one row |
| Grid.RemoveTerm | js/common/model/Grid.js:205-211 | the term's cell is emptied; cells above it in its column move down one row, the top cell empties, all else stays |
| Grid.Removed | js/common/model/Grid.js:205-211 | the grid after removeTerm stays valid, with its dimensions |
| Grid.RemovedCell | js/common/model/Grid.js:205-242 | the per-cell description of the grid after removeTerm |
| Grid.RemoveKeepsOtherTerms | js/common/model/Grid.js:205-242 | removal takes exactly that term off and keeps every term in at most one cell |
| Grid.RemovePreservesGravity | js/common/model/Grid.js:4-5 | a grid filled from the bottom up stays so after removeTerm |
| Grid.RemoveKeepsGravityAt | js/common/model/Grid.js:218-242 | after removal, each occupied cell still has an occupied cell below it |
| Grid.ShiftedKeeps | js/common/model/Grid.js:218-242 | every occupant other than the emptied cell's is found again after the shift |
| Grid.GetFirstEmptyCell | js/common/model/Grid.js:266-268 | the highest-indexed empty cell, with only occupied cells after it; −1 exactly when the grid is full |
| Grid.FirstEmptyCellWhileFilling | js/common/model/Grid.js:261-268 | filling an empty grid at its first empty cell walks down from the last index; a full grid answers −1 |
| Grid.SixBySixFills | js/common/model/Grid.js:266-268 | a 6 × 6 grid takes 36 terms that way and then reports −1 |
| Grid.PutAtFirstEmptyKeepsGravity | js/common/model/Grid.js:266-268 | putting a term at the first empty cell keeps the grid filled from the bottom up |
| Grid.NoEmptyCellsIffFull | js/common/model/Grid.js:266-268 | no empty cell is counted exactly when every cell is occupied |
| Grid.GetClosestEmptyCell | js/common/model/Grid.js:276-309 | −1 exactly when full; else an empty cell with no empty cell below it, in the column of and at or below a nearest empty cell to the drop location |
| WeighingPlatform.NewPlatform | js/common/model/WeighingPlatform.js:46-53 | width × height cells, all empty; numberOfCells is width × height |
| WeighingPlatform.PutItemInCell | js/common/model/WeighingPlatform.js:321-324 | one cell takes the value; every other cell keeps its occupant |
| WeighingPlatform.GetCellForItem | js/common/model/WeighingPlatform.js:168-177 | none exactly when no cell holds the item; else the first cell holding it, rows from the top, left to right |
| WeighingPlatform.ItemInCell | js/common/model/WeighingPlatform.js:310-313 | an item found in a cell is on the platform, and getCellForItem finds it at that cell when no item is in two cells |
| WeighingPlatform.IsEmptyCell | js/common/model/WeighingPlatform.js:158-161 | a cell with no item; an empty cell means the platform is not full, an occupied one holds an item on the platform |
| WeighingPlatform.FindFromRow | js/common/model/WeighingPlatform.js:170-176 | the row loop of getCellForItem from a given row on |
| WeighingPlatform.FirstColumn | js/common/model/WeighingPlatform.js:171 | `indexOf` on one row |
| WeighingPlatform.ContainsItem | js/common/model/WeighingPlatform.js:185-187 | true exactly when getCellForItem finds a cell, i.e. some cell holds the item |
| WeighingPlatform.AddItem | js/common/model/WeighingPlatform.js:108-114 | requires a valid, empty cell and an item not yet there; getCellForItem then finds it in that cell, and no other cell changes |
| WeighingPlatform.AddItemKeepsUnique | js/common/model/WeighingPlatform.js:108-114 | adding a new item keeps every item in at most one cell |
| WeighingPlatform.RemoveItem | js/common/model/WeighingPlatform.js:121-151 | the cell empties and the cells above it move down one row; every move's target is empty |
| WeighingPlatform.RemoveItemTakesItemOff | js/common/model/WeighingPlatform.js:121-127 | after removeItem the item is on no cell and the rest stay unique |
| WeighingPlatform.RemoveItemKeepsGravity | js/common/model/WeighingPlatform.js:133-151 | a platform filled from the bottom up stays so after removeItem |
| WeighingPlatform.GetFirstEmptyCell | js/common/model/WeighingPlatform.js:267-278 | the leftmost empty cell of the lowest row that has one; none exactly when full |
| WeighingPlatform.GetClosestEmptyCell | js/common/model/WeighingPlatform.js:195-232 | none exactly when full; else an empty cell with no empty cell below it, at or below the nearest empty cell |
| WeighingPlatform.Weight | js/common/model/WeighingPlatform.js:63-69 | the weight is the sum over creators of items on the scale × weight |
| WeighingPlatform.TotalWeightAppend | js/common/model/WeighingPlatform.js:63-69 | the weight of two groups of creators is the sum of their weights |
| WeighingPlatform.EmptyPlatformWeighsNothing | js/common/model/WeighingPlatform.js:63-69 | creators with nothing on the scale weigh 0 |
| ItemBook.Add | js/common/model/AbstractItemCreator.js:186-187 | a new item joins all items and not the scale |
| ItemBook.PutOn | js/common/model/AbstractItemCreator.js:216-221 | an existing item off the scale goes onto it; all items unchanged |
| ItemBook.TakeOff | js/common/model/AbstractItemCreator.js:228-233 | an item on the scale comes off it and still exists |
| ItemBook.Drop | js/common/model/AbstractItemCreator.js:278-284 | the item leaves the scale if there, then all items |
| ItemBook.TakeOffUndoesPutOn | js/common/model/ItemCreator.js:120-135 | putting an item on the scale and taking it off restores both lists exactly |
| ItemBook.DropUndoesAdd | js/common/model/ItemCreator.js:162-168 | adding a new item and disposing of it restores both lists exactly |
| ItemBook.OnScaleItemExists | js/common/model/AbstractItemCreator.js:64-65 | every item on the scale is one of all items |
| ItemBook.DropFirstOnScale | js/common/model/AbstractItemCreator.js:267-271 | disposing of the head of the on-scale list shortens it by that head |
| ItemBook.DropOnScale | js/common/model/ItemCreator.js:151-155 | the dispose loop over items on the scale empties it and removes exactly those items |
| ItemBook.DropAll | js/common/model/ItemCreator.js:141-145 | the dispose loop over all items empties both lists |
| ItemCreator.New | js/common/model/ItemCreator.js:27-50 | no items; the given weight is both the initial and the current weight |
| ItemCreator.CreateItem | js/common/model/ItemCreator.js:99-113 | a fresh item joins all items and not the scale; the count grows by one |
| ItemCreator.AddItemToScale | js/common/model/ItemCreator.js:120-124 | the item joins the scale; all items unchanged; the on-scale count grows by one |
| ItemCreator.RemoveItemFromScale | js/common/model/ItemCreator.js:131-135 | the item leaves the scale only |
| ItemCreator.ItemWasDisposed | js/common/model/ItemCreator.js:162-168 | the item leaves the scale (if there) and all items |
| ItemCreator.RemoveUndoesAdd | js/common/model/ItemCreator.js:120-135 | addItemToScale then removeItemFromScale restores the creator |
| ItemCreator.DisposeUndoesCreate | js/common/model/ItemCreator.js:99-168 | createItem then disposal restores the creator except for the id counter |
| ItemCreator.DisposeAllItems | js/common/model/ItemCreator.js:141-145 | both lists end empty; nothing else changes |
| ItemCreator.DisposeItemsOnScale | js/common/model/ItemCreator.js:151-155 | the scale empties; exactly the items that were on it are gone |
| ItemCreator.Reset | js/common/model/ItemCreator.js:77-80 | all items disposed; weight back to its initial value |
| AbstractItemCreator.New | js/common/model/AbstractItemCreator.js:35-36 | construction succeeds exactly when initialNumberOfItemsOnScale ≥ 0 |
| AbstractItemCreator.PutItemOnScale | js/common/model/AbstractItemCreator.js:216-221 | the item goes on the scale and into the given empty cell; no other cell changes |
| AbstractItemCreator.RemoveItemFromScale | js/common/model/AbstractItemCreator.js:228-233 | the item leaves the scale and the plate (with the shift-down); it still exists; the plate stays filled from the bottom up |
| AbstractItemCreator.ItemWasDisposed | js/common/model/AbstractItemCreator.js:278-284 | the item leaves the scale, the plate and all items |
| AbstractItemCreator.CreateItemPrivate | js/common/model/AbstractItemCreator.js:179-199 | a fresh item joins all items, and goes onto the scale into the given cell exactly when a cell was given |
| AbstractItemCreator.CreateItemDragging | js/common/model/AbstractItemCreator.js:159-161 | a fresh item off the scale; the plate does not change |
| AbstractItemCreator.CreateItemOnScale | js/common/model/AbstractItemCreator.js:168-170 | a fresh item on the scale, in the given cell |
| AbstractItemCreatorInit.PlaceNew | js/common/model/AbstractItemCreator.js:106-109 | one round of the population loop: the next id is created on the scale, joins the occupants, and uses up one empty cell |
| AbstractItemCreatorInit.PlaceNewFillsFirstEmptyCell | js/common/model/AbstractItemCreator.js:107-109 | the round's new id goes into the cell getFirstEmptyCell returns, and no other cell changes |
| AbstractItemCreatorInit.Populate | js/common/model/AbstractItemCreator.js:105-110 | the loop succeeds exactly when the plate has at least k empty cells, and fails with a full plate otherwise; on success k ids are used and k empty cells fewer remain |
| AbstractItemCreatorInit.PopulateRound | js/common/model/AbstractItemCreator.js:106-110 | k rounds are one round, then k − 1 more |
| AbstractItemCreatorInit.PopulateOccupants | js/common/model/AbstractItemCreator.js:105-110 | the loop adds exactly the next k ids to the plate's occupants |
| AbstractItemCreatorInit.PopulateLists | js/common/model/AbstractItemCreator.js:105-110 | the new items take the next ids, in order, and are all on the scale |
| AbstractItemCreatorInit.PopulateKeepsGravity | js/common/model/AbstractItemCreator.js:105-110 | a plate filled from the bottom up stays so |
| AbstractItemCreatorInit.PopulateFills | js/common/model/AbstractItemCreator.js:105-110 | the loop's plate is the plate after k rounds of putting the next id into the first empty cell |
| Grid.PutAtFirstEmptyRanks | js/common/model/Grid.js:266-268 | no empty cell follows the first empty cell; filling it leaves every earlier cell one empty cell fewer after it |
| AbstractItemCreatorInit.PlacementStep | js/common/model/AbstractItemCreator.js:106-109 | placing k ids is placing the first id into the first empty cell, then k − 1 more |
| AbstractItemCreatorInit.FillIsPlacement | js/common/model/AbstractItemCreator.js:105-110 | after k rounds, an empty cell with e empty cells after it holds id first + e when e < k; every other cell is kept |
| AbstractItemCreatorInit.PopulatePlaces | js/common/model/AbstractItemCreator.js:105-110 | the loop puts the next k ids into the k highest-indexed empty cells, in decreasing index order, and keeps every other cell |
| AbstractItemCreatorInit.Initialize | js/common/model/AbstractItemCreator.js:96-111 | marks the creator initialized and adds initialNumberOfItemsOnScale items to the plate, the next ids into the highest-indexed empty cells in decreasing index order; fails exactly when the plate runs out of empty cells |
| AbstractItemCreatorDispose.DisposeItemsOnScale | js/common/model/AbstractItemCreator.js:267-271 | the scale empties; exactly its items leave the creator and the plate |
| AbstractItemCreatorDispose.Reset | js/common/model/AbstractItemCreator.js:135-141 | both lists empty; the creator's items leave the plate and other occupants stay |
| BalanceScale.DefaultOptions | js/common/model/BalanceScale.js:33-50 | the defaults: fulcrum at the origin, beam 450 wide, maxWeight 30, supports 70 high, plates 300 across and inset 45, a 6 × 6 grid with margins 2 and 0 |
| BalanceScale.DefaultsFit | js/common/model/BalanceScale.js:33-80 | with the defaults, construction succeeds exactly when no icon is wider than 46 |
| BalanceScale.MaxIconWidth | js/common/model/BalanceScale.js:68-74 | the largest icon width, or 0 |
| BalanceScale.MaxIconHeight | js/common/model/BalanceScale.js:68-74 | the largest icon height, or 0 |
| BalanceScale.New | js/common/model/BalanceScale.js:52-80 | succeeds exactly when the plates do not overlap and the grid is no wider than a plate; each cell fits every icon plus margins |
| BalanceScale.WeightDelta | js/common/model/BalanceScale.js:100-108 | right − left when that lies in [−maxWeight, maxWeight]; maxWeight or −maxWeight when it lies beyond |
| BalanceScale.Angle | js/common/model/BalanceScale.js:100-112 | the angle lies in [−maxAngle, maxAngle]; it is (right − left) / maxWeight × maxAngle while the difference is within maxWeight, and ±maxAngle beyond |
| BalanceScale.BalancedIsLevel | js/common/model/BalanceScale.js:100-112 | equal weights give angle 0 |
| BalanceScale.AngleSign | js/common/model/BalanceScale.js:100-112 | the angle is positive exactly when the right plate is heavier, negative exactly when the left is |
| BalanceScale.AngleAntisymmetric | js/common/model/BalanceScale.js:100-112 | swapping the plates negates the angle |
| BalanceScale.AngleMonotone | js/common/model/BalanceScale.js:100-112 | adding weight to the right plate never lowers the angle |
| BalanceScale.RightPlateLocation | js/common/model/BalanceScale.js:116-135 | at angle 0, and likewise for any angle with cosine 1 and sine 0, the top of the right plate's support is at the fulcrum's height, half the beam less the inset to its right |
| BalanceScale.LeftPlateLocation | js/common/model/BalanceScale.js:137-141 | the left plate is the right plate's mirror image about the fulcrum: the x coordinates, and the heights of the support tops, average to the fulcrum's |
| BalanceScale.TotalOnScaleConcat | js/common/model/BalanceScale.js:145-161 | the count over two lists of creators is the sum of their counts |
| BalanceScale.TotalOnScaleUpdate | js/common/model/BalanceScale.js:145-161 | one creator's count changing changes the total by as much |
| BalanceScale.NumberOfItems | js/common/model/BalanceScale.js:145-161 | the total is the sum of the left and right creators' counts |
| Operators.Parse | js/common/EqualityExplorerConstants.js:23-26 | exactly the four operator symbols are operators |
| Operators.ParseSymbol | js/common/EqualityExplorerConstants.js:23-26 | each operator's symbol parses back to it |
| Operators.EvalUndo | js/common/model/ConstantTermCreator.js:134-145 | + is undone by −, and × by ÷ for a nonzero operand |
| Operators.Sign | js/common/model/ConstantTermCreator.js:80 | `Util.sign` is 1, −1 or 0 exactly for positive, negative or zero |
| Terms.NewConstantTerm | js/common/model/ConstantTerm.js:21-30 | the value defaults to 1 |
| Terms.NewVariableTerm | js/common/model/VariableTerm.js:31-36 | the coefficient defaults to 1; construction fails exactly when it is 0 |
| Terms.ConstructedTermsAreWellFormed | js/common/model/VariableTerm.js:35-36 | constructed variable terms never have coefficient 0 |
| Terms.Weight | js/common/model/VariableTerm.js:48-68 | a constant weighs its value; a variable term its coefficient × the variable's current value; a mystery term its object's constant weight |
| Terms.WeightIgnoresValuesUnlessVariable | js/common/model/VariableTerm.js:48-68 | only a variable term's weight changes with the variables' values, and it changes exactly when its own variable's value does |
| Terms.IsInverseOfAsWritten | js/common/model/VariableTerm.js:99-104 | as written: same symbol and opposite coefficients, whatever the variables |
| Terms.IsInverseOf | js/common/model/VariableTerm.js:99-104 | also the same variable, as the comment on the test says |
| Terms.IsInverseOfSymmetric | js/common/model/ConstantTerm.js:66-69 | inverse is symmetric; a constant is never the inverse of another kind |
| Terms.InversesCancel | js/common/model/VariableTerm.js:99-104 | inverse terms weigh 0 together, for every variable value |
| Terms.AsWrittenInverseNeedNotCancel | js/common/model/VariableTerm.js:99-104 | as written, 1·x and −1·x of different variables count as inverses yet weigh 2 and −3 |
| TermDispatch.Apply | js/common/model/Term.js:75-91 | + and − call their method when defined and otherwise do nothing; × and ÷ always call theirs; other symbols fail |
| TermDispatch.TermMethods | js/common/model/Term.js:76-87 | Term.js looks up plusInteger, minusInteger, timesInteger, divideByInteger |
| TermDispatch.Term2Methods | js/common/model/Term2.js:37-53 | Term2.js looks up plus, minus, times, divide |
| TermDispatch.BareTermIgnoresPlusMinus | js/common/model/Term.js:75-91 | a term without methods ignores + and − and fails on × and ÷, naming the missing method |
| ConstantTerm2.New | js/common/model/ConstantTerm2.js:23-33 | the value starts at the given value or 1, and is remembered as the initial value |
| ConstantTerm2.Reset | js/common/model/ConstantTerm2.js:40-43 | the value returns to the initial value |
| ConstantTerm2.Methods | js/common/model/ConstantTerm2.js:50-79 | all four operator methods are defined |
| ConstantTerm2.Plus | js/common/model/ConstantTerm2.js:50-52 | the value becomes value + n by the operator's meaning; the initial value is kept |
| ConstantTerm2.Minus | js/common/model/ConstantTerm2.js:59-61 | the value becomes value − n; the initial value is kept |
| ConstantTerm2.Times | js/common/model/ConstantTerm2.js:68-70 | the value becomes value × n; the initial value is kept |
| ConstantTerm2.Divide | js/common/model/ConstantTerm2.js:77-79 | the value becomes value ÷ n; the initial value is kept |
| ConstantTerm2.ApplyComputes | js/common/model/Term2.js:37-53 | dispatching any operator to a constant term sets its value to value op n |
| ConstantTerm2.OperationsUndo | js/common/model/ConstantTerm2.js:50-79 | plus then minus restores the term; times then divide too for n ≠ 0 |
| ConstantTerm2.ResetAfterOperations | js/common/model/ConstantTerm2.js:40-43 | after any sequence of operations, reset gives back the new term |
| UniversalOperation.ApplyTo | js/solving/model/UniversalOperation.js:40-44 | the loop equals the recursive reference |
| UniversalOperation.ApplyToAll | js/solving/model/UniversalOperation.js:40-44 | the operation is applied once to each term in order; a failure stops at the first term with nothing changed |
| UniversalOperation.ApplyToNothing | js/solving/model/UniversalOperation.js:40-44 | no terms, no change |
| UniversalOperation.ApplyToConstantTerms | js/solving/model/UniversalOperation.js:40-44 | on constant terms each value v becomes v op operand, with no failure |
| Plate.Route | js/common/model/ConstantTermCreator.js:80-90 | a value with the sign of the default goes to the creator, any other to its inverse creator of the same kind |
| Plate.NewTerm | js/common/model/ConstantTermCreator.js:53-62 | a new term takes the given value or coefficient or the creator's default; a zero coefficient is refused |
| Plate.CreateTerm | js/common/model/ConstantTermCreator.js:83-89 | a new term under a fresh id; the grid does not change |
| Plate.CreateTermOnPlate | js/common/model/ConstantTermCreator.js:165-174 | a new term in the given cell; fails exactly on a bad term, a cell off the grid or an occupied cell |
| Plate.DisposeTerm | js/common/model/ConstantTermCreator.js:151-152 | the term leaves the plate (with the shift-down) and is forgotten; other terms stay |
| Plate.ReplaceInPlace | js/common/model/ConstantTermCreator.js:151-174 | a new term takes the old term's own cell; every other cell keeps its occupant |
| Plate.Vacated | js/common/model/ConstantTermCreator.js:151-152 | the term is forgotten and its cell emptied without a shift |
| Plate.OwnedCells | js/common/model/VariableTermCreator.js:271-276 | the cells holding a creator's terms, each once, in increasing order |
| Plate.TermsOnPlate | js/common/model/VariableTermCreator.js:271-273 | exactly the creator's terms on the plate, in cell order |
| Plate.CellOfTermOnPlate | js/common/model/VariableTermCreator.js:272-276 | getCellForTerm finds each such term in the cell its position names |
| Plate.Cleared | js/common/model/Grid.js:113-117 | the plate with every cell cleared keeps the terms |
| PlateRestore.CreateAll | js/common/model/VariableTermCreator.js:288-295 | creating one term per placement keeps the creators and the grid's shape |
| PlateRestore.CreateAllSucceeds | js/common/model/VariableTermCreator.js:288-295 | placements in distinct empty cells all succeed |
| PlateRestore.CreateAllKeepsEntry | js/common/model/VariableTermCreator.js:288-295 | every term that existed before is unchanged |
| PlateRestore.CreateAllKeepsOtherCells | js/common/model/VariableTermCreator.js:288-295 | a cell no placement names keeps its occupant |
| PlateRestore.CreateAllPlaces | js/common/model/VariableTermCreator.js:288-295 | each placement's cell holds a new term made from its options |
| ConstantTermCreator.New | js/common/model/ConstantTermCreator.js:26-40 | the default value is the given one or 1 |
| ConstantTermCreator.CombineTerms | js/common/model/ConstantTermCreator.js:72-91 | a new term of value sum, made here when the sum has the default's sign, else by the inverse creator; no inverse creator is an error |
| ConstantTermCreator.SignRouting | js/common/model/ConstantTermCreator.js:80-90 | a nonzero sum goes to the creator whose default has its sign |
| ConstantTermCreator.ZeroSumGoesToInverse | js/common/model/ConstantTermCreator.js:78-90 | a zero sum becomes a term of value 0 made by the inverse creator |
| ConstantTermCreator.CopyTerm | js/common/model/ConstantTermCreator.js:99-107 | a new term of this creator with the same value and weight |
| ConstantTermCreator.OperationValue | js/common/model/ConstantTermCreator.js:133-148 | v + n, v − n, v × n or v ÷ n for the four symbols; other symbols fail |
| ConstantTermCreator.ApplyOperationAsWritten | js/common/model/ConstantTermCreator.js:127-176 | as written: a zero result disposes of the term; re-creation fails on an occupied cell exactly when the shift refilled it |
| ConstantTermCreator.AsWrittenResultCollides | js/common/model/ConstantTermCreator.js:151-174 | as written, ×2 on the bottom of a two-term column fails; in place, 6 takes the cell and the upper term stays |
| ConstantTermCreator.ReplaceWithValue | js/common/model/ConstantTermCreator.js:157-174 | a nonzero value replaces the term in its own cell, routed by sign; no other cell changes |
| ConstantTermCreator.ApplyOperation | js/common/model/ConstantTermCreator.js:127-176 | the term is always removed; a zero result creates nothing; a nonzero one replaces it in its cell |
| ConstantTermCreator.TimesOnSingleTerm | js/common/model/ConstantTermCreator.js:140-174 | 3 × 2 gives 6 made by the creator, 3 × −1 gives −3 made by the inverse creator, in the same cell |
| ConstantTermCreator.InverseProperties | js/common/model/ConstantTermCreator.js:185-188 | inverse is symmetric, never holds against another kind, and its inverse is equivalent |
| ConstantTermCreator.IsInverseOf | js/common/model/ConstantTermCreator.js:185-188 | exactly when the other creator is a constant creator whose default term is the inverse of this one's; the two default terms then weigh nothing together |
| ConstantTermCreator.IsEquivalentTo | js/common/model/ConstantTermCreator.js:197-200 | exactly when the other creator is a constant creator whose default term weighs the same |
| ConstantTermCreator.EquivalenceProperties | js/common/model/ConstantTermCreator.js:197-200 | equivalence is reflexive, symmetric and transitive, and only between constant creators |
| VariableTermCreator.New | js/common/model/VariableTermCreator.js:29-47 | the default coefficient is the given one or 1 |
| VariableTermCreator.SumCoefficientsOnScale | js/common/model/VariableTermCreator.js:77-83 | the loop's total is the sum of the coefficients of the creator's terms on the plate |
| VariableTermCreator.TermsOnPlateSum | js/common/model/VariableTermCreator.js:77-83 | that sum, in list order, equals the sum over cells, and is 0 when there are none |
| VariableTermCreator.CreateOnPlateAddsCoefficient | js/common/model/VariableTermCreator.js:77-83 | a new term on the plate adds its coefficient to its own creator's sum only |
| VariableTermCreator.CombineTerms | js/common/model/VariableTermCreator.js:107-139 | nothing exactly when the coefficients sum to 0; else the sum, made here or by the inverse creator by sign |
| VariableTermCreator.CopyTerm | js/common/model/VariableTermCreator.js:149-157 | a new term of this creator with the same coefficient |
| VariableTermCreator.OperationCoefficient | js/common/model/VariableTermCreator.js:199-209 | c × n or c ÷ n; other symbols fail |
| VariableTermCreator.ApplyOperationToTermAsWritten | js/common/model/VariableTermCreator.js:188-236 | as written: + and − return the term; re-creation fails on an occupied cell exactly when the shift refilled it |
| VariableTermCreator.AsWrittenResultCollides | js/common/model/VariableTermCreator.js:211-233 | as written, ×2 on 3x under x fails; in place, 6x takes the cell and x stays |
| VariableTermCreator.ReplaceWithCoefficient | js/common/model/VariableTermCreator.js:211-235 | a zero coefficient disposes and creates nothing; otherwise the term is replaced in its own cell, routed by sign |
| VariableTermCreator.ApplyOperationToTerm | js/common/model/VariableTermCreator.js:188-236 | + and − change nothing; × and ÷ replace the term in place; other symbols fail |
| VariableTermCreator.NothingOnlyForTimesZero | js/common/model/VariableTermCreator.js:197-235 | for × and ÷ nothing is returned exactly for × 0 |
| VariableTermCreator.ApplyOperationToPlate | js/common/model/VariableTermCreator.js:245-249 | creates nothing and changes nothing |
| VariableTermCreator.EquivalenceProperties | js/common/model/VariableTermCreator.js:258-262 | equivalence is reflexive, symmetric and transitive among variable creators and ignores the symbol |
| VariableTermCreator.IsEquivalentTo | js/common/model/VariableTermCreator.js:258-262 | exactly when the other creator is a variable creator of the same variable whose default term weighs the same; then the default terms weigh the same under every valuation |
| VariableTermCreator.CreateSnapshot | js/common/model/VariableTermCreator.js:269-282 | one record per term on the plate, in cell order, with its cell, coefficient and diameter |
| VariableTermCreator.Placements | js/common/model/VariableTermCreator.js:288-295 | one creation request per record, at its cell, with its coefficient and diameter |
| VariableTermCreator.RestoreSnapshot | js/common/model/VariableTermCreator.js:288-295 | the scene stays valid with its creators, and the restore succeeds when the records name distinct empty cells and nonzero coefficients |
| VariableTermCreator.RestoreSnapshotPlaces | js/common/model/VariableTermCreator.js:288-295 | each record's cell then holds a term of the creator's variable with the recorded coefficient and diameter |
| VariableTermCreator.SnapshotPlaceable | js/common/model/VariableTermCreator.js:269-295 | a snapshot's records go to distinct cells, empty on a cleared plate |
| VariableTermCreator.RestoresRecordedCell | js/common/model/VariableTermCreator.js:269-295 | a recorded cell gets back an equal term with the same diameter |
| VariableTermCreator.LeavesOtherCellEmpty | js/common/model/VariableTermCreator.js:269-295 | a cell that held no term of the creator stays empty |
| VariableTermCreator.SnapshotRoundTrip | js/common/model/VariableTermCreator.js:269-295 | save, clear and restore gives back the creator's occupancy exactly |
| VariableTermCreator.SnapshotRoundTripThroughClearedPlate | js/common/model/VariableTermCreator.js:269-295 | the round trip through the plate with all cells cleared |
| MysteryTermCreator.CombineTerms | js/basics/model/MysteryTermCreator.js:66-68 | always fails |
| MysteryTermCreator.CopyTerm | js/basics/model/MysteryTermCreator.js:76-78 | always fails |
| MysteryTermCreator.ApplyOperationToTerm | js/basics/model/MysteryTermCreator.js:101-103 | always fails |
| MysteryTermCreator.ApplyOperationToPlate | js/basics/model/MysteryTermCreator.js:112-114 | always fails |
| MysteryTermCreator.IsInverseOf | js/basics/model/MysteryTermCreator.js:123-125 | false for every argument |
| MysteryTermCreator.IsEquivalentTo | js/basics/model/MysteryTermCreator.js:134-136 | false for every argument, the creator itself included |
| MysteryTermCreator.CreateSnapshot | js/basics/model/MysteryTermCreator.js:143-152 | the cell of each of the creator's terms on the plate, in cell order |
| MysteryTermCreator.Placements | js/basics/model/MysteryTermCreator.js:158-162 | one creation request per recorded cell, with no options |
| MysteryTermCreator.RestoreSnapshot | js/basics/model/MysteryTermCreator.js:158-162 | the scene stays valid with its creators, and the restore succeeds when the recorded cells are distinct and empty |
| MysteryTermCreator.RestoreSnapshotPlaces | js/basics/model/MysteryTermCreator.js:158-162 | each recorded cell then holds the creator's mystery object |
| MysteryTermCreator.SnapshotPlaceable | js/basics/model/MysteryTermCreator.js:143-162 | the recorded cells are distinct and empty on a cleared plate |
| MysteryTermCreator.RestoresRecordedCell | js/basics/model/MysteryTermCreator.js:143-162 | a recorded cell gets back the same mystery object |
| MysteryTermCreator.LeavesOtherCellEmpty | js/basics/model/MysteryTermCreator.js:143-162 | other cells stay empty |
| MysteryTermCreator.SnapshotRoundTrip | js/basics/model/MysteryTermCreator.js:143-162 | save, clear and restore gives back the set of occupied cells and their objects |
| Equation.GetRelationalOperator | js/common/view/EquationNode.js:113-140 | '<', '>' or '=' as the left side weighs less, more or the same |
| Equation.RelationalOperatorSwap | js/common/view/EquationNode.js:113-140 | swapping the sides swaps '<' and '>' and keeps '=' |
| Equation.RelationalOperatorMatchesScale | js/common/view/EquationNode.js:113-140 | '<' exactly when the beam tips right, '>' left, '=' level |
| Equation.CreateTermNode | js/common/view/EquationNode.js:232-267 | the coefficient is hidden only for ±1 with hideOne; the term reads as coefficient × icon |
| Equation.Step | js/common/view/EquationNode.js:163-190 | one loop round: x and constant creators add to their sums; others add a term; an unknown kind with items fails |
| Equation.AppendSeparated | js/common/view/EquationNode.js:178-185 | appending a term after a plus sign keeps the terms plus-separated |
| Equation.Accumulate | js/common/view/EquationNode.js:159-191 | the loop fails exactly on an unsupported creator with items; else it holds the x sum, the constant and the terms in order |
| Equation.StepKeepsSums | js/common/view/EquationNode.js:163-185 | a round for a supported creator extends the sums to it |
| Equation.CreateSideNode | js/common/view/EquationNode.js:153-220 | the terms, then x only when nothing precedes it, then the constant; '0' when empty; fails on an unsupported creator |
| Equation.Finish | js/common/view/EquationNode.js:193-214 | after the loop: the x term, then the constant with its sign, '0' when nothing is shown |
| Equation.SeparatedDenotes | js/common/view/EquationNode.js:178-185 | plus-separated terms read as their sum |
| Equation.XValueIsProduct | js/common/view/EquationNode.js:166-170 | the x items are worth the x coefficient × x |
| Equation.SideValueSplit | js/common/view/EquationNode.js:159-191 | a side's worth splits into x part, constant and item terms |
| Equation.SideDenotesValue | js/common/view/EquationNode.js:153-220 | a shown side, read as arithmetic, equals what its items are worth |
| Equation.DenoteFinish | js/common/view/EquationNode.js:193-214 | the finished children add the x term and the constant to the loop's |
| Equation.DenoteShown | js/common/view/EquationNode.js:153-220 | the children of a shown side add up to its item terms, x items and constant |
| Equation.DenoteWithX | js/common/view/EquationNode.js:193-197 | appending the x term adds coefficient × x |
| Equation.DenoteWithConstant | js/common/view/EquationNode.js:199-210 | appending the signed constant adds the constant |
| Equation.SideValueIsWeight | js/common/view/EquationNode.js:116-125 | with matching values, a side reads as the weight getRelationalOperator compares |

## Left out

- Pixel geometry is not modelled: `getCellAtLocation`, `containsLocation`, `getTermAtLocation`, `getLocationForCell`, `getCellLocation`, `getGridUpperLeft`, `updateItemLocations`, item locations and drag bounds.
- Grid.GetClosestEmptyCell and WeighingPlatform.GetClosestEmptyCell take the Euclidean distance to the drop location as a function `dist`, because it is floating-point geometry. The contracts state that the chosen cell is at or below a nearest empty cell by that function; when several empty cells are equally near, they do not say which one the source's scan picks.
- BalanceScale.RightPlateLocation takes the cosine and sine of the angle as parameters, because trigonometry is not available. `maxAngle` (22 degrees in radians) is a parameter for the same reason.
- BalanceScale.Angle requires `maxWeight > 0`; the source divides by it without a check.
- BalanceScale.organize and WeighingPlatform.organize are empty placeholders in the source. BalanceScale.disposeAllItems is not composed from the per-creator resets.
- `ReducedFraction` is not part of this model. Its values are exact `real`s, and `toDecimal()` comparisons are exact equality.
- Division requires a nonzero operand (ConstantTerm2.Divide, Operators.Applicable and the creators' ÷ branches). The source has no guard; its callers never pass 0.
- Property, DerivedProperty, Emitter and ObservableArray wiring is not modelled. A disposal is the explicit call `ItemWasDisposed` or `Plate.DisposeTerm`. A variable term's weight is re-read from a `values` function, which stands for the derived Property.
- Plate.js and TermCreator.js are not part of this model. `createTerm`, `createTermOnPlate` and term disposal are inferred from how the creators call them, as described above.
- MathSymbols is not part of this model. The creators are assumed to use the same operator code points as EqualityExplorerConstants.
- `console.log` in ConstantTermCreator.js:149 and the `phet.log` calls are debug output and are left out.
- The `combineLikeTerms` assertions at the top of `applyOperation` and `applyOperationToTerm` are left out; they only check a view flag.
- VariableTermCreator.js:93 passes four arguments to the three-parameter VariableTerm constructor, because the files come from different revisions. Each file is modelled by its own contract.
- js/common/model/MysteryTermCreator.js (a VariableTermCreator with coefficient 1) is not modelled; the Basics MysteryTermCreator is.
- The MysteryTerm class (js/basics/model/MysteryTerm.js) is not part of this model. A mystery term's weight is its object's constant weight, as js/basics/model/MysteryTermCreator.js:5 and :26 describe. Its `isInverseOf` is taken to be the abstract one in js/common/model/Term.js:65-67, which throws.
- The UniversalOperation constructor only asserts argument types. Its fields have those types, so there is no member for it.
- AbstractItemCreator.initialize's check that the plate is set, and its setting of item locations, are left out. A full plate is the `PlateFull` failure.
- Fonts, fills, spacing and scenery nodes of EquationNode are not modelled. Icons are ids, and the constructor's wiring of listeners is left out.
- ConstantTermCreator.ApplyOperationAsWritten and VariableTermCreator.ApplyOperationToTermAsWritten state only the outcomes that matter for the finding below (zero result, invalid operator, the collision), not the full resulting scene.
- PlateRestore.CreateAll states only that the creators and the grid's shape are kept; what it places is stated by the PlateRestore lemmas.

The two creator kinds treat a zero sum differently in `combineTerms`. VariableTermCreator's version gives
no term when the coefficients sum to zero (js/common/model/VariableTermCreator.js:118-122). ConstantTermCreator's
version has no zero test: it compares the sum's sign with the creator's default sign, and a zero sum fails that
comparison and goes to the inverse creator (js/common/model/ConstantTermCreator.js:78-90). The model follows each
file as written (VariableTermCreator.CombineTerms and ConstantTermCreator.ZeroSumGoesToInverse).

## Findings

| source | as written | input that shows it | evidently intended | confidence | as-written member | corrected member |
|---|---|---|---|---|---|---|
| js/common/model/VariableTerm.js:99-104 | the same-variable test compares `variableProperty`, a field never assigned, so it always passes | 1·x reading variable 0 (value 2) and −1·x reading variable 1 (value 3): counted as inverses, weights 2 and −3 | inverses also read the same variable, so their weights cancel | not executed; high | Terms.AsWrittenInverseNeedNotCancel | Terms.InversesCancel |
| js/common/model/ConstantTermCreator.js:151-168 | the term is disposed first, which shifts the terms above it down; the result is then created at the old cell index, now refilled | constant 3 at the bottom of a column with another term above it, × 2 | the result takes the old term's cell and the other terms stay | not executed; medium, because Plate.js and TermCreator.js are not part of this model | ConstantTermCreator.AsWrittenResultCollides | ConstantTermCreator.ApplyOperation |
| js/common/model/VariableTermCreator.js:211-231 | the same dispose-then-recreate order for × and ÷ | 3x at the bottom of a column with x above it, × 2 | the result takes the old term's cell and x stays above | not executed; medium, because Plate.js and TermCreator.js are not part of this model | VariableTermCreator.AsWrittenResultCollides | VariableTermCreator.ApplyOperationToTerm |
