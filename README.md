# Hex-puzzle solver core, in Dafny

This project models the core of an early solver skeleton for a hex-grid
falling-piece puzzle. All of that core is in `solve/Program.cs`.

- **Cells** have integer coordinates in odd-row offset form. The model covers
  componentwise `+` and `-`, structural `Equals`, and the integer-only
  60-degree `rotate`. C#'s `/` is modelled as division truncating toward zero
  (`Cells.Quot`), and `a & 1` as `Cells.Odd`.
- **Units** are a list of member cells plus a pivot. They can be moved,
  rotated about the pivot, cloned, and compared with the solver's one-way
  `Equals`.
- **The generator** (`Random`) is a 32-bit linear congruential generator. It
  is a class with one field, the state. Wrap-around modulo 2^32 is written
  out explicitly.
- **The board** holds a `width * height` array of occupancy flags, with
  `clear`, `contains` and `place`. Each is a method over an `array<bool>` and
  is specified against pure functions on the array's contents. The properties
  are proved about those functions.
- **A piece** is the falling unit on a board. `update` adopts the new unit if
  it fits. Otherwise it locks the current unit into the board. `move` and
  `rotate` go through `update`.
- **`generateSource`** deals the units in an order drawn from the generator.
  The pure function `Source.Deal` specifies it.
- **The board tree** is held as an arena (`BoardTrees.Arena`): node `i` has
  a parent id, an optional children list, a mark, a score and a path. This
  covers `walk`, `walkFromRoot`, `CompareTo`, `getBestNodes`, `expand` and
  `prune`. The pure pre-order `BoardTrees.Walk` specifies `walk`.

The main results are:

- Rotation is exact in axial coordinates. On unbounded integers it is
  invertible, has period six, and carries the six neighbour offsets around
  their cycle. For the solver's 32-bit `int` this holds while the
  intermediate products do not wrap (see "Left out").
- A unit rotated one way and then the other is restored exactly, and so is a
  unit turned six times the same way about its pivot.
- `Unit.Equals` is a preorder but is not symmetric.
- `place` is characterised exactly. It is idempotent and leaves every other cell alone.
- `generateSource` returns a permutation of its input and draws exactly
  one number per unit.
- The first ten draws from seed 17.
- `getBestNodes` returns a score-ordered permutation of the walked nodes.
- After `prune(n)`, every node on the lineage of each of the `n` best nodes,
  from the pruned node down, is still reachable by `walk`. This holds for
  every order by non-increasing score, whatever `List.Sort` does with ties.
- The state update of the generator is a bijection on 32-bit states.

Behaviour of the code worth knowing:

- `generateSource` deals each unit of the list exactly once, drawing without
  replacement, and never reads `Input.sourceLength` (solve/Program.cs:301,
  380-393).
- `Unit.rotate` subtracts the pivot componentwise, with no odd-row correction.
  So rotating about a pivot on an odd row is not a hex rotation of the piece.
  `Units.RotateAboutPivot` states what the code does.
- `Cell.southeast` is declared as (1, 1), while the rotation treats (0, 1) as
  the south-east neighbour. `Cells.SouthEastIsNotANeighbour` records this.

## Model

| member | source | states |
|---|---|---|
| Cells.Quot | solve/Program.cs:231-232 | C#'s `int` division: the remainder has the dividend's sign and is smaller than the divisor |
| Cells.Odd | solve/Program.cs:230 | `a & 1` is 0 or 1 and has the parity of `a`, negative `a` included |
| Cells.Add | solve/Program.cs:241-244 | componentwise `+`, undone by componentwise `-` |
| Cells.Sub | solve/Program.cs:236-239 | componentwise `-`, undone by componentwise `+` |
| Cells.SubTranslated | solve/Program.cs:236-244 | translating both cells by the same offset leaves their difference unchanged |
| Cells.Equals | solve/Program.cs:246-249 | `Cell.Equals` holds exactly when the two cells are equal |
| Cells.Rotate | solve/Program.cs:227-234 | `rotate` (with `clockwise` defaulting to true) loses nothing to its truncating divisions: clockwise the new row is `x + y / 2 + y % 2` and the new column `row / 2 - y`; counter-clockwise the new row is `y / 2 - x` and the new column `row / 2 + x - y / 2 + y`, where `/ 2` and `% 2` round down |
| Cells.RotateZero | solve/Program.cs:227-234 | `rotate` keeps (0, 0) in place in both directions |
| Cells.RotateNeighboursClockwise | solve/Program.cs:227-234 | clockwise, each of (1,0), (0,1), (-1,1), (-1,0), (-1,-1), (0,-1) goes to the next one in that cycle |
| Cells.RotateNeighboursCounterClockwise | solve/Program.cs:227-234 | counter-clockwise, each neighbour offset goes to the previous one in the cycle |
| Cells.AxialInjective | solve/Program.cs:227-234 | a cell is determined by its axial column and its row |
| Cells.RotateAxial | solve/Program.cs:227-234 | in axial coordinates (q, r), `rotate` is (-r, q + r) clockwise and (q + r, -q) counter-clockwise |
| Cells.RotateInverse | solve/Program.cs:227-234 | a turn one way and then the other gives back any cell |
| Cells.RotateThreeTimes | solve/Program.cs:227-234 | three turns the same way negate both axial coordinates |
| Cells.RotateSixTimes | solve/Program.cs:227-234 | six turns the same way give back any cell |
| Cells.SouthEastIsNotANeighbour | solve/Program.cs:251-255 | the declared south-east constant (1, 1) is not one of the offsets `rotate` cycles through; east turns to (0, 1) |
| Units.ContainsCell | solve/Program.cs:271 | `List.Contains` with `Cell.Equals` is membership |
| Units.AllContained | solve/Program.cs:271 | `members.All(other.Contains)` holds exactly when every member occurs in `other` |
| Units.UnitEquals | solve/Program.cs:269-272 | `Unit.Equals` is equality of pivots plus inclusion of this unit's member set in the other's |
| Units.UnitEqualsPreorder | solve/Program.cs:269-272 | `Unit.Equals` is reflexive and transitive |
| Units.UnitEqualsNotSymmetric | solve/Program.cs:269-272 | a one-member unit equals a two-member unit with the same pivot, but not the other way round |
| Units.UnitEqualsBothWays | solve/Program.cs:269-272 | `Equals` in both directions is equality of pivots and of member sets |
| Units.Move | solve/Program.cs:274-281 | `move` keeps the number of members |
| Units.MoveTranslates | solve/Program.cs:274-281 | `move(d)` adds `d` to the pivot and to every member, in order |
| Units.MoveInverse | solve/Program.cs:274-281 | moving by `d` and then by `zero - d` gives back the unit exactly |
| Units.MoveCompose | solve/Program.cs:274-281 | two moves are one move by the sum of the offsets |
| Units.Clone | solve/Program.cs:264-267 | `Clone`, a move by `zero`, gives an identical unit |
| Units.CloneEquals | solve/Program.cs:264-272 | a clone and its original are `Equals` in both directions |
| Units.Rotate | solve/Program.cs:283-290 | `rotate` keeps the pivot and the number of members |
| Units.RotateAboutPivot | solve/Program.cs:283-290 | each member's offset from the pivot is turned by `Cell.rotate` |
| Units.RotateInverse | solve/Program.cs:283-290 | turning one way and then the other gives back the unit exactly |
| Units.Rotations | solve/Program.cs:283-290 | `n` turns of a unit keep its pivot and its number of members |
| Units.RotationsAboutPivot | solve/Program.cs:283-290 | after `n` turns, each member's offset from the pivot is that offset turned `n` times by `Cell.rotate` |
| Units.RotateSixTimes | solve/Program.cs:283-290 | six turns in the same direction about the pivot give back the unit exactly |
| Cells.SubCancel | solve/Program.cs:236-239 | two cells with the same difference from a third cell are equal |
| Units.RotateCommutesWithMove | solve/Program.cs:274-290 | rotating a moved unit equals moving the rotated unit |
| Lcg.Output | solve/Program.cs:19 | `next()`'s value is below 32768 |
| Lcg.Random.constructor | solve/Program.cs:12-15 | the state starts at the seed |
| Lcg.Random.Next | solve/Program.cs:17-22 | the answer is computed from the state before the update; the new state is `(state * 1103515245 + 12345) mod 2^32` |
| Lcg.Step | solve/Program.cs:20 | the state update `seed * 1103515245 + 12345` modulo 2^32 is undone by `Unstep`, so no two states have the same successor |
| Lcg.Unstep | solve/Program.cs:20 | every 32-bit state is the successor of the state `Unstep` gives |
| Lcg.StepInjective | solve/Program.cs:20 | two states with the same successor are equal |
| Lcg.Draws | solve/Program.cs:17-22 | `n` calls of `next()` give `n` values, each below 32768 |
| Lcg.DrawsSplit | solve/Program.cs:17-22 | the draws depend only on the current state: `a + b` draws are `a` draws and then `b` draws from the state reached |
| Lcg.DrawsFollowStates | solve/Program.cs:17-22 | a chain of states linked by the update yields the outputs of those states as its draws |
| Lcg.StatesFromSeventeen | solve/Program.cs:20-27 | the first nine state updates from seed 17 |
| Lcg.OutputsFromSeventeen | solve/Program.cs:19 | the values `next()` returns in those ten states |
| Lcg.SeedSeventeen | solve/Program.cs:17-27 | the first ten values drawn from seed 17 are 0, 24107, 16552, 12125, 9427, 13152, 21440, 3383, 6873, 16117 |
| Boards.RowMajor | solve/Program.cs:101 | inside a `w` by `h` grid, `x + y * w` is a valid index |
| Boards.InBoundsIndex | solve/Program.cs:96-101 | a cell that passes the bounds checks indexes inside the array |
| Boards.InBoundsIndexInjective | solve/Program.cs:96-116 | two in-bounds cells with the same index are the same cell |
| Boards.RowOrder | solve/Program.cs:101 | within the columns of the board, a cell on a lower row has a larger index |
| Boards.Board.constructor | solve/Program.cs:79-85 | the board has the given size and score, and every flag is free |
| Boards.Board.Clear | solve/Program.cs:87-90 | a fresh, all-free array of the same size; the score is unchanged |
| Boards.Board.Contains | solve/Program.cs:92-110 | true exactly when every listed cell is inside the board and free; the board is not modified |
| Boards.AllFit | solve/Program.cs:92-110 | what `contains` answers holds for no cells, and a unit it holds for indexes inside the array, so locking it in later cannot fail |
| Boards.AllFitAppend | solve/Program.cs:92-110 | `contains` of a concatenation is the conjunction of `contains` of the parts |
| Boards.Board.Place | solve/Program.cs:112-118 | the flags become those of `Placed`: each listed index is set in turn, and only the array is modified |
| Boards.Placed | solve/Program.cs:112-118 | the flags after `place`: same number, every listed cell's flag set, no flag cleared |
| Boards.PlacedAt | solve/Program.cs:112-118 | after `place`, an index is set exactly when it was set before or some listed cell maps to it |
| Boards.PlacedIdempotent | solve/Program.cs:112-118 | placing the same cells twice is the same as placing them once |
| Boards.PlacedOccupies | solve/Program.cs:92-118 | after placing in-bounds cells, none of them fits any more |
| Boards.PlacedKeepsOthers | solve/Program.cs:92-118 | every other in-bounds cell keeps its occupancy |
| Pieces.Piece.constructor | solve/Program.cs:33-38 | the piece holds a clone of the unit, equal to it, and the given board |
| Pieces.Piece.Update | solve/Program.cs:55-69 | the answer is whether the board contains the new unit; if it does, the piece adopts the new unit and the board is untouched; otherwise the unit is kept and its members are placed; the score never changes |
| Pieces.Piece.Rotate | solve/Program.cs:45-48 | `update` applied to the rotated unit, with the same outcome in each case (the model takes `clockwise` explicitly; the source defaults it to true) |
| Pieces.Piece.Move | solve/Program.cs:50-53 | `update` applied to the moved unit, with the same outcome in each case |
| Pieces.LockedUnitOccupies | solve/Program.cs:55-69 | after a unit that fitted is locked in, none of its members fits any more |
| Source.RemoveAt | solve/Program.cs:389 | `RemoveAt` removes exactly one occurrence of the element at the index |
| Source.Deal | solve/Program.cs:380-393 | the dealt list has the input's length and multiset; exactly one number is drawn per unit |
| Source.DealFirst | solve/Program.cs:387-388 | the first unit dealt is at index `next() % count` of the input |
| Source.DealMembers | solve/Program.cs:380-393 | a unit is dealt exactly when it is in the input |
| Source.DealStep | solve/Program.cs:385-390 | one loop iteration: the selected unit, then the deal of the remaining units from the next state |
| Source.GenerateSource | solve/Program.cs:380-393 | the loop returns the `Deal` of the input and leaves the generator in the state `Deal` reaches; the caller's list is a value and is unchanged |
| BoardTrees.Walk | solve/Program.cs:157-171 | every node `walk` applies `fn` to is at or below its start, inside the arena, and has a children list |
| BoardTrees.WalkEach | solve/Program.cs:167-170 | the walks of a node's children, all strictly below the node |
| BoardTrees.WalkUnexpanded | solve/Program.cs:157-163 | `walk` applies `fn` to nothing at a node whose children list is null |
| BoardTrees.WalkEachMember | solve/Program.cs:165-170 | a node is in the walk of a children list exactly when it is in the walk of one of the children |
| BoardTrees.WalkOfChild | solve/Program.cs:165-170 | the walk of a listed child lies inside the walk of its parent |
| BoardTrees.WalkFromRoot | solve/Program.cs:173-181 | `walkFromRoot` visits a root first, then each next node is a child of the one before, and ends at the node itself |
| BoardTrees.LineageParent | solve/Program.cs:173-181 | the parent of a node on a lineage is on that lineage |
| BoardTrees.LineageTransitive | solve/Program.cs:173-181 | the lineage of a node on the lineage of `j` is part of the lineage of `j` |
| BoardTrees.LineageBelow | solve/Program.cs:173-181 | on one lineage, every node no deeper than `m` is on the lineage of `m` |
| BoardTrees.WalkReachesBack | solve/Program.cs:157-181 | every node the walk from `i` reaches has `i` on its lineage |
| BoardTrees.WalkClosedUpward | solve/Program.cs:157-181 | every node on the lineage of a walked node, from the start of the walk down, is walked too |
| BoardTrees.CompareScores | solve/Program.cs:136-139 | `other.score - this.score` with 32-bit wrap-around: a 32-bit value congruent to the difference |
| BoardTrees.CompareScoresOrdersDescending | solve/Program.cs:136-139 | while the difference fits in 32 bits, `CompareTo` is negative exactly when this score is higher, zero exactly when the scores are equal, and antisymmetric |
| BoardTrees.CompareScoresWraps | solve/Program.cs:136-139 | beyond that range the subtraction wraps and the lower score sorts first |
| BoardTrees.Insert | solve/Program.cs:187 | inserting into a score-ordered list gives a score-ordered permutation of the list plus the new node |
| BoardTrees.SortByScore | solve/Program.cs:187 | a permutation of the input ordered by non-increasing score |
| BoardTrees.Arena.GetBestNodes | solve/Program.cs:183-189 | a permutation of the walked nodes, ordered by non-increasing score; ties may come in any order |
| BoardTrees.Take | solve/Program.cs:195 | LINQ `Take(n)`: a prefix of length `n`, clipped to the list, empty when `n <= 0` |
| BoardTrees.TakeOfReordering | solve/Program.cs:183-195 | the nodes of a reordered walk, and the first `n` of them, are walked nodes |
| BoardTrees.Lineages | solve/Program.cs:195-198 | the set holds every node that `walkFromRoot` visits for each of the given nodes |
| BoardTrees.LineagesExactly | solve/Program.cs:195-198 | a node is in the set exactly when `walkFromRoot` of one of the given nodes visits it |
| BoardTrees.PrunedMark | solve/Program.cs:191-198 | after `prune`, a node is marked exactly when it was walked or marked before and lies on the lineage of none of the kept nodes |
| BoardTrees.Unmarked | solve/Program.cs:200 | `Where(child => !child.mark)` keeps exactly the unmarked children |
| BoardTrees.UnmarkedIdempotent | solve/Program.cs:200 | filtering twice by the same marks is filtering once |
| BoardTrees.Arena.MarkAll | solve/Program.cs:193 | every walked node is marked; nothing else changes |
| BoardTrees.Arena.UnmarkLineages | solve/Program.cs:195-198 | every node on the lineage of a best node is unmarked; other marks and all other fields are unchanged |
| BoardTrees.Arena.DropMarked | solve/Program.cs:200 | every walked node's children list is filtered by the marks; the tree stays well formed |
| BoardTrees.DropMarkedWellFormed | solve/Program.cs:200 | filtering one children list keeps parent and child links consistent |
| BoardTrees.PrunedMarksAre | solve/Program.cs:191-201 | the marks after the three steps of `prune` are those `PrunedMark` gives |
| BoardTrees.PruneOutcome | solve/Program.cs:191-201 | the three steps of `prune` give the marks of `PrunedMark` and keep every lineage of a kept node walked |
| BoardTrees.LineagesCleared | solve/Program.cs:195-198 | after the lineages have been unmarked, no node on the lineage of a best node is marked |
| BoardTrees.UnmarkedLineageSurvives | solve/Program.cs:191-201 | after filtering, a walked node whose lineage from the start of the walk is unmarked is still walked |
| BoardTrees.PruneKeepsLineages | solve/Program.cs:191-201 | after filtering, every node on the lineage of a kept node, from the pruned node down, is still walked |
| BoardTrees.Arena.Prune | solve/Program.cs:191-201 | for the order `getBestNodes` gave, which may be any permutation of the walked nodes by non-increasing score: the marks and children lists after `prune(n)`, stated in full; every ancestor-or-self of the first `n` nodes, from the pruned node down, stays reachable by `walk`; parents, scores and paths are unchanged |
| BoardTrees.Present | solve/Program.cs:151 | `Where(child => child != null)` keeps exactly the present results |
| BoardTrees.Arena.NewNode | solve/Program.cs:129-134 | the `BoardTree` constructor: a new node with the given parent, score and path, no children list and no mark (the model takes `path` and `parent` explicitly; the source defaults them to `""` and null) |
| BoardTrees.Arena.Expand | solve/Program.cs:141-155 | a node that already has a children list is left alone and the answer is false; otherwise each present result becomes a new child, in order, and the answer is true |

## Left out

- `CommandLineParams`, `Main`, JSON reading and writing, and console and file I/O (solve/Program.cs:294-378) are not modelled. They are plumbing around external libraries.
- `Program.solve` (solve/Program.cs:395-427), the driver, is not modelled.
- `generateGoals` and `generatePath` only throw. `Arena.Expand` takes the sequence of `generatePath` results as a parameter, one per goal and `None` where the result is null. It assumes each result is a fresh node whose parent is the expanded node.
- `Piece.canMove` always answers false, and `Piece.history` is never read. Neither is modelled.
- A tree node's `Board` is represented by its score only. No other field of a node's board is read by the tree code.
- BoardTrees.SortByScore: `List.Sort` is unstable, and `SortByScore` is one particular insertion sort. `GetBestNodes` and `Prune` promise only a permutation ordered by score, so they hold for every tie order. It orders by the scores themselves, so it does not reproduce `CompareTo`'s wrap-around for score differences beyond 32 bits (that wrap-around is stated by `CompareScoresWraps`).
- BoardTrees.Arena.Prune: `walk` over the tree becomes loops over the `Walk` sequence of the tree as it was before the step. This is sound because `walk` reads a node's children list before calling `fn` on it.
- Boards.Board.Place, Pieces.Piece.Update, Pieces.Piece.Rotate, Pieces.Piece.Move: `place` has no bounds check, and the three piece methods inherit its requirement on their locking path. It computes `x + y * width` in 32-bit `int`, which can wrap: with width 4, the cell (0, 2^30) gives 2^32, which wraps to 0, so the source sets `data[0]` without an exception. The model requires instead that every unwrapped index lies inside the array, and models neither the wrapped writes nor the `IndexOutOfRangeException`. `Boards.AllFit` shows that a unit that has fitted meets the requirement. For cells that passed `contains` on a board whose `width * height` did not wrap, the bounds checks keep `x + y * width` below that product, so it does not wrap either.
- Boards.Board.constructor: `new bool[width * height]` throws only when the 32-bit product is negative. The model requires both sizes to be non-negative, so it excludes sizes the source accepts: (-1, -1) gives an array of length 1, (0, -5) one of length 0. Overflow of the product `width * height` is not modelled.
- Cells.Add, Cells.Sub, Cells.Rotate: coordinates are unbounded integers, while C#'s `int` wraps at 32 bits. `+` and `-` match the source while the sums stay inside 32 bits. One call of `rotate` matches the source while the cell it is given has `4 * |x| + 3 * |y| + 3 < 2^31`, which bounds every intermediate product and sum. This bound is not preserved by a turn, so a lemma that turns a cell several times holds for the source only if the bound holds for every cell given to `rotate`: the starting cell and the result of each turn. Cells.RotateInverse, Cells.RotateSixTimes, Units.RotateInverse, Units.RotateSixTimes, Units.MoveInverse and Units.RotateCommutesWithMove hold for the source only under those conditions. For example, (2^29, 0) turned clockwise wraps `4 * x`. The cell (0, 600000000) meets the bound, but it turns clockwise to (-450000000, 300000000), and turning that counter-clockwise wraps `dir * 4 * x + 2 * y` past 2^31.
- Lcg.Random.Next: the model computes the output with division and remainder instead of shifts and masks. For a 32-bit state they are equal, but that equality is not proved in bit-vector arithmetic.
- `Unit.members` and `Cell` values are values here, so C# reference aliasing between units (for example, `rotate` sharing the pivot object) is not modelled. No modelled operation updates a cell in place.
