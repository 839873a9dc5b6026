# Slider puzzle: boards and the lockstep A* solver

This project models the core of an n-by-n sliding-puzzle solver (the
"8-puzzle" for n = 3) in Dafny and proves properties of the model.

- A `Board` is an immutable n-by-n grid. It holds a permutation of
  `0 .. n*n-1`, and 0 is the blank.
- The board computes two distance measures. `hamming` counts the misplaced
  tiles. `manhattan` adds up each misplaced tile's row and column distance
  from its goal cell.
- The board decides whether it is the goal and compares itself by value
  with another object.
- It lists its neighbour boards, one per slide of the blank, in the order
  the algs4 `Stack` returns them. It also builds a fixed `twin` by swapping
  two non-blank tiles of one row.
- The `Solver` runs two A* searches in strict alternation. One starts from
  the initial board and one from its twin. Each search pops the node that
  is minimal under `ByManhattanPriority` (moves plus manhattan, ties broken
  by hamming). A popped goal ends the loop. Otherwise the search pushes the
  node's neighbours, each with one more move and the popped node as parent,
  except the board of the node it popped just before.
- If the game search pops a goal first, the board is solvable. The solution
  is then the parent chain of that node, read from the initial board.
- `isSolvable` caches its answer. The constructor rejects a null board.

Files:

- `wrappers.dfy`: `Option` and `Result`.
- `grid.dfy` (module `Grid`): square grids, the permutation invariant,
  cell updates and swaps, and the counting argument that every permutation
  grid holds a blank.
- `boards.dfy` (module `Boards`): `findMissingTile`, `equals`, `neighbors`
  and `twin`.
- `heuristics.dfy` (module `Heuristics`): `calcManhattanDistance`,
  `hamming`, `manhattan` and `isGoal`. It also holds loop versions of the
  two measures that follow the source's nested loops.
- `search.dfy` (module `Search`): search nodes, the comparator, the
  priority queue, and one iteration of either search.
- `solving.dfy` (module `Solving`): the lockstep loop, `populateMovesStack`,
  the `Solver` object, and the proofs about a whole run.

Modelling decisions:

- Search nodes live in an arena, which is a sequence of nodes. A parent link
  is the index of an earlier node.
- A priority queue is a sequence of arena indices. `delMin` removes the first
  position that is minimal under the comparator.
- The unbounded `while (true)` loop runs on a step budget (`fuel`). When the
  budget ends, the outcome is `FuelExhausted`.
- A step is passed to the loop as a function. The proofs about a whole run
  therefore rest on three stated properties of one step: what it returns,
  that it keeps the search tree, and that the queue never runs dry. Each
  property is proved once for the concrete step.
- Java's exceptions are `Failure` values. `new Solver(null)` gives
  `IllegalArgument`. `twin()` on a 1-by-1 board gives `IndexOutOfBounds`.
  `min()` on an empty queue gives `NoSuchElement`.
- Java's integer division and remainder truncate toward zero. They are
  written out as `JavaDiv` and `JavaRem`.

The model follows the code in three places where a reader might expect
otherwise:

- The duplicate check compares a neighbour with the board of the node popped
  just before in the same search. That node need not be the popped node's
  parent (Solver.java:97-109).
- Comparator ties are broken by `hamming`, not by `manhattan`
  (Solver.java:156-158).
- A 1-by-1 board is not solved in zero moves. `new Solver` and `isSolvable`
  run the search as written (`Solving.RunAStarAsWritten`), which throws while
  building the twin, so both fail with `IndexOutOfBounds`. The repaired run,
  `Solving.RunAStar`, solves it; see Findings.

## Model

| member | source | states |
|---|---|---|
| Grid.SwapPreservesPermutation | Board.java:147-177 | exchanging two cells of a permutation grid gives a permutation grid, so every neighbour is again a valid board |
| Grid.EveryValuePresent | Board.java:30-39 | an n-by-n grid of distinct values from 0 .. n*n-1 holds every one of them, in particular the blank that findMissingTile looks for |
| Boards.FindMissingTile | Board.java:30-39 | the position found is the last 0 in row-major order when there is one, and (0, 0) otherwise; it lies inside any non-empty grid |
| Boards.BlankIsUnique | Board.java:30-39 | on a valid board the blank position holds 0 and no other cell does |
| Boards.Equals | Board.java:126-131 | equals holds exactly when the other object is a board whose rows have the same lengths and the same entries |
| Boards.DeepEqualsIsEquality | Board.java:130 | Arrays.deepEquals on two grids holds exactly when the grids are equal values |
| Boards.EqualsIsEquivalence | Board.java:126-131 | equals is reflexive, symmetric and transitive on boards and false for null and non-board objects |
| Boards.MoveOrder | Board.java:142-145 | a direction is listed exactly when the blank can move that way inside the grid |
| Boards.PushMovesReverses | Board.java:147-179 | pushing the allowed moves onto a stack one after another yields them in reverse order in front of what the stack held |
| Boards.NeighborsIsStackOrder | Board.java:134-180 | the neighbour list equals the stack built by pushing the moves above, below, left, right, each only when allowed |
| Boards.Neighbors | Board.java:134-180 | there are at most four neighbours, each a square grid of the board's dimension; which boards they are is stated by Boards.NeighborsAreMoves and their order by Boards.NeighborsIsStackOrder |
| Boards.NeighborsSameSize | Board.java:149-176 | every neighbour is a square grid of the board's dimension |
| Boards.NeighborsAreMoves | Board.java:147-177 | a board is a neighbour exactly when it is the original with the blank swapped with one orthogonally adjacent cell, all other cells unchanged |
| Boards.NeighborCount | Board.java:142-177 | there is no neighbour when n = 1; when n >= 2 there are 2 for a corner blank, 3 for an edge blank and 4 for an interior blank |
| Boards.SwapReversible | Board.java:147-177 | swapping the blank with an adjacent tile gives a valid board whose blank is in that tile's cell, and swapping the two cells back restores the original |
| Boards.NeighborsReversible | Board.java:147-177 | every neighbour of a valid board is valid and has the board among its own neighbours |
| Boards.NeighborsDistinct | Board.java:147-177 | no board appears twice in the neighbour list |
| Boards.NeighborAvoiding | Board.java:142-177 | a valid board with n >= 2 has a neighbour not equal to any given board, so an expansion always pushes a node |
| Boards.Twin | Board.java:192-199 | the twin is a square grid of the same dimension |
| Boards.TwinSwapsTwoTiles | Board.java:191-200 | the twin exchanges cells (r,0) and (r,1), with r = 1 when the blank is in row 0 and r = 0 otherwise; neither cell is the blank, every other cell is unchanged, and the twin is valid with the same blank |
| Boards.TwinInvolution | Board.java:191-200 | taking the twin twice gives the original board |
| Boards.TwinDiffers | Board.java:191-200 | for n >= 2 the twin is not equal to the original board |
| Heuristics.GoalCellFormula | Board.java:101-109 | for 1 <= v <= n*n the goal row and column worked out with Java division equal ((v-1)/n, (v-1)%n), which lies inside the grid |
| Heuristics.ExpectedValueIsGoalCell | Board.java:64-68 | a cell (i, j) holds its expected value i*n+j+1 exactly when it is the goal cell of the tile it holds |
| Heuristics.CalcManhattanDistance | Board.java:96-115 | for a tile value in 1 .. n*n the result is the row distance plus the column distance from the tile's goal cell |
| Heuristics.DistanceZeroAtGoal | Board.java:96-115 | the distance is 0 exactly when the tile sits at its goal cell |
| Heuristics.Hamming | Board.java:60-74 | hamming counts at most one per cell, so it is at most n*n; Heuristics.HammingBounds and Heuristics.HammingZeroIff state its range on valid boards and when it is 0 |
| Heuristics.HammingBounds | Board.java:60-74 | on a valid board hamming lies in 0 .. n*n-1 |
| Heuristics.HammingZeroIff | Board.java:60-74 | hamming is 0 exactly when every cell holds the blank or its expected value i*n+j+1 |
| Heuristics.ManhattanDominatesHamming | Board.java:77-94 | on a valid board manhattan is at least hamming, and it is 0 exactly when hamming is 0 |
| Heuristics.Manhattan | Board.java:77-94 | the sum of the tiles' distances to their goal cells; its partner Heuristics.ManhattanDominatesHamming states that it is never below hamming and is 0 exactly when hamming is |
| Heuristics.IsGoal | Board.java:118-123 | on a valid board isGoal holds exactly when hamming is 0; Heuristics.IsGoalIffTilesHome and Heuristics.IsGoalIffSolved characterise it by the tiles |
| Heuristics.IsGoalIffTilesHome | Board.java:118-123 | isGoal holds exactly when every non-blank tile v sits at ((v-1)/n, (v-1)%n) |
| Heuristics.IsGoalIffSolved | Board.java:118-123 | isGoal holds exactly when the tiles are 1 .. n*n-1 in row-major order with the blank last |
| Heuristics.ComputeHamming | Board.java:60-74 | the nested loop with a running expected value computes hamming |
| Heuristics.ComputeManhattan | Board.java:77-94 | the nested loop with a running expected value computes manhattan |
| Search.Compare | Solver.java:149-160 | the result is -1, 0 or +1; it is 0 exactly when priorities (manhattan plus moves) and hammings are equal, and -1 exactly when the priority is lower or equal with a lower hamming |
| Search.CompareIsComparator | Solver.java:149-160 | compare(a,b) = -compare(b,a), compare(a,a) = 0, and the order is transitive, so it is a valid comparator for MinPQ |
| Search.MinPosition | Solver.java:89-90 | the popped position holds a node no queued node is below, and every earlier position holds a strictly greater node |
| Search.RemoveAt | Solver.java:90 | delMin removes exactly one occurrence of the popped index from the queue |
| Search.Pushed | Solver.java:96-108 | a neighbour is pushed exactly when there is no previous node or it does not equal the previous node's board; with no previous node all neighbours are pushed |
| Search.PushedSelects | Solver.java:96-108 | the pushed boards keep the iteration order of the neighbours, and each kept neighbour is pushed exactly as often as it is listed, every other one never |
| Search.PushedIsOnlyFilter | Solver.java:96-108 | any order-keeping selection of the neighbours with those multiplicities is the pushed sequence, so the two facts above pin it down |
| Search.PushedCount | Solver.java:96-108 | with no neighbour listed twice, every neighbour is pushed except the previous board, when it is among them |
| Search.Step | Solver.java:88-111 | one iteration throws exactly when the queue is empty, returns a goal only if it popped a minimal queued goal node, and otherwise yields a successor state that is an expansion of the popped node, appending one node per pushed neighbour in push order |
| Search.Expand | Solver.java:96-109 | expanding records the popped node as the previous one, keeps every arena node, and gives each appended node one move more than the popped node and the popped node as parent; Search.ExpansionFacts states which boards are appended |
| Search.GrowNodes | Solver.java:96-108 | the arena keeps its nodes, and each appended node has moves plus one and the popped node as parent |
| Search.ExpansionFacts | Solver.java:89-109 | expanding the minimal non-goal node pops it, appends exactly one node per pushed neighbour, in push order, and records it as the previous node |
| Search.Start | Solver.java:74-83 | a fresh search holds only the root node, with zero moves and no parent; the queue holds just that node, and no node has been popped yet |
| Search.ExpansionPreservesTree | Solver.java:96-109 | after an expansion every non-root node still has an earlier parent one move closer to the root, and its board is a neighbour of the parent's board |
| Search.ExpansionPreservesValid | Solver.java:96-109 | an expansion keeps every node's board a valid board of the same dimension |
| Search.ExpansionQueueLength | Solver.java:89-109 | the queue shrinks by the popped node and grows by the number of pushed nodes |
| Search.ExpansionCount | Solver.java:96-109 | an expansion of a valid board appends a node for every neighbour except the board popped before, when that board is a neighbour |
| Search.ExpansionPushes | Solver.java:96-109 | for n >= 2 every expansion pushes at least one node, so the queue never shrinks |
| Solving.RunSolo | Solver.java:89-95 | a search run alone stops after fewer expansions than its budget and, if it popped a goal, names a goal node of its arena |
| Solving.Lockstep | Solver.java:88-95 | when the game search ends the loop, the node it names is a goal node of its arena |
| Solving.LockstepInterleaves | Solver.java:72-131 | the alternating loop from the game search gives the same answer as running each search on its own and taking the one that ends first, the game search winning a tie |
| Solving.LockstepKeepsTree | Solver.java:96-109 | the game search's arena stays a search tree rooted at the initial board for the whole loop |
| Solving.LockstepNeverUnderflows | Solver.java:89-90 | for n >= 2 neither queue runs empty, so min() never throws |
| Solving.PopulateMovesStack | Solver.java:135-141 | the collected chain has the goal's moves plus one boards, starts at the root board and ends at the goal board |
| Solving.PopulatedIsPath | Solver.java:135-141 | in a search tree, each consecutive pair of the collected chain is related by neighbors |
| Solving.Record | Solver.java:91-94 | the answer is true exactly for a game goal; then moves is the goal node's moves and the solution is a path from the root to the goal |
| Solving.TwinAsWritten | Board.java:191-200 | twin throws exactly on a board with fewer than two rows and is the twin otherwise |
| Solving.TwinRoot | Solver.java:80 | the board seeding the twin search is a valid board of the initial board's dimension, and for n >= 2 it is the twin, which the code as written then computes without throwing |
| Solving.RunAStarAsWritten | Solver.java:71-133 | for a 1-by-1 board the run ends with an index-out-of-bounds failure; otherwise a solvable answer comes with a path of moves plus one boards from the initial board to a goal board, each step a neighbour, and an unsolvable answer with zero moves and no boards |
| Solving.RunAStar | Solver.java:71-133 | a solvable answer comes with a path of moves plus one boards from the initial board to a goal board, each step a neighbour; an unsolvable answer comes with zero moves and no boards |
| Solving.RunAStarMatchesSource | Solver.java:71-133 | for n >= 2 the run equals the code as written |
| Solving.SolvableIffGameFirst | Solver.java:72-131 | the answer is solvable exactly when the game search, run alone, pops a goal no later than the twin search does, within its share of the budget |
| Solving.RunNeverUnderflows | Solver.java:86-131 | for n >= 2 the run never fails with an empty queue |
| Solving.IsSolvable | Solver.java:62-69 | once attempted the cached answer is returned and the solver is unchanged; otherwise the search runs as written, a failure (such as the twin's on a 1-by-1 board) propagates, and a success returns the search's answer and stores it with its moves and solution in a solver marked attempted |
| Solving.IsSolvableIdempotent | Solver.java:62-69 | calling isSolvable on the solver that a successful call returned gives the same answer and solver |
| Solving.Create | Solver.java:21-28 | a null board is rejected with IllegalArgumentException; a 1-by-1 board makes the constructor throw IndexOutOfBoundsException; a created solver holds the board and has already attempted a solution |
| Solving.Moves | Solver.java:164-166 | returns the stored move count; what it holds after construction is stated by Solving.CreatedSolution |
| Solving.Solution | Solver.java:169-171 | returns the stored solution in iteration order; what it holds after construction is stated by Solving.CreatedSolution |
| Solving.CreatedSolution | Solver.java:163-171 | after construction, a solvable board's solution has moves plus one boards from the initial board to a goal, each step a neighbour; otherwise moves is 0 and the solution is empty |
| Solving.OneByOneThrows | Board.java:194-198 | the code as written throws on the 1-by-1 board [[0]], both in the search and in the constructor |
| Solving.OneByOneSolved | Solver.java:88-94 | a valid 1-by-1 board is solved in zero moves with itself as the only board of the solution |

## Left out

- `main`, `toString` and the file reading and printing of both classes are left out because they are I/O and presentation.
- `dimension` is modelled as `Boards.Dimension`. It is the length of the grid and has no contract to state.
- `cloneArray` and the constructor's `tiles.clone()` are left out because boards are immutable values here, so copying and aliasing do not arise.
- The `-1` caches of hamming and manhattan are left out because the measures are pure functions, which return the same value on every call.
- The internals of algs4 `MinPQ` and `Stack` are not visible. The queue pops the first minimal position. When several nodes compare equal, the heap may pop a different one, so the choice among equal nodes is not modelled.
- Java's 32-bit `int` is modelled as an unbounded integer. Overflow would need boards far larger than the search can handle.
- Whole-search termination, A* optimality and the parity argument are left out. The parity argument says exactly one of a board and its twin is solvable. These are mathematical results about the search, not contracts of the code.
- The unbounded loop runs on a step budget. A run that does not end within the budget returns `FuelExhausted`, which the source has no counterpart for.
- Solving.RunAStar: requires a valid board, which is a permutation of 0 .. n*n-1. The source does not check this, and its behaviour on malformed grids is not modelled.
- Solving.RunAStar: for n >= 2 its contract does not state that the answer is true, because that needs the parity theorem and termination.
- Solving.TwinRoot: for a 1-by-1 board it returns the board itself, where the source throws in `twin()`. This is the repaired behaviour used by `Solving.RunAStar`; the run as written is `Solving.RunAStarAsWritten`.
- `Iterable` is modelled as a sequence in iteration order.

## Findings

| source | as written | input that shows it | evidently intended | confidence | as-written member | corrected member |
|---|---|---|---|---|---|---|
| Board.java:194-198 | `twin()` picks row 1 when the blank is in row 0 and reads column 1. The solver calls it unconditionally before searching. | the 1-by-1 board [[0]] | a 1-by-1 board is already the goal and is solved in zero moves with itself as the solution | high, not executed | Solving.OneByOneThrows | Solving.OneByOneSolved |
