# Swap puzzle, modelled in Dafny

The swap puzzle is an m x n board holding the numbers 1..m*n. A move swaps two cells
that share a row or a column and are one step apart. The goal is the sorted
row-major layout `[[1, 2, …, n], [n+1, …], …]`. This project models the board and
the two solver routines that work without the state graph:

- `grids.dfy`, module `Grids`, models `swap_puzzle/grid.py`. A class `Grid` has the
  constant dimensions `m` and `n` and a field `state: seq<seq<int>>`. The
  constructor sets that field, with the default sorted layout for an empty initial
  state. `swap` (with its exact legality rule) and `swap_seq` update it in place.
  `is_sorted`, `to_hashable` and `generate_neighbours` only read it, and
  `from_hashable` builds a new grid. Each operation is proved against an
  independent definition:
  - the constructor against `SortedState`;
  - `is_sorted` against `Sorted`;
  - `swap` against `SwapState`, and `swap_seq` against `Replay`;
  - `to_hashable` and `from_hashable` against the state itself, through the round
    trip `HashableRoundTrip`;
  - `generate_neighbours` against `IsNeighbour`, and its per-direction step
    `TryDirection` against `AddDirection`.
  
  Lemmas about those definitions state what the source promises.
- `solver.dfy`, module `Solver`, models `swap_puzzle/solver.py`:
  - the greedy `get_naive_solution`: the scan for the smallest misplaced number,
    its target cell, and the step towards it;
  - `path_to_swaps`.
- `termination.dfy`, module `Termination`, proves that the greedy loop as written
  does not terminate on `[[1, 3], [2, 4]]`. It then proves that the same loop,
  moving left and right before up and down, always stops with the sorted layout.
  See "## Findings".

Three behaviours of the code are worth stating outright, and the model follows them:

- `swap` raises only when the two cells differ in both row and column. Its
  docstring says it "Raises an exception if the swap is not allowed"
  (`swap_puzzle/grid.py:75`). In the code, two cells of one row or one column
  that are two or more steps apart make a silent no-op, not an error. See
  `Grids.SwapFarIsNoOp`.
- `generate_neighbours` returns a list. It appends each neighbour board the first
  time it meets it, so no board appears twice.
- `get_naive_solution`'s docstring says it "Solves the grid" with complexity
  O((n*m)^2) (`swap_puzzle/solver.py:10-11`). The loop as written does not
  terminate on `[[1, 3], [2, 4]]`; see "## Findings".

## Model

| member | source | states |
|---|---|---|
| Grids.SortedState | swap_puzzle/grid.py:39-40 | the default board has m rows of n cells, and cell (i, j) holds i*n + j + 1 |
| Grids.SortedStateIsSorted | swap_puzzle/grid.py:39-41 | the default board holds each of 1..m*n exactly once and passes is_sorted |
| Grids.FlattenAt | swap_puzzle/grid.py:65-67 | the list L that is_sorted builds from an m x n board has m*n elements, and its element i*n + j is cell (i, j) |
| Grids.SortedIsCanonical | swap_puzzle/grid.py:64-71 | a board that holds 1..m*n once each and passes is_sorted is the default board |
| Grids.CanonicalIsSorted | swap_puzzle/grid.py:64-71 | the default board passes is_sorted |
| Grids.SortedIffCanonical | swap_puzzle/grid.py:64-71 | on a board holding 1..m*n once each, is_sorted holds if and only if the board is the default board |
| Grids.Grid.constructor | swap_puzzle/grid.py:24-41 | stores m and n. With an empty initial state the board is the default sorted board; otherwise it is the given state. The grid is valid (m rows of n cells) when the state is the default one or the given state has that shape |
| Grids.Grid.IsSorted | swap_puzzle/grid.py:64-71 | the answer is whether the concatenation of the first m rows never decreases, which is Sorted of the whole board when it has exactly m rows |
| Grids.Exchange | swap_puzzle/grid.py:84 | the board keeps its shape; the two cells trade numbers and every other cell keeps its number |
| Grids.SwapState | swap_puzzle/grid.py:82-89 | the swap raises NotAdjacent(cell1, cell2) exactly when both coordinates differ. An equal or one-step pair exchanges the two cells. Any other pair leaves the board as it is |
| Grids.Grid.Swap | swap_puzzle/grid.py:73-89 | the new state is SwapState of the old one and the call reports Pass. On a raising pair it reports the NotAdjacent error and the state is unchanged |
| Grids.SwapExchangesExactly | swap_puzzle/grid.py:82-87 | a swap of two in-bounds neighbours succeeds, exchanges their numbers and leaves every other cell alone |
| Grids.SwapSelfIsNoOp | swap_puzzle/grid.py:82-84 | swapping a cell with itself succeeds and changes nothing |
| Grids.SwapTwiceRestores | swap_puzzle/grid.py:82-87 | applying the same legal swap twice gives back the original board |
| Grids.SwapDiagonalRaises | swap_puzzle/grid.py:88-89 | cells in different rows and columns raise NotAdjacent, whatever the board |
| Grids.SwapFarIsNoOp | swap_puzzle/grid.py:82-87 | cells two or more steps apart in one row or one column are a silent no-op |
| Grids.ExchangeKeepsPerm | swap_puzzle/grid.py:84-87 | exchanging two cells keeps a board a permutation of 1..m*n |
| Grids.Replay | swap_puzzle/grid.py:102-104 | the run of a swap list keeps the board's shape; when it stops, it stops at a swap that raises |
| Grids.ReplayAppend | swap_puzzle/grid.py:102-104 | running a + b is running a and then b from where a ended, unless a raises, in which case a + b stops at the same swap |
| Grids.ReplayStopped | swap_puzzle/grid.py:102-104 | when swap k raises, the board left behind is the result of running the swaps before k |
| Grids.ReplaySnoc | swap_puzzle/grid.py:102-104 | one more swap after a list that ran through either completes with that swap applied or stops at it |
| Grids.Grid.SwapSeq | swap_puzzle/grid.py:102-104 | the swaps are applied in list order. The final state and the outcome are those of Replay: Pass with the completed board, or the error of the first raising swap with the earlier swaps applied |
| Grids.SwapPathReplay | swap_puzzle/grid.py:102-104 | a trace of boards of which each is the one before with two neighbours exchanged replays, via swap_seq of its pairs, from its first board to its last |
| Grids.Grid.ToHashable | swap_puzzle/grid.py:146-150 | the hashable value is the grid's state, with the grid's m rows of n cells when the grid is valid; reading it does not change the grid |
| Grids.Grid.FromHashable | swap_puzzle/grid.py:152-160 | a value with rows gives a fresh grid with that many rows and as many columns as the first row, whose state is the value. A value without rows gives the error case, null |
| Grids.HashableRoundTrip | swap_puzzle/grid.py:146-160 | from_hashable(to_hashable(g)) is a fresh grid with g's dimensions and cells, and g is unchanged. A grid without rows gives the error case |
| Grids.AddDirectionStep | swap_puzzle/grid.py:193-199 | trying one more direction from a cell keeps the list made only of neighbours and without repeats, and adds that direction's neighbour |
| Grids.CoversAll | swap_puzzle/grid.py:191-200 | once every cell's four directions have been tried, every board one legal exchange of neighbours away is in the list |
| Grids.Grid.TryDirection | swap_puzzle/grid.py:193-199 | swapping a copy of the grid in one direction and keeping its value unless already listed is AddDirection of the list, and the grid is not changed |
| Grids.Grid.GenerateNeighbours | swap_puzzle/grid.py:186-200 | a board is in the result if and only if it is the state with one in-bounds pair of neighbours exchanged, and no board is listed twice |
| Solver.FindPivot | swap_puzzle/solver.py:29-37 | the scan returns the last cell's number or, when smaller, the smallest misplaced number, and the first cell holding it in row-major order |
| Solver.TargetCell | swap_puzzle/solver.py:39-40 | the target cell (r, c) of v satisfies r*n + c + 1 == v with 0 <= c < n |
| Solver.TargetCellIsHome | swap_puzzle/solver.py:39-40 | a number of 1..m*n has its target on the board, and a cell is its target if and only if the default board puts it there |
| Solver.NextCell | swap_puzzle/solver.py:41-54 | the neighbour chosen keeps the column while the row is wrong and keeps the row otherwise. It is adjacent, lies on the board, and is one step closer to the target |
| Solver.UnsortedIsNonEmpty | swap_puzzle/solver.py:27 | a board that is_sorted rejects has at least one row and one column, so the scan's start cell exists |
| Solver.UnsortedHasMisplaced | swap_puzzle/solver.py:27-37 | a permutation board that is not sorted has a misplaced cell |
| Solver.PivotIsSmallestMisplaced | swap_puzzle/solver.py:29-37 | on an unsorted permutation board the scan's pick is misplaced, lies in 1..m*n, and every smaller number is in place |
| Solver.NaiveStep | swap_puzzle/solver.py:39-54 | the pick's target is another cell on the board. The chosen neighbour is adjacent and one step closer, moving vertically while the row is wrong. The exchange keeps a permutation board and moves the pick into that neighbour |
| Solver.NaiveMoveLegal | swap_puzzle/solver.py:39-54 | the loop's move from the pick is a greedy step on two in-bounds cells; swap accepts it and exchanges them, and the board stays a permutation |
| Solver.NaiveRunReplay | swap_puzzle/solver.py:26-55 | the recorded swaps of a run of the greedy loop fit its first board and replay from it to its last |
| Solver.PickMove | swap_puzzle/solver.py:29-54 | the chosen move is the greedy move for the scan's pick, swap accepts it, and it keeps the board a permutation |
| Solver.NaiveSolution | swap_puzzle/solver.py:9-55 | on a permutation board the loop keeps a permutation board and performs a recorded run of greedy moves. If it stops because the board is sorted, the board is the default layout. Otherwise it has made fuel moves on a board still unsorted. The returned swaps replay to the final board |
| Solver.TransposesChanged | swap_puzzle/solver.py:103 | on a board with distinct numbers, the cells whose numbers changed in an exchange are exactly the two exchanged cells |
| Solver.TransposesUnique | swap_puzzle/solver.py:99-110 | the exchanged pair, first cell first, is determined by the two boards |
| Solver.MatchMoved | swap_puzzle/solver.py:105-109 | for a changed cell of an exchange, the match records the pair (first, second) at the first cell and nothing at the second |
| Solver.ScanTransition | swap_puzzle/solver.py:101-109 | for two boards one exchange apart, the scan of one transition records exactly that exchange, first cell first |
| Solver.PathToSwaps | swap_puzzle/solver.py:84-110 | fewer than two boards give no swaps. On a path of distinct-numbered boards each one exchange away from the last, swap k is the pair exchanged between boards k and k + 1 |
| Solver.PathSwapsReplay | swap_puzzle/solver.py:78-79 | when every exchange of such a path is between neighbours, swap_seq of the swaps turns its first board into its last |
| Termination.CycleBoards | swap_puzzle/solver.py:27 | [[1, 3], [2, 4]] and [[2, 3], [1, 4]] are permutation boards and neither passes is_sorted |
| Termination.StuckPivot | swap_puzzle/solver.py:29-37 | on [[1, 3], [2, 4]] the scan picks the 2 in cell (1, 0) |
| Termination.FlippedPivot | swap_puzzle/solver.py:29-37 | on [[2, 3], [1, 4]] the scan picks the 1 in cell (1, 0) |
| Termination.CycleExchange | swap_puzzle/solver.py:43-44 | exchanging cells (1, 0) and (0, 0) turns either of the two boards into the other |
| Termination.StuckStep | swap_puzzle/solver.py:39-54 | the loop's only move on [[1, 3], [2, 4]] is ((1, 0), (0, 0)), and it gives [[2, 3], [1, 4]] |
| Termination.FlippedStep | swap_puzzle/solver.py:39-54 | the loop's only move on [[2, 3], [1, 4]] is ((1, 0), (0, 0)), and it gives [[1, 3], [2, 4]] |
| Termination.NaiveRunStaysOnCycle | swap_puzzle/solver.py:26-55 | every board a run of the loop reaches from [[1, 3], [2, 4]] is one of those two boards |
| Termination.NaiveSolutionCycles | swap_puzzle/solver.py:26-55 | started on [[1, 3], [2, 4]] the loop uses up any bound without sorting the board |
| Termination.FixedNextCell | swap_puzzle/solver.py:41-54 | the corrected neighbour keeps the row while the column is wrong and keeps the column otherwise. It is adjacent, lies on the board, and is one step closer to the target |
| Termination.PivotAfterTarget | swap_puzzle/solver.py:29-40 | on an unsorted permutation board the pick lies after its target in row-major order |
| Termination.FixedProgress | swap_puzzle/solver.py:39-54 | after one corrected move that leaves the board unsorted, the next pick is a larger number, or the same number strictly closer to its target |
| Termination.FixedMoveLegal | swap_puzzle/solver.py:39-54 | the corrected move is an in-bounds exchange of neighbours that swap accepts, and it keeps the board a permutation |
| Termination.FixedStep | swap_puzzle/solver.py:29-54 | one corrected iteration moves the pick to an adjacent cell. The new state is the old one with that pair exchanged, still a permutation. `solved` tells whether it is sorted, and if not, the next pick is later in the lexicographic measure |
| Termination.FixedRunEnds | swap_puzzle/solver.py:26-55 | when the corrected loop stops, its board is the default layout and its swaps replay to it from the first board |
| Termination.FixedSolution | swap_puzzle/solver.py:9-55 | the corrected loop terminates on every permutation board without a bound. It ends on the default layout, and its recorded trace of neighbour exchanges replays from the original board to it |

## Left out

- `grid_from_file`, `display`, `__str__` and `__repr__`: file input, plotting and
  text output.
- `generate_all_possible_grid`, `get_bfs_solution` and the `Graph` class
  (`graph.py` is not part of this model): the exhaustive enumeration of all
  (m*n)! boards and the breadth-first search. Only the step that turns a path of
  boards into swaps (`path_to_swaps`) and the replay of those swaps are modelled.
- Python's negative indices: the model's preconditions keep every index the source
  reads on the board. `swap` requires its cells in bounds only when it reads them,
  which is for an equal or a one-step pair. `is_sorted` requires at least m rows.
  The greedy solver and `path_to_swaps` require boards of uniform shape. Python
  would wrap around, or raise IndexError, where these preconditions fail.
- Grids.Grid.SwapSeq: the precondition `PairsFit` puts every exchanging pair of
  the list on the board. That includes pairs after the first raising swap, which
  `swap_seq` never reaches, so the precondition asks more than the source reads.
- Aliasing: the constructor keeps the caller's list, and `swap` then changes it for
  both owners. The model's state is a value, so updates made through a second
  owner are not modelled.
- Solver.NaiveSolution: the source loop has no bound. The model adds a `fuel`
  bound on the number of swaps and proves partial correctness only, because the
  loop as written does not always terminate (see "## Findings").
- Solver.NaiveSolution, Termination.FixedSolution: the ghost out-parameter `boards`
  is the trace of boards the proof uses. The source returns only the swaps.
- Grids.Grid.GenerateNeighbours: the contract states the contents of the result
  and that it has no repeats, not the order in which the source appends
  neighbours.
- Solver.PathToSwaps: the contract states the output only for paths whose steps
  each exchange two cells of boards with distinct numbers, as the path from a
  search over permutations is. For other paths it says only that fewer than two
  boards give no swaps.
- Hashing: `to_hashable`'s tuple of tuples is modelled as the same
  `seq<seq<int>>`, and no hash is computed. The round trip through
  `from_hashable` is stated by Grids.HashableRoundTrip.
- The `O((m*n)^2)` bound on the number of greedy swaps is not stated.
  FixedSolution proves termination through a lexicographic measure, not a count.

## Findings

| source | as written | input that shows it | evidently intended | confidence | as-written member | corrected member |
|---|---|---|---|---|---|---|
| swap_puzzle/solver.py:41-54 | the loop moves the smallest misplaced number vertically first. Entering its target row from below, it can push an already placed smaller number out of place | `[[1, 3], [2, 4]]`: the 2 at (1, 0) is swapped up with the 1, which gives `[[2, 3], [1, 4]]`; the 1 is then swapped back up, which gives `[[1, 3], [2, 4]]` again, for ever | the loop terminates with the sorted board, as its docstring and the `O((n*m)^2)` remark promise. Moving horizontally first achieves this | not executed | Termination.NaiveSolutionCycles | Termination.FixedSolution |
