/** Termination of the greedy solver of swap_puzzle/solver.py:9-55.
    As written, the loop moves the smallest misplaced number up or down while its row
    is wrong and only then left or right. Moving up into its target row too early
    pushes an already placed smaller number out of place, and on the 2 x 2 board
    [[1, 3], [2, 4]] the loop swaps the same two cells back and forth for ever.
    Moving left or right first never disturbs a placed number, and that loop always
    ends with the sorted layout. */
module Termination {
  import opened Grids
  import opened Solver

  // ---------------------------------------------------------------------------
  // The loop as written cycles
  // ---------------------------------------------------------------------------

  /** The board on which the greedy loop never stops. */
  const Stuck: State := [[1, 3], [2, 4]]

  /** The board the loop reaches from Stuck, and from which it goes back. */
  const Flipped: State := [[2, 3], [1, 4]]

  /** A 2 x 2 board holding 1, 2, 3 and 4 once each is a permutation board. */
  lemma Perm2x2(a: int, b: int, c: int, d: int)
    requires 1 <= a <= 4 && 1 <= b <= 4 && 1 <= c <= 4 && 1 <= d <= 4
    requires a != b && a != c && a != d && b != c && b != d && c != d
    ensures IsPerm([[a, b], [c, d]], 2, 2)
  {
    var s := [[a, b], [c, d]];
    forall i1, j1, i2, j2 |
      0 <= i1 < |s| && 0 <= j1 < |s[i1]| && 0 <= i2 < |s| && 0 <= j2 < |s[i2]| && s[i1][j1] == s[i2][j2]
      ensures i1 == i2 && j1 == j2
    {
      assert i1 == 0 || i1 == 1;
      assert i2 == 0 || i2 == 1;
    }
  }

  /** Neither board of the cycle passes is_sorted, and both are permutation boards. */
  lemma CycleBoards()
    ensures IsPerm(Stuck, 2, 2) && IsPerm(Flipped, 2, 2)
    ensures !Sorted(Stuck) && !Sorted(Flipped)
  {
    Perm2x2(1, 3, 2, 4);
    Perm2x2(2, 3, 1, 4);
    assert Stuck[..1] == [[1, 3]] && Flipped[..1] == [[2, 3]];
    assert Flatten([[1, 3]]) == [1, 3] by {
      assert [[1, 3]][..0] == [];
    }
    assert Flatten([[2, 3]]) == [2, 3] by {
      assert [[2, 3]][..0] == [];
    }
    assert Flatten(Stuck)[1] > Flatten(Stuck)[2];
    assert Flatten(Flipped)[1] > Flatten(Flipped)[2];
  }

  /** The sorted 2 x 2 layout is neither board of the cycle. */
  lemma SortedStateOffCycle()
    ensures SortedState(2, 2) != Stuck && SortedState(2, 2) != Flipped
  {
    assert SortedState(2, 2)[0][1] == 2;
  }

  /** On Stuck the scan picks the number 2 in cell (1, 0). */
  lemma StuckPivot(v: int, i: int, j: int)
    requires IsPivot(Stuck, 2, 2, v, i, j)
    ensures (v, i, j) == (2, 1, 0)
  {
    assert Misplaced(Stuck, 2, 0, 1) && Misplaced(Stuck, 2, 1, 0);
    assert InGrid(2, 2, (1, 0)) && InGrid(2, 2, (0, 1));
  }

  /** On Flipped the scan picks the number 1 in cell (1, 0). */
  lemma FlippedPivot(v: int, i: int, j: int)
    requires IsPivot(Flipped, 2, 2, v, i, j)
    ensures (v, i, j) == (1, 1, 0)
  {
    assert Misplaced(Flipped, 2, 0, 0) && Misplaced(Flipped, 2, 1, 0);
    assert InGrid(2, 2, (1, 0)) && InGrid(2, 2, (0, 0));
  }

  /** Exchanging cells (1, 0) and (0, 0) turns either board of the cycle into the other. */
  lemma CycleExchange(s: State)
    requires s == Stuck || s == Flipped
    ensures Exchange(s, (1, 0), (0, 0)) == if s == Stuck then Flipped else Stuck
  {
    var t := Exchange(s, (1, 0), (0, 0));
    StateEq(t, if s == Stuck then Flipped else Stuck);
  }

  /** The loop's one move on Stuck brings the 2 up from cell (1, 0) and gives Flipped. */
  lemma StuckStep(p: SwapPair, t: State)
    requires IsNaiveStep(Stuck, 2, 2, p, t)
    ensures p == ((1, 0), (0, 0)) && t == Flipped
  {
    StuckPivot(Stuck[p.0.0][p.0.1], p.0.0, p.0.1);
    assert TargetCell(2, 2) == (0, 1);
    assert p == ((1, 0), (0, 0));
    CycleExchange(Stuck);
  }

  /** The loop's one move on Flipped brings the 1 up from cell (1, 0) and gives Stuck. */
  lemma FlippedStep(p: SwapPair, t: State)
    requires IsNaiveStep(Flipped, 2, 2, p, t)
    ensures p == ((1, 0), (0, 0)) && t == Stuck
  {
    FlippedPivot(Flipped[p.0.0][p.0.1], p.0.0, p.0.1);
    assert TargetCell(1, 2) == (0, 0);
    assert p == ((1, 0), (0, 0));
    CycleExchange(Flipped);
  }

  /** Every board a run from Stuck reaches is Stuck or Flipped. */
  lemma {:induction false} NaiveRunStaysOnCycle(boards: seq<State>, swaps: seq<SwapPair>, k: int)
    requires IsNaiveRun(boards, 2, 2, swaps) && boards[0] == Stuck
    requires 0 <= k < |boards|
    ensures boards[k] == Stuck || boards[k] == Flipped
    decreases k
  {
    if k > 0 {
      NaiveRunStaysOnCycle(boards, swaps, k - 1);
      assert IsNaiveStep(boards[k - 1], 2, 2, swaps[k - 1], boards[k]);
      if boards[k - 1] == Stuck {
        StuckStep(swaps[k - 1], boards[k]);
      } else {
        FlippedStep(swaps[k - 1], boards[k]);
      }
    }
  }

  /** Whatever the bound, the loop started on Stuck uses it all up without sorting
      the board: the source's loop, which has no bound, does not terminate. */
  method NaiveSolutionCycles(fuel: nat) returns (swaps: seq<SwapPair>, solved: bool)
    ensures !solved && |swaps| == fuel
  {
    CycleBoards();
    SortedStateOffCycle();
    var grid := new Grid(2, 2, Stuck);
    ghost var boards;
    swaps, solved, boards := NaiveSolution(grid, fuel);
    NaiveRunStaysOnCycle(boards, swaps, |swaps|);
  }

  // ---------------------------------------------------------------------------
  // The loop with left and right moves first terminates and sorts
  // ---------------------------------------------------------------------------

  /** One step from c towards t, left or right while the column is wrong, otherwise
      up or down: the two branches of solver.py:41-54 taken in the other order. */
  function FixedNextCell(c: Cell, t: Cell): (r: Cell)
    ensures c.1 != t.1 ==> r.0 == c.0
    ensures c.1 == t.1 ==> r.1 == c.1
    ensures c != t ==> Adjacent(c, r) && Manhattan(r, t) == Manhattan(c, t) - 1
    ensures c != t ==> forall m, n :: InGrid(m, n, c) && InGrid(m, n, t) ==> InGrid(m, n, r)
  {
    if c.1 != t.1 then
      if c.1 > t.1 then (c.0, c.1 - 1) else (c.0, c.1 + 1)
    else
      if c.0 > t.0 then (c.0 - 1, c.1) else (c.0 + 1, c.1)
  }

  /** On a permutation board that is not sorted, the scan's pick lies after its target
      in row-major order: every cell before the target holds its own smaller number. */
  lemma PivotAfterTarget(s: State, m: nat, n: nat, v: int, i: int, j: int)
    requires IsPerm(s, m, n) && !Sorted(s) && IsPivot(s, m, n, v, i, j)
    ensures Before(TargetCell(v, n), (i, j))
  {
    PivotIsSmallestMisplaced(s, m, n, v, i, j);
    var t := TargetCell(v, n);
    TargetCellIsHome(v, m, n, i, j);
    BeforeIndex((i, j), t, n);
    if !Before(t, (i, j)) {
      assert Before((i, j), t);
      var p := i * n + j;
      CellIndexBound(i, j, m, n);
      var c := PermHasEvery(s, m, n, p + 1);
      assert !Misplaced(s, n, c.0, c.1);
      DivModUnique(c.0, c.1, n);
      DivModUnique(i, j, n);
      assert false;
    }
  }

  /** Moving the pick one step with left and right first never passes before its target. */
  lemma FixedStepStaysAfter(c: Cell, t: Cell)
    requires Before(t, c)
    ensures !Before(FixedNextCell(c, t), t)
  {
  }

  /** One step of the corrected loop keeps every number below the pick in place, moves
      the pick one step closer to its target, and keeps the board a permutation. After
      it the board is sorted, or the next pick is a larger number, or it is the same
      number one step closer to its target. */
  lemma FixedProgress(s: State, m: nat, n: nat, v: int, i: int, j: int, v': int, i': int, j': int)
    requires IsPerm(s, m, n) && !Sorted(s) && IsPivot(s, m, n, v, i, j)
    requires var c := FixedNextCell((i, j), TargetCell(v, n));
      InGrid(m, n, c) && (var s' := Exchange(s, (i, j), c); !Sorted(s') && IsPivot(s', m, n, v', i', j'))
    ensures v < v' || (v == v' && Manhattan((i', j'), TargetCell(v, n)) < Manhattan((i, j), TargetCell(v, n)))
  {
    var t := TargetCell(v, n);
    var c := FixedNextCell((i, j), t);
    var s' := Exchange(s, (i, j), c);
    PivotIsSmallestMisplaced(s, m, n, v, i, j);
    PivotAfterTarget(s, m, n, v, i, j);
    FixedStepStaysAfter((i, j), t);
    ExchangeKeepsPerm(s, m, n, (i, j), c);
    PivotIsSmallestMisplaced(s', m, n, v', i', j');
    // The number moved into (i, j) is larger than v: a smaller one would be in place at c,
    // which lies before t.
    var w := s[c.0][c.1];
    if w < v {
      assert !Misplaced(s, n, c.0, c.1);
      BeforeIndex(c, t, n);
      assert false;
    }
    // Every number below v is still in place after the exchange.
    if v' == v {
      assert s'[c.0][c.1] == v;
    }
  }

  /** The corrected move from the scan's pick exchanges two neighbouring cells of the
      board and keeps it a permutation board. */
  lemma FixedMoveLegal(s: State, m: nat, n: nat, v: int, i: int, j: int)
    requires IsPerm(s, m, n) && !Sorted(s) && IsPivot(s, m, n, v, i, j)
    ensures var c := FixedNextCell((i, j), TargetCell(v, n));
      InGrid(m, n, c) && Adjacent((i, j), c) && IsPerm(Exchange(s, (i, j), c), m, n) &&
      SwapState(s, (i, j), c) == Ok(Exchange(s, (i, j), c))
  {
    PivotIsSmallestMisplaced(s, m, n, v, i, j);
    PivotAfterTarget(s, m, n, v, i, j);
    TargetCellIsHome(v, m, n, i, j);
    var c := FixedNextCell((i, j), TargetCell(v, n));
    assert InGrid(m, n, c);
    ExchangeKeepsPerm(s, m, n, (i, j), c);
  }

  /** One pass of the corrected loop body: swap the pick one step towards its target,
      left or right first, then check the board and scan it again when it is not sorted. */
  method FixedStep(grid: Grid, minimum: int, iMin: int, jMin: int)
    returns (move: SwapPair, solved: bool, next: int, iNext: int, jNext: int)
    requires grid.Valid() && IsPerm(grid.state, grid.m, grid.n) && !Sorted(grid.state)
    requires IsPivot(grid.state, grid.m, grid.n, minimum, iMin, jMin)
    modifies grid`state
    ensures move.0 == (iMin, jMin) && Adjacent(move.0, move.1)
    ensures InBounds(old(grid.state), move.0) && InBounds(old(grid.state), move.1)
    ensures grid.state == Exchange(old(grid.state), move.0, move.1)
    ensures IsPerm(grid.state, grid.m, grid.n)
    ensures solved == Sorted(grid.state)
    ensures !solved ==> (IsPivot(grid.state, grid.m, grid.n, next, iNext, jNext) && next <= grid.m * grid.n &&
      (minimum < next ||
       (minimum == next && Manhattan((iNext, jNext), TargetCell(next, grid.n)) < Manhattan((iMin, jMin), TargetCell(minimum, grid.n)))))
  {
    var m, n := grid.m, grid.n;
    ghost var before := grid.state;
    FixedMoveLegal(before, m, n, minimum, iMin, jMin);
    var target := TargetCell(minimum, n);
    var cell := FixedNextCell((iMin, jMin), target);
    move := ((iMin, jMin), cell);
    var outcome := grid.Swap(move.0, move.1);
    solved := grid.IsSorted();
    next, iNext, jNext := minimum, iMin, jMin;
    if !solved {
      next, iNext, jNext := FindPivot(grid.state, m, n);
      FixedProgress(before, m, n, minimum, iMin, jMin, next, iNext, jNext);
      PivotIsSmallestMisplaced(grid.state, m, n, next, iNext, jNext);
    }
  }

  /** Where the corrected loop stops: the trace replays to the final board, which is
      the default sorted layout. */
  lemma FixedRunEnds(boards: seq<State>, swaps: seq<SwapPair>, s: State, m: nat, n: nat)
    requires IsSwapPath(boards, swaps) && boards[|swaps|] == s
    requires IsPerm(s, m, n) && Sorted(s)
    ensures s == SortedState(m, n)
    ensures PairsFit(boards[0], swaps) && Replay(boards[0], swaps) == Completed(s)
  {
    SwapPathReplay(boards, swaps);
    SortedIsCanonical(s, m, n);
  }

  /** The corrected greedy loop: the scan, target and bookkeeping of solver.py:9-55 with
      the left-right move tried before the up-down move. It needs no bound: it always
      stops, with the board in the sorted layout. */
  method FixedSolution(grid: Grid) returns (swaps: seq<SwapPair>, ghost boards: seq<State>)
    requires grid.Valid() && IsPerm(grid.state, grid.m, grid.n)
    modifies grid`state
    ensures grid.Valid() && grid.state == SortedState(grid.m, grid.n)
    ensures IsSwapPath(boards, swaps) && boards[0] == old(grid.state) && boards[|swaps|] == grid.state
    ensures PairsFit(old(grid.state), swaps) && Replay(old(grid.state), swaps) == Completed(grid.state)
  {
    var m, n := grid.m, grid.n;
    swaps, boards := [], [grid.state];
    var solved := grid.IsSorted();
    var minimum, iMin, jMin := m * n + 1, 0, 0;
    if !solved {
      UnsortedIsNonEmpty(grid.state, m, n);
      minimum, iMin, jMin := FindPivot(grid.state, m, n);
      PivotIsSmallestMisplaced(grid.state, m, n, minimum, iMin, jMin);
    }
    ghost var dist := if solved then 0 else Manhattan((iMin, jMin), TargetCell(minimum, n));
    while !solved
      invariant IsPerm(grid.state, m, n)
      invariant solved == Sorted(grid.state)
      invariant !solved ==> IsPivot(grid.state, m, n, minimum, iMin, jMin) && 1 <= minimum <= m * n
      invariant !solved ==> dist == Manhattan((iMin, jMin), TargetCell(minimum, n))
      invariant minimum <= m * n + 1
      invariant IsSwapPath(boards, swaps) && boards[0] == old(grid.state) && boards[|swaps|] == grid.state
      decreases m * n + 1 - minimum, dist
    {
      var move, next, iNext, jNext;
      move, solved, next, iNext, jNext := FixedStep(grid, minimum, iMin, jMin);
      SwapPathSnoc(boards, swaps, move, grid.state);
      swaps, boards := swaps + [move], boards + [grid.state];
      if solved {
        minimum, dist := m * n + 1, 0;
      } else {
        minimum, iMin, jMin := next, iNext, jNext;
        dist := Manhattan((iMin, jMin), TargetCell(minimum, n));
      }
    }
    FixedRunEnds(boards, swaps, grid.state, m, n);
  }
}
