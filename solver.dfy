/** The two solver routines of swap_puzzle/solver.py that work without the state graph:
    the greedy solver `get_naive_solution` and `path_to_swaps`, which turns a path of
    boards into the swaps between them. */
module Solver {
  import opened Grids

  // ---------------------------------------------------------------------------
  // The greedy solver (solver.py:9-55)
  // ---------------------------------------------------------------------------

  /** The test of solver.py:34: cell (i, j) does not hold the number the sorted layout puts there. */
  predicate Misplaced(s: State, n: int, i: int, j: int)
    requires InBounds(s, (i, j))
  {
    s[i][j] != i * n + j + 1
  }

  function Manhattan(a: Cell, b: Cell): nat {
    Abs(a.0 - b.0) + Abs(a.1 - b.1)
  }

  /** (v, i, j) is what the scan of solver.py:29-37 leaves in (minimum, i_min, j_min):
      it starts from the last cell and keeps the first misplaced cell of smallest value
      below the current minimum, so v is the smaller of the last cell's number and the
      smallest misplaced number, and (i, j) is the first cell holding it. */
  ghost predicate IsPivot(s: State, m: nat, n: nat, v: int, i: int, j: int) {
    Rect(s, m, n) && m >= 1 && n >= 1 && InGrid(m, n, (i, j)) && v == s[i][j] &&
    v <= s[m - 1][n - 1] &&
    (forall a, b :: InGrid(m, n, (a, b)) && Misplaced(s, n, a, b) ==> v <= s[a][b]) &&
    ((i, j) == (m - 1, n - 1) ||
     (Misplaced(s, n, i, j) && v < s[m - 1][n - 1] &&
      forall a, b :: InGrid(m, n, (a, b)) && Before((a, b), (i, j)) && Misplaced(s, n, a, b) ==> v < s[a][b]))
  }

  /** The scan's state after visiting the cells before `upto`. */
  ghost predicate ScannedTo(s: State, m: nat, n: nat, v: int, i: int, j: int, upto: Cell) {
    Rect(s, m, n) && m >= 1 && n >= 1 && InGrid(m, n, (i, j)) && v == s[i][j] &&
    v <= s[m - 1][n - 1] &&
    (forall a, b :: InGrid(m, n, (a, b)) && Before((a, b), upto) && Misplaced(s, n, a, b) ==> v <= s[a][b]) &&
    ((i, j) == (m - 1, n - 1) ||
     (Misplaced(s, n, i, j) && v < s[m - 1][n - 1] && Before((i, j), upto) &&
      forall a, b :: InGrid(m, n, (a, b)) && Before((a, b), (i, j)) && Misplaced(s, n, a, b) ==> v < s[a][b]))
  }

  /** solver.py:29-37: the row-major scan for the smallest misplaced number. */
  method FindPivot(s: State, m: nat, n: nat) returns (minimum: int, iMin: int, jMin: int)
    requires Rect(s, m, n) && m >= 1 && n >= 1
    ensures IsPivot(s, m, n, minimum, iMin, jMin)
  {
    minimum, iMin, jMin := s[m - 1][n - 1], m - 1, n - 1;
    var i := 0;
    while i < m
      invariant 0 <= i <= m
      invariant ScannedTo(s, m, n, minimum, iMin, jMin, (i, 0))
    {
      var j := 0;
      while j < n
        invariant 0 <= j <= n
        invariant ScannedTo(s, m, n, minimum, iMin, jMin, (i, j))
      {
        if s[i][j] < minimum && s[i][j] != i * n + j + 1 {
          minimum, iMin, jMin := s[i][j], i, j;
        }
        j := j + 1;
      }
      i := i + 1;
    }
  }

  /** solver.py:39-40: the cell where v belongs in the sorted layout.
      For the positive divisor n, Dafny's / and % are Python's // and %. */
  function TargetCell(v: int, n: nat): (t: Cell)
    requires n >= 1
    ensures t.0 * n + t.1 + 1 == v && 0 <= t.1 < n
  {
    ((v - 1) / n, (v - 1) % n)
  }

  /** A number of 1..m*n belongs inside the m x n board, and (i, j) is its
      target exactly when (i, j) holds it in the sorted layout. */
  lemma TargetCellIsHome(v: int, m: nat, n: nat, i: int, j: int)
    requires 1 <= v <= m * n && InGrid(m, n, (i, j))
    ensures InGrid(m, n, TargetCell(v, n))
    ensures TargetCell(v, n) == (i, j) <==> v == i * n + j + 1
  {
    CellOfIndex(v - 1, m, n);
    DivModUnique(i, j, n);
  }

  /** solver.py:41-54: one step from c towards t, up or down while the row is
      wrong, otherwise left or right. */
  function NextCell(c: Cell, t: Cell): (r: Cell)
    ensures c.0 != t.0 ==> r.1 == c.1
    ensures c.0 == t.0 ==> r.0 == c.0
    ensures c != t ==> Adjacent(c, r) && Manhattan(r, t) == Manhattan(c, t) - 1
    ensures c != t ==> forall m, n :: InGrid(m, n, c) && InGrid(m, n, t) ==> InGrid(m, n, r)
  {
    if c.0 != t.0 then
      if c.0 > t.0 then (c.0 - 1, c.1) else (c.0 + 1, c.1)
    else
      if c.1 > t.1 then (c.0, c.1 - 1) else (c.0, c.1 + 1)
  }

  /** The swap one iteration of the greedy loop applies and records, for the pivot (i, j). */
  function NaiveMove(s: State, n: nat, i: int, j: int): SwapPair
    requires n >= 1 && InBounds(s, (i, j))
  {
    ((i, j), NextCell((i, j), TargetCell(s[i][j], n)))
  }

  /** A board that is_sorted rejects has at least one row and one column. */
  lemma UnsortedIsNonEmpty(s: State, m: nat, n: nat)
    requires Rect(s, m, n) && !Sorted(s)
    ensures m >= 1 && n >= 1
  {
    FlattenAt(s, m, n);
  }

  /** A permutation board that is_sorted rejects has a misplaced cell. */
  lemma UnsortedHasMisplaced(s: State, m: nat, n: nat) returns (a: int, b: int)
    requires IsPerm(s, m, n) && !Sorted(s)
    ensures InGrid(m, n, (a, b)) && Misplaced(s, n, a, b)
  {
    if forall a, b :: InGrid(m, n, (a, b)) ==> !Misplaced(s, n, a, b) {
      forall a, b | 0 <= a < |s| && 0 <= b < |s[a]| ensures s[a][b] == SortedState(m, n)[a][b] {
        assert InGrid(m, n, (a, b));
      }
      StateEq(s, SortedState(m, n));
      CanonicalIsSorted(m, n);
      assert false;
    }
    a, b :| InGrid(m, n, (a, b)) && Misplaced(s, n, a, b);
  }

  /** On a permutation board that is not sorted, the scan's pick is a misplaced
      number, so it is the smallest misplaced number and every smaller number is in
      place (solver.py:29-37). */
  lemma PivotIsSmallestMisplaced(s: State, m: nat, n: nat, v: int, i: int, j: int)
    requires IsPerm(s, m, n) && !Sorted(s) && IsPivot(s, m, n, v, i, j)
    ensures Misplaced(s, n, i, j) && 1 <= v <= m * n
    ensures forall a, b :: InGrid(m, n, (a, b)) && s[a][b] < v ==> !Misplaced(s, n, a, b)
  {
    var a, b := UnsortedHasMisplaced(s, m, n);
    if (i, j) == (m - 1, n - 1) {
      if s[a][b] == v {
        assert (a, b) == (i, j);
      } else {
        assert v < s[a][b] <= m * n;
        assert (m - 1) * n + (n - 1) + 1 == m * n;
      }
    }
  }

  /** One iteration of the greedy loop on a permutation board that is not sorted
      moves the pick one legal step closer to its target: vertically while its row is
      wrong, otherwise horizontally. The board stays a permutation (solver.py:39-54). */
  lemma NaiveStep(s: State, m: nat, n: nat, v: int, i: int, j: int)
    requires IsPerm(s, m, n) && !Sorted(s) && IsPivot(s, m, n, v, i, j)
    ensures var t := TargetCell(v, n);
      InGrid(m, n, t) && t != (i, j)
    ensures var t := TargetCell(v, n); var c := NextCell((i, j), t);
      InGrid(m, n, c) && Adjacent((i, j), c) && Manhattan(c, t) == Manhattan((i, j), t) - 1 &&
      (i != t.0 ==> c.1 == j) && (i == t.0 ==> c.0 == i)
    ensures var c := NextCell((i, j), TargetCell(v, n));
      InGrid(m, n, c) && IsPerm(Exchange(s, (i, j), c), m, n) && Exchange(s, (i, j), c)[c.0][c.1] == v
  {
    PivotIsSmallestMisplaced(s, m, n, v, i, j);
    var t := TargetCell(v, n);
    TargetCellIsHome(v, m, n, i, j);
    var c := NextCell((i, j), t);
    assert InGrid(m, n, c);
    ExchangeKeepsPerm(s, m, n, (i, j), c);
  }

  /** One move of the greedy loop on board `s`: the board is not sorted, the first
      cell of `p` is the scan's pick, `p` is the move the loop computes from it, and it
      exchanges two neighbouring cells of the board. */
  ghost predicate IsNaiveMove(s: State, m: nat, n: nat, p: SwapPair) {
    !Sorted(s) && InBounds(s, p.0) && InBounds(s, p.1) && Adjacent(p.0, p.1) &&
    IsPivot(s, m, n, s[p.0.0][p.0.1], p.0.0, p.0.1) && p == NaiveMove(s, n, p.0.0, p.0.1)
  }

  /** Move `p` is a greedy move on `s` and `t` is the board it leads to. */
  ghost predicate IsNaiveStep(s: State, m: nat, n: nat, p: SwapPair, t: State) {
    IsNaiveMove(s, m, n, p) && t == Exchange(s, p.0, p.1)
  }

  /** The greedy loop's record: `boards[k]` is the board before swap k and
      `boards[k + 1]` the board after it, and each swap is the move the loop makes on
      the board it has reached. */
  ghost predicate IsNaiveRun(boards: seq<State>, m: nat, n: nat, swaps: seq<SwapPair>) {
    |boards| == |swaps| + 1 &&
    forall k :: 0 <= k < |swaps| ==> IsNaiveStep(boards[k], m, n, swaps[k], boards[k + 1])
  }

  /** A run extended by one more move of the loop on the board the run reached. */
  lemma NaiveRunSnoc(boards: seq<State>, m: nat, n: nat, swaps: seq<SwapPair>, p: SwapPair, t: State)
    requires IsNaiveRun(boards, m, n, swaps) && IsNaiveStep(boards[|swaps|], m, n, p, t)
    ensures IsNaiveRun(boards + [t], m, n, swaps + [p])
  {
    var boards', swaps' := boards + [t], swaps + [p];
    forall k | 0 <= k < |swaps'| ensures IsNaiveStep(boards'[k], m, n, swaps'[k], boards'[k + 1]) {
      assert boards'[k] == boards[k];
      if k < |swaps| {
        assert swaps'[k] == swaps[k] && boards'[k + 1] == boards[k + 1];
      }
    }
  }

  /** A run replays: its swaps all fit the first board and replaying them gives the last. */
  lemma NaiveRunReplay(boards: seq<State>, m: nat, n: nat, swaps: seq<SwapPair>)
    requires IsNaiveRun(boards, m, n, swaps)
    ensures PairsFit(boards[0], swaps) && Replay(boards[0], swaps) == Completed(boards[|swaps|])
  {
    assert IsSwapPath(boards, swaps) by {
      forall k | 0 <= k < |swaps|
        ensures InBounds(boards[k], swaps[k].0) && InBounds(boards[k], swaps[k].1) && Adjacent(swaps[k].0, swaps[k].1) &&
          boards[k + 1] == Exchange(boards[k], swaps[k].0, swaps[k].1)
      {
        assert IsNaiveStep(boards[k], m, n, swaps[k], boards[k + 1]);
      }
    }
    SwapPathReplay(boards, swaps);
  }

  /** The move the loop computes from the scan's pick is a legal greedy move: a swap
      that exchanges two neighbouring cells and keeps the board a permutation. */
  lemma NaiveMoveLegal(s: State, m: nat, n: nat, v: int, i: int, j: int)
    requires IsPerm(s, m, n) && !Sorted(s) && IsPivot(s, m, n, v, i, j)
    ensures var p := NaiveMove(s, n, i, j);
      InBounds(s, p.0) && InBounds(s, p.1) && IsNaiveStep(s, m, n, p, Exchange(s, p.0, p.1)) && IsPerm(Exchange(s, p.0, p.1), m, n) &&
      SwapState(s, p.0, p.1) == Ok(Exchange(s, p.0, p.1))
  {
    NaiveStep(s, m, n, v, i, j);
  }

  /** solver.py:29-54, the part of the loop body that chooses the swap on a
      permutation board that is not sorted: find the pick and the next cell on its
      way to its target. The board is only read. */
  method PickMove(s: State, m: nat, n: nat) returns (move: SwapPair)
    requires IsPerm(s, m, n) && !Sorted(s)
    ensures IsNaiveMove(s, m, n, move)
    ensures IsPerm(Exchange(s, move.0, move.1), m, n)
    ensures SwapState(s, move.0, move.1) == Ok(Exchange(s, move.0, move.1))
  {
    UnsortedIsNonEmpty(s, m, n);
    var minimum, iMin, jMin := FindPivot(s, m, n);
    NaiveMoveLegal(s, m, n, minimum, iMin, jMin);
    var target := TargetCell(minimum, n);
    var next := NextCell((iMin, jMin), target);
    move := ((iMin, jMin), next);
  }

  /** solver.py:9-55. The source loops until the board is sorted; here the loop also
      stops after `fuel` swaps, and `solved` tells which of the two ended it.
      Partial correctness: when it ends because is_sorted holds, the board is the
      sorted layout; `boards` records the board before and after every swap, and
      replaying the returned swaps on the original board gives the final board. */
  method NaiveSolution(grid: Grid, fuel: nat) returns (swaps: seq<SwapPair>, solved: bool, ghost boards: seq<State>)
    requires grid.Valid() && IsPerm(grid.state, grid.m, grid.n)
    modifies grid`state
    ensures grid.Valid() && IsPerm(grid.state, grid.m, grid.n)
    ensures solved ==> grid.state == SortedState(grid.m, grid.n)
    ensures !solved ==> |swaps| == fuel && !Sorted(grid.state)
    ensures IsNaiveRun(boards, grid.m, grid.n, swaps) &&
      boards[0] == old(grid.state) && boards[|swaps|] == grid.state
    ensures PairsFit(old(grid.state), swaps) && Replay(old(grid.state), swaps) == Completed(grid.state)
  {
    var m, n := grid.m, grid.n;
    swaps := [];
    boards := [grid.state];
    solved := grid.IsSorted();
    while !solved && |swaps| < fuel
      invariant IsPerm(grid.state, m, n)
      invariant solved == Sorted(grid.state)
      invariant IsNaiveRun(boards, m, n, swaps)
      invariant boards[0] == old(grid.state) && boards[|swaps|] == grid.state
      invariant |swaps| <= fuel
      decreases fuel - |swaps|
    {
      var move := PickMove(grid.state, m, n);
      var outcome := grid.Swap(move.0, move.1);
      NaiveRunSnoc(boards, m, n, swaps, move, grid.state);
      swaps := swaps + [move];
      boards := boards + [grid.state];
      solved := grid.IsSorted();
    }
    NaiveRunReplay(boards, m, n, swaps);
    if solved {
      SortedIsCanonical(grid.state, m, n);
    }
  }

  // ---------------------------------------------------------------------------
  // path_to_swaps (solver.py:84-110)
  // ---------------------------------------------------------------------------

  /** Number of columns of a board, read from its first row as the source does. */
  function Cols(s: State): nat {
    if |s| == 0 then 0 else |s[0]|
  }

  /** Every board of the path has the rows and columns of the first. */
  predicate UniformShape(path: seq<State>) {
    forall k :: 0 <= k < |path| ==> Rect(path[k], |path[0]|, Cols(path[0]))
  }

  /** `b` is `a` with the numbers of cells p and q exchanged, p coming first in row-major order. */
  ghost predicate Transposes(a: State, b: State, p: Cell, q: Cell) {
    InBounds(a, p) && InBounds(a, q) && Before(p, q) && b == Exchange(a, p, q)
  }

  /** `b` is `a` with two cells exchanged. */
  ghost predicate IsTransposition(a: State, b: State) {
    exists p, q :: Transposes(a, b, p, q)
  }

  /** A path of boards with distinct numbers, each one exchange of two cells away from the one before. */
  ghost predicate TranspositionPath(path: seq<State>) {
    UniformShape(path) &&
    (forall k :: 0 <= k < |path| ==> Distinct(path[k])) &&
    forall k :: 0 < k < |path| ==> IsTransposition(path[k - 1], path[k])
  }

  /** The two cells an exchange touches are exactly the cells whose numbers differ. */
  lemma TransposesChanged(a: State, b: State, p: Cell, q: Cell, c: Cell)
    requires Distinct(a) && Transposes(a, b, p, q) && InBounds(a, c)
    ensures a[c.0][c.1] != b[c.0][c.1] <==> c == p || c == q
  {
  }

  /** The exchanged pair is determined by the two boards. */
  lemma TransposesUnique(a: State, b: State, p: Cell, q: Cell, p': Cell, q': Cell)
    requires Distinct(a) && Transposes(a, b, p, q) && Transposes(a, b, p', q')
    ensures p == p' && q == q'
  {
    TransposesChanged(a, b, p, q, p');
    TransposesChanged(a, b, p, q, q');
    TransposesChanged(a, b, p', q', p);
  }

  /** solver.py:105-109 for one changed cell c of board b (a being the board before it):
      look up where its number was in a and record (c, that cell) unless the reverse
      pair was recorded already. When b is a with p and q exchanged, this records
      (p, q) at p and nothing at q. */
  method MatchMoved(a: State, b: State, c: Cell, solution: seq<SwapPair>,
                    ghost valid: bool, ghost p: Cell, ghost q: Cell) returns (result: seq<SwapPair>)
    requires |b| >= 1 && Rect(b, |b|, |b[0]|) && Rect(a, |b|, |b[0]|) && InBounds(b, c)
    requires valid ==> Distinct(a) && Transposes(a, b, p, q) && (c == p || c == q)
    requires valid ==> forall x :: x in solution ==> Before(x.0, x.1)
    requires valid && c == q ==> (p, q) in solution
    ensures valid ==> result == solution + (if c == p then [(p, q)] else [])
  {
    result := solution;
    var destLine := 0;
    while destLine < |b|
      invariant 0 <= destLine <= |b|
      invariant valid ==> result == solution + (if c == p && q.0 < destLine then [(p, q)] else [])
    {
      var destColumn := 0;
      while destColumn < |b[0]|
        invariant 0 <= destColumn <= |b[0]|
        invariant valid ==> result == solution + (if c == p && Before(q, (destLine, destColumn)) then [(p, q)] else [])
      {
        if b[c.0][c.1] == a[destLine][destColumn] {
          if valid {
            TransposesChanged(a, b, p, q, c);
            assert (destLine, destColumn) == (if c == p then q else p);
          }
          if !(((destLine, destColumn), c) in result) {
            result := result + [(c, (destLine, destColumn))];
          }
        }
        destColumn := destColumn + 1;
      }
      destLine := destLine + 1;
    }
  }

  /** solver.py:101-109 for one transition from board a to board b: scan b in row-major
      order and handle every cell whose number changed. When b is a with p and q
      exchanged (p first), this records exactly (p, q). */
  method ScanTransition(a: State, b: State, solution: seq<SwapPair>,
                        ghost valid: bool, ghost p: Cell, ghost q: Cell) returns (result: seq<SwapPair>)
    requires Rect(b, |b|, Cols(b)) && Rect(a, |b|, Cols(b))
    requires valid ==> Distinct(a) && Transposes(a, b, p, q)
    requires valid ==> forall x :: x in solution ==> Before(x.0, x.1)
    ensures valid ==> result == solution + [(p, q)]
  {
    result := solution;
    var line := 0;
    while line < |b|
      invariant 0 <= line <= |b|
      invariant valid ==> result == solution + (if p.0 < line then [(p, q)] else [])
    {
      var column := 0;
      while column < |b[0]|
        invariant 0 <= column <= |b[0]|
        invariant valid ==> result == solution + (if Before(p, (line, column)) then [(p, q)] else [])
      {
        if b[line][column] != a[line][column] {
          if valid {
            TransposesChanged(a, b, p, q, (line, column));
            assert (p, q) in solution + [(p, q)];
          }
          result := MatchMoved(a, b, (line, column), result, valid, p, q);
        } else if valid {
          TransposesChanged(a, b, p, q, (line, column));
        }
        column := column + 1;
      }
      line := line + 1;
    }
    if valid {
      assert InBounds(a, p) && Before(p, (|b|, 0));
    }
  }

  /** solver.py:84-110: one swap per transition of the path. On a path whose steps
      each exchange two cells of distinct-numbered boards, swap k is the exchanged
      pair of step k, the row-major first cell first; fewer than two boards give no swaps. */
  method PathToSwaps(path: seq<State>) returns (solution: seq<SwapPair>)
    requires UniformShape(path)
    ensures |path| < 2 ==> solution == []
    ensures TranspositionPath(path) && path != [] ==>
      |solution| == |path| - 1 &&
      forall k :: 0 <= k < |solution| ==> Transposes(path[k], path[k + 1], solution[k].0, solution[k].1)
  {
    ghost var valid := TranspositionPath(path);
    solution := [];
    var i := 1;
    while i < |path|
      invariant 1 <= i
      invariant |path| >= 1 ==> i <= |path|
      invariant |path| < 2 ==> solution == []
      invariant valid ==> (|solution| == i - 1 &&
        forall k :: 0 <= k < |solution| ==> Transposes(path[k], path[k + 1], solution[k].0, solution[k].1))
    {
      ghost var p: Cell, q: Cell := (0, 0), (0, 0);
      if valid {
        p, q :| Transposes(path[i - 1], path[i], p, q);
        forall x | x in solution ensures Before(x.0, x.1) {
          var k :| 0 <= k < |solution| && solution[k] == x;
          assert Transposes(path[k], path[k + 1], solution[k].0, solution[k].1);
        }
      }
      assert Rect(path[i], |path[i]|, Cols(path[i])) && Rect(path[i - 1], |path[i]|, Cols(path[i]));
      solution := ScanTransition(path[i - 1], path[i], solution, valid, p, q);
      i := i + 1;
    }
  }

  /** Replaying the swaps of a transposition path on its first board gives its last
      board, when every exchange is between neighbours (solver.py:78-79). */
  lemma PathSwapsReplay(path: seq<State>, solution: seq<SwapPair>)
    requires |path| >= 1 && |solution| == |path| - 1
    requires forall k :: 0 <= k < |solution| ==>
      (Transposes(path[k], path[k + 1], solution[k].0, solution[k].1) && Adjacent(solution[k].0, solution[k].1))
    ensures PairsFit(path[0], solution)
    ensures Replay(path[0], solution) == Completed(path[|path| - 1])
  {
    assert IsSwapPath(path, solution) by {
      forall k | 0 <= k < |solution|
        ensures InBounds(path[k], solution[k].0) && InBounds(path[k], solution[k].1) && Adjacent(solution[k].0, solution[k].1) &&
          path[k + 1] == Exchange(path[k], solution[k].0, solution[k].1)
      {
        assert Transposes(path[k], path[k + 1], solution[k].0, solution[k].1);
      }
    }
    SwapPathReplay(path, solution);
  }
}
