/** The board of the swap puzzle (swap_puzzle/grid.py): an m x n grid of integers,
    its row-major flattening, the swap rule, sequences of swaps, and the class
    `Grid`, whose `state` the methods update in place. */
module Grids {

  /** A board: state[i][j] is the number in row i, column j. */
  type State = seq<seq<int>>
  /** A cell (i, j): row i, column j. */
  type Cell = (int, int)
  /** One swap ((i1, j1), (i2, j2)), as the swap lists of the puzzle write it. */
  type SwapPair = (Cell, Cell)

  /** The exception swap raises on cells that share neither a row nor a column. */
  datatype Error = NotAdjacent(cell1: Cell, cell2: Cell)
  datatype Result<T> = Ok(value: T) | Err(error: Error)
  /** What a state-changing call reports: it returned, or it raised. */
  datatype Outcome = Pass | Fail(error: Error)

  function Abs(x: int): nat { if x < 0 then -x else x }

  // ---------------------------------------------------------------------------
  // Shapes and cells
  // ---------------------------------------------------------------------------

  /** `s` has m rows of n cells each. */
  predicate Rect(s: State, m: int, n: int) {
    |s| == m && forall i :: 0 <= i < |s| ==> |s[i]| == n
  }

  /** `s` and `t` have the same number of rows and the same row lengths. */
  predicate SameShape(s: State, t: State) {
    |s| == |t| && forall i :: 0 <= i < |s| ==> |s[i]| == |t[i]|
  }

  predicate InBounds(s: State, c: Cell) {
    0 <= c.0 < |s| && 0 <= c.1 < |s[c.0]|
  }

  predicate InGrid(m: int, n: int, c: Cell) {
    0 <= c.0 < m && 0 <= c.1 < n
  }

  /** Row-major order on cells: `a` is scanned before `b`. */
  predicate Before(a: Cell, b: Cell) {
    a.0 < b.0 || (a.0 == b.0 && a.1 < b.1)
  }

  /** Two boards are equal when they have the same shape and the same cells. */
  lemma StateEq(s: State, t: State)
    requires SameShape(s, t)
    requires forall i, j :: 0 <= i < |s| && 0 <= j < |s[i]| ==> s[i][j] == t[i][j]
    ensures s == t
  {
    forall i | 0 <= i < |s| ensures s[i] == t[i] {
      assert |s[i]| == |t[i]|;
    }
  }

  // ---------------------------------------------------------------------------
  // The default (sorted) state and the sortedness check
  // ---------------------------------------------------------------------------

  /** The list range(lo, hi). */
  function Range(lo: int, hi: int): (r: seq<int>)
    decreases hi - lo
    ensures |r| == if lo < hi then hi - lo else 0
    ensures forall k :: 0 <= k < |r| ==> r[k] == lo + k
  {
    if lo >= hi then [] else [lo] + Range(lo + 1, hi)
  }

  /** The state the constructor builds when it is given no initial state:
      row i is range(i*n + 1, (i+1)*n + 1). */
  function SortedState(m: nat, n: nat): (s: State)
    ensures Rect(s, m, n)
    ensures forall i, j :: 0 <= i < m && 0 <= j < n ==> s[i][j] == i * n + j + 1
  {
    seq(m, i => Range(i * n + 1, (i + 1) * n + 1))
  }

  /** The list L that is_sorted builds: the rows concatenated in order. */
  function Flatten(s: State): seq<int> {
    if s == [] then [] else Flatten(s[..|s| - 1]) + s[|s| - 1]
  }

  predicate NonDecreasing(f: seq<int>) {
    forall k :: 0 <= k < |f| - 1 ==> f[k] <= f[k + 1]
  }

  /** What is_sorted answers: the row-major flattening never decreases. */
  predicate Sorted(s: State) {
    NonDecreasing(Flatten(s))
  }

  /** No two cells of `s` hold the same number. */
  predicate Distinct(s: State) {
    forall i1, j1, i2, j2 ::
      (0 <= i1 < |s| && 0 <= j1 < |s[i1]| && 0 <= i2 < |s| && 0 <= j2 < |s[i2]| &&
       s[i1][j1] == s[i2][j2]) ==> i1 == i2 && j1 == j2
  }

  /** The invariant of a puzzle board: m x n distinct numbers from 1..m*n. */
  predicate IsPerm(s: State, m: nat, n: nat) {
    Rect(s, m, n) &&
    (forall i, j :: 0 <= i < m && 0 <= j < n ==> 1 <= s[i][j] <= m * n) &&
    Distinct(s)
  }

  lemma MulMono(a: int, b: int, n: nat)
    requires a <= b
    ensures a * n <= b * n
  {
    assert b * n - a * n == (b - a) * n;
  }

  /** q*n + r with 0 <= r < n has quotient q and remainder r. */
  lemma DivModUnique(q: int, r: int, n: int)
    requires n > 0 && 0 <= r < n
    ensures (q * n + r) / n == q && (q * n + r) % n == r
  {
    var k := q * n + r;
    var q', r' := k / n, k % n;
    assert k == q' * n + r';
    assert (q - q') * n == r' - r;
    if q > q' {
      MulMono(1, q - q', n);
    } else if q < q' {
      MulMono(1, q' - q, n);
    }
  }

  /** Index k of an m x n flattening lies in row k / n, column k % n. */
  lemma CellOfIndex(k: int, m: nat, n: nat)
    requires 0 <= k < m * n
    ensures n > 0 && 0 <= k / n < m && 0 <= k % n < n && (k / n) * n + k % n == k
  {
    assert n > 0;
    if k / n >= m {
      MulMono(m, k / n, n);
    }
  }

  lemma CellIndexBound(i: int, j: int, m: nat, n: nat)
    requires 0 <= i < m && 0 <= j < n
    ensures 0 <= i * n + j < m * n
  {
    MulMono(i + 1, m, n);
    MulMono(0, i, n);
  }

  /** Cell (i, j) of an m x n board is element i*n + j of its flattening. */
  lemma {:induction false} FlattenAt(s: State, m: nat, n: nat)
    requires Rect(s, m, n)
    ensures |Flatten(s)| == m * n
    ensures forall i, j {:trigger s[i][j]} :: 0 <= i < m && 0 <= j < n ==> Flatten(s)[i * n + j] == s[i][j]
  {
    if m > 0 {
      var s' := s[..m - 1];
      FlattenAt(s', m - 1, n);
      assert Flatten(s) == Flatten(s') + s[m - 1];
      forall i, j | 0 <= i < m && 0 <= j < n ensures Flatten(s)[i * n + j] == s[i][j] {
        if i < m - 1 {
          CellIndexBound(i, j, m - 1, n);
          assert s'[i][j] == s[i][j];
        }
      }
    }
  }

  /** Element k of the flattening of an m x n board is cell (k / n, k % n). */
  lemma FlattenIndex(s: State, m: nat, n: nat, k: int)
    requires Rect(s, m, n) && 0 <= k < m * n
    ensures n > 0 && 0 <= k / n < m && 0 <= k % n < n && |Flatten(s)| == m * n
    ensures (k / n) * n + k % n == k
    ensures Flatten(s)[k] == s[k / n][k % n]
  {
    CellOfIndex(k, m, n);
    FlattenAt(s, m, n);
    assert s[k / n][k % n] == Flatten(s)[(k / n) * n + k % n];
  }

  lemma {:induction false} IncreasingLower(f: seq<int>, k: nat)
    requires forall t :: 0 <= t < |f| - 1 ==> f[t] < f[t + 1]
    requires forall t :: 0 <= t < |f| ==> 1 <= f[t]
    requires k < |f|
    ensures k + 1 <= f[k]
  {
    if k > 0 {
      IncreasingLower(f, k - 1);
    }
  }

  lemma {:induction false} IncreasingUpper(f: seq<int>, k: nat)
    requires forall t :: 0 <= t < |f| - 1 ==> f[t] < f[t + 1]
    requires forall t :: 0 <= t < |f| ==> f[t] <= |f|
    requires k < |f|
    ensures f[k] <= k + 1
    decreases |f| - k
  {
    if k < |f| - 1 {
      IncreasingUpper(f, k + 1);
    }
  }

  /** Two different positions of the flattening of a permutation board hold different numbers
      from 1..m*n. */
  lemma FlattenPerm(s: State, m: nat, n: nat, a: int, b: int)
    requires IsPerm(s, m, n) && 0 <= a < m * n && 0 <= b < m * n
    ensures |Flatten(s)| == m * n
    ensures 1 <= Flatten(s)[a] <= m * n
    ensures a != b ==> Flatten(s)[a] != Flatten(s)[b]
  {
    FlattenIndex(s, m, n, a);
    FlattenIndex(s, m, n, b);
  }

  /** A sorted permutation board is the default layout. */
  lemma SortedIsCanonical(s: State, m: nat, n: nat)
    requires IsPerm(s, m, n) && Sorted(s)
    ensures s == SortedState(m, n)
  {
    FlattenAt(s, m, n);
    var f := Flatten(s);
    forall t | 0 <= t < |f| - 1 ensures f[t] < f[t + 1] {
      FlattenPerm(s, m, n, t, t + 1);
    }
    forall t | 0 <= t < |f| ensures 1 <= f[t] <= |f| {
      FlattenPerm(s, m, n, t, t);
    }
    var goal := SortedState(m, n);
    forall i, j | 0 <= i < |s| && 0 <= j < |s[i]| ensures s[i][j] == goal[i][j] {
      CellIndexBound(i, j, m, n);
      IncreasingLower(f, i * n + j);
      IncreasingUpper(f, i * n + j);
    }
    StateEq(s, goal);
  }

  /** Position t of the flattened default layout holds t + 1. */
  lemma CanonicalAt(m: nat, n: nat, t: int)
    requires 0 <= t < m * n
    ensures |Flatten(SortedState(m, n))| == m * n
    ensures Flatten(SortedState(m, n))[t] == t + 1
  {
    var s := SortedState(m, n);
    FlattenIndex(s, m, n, t);
    var i, j := t / n, t % n;
    assert 0 <= i < m && 0 <= j < n;
    assert s[i][j] == i * n + j + 1;
    assert i * n + j == t;
  }

  /** The default layout passes is_sorted. */
  lemma CanonicalIsSorted(m: nat, n: nat)
    ensures Sorted(SortedState(m, n))
  {
    var f := Flatten(SortedState(m, n));
    forall t | 0 <= t < |f| - 1 ensures f[t] <= f[t + 1] {
      FlattenAt(SortedState(m, n), m, n);
      CanonicalAt(m, n, t);
      CanonicalAt(m, n, t + 1);
    }
  }

  /** On a board holding each of 1..m*n once, is_sorted holds exactly of the
      default layout. */
  lemma SortedIffCanonical(s: State, m: nat, n: nat)
    requires IsPerm(s, m, n)
    ensures Sorted(s) <==> s == SortedState(m, n)
  {
    if Sorted(s) {
      SortedIsCanonical(s, m, n);
    }
    if s == SortedState(m, n) {
      CanonicalIsSorted(m, n);
    }
  }

  /** The default layout holds each of 1..m*n once and is sorted (grid.py:39-40). */
  lemma SortedStateIsSorted(m: nat, n: nat)
    ensures IsPerm(SortedState(m, n), m, n)
    ensures Sorted(SortedState(m, n))
  {
    var s := SortedState(m, n);
    forall i, j | 0 <= i < m && 0 <= j < n ensures 1 <= s[i][j] <= m * n {
      CellIndexBound(i, j, m, n);
    }
    forall i1, j1, i2, j2 |
      0 <= i1 < |s| && 0 <= j1 < |s[i1]| && 0 <= i2 < |s| && 0 <= j2 < |s[i2]| && s[i1][j1] == s[i2][j2]
      ensures i1 == i2 && j1 == j2
    {
      DivModUnique(i1, j1, n);
      DivModUnique(i2, j2, n);
    }
    CanonicalIsSorted(m, n);
  }

  /** A sequence without repeats has as many distinct elements as positions. */
  lemma {:induction false} DistinctCard(f: seq<int>)
    requires forall a, b :: 0 <= a < b < |f| ==> f[a] != f[b]
    ensures |set x | x in f| == |f|
  {
    if f != [] {
      var g := f[..|f| - 1];
      forall a, b | 0 <= a < b < |g| ensures g[a] != g[b] {
        assert g[a] == f[a] && g[b] == f[b];
      }
      DistinctCard(g);
      assert f == g + [f[|f| - 1]];
      assert (set x | x in f) == (set x | x in g) + {f[|f| - 1]};
      assert f[|f| - 1] !in (set x | x in g);
    }
  }

  /** A subset is no larger than its superset. */
  lemma SubsetCard(a: set<int>, b: set<int>)
    requires a <= b
    ensures |a| <= |b|
  {
    assert b == a + (b - a);
    assert a * (b - a) == {};
  }

  /** A sequence of N numbers from 1..N without repeats contains every number of 1..N. */
  lemma HasEvery(f: seq<int>, v: int)
    requires forall k :: 0 <= k < |f| ==> 1 <= f[k] <= |f|
    requires forall a, b :: 0 <= a < b < |f| ==> f[a] != f[b]
    requires 1 <= v <= |f|
    ensures v in f
  {
    var r := Range(1, |f| + 1);
    DistinctCard(f);
    DistinctCard(r);
    var values := set x | x in f;
    var range := set x | x in r;
    forall x | x in values ensures x in range {
      assert r[x - 1] == x;
    }
    assert r[v - 1] == v;
    if v !in f {
      assert values <= range - {v};
      assert |range - {v}| == |range| - 1;
      SubsetCard(values, range - {v});
    }
  }

  /** Every number of 1..m*n lies somewhere on a permutation board. */
  lemma PermHasEvery(s: State, m: nat, n: nat, v: int) returns (c: Cell)
    requires IsPerm(s, m, n) && 1 <= v <= m * n
    ensures InGrid(m, n, c) && s[c.0][c.1] == v
  {
    var f := Flatten(s);
    FlattenPerm(s, m, n, 0, 0);
    forall k | 0 <= k < |f| ensures 1 <= f[k] <= |f| {
      FlattenPerm(s, m, n, k, k);
    }
    forall a, b | 0 <= a < b < |f| ensures f[a] != f[b] {
      FlattenPerm(s, m, n, a, b);
    }
    HasEvery(f, v);
    var k :| 0 <= k < |f| && f[k] == v;
    FlattenIndex(s, m, n, k);
    c := (k / n, k % n);
  }

  /** Row-major order of cells with columns below n is the order of their indices i * n + j. */
  lemma BeforeIndex(a: Cell, b: Cell, n: nat)
    requires 0 <= a.1 < n && 0 <= b.1 < n
    ensures Before(a, b) <==> a.0 * n + a.1 < b.0 * n + b.1
  {
    if a.0 < b.0 {
      MulMono(a.0 + 1, b.0, n);
    } else if b.0 < a.0 {
      MulMono(b.0 + 1, a.0, n);
    }
  }

  // ---------------------------------------------------------------------------
  // The swap rule (grid.py:73-89)
  // ---------------------------------------------------------------------------

  /** Cells one step apart along a row or along a column. */
  predicate Adjacent(a: Cell, b: Cell) {
    (a.0 == b.0 && Abs(a.1 - b.1) == 1) || (a.1 == b.1 && Abs(a.0 - b.0) == 1)
  }

  /** The pairs that swap really exchanges: a cell with itself or with a neighbour.
      These are the only pairs for which it reads and writes the state. */
  predicate Exchanges(a: Cell, b: Cell) {
    a == b || Adjacent(a, b)
  }

  /** Both coordinates differ: swap raises. */
  predicate Raises(a: Cell, b: Cell) {
    a.0 != b.0 && a.1 != b.1
  }

  /** The state with the numbers in cells `a` and `b` exchanged. */
  function Exchange(s: State, a: Cell, b: Cell): (r: State)
    requires InBounds(s, a) && InBounds(s, b)
    ensures SameShape(s, r)
    ensures forall i, j {:trigger r[i][j]} :: 0 <= i < |s| && 0 <= j < |s[i]| ==>
      r[i][j] == if (i, j) == a then s[b.0][b.1] else if (i, j) == b then s[a.0][a.1] else s[i][j]
  {
    var va, vb := s[a.0][a.1], s[b.0][b.1];
    var t := s[a.0 := s[a.0][a.1 := vb]];
    t[b.0 := t[b.0][b.1 := va]]
  }

  /** What swap(a, b) does to state `s`: raise when both coordinates differ;
      exchange when the cells are equal or one step apart; otherwise (same row or
      same column, two or more steps apart) return without touching the state. */
  function SwapState(s: State, a: Cell, b: Cell): (r: Result<State>)
    requires Exchanges(a, b) ==> InBounds(s, a) && InBounds(s, b)
    ensures r.Err? <==> Raises(a, b)
    ensures r.Err? ==> r.error == NotAdjacent(a, b)
    ensures Exchanges(a, b) ==> r == Ok(Exchange(s, a, b))
    ensures !Raises(a, b) && !Exchanges(a, b) ==> r == Ok(s)
    ensures r.Ok? ==> SameShape(s, r.value)
  {
    if a.0 == b.0 then
      if a.1 == b.1 || a.1 == b.1 + 1 || a.1 == b.1 - 1 then Ok(Exchange(s, a, b)) else Ok(s)
    else if a.1 == b.1 then
      if a.0 == b.0 || a.0 == b.0 + 1 || a.0 == b.0 - 1 then Ok(Exchange(s, a, b)) else Ok(s)
    else
      Err(NotAdjacent(a, b))
  }

  /** A legal swap exchanges exactly the two cells and leaves every other cell alone. */
  lemma SwapExchangesExactly(s: State, a: Cell, b: Cell)
    requires InBounds(s, a) && InBounds(s, b) && Adjacent(a, b)
    ensures SwapState(s, a, b).Ok?
    ensures var t := SwapState(s, a, b).value;
      SameShape(s, t) && t[a.0][a.1] == s[b.0][b.1] && t[b.0][b.1] == s[a.0][a.1] &&
      forall i, j :: 0 <= i < |s| && 0 <= j < |s[i]| && (i, j) != a && (i, j) != b ==> t[i][j] == s[i][j]
  {
    var t := SwapState(s, a, b).value;
    assert t[a.0][a.1] == s[b.0][b.1];
    assert t[b.0][b.1] == s[a.0][a.1];
  }

  /** Swapping a cell with itself changes nothing. */
  lemma SwapSelfIsNoOp(s: State, a: Cell)
    requires InBounds(s, a)
    ensures SwapState(s, a, a) == Ok(s)
  {
    StateEq(Exchange(s, a, a), s);
  }

  /** Applying the same legal swap twice restores the state. */
  lemma SwapTwiceRestores(s: State, a: Cell, b: Cell)
    requires Exchanges(a, b) && InBounds(s, a) && InBounds(s, b)
    ensures SwapState(s, a, b).Ok?
    ensures SwapState(SwapState(s, a, b).value, a, b) == Ok(s)
  {
    var t := Exchange(s, a, b);
    StateEq(Exchange(t, a, b), s);
  }

  /** A swap of cells in different rows and different columns raises and leaves the state alone. */
  lemma SwapDiagonalRaises(s: State, a: Cell, b: Cell)
    requires a.0 != b.0 && a.1 != b.1
    ensures SwapState(s, a, b) == Err(NotAdjacent(a, b))
  {
  }

  /** A swap along a row or column over two or more steps is a silent no-op. */
  lemma SwapFarIsNoOp(s: State, a: Cell, b: Cell)
    requires (a.0 == b.0 && Abs(a.1 - b.1) >= 2) || (a.1 == b.1 && Abs(a.0 - b.0) >= 2)
    ensures SwapState(s, a, b) == Ok(s)
  {
  }

  /** An exchange keeps a board a permutation of 1..m*n. */
  lemma ExchangeKeepsPerm(s: State, m: nat, n: nat, a: Cell, b: Cell)
    requires IsPerm(s, m, n) && InBounds(s, a) && InBounds(s, b)
    ensures IsPerm(Exchange(s, a, b), m, n)
  {
    var t := Exchange(s, a, b);
    forall i1, j1, i2, j2 |
      0 <= i1 < |t| && 0 <= j1 < |t[i1]| && 0 <= i2 < |t| && 0 <= j2 < |t[i2]| && t[i1][j1] == t[i2][j2]
      ensures i1 == i2 && j1 == j2
    {
      var c1 := if (i1, j1) == a then b else if (i1, j1) == b then a else (i1, j1);
      var c2 := if (i2, j2) == a then b else if (i2, j2) == b then a else (i2, j2);
      assert s[c1.0][c1.1] == t[i1][j1];
      assert s[c2.0][c2.1] == t[i2][j2];
    }
  }

  // ---------------------------------------------------------------------------
  // Sequences of swaps (grid.py:102-104)
  // ---------------------------------------------------------------------------

  /** The end of swap_seq: every swap returned, or swap number `index` raised in `state`. */
  datatype Replayed = Completed(state: State) | Stopped(index: nat, state: State)

  /** Every pair that swap would index lies inside `s`. */
  predicate PairsFit(s: State, pairs: seq<SwapPair>) {
    forall k :: 0 <= k < |pairs| && Exchanges(pairs[k].0, pairs[k].1) ==>
      InBounds(s, pairs[k].0) && InBounds(s, pairs[k].1)
  }

  lemma PairsFitShape(s: State, t: State, pairs: seq<SwapPair>)
    requires SameShape(s, t) && PairsFit(s, pairs)
    ensures PairsFit(t, pairs)
  {
  }

  /** The swaps of `pairs` applied to `s` in list order, stopping at the first that raises. */
  function Replay(s: State, pairs: seq<SwapPair>): (r: Replayed)
    requires PairsFit(s, pairs)
    decreases |pairs|
    ensures SameShape(s, r.state)
    ensures r.Stopped? ==> r.index < |pairs| && Raises(pairs[r.index].0, pairs[r.index].1)
  {
    if pairs == [] then Completed(s)
    else
      match SwapState(s, pairs[0].0, pairs[0].1)
      case Err(_) => Stopped(0, s)
      case Ok(t) =>
        PairsFitShape(s, t, pairs[1..]);
        match Replay(t, pairs[1..])
        case Completed(u) => Completed(u)
        case Stopped(k, u) => Stopped(k + 1, u)
  }

  /** The outcome of the second part of a split sequence, renumbered for the whole. */
  function Shift(r: Replayed, d: nat): Replayed {
    match r
    case Completed(u) => Completed(u)
    case Stopped(k, u) => Stopped(k + d, u)
  }

  /** swap_seq(a + b) is swap_seq(a) followed by swap_seq(b), unless a raises. */
  lemma {:induction false} ReplayAppend(s: State, a: seq<SwapPair>, b: seq<SwapPair>)
    requires PairsFit(s, a + b)
    decreases |a|
    ensures PairsFit(s, a)
    ensures match Replay(s, a)
      case Stopped(k, t) => Replay(s, a + b) == Stopped(k, t)
      case Completed(t) => PairsFit(t, b) && Replay(s, a + b) == Shift(Replay(t, b), |a|)
  {
    assert forall k :: 0 <= k < |a| ==> (a + b)[k] == a[k];
    assert forall k :: 0 <= k < |b| ==> (a + b)[|a| + k] == b[k];
    if a == [] {
      assert a + b == b;
    } else {
      assert (a + b)[0] == a[0];
      assert (a + b)[1..] == a[1..] + b;
      match SwapState(s, a[0].0, a[0].1)
      case Err(_) =>
      case Ok(t) =>
        PairsFitShape(s, t, a[1..] + b);
        ReplayAppend(t, a[1..], b);
    }
  }

  /** When swap number k raises, the swaps before it stay applied. */
  lemma {:induction false} ReplayStopped(s: State, pairs: seq<SwapPair>)
    requires PairsFit(s, pairs)
    requires Replay(s, pairs).Stopped?
    ensures PairsFit(s, pairs[..Replay(s, pairs).index])
    ensures Replay(s, pairs[..Replay(s, pairs).index]) == Completed(Replay(s, pairs).state)
    decreases |pairs|
  {
    var k := Replay(s, pairs).index;
    if k > 0 {
      var t := SwapState(s, pairs[0].0, pairs[0].1).value;
      PairsFitShape(s, t, pairs[1..]);
      ReplayStopped(t, pairs[1..]);
      assert pairs[..k][1..] == pairs[1..][..k - 1];
    }
  }

  /** One more swap at the end of a sequence that ran through. */
  lemma ReplaySnoc(s: State, pairs: seq<SwapPair>, p: SwapPair, t: State)
    requires PairsFit(s, pairs + [p])
    requires PairsFit(s, pairs) && Replay(s, pairs) == Completed(t)
    ensures Exchanges(p.0, p.1) ==> InBounds(t, p.0) && InBounds(t, p.1)
    ensures Replay(s, pairs + [p]) ==
      match SwapState(t, p.0, p.1)
      case Ok(u) => Completed(u)
      case Err(_) => Stopped(|pairs|, t)
  {
    assert (pairs + [p])[|pairs|] == p;
    ReplayAppend(s, pairs, [p]);
  }

  /** A trace of boards in which boards[k + 1] is boards[k] with the two neighbouring
      cells of pairs[k] exchanged. */
  ghost predicate IsSwapPath(boards: seq<State>, pairs: seq<SwapPair>) {
    |boards| == |pairs| + 1 &&
    forall k :: 0 <= k < |pairs| ==>
      (InBounds(boards[k], pairs[k].0) && InBounds(boards[k], pairs[k].1) && Adjacent(pairs[k].0, pairs[k].1) &&
       boards[k + 1] == Exchange(boards[k], pairs[k].0, pairs[k].1))
  }

  /** A trace grows by one legal exchange of neighbours. */
  lemma SwapPathSnoc(boards: seq<State>, pairs: seq<SwapPair>, p: SwapPair, t: State)
    requires IsSwapPath(boards, pairs)
    requires InBounds(boards[|pairs|], p.0) && InBounds(boards[|pairs|], p.1) && Adjacent(p.0, p.1)
    requires t == Exchange(boards[|pairs|], p.0, p.1)
    ensures IsSwapPath(boards + [t], pairs + [p])
  {
    var b, q := boards + [t], pairs + [p];
    forall k | 0 <= k < |q|
      ensures InBounds(b[k], q[k].0) && InBounds(b[k], q[k].1) && Adjacent(q[k].0, q[k].1) && b[k + 1] == Exchange(b[k], q[k].0, q[k].1)
    {
      if k < |pairs| {
        assert b[k] == boards[k] && b[k + 1] == boards[k + 1] && q[k] == pairs[k];
      } else {
        assert b[k] == boards[|pairs|] && b[k + 1] == t && q[k] == p;
      }
    }
  }

  /** swap_seq applied to the pairs of a trace runs through and ends on its last board. */
  lemma {:induction false} SwapPathReplay(boards: seq<State>, pairs: seq<SwapPair>)
    requires IsSwapPath(boards, pairs)
    ensures PairsFit(boards[0], pairs) && Replay(boards[0], pairs) == Completed(boards[|pairs|])
    decreases |pairs|
  {
    if pairs != [] {
      var p := pairs[0];
      assert SwapState(boards[0], p.0, p.1) == Ok(boards[1]);
      assert IsSwapPath(boards[1..], pairs[1..]) by {
        forall k | 0 <= k < |pairs[1..]|
          ensures InBounds(boards[1..][k], pairs[1..][k].0) && InBounds(boards[1..][k], pairs[1..][k].1) &&
            Adjacent(pairs[1..][k].0, pairs[1..][k].1) &&
            boards[1..][k + 1] == Exchange(boards[1..][k], pairs[1..][k].0, pairs[1..][k].1)
        {
          assert boards[1..][k] == boards[k + 1] && boards[1..][k + 1] == boards[k + 2] && pairs[1..][k] == pairs[k + 1];
        }
      }
      SwapPathReplay(boards[1..], pairs[1..]);
      assert boards[1..][0] == boards[1] && boards[1..][|pairs| - 1] == boards[|pairs|];
      forall k | 0 <= k < |pairs| && Exchanges(pairs[k].0, pairs[k].1)
        ensures InBounds(boards[0], pairs[k].0) && InBounds(boards[0], pairs[k].1)
      {
        if k > 0 {
          assert pairs[1..][k - 1] == pairs[k];
        }
      }
    }
  }

  // ---------------------------------------------------------------------------
  // Neighbours (grid.py:186-200)
  // ---------------------------------------------------------------------------

  /** The four directions in the order generate_neighbours tries them. */
  const Directions: seq<(int, int)> := [(0, 1), (1, 0), (-1, 0), (0, -1)]

  /** `k` is `s` with one in-bounds pair of orthogonally adjacent cells exchanged. */
  ghost predicate IsNeighbour(s: State, k: State) {
    exists a: Cell, b: Cell :: InBounds(s, a) && InBounds(s, b) && Adjacent(a, b) && k == Exchange(s, a, b)
  }

  /** The cell one step from `c` in direction number `e`. */
  function Shifted(c: Cell, e: int): Cell
    requires 0 <= e < 4
  {
    (c.0 + Directions[e].0, c.1 + Directions[e].1)
  }

  /** Every neighbour of `s` through cell `c` is in `result`. */
  ghost predicate Covers(s: State, result: seq<State>, c: Cell)
    requires InBounds(s, c)
  {
    forall e :: 0 <= e < 4 && InBounds(s, Shifted(c, e)) ==> Exchange(s, c, Shifted(c, e)) in result
  }

  /** A cell adjacent to `a` lies in one of the four directions from it. */
  lemma AdjacentDirection(a: Cell, b: Cell) returns (e: int)
    requires Adjacent(a, b)
    ensures 0 <= e < 4 && b == Shifted(a, e)
  {
    e := if b == (a.0, a.1 + 1) then 0 else if b == (a.0 + 1, a.1) then 1
         else if b == (a.0 - 1, a.1) then 2 else 3;
  }

  /** Everything listed is a neighbour of `s`, and nothing is listed twice. */
  ghost predicate SoundList(s: State, result: seq<State>) {
    (forall k :: k in result ==> IsNeighbour(s, k)) &&
    forall p, q :: 0 <= p < q < |result| ==> result[p] != result[q]
  }

  /** Every neighbour through a cell before `upto` in row-major order is listed. */
  ghost predicate CoversBefore(s: State, result: seq<State>, upto: Cell) {
    forall c :: InBounds(s, c) && Before(c, upto) ==> Covers(s, result, c)
  }

  /** Every neighbour through `here` in the first `d` directions is listed. */
  ghost predicate CoversDirections(s: State, result: seq<State>, here: Cell, d: int)
    requires InBounds(s, here)
  {
    forall e :: 0 <= e < d && e < 4 && InBounds(s, Shifted(here, e)) ==> Exchange(s, here, Shifted(here, e)) in result
  }

  /** The list after trying direction `d` from `here`, as generate_neighbours builds it. */
  function AddDirection(s: State, here: Cell, d: int, result: seq<State>): seq<State>
    requires InBounds(s, here) && 0 <= d < 4
  {
    var there := Shifted(here, d);
    if InBounds(s, there) && Exchange(s, here, there) !in result then result + [Exchange(s, here, there)]
    else result
  }

  /** Trying one more direction keeps the list sound and covers that direction too. */
  lemma AddDirectionStep(s: State, here: Cell, d: int, result: seq<State>)
    requires InBounds(s, here) && 0 <= d < 4
    requires SoundList(s, result) && CoversBefore(s, result, here) && CoversDirections(s, result, here, d)
    ensures var r := AddDirection(s, here, d, result);
      SoundList(s, r) && CoversBefore(s, r, here) && CoversDirections(s, r, here, d + 1)
  {
    var r := AddDirection(s, here, d, result);
    var there := Shifted(here, d);
    if InBounds(s, there) {
      assert Adjacent(here, there);
    }
    assert forall k :: k in result ==> k in r;
  }

  /** Once all four directions of `here` are covered, so is every cell up to the next one. */
  lemma CoversNextCell(s: State, result: seq<State>, here: Cell)
    requires InBounds(s, here)
    requires CoversBefore(s, result, here) && CoversDirections(s, result, here, 4)
    ensures CoversBefore(s, result, (here.0, here.1 + 1))
  {
    forall c | InBounds(s, c) && Before(c, (here.0, here.1 + 1)) ensures Covers(s, result, c) {
      if c != here {
        assert Before(c, here);
      }
    }
  }

  /** Past the last column of a row, every cell of that row is covered. */
  lemma CoversNextRow(s: State, m: nat, n: nat, result: seq<State>, line: int)
    requires Rect(s, m, n) && CoversBefore(s, result, (line, n))
    ensures CoversBefore(s, result, (line + 1, 0))
  {
  }

  /** A list covering every cell contains every neighbour. */
  lemma CoversAll(s: State, m: nat, result: seq<State>)
    requires |s| == m && CoversBefore(s, result, (m, 0))
    ensures forall k :: IsNeighbour(s, k) ==> k in result
  {
    forall k | IsNeighbour(s, k) ensures k in result {
      var a: Cell, b: Cell :| InBounds(s, a) && InBounds(s, b) && Adjacent(a, b) && k == Exchange(s, a, b);
      var e := AdjacentDirection(a, b);
      assert Covers(s, result, a);
    }
  }

  // ---------------------------------------------------------------------------
  // The Grid class (grid.py:9-200)
  // ---------------------------------------------------------------------------

  class Grid {
    /** Number of rows. */
    const m: nat
    /** Number of columns. */
    const n: nat
    /** state[i][j] is the number in cell (i, j). */
    var state: State

    /** The board has m rows of n cells, as the loader and the solvers assume. */
    ghost predicate Valid()
      reads this
    {
      Rect(state, m, n)
    }

    /** With an empty initial state the grid starts in the sorted layout. */
    constructor (m: nat, n: nat, initialState: State)
      ensures this.m == m && this.n == n
      ensures initialState == [] ==> state == SortedState(m, n)
      ensures initialState != [] ==> state == initialState
      ensures (initialState == [] || Rect(initialState, m, n)) ==> Valid()
    {
      this.m := m;
      this.n := n;
      var init := initialState;
      if init == [] {
        var rows: State := [];
        var i := 0;
        while i < m
          invariant 0 <= i <= m
          invariant rows == SortedState(m, n)[..i]
        {
          assert (i + 1) * n + 1 - (i * n + 1) == n;
          rows := rows + [Range(i * n + 1, (i + 1) * n + 1)];
          i := i + 1;
        }
        init := rows;
      }
      this.state := init;
    }

    /** grid.py:64-71: concatenate the first m rows into L, then compare neighbours in L. */
    method IsSorted() returns (b: bool)
      requires m <= |state|
      ensures b == Sorted(state[..m])
      ensures |state| == m ==> b == Sorted(state)
    {
      var L: seq<int> := [];
      var i := 0;
      while i < m
        invariant 0 <= i <= m
        invariant L == Flatten(state[..i])
      {
        assert state[..i + 1][..i] == state[..i];
        L := L + state[i];
        i := i + 1;
      }
      assert state[..m][..m] == state[..m];
      assert |state| == m ==> state[..m] == state;
      var k := 0;
      while k < |L| - 1
        invariant 0 <= k
        invariant forall t :: 0 <= t < k && t < |L| - 1 ==> L[t] <= L[t + 1]
      {
        if L[k] > L[k + 1] {
          return false;
        }
        k := k + 1;
      }
      return true;
    }

    /** grid.py:73-89. The cells must lie in the board when the swap indexes it. */
    method Swap(cell1: Cell, cell2: Cell) returns (r: Outcome)
      requires Exchanges(cell1, cell2) ==> InBounds(state, cell1) && InBounds(state, cell2)
      modifies this`state
      ensures match SwapState(old(state), cell1, cell2)
        case Ok(t) => r == Pass && state == t
        case Err(e) => r == Fail(e) && state == old(state)
    {
      if cell1.0 == cell2.0 {
        if cell1.1 == cell2.1 || cell1.1 == cell2.1 + 1 || cell1.1 == cell2.1 - 1 {
          var v1, v2 := state[cell1.0][cell1.1], state[cell2.0][cell2.1];
          state := state[cell1.0 := state[cell1.0][cell1.1 := v2]];
          state := state[cell2.0 := state[cell2.0][cell2.1 := v1]];
        }
      } else if cell1.1 == cell2.1 {
        if cell1.0 == cell2.0 || cell1.0 == cell2.0 + 1 || cell1.0 == cell2.0 - 1 {
          var v1, v2 := state[cell1.0][cell1.1], state[cell2.0][cell2.1];
          state := state[cell1.0 := state[cell1.0][cell1.1 := v2]];
          state := state[cell2.0 := state[cell2.0][cell2.1 := v1]];
        }
      } else {
        return Fail(NotAdjacent(cell1, cell2));
      }
      return Pass;
    }

    /** grid.py:102-104: the swaps in list order; a raising swap ends the call and
        leaves the earlier swaps applied. */
    method SwapSeq(pairs: seq<SwapPair>) returns (r: Outcome)
      requires PairsFit(state, pairs)
      modifies this`state
      ensures match Replay(old(state), pairs)
        case Completed(t) => r == Pass && state == t
        case Stopped(k, t) => r == Fail(NotAdjacent(pairs[k].0, pairs[k].1)) && state == t
    {
      ghost var s0 := state;
      var k := 0;
      while k < |pairs|
        invariant 0 <= k <= |pairs|
        invariant PairsFit(s0, pairs[..k])
        invariant Replay(s0, pairs[..k]) == Completed(state)
      {
        assert pairs[..k + 1] == pairs[..k] + [pairs[k]];
        ReplaySnoc(s0, pairs[..k], pairs[k], state);
        var pk := pairs[k];
        r := Swap(pk.0, pk.1);
        if r.Fail? {
          ReplayAppend(s0, pairs[..k + 1], pairs[k + 1..]);
          assert pairs[..k + 1] + pairs[k + 1..] == pairs;
          return;
        }
        k := k + 1;
      }
      assert pairs[..k] == pairs;
      r := Pass;
    }

    /** grid.py:146-150: the rows as an immutable value. */
    function ToHashable(): (h: State)
      reads this
      ensures h == state
      ensures Valid() ==> Rect(h, m, n)
    {
      state
    }

    /** grid.py:152-160: a new grid with as many rows as the value has, as many
        columns as its first row has, and the value as its state. A value without
        rows has no first row: the source raises IndexError there, and null stands
        for that here. */
    static method FromHashable(h: State) returns (g: Grid?)
      ensures h == [] <==> g == null
      ensures g != null ==> fresh(g) && g.m == |h| && g.n == |h[0]| && g.state == h
    {
      var content := h;
      if |content| == 0 {
        return null;
      }
      g := new Grid(|content|, |content[0]|, content);
    }

    /** grid.py:193-199 for one cell and one direction: when the cell that far away
        is on the board, swap the two on a copy of the grid and keep the copy's value
        unless it is already listed. The grid itself is not modified. */
    method TryDirection(here: Cell, d: int, result: seq<State>) returns (r: seq<State>)
      requires Valid() && InBounds(state, here) && 0 <= d < 4
      ensures r == AddDirection(state, here, d, result)
    {
      r := result;
      var dir := Directions[d];
      if 0 <= here.0 + dir.0 < m && 0 <= here.1 + dir.1 < n {
        var there := (here.0 + dir.0, here.1 + dir.1);
        assert Adjacent(here, there);
        var copy := new Grid(m, n, state);
        var outcome := copy.Swap(here, there);
        var h := copy.ToHashable();
        if h !in r {
          r := r + [h];
        }
      }
    }

    /** grid.py:186-200: for each cell and each in-bounds direction, a copy of the
        grid with that pair swapped, kept once. The grid itself is not modified. */
    method GenerateNeighbours() returns (result: seq<State>)
      requires Valid()
      ensures forall k :: k in result <==> IsNeighbour(state, k)
      ensures forall p, q :: 0 <= p < q < |result| ==> result[p] != result[q]
    {
      ghost var s := state;
      result := [];
      var line := 0;
      while line < m
        invariant 0 <= line <= m
        invariant SoundList(s, result) && CoversBefore(s, result, (line, 0))
      {
        var column := 0;
        while column < n
          invariant 0 <= column <= n
          invariant SoundList(s, result) && CoversBefore(s, result, (line, column))
        {
          var here := (line, column);
          var d := 0;
          while d < 4
            invariant 0 <= d <= 4
            invariant SoundList(s, result) && CoversBefore(s, result, here) && CoversDirections(s, result, here, d)
          {
            AddDirectionStep(s, here, d, result);
            result := TryDirection(here, d, result);
            d := d + 1;
          }
          CoversNextCell(s, result, here);
          column := column + 1;
        }
        CoversNextRow(s, m, n, result, line);
        line := line + 1;
      }
      CoversAll(s, m, result);
    }
  }

  /** from_hashable(to_hashable(g)) is a new grid with the shape and the cells of `g`,
      and `g` is left as it was; a grid without rows does not survive the trip. */
  method HashableRoundTrip(g: Grid) returns (copy: Grid?)
    requires g.Valid()
    ensures g.m == 0 <==> copy == null
    ensures copy != null ==> fresh(copy) && copy.m == g.m && copy.n == g.n && copy.state == g.state
  {
    var h := g.ToHashable();
    copy := Grid.FromHashable(h);
  }
}
