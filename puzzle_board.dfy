/**
 * The N-puzzle board of `NPuzzleSolver`: an n-by-n grid of tiles with 0 as
 * the blank, the goal layout, locating the blank, the Manhattan-distance
 * heuristic and the moves that slide a tile into the blank.
 */
module PuzzleBoard {
  import opened Wrappers

  /** A board, row by row; `tuple(tuple(...))` in the source. */
  type State = seq<seq<int>>

  /** A (row, column) position. */
  type Pos = (int, int)

  predicate Square(s: State, n: nat) {
    |s| == n && forall i :: 0 <= i < n ==> |s[i]| == n
  }

  predicate InBoard(n: nat, p: Pos) {
    0 <= p.0 < n && 0 <= p.1 < n
  }

  function Abs(x: int): nat {
    if x < 0 then -x else x
  }

  // ---------------------------------------------------------------------
  // Goal state
  // ---------------------------------------------------------------------

  /**
   * `generate_goal_state`: cell (i, j) holds `(i * n + j + 1) % (n * n)`,
   * that is tiles 1, 2, ..., n*n - 1 in row-major order and the blank in the
   * last cell.
   */
  function GoalState(n: nat): (goal: State)
    ensures Square(goal, n)
    ensures forall i, j :: 0 <= i < n && 0 <= j < n ==>
      goal[i][j] == if i == n - 1 && j == n - 1 then 0 else i * n + j + 1
  {
    var goal := seq(n, i requires 0 <= i < n => seq(n, j requires 0 <= j < n => (i * n + j + 1) % (n * n)));
    RowMajorWrap(goal, n);
    goal
  }

  /** `a <= b` scaled by a non-negative factor. */
  lemma MulMono(a: int, b: int, c: nat)
    requires a <= b
    ensures a * c <= b * c
  {
    var d := b - a;
    assert b * c == a * c + d * c;
  }

  /** The row-major number `i * n + j + 1` of a cell is in `1..n*n`, and reaches `n*n` only at the last cell. */
  lemma CellNumberRange(n: nat, i: int, j: int)
    requires 0 <= i < n && 0 <= j < n
    ensures 1 <= i * n + j + 1 <= n * n
    ensures i * n + j + 1 == n * n <==> i == n - 1 && j == n - 1
  {
    MulMono(0, i, n);
    MulMono(i, n - 1, n);
    if i < n - 1 {
      MulMono(i, n - 2, n);
    }
  }

  /** A number in `1..m` modulo `m`: itself, except `m` which becomes 0. */
  lemma ModBelow(x: int, m: int)
    requires 1 <= x <= m
    ensures x % m == if x == m then 0 else x
  {
  }

  /** Row-major numbers taken modulo `n * n`: 1, 2, ..., n*n - 1, then 0 in the last cell. */
  lemma RowMajorWrap(grid: State, n: nat)
    requires Square(grid, n)
    requires forall i, j :: 0 <= i < n && 0 <= j < n ==> grid[i][j] == (i * n + j + 1) % (n * n)
    ensures forall i, j :: 0 <= i < n && 0 <= j < n ==>
      grid[i][j] == if i == n - 1 && j == n - 1 then 0 else i * n + j + 1
  {
    forall i, j | 0 <= i < n && 0 <= j < n
      ensures grid[i][j] == if i == n - 1 && j == n - 1 then 0 else i * n + j + 1
    {
      CellNumberRange(n, i, j);
      ModBelow(i * n + j + 1, n * n);
    }
  }

  /** The goal has exactly one blank, in the bottom-right corner. */
  lemma GoalBlankCorner(n: nat)
    ensures forall i, j :: 0 <= i < n && 0 <= j < n ==> (GoalState(n)[i][j] == 0 <==> i == n - 1 && j == n - 1)
  {
  }

  // ---------------------------------------------------------------------
  // The blank
  // ---------------------------------------------------------------------

  predicate HasBlank(grid: State, n: nat)
    requires Square(grid, n)
  {
    exists i, j :: 0 <= i < n && 0 <= j < n && grid[i][j] == 0
  }

  /** `p` holds the blank and no cell before it in row-major order does. */
  predicate IsFirstBlank(grid: State, n: nat, p: Pos)
    requires Square(grid, n)
  {
    && InBoard(n, p)
    && grid[p.0][p.1] == 0
    && forall i, j :: 0 <= i < n && 0 <= j < n && (i < p.0 || (i == p.0 && j < p.1)) ==> grid[i][j] != 0
  }

  /** `find_blank`: the row-major scan that stops at the first 0. */
  method FindBlank(grid: State, n: nat) returns (blank: Option<Pos>)
    requires Square(grid, n)
    ensures blank.Some? ==> IsFirstBlank(grid, n, blank.value)
    ensures blank.None? ==> !HasBlank(grid, n)
  {
    for i := 0 to n
      invariant forall i', j :: 0 <= i' < i && 0 <= j < n ==> grid[i'][j] != 0
    {
      for j := 0 to n
        invariant forall j' :: 0 <= j' < j ==> grid[i][j'] != 0
      {
        if grid[i][j] == 0 {
          return Some((i, j));
        }
      }
    }
    return None;
  }

  /** The first blank is unique, so the scan's answer is determined by the grid. */
  lemma FirstBlankUnique(grid: State, n: nat, p: Pos, q: Pos)
    requires Square(grid, n) && IsFirstBlank(grid, n, p) && IsFirstBlank(grid, n, q)
    ensures p == q
  {
  }

  // ---------------------------------------------------------------------
  // Manhattan distance
  // ---------------------------------------------------------------------

  /**
   * How far tile `value` at (i, j) is from its goal cell
   * `((value - 1) // n, (value - 1) % n)`; the blank counts 0. With `n > 0`
   * Python's floor division and modulo agree with Dafny's. On the board it is
   * 0 exactly for the blank and for the tile whose goal cell is (i, j).
   */
  function TileDistance(value: int, n: nat, i: int, j: int): (d: nat)
    requires n > 0
    ensures 0 <= i < n && 0 <= j < n ==> (d == 0 <==> value == 0 || value == i * n + j + 1)
  {
    if value == 0 then 0
    else
      HomeCell(value, n, i, j);
      Abs((value - 1) / n - i) + Abs((value - 1) % n - j)
  }

  /** A tile's goal cell is (i, j) exactly when the tile is `i * n + j + 1`. */
  lemma HomeCell(value: int, n: nat, i: int, j: int)
    requires n > 0
    ensures 0 <= i < n && 0 <= j < n ==>
      ((value - 1) / n == i && (value - 1) % n == j <==> value == i * n + j + 1)
  {
    if 0 <= i < n && 0 <= j < n {
      if value == i * n + j + 1 {
        DivModCell(n, i, j);
      } else {
        var q, r := (value - 1) / n, (value - 1) % n;
        assert value - 1 == q * n + r;
      }
    }
  }

  /** The sum over the first `j` cells of row `i`. */
  function RowDistance(state: State, n: nat, i: nat, j: nat): nat
    requires n > 0 && Square(state, n) && i < n && j <= n
  {
    if j == 0 then 0 else RowDistance(state, n, i, j - 1) + TileDistance(state[i][j - 1], n, i, j - 1)
  }

  /** The sum over the first `i` rows. */
  function BoardDistance(state: State, n: nat, i: nat): nat
    requires n > 0 && Square(state, n) && i <= n
  {
    if i == 0 then 0 else BoardDistance(state, n, i - 1) + RowDistance(state, n, i - 1, n)
  }

  /** The Manhattan distance of a board: the sum of `TileDistance` over every cell. */
  function Manhattan(state: State, n: nat): nat
    requires n > 0 && Square(state, n)
  {
    BoardDistance(state, n, n)
  }

  /** The heuristic is 0 exactly when every tile sits in its goal cell. */
  lemma ManhattanZero(state: State, n: nat)
    requires n > 0 && Square(state, n)
    ensures Manhattan(state, n) == 0 <==>
      forall i, j :: 0 <= i < n && 0 <= j < n ==> state[i][j] == 0 || state[i][j] == i * n + j + 1
  {
    BoardDistanceZero(state, n, n);
  }

  /** `(i * n + j) // n == i` and `(i * n + j) % n == j` for a column `j` of the board. */
  lemma DivModCell(n: nat, i: int, j: int)
    requires 0 <= j < n
    ensures (i * n + j) / n == i && (i * n + j) % n == j
  {
    var q, r := (i * n + j) / n, (i * n + j) % n;
    assert q * n + r == i * n + j;
    assert (q - i) * n == j - r;
    if q > i {
      MulMono(1, q - i, n);
    } else if q < i {
      MulMono(q - i, -1, n);
    }
  }

  /** The heuristic is 0 on the goal: every goal tile sits in its own cell. */
  lemma GoalDistanceZero(n: nat)
    requires n > 0
    ensures Manhattan(GoalState(n), n) == 0
  {
    ManhattanZero(GoalState(n), n);
  }

  /** A partial row sum is 0 exactly when each of its cells adds 0. */
  lemma {:induction false} RowDistanceZero(state: State, n: nat, i: nat, j: nat)
    requires n > 0 && Square(state, n) && i < n && j <= n
    ensures RowDistance(state, n, i, j) == 0 <==> forall j' :: 0 <= j' < j ==> TileDistance(state[i][j'], n, i, j') == 0
  {
    if j > 0 {
      RowDistanceZero(state, n, i, j - 1);
    }
  }

  /** A partial board sum is 0 exactly when each cell of its rows adds 0. */
  lemma {:induction false} BoardDistanceZero(state: State, n: nat, i: nat)
    requires n > 0 && Square(state, n) && i <= n
    ensures BoardDistance(state, n, i) == 0 <==>
      forall i', j :: 0 <= i' < i && 0 <= j < n ==> TileDistance(state[i'][j], n, i', j) == 0
  {
    if i > 0 {
      BoardDistanceZero(state, n, i - 1);
      RowDistanceZero(state, n, i - 1, n);
    }
  }

  /** `heuristic`: the nested loops accumulating `distance` compute the Manhattan distance. */
  method Heuristic(state: State, n: nat) returns (distance: nat)
    requires n > 0 && Square(state, n)
    ensures distance == Manhattan(state, n)
  {
    distance := 0;
    for i := 0 to n
      invariant distance == BoardDistance(state, n, i)
    {
      for j := 0 to n
        invariant distance == BoardDistance(state, n, i) + RowDistance(state, n, i, j)
      {
        var value := state[i][j];
        if value != 0 {
          var goalX, goalY := (value - 1) / n, (value - 1) % n;
          distance := distance + Abs(goalX - i) + Abs(goalY - j);
        }
      }
    }
  }

  // ---------------------------------------------------------------------
  // Moves
  // ---------------------------------------------------------------------

  /** `moves`: Up, Down, Left, Right. */
  const Moves: seq<(int, int)> := [(-1, 0), (1, 0), (0, -1), (0, 1)]

  /** The cell direction `d` leads to from `p`. */
  function Target(p: Pos, d: nat): Pos
    requires d < |Moves|
  {
    (p.0 + Moves[d].0, p.1 + Moves[d].1)
  }

  predicate Adjacent(p: Pos, q: Pos) {
    Abs(p.0 - q.0) + Abs(p.1 - q.1) == 1
  }

  /**
   * The board with the contents of cells `p` and `q` exchanged, every other
   * cell as it was.
   */
  function Swap(s: State, p: Pos, q: Pos): (t: State)
    requires 0 <= p.0 < |s| && 0 <= p.1 < |s[p.0]|
    requires 0 <= q.0 < |s| && 0 <= q.1 < |s[q.0]|
    ensures |t| == |s| && forall i :: 0 <= i < |s| ==> |t[i]| == |s[i]|
    ensures forall i, j :: 0 <= i < |s| && 0 <= j < |s[i]| ==>
      t[i][j] == if (i, j) == q then s[p.0][p.1] else if (i, j) == p then s[q.0][q.1] else s[i][j]
  {
    var a, b := s[q.0][q.1], s[p.0][p.1];
    var u := s[p.0 := s[p.0][p.1 := a]];
    u[q.0 := u[q.0][q.1 := b]]
  }

  /** On a square board, a swap of two cells of the board keeps it square. */
  lemma SwapCells(s: State, n: nat, p: Pos, q: Pos)
    requires Square(s, n) && InBoard(n, p) && InBoard(n, q)
    ensures Square(Swap(s, p, q), n)
    ensures forall i, j :: 0 <= i < n && 0 <= j < n ==>
      Swap(s, p, q)[i][j] == if (i, j) == q then s[p.0][p.1] else if (i, j) == p then s[q.0][q.1] else s[i][j]
  {
  }

  /** Swapping the same two cells again restores the board. */
  lemma SwapSwap(s: State, n: nat, p: Pos, q: Pos)
    requires Square(s, n) && InBoard(n, p) && InBoard(n, q)
    ensures Swap(Swap(s, p, q), q, p) == s
  {
    var t := Swap(Swap(s, p, q), q, p);
    SwapCells(s, n, p, q);
    SwapCells(Swap(s, p, q), n, q, p);
    forall i | 0 <= i < n
      ensures t[i] == s[i]
    {
      assert forall j :: 0 <= j < n ==> t[i][j] == s[i][j];
    }
  }

  /** The neighbours produced by the first `d` directions, in direction order. */
  function NeighborsUpTo(s: State, n: nat, blank: Pos, d: nat): seq<(State, Pos)>
    requires Square(s, n) && InBoard(n, blank) && d <= |Moves|
  {
    if d == 0 then []
    else
      var q := Target(blank, d - 1);
      NeighborsUpTo(s, n, blank, d - 1) + if InBoard(n, q) then [(Swap(s, blank, q), q)] else []
  }

  /** The neighbour list: one (board, new blank) pair per in-bounds direction, Up, Down, Left, Right. */
  function NeighborList(s: State, n: nat, blank: Pos): seq<(State, Pos)>
    requires Square(s, n) && InBoard(n, blank)
  {
    NeighborsUpTo(s, n, blank, |Moves|)
  }

  /** `get_neighbors`: the move loop, copying the board and swapping two cells of the copy. */
  method GetNeighbors(state: State, n: nat, blank: Pos) returns (neighbors: seq<(State, Pos)>)
    requires Square(state, n) && InBoard(n, blank)
    ensures neighbors == NeighborList(state, n, blank)
  {
    var (x, y) := blank;
    neighbors := [];
    for d := 0 to |Moves|
      invariant neighbors == NeighborsUpTo(state, n, blank, d)
    {
      var (dx, dy) := Moves[d];
      var nx, ny := x + dx, y + dy;
      if 0 <= nx < n && 0 <= ny < n {
        var newState := state;
        var a, b := newState[nx][ny], newState[x][y];
        newState := newState[x := newState[x][y := a]];
        newState := newState[nx := newState[nx][ny := b]];
        neighbors := neighbors + [(newState, (nx, ny))];
      }
    }
  }

  /** The direction leading from `blank` to the adjacent cell `p`; `|Moves|` when there is none. */
  function DirectionTo(blank: Pos, p: Pos): (d: nat)
    ensures d <= |Moves| && (d < |Moves| ==> Target(blank, d) == p)
  {
    if p == Target(blank, 0) then 0
    else if p == Target(blank, 1) then 1
    else if p == Target(blank, 2) then 2
    else if p == Target(blank, 3) then 3
    else |Moves|
  }

  /** `entry` is the neighbour reached by moving the blank in an in-bounds direction below `d`. */
  predicate IsMoveEntry(s: State, n: nat, blank: Pos, d: nat, entry: (State, Pos))
    requires Square(s, n) && InBoard(n, blank)
  {
    var e := DirectionTo(blank, entry.1);
    && e < d <= |Moves|
    && InBoard(n, entry.1)
    && entry.0 == Swap(s, blank, entry.1)
  }

  /** Every entry of the first `d` comes from an in-bounds direction below `d`. */
  lemma {:induction false} NeighborsUpToMoves(s: State, n: nat, blank: Pos, d: nat)
    requires Square(s, n) && InBoard(n, blank) && d <= |Moves|
    ensures forall k :: 0 <= k < |NeighborsUpTo(s, n, blank, d)| ==> IsMoveEntry(s, n, blank, d, NeighborsUpTo(s, n, blank, d)[k])
  {
    if d > 0 {
      NeighborsUpToMoves(s, n, blank, d - 1);
      var q := Target(blank, d - 1);
      assert DirectionTo(blank, q) == d - 1;
    }
  }

  /**
   * Every neighbour is the board with the blank swapped with an in-bounds
   * cell, the one the direction `DirectionTo` names.
   */
  lemma NeighborsAreMoves(s: State, n: nat, blank: Pos)
    requires Square(s, n) && InBoard(n, blank)
    ensures forall k :: 0 <= k < |NeighborList(s, n, blank)| ==>
      var (t, p) := NeighborList(s, n, blank)[k];
      && DirectionTo(blank, p) < |Moves| && InBoard(n, p) && t == Swap(s, blank, p)
  {
    NeighborsUpToMoves(s, n, blank, |Moves|);
  }

  lemma {:induction false} MoveInNeighborsUpTo(s: State, n: nat, blank: Pos, d: nat, e: nat)
    requires Square(s, n) && InBoard(n, blank) && e < d <= |Moves| && InBoard(n, Target(blank, e))
    ensures (Swap(s, blank, Target(blank, e)), Target(blank, e)) in NeighborsUpTo(s, n, blank, d)
  {
    if e < d - 1 {
      MoveInNeighborsUpTo(s, n, blank, d - 1, e);
    }
  }

  /** Conversely, every in-bounds direction yields its neighbour. */
  lemma MoveInNeighbors(s: State, n: nat, blank: Pos, d: nat)
    requires Square(s, n) && InBoard(n, blank) && d < |Moves| && InBoard(n, Target(blank, d))
    ensures (Swap(s, blank, Target(blank, d)), Target(blank, d)) in NeighborList(s, n, blank)
  {
    MoveInNeighborsUpTo(s, n, blank, |Moves|, d);
  }

  /** The number of neighbours is the number of in-bounds directions. */
  function InBoundsDirections(n: nat, blank: Pos, d: nat): nat
    requires d <= |Moves|
  {
    if d == 0 then 0 else InBoundsDirections(n, blank, d - 1) + if InBoard(n, Target(blank, d - 1)) then 1 else 0
  }

  lemma {:induction false} NeighborsUpToCount(s: State, n: nat, blank: Pos, d: nat)
    requires Square(s, n) && InBoard(n, blank) && d <= |Moves|
    ensures |NeighborsUpTo(s, n, blank, d)| == InBoundsDirections(n, blank, d)
  {
    if d > 0 {
      NeighborsUpToCount(s, n, blank, d - 1);
    }
  }

  /** On a board of side at least 2 the blank has between 2 and 4 neighbours. */
  lemma NeighborCount(s: State, n: nat, blank: Pos)
    requires Square(s, n) && InBoard(n, blank) && n >= 2
    ensures 2 <= |NeighborList(s, n, blank)| <= 4
  {
    NeighborsUpToCount(s, n, blank, |Moves|);
    assert Target(blank, 0) == (blank.0 - 1, blank.1);
    assert Target(blank, 1) == (blank.0 + 1, blank.1);
    assert Target(blank, 2) == (blank.0, blank.1 - 1);
    assert Target(blank, 3) == (blank.0, blank.1 + 1);
    assert InBoundsDirections(n, blank, 1) == if blank.0 >= 1 then 1 else 0;
    assert InBoundsDirections(n, blank, 2) == InBoundsDirections(n, blank, 1) + if blank.0 <= n - 2 then 1 else 0;
    assert InBoundsDirections(n, blank, 3) == InBoundsDirections(n, blank, 2) + if blank.1 >= 1 then 1 else 0;
    assert InBoundsDirections(n, blank, 4) == InBoundsDirections(n, blank, 3) + if blank.1 <= n - 2 then 1 else 0;
  }

  /**
   * Each neighbour differs from the board only at the blank and the cell
   * moved into it: that cell now holds the blank, and the old blank cell
   * holds the tile.
   */
  lemma NeighborCells(s: State, n: nat, blank: Pos, k: nat)
    requires Square(s, n) && InBoard(n, blank) && s[blank.0][blank.1] == 0
    requires k < |NeighborList(s, n, blank)|
    ensures var (t, p) := NeighborList(s, n, blank)[k];
      && Square(t, n) && InBoard(n, p) && Adjacent(blank, p)
      && t[p.0][p.1] == 0 && t[blank.0][blank.1] == s[p.0][p.1]
      && forall i, j :: 0 <= i < n && 0 <= j < n && (i, j) != blank && (i, j) != p ==> t[i][j] == s[i][j]
  {
    NeighborsAreMoves(s, n, blank);
    SwapCells(s, n, blank, NeighborList(s, n, blank)[k].1);
  }

  /** The direction that undoes direction `d`. */
  function Opposite(d: nat): (o: nat)
    requires d < |Moves|
    ensures o < |Moves| && forall p: Pos :: Target(Target(p, d), o) == p
  {
    [1, 0, 3, 2][d]
  }

  /** The opposite move, applied to a neighbour, gives back the board and its blank. */
  lemma MoveUndo(s: State, n: nat, blank: Pos, d: nat)
    requires Square(s, n) && InBoard(n, blank) && d < |Moves| && InBoard(n, Target(blank, d))
    ensures var q := Target(blank, d);
      (s, blank) in NeighborList(Swap(s, blank, q), n, q)
  {
    var q := Target(blank, d);
    SwapCells(s, n, blank, q);
    SwapSwap(s, n, blank, q);
    MoveInNeighbors(Swap(s, blank, q), n, q, Opposite(d));
  }
}
