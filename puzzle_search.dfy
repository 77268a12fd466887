/**
 * `NPuzzleSolver.solve`: A* search over boards. The heap of
 * `(f, g, state, blank_pos, path)` entries is a sequence from which an entry
 * with the least `(f, g)` is removed; `visited` is a set of boards.
 */
module PuzzleSearch {
  import opened Wrappers
  import opened PuzzleBoard

  /** A heap entry `(f, g, state, blank_pos, path)`. */
  datatype Entry = Entry(f: int, g: nat, state: State, blank: Pos, path: seq<State>)

  // ---------------------------------------------------------------------
  // Paths
  // ---------------------------------------------------------------------

  /** Sliding the tile at `q` into the blank at `p` is a legal move on `a`. */
  predicate IsSlide(n: nat, a: State, p: Pos, q: Pos) {
    Square(a, n) && InBoard(n, p) && InBoard(n, q) && Adjacent(p, q) && a[p.0][p.1] == 0
  }

  /** `b` is `a` after one move. */
  ghost predicate IsMove(n: nat, a: State, b: State) {
    exists p, q :: IsSlide(n, a, p, q) && b == Swap(a, p, q)
  }

  /** The board before step `k` of a path from `start`. */
  function Prev(start: State, path: seq<State>, k: nat): State
    requires k <= |path|
  {
    if k == 0 then start else path[k - 1]
  }

  /** The board a path from `start` ends on. */
  function LastOf(start: State, path: seq<State>): State {
    Prev(start, path, |path|)
  }

  /** Each board of `path` is a `step` from the one before it, the first from `start`. */
  ghost predicate Chain(step: (State, State) -> bool, start: State, path: seq<State>) {
    forall k :: 0 <= k < |path| ==> step(Prev(start, path, k), path[k])
  }

  /** A chain followed by one more step is a chain. */
  lemma ChainExtend(step: (State, State) -> bool, start: State, path: seq<State>, next: State)
    requires Chain(step, start, path) && step(LastOf(start, path), next)
    ensures Chain(step, start, path + [next]) && LastOf(start, path + [next]) == next
  {
    var longer := path + [next];
    forall k | 0 <= k < |longer|
      ensures step(Prev(start, longer, k), longer[k])
    {
      if k < |path| {
        assert Prev(start, longer, k) == Prev(start, path, k) && longer[k] == path[k];
      } else {
        assert Prev(start, longer, k) == LastOf(start, path) && longer[k] == next;
      }
    }
  }

  /** The move relation on n-by-n boards. */
  ghost function MoveStep(n: nat): (State, State) -> bool {
    (a, b) => IsMove(n, a, b)
  }

  /** Each board of the path is one move from the one before it. */
  ghost predicate IsPath(n: nat, start: State, path: seq<State>) {
    Chain(MoveStep(n), start, path)
  }

  // ---------------------------------------------------------------------
  // The finite space of boards
  // ---------------------------------------------------------------------

  predicate CellsIn(s: State, n: nat, values: set<int>)
    requires Square(s, n)
  {
    forall i, j :: 0 <= i < n && 0 <= j < n ==> s[i][j] in values
  }

  /** The tiles of a board. */
  ghost function Values(s: State, n: nat): set<int>
    requires Square(s, n)
  {
    set i, j | 0 <= i < n && 0 <= j < n :: s[i][j]
  }

  /** Every row of length `k` over `values`. */
  ghost function Rows(k: nat, values: set<int>): set<seq<int>> {
    if k == 0 then {[]} else set r, v | r in Rows(k - 1, values) && v in values :: r + [v]
  }

  /** Every sequence of `m` rows from `rows`. */
  ghost function Boards(m: nat, rows: set<seq<int>>): set<State> {
    if m == 0 then {[]} else set b, r | b in Boards(m - 1, rows) && r in rows :: b + [r]
  }

  /** The finitely many n-by-n boards whose tiles come from `values`. */
  ghost function Universe(n: nat, values: set<int>): set<State> {
    Boards(n, Rows(n, values))
  }

  lemma {:induction false} RowsComplete(row: seq<int>, values: set<int>)
    requires forall j :: 0 <= j < |row| ==> row[j] in values
    ensures row in Rows(|row|, values)
  {
    if row != [] {
      var init, last := row[..|row| - 1], row[|row| - 1];
      RowsComplete(init, values);
      assert row == init + [last] && last in values;
      assert Rows(|row|, values) == set r, v | r in Rows(|init|, values) && v in values :: r + [v];
    }
  }

  lemma {:induction false} BoardsComplete(board: State, rows: set<seq<int>>)
    requires forall i :: 0 <= i < |board| ==> board[i] in rows
    ensures board in Boards(|board|, rows)
  {
    if board != [] {
      var init := board[..|board| - 1];
      BoardsComplete(init, rows);
      assert board == init + [board[|board| - 1]];
    }
  }

  /** A square board over `values` lies in the universe. */
  lemma InUniverse(s: State, n: nat, values: set<int>)
    requires Square(s, n) && CellsIn(s, n, values)
    ensures s in Universe(n, values)
  {
    forall i | 0 <= i < n
      ensures s[i] in Rows(n, values)
    {
      RowsComplete(s[i], values);
    }
    BoardsComplete(s, Rows(n, values));
  }

  // ---------------------------------------------------------------------
  // Queue entries
  // ---------------------------------------------------------------------

  /**
   * What every entry pushed by `solve` satisfies: its blank is where the
   * entry says, `g` is the path length, the path leads from the start board
   * to the entry's board by moves, `f = g + h`, and the tiles are the start's.
   */
  ghost predicate EntryOk(n: nat, start: State, values: set<int>, e: Entry) {
    && n > 0
    && Square(e.state, n)
    && InBoard(n, e.blank)
    && e.state[e.blank.0][e.blank.1] == 0
    && e.g == |e.path|
    && IsPath(n, start, e.path)
    && LastOf(start, e.path) == e.state
    && e.f == e.g + Manhattan(e.state, n)
    && CellsIn(e.state, n, values)
  }

  /** Every entry of the heap satisfies `EntryOk`. */
  ghost predicate AllEntriesOk(n: nat, start: State, values: set<int>, queue: seq<Entry>) {
    queue == [] || (EntryOk(n, start, values, queue[0]) && AllEntriesOk(n, start, values, queue[1..]))
  }

  lemma {:induction false} AllEntriesOkIff(n: nat, start: State, values: set<int>, queue: seq<Entry>)
    ensures AllEntriesOk(n, start, values, queue) <==> forall x :: x in queue ==> EntryOk(n, start, values, x)
  {
    if queue != [] {
      AllEntriesOkIff(n, start, values, queue[1..]);
      assert forall x :: x in queue <==> x == queue[0] || x in queue[1..];
    }
  }

  /** The entry `(h(start), 0, start, blank, [])` the search starts from. */
  lemma InitialEntryOk(n: nat, start: State, blank: Pos)
    requires n > 0 && Square(start, n) && IsFirstBlank(start, n, blank)
    ensures EntryOk(n, start, Values(start, n), Entry(Manhattan(start, n), 0, start, blank, []))
  {
    var values := Values(start, n);
    forall i, j | 0 <= i < n && 0 <= j < n
      ensures start[i][j] in values
    {
    }
  }

  /** The entry pushed for a neighbour: `(g + 1 + h(neighbor), g + 1, neighbor, new_blank_pos, path + [neighbor])`. */
  function Child(e: Entry, neighbor: (State, Pos), n: nat): (c: Entry)
    requires n > 0 && Square(neighbor.0, n)
    ensures c.state == neighbor.0 && c.blank == neighbor.1
    ensures e.g == |e.path| ==> c.g == |c.path|
    ensures forall start :: LastOf(start, c.path) == c.state
    ensures c.f == c.g + Manhattan(c.state, n)
  {
    Entry(e.g + 1 + Manhattan(neighbor.0, n), e.g + 1, neighbor.0, neighbor.1, e.path + [neighbor.0])
  }

  /** Pushing a neighbour keeps the entry invariant: the blank is tracked, `g` grows by one with the path. */
  lemma SuccessorEntryOk(n: nat, start: State, values: set<int>, e: Entry, k: nat)
    requires EntryOk(n, start, values, e)
    requires k < |NeighborList(e.state, n, e.blank)|
    ensures Square(NeighborList(e.state, n, e.blank)[k].0, n)
    ensures EntryOk(n, start, values, Child(e, NeighborList(e.state, n, e.blank)[k], n))
  {
    NeighborIsMove(e.state, n, e.blank, k, values);
    var neighbor := NeighborList(e.state, n, e.blank)[k];
    ChildOk(n, start, values, e, neighbor.0, neighbor.1);
  }

  /** A neighbour is one move on, has 0 at its new blank and keeps the tiles of the board. */
  lemma NeighborIsMove(s: State, n: nat, blank: Pos, k: nat, values: set<int>)
    requires Square(s, n) && InBoard(n, blank) && s[blank.0][blank.1] == 0
    requires k < |NeighborList(s, n, blank)|
    ensures var (t, p) := NeighborList(s, n, blank)[k];
      && Square(t, n) && InBoard(n, p) && t[p.0][p.1] == 0
      && IsMove(n, s, t)
      && (CellsIn(s, n, values) ==> CellsIn(t, n, values))
  {
    var (t, p) := NeighborList(s, n, blank)[k];
    NeighborCells(s, n, blank, k);
    NeighborsAreMoves(s, n, blank);
    assert IsSlide(n, s, blank, p) && t == Swap(s, blank, p);
    if CellsIn(s, n, values) {
      forall i, j | 0 <= i < n && 0 <= j < n ensures t[i][j] in values {
        if (i, j) == p {
          assert t[i][j] == s[blank.0][blank.1];
        }
      }
    }
  }

  /** The child of a good entry for a board one move on, with 0 at its blank, is a good entry. */
  lemma ChildOk(n: nat, start: State, values: set<int>, e: Entry, t: State, p: Pos)
    requires EntryOk(n, start, values, e)
    requires Square(t, n) && InBoard(n, p) && t[p.0][p.1] == 0 && CellsIn(t, n, values)
    requires IsMove(n, e.state, t)
    ensures EntryOk(n, start, values, Child(e, (t, p), n))
  {
    assert MoveStep(n)(LastOf(start, e.path), t);
    ChainExtend(MoveStep(n), start, e.path, t);
  }

  /** The entries pushed for the neighbours not yet visited, in neighbour order. */
  function Successors(e: Entry, neighbors: seq<(State, Pos)>, visited: set<State>, n: nat): seq<Entry>
    requires n > 0 && forall k :: 0 <= k < |neighbors| ==> Square(neighbors[k].0, n)
  {
    if neighbors == [] then []
    else
      var last := neighbors[|neighbors| - 1];
      Successors(e, neighbors[..|neighbors| - 1], visited, n)
        + if last.0 !in visited then [Child(e, last, n)] else []
  }

  /** Every pushed entry keeps the invariant and holds a board not yet visited. */
  lemma {:induction false} SuccessorsOk(n: nat, start: State, values: set<int>, e: Entry, visited: set<State>, d: nat)
    requires EntryOk(n, start, values, e)
    requires d <= |NeighborList(e.state, n, e.blank)|
    requires forall k :: 0 <= k < d ==> Square(NeighborList(e.state, n, e.blank)[k].0, n)
    ensures forall x :: x in Successors(e, NeighborList(e.state, n, e.blank)[..d], visited, n) ==>
      EntryOk(n, start, values, x) && x.state !in visited
  {
    var neighbors := NeighborList(e.state, n, e.blank);
    if d > 0 {
      assert neighbors[..d][..d - 1] == neighbors[..d - 1];
      SuccessorsOk(n, start, values, e, visited, d - 1);
      SuccessorEntryOk(n, start, values, e, d - 1);
    }
  }

  /** Every neighbour is an n-by-n board. */
  lemma NeighborsSquare(s: State, n: nat, blank: Pos)
    requires Square(s, n) && InBoard(n, blank)
    ensures forall k :: 0 <= k < |NeighborList(s, n, blank)| ==> Square(NeighborList(s, n, blank)[k].0, n)
  {
    NeighborsAreMoves(s, n, blank);
    forall k | 0 <= k < |NeighborList(s, n, blank)|
      ensures Square(NeighborList(s, n, blank)[k].0, n)
    {
      SwapCells(s, n, blank, NeighborList(s, n, blank)[k].1);
    }
  }

  /** Appending the successors of a good entry to a good queue gives a good queue. */
  lemma PushKeepsEntriesOk(n: nat, start: State, values: set<int>, queue: seq<Entry>, e: Entry, visited: set<State>)
    requires AllEntriesOk(n, start, values, queue)
    requires EntryOk(n, start, values, e)
    ensures forall k :: 0 <= k < |NeighborList(e.state, n, e.blank)| ==> Square(NeighborList(e.state, n, e.blank)[k].0, n)
    ensures AllEntriesOk(n, start, values, queue + Successors(e, NeighborList(e.state, n, e.blank), visited, n))
  {
    var neighbors := NeighborList(e.state, n, e.blank);
    NeighborsSquare(e.state, n, e.blank);
    SuccessorsOk(n, start, values, e, visited, |neighbors|);
    assert neighbors[..|neighbors|] == neighbors;
    AllEntriesOkIff(n, start, values, queue);
    AllEntriesOkIff(n, start, values, queue + Successors(e, neighbors, visited, n));
  }

  /** The inner loop of `solve`: one entry per neighbour not in `visited`, appended to the heap. */
  method PushSuccessors(queue: seq<Entry>, e: Entry, visited: set<State>, n: nat) returns (pushed: seq<Entry>)
    requires n > 0 && Square(e.state, n) && InBoard(n, e.blank)
    ensures forall k :: 0 <= k < |NeighborList(e.state, n, e.blank)| ==> Square(NeighborList(e.state, n, e.blank)[k].0, n)
    ensures pushed == queue + Successors(e, NeighborList(e.state, n, e.blank), visited, n)
  {
    var neighbors := GetNeighbors(e.state, n, e.blank);
    NeighborsSquare(e.state, n, e.blank);
    pushed := queue;
    for i := 0 to |neighbors|
      invariant pushed == queue + Successors(e, neighbors[..i], visited, n)
    {
      assert neighbors[..i + 1][..i] == neighbors[..i] && neighbors[..i + 1][i] == neighbors[i];
      var (neighbor, newBlank) := neighbors[i];
      ghost var added := if neighbor !in visited then [Child(e, neighbors[i], n)] else [];
      assert Successors(e, neighbors[..i + 1], visited, n) == Successors(e, neighbors[..i], visited, n) + added;
      if neighbor !in visited {
        var h := Heuristic(neighbor, n);
        pushed := pushed + [Entry(e.g + 1 + h, e.g + 1, neighbor, newBlank, e.path + [neighbor])];
      }
    }
    assert neighbors[..|neighbors|] == neighbors;
  }

  // ---------------------------------------------------------------------
  // The search
  // ---------------------------------------------------------------------

  /** `a` comes out of the heap before `b`: smaller `f`, then smaller `g`. */
  predicate Before(a: Entry, b: Entry) {
    a.f < b.f || (a.f == b.f && a.g < b.g)
  }

  /** `heappop`: the index of an entry no other entry comes before. */
  method PopMin(queue: seq<Entry>) returns (k: nat)
    requires queue != []
    ensures k < |queue| && forall j :: 0 <= j < |queue| ==> !Before(queue[j], queue[k])
  {
    k := 0;
    for j := 1 to |queue|
      invariant k < j && forall i :: 0 <= i < j ==> !Before(queue[i], queue[k])
    {
      if Before(queue[j], queue[k]) {
        k := j;
      }
    }
  }

  /** Popping an entry: it and the entries left keep the invariant. */
  lemma PopKeepsEntriesOk(n: nat, start: State, values: set<int>, queue: seq<Entry>, k: nat)
    requires AllEntriesOk(n, start, values, queue) && k < |queue|
    ensures EntryOk(n, start, values, queue[k])
    ensures AllEntriesOk(n, start, values, queue[..k] + queue[k + 1..])
  {
    AllEntriesOkIff(n, start, values, queue);
    AllEntriesOkIff(n, start, values, queue[..k] + queue[k + 1..]);
    RemoveKeepsOthers(queue, k);
  }

  /** Removing the popped entry leaves only entries that were there. */
  lemma RemoveKeepsOthers(queue: seq<Entry>, k: nat)
    requires k < |queue|
    ensures forall x :: x in queue[..k] + queue[k + 1..] ==> x in queue
  {
    forall x | x in queue[..k] + queue[k + 1..]
      ensures x in queue
    {
      var i :| 0 <= i < |queue[..k] + queue[k + 1..]| && (queue[..k] + queue[k + 1..])[i] == x;
      if i < k {
        assert queue[i] == x;
      } else {
        assert queue[i + 1] == x;
      }
    }
  }

  /** The expanded boards are visited and pairwise different. */
  ghost predicate ExpandedOnce(expanded: seq<State>, visited: set<State>) {
    && (forall i :: 0 <= i < |expanded| ==> expanded[i] in visited)
    && (forall i, j :: 0 <= i < j < |expanded| ==> expanded[i] != expanded[j])
  }

  /** Expanding a board not yet visited keeps the expanded list duplicate-free. */
  lemma ExpandFresh(expanded: seq<State>, visited: set<State>, s: State)
    requires ExpandedOnce(expanded, visited) && s !in visited
    ensures ExpandedOnce(expanded + [s], visited + {s})
  {
  }

  /** Visiting a new board of the universe leaves fewer boards unvisited. */
  lemma VisitShrinks(universe: set<State>, visited: set<State>, s: State)
    requires s in universe && s !in visited
    ensures |universe - (visited + {s})| < |universe - visited|
  {
    assert universe - visited == (universe - (visited + {s})) + {s};
  }

  /**
   * `solve`, given the goal board and the blank of the start board that the
   * constructor computed: a returned path leads from the start board to the
   * goal, one move per step; `expanded` lists the boards whose neighbours
   * were pushed, and no board is expanded twice. The search always stops:
   * only boards over the start's tiles are expanded, and there are finitely
   * many.
   */
  method Solve(start: State, n: nat, goal: State, blank: Pos) returns (solution: Option<seq<State>>, ghost expanded: seq<State>)
    requires n > 0 && Square(start, n) && IsFirstBlank(start, n, blank)
    ensures solution.Some? ==> IsPath(n, start, solution.value) && LastOf(start, solution.value) == goal
    ensures forall i, j :: 0 <= i < j < |expanded| ==> expanded[i] != expanded[j]
  {
    var h := Heuristic(start, n);
    ghost var values := Values(start, n);
    ghost var universe := Universe(n, values);
    InitialEntryOk(n, start, blank);
    var queue := [Entry(h, 0, start, blank, [])];
    var visited: set<State> := {};
    expanded := [];
    while queue != []
      invariant AllEntriesOk(n, start, values, queue)
      invariant visited <= universe
      invariant ExpandedOnce(expanded, visited)
      decreases |universe - visited|, |queue|
    {
      var k := PopMin(queue);
      var e := queue[k];
      PopKeepsEntriesOk(n, start, values, queue, k);
      queue := queue[..k] + queue[k + 1..];
      if e.state == goal {
        return Some(e.path), expanded;
      }
      if e.state in visited {
        continue;
      }
      InUniverse(e.state, n, values);
      VisitShrinks(universe, visited, e.state);
      ExpandFresh(expanded, visited, e.state);
      visited := visited + {e.state};
      expanded := expanded + [e.state];
      PushKeepsEntriesOk(n, start, values, queue, e, visited);
      queue := PushSuccessors(queue, e, visited, n);
    }
    return None, expanded;
  }

  /**
   * The constructor followed by `solve`: the goal from `generate_goal_state`,
   * the blank from `find_blank` (which must find one), then the search.
   */
  method SolvePuzzle(start: State, n: nat) returns (solution: Option<seq<State>>)
    requires n > 0 && Square(start, n) && HasBlank(start, n)
    ensures solution.Some? ==> IsPath(n, start, solution.value) && LastOf(start, solution.value) == GoalState(n)
  {
    var goal := GoalState(n);
    var blank := FindBlank(start, n);
    assert blank.Some?;
    ghost var expanded;
    solution, expanded := Solve(start, n, goal, blank.value);
  }
}
