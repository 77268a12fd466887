/**
 * The tile-placement constraint solver: a domain per placement cell, one
 * shared assignment, an AC-3-style propagation pass and a recursive
 * backtracking search that inserts into and deletes from the assignment.
 */
module TileCsp {
  import opened Wrappers
  import opened TileProblem
  import opened Placement

  /** The initial domain of every cell: all three tile types. */
  const AllTiles: seq<int> := [FullBlock, OuterBoundary, ElShape]

  predicate SortedByKey(s: seq<int>, key: int -> int) {
    forall a, b :: 0 <= a < b < |s| ==> key(s[a]) <= key(s[b])
  }

  /** Python's `sorted(s, key=key)`: ascending by key, equal keys kept in their original order. */
  function SortByKey(s: seq<int>, key: int -> int): (r: seq<int>)
    ensures multiset(r) == multiset(s)
    ensures SortedByKey(r, key)
  {
    if s == [] then []
    else
      assert s == [s[0]] + s[1..];
      InsertByKey(s[0], SortByKey(s[1..], key), key)
  }

  /** Place `x` before the first element whose key is not smaller than its own. */
  function InsertByKey(x: int, t: seq<int>, key: int -> int): (r: seq<int>)
    requires SortedByKey(t, key)
    ensures multiset(r) == multiset(t) + multiset{x}
    ensures SortedByKey(r, key)
    ensures r[0] == x || (t != [] && r[0] == t[0])
  {
    if t == [] || key(x) <= key(t[0]) then
      PrependSorted(x, t, key);
      [x] + t
    else
      assert t == [t[0]] + t[1..];
      var rest := InsertByKey(x, t[1..], key);
      KeysFromHead(x, t, rest, key);
      PrependSorted(t[0], rest, key);
      [t[0]] + rest
  }

  /** Every element of `t[1..]` with `x` added has a key no smaller than `t[0]`'s. */
  lemma KeysFromHead(x: int, t: seq<int>, rest: seq<int>, key: int -> int)
    requires t != [] && SortedByKey(t, key) && key(t[0]) < key(x)
    requires multiset(rest) == multiset(t[1..]) + multiset{x}
    ensures forall y :: y in rest ==> key(t[0]) <= key(y)
  {
    forall y | y in rest ensures key(t[0]) <= key(y) {
      assert y in multiset(rest);
      if y != x {
        assert y in multiset(t[1..]);
        var j :| 0 <= j < |t[1..]| && t[1..][j] == y;
        assert t[j + 1] == y;
      }
    }
  }

  /** A sorted list stays sorted under a head whose key is at most every other key. */
  lemma PrependSorted(h: int, rest: seq<int>, key: int -> int)
    requires SortedByKey(rest, key)
    requires forall y :: y in rest ==> key(h) <= key(y)
    ensures SortedByKey([h] + rest, key)
  {
    var r := [h] + rest;
    forall a, b | 0 <= a < b < |r| ensures key(r[a]) <= key(r[b]) {
      assert r[b] == rest[b - 1];
      if a > 0 {
        assert r[a] == rest[a - 1];
      }
    }
  }

  /** The sort is stable: when every key is the same it changes nothing. */
  lemma {:induction false} SortEqualKeys(s: seq<int>, key: int -> int)
    requires forall a :: 0 <= a < |s| ==> key(s[a]) == key(s[0])
    ensures SortByKey(s, key) == s
  {
    if s != [] {
      var tail := s[1..];
      SortEqualKeys(tail, key);
      assert tail != [] ==> key(s[0]) <= key(tail[0]);
    }
  }

  /** The elements of `s` whose key is `k`, in their order in `s`. */
  function KeyFilter(s: seq<int>, key: int -> int, k: int): seq<int> {
    if s == [] then []
    else (if key(s[0]) == k then [s[0]] else []) + KeyFilter(s[1..], key, k)
  }

  /** Inserting `x` into a sorted list puts it before every element of equal key. */
  lemma {:induction false} InsertKeyFilter(x: int, t: seq<int>, key: int -> int, k: int)
    requires SortedByKey(t, key)
    ensures KeyFilter(InsertByKey(x, t, key), key, k) == (if key(x) == k then [x] else []) + KeyFilter(t, key, k)
  {
    if t == [] || key(x) <= key(t[0]) {
      KeyFilterCons(x, t, key, k);
    } else {
      var tail := t[1..];
      assert t == [t[0]] + tail;
      SortedTail(t, key);
      InsertKeyFilter(x, tail, key, k);
      KeyFilterPastSmaller(t[0], x, tail, InsertByKey(x, tail, key), key, k);
    }
  }

  /** Filtering a list with a new head filters the head, then the rest. */
  lemma KeyFilterCons(h: int, t: seq<int>, key: int -> int, k: int)
    ensures KeyFilter([h] + t, key, k) == (if key(h) == k then [h] else []) + KeyFilter(t, key, k)
  {
    assert ([h] + t)[1..] == t;
  }

  /** An `x` inserted past a head of smaller key does not change the order of equal keys. */
  lemma KeyFilterPastSmaller(h: int, x: int, tail: seq<int>, rest: seq<int>, key: int -> int, k: int)
    requires key(h) < key(x)
    requires KeyFilter(rest, key, k) == (if key(x) == k then [x] else []) + KeyFilter(tail, key, k)
    ensures KeyFilter([h] + rest, key, k) == (if key(x) == k then [x] else []) + KeyFilter([h] + tail, key, k)
  {
    KeyFilterCons(h, rest, key, k);
    KeyFilterCons(h, tail, key, k);
  }

  /** The tail of a sorted list is sorted. */
  lemma SortedTail(t: seq<int>, key: int -> int)
    requires t != [] && SortedByKey(t, key)
    ensures SortedByKey(t[1..], key)
  {
    forall a, b | 0 <= a < b < |t[1..]| ensures key(t[1..][a]) <= key(t[1..][b]) {
      assert t[1..][a] == t[a + 1] && t[1..][b] == t[b + 1];
    }
  }

  /**
   * The sort is stable: for every key, the elements carrying that key come
   * out in the order they went in.
   */
  lemma {:induction false} SortStable(s: seq<int>, key: int -> int, k: int)
    ensures KeyFilter(SortByKey(s, key), key, k) == KeyFilter(s, key, k)
  {
    if s != [] {
      SortStable(s[1..], key, k);
      InsertKeyFilter(s[0], SortByKey(s[1..], key), key, k);
    }
  }

  /**
   * `_least_constraining_value`: the summed domain sizes of the cells (in key
   * order `cells`) whose domain still holds `value`; zero exactly when no
   * listed cell can still take `value`.
   */
  function LeastConstrainingValue(domains: Domains, cells: seq<Cell>, value: int): (r: nat)
    ensures r == 0 <==> forall k :: 0 <= k < |cells| && cells[k] in domains ==> value !in domains[cells[k]]
  {
    if cells == [] then 0
    else
      var c := cells[0];
      (if c in domains && value in domains[c] then |domains[c]| else 0)
        + LeastConstrainingValue(domains, cells[1..], value)
  }

  /** When every cell holds the same domain, each of its values scores the same. */
  lemma {:induction false} LeastConstrainingValueUniform(domains: Domains, cells: seq<Cell>, dom: seq<int>, value: int)
    requires forall c :: c in cells ==> c in domains && domains[c] == dom
    requires value in dom
    ensures LeastConstrainingValue(domains, cells, value) == |cells| * |dom|
  {
    if cells != [] {
      LeastConstrainingValueUniform(domains, cells[1..], dom, value);
      assert |cells| * |dom| == |dom| + (|cells| - 1) * |dom|;
    }
  }

  /**
   * With uniform domains the least-constraining-value order is the domain's
   * own order: every cell tries FULL_BLOCK, OUTER_BOUNDARY, EL_SHAPE in turn.
   */
  lemma UniformDomainsKeepOrder(domains: Domains, cells: seq<Cell>, dom: seq<int>)
    requires forall c :: c in cells ==> c in domains && domains[c] == dom
    ensures SortByKey(dom, v => LeastConstrainingValue(domains, cells, v)) == dom
  {
    var key := v => LeastConstrainingValue(domains, cells, v);
    forall a | 0 <= a < |dom| ensures key(dom[a]) == key(dom[0]) {
      LeastConstrainingValueUniform(domains, cells, dom, dom[a]);
      LeastConstrainingValueUniform(domains, cells, dom, dom[0]);
    }
    SortEqualKeys(dom, key);
  }

  /** Python's `list.index(x)`: the position of the first occurrence of `x`. */
  function FirstIndex(s: seq<int>, x: int): (k: nat)
    requires x in s
    ensures k < |s| && s[k] == x && x !in s[..k]
  {
    if s[0] == x then 0
    else
      var k := FirstIndex(s[1..], x);
      assert s[..k + 1] == [s[0]] + s[1..][..k];
      k + 1
  }

  /** Python's `list.remove(x)`: drop the first occurrence of `x`. */
  function RemoveFirst(s: seq<int>, x: int): (r: seq<int>)
    ensures x in s ==> r == s[..FirstIndex(s, x)] + s[FirstIndex(s, x) + 1..]
    ensures x in s ==> |r| == |s| - 1 && multiset(r) == multiset(s) - multiset{x}
    ensures x !in s ==> r == s
  {
    if s == [] then []
    else if s[0] == x then
      assert s == [s[0]] + s[1..];
      s[1..]
    else
      var rest := RemoveFirst(s[1..], x);
      RemoveFirstLater(s, x, rest);
      if x in s then
        DropAtMultiset(s, FirstIndex(s, x));
        [s[0]] + rest
      else
        [s[0]] + rest
  }

  /** Removing past a head that differs from `x` keeps the head in front. */
  lemma RemoveFirstLater(s: seq<int>, x: int, rest: seq<int>)
    requires s != [] && s[0] != x
    requires x in s[1..] ==> rest == s[1..][..FirstIndex(s[1..], x)] + s[1..][FirstIndex(s[1..], x) + 1..]
    requires x !in s[1..] ==> rest == s[1..]
    ensures x in s ==> [s[0]] + rest == s[..FirstIndex(s, x)] + s[FirstIndex(s, x) + 1..]
    ensures x !in s ==> [s[0]] + rest == s
  {
    var tail := s[1..];
    assert s == [s[0]] + tail;
    if x in s {
      ConsSlices(s[0], tail, FirstIndex(tail, x));
    }
  }

  /** Cutting out the element at `k` removes one copy of it from the multiset. */
  lemma DropAtMultiset(s: seq<int>, k: nat)
    requires k < |s|
    ensures multiset(s[..k] + s[k + 1..]) == multiset(s) - multiset{s[k]}
  {
    assert s == s[..k] + [s[k]] + s[k + 1..];
    MultisetDropMiddle(s[..k], s[k], s[k + 1..]);
  }

  /** Slicing a list with a new head around position `k + 1` of the whole. */
  lemma ConsSlices(h: int, tail: seq<int>, k: nat)
    requires k < |tail|
    ensures ([h] + tail)[..k + 1] == [h] + tail[..k]
    ensures ([h] + tail)[k + 2..] == tail[k + 1..]
  {
  }

  /** Taking one `x` out of the middle of a list removes one `x` from its multiset. */
  lemma MultisetDropMiddle(pre: seq<int>, x: int, post: seq<int>)
    ensures multiset(pre + post) == multiset(pre + [x] + post) - multiset{x}
  {
    assert multiset(pre + [x] + post) == multiset(pre) + multiset{x} + multiset(post);
  }

  /** Number of cells in `cells` whose domain is not empty. */
  function NonEmptyDomains(domains: Domains, cells: seq<Cell>): nat {
    if cells == [] then 0
    else
      (if cells[0] in domains && domains[cells[0]] != [] then 1 else 0)
        + NonEmptyDomains(domains, cells[1..])
  }

  /** Emptying a non-empty domain of a listed cell lowers the count. */
  lemma {:induction false} EmptyingDomainDecreases(domains: Domains, cells: seq<Cell>, c: Cell)
    requires c in domains && domains[c] != []
    ensures NonEmptyDomains(domains[c := []], cells) <= NonEmptyDomains(domains, cells)
    ensures c in cells ==> NonEmptyDomains(domains[c := []], cells) < NonEmptyDomains(domains, cells)
  {
    if cells != [] {
      EmptyingDomainDecreases(domains, cells[1..], c);
    }
  }

  /**
   * The solver's invariant: the domains are keyed by the grid cells listed in
   * `cells`, hold only tile types, and the assignment stays within supply.
   */
  ghost predicate SolverState(problem: Problem, cells: seq<Cell>, domains: Domains, assignment: Assignment) {
    && problem.Gridded()
    && |problem.tileCounts| == TileTypes
    && (forall c :: c in cells ==> c in domains)
    && (forall c :: c in domains ==> c in cells && problem.IsCell(c))
    && (forall c :: c in domains ==> TileValues(domains[c]))
    && assignment.Keys <= domains.Keys
    && WithinSupply(assignment, problem.tileCounts)
  }

  /** Every assigned cell holds a value from its own domain. */
  ghost predicate ChosenFrom(domains: Domains, assignment: Assignment) {
    forall c :: c in assignment ==> c in domains && assignment[c] in domains[c]
  }

  /**
   * The domains of a fresh solver: one entry per cell of a `gridHeight` by
   * `gridWidth` grid, and none outside it, each holding all three tile types.
   */
  function InitialDomains(gridHeight: nat, gridWidth: nat): (d: Domains)
    ensures forall c :: c in d <==> 0 <= c.0 < gridHeight && 0 <= c.1 < gridWidth
    ensures forall c :: c in d ==> d[c] == AllTiles
    ensures |d| == gridHeight * gridWidth
  {
    var grid := GridCells(gridHeight, gridWidth);
    var d := map c | c in grid :: AllTiles;
    assert d.Keys == set c | c in grid;
    GridCellCount(gridHeight, gridWidth);
    d
  }

  /** The freshly built solver state satisfies the solver invariant. */
  lemma InitialSolverState(problem: Problem)
    requires problem.Valid() && |problem.tileCounts| == TileTypes
    ensures var initial := InitialDomains(problem.gridHeight, problem.gridWidth);
      && SolverState(problem, GridCells(problem.gridHeight, problem.gridWidth), initial, map[])
      && ChosenFrom(initial, map[])
  {
    var grid := GridCells(problem.gridHeight, problem.gridWidth);
    var initial := InitialDomains(problem.gridHeight, problem.gridWidth);
    assert TileValues(AllTiles) by {
      forall v | v in AllTiles ensures 0 <= v < TileTypes {
        assert v == FullBlock || v == OuterBoundary || v == ElShape;
      }
    }
    var none: Assignment := map[];
    forall t | 0 <= t < TileTypes ensures Used(none, t) == 0 {
      UsedEmpty(none, t);
    }
    assert WithinSupply(none, problem.tileCounts);
    assert forall c :: c in grid ==> c in initial;
    assert forall c :: c in initial ==> c in grid && problem.IsCell(c);
    assert forall c :: c in initial ==> TileValues(initial[c]);
    assert SolverState(problem, grid, initial, none);
  }

  class Csp {
    const problem: Problem
    /** The keys of `domains` in insertion (row-major) order. */
    const cells: seq<Cell>
    var domains: Domains
    var assignment: Assignment

    ghost predicate Valid()
      reads this
    {
      SolverState(problem, cells, domains, assignment)
    }

    /** Every assigned cell holds a value from its own domain. */
    ghost predicate Chosen()
      reads this
    {
      ChosenFrom(domains, assignment)
    }

    /** `TilePlacementCSP.__init__`: every grid cell starts with all three tile types, nothing assigned. */
    constructor (problem: Problem)
      requires problem.Valid() && |problem.tileCounts| == TileTypes
      ensures Valid() && Chosen()
      ensures this.problem == problem && assignment == map[]
      ensures cells == GridCells(problem.gridHeight, problem.gridWidth)
      ensures forall c :: c in domains <==> problem.IsCell(c)
      ensures forall c :: c in domains ==> domains[c] == AllTiles
      ensures |domains| == problem.gridHeight * problem.gridWidth
    {
      var grid := GridCells(problem.gridHeight, problem.gridWidth);
      var initial := InitialDomains(problem.gridHeight, problem.gridWidth);
      var none: Assignment := map[];
      InitialSolverState(problem);
      this.problem := problem;
      this.cells := grid;
      this.domains := initial;
      this.assignment := none;
    }

    /**
     * `_is_consistent`: the supply of `value` is not yet exhausted by the
     * assignment, and the tile at `cell` starts inside the landscape.
     */
    function IsConsistent(cell: Cell, value: int): (ok: bool)
      reads this`assignment
      requires 0 <= value < |problem.tileCounts|
      ensures ok <==> Used(assignment, value) < problem.tileCounts[value] && problem.Fits(cell)
    {
      if problem.tileCounts[value] <= Used(assignment, value) then false
      else if cell.0 * TileSize >= problem.height || cell.1 * TileSize >= problem.width then false
      else true
    }

    /** On a grid cell the bounds test never rejects: consistency is exactly "supply left". */
    lemma ConsistentOnGrid(cell: Cell, value: int)
      requires Valid() && cell in domains && 0 <= value < TileTypes
      ensures IsConsistent(cell, value) <==> Used(assignment, value) < problem.tileCounts[value]
    {
      CellsFit(problem, cell);
    }

    /** A value some extending placement gives to an unassigned cell passes the consistency test. */
    lemma PlacementValueConsistent(d: Domains, s: Assignment, c: Cell)
      requires Valid()
      requires forall e :: e in d ==> TileValues(d[e])
      requires IsPlacement(problem, d, s) && Extends(s, assignment)
      requires c in s && c !in assignment
      ensures 0 <= s[c] < TileTypes && IsConsistent(c, s[c])
    {
      var v := s[c];
      UsedInsert(assignment, c, v, v);
      UsedExtends(assignment[c := v], s, v);
    }

    /** Some value of `dom` is consistent for `cell` (the `any(...)` test of `_ac3`). */
    predicate AnyConsistent(cell: Cell, dom: seq<int>)
      reads this`assignment
      requires |problem.tileCounts| == TileTypes && TileValues(dom)
    {
      exists v :: v in dom && IsConsistent(cell, v)
    }

    /** What `_ac3` leaves of the domain `dom` of `cell`: all of it, or nothing. */
    function Pruned(cell: Cell, dom: seq<int>): (r: seq<int>)
      reads this`assignment
      requires |problem.tileCounts| == TileTypes && TileValues(dom)
      ensures r == dom || r == []
      ensures forall v :: v in dom && IsConsistent(cell, v) ==> v in r
    {
      if AnyConsistent(cell, dom) then dom else []
    }

    /** Pruning keeps every value that an extending placement gives to an unassigned cell. */
    lemma PruningKeepsPlacements(s: Assignment, c: Cell)
      requires Valid()
      requires IsPlacement(problem, domains, s) && Extends(s, assignment)
      requires c in domains && c !in assignment
      ensures s[c] in Pruned(c, domains[c])
    {
      PlacementValueConsistent(domains, s, c);
    }

    /**
     * The body of one `_ac3` iteration for `cell`: walk a copy of its domain
     * and remove each value while no value left in the domain is consistent.
     */
    method Revise(cell: Cell) returns (revised: bool)
      requires Valid() && cell in domains
      modifies this`domains
      ensures Valid()
      ensures domains == old(domains)[cell := Pruned(cell, old(domains)[cell])]
      ensures revised <==> old(domains)[cell] != [] && domains[cell] == []
      ensures !revised ==> domains == old(domains)
    {
      revised := false;
      var values := domains[cell];
      ghost var before := domains;
      var k := 0;
      while k < |values|
        invariant 0 <= k <= |values|
        invariant domains == before[cell := values[if revised then k else 0..]]
        invariant TileValues(domains[cell])
        invariant revised ==> values != [] && !AnyConsistent(cell, values)
        invariant !revised && k > 0 ==> AnyConsistent(cell, values)
      {
        if !AnyConsistent(cell, domains[cell]) {
          assert revised || k == 0;
          var rest := values[k..];
          assert rest[1..] == values[k + 1..];
          assert TileValues(rest[1..]) by {
            forall v | v in rest[1..] ensures v in rest { }
          }
          domains := domains[cell := RemoveFirst(rest, values[k])];
          revised := true;
        }
        k := k + 1;
      }
      assert values[|values|..] == [] && values[0..] == values;
    }

    /**
     * `_ac3`: pop cells off a work queue; a cell none of whose values is
     * consistent has its domain emptied value by value, and then every cell
     * is queued again. Succeeds iff no domain ends up empty.
     */
    method Ac3() returns (ok: bool)
      requires Valid()
      modifies this`domains
      ensures Valid()
      ensures domains.Keys == old(domains).Keys
      ensures forall c :: c in domains ==> domains[c] == Pruned(c, old(domains)[c])
      ensures ok <==> forall c :: c in domains ==> domains[c] != []
    {
      ghost var start := domains;
      var queue := cells;
      while queue != []
        invariant Valid()
        invariant domains.Keys == start.Keys
        invariant forall c :: c in queue ==> c in cells
        invariant forall c :: c in domains ==> domains[c] == start[c] || domains[c] == Pruned(c, start[c])
        invariant forall c :: c in domains && c !in queue ==> domains[c] == Pruned(c, start[c])
        decreases NonEmptyDomains(domains, cells), |queue|
      {
        var cell := queue[0];
        queue := queue[1..];
        ghost var before := domains;
        var revised := Revise(cell);
        if revised {
          assert domains == before[cell := []];
          EmptyingDomainDecreases(before, cells, cell);
          queue := queue + cells;
        }
      }
      ok := forall c | c in domains :: domains[c] != [];
    }


    /**
     * `_degree_heuristic`: the other cells not yet assigned. The tie-break
     * carries no information: every unassigned cell has the same degree.
     */
    function Degree(cell: Cell): (d: nat)
      reads this
      ensures d == |domains.Keys - assignment.Keys| - (if cell in domains && cell !in assignment then 1 else 0)
    {
      var others := set n | n in domains && n != cell && n !in assignment;
      assert others == (domains.Keys - assignment.Keys) - {cell};
      |others|
    }

    /** The order of `min(..., key=(len(domain), -degree))`: `c` strictly before `d`. */
    predicate SelectedBefore(c: Cell, d: Cell)
      reads this
      requires c in domains && d in domains
    {
      |domains[c]| < |domains[d]| || (|domains[c]| == |domains[d]| && Degree(c) > Degree(d))
    }

    /**
     * Cell selection of `_backtrack`: scan the unassigned cells (a set, so in
     * no fixed order) and keep one with the smallest key.
     */
    method SelectUnassignedVariable() returns (cell: Cell)
      requires Valid()
      requires domains.Keys - assignment.Keys != {}
      ensures cell in domains && cell !in assignment
      ensures forall c :: c in domains && c !in assignment ==> |domains[cell]| <= |domains[c]|
    {
      var candidates := domains.Keys - assignment.Keys;
      cell :| cell in candidates;
      var rest := candidates - {cell};
      while rest != {}
        invariant rest <= candidates && cell in candidates
        invariant forall c :: c in candidates && c !in rest ==> !SelectedBefore(c, cell)
        decreases |rest|
      {
        var c :| c in rest;
        if SelectedBefore(c, cell) {
          cell := c;
        }
        rest := rest - {c};
      }
    }

    /** With every cell assigned, the assignment is a complete placement. */
    lemma CompleteIsPlacement()
      requires Valid() && Chosen() && |assignment| == |domains|
      ensures IsPlacement(problem, domains, assignment)
    {
      SubsetCard(assignment.Keys, domains.Keys);
      forall c | c in assignment ensures problem.Fits(c) {
        CellsFit(problem, c);
      }
    }

    /** Assigning a value that passes the consistency test keeps every tile type within supply. */
    lemma ConsistentInsertWithinSupply(cell: Cell, value: int)
      requires Valid() && cell !in assignment && 0 <= value < TileTypes
      requires IsConsistent(cell, value)
      ensures WithinSupply(assignment[cell := value], problem.tileCounts)
    {
      forall t | 0 <= t < TileTypes ensures Used(assignment[cell := value], t) <= Supply(problem.tileCounts, t) {
        UsedInsert(assignment, cell, value, t);
      }
    }

    /** A value that fails the consistency test is part of no placement extending the assignment. */
    lemma InconsistentUnsolvable(cell: Cell, value: int)
      requires Valid() && cell !in assignment && 0 <= value < TileTypes
      requires !IsConsistent(cell, value)
      ensures !Solvable(problem, domains, assignment[cell := value])
    {
      if Solvable(problem, domains, assignment[cell := value]) {
        var s :| IsPlacement(problem, domains, s) && Extends(s, assignment[cell := value]);
        PlacementValueConsistent(domains, s, cell);
      }
    }

    /**
     * One iteration of `_backtrack`'s value loop: if `value` passes the
     * consistency test, assign it, recurse, and delete it again when the
     * recursion fails.
     */
    method TryValue(cell: Cell, value: int) returns (found: bool)
      requires Valid() && Chosen() && cell in domains && cell !in assignment && value in domains[cell]
      modifies this`assignment
      ensures Valid() && Chosen()
      ensures found ==> Extends(assignment, old(assignment)[cell := value]) && IsPlacement(problem, domains, assignment)
      ensures !found ==> assignment == old(assignment) && !Solvable(problem, domains, old(assignment)[cell := value])
      decreases |domains.Keys - assignment.Keys|, 0
    {
      ghost var entry := assignment;
      if !IsConsistent(cell, value) {
        InconsistentUnsolvable(cell, value);
        return false;
      }
      ConsistentInsertWithinSupply(cell, value);
      assignment := assignment[cell := value];
      assert domains.Keys - assignment.Keys == (domains.Keys - entry.Keys) - {cell};
      var result := Backtrack();
      if result.Some? {
        return true;
      }
      assignment := assignment - {cell};
      DeleteUndoesInsert(entry, cell, value);
      return false;
    }

    /**
     * The value loop of `_backtrack`: try the values of `cell` in the given
     * order until one leads to a complete placement.
     */
    method TryValues(cell: Cell, values: seq<int>) returns (found: bool)
      requires Valid() && Chosen() && cell in domains && cell !in assignment
      requires multiset(values) == multiset(domains[cell])
      modifies this`assignment
      ensures Valid() && Chosen()
      ensures found ==> Extends(assignment, old(assignment)) && IsPlacement(problem, domains, assignment)
      ensures found ==> cell in assignment && exists k :: (0 <= k < |values| && assignment[cell] == values[k]
        && !SolvableWith(problem, domains, old(assignment), cell, values[..k]))
      ensures !found ==> assignment == old(assignment) && !Solvable(problem, domains, old(assignment))
      decreases |domains.Keys - assignment.Keys|, 1
    {
      ghost var entry, d := assignment, domains;
      NothingTried(problem, d, entry, cell, values);
      var k := 0;
      while k < |values|
        invariant 0 <= k <= |values|
        invariant Valid() && Chosen() && assignment == entry && domains == d
        invariant !SolvableWith(problem, d, entry, cell, values[..k])
      {
        assert values[k] in multiset(domains[cell]);
        found := TryValue(cell, values[k]);
        if found {
          ExtendsInsert(assignment, entry, cell, values[k]);
          return;
        }
        TriedOneMore(problem, d, entry, cell, values, k);
        k := k + 1;
      }
      ExhaustedUnsolvable(problem, d, entry, cell, values, k);
      return false;
    }

    /**
     * `_backtrack`: if every cell is assigned, succeed; otherwise pick a cell
     * and try its values in least-constraining order.
     */
    method Backtrack() returns (r: Option<Assignment>)
      requires Valid() && Chosen()
      modifies this`assignment
      ensures Valid() && Chosen()
      ensures r.Some? ==> r.value == assignment
      ensures r.Some? ==> Extends(assignment, old(assignment)) && IsPlacement(problem, domains, assignment)
      ensures r.None? ==> assignment == old(assignment) && !Solvable(problem, domains, old(assignment))
      decreases |domains.Keys - assignment.Keys|, 2
    {
      if |assignment| == |domains| {
        CompleteIsPlacement();
        return Some(assignment);
      }
      SubsetCard(assignment.Keys, domains.Keys);
      var cell := SelectUnassignedVariable();
      var d, cs := domains, cells;
      var values := SortByKey(domains[cell], v => LeastConstrainingValue(d, cs, v));
      var found := TryValues(cell, values);
      if found {
        return Some(assignment);
      }
      return None;
    }

    /**
     * `solve`: propagate, then search. On a freshly built solver it returns a
     * complete placement exactly when one exists.
     */
    method Solve() returns (r: Option<Assignment>)
      requires Valid() && assignment == map[]
      modifies this
      ensures Valid()
      ensures domains.Keys == old(domains).Keys
      ensures forall c :: c in domains ==> domains[c] == old(domains)[c] || domains[c] == []
      ensures r.Some? ==> r.value == assignment && domains == old(domains) && IsPlacement(problem, old(domains), r.value)
      ensures r.None? ==> assignment == map[]
      ensures r.None? <==> !Solvable(problem, old(domains), map[])
    {
      ghost var initial := domains;
      var ok := Ac3();
      assert Chosen();
      // Propagation loses no placement: each one survives into the pruned domains.
      forall s | IsPlacement(problem, initial, s) ensures IsPlacement(problem, domains, s) {
        forall c | c in s ensures s[c] in domains[c] {
          PlacementValueConsistent(initial, s, c);
        }
      }
      if !ok {
        return None;
      }
      r := Backtrack();
      if r.Some? {
        forall c | c in domains ensures domains[c] == initial[c] {
          assert domains[c] != [];
        }
        assert domains == initial;
      }
    }
  }
}
