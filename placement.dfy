/**
 * Placement cells, domains and assignments of the tile-placement CSP, and the
 * facts about tile usage that the propagator and the search rely on.
 */
module Placement {
  import opened TileProblem

  type Cell = Pos

  /** A partial map from placement cell to tile type (`self.assignment`). */
  type Assignment = map<Cell, int>

  /** Per-cell list of tile types still possible (`self.domains`). */
  type Domains = map<Cell, seq<int>>

  /** The cells of a `gridHeight` x `gridWidth` grid in row-major order: the key order of `self.domains`. */
  function GridCells(gridHeight: nat, gridWidth: nat): (cells: seq<Cell>)
    ensures |cells| == gridHeight * gridWidth
    ensures forall c :: c in cells <==> 0 <= c.0 < gridHeight && 0 <= c.1 < gridWidth
    ensures forall a, b :: 0 <= a < b < |cells| ==> RowMajorBefore(cells[a], cells[b])
  {
    if gridHeight == 0 then []
    else
      var upper := GridCells(gridHeight - 1, gridWidth);
      var row := RowCells(gridHeight - 1, gridWidth);
      assert |upper + row| == gridHeight * gridWidth by {
        assert (gridHeight - 1) * gridWidth + gridWidth == gridHeight * gridWidth;
      }
      upper + row
  }

  /** Cells (row, 0) .. (row, width - 1). */
  function RowCells(row: int, width: nat): (cells: seq<Cell>)
    ensures |cells| == width
    ensures forall c :: c in cells <==> c.0 == row && 0 <= c.1 < width
    ensures forall a, b :: 0 <= a < b < |cells| ==> cells[a].0 == row && cells[a].1 < cells[b].1
  {
    if width == 0 then [] else RowCells(row, width - 1) + [(row, width - 1)]
  }

  /** A strictly row-major sequence holds as many distinct cells as it has entries. */
  lemma {:induction false} SortedCellsCount(cells: seq<Cell>)
    requires forall a, b :: 0 <= a < b < |cells| ==> RowMajorBefore(cells[a], cells[b])
    ensures |set c | c in cells| == |cells|
  {
    if cells != [] {
      var init := cells[..|cells| - 1];
      var last := cells[|cells| - 1];
      SortedCellsCount(init);
      assert (set c | c in cells) == (set c | c in init) + {last};
      assert last !in init by {
        forall a | 0 <= a < |init| ensures init[a] != last {
          assert RowMajorBefore(cells[a], cells[|cells| - 1]);
        }
      }
    }
  }

  /** The domain map has exactly grid_height * grid_width keys. */
  lemma GridCellCount(gridHeight: nat, gridWidth: nat)
    ensures |set c | c in GridCells(gridHeight, gridWidth)| == gridHeight * gridWidth
  {
    SortedCellsCount(GridCells(gridHeight, gridWidth));
  }

  /** A subset's complement in a superset holds the rest of the elements. */
  lemma SubsetCard<T>(a: set<T>, b: set<T>)
    requires a <= b
    ensures |b| == |a| + |b - a|
  {
    assert b == a + (b - a);
  }

  /** Number of assigned cells holding tile `t` (`sum(v == value for v in assignment.values())`). */
  function Used(a: Assignment, t: int): nat {
    |set c | c in a && a[c] == t|
  }

  /** Tiles of type `t` that may be placed: the supply entry, or none when it is not positive. */
  function Supply(counts: seq<int>, t: int): nat
    requires 0 <= t < |counts|
  {
    if counts[t] > 0 then counts[t] else 0
  }

  predicate WithinSupply(a: Assignment, counts: seq<int>) {
    forall t :: 0 <= t < |counts| ==> Used(a, t) <= Supply(counts, t)
  }

  /** Assigning an unassigned cell raises the usage of its tile by one and no other. */
  lemma UsedInsert(a: Assignment, c: Cell, v: int, t: int)
    requires c !in a
    ensures Used(a[c := v], t) == Used(a, t) + (if v == t then 1 else 0)
  {
    var b := a[c := v];
    var before := set d | d in a && a[d] == t;
    var after := set d | d in b && b[d] == t;
    if v == t {
      assert after == before + {c};
    } else {
      assert after == before;
    }
  }

  /** `b` agrees with `a` on every cell `a` assigns. */
  predicate Extends(b: Assignment, a: Assignment) {
    forall c :: c in a ==> c in b && b[c] == a[c]
  }

  /** Extending an assignment with one more cell extends the assignment itself. */
  lemma ExtendsInsert(b: Assignment, a: Assignment, c: Cell, v: int)
    requires Extends(b, a[c := v])
    ensures c in b && b[c] == v
    ensures c !in a ==> Extends(b, a)
  {
  }

  /** Nothing is used by an empty assignment. */
  lemma UsedEmpty(a: Assignment, t: int)
    requires a == map[]
    ensures Used(a, t) == 0
  {
    assert (set c | c in a && a[c] == t) == {};
  }

  /** A placement extending an assignment also extends it with any one of its own cells. */
  lemma ExtendsOwnValue(s: Assignment, a: Assignment, c: Cell)
    requires c in s
    ensures Extends(s, a) ==> Extends(s, a[c := s[c]])
  {
  }

  /** Deleting a freshly inserted cell restores the assignment (`del assignment[var]`). */
  lemma DeleteUndoesInsert(a: Assignment, c: Cell, v: int)
    requires c !in a
    ensures a[c := v] - {c} == a
  {
  }

  /** Usage only grows as an assignment is extended. */
  lemma UsedExtends(a: Assignment, b: Assignment, t: int)
    requires Extends(b, a)
    ensures Used(a, t) <= Used(b, t)
  {
    var sa := set d | d in a && a[d] == t;
    var sb := set d | d in b && b[d] == t;
    assert sa <= sb;
    assert sb == sa + (sb - sa);
  }

  /** Every value is a tile type. */
  predicate TileValues(s: seq<int>) {
    forall v :: v in s ==> 0 <= v < TileTypes
  }

  /**
   * A complete placement: every cell of the domain map gets a value from its
   * domain, every tile starts inside the landscape, and no tile type is used
   * beyond its supply.
   */
  ghost predicate IsPlacement(p: Problem, domains: Domains, a: Assignment) {
    && a.Keys == domains.Keys
    && (forall c :: c in a ==> a[c] in domains[c] && p.Fits(c))
    && WithinSupply(a, p.tileCounts)
  }

  /** Some complete placement extends `a`. */
  ghost predicate Solvable(p: Problem, domains: Domains, a: Assignment) {
    exists s :: IsPlacement(p, domains, s) && Extends(s, a)
  }

  /** Some complete placement extends `a` and gives `cell` one of the values `vs`. */
  ghost predicate SolvableWith(p: Problem, domains: Domains, a: Assignment, cell: Cell, vs: seq<int>) {
    exists s :: IsPlacement(p, domains, s) && Extends(s, a) && cell in s && s[cell] in vs
  }

  /** No placement gives a cell a value from the empty list. */
  lemma NothingTried(p: Problem, domains: Domains, a: Assignment, cell: Cell, values: seq<int>)
    ensures !SolvableWith(p, domains, a, cell, values[..0])
  {
  }

  /**
   * Adding a value that leads to no placement to the list of tried values
   * keeps the list hopeless.
   */
  lemma TriedOneMore(p: Problem, domains: Domains, a: Assignment, cell: Cell, values: seq<int>, k: nat)
    requires k < |values|
    requires !SolvableWith(p, domains, a, cell, values[..k])
    requires !Solvable(p, domains, a[cell := values[k]])
    ensures !SolvableWith(p, domains, a, cell, values[..k + 1])
  {
    forall s | IsPlacement(p, domains, s) && Extends(s, a) && cell in s
      ensures s[cell] !in values[..k + 1]
    {
      assert values[..k + 1] == values[..k] + [values[k]];
      ExtendsOwnValue(s, a, cell);
    }
  }

  /**
   * When no value of a cell's domain leads to a placement, no placement
   * extends the assignment at all.
   */
  lemma ExhaustedUnsolvable(p: Problem, domains: Domains, a: Assignment, cell: Cell, values: seq<int>, k: nat)
    requires cell in domains && k == |values|
    requires multiset(values) == multiset(domains[cell])
    requires !SolvableWith(p, domains, a, cell, values[..k])
    ensures !Solvable(p, domains, a)
  {
    assert values[..k] == values;
    forall s | IsPlacement(p, domains, s) ensures !Extends(s, a) {
      assert s[cell] in multiset(domains[cell]);
    }
  }

  /** The usages of the three tile types add up to the number of assigned cells. */
  lemma UsedPartition(a: Assignment)
    requires forall c :: c in a ==> 0 <= a[c] < TileTypes
    ensures Used(a, FullBlock) + Used(a, OuterBoundary) + Used(a, ElShape) == |a|
  {
    var s0 := set d | d in a && a[d] == 0;
    var s1 := set d | d in a && a[d] == 1;
    var s2 := set d | d in a && a[d] == 2;
    assert a.Keys == s0 + s1 + s2;
    assert s0 !! s1 && (s0 + s1) !! s2;
    assert |s0 + s1| == |s0| + |s1|;
    assert |a.Keys| == |s0 + s1| + |s2|;
  }

  /** Total supply = what can be placed at most. */
  function TotalSupply(counts: seq<int>): nat
    requires |counts| == TileTypes
  {
    Supply(counts, FullBlock) + Supply(counts, OuterBoundary) + Supply(counts, ElShape)
  }

  /**
   * Unsatisfiability by counting: when the supply is smaller than the number of
   * cells, no complete placement over tile-type domains exists.
   */
  lemma ShortSupplyUnsolvable(p: Problem, domains: Domains, a: Assignment)
    requires |p.tileCounts| == TileTypes
    requires forall c :: c in domains ==> TileValues(domains[c])
    requires TotalSupply(p.tileCounts) < |domains.Keys|
    ensures !IsPlacement(p, domains, a)
  {
    if IsPlacement(p, domains, a) {
      UsedPartition(a);
    }
  }
}
