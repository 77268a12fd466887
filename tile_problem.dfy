/**
 * The tile-placement problem instance: the landscape, the coarse grid of 4x4
 * placement cells laid over it (rounded up at the edges), and the index of
 * positive landscape markers ("bushes") by marker value.
 */
module TileProblem {

  /** Edge length of one tile in landscape cells. */
  const TileSize: nat := 4

  /** Tile types, by index into the supply vector. */
  const FullBlock: int := 0
  const OuterBoundary: int := 1
  const ElShape: int := 2
  const TileTypes: nat := 3

  /** A landscape position or a placement cell: (row, column). */
  type Pos = (int, int)

  type Landscape = seq<seq<int>>

  /** At least one row, and every row as wide as the first. */
  predicate Rectangular(land: Landscape) {
    |land| > 0 && forall i :: 0 <= i < |land| ==> |land[i]| == |land[0]|
  }

  /** Number of tiles needed to cover `extent` landscape cells: `(extent + 3) // 4`. */
  function GridExtent(extent: nat): (tiles: nat)
    ensures tiles * TileSize >= extent
    ensures tiles > 0 ==> (tiles - 1) * TileSize < extent
  {
    (extent + TileSize - 1) / TileSize
  }

  /** Every tile of the coarse grid starts inside the landscape. */
  lemma TileOriginInside(extent: nat, i: int)
    requires 0 <= i < GridExtent(extent)
    ensures i * TileSize < extent
  {
    var tiles := GridExtent(extent);
    assert i * TileSize <= (tiles - 1) * TileSize;
  }

  /** `p` comes strictly before `q` in row-major order. */
  predicate RowMajorBefore(p: Pos, q: Pos) {
    p.0 < q.0 || (p.0 == q.0 && p.1 < q.1)
  }

  predicate InLandscape(land: Landscape, p: Pos) {
    0 <= p.0 < |land| && 0 <= p.1 < |land[p.0]|
  }

  /** The marker index: value -> positions bearing it, positive values only. */
  type BushIndex = map<int, set<Pos>>

  /** What `_find_bush_locations` computes, stated position by position. */
  ghost predicate IsBushIndex(land: Landscape, index: BushIndex) {
    && (forall v :: v in index ==> index[v] != {})
    && (forall v, p :: v in index && p in index[v] <==> InLandscape(land, p) && land[p.0][p.1] == v && v > 0)
  }

  /** The problem as `TilePlacementProblem.__init__` leaves it. */
  datatype Problem = Problem(
    landscape: Landscape,
    height: nat,
    width: nat,
    tileCounts: seq<int>,
    gridHeight: nat,
    gridWidth: nat,
    bushLocations: BushIndex)
  {
    ghost predicate Valid() {
      && Rectangular(landscape)
      && height == |landscape|
      && width == |landscape[0]|
      && Gridded()
      && IsBushIndex(landscape, bushLocations)
    }

    /** The coarse grid covers the landscape, rounding up. */
    predicate Gridded() {
      gridHeight == GridExtent(height) && gridWidth == GridExtent(width)
    }

    /** The tile at placement cell `c` starts inside the landscape. */
    predicate Fits(c: Pos) {
      c.0 * TileSize < height && c.1 * TileSize < width
    }

    /** `c` is one of the coarse grid's cells. */
    predicate IsCell(c: Pos) {
      0 <= c.0 < gridHeight && 0 <= c.1 < gridWidth
    }
  }

  /** Every cell of the coarse grid passes the origin-bounds test. */
  lemma CellsFit(p: Problem, c: Pos)
    requires p.Gridded() && p.IsCell(c)
    ensures p.Fits(c)
  {
    TileOriginInside(p.height, c.0);
    TileOriginInside(p.width, c.1);
  }

  /** `_find_bush_locations`: scan the landscape row by row, adding each positive cell. */
  method FindBushLocations(land: Landscape) returns (index: BushIndex)
    requires Rectangular(land)
    ensures IsBushIndex(land, index)
  {
    var height, width := |land|, |land[0]|;
    index := map[];
    var i := 0;
    while i < height
      invariant 0 <= i <= height
      invariant forall v :: v in index ==> index[v] != {}
      invariant forall v, p :: v in index && p in index[v] <==>
        InLandscape(land, p) && p.0 < i && land[p.0][p.1] == v && v > 0
    {
      var j := 0;
      while j < width
        invariant 0 <= j <= width
        invariant forall v :: v in index ==> index[v] != {}
        invariant forall v, p :: v in index && p in index[v] <==>
          InLandscape(land, p) && RowMajorBefore(p, (i, j)) && land[p.0][p.1] == v && v > 0
      {
        var v := land[i][j];
        if v > 0 {
          var old_set := if v in index then index[v] else {};
          index := index[v := old_set + {(i, j)}];
        }
        j := j + 1;
      }
      i := i + 1;
    }
  }

  /** `TilePlacementProblem.__init__` (the unused visibility targets are not kept). */
  method NewProblem(landscape: Landscape, tileCounts: seq<int>) returns (p: Problem)
    requires Rectangular(landscape)
    ensures p.Valid()
    ensures p.landscape == landscape && p.tileCounts == tileCounts
    ensures p.height == |landscape| && p.width == |landscape[0]|
  {
    var height, width := |landscape|, |landscape[0]|;
    var gridHeight := (height + TileSize - 1) / TileSize;
    var gridWidth := (width + TileSize - 1) / TileSize;
    var bushes := FindBushLocations(landscape);
    p := Problem(landscape, height, width, tileCounts, gridHeight, gridWidth, bushes);
  }
}
