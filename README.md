# Tile placement CSP and N-puzzle A* — a Dafny model

This project models two small grid solvers of the AI_Projects repository and
proves properties of the model.

**Tile placement** (`Project_2/tile_placement.py`). A landscape of integers is
covered by a coarse grid of 4x4 tiles, with the grid rounded up at the edges.
Each grid cell gets one of three tile types: FULL_BLOCK, OUTER_BOUNDARY or
EL_SHAPE. The number of tiles of each type is limited by a supply vector read
from the input. The model covers:

- **`TileParser`**: the input parser after the lines have been read. It cleans
  the lines, reads landscape rows up to the `{...}` tile-count line, reads the
  tile counts and the `color:count` visibility lines, and pads the landscape to
  a rectangle.
- **`TileProblem`**: the problem instance. This is the grid dimensions and the
  index of positive landscape markers.
- **`Placement`**: assignments, supply usage and what a complete placement is.
- **`TileCsp`**: the solver class (`Csp`), whose `domains` and `assignment`
  fields change in place. It holds the AC-3-style propagation pass
  (`Ac3`/`Revise`), the recursive backtracking search
  (`Backtrack`/`TryValues`/`TryValue`), cell selection, the
  least-constraining-value order and `Solve`.

**N-puzzle** (`Project_1/n-puzzle.py` and its near-copy `project_1.py`, whose
search code is the same). Boards are n-by-n grids with 0 as the blank. The
model covers:

- **`PuzzleBoard`**: the goal layout, locating the blank, the Manhattan-distance
  heuristic and neighbour generation.
- **`PuzzleSearch`**: the A* loop. The heap becomes a sequence with
  min-extraction by `(f, g)`, and `visited` becomes a set. A returned path is
  proved to reach the goal one legal move at a time. The loop is proved to
  terminate, because only boards over the start board's tiles are ever
  expanded, and each board is expanded at most once.

`Wrappers` holds the `Option`/`Result` types used for the error paths.

## Model

| member | source | states |
|---|---|---|
| TileParser.StripIdempotent | Project_2/tile_placement.py:18 | stripping an already stripped line changes nothing |
| TileParser.CleanLines | Project_2/tile_placement.py:18 | every kept line is non-empty and already stripped; no lines are added |
| TileParser.CleanLinesAppend | Project_2/tile_placement.py:18 | the filter works line by line: cleaning a concatenation cleans each part |
| TileParser.CleanOneLine | Project_2/tile_placement.py:18 | a line is kept, stripped, exactly when its stripped form is non-empty and the unstripped line does not begin with `#` |
| TileParser.SplitRuns | Project_2/tile_placement.py:30 | `re.split(r'\s+', ...)` always yields at least one piece |
| TileParser.SplitRunsNoSpace | Project_2/tile_placement.py:30 | no piece contains whitespace |
| TileParser.SplitRunsKeepsText | Project_2/tile_placement.py:30 | the pieces, concatenated, are exactly the non-whitespace characters of the line: the split loses only whitespace |
| TileParser.SplitRunsOfStripped | Project_2/tile_placement.py:29-30 | on a stripped non-empty line no piece is empty, so each piece goes to `int()` as a real token |
| TileParser.SplitOn | Project_2/tile_placement.py:40 | `str.split(sep)` yields at least one piece and no piece contains the separator |
| TileParser.JoinSplitOn | Project_2/tile_placement.py:40 | joining the pieces of a split with the separator gives the string back |
| TileParser.SplitOnJoin | Project_2/tile_placement.py:43 | splitting a join of separator-free pieces gives the pieces back |
| TileParser.MapAll | Project_2/tile_placement.py:27-34 | on success every line converts, in order, to its row; on failure the error index is the first line that does not convert |
| TileParser.MapAllPrefix | Project_2/tile_placement.py:33-34 | once a prefix of the rows fails, later rows do not change the error |
| TileParser.LandscapeEnd | Project_2/tile_placement.py:27 | the landscape ends at the first line starting with `{`, or at the end of the input |
| TileParser.Collect | Project_2/tile_placement.py:57-63 | a dictionary-filling loop over the selected lines: the error index is the first selected line that does not convert, and on success every selected line converts |
| TileParser.CollectPrefix | Project_2/tile_placement.py:62-63 | an error in a prefix is the error of the whole loop |
| TileParser.CollectLastWins | Project_2/tile_placement.py:42-44 | the dictionary holds exactly the keys of the converted entries, each with the value of its last occurrence |
| TileParser.CountEntryRoundTrip | Project_2/tile_placement.py:43-44 | an item written as `name=text`, where `text` converts to `v`, is read back as `(name.strip(), v)` |
| TileParser.TileCountsOf | Project_2/tile_placement.py:46-51 | the supply vector has one entry per tile type |
| TileParser.TileCountsFromItems | Project_2/tile_placement.py:37-54 | the line is read exactly when every item is well formed; each supply is the count of the last item naming that type, or 0 when no item names it |
| TileParser.MaxWidth | Project_2/tile_placement.py:70 | the width is that of the widest row: no row is wider, and some row has that width |
| TileParser.ParseRow | Project_2/tile_placement.py:30 | a landscape line converts exactly when every whitespace-separated piece converts, and the row holds those values in order, one per piece |
| TileParser.VisibilityEntryRoundTrip | Project_2/tile_placement.py:59-61 | a line written as `color:count`, with no surrounding whitespace and both numbers converting, is read back as that (colour, count) pair |
| TileParser.Pad | Project_2/tile_placement.py:69-71 | after padding the landscape is rectangular with as many rows as before, each as wide as the widest row, starting with the original row and continuing with zeros only |
| TileParser.Parse | Project_2/tile_placement.py:24-73 | a successful parse gives a non-empty rectangular landscape with one row per line before the `{` line, and three supply counts |
| TileParser.ParseOkRows | Project_2/tile_placement.py:27-71 | on success each landscape row is its converted line followed by zeros |
| TileParser.ParseBadRow | Project_2/tile_placement.py:33-34 | the first landscape line that does not convert is reported with its line number, counted from 1 over the cleaned lines |
| TileParser.NoLandscapeFails | Project_2/tile_placement.py:66-67 | input with no landscape rows is an error |
| TileParser.NoLandscapeError | Project_2/tile_placement.py:66-67 | with well-formed tile counts and visibility lines, input with no landscape rows fails with exactly the "no landscape data" error |
| TileParser.ParseOkSupply | Project_2/tile_placement.py:36-51 | the supply of a successful parse is the vector read from the tile-count line, or all zeros when there is no such line |
| TileParser.NoTileLineZeroSupply | Project_2/tile_placement.py:21 | with no tile-count line every supply is 0 |
| TileParser.ReadLandscape | Project_2/tile_placement.py:25-34 | the row loop returns the converted rows before the `{` line, or the index of the first bad row |
| TileParser.ReadTileCounts | Project_2/tile_placement.py:37-54 | the item loop and the three `get(name, 0)` lookups compute the supply vector, or fail on a malformed item |
| TileParser.ReadVisibility | Project_2/tile_placement.py:56-63 | the loop over the remaining lines fills `target_visible` from the lines containing `:`, or fails at the first bad one |
| TileParser.ParseLines | Project_2/tile_placement.py:20-73 | the three loops, the emptiness check and the padding compute the parse result, errors included |
| TileParser.ParseInput | Project_2/tile_placement.py:8-73 | the parser on the raw lines is the parse of the cleaned lines with `int()` as the conversion |
| TileProblem.GridExtent | Project_2/tile_placement.py:87-88 | `(x + 3) // 4` is the ceiling of x / 4: that many tiles cover x cells, and one fewer would not |
| TileProblem.TileOriginInside | Project_2/tile_placement.py:86-88 | every tile row or column of the coarse grid starts inside the landscape |
| TileProblem.CellsFit | Project_2/tile_placement.py:219-223 | on every grid cell the bounds test of `_is_consistent` passes |
| TileProblem.FindBushLocations | Project_2/tile_placement.py:91-97 | `(i, j)` is listed under `v` exactly when `landscape[i][j] == v` and `v > 0`; no key has an empty set |
| TileProblem.NewProblem | Project_2/tile_placement.py:81-89 | the constructor keeps the landscape and supply, records height and width, computes the rounded-up grid and the marker index |
| Placement.GridCells | Project_2/tile_placement.py:105 | the domain keys are exactly the cells `(i, j)` with `i < grid_height` and `j < grid_width`, `grid_height * grid_width` of them, in row-major order |
| Placement.GridCellCount | Project_2/tile_placement.py:105 | the domain map has exactly `grid_height * grid_width` keys |
| Placement.UsedInsert | Project_2/tile_placement.py:193 | assigning an unassigned cell raises the count of its own tile type by one and leaves the other counts alone |
| Placement.UsedEmpty | Project_2/tile_placement.py:106 | the initial empty assignment uses no tiles |
| Placement.DeleteUndoesInsert | Project_2/tile_placement.py:193-196 | `del assignment[var]` after inserting `var` restores the assignment |
| Placement.UsedExtends | Project_2/tile_placement.py:216 | the usage count only grows as the assignment is extended |
| Placement.NothingTried | Project_2/tile_placement.py:191 | before the value loop no value has been tried |
| Placement.TriedOneMore | Project_2/tile_placement.py:191-196 | a value that leads to no placement keeps the tried values hopeless |
| Placement.ExhaustedUnsolvable | Project_2/tile_placement.py:197 | when every value of the chosen cell has failed, no placement extends the assignment |
| Placement.UsedPartition | Project_2/tile_placement.py:216 | the usages of the three tile types add up to the number of assigned cells |
| Placement.ShortSupplyUnsolvable | Project_2/tile_placement.py:187-197 | when the positive supplies sum to fewer than the number of cells, no complete placement exists |
| TileCsp.SortByKey | Project_2/tile_placement.py:191 | `sorted(..., key=...)` gives a permutation of the domain in ascending key order |
| TileCsp.InsertByKey | Project_2/tile_placement.py:191 | inserting into a key-sorted list keeps it sorted and adds exactly the new value |
| TileCsp.SortStable | Project_2/tile_placement.py:191 | the sort is stable: for every key, the values with that key come out in the order they went in |
| TileCsp.SortEqualKeys | Project_2/tile_placement.py:191 | when all keys are equal the sort changes nothing |
| TileCsp.LeastConstrainingValue | Project_2/tile_placement.py:227-229 | the score of a value is 0 exactly when no listed cell still has it in its domain |
| TileCsp.LeastConstrainingValueUniform | Project_2/tile_placement.py:227-229 | when every cell has the same domain, each of its values scores the number of cells times the domain size |
| TileCsp.UniformDomainsKeepOrder | Project_2/tile_placement.py:191 | with uniform domains the least-constraining-value order is the domain's own order |
| TileCsp.FirstIndex | Project_2/tile_placement.py:207 | the index found holds `x`, and no earlier position does |
| TileCsp.RemoveFirst | Project_2/tile_placement.py:207 | `list.remove(x)` cuts out the first occurrence of a present value, keeping the rest in order (one copy fewer in the multiset) |
| TileCsp.EmptyingDomainDecreases | Project_2/tile_placement.py:207-210 | emptying a non-empty domain lowers the count of non-empty domains, which bounds the re-queueing |
| TileCsp.InitialDomains | Project_2/tile_placement.py:105 | the keys are exactly the cells `(i, j)` with `i < grid_height` and `j < grid_width`, `grid_height * grid_width` of them, each with the domain `[0, 1, 2]` |
| TileCsp.InitialSolverState | Project_2/tile_placement.py:103-107 | the freshly built domains and empty assignment satisfy the solver invariant, with `grid_height * grid_width` cells |
| TileCsp.Csp.constructor | Project_2/tile_placement.py:103-107 | every grid cell starts with all three tile types, nothing is assigned, and the invariant holds |
| TileCsp.Csp.ConsistentOnGrid | Project_2/tile_placement.py:213-225 | on a grid cell, `_is_consistent` holds exactly when fewer tiles of that type are assigned than the supply |
| TileCsp.Csp.PlacementValueConsistent | Project_2/tile_placement.py:213-225 | a value that some complete placement extending the assignment gives to an unassigned cell passes the consistency test |
| TileCsp.Csp.Pruned | Project_2/tile_placement.py:205-208 | propagation leaves a domain whole or empties it, and never drops a consistent value |
| TileCsp.Csp.PruningKeepsPlacements | Project_2/tile_placement.py:205-208 | pruning keeps every value that a complete placement gives to an unassigned cell |
| TileCsp.Csp.Revise | Project_2/tile_placement.py:204-208 | one pass over a copy of a cell's domain empties it exactly when no value in it is consistent; `revised` reports that; no other cell changes |
| TileCsp.Csp.Ac3 | Project_2/tile_placement.py:199-211 | the work-queue loop terminates, leaves every domain whole or empty, empties exactly the domains with no consistent value, and returns true iff no domain is empty |
| TileCsp.Csp.Degree | Project_2/tile_placement.py:231-233 | the degree of every unassigned cell is the number of unassigned cells minus one, so the tie-break decides nothing |
| TileCsp.Csp.SelectUnassignedVariable | Project_2/tile_placement.py:190 | the chosen cell is unassigned and has a smallest domain among the unassigned cells |
| TileCsp.Csp.CompleteIsPlacement | Project_2/tile_placement.py:188-189 | when every cell is assigned, the assignment is a complete placement |
| TileCsp.Csp.ConsistentInsertWithinSupply | Project_2/tile_placement.py:191-193 | inserting a value that passed the test keeps every tile type within its supply |
| TileCsp.Csp.InconsistentUnsolvable | Project_2/tile_placement.py:192 | a value that fails the test leads to no complete placement |
| TileCsp.Csp.TryValue | Project_2/tile_placement.py:192-196 | a consistent value is inserted and the search recurses; success gives a complete placement that gives the cell this value; on failure the insert is deleted, leaving the assignment as it was, and the value leads to no placement |
| TileCsp.Csp.TryValues | Project_2/tile_placement.py:191-197 | the value loop either finds a complete placement that extends the assignment and gives the cell the first value, in the given order, that leads to one, or restores the assignment and no placement extends it |
| TileCsp.Csp.Backtrack | Project_2/tile_placement.py:187-197 | success returns the shared assignment, a complete placement that extends the entry assignment and is within supply; failure restores the entry assignment and means that no placement extends it |
| TileCsp.Csp.Solve | Project_2/tile_placement.py:109-113 | on a fresh solver, a placement over the original domains is returned exactly when one exists; propagation leaves each domain whole or empty, none is emptied when a placement is returned, and on failure the assignment stays empty |
| PuzzleBoard.GoalState | Project_1/n-puzzle.py:44-46 | the goal is n by n and holds 1, 2, ..., n*n-1 in row-major order and 0 in the last cell |
| PuzzleBoard.FindBlank | Project_1/n-puzzle.py:48-54 | the scan returns the first row-major position holding 0, or None when there is no 0 |
| PuzzleBoard.TileDistance | Project_1/n-puzzle.py:62-64 | a cell adds 0 to the heuristic exactly when it holds the blank or its own goal tile |
| PuzzleBoard.ManhattanZero | Project_1/n-puzzle.py:56-65 | the heuristic is 0 exactly when every tile sits in its goal cell |
| PuzzleBoard.Heuristic | Project_1/n-puzzle.py:56-65 | the accumulating loops compute the Manhattan distance, a sum of non-negative per-tile distances that skips the blank |
| PuzzleBoard.GetNeighbors | Project_1/n-puzzle.py:67-80 | the move loop returns one (board, new blank) pair per in-bounds direction, in the order Up, Down, Left, Right |
| PuzzleBoard.Swap | Project_1/n-puzzle.py:76-77 | the swap exchanges the two cells and leaves every other cell unchanged |
| PuzzleBoard.NeighborsAreMoves | Project_1/n-puzzle.py:71-78 | every neighbour comes from an in-bounds direction: its board is the input with the blank swapped with that cell, which is reported as the new blank |
| PuzzleBoard.NeighborCount | Project_1/n-puzzle.py:71-75 | on a board of side at least 2 there are 2 to 4 neighbours |
| PuzzleBoard.Opposite | Project_1/n-puzzle.py:71 | each direction has an opposite that undoes it |
| PuzzleBoard.MoveUndo | Project_1/n-puzzle.py:71-78 | the opposite move applied to a neighbour gives back the original board and blank |
| PuzzleSearch.Solve | Project_1/n-puzzle.py:82-105 | a returned path leads from the start to the goal, each step one move; no board is expanded twice; the loop terminates |
| PuzzleSearch.PopMin | Project_1/n-puzzle.py:89 | the popped entry has the least `(f, g)` in the heap |
| PuzzleSearch.PopKeepsEntriesOk | Project_1/n-puzzle.py:88-89 | the popped entry and the entries left keep the entry invariant |
| PuzzleSearch.Child | Project_1/n-puzzle.py:98-103 | the pushed entry holds the neighbour and its blank, its path ends at the neighbour, `g` stays equal to the path length, and `f = g + h` |
| PuzzleSearch.SuccessorEntryOk | Project_1/n-puzzle.py:98-103 | a pushed neighbour entry keeps the invariant: 0 at its blank, `g` equal to the path length, the path extended by one move, `f = g + h` |
| PuzzleSearch.SuccessorsOk | Project_1/n-puzzle.py:99 | every pushed entry keeps the invariant and holds a board not yet visited |
| PuzzleSearch.PushKeepsEntriesOk | Project_1/n-puzzle.py:98-103 | appending the successors of a good entry to a good heap gives a good heap |
| PuzzleSearch.InUniverse | Project_1/n-puzzle.py:96 | every board the search visits lies in the finite set of n-by-n boards over the start's tiles |
| PuzzleSearch.VisitShrinks | Project_1/n-puzzle.py:94-96 | visiting a board not yet visited shrinks the set of unvisited boards |
| PuzzleSearch.ExpandFresh | Project_1/n-puzzle.py:94-96 | because visited boards are skipped, the list of expanded boards stays free of repeats |
| PuzzleBoard.GoalBlankCorner | project_1.py:17-19 | the goal has exactly one blank, in the bottom-right corner |
| PuzzleBoard.FirstBlankUnique | project_1.py:21-27 | the first blank in row-major order is unique, so the scan's answer is determined by the board |
| PuzzleBoard.GoalDistanceZero | project_1.py:29-38 | the heuristic is 0 on the goal |
| PuzzleBoard.NeighborCells | project_1.py:40-53 | each neighbour is square and differs from the board only at the old blank, which now holds the moved tile, and at the new blank position, which holds 0 |
| PuzzleBoard.MoveInNeighbors | project_1.py:44-51 | every in-bounds direction yields its neighbour |
| PuzzleBoard.SwapSwap | project_1.py:49-50 | swapping the same two cells again restores the board |
| PuzzleSearch.InitialEntryOk | project_1.py:57-58 | the initial entry `(h(start), 0, start, blank_pos, [])` has 0 at its blank, `g` equal to the empty path's length, and `f = h` |
| PuzzleSearch.PushSuccessors | project_1.py:71-75 | the inner loop appends one entry per unvisited neighbour, in neighbour order, with `g + 1` and the path extended by that neighbour |
| PuzzleSearch.ChainExtend | project_1.py:73 | a path of moves extended by one more move is a path of moves ending at the new board |
| PuzzleSearch.SolvePuzzle | project_1.py:55-77 | with the goal from `generate_goal_state` and the blank from `find_blank`, a returned path leads from the start to the goal by moves (empty when the start is the goal) |

## Left out

- File reading is left out. This covers `open` and iterating the file in `parse_input_file` and `read_puzzle`. The parser starts from the lines already read.
- `read_puzzle` of both n-puzzle files is not part of this model. The search requires what it would deliver: an n-by-n board with n > 0. `project_1.py` does not check this itself.
- `int()` is a parameter `toInt: string -> Option<int>`, where `None` stands for a `ValueError`. `ConvertersFor` builds the parser's conversions on it. Python's exact `int()` syntax is not modelled.
- The target-visibility lines are parsed, including their error path, but `visible_bushes` and the visibility values are never used by the solver. They are left out of the problem instance.
- numpy arrays are modelled as sequences of rows. `print_solution`, `print_grid`, `main`, timing and `sys.exit` are display and CLI code, and are left out.
- `TileCsp.Csp.SelectUnassignedVariable`: Python's `min` over a set difference depends on hash order. The model scans the set in an unspecified order. It promises a cell of least domain size, not the exact cell CPython picks. The degree tie-break is modelled, and is proved to be the same for every unassigned cell.
- `PuzzleSearch.PopMin`: `heapq` compares whole tuples. When `f` and `g` tie, it goes on to compare the boards. The model promises an entry of least `(f, g)`, and leaves the choice among such ties open.
- `PuzzleSearch.Solve` and `PuzzleSearch.SolvePuzzle` do not claim that the path is shortest, and they do not claim that a path is found whenever one exists. The comment on the final `return None` expects a path for every valid input. Completeness and optimality are not proved here.
- `PuzzleSearch.SolvePuzzle` requires a blank on the start board. Without one, `find_blank` returns None and the first `get_neighbors` call fails on it, unless the start board is the goal, which always has a blank.
- `TileCsp.RemoveFirst` returns the list unchanged when the value is absent. Python's `list.remove` raises `ValueError` there. That case cannot arise at `Project_2/tile_placement.py:207`, because the value removed is always the first element of the list it is removed from.
- `_ac3` follows the code, not its docstring. The test at `Project_2/tile_placement.py:206` ignores the value being visited. So a domain is either kept whole or emptied, and single values are never pruned.

## Notes on arithmetic

- `heuristic` uses Python's `//` and `%`, which round toward negative infinity. For the positive divisor `n` these agree with Dafny's Euclidean `/` and `%`, including for negative tile values.
- Python integers are unbounded, so no wrap-around is modelled.
