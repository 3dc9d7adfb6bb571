# N-puzzle solver core, modelled in Dafny

The repository is a Rust solver for the N-puzzle (the 8-puzzle and its larger
relatives). A board is a `size`×`size` grid of tiles `0 .. size²-1`, and `0` is the
blank. This project models the solver's core:

- **Heuristics** (`src/heuristic.rs`). These are Hamming distance, Manhattan distance
  and linear conflict, together with their helpers. The helpers are the distance, the
  goal position of a tile, the goal-row and goal-column checks, and the column and row
  conflict scans.
- **Search node** (`src/node.rs`). This covers the f-score ordering, equality by board,
  the swap of two cells, and the successor boards and nodes.
- **Open and closed lists** of the A* search (`src/graph.rs`). This covers appending,
  the cost check, and the sorted insertion.
- **Random board generator and solvability test** (`src/puzzle.rs`, `src/generator.rs`).
- **Comment filter of the puzzle file parser** (`src/parser.rs`).

A board is `Grid.Puzzle(size, data)`. `data` is a sequence of rows, and the cell
at column `x`, row `y` is `data[y][x]`, as in src/heuristic.rs and src/graph.rs. Every nested `for y { for x }`
loop of the source becomes a recursion over a row-major cursor `(x, y)`. A Rust panic
(an index out of bounds, an `unwrap` of `None`, an explicit `panic!`) becomes `None`
of `Seqs.Option`. Integers are unbounded `nat`.

The goal board is produced by `get_final_state`, which is not part of this model.
Every heuristic therefore takes the goal as an explicit argument (`goal`) next to the
current board (`cur`). The heuristic function stored in a `Graph`, or passed to
`calculate_next_nodes`, is a function parameter. The random index drawn by
`gen_range` is also a parameter: any sequence of in-range draws is a possible run.

Modules:

- `Seqs`: options, `0..n`, removal at an index, first index of a value.
- `Grid`: boards, cells, `get_position`, `set_value`, row-major flattening, tile multisets.
- `Heuristic`: `src/heuristic.rs`.
- `HeuristicExamples` and `ConflictExamples`: the unit tests of `src/heuristic.rs`,
  stated over any board with the test's layout.
- `SearchNode`: `src/node.rs`.
- `NodeExamples`: the unit tests of `src/node.rs`.
- `SearchGraph`: `src/graph.rs`.
- `Solvability` and `SolvabilityExamples`: `is_solvable` and its tests.
- `RandomPuzzle`: `Puzzle::new` and its tests.
- `Parser`: `src/parser.rs`.

## Model

| member | source | states |
|---|---|---|
| Seqs.Range | src/heuristic.rs:128 | `(0..n).collect()`: `n` entries, entry `i` holding `i` |
| Seqs.RemoveAt | src/heuristic.rs:138 | `Vec::remove(i)`: the result is one shorter, entries before `i` are kept and entries after it shift down by one |
| Seqs.RemoveAtMultiset | src/puzzle.rs:25-31 | removing at an index removes exactly that one entry from the multiset of values |
| Seqs.FirstIndex | src/puzzle.rs:26-30 | `position(\|x\| x == v)`: the first index holding `v`; it is the length exactly when `v` is absent (the `unwrap` panic case) |
| Grid.Cell | src/node.rs:77-78 | `get_value(x, y)`, the tile at `data[y][x]`: no contract of its own; its meaning is carried by the `Grid.SetValue` and `Grid.HoldsIff` rows |
| Grid.ScanFindsHeld | src/heuristic.rs:19-25 | the row-major scan finds a value exactly when the board holds it |
| Grid.GetPosition | src/node.rs:84 | `get_position(v)`: a cell holding `v` with no earlier row-major cell holding it |
| Grid.GetPositionUnique | src/node.rs:84 | on a board whose tiles are distinct, the position found is the only cell holding the value |
| Grid.SetValue | src/node.rs:77-78 | `set_value`: the named cell takes the value, the shape and every other cell are unchanged |
| Grid.SetValueTiles | src/node.rs:77-78 | writing a cell trades the old tile for the new one in the board's multiset of tiles |
| Grid.HoldsIff | src/generator.rs:6-7 | a value is among the flattened tiles exactly when some cell holds it |
| Heuristic.Distance | src/heuristic.rs:3-8 | `get_distance`: the grid distance is zero exactly when the two points coincide |
| Heuristic.DistanceSymmetric | src/heuristic.rs:3-8 | the distance does not depend on which point comes first |
| Heuristic.DistanceTriangle | src/heuristic.rs:3-8 | the distance obeys the triangle inequality |
| Heuristic.CorrectPoint | src/heuristic.rs:10-28 | `get_correct_point`: the first goal cell holding the value; `(0, 0)` when the goal does not hold it |
| Heuristic.CorrectPointUnique | src/heuristic.rs:10-28 | with distinct goal tiles, the point found is the value's unique goal cell |
| Heuristic.InCorrectColumn | src/heuristic.rs:30-37 | `check_in_correct_column`: no contract of its own; see `Heuristic.InCorrectColumnIff` and `Heuristic.InCorrectColumnMeaning` |
| Heuristic.InCorrectRow | src/heuristic.rs:39-46 | `check_in_correct_row`: no contract of its own; see `Heuristic.InCorrectRowIff` and `Heuristic.InCorrectRowMeaning` |
| Heuristic.InCorrectColumnIff | src/heuristic.rs:30-37 | `check_in_correct_column` is true exactly when some goal cell of column `x` holds the value |
| Heuristic.InCorrectRowIff | src/heuristic.rs:39-46 | `check_in_correct_row` is true exactly when some goal cell of row `y` holds the value |
| Heuristic.InCorrectColumnMeaning | src/heuristic.rs:30-37 | with distinct goal tiles, a value is in its correct column exactly when its goal point has that column |
| Heuristic.InCorrectRowMeaning | src/heuristic.rs:39-46 | with distinct goal tiles, a value is in its correct row exactly when its goal point has that row |
| Heuristic.ColumnConflict | src/heuristic.rs:48-65 | `check_column_conflict` returns 0 or 2 |
| Heuristic.ColumnConflictIff | src/heuristic.rs:48-65 | it returns 2 exactly when some row of column `x` has the value as goal, a current tile that belongs in column `x`, and that tile still in the list |
| Heuristic.ColumnConflictMeaning | src/heuristic.rs:48-65 | with distinct goal tiles, that means the current tile at the value's goal cell in column `x` belongs in column `x` and is still listed |
| Heuristic.RowConflict | src/heuristic.rs:67-84 | `check_row_conflict` returns 0 or 2 |
| Heuristic.RowConflictIff | src/heuristic.rs:67-84 | it returns 2 exactly when some column of row `y` has the value as goal, a current tile that belongs in row `y`, and that tile still in the list |
| Heuristic.RowConflictMeaning | src/heuristic.rs:67-84 | with distinct goal tiles, that means the current tile at the value's goal cell in row `y` belongs in row `y` and is still listed |
| Heuristic.Hamming | src/heuristic.rs:86-101 | `hamming_distance` is zero exactly when every non-blank tile is on its goal cell |
| Heuristic.HammingBound | src/heuristic.rs:86-101 | it is at most `size²`, and below `size²` when the board holds the blank (the blank is never counted) |
| Heuristic.HammingCountsMisplaced | src/heuristic.rs:86-101 | it equals the number of cells whose non-blank tile differs from the goal's |
| Heuristic.Manhattan | src/heuristic.rs:103-120 | `manhattan_distance`: no contract of its own; see `Heuristic.ManhattanTermIsDistance`, `Heuristic.ManhattanZeroIff` and `Heuristic.ManhattanDominatesHamming` |
| Heuristic.ManhattanTermIsDistance | src/heuristic.rs:109-117 | a misplaced tile contributes its grid distance to its unique goal cell |
| Heuristic.MisplacedTileIsAway | src/heuristic.rs:109-117 | a misplaced tile the goal holds contributes at least 1 |
| Heuristic.ManhattanDominatesHamming | src/heuristic.rs:103-120 | when the goal holds every tile of the board, `manhattan_distance` is at least `hamming_distance` |
| Heuristic.ManhattanZeroIff | src/heuristic.rs:103-120 | under the same condition, `manhattan_distance` is zero exactly when `hamming_distance` is |
| Heuristic.GoalScoresZero | src/heuristic.rs:86-120 | the goal board scores zero on both Hamming and Manhattan |
| Heuristic.ConflictAt | src/heuristic.rs:134-135 | the conflict score of one cell is 0, 2 or 4 |
| Heuristic.LinearConflict | src/heuristic.rs:122-145 | `linear_conflict` as written: when it does not panic, its value is even and at most four per misplaced tile |
| Heuristic.LinearConflictFrom | src/heuristic.rs:130-142 | the loop of `linear_conflict` from a cursor: when it does not panic, it adds an even amount to the score so far; see `Heuristic.LinearConflictFromBound` |
| Heuristic.LinearConflictFromBound | src/heuristic.rs:130-142 | from any cursor, the accumulated score grows by at most four per misplaced cell still ahead |
| Heuristic.LinearConflictZeroWhenPlaced | src/heuristic.rs:122-145 | a board with no misplaced tile scores `Some(0)`: the removal by index is never reached |
| Heuristic.RemoveValueMultiset | src/heuristic.rs:138 | the corrected removal takes exactly one copy of the value out of the list |
| Heuristic.LinearConflictFixed | src/heuristic.rs:122-145 | `linear_conflict` with removal by value: total, even, and at most four per misplaced tile |
| Heuristic.LinearConflictFixedZeroWhenPlaced | src/heuristic.rs:122-145 | the corrected version scores 0 on a board with no misplaced tile |
| Heuristic.LinearConflictAgreesWhenQuiet | src/heuristic.rs:130-142 | when no remaining cell is in conflict, the written and corrected versions agree: the removal never runs |
| HeuristicExamples.HammingFiveMovedTiles | src/heuristic.rs:156-164 | test `five_moved_tiles`: Hamming is 4 |
| HeuristicExamples.NoMovedTile | src/heuristic.rs:166-174 | tests `no_moved_tile` and `no_conflict`: the goal scores 0 on all three heuristics |
| HeuristicExamples.HammingEveryTileMoved | src/heuristic.rs:176-184 | test `every_tiles_moved`: Hamming is 8 |
| HeuristicExamples.ManhattanFiveMovedTiles | src/heuristic.rs:190-198 | test `five_moved_tiles`: Manhattan is 7 |
| HeuristicExamples.ManhattanEveryTileMoved | src/heuristic.rs:210-218 | test `every_tiles_moved`: Manhattan is 13 |
| HeuristicExamples.CorrectLineTests | src/heuristic.rs:274-328 | tests of `check_in_correct_column` and `check_in_correct_row`: tile 1 is in column 0, not column 1, and in row 0, not row 1 |
| ConflictExamples.ColumnConflictTest | src/heuristic.rs:335-346 | test `with_conflict`: with 8 listed, tile 1 has a column conflict of 2 |
| ConflictExamples.ColumnNoConflictTest | src/heuristic.rs:349-360 | test `with_no_conflict`: no column conflict |
| ConflictExamples.RowConflictTest | src/heuristic.rs:367-377 | test `with_conflict`: with 3 listed, tile 1 has a row conflict of 2 |
| ConflictExamples.RowNoConflictTest | src/heuristic.rs:380-390 | test `with_no_conflict`: no row conflict |
| ConflictExamples.LinearConflictRowTest | src/heuristic.rs:224-232 | test `one_conflict_in_one_row`: `linear_conflict` is 2 |
| ConflictExamples.LinearConflictColumnTest | src/heuristic.rs:244-252 | test `one_conflict_in_one_column`: `linear_conflict` is 2 |
| ConflictExamples.LinearConflictPanics | src/heuristic.rs:138 | the board `[[7,2,3],[1,0,4],[8,6,5]]` makes the removal by index run past the shrunken list |
| ConflictExamples.LinearConflictFixedRotated | src/heuristic.rs:122-145 | on that board the corrected version scores 4 |
| SearchNode.FScore | src/node.rs:49-51 | `f_score`: no contract of its own; see `SearchNode.Compare` and `SearchNode.CompareIsPreorder` |
| SearchNode.SameNode | src/node.rs:24-28 | `PartialEq::eq`: no contract of its own; see `SearchNode.EqualityIgnoresScores` |
| SearchNode.Compare | src/node.rs:12-16 | `cmp` ranks nodes by `g + h` alone: less, equal and greater each hold exactly when the sums compare so |
| SearchNode.CompareIsPreorder | src/node.rs:12-22 | the ordering is antisymmetric and transitive |
| SearchNode.EqualityIgnoresScores | src/node.rs:24-28 | `==` compares boards only, so two nodes equal under `==` are still ranked apart by `cmp` whenever their f-scores differ |
| SearchNode.NewStartingNode | src/node.rs:61-67 | the start node holds the given board with f-score 0 |
| SearchNode.FinalNode | src/node.rs:121-127 | the final node holds the goal board with f-score 0 |
| SearchNode.SwapTwoPositions | src/node.rs:69-81 | the two cells exchange their tiles and every other cell keeps its tile |
| SearchNode.SwapKeepsTiles | src/node.rs:69-81 | a swap keeps the board's multiset of tiles |
| SearchNode.SwapInvolution | src/node.rs:69-81 | swapping the same cells twice restores the board |
| SearchNode.SwapSymmetric | src/node.rs:69-81 | the order in which the two cells are named does not matter |
| SearchNode.Moves | src/node.rs:87-98 | the blank's legal directions are exactly those staying on the board, in the order up, down, left, right |
| SearchNode.NextStates | src/node.rs:83-101 | `calculate_next_states` yields at most four boards of the parent's shape |
| SearchNode.NextStateSlidesBlank | src/node.rs:83-101 | each successor moves the blank to an adjacent cell and that cell's tile to the blank's old cell, nothing else |
| SearchNode.NextStateDiffersInTwoCells | src/node.rs:83-101 | on a board of distinct tiles each successor changes exactly the two cells involved |
| SearchNode.NextStatesCount | src/node.rs:87-98 | on a board of side at least 2 there are 2 successors in a corner, 4 in the interior, and 3 on an edge |
| SearchNode.NextNodes | src/node.rs:103-119 | `calculate_next_nodes`: one child per successor board, in order, with `g` one more than the parent's and `h` the heuristic against the final board |
| NodeExamples.DownSwap | src/node.rs:136-148 | test `down_swap` |
| NodeExamples.RightSwap | src/node.rs:150-162 | test `right_swap` |
| NodeExamples.TwoDirections | src/node.rs:169-189 | test `two_dir`: a blank in the top-left corner has two successors, down then right |
| SearchGraph.AddToOpenList | src/graph.rs:16-18 | the node is appended to the open list; everything else is unchanged |
| SearchGraph.AddToClosedList | src/graph.rs:20-26 | the node is appended to the closed list; everything else is unchanged |
| SearchGraph.CheaperCopyFromIff | src/graph.rs:29-33 | the `any` scan finds a same-board entry with smaller path cost exactly when one exists |
| SearchGraph.IsLowerCost | src/graph.rs:28-37 | `is_lower_cost` is false exactly when the open list holds the node's board with a strictly smaller path cost |
| SearchGraph.FirstNotCheaper | src/graph.rs:51-56 | the `position` scan finds the first entry whose priority is not below the node's; every entry before it is cheaper |
| SearchGraph.Insert | src/graph.rs:50-59 | `Vec::insert` puts the node at the index, and removing it there gives back the old list |
| SearchGraph.InsertIndex | src/graph.rs:50-57 | the insertion index as written: the first entry not cheaper than the node when there is one, and 0 when every entry is cheaper |
| SearchGraph.InsertIndexFixed | src/graph.rs:50-57 | the corrected index: every entry before it is cheaper, and the entry at it is not |
| SearchGraph.AddInSortedOpenList | src/graph.rs:39-65 | `add_in_sorted_open_list` as written. `None`, or a board already closed, changes nothing. If the open list already holds the board at a strictly lower path cost, the list is left alone. Otherwise the node is inserted. The closed list and start node never change. `max_states` grows by at most one; while it bounds the open list it becomes the larger of its old value and the new open-list length, so it tracks the peak number of states held at once |
| SearchGraph.AddInSortedOpenListFixed | src/graph.rs:39-65 | the same contract, with the corrected insertion index |
| SearchGraph.InsertKeepsSorted | src/graph.rs:50-59 | inserting after the cheaper entries and before the rest keeps a sorted list sorted |
| SearchGraph.FixedKeepsOpenListSorted | src/graph.rs:39-65 | with the corrected index the open list stays sorted by priority |
| SearchGraph.KeepsOpenListSortedWhenNotLast | src/graph.rs:50-57 | as written, the list stays sorted whenever some entry is not cheaper than the node, and both versions then agree |
| SearchGraph.DearestNodeUnsortsOpenList | src/graph.rs:57 | as written, a node dearer than every entry goes to the front, and the open list is no longer sorted |
| SearchGraph.DontAddIfUnnecessary | src/graph.rs:175-221 | commented-out test `dont_add_if_unnecessary`: a second copy of a board with a larger path cost is not added |
| Solvability.IsSolvable | src/generator.rs:5-25 | `is_solvable` with the inner loop's bound corrected: no contract of its own; see `Solvability.SolvableIffEvenInversions` |
| Solvability.IsSolvableAsWritten | src/generator.rs:5-25 | `is_solvable` as written, `None` for its panic: no contract of its own; see `Solvability.SolvableAsWrittenPanics` |
| Solvability.SwapRemovesOneInversion | src/generator.rs:12-15 | swapping an adjacent out-of-order pair removes exactly one inversion |
| Solvability.NoInversionsIffAscending | src/generator.rs:10-17 | a sequence has no inversions exactly when it is in ascending order |
| Solvability.PassCountsInversions | src/generator.rs:11-16 | one bubble pass removes as many inversions as it counts swaps |
| Solvability.PassPermutes | src/generator.rs:11-16 | one bubble pass permutes the data |
| Solvability.PassesSort | src/generator.rs:10-17 | the `len + 1` passes sort the data, count every inversion, and permute the data |
| Solvability.SolvableIffEvenInversions | src/generator.rs:5-25 | `is_solvable` (corrected bound) holds exactly when the flattened board has an even number of inversions |
| Solvability.PassAsWrittenOverruns | src/generator.rs:11-12 | the inner loop as written reads `data[len]` and panics |
| Solvability.SolvableAsWrittenPanics | src/puzzle.rs:38-58 | as written, `is_solvable` panics on every non-empty board and returns true on an empty one |
| SolvabilityExamples.SolvedIsSolvable | src/generator.rs:33-42 | tests `solvable_puzzle_already_solved` and `solvable_puzzle`: the solved board is solvable |
| SolvabilityExamples.LastPairSwappedIsUnsolvable | src/generator.rs:45-48 | test `unsolvable_puzzle`: swapping the last two tiles makes the board unsolvable |
| SolvabilityExamples.SolvedPanicsAsWritten | src/puzzle.rs:122-126 | as written, the solved test board makes `is_solvable` panic |
| RandomPuzzle.Draw | src/puzzle.rs:19-24 | the retry loop takes a value from the pool, whose first position is at or before the drawn index |
| RandomPuzzle.FillTakesFromPool | src/puzzle.rs:17-33 | the values placed plus the pool left are exactly the starting pool |
| RandomPuzzle.Rows | src/puzzle.rs:15-17 | the grid has `size` rows of `size` cells, filled row by row with the drawn values |
| RandomPuzzle.NewPuzzle | src/puzzle.rs:9-36 | `Puzzle::new` panics exactly for sizes below 3, and otherwise returns a well-formed `size`×`size` grid |
| RandomPuzzle.NewPuzzleIsPermutation | src/puzzle.rs:9-36 | every run empties the pool and places each of `0 .. size²-1` exactly once |
| RandomPuzzle.RemoveEachReplaysFill | src/puzzle.rs:17-33 | removing the placed values from the pool one by one replays the fill |
| RandomPuzzle.NewPuzzleEmptiesFreshPool | src/puzzle.rs:72-116 | tests `correct_puzzle_of_size_three` and `_ten`, for every size from 3: removing the grid's values from a fresh pool empties it without a panic |
| RandomPuzzle.SizeTwoPanics | src/puzzle.rs:66-70 | test `panic_because_size_less_than_three` |
| Parser.RemoveComments | src/parser.rs:2-11 | `remove_comments` keeps exactly the lines that do not start with `#`, and no comment line survives |
| Parser.RemoveCommentsKeepsOrder | src/parser.rs:4-8 | the lines kept are a subsequence of the input |
| Parser.RemoveCommentsAppend | src/parser.rs:4-8 | filtering distributes over concatenation |
| Parser.KeepIffNotComment | src/parser.rs:4-8 | the `retain` predicate keeps a line exactly when it is not a comment, so an empty line is kept |
| Parser.RemoveCommentsIdempotent | src/parser.rs:2-11 | filtering twice is filtering once |
| Parser.RemoveCommentsDropsComments | src/parser.rs:2-11 | the output is shorter than the input by the number of comment lines |

## Left out

- `src/main.rs`, `src/inputs.rs`, `src/options.rs`, `src/print_result.rs` and `incs/Node.hpp`: command-line handling, file reading and printing are I/O, outside the core.
- The search drivers (src/graph.rs:67-149) are left out. `a_star_greedy` searches depth-first by recursion through `recursive_search` and panics when that fails. `a_star_gluttony` pops the open list until the goal, or panics once the list is empty. `a_star_greedy` prints the goal when it reaches it, each ancestor on the solution path as the recursion unwinds, and "down" at each dead end; `a_star_gluttony` prints every board it pops, with its score. Both call node members (`next_nodes_to_vec`, `left_state` and the like) that `Node` does not define. Their building blocks, the list operations, are modelled.
- `get_final_state`, `get_value`, `set_value` and `get_position` are called in src/node.rs and src/heuristic.rs but defined in none of the modelled files. `Grid` defines the last three from their use, and the goal board is an explicit argument.
- `rand::thread_rng().gen_range` is randomness. `RandomPuzzle` takes the drawn indices as a parameter (`ValidDraws`).
- Integer widths: `usize` overflow (e.g. `size * size`) and the `i32` casts of `get_distance` are not modelled. For board coordinates they never wrap.
- `Puzzle::is_solvable` (src/puzzle.rs:38-58) and `generator::is_solvable` (src/generator.rs:5-25) are the same code, so there is one model, `Solvability`.
- `puzzle.rs` declares `Puzzle` with `data` only, while the other files use a `size` field and `Puzzle::new` returns a bare grid. The model's `Puzzle` carries both.
- `Node::partial_copy`, `Debug` and `Display` are a clone and printing.
- `graph.rs` reads a `distance` field that `Node` does not have. The model reads it as the path cost `g_score`, the only field with that meaning.
- The src/node.rs tests build flat boards, with cell (x, y) at index `y * size + x`. `NodeExamples` lays the same boards out as rows.
- Heuristic.CorrectPoint: `get_correct_point` ignores its two coordinate arguments, so the model takes only the goal and the value.
- SearchNode.NextStates: requires the board to hold the blank. `get_position(0)` has no answer otherwise.
- Heuristic.LinearConflict: its contract bounds the score when there is no panic. It does not characterise every board that panics. `ConflictExamples.LinearConflictPanics` exhibits one, and `Heuristic.LinearConflictAgreesWhenQuiet` gives a condition under which none happens.
- SearchNode.NextStates: its own contract only bounds the number and shape of the successors. Their contents are stated by `NextStateSlidesBlank` and their number by `NextStatesCount`.
- SearchGraph.AddInSortedOpenList: the heuristic stored in `Graph` is a parameter of each operation rather than a field.
- Stale tests:
  - `two_conflicts_in_one_row` and `two_conflicts_in_one_column` (src/heuristic.rs:234-262) expect 4. Once the first tile of the pair is counted, it leaves the list, so its partner finds no listed blocker. These tests are not restated.
  - The `partial_eq` tests (src/node.rs:192-241) build nodes with fields `Node` does not have.
  - `list_is_sorted` (src/graph.rs:223-283) is commented out. What it checks is `FixedKeepsOpenListSorted` and `DearestNodeUnsortsOpenList`.
- generator.rs:35-47 passes the grid by value where `is_solvable` takes a reference. The model ignores this type error.

## Findings

| source | as written | input that shows it | evidently intended | confidence | as-written member | corrected member |
|---|---|---|---|---|---|---|
| src/generator.rs:10-17 (and src/puzzle.rs:43-50) | the inner loop runs `i` over `0 .. len` and reads `data[i + 1]` | any non-empty board, e.g. the solved test board `[[0,1,2],[3,4,5],[6,7,8]]`: `data[9]` is out of bounds | `i` over `0 .. len - 1`, a bubble sort whose swap count is the inversion count | not executed | Solvability.SolvableAsWrittenPanics | Solvability.SolvableIffEvenInversions |
| src/heuristic.rs:138 | `number_list.remove(value)` removes at index `value` | `[[7,2,3],[1,0,4],[8,6,5]]` against the spiral goal `[[1,2,3],[8,0,4],[7,6,5]]`: tile 7 removes index 7, leaving 8 entries, then tile 8 asks for index 8 and it panics | remove the entry whose value is `value` | not executed | ConflictExamples.LinearConflictPanics | ConflictExamples.LinearConflictFixedRotated |
| src/graph.rs:57 | `.unwrap_or(0)` inserts at the front when no entry is at least as dear as the node | open list holding one node of priority 1, new node of priority 2: the list becomes `[2, 1]` | `unwrap_or(open_list.len())`, an append, which keeps the list sorted | not executed | SearchGraph.DearestNodeUnsortsOpenList | SearchGraph.FixedKeepsOpenListSorted |
