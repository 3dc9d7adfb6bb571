/** The linear-conflict unit tests of src/heuristic.rs, and a board on which
    `linear_conflict` as written panics, restated as lemmas about any board
    laid out as the test's board, against the size-3 spiral goal. */
module ConflictExamples {
  import opened Seqs
  import opened Grid
  import opened Heuristic
  import opened HeuristicExamples

  /** Test `one_conflict_in_one_row`: tiles 1 and 2 swapped in the top row. */
  predicate IsRowSwapped(p: Puzzle)
  {
    p.size == 3 && p.data == [[2, 1, 3], [8, 0, 4], [7, 6, 5]]
  }

  /** Test `one_conflict_in_one_column`: tiles 1 and 8 swapped in the left column. */
  predicate IsColumnSwapped(p: Puzzle)
  {
    p.size == 3 && p.data == [[8, 2, 3], [1, 0, 4], [7, 6, 5]]
  }

  /** Tiles 7, 1 and 8 rotated down the left column. */
  predicate IsRotated(p: Puzzle)
  {
    p.size == 3 && p.data == [[7, 2, 3], [1, 0, 4], [8, 6, 5]]
  }

  /** One step of the as-written loop past a cell that adds nothing. */
  lemma StepQuiet(cur: Puzzle, goal: Puzzle, x: nat, y: nat, list: seq<nat>, acc: nat)
    requires SameShape(cur, goal) && x < cur.size && y < cur.size
    requires !Misplaced(cur, goal, x, y) || ConflictAt(cur, goal, x, y, list) == 0
    ensures LinearConflictFrom(cur, goal, x, y, list, acc) == LinearConflictFrom(cur, goal, x + 1, y, list, acc)
  {
  }

  /** One step of the corrected loop past a cell that adds nothing. */
  lemma StepQuietFixed(cur: Puzzle, goal: Puzzle, x: nat, y: nat, list: seq<nat>, acc: nat)
    requires SameShape(cur, goal) && x < cur.size && y < cur.size
    requires !Misplaced(cur, goal, x, y) || ConflictAt(cur, goal, x, y, list) == 0
    ensures LinearConflictFixedFrom(cur, goal, x, y, list, acc) == LinearConflictFixedFrom(cur, goal, x + 1, y, list, acc)
  {
  }

  /** One step of the as-written loop past a conflicting tile whose value is a valid index. */
  lemma StepConflict(cur: Puzzle, goal: Puzzle, x: nat, y: nat, list: seq<nat>, acc: nat, c: nat)
    requires SameShape(cur, goal) && x < cur.size && y < cur.size && Misplaced(cur, goal, x, y)
    requires ConflictAt(cur, goal, x, y, list) == c != 0 && Cell(cur, x, y) < |list|
    ensures LinearConflictFrom(cur, goal, x, y, list, acc)
              == LinearConflictFrom(cur, goal, x + 1, y, RemoveAt(list, Cell(cur, x, y)), acc + c)
  {
  }

  /** One step of the corrected loop past a conflicting tile. */
  lemma StepConflictFixed(cur: Puzzle, goal: Puzzle, x: nat, y: nat, list: seq<nat>, acc: nat, c: nat)
    requires SameShape(cur, goal) && x < cur.size && y < cur.size && Misplaced(cur, goal, x, y)
    requires ConflictAt(cur, goal, x, y, list) == c != 0
    ensures LinearConflictFixedFrom(cur, goal, x, y, list, acc)
              == LinearConflictFixedFrom(cur, goal, x + 1, y, RemoveValue(list, Cell(cur, x, y)), acc + c)
  {
  }

  /** Finishing a row moves the cursor to the next one. */
  lemma StepRow(cur: Puzzle, goal: Puzzle, y: nat, list: seq<nat>, acc: nat)
    requires SameShape(cur, goal) && y < cur.size
    ensures LinearConflictFrom(cur, goal, cur.size, y, list, acc) == LinearConflictFrom(cur, goal, 0, y + 1, list, acc)
    ensures LinearConflictFixedFrom(cur, goal, cur.size, y, list, acc) == LinearConflictFixedFrom(cur, goal, 0, y + 1, list, acc)
  {
  }

  /** `0..n` without `i`: one shorter, holding every other value below `n`,
      and the same whether `i` is removed by index or by value. */
  lemma RangeWithout(n: nat, i: nat)
    requires i < n
    ensures |RemoveAt(Range(n), i)| == n - 1
    ensures forall v: nat :: v in RemoveAt(Range(n), i) <==> v < n && v != i
    ensures RemoveValue(Range(n), i) == RemoveAt(Range(n), i)
  {
    var r := RemoveAt(Range(n), i);
    forall v: nat | v < n && v != i
      ensures v in r
    {
      if v < i {
        assert r[v] == v;
      } else {
        assert r[v - 1] == v;
      }
    }
    assert Range(n)[i] == i;
    var k := FirstIndex(Range(n), i);
    assert Range(n)[k] == k;
  }

  // --- check_column_conflict and check_row_conflict -------------------------

  /** Board of test `with_no_conflict` of `check_column_conflict`. */
  predicate IsColumnQuiet(p: Puzzle)
  {
    p.size == 3 && p.data == [[2, 8, 3], [1, 0, 4], [7, 6, 5]]
  }

  /** Board of test `with_conflict` of `check_row_conflict`. */
  predicate IsRowReversed(p: Puzzle)
  {
    p.size == 3 && p.data == [[3, 2, 1], [8, 0, 4], [7, 6, 5]]
  }

  /** Board of test `with_no_conflict` of `check_row_conflict`. */
  predicate IsRowQuiet(p: Puzzle)
  {
    p.size == 3 && p.data == [[8, 1, 3], [2, 0, 4], [7, 6, 5]]
  }

  /** Test `with_conflict` of `check_column_conflict`: tile 8 sits on tile 1's
      goal cell and belongs to the same goal column. */
  lemma ColumnConflictTest(cur: Puzzle, goal: Puzzle, list: seq<nat>)
    requires IsColumnSwapped(cur) && IsGoal(goal) && 8 in list
    ensures SameShape(cur, goal) && ColumnConflict(cur, goal, 1, 0, list) == 2
  {
    InCorrectColumnIff(goal, 8, 0);
    assert Cell(goal, 0, 1) == 8;
    assert ColumnBlocker(cur, goal, 1, 0, 0, list);
    ColumnConflictIff(cur, goal, 1, 0, list);
  }

  /** Test `with_no_conflict` of `check_column_conflict`: tile 2 sits on tile
      1's goal cell but belongs to another goal column. */
  lemma ColumnNoConflictTest(cur: Puzzle, goal: Puzzle, list: seq<nat>)
    requires IsColumnQuiet(cur) && IsGoal(goal)
    ensures SameShape(cur, goal) && ColumnConflict(cur, goal, 1, 0, list) == 0
  {
    InCorrectColumnIff(goal, 2, 0);
    assert ColumnConflictFrom(cur, goal, 1, 0, list, 2) == 0;
    assert ColumnConflictFrom(cur, goal, 1, 0, list, 1) == 0;
    assert ColumnConflictFrom(cur, goal, 1, 0, list, 0) == 0;
  }

  /** Test `with_conflict` of `check_row_conflict`: tile 3 sits on tile 1's
      goal cell and belongs to the same goal row. */
  lemma RowConflictTest(cur: Puzzle, goal: Puzzle, list: seq<nat>)
    requires IsRowReversed(cur) && IsGoal(goal) && 3 in list
    ensures SameShape(cur, goal) && RowConflict(cur, goal, 1, 0, list) == 2
  {
    InCorrectRowIff(goal, 3, 0);
    assert Cell(goal, 2, 0) == 3;
    assert RowBlocker(cur, goal, 1, 0, 0, list);
    RowConflictIff(cur, goal, 1, 0, list);
  }

  /** Test `with_no_conflict` of `check_row_conflict`: tile 8 sits on tile 1's
      goal cell but belongs to another goal row. */
  lemma RowNoConflictTest(cur: Puzzle, goal: Puzzle, list: seq<nat>)
    requires IsRowQuiet(cur) && IsGoal(goal)
    ensures SameShape(cur, goal) && RowConflict(cur, goal, 1, 0, list) == 0
  {
    InCorrectRowIff(goal, 8, 0);
    assert RowConflictFrom(cur, goal, 1, 0, list, 2) == 0;
    assert RowConflictFrom(cur, goal, 1, 0, list, 1) == 0;
    assert RowConflictFrom(cur, goal, 1, 0, list, 0) == 0;
  }

  // --- one_conflict_in_one_row ---------------------------------------------

  lemma RowSwappedFirst(cur: Puzzle, goal: Puzzle, list: seq<nat>)
    requires IsRowSwapped(cur) && IsGoal(goal) && 1 in list
    ensures SameShape(cur, goal) && Misplaced(cur, goal, 0, 0)
    ensures ConflictAt(cur, goal, 0, 0, list) == 2
  {
    assert ColumnConflictFrom(cur, goal, 2, 0, list, 2) == 0;
    assert ColumnConflictFrom(cur, goal, 2, 0, list, 1) == 0;
    assert ColumnConflictFrom(cur, goal, 2, 0, list, 0) == 0;
    InCorrectRowIff(goal, 1, 0);
    assert Cell(goal, 0, 0) == 1;
    assert RowBlocker(cur, goal, 2, 0, 1, list);
    RowConflictIff(cur, goal, 2, 0, list);
  }

  lemma RowSwappedSecond(cur: Puzzle, goal: Puzzle, list: seq<nat>)
    requires IsRowSwapped(cur) && IsGoal(goal) && 2 !in list
    ensures SameShape(cur, goal) && Misplaced(cur, goal, 1, 0)
    ensures ConflictAt(cur, goal, 1, 0, list) == 0
  {
    assert ColumnConflictFrom(cur, goal, 1, 1, list, 2) == 0;
    assert ColumnConflictFrom(cur, goal, 1, 1, list, 1) == 0;
    assert ColumnConflictFrom(cur, goal, 1, 1, list, 0) == 0;
    assert RowConflictFrom(cur, goal, 1, 0, list, 2) == 0;
    assert RowConflictFrom(cur, goal, 1, 0, list, 1) == 0;
    assert RowConflictFrom(cur, goal, 1, 0, list, 0) == 0;
  }

  /** The board is on its goal from cell (x, y) on. */
  lemma PlacedAfter(cur: Puzzle, goal: Puzzle, x: nat, y: nat)
    requires SameShape(cur, goal) && x <= cur.size
    requires forall x': nat, y': nat :: x' < cur.size && y' < cur.size && !Before(x', y', x, y) ==>
               Cell(cur, x', y') == Cell(goal, x', y') || Cell(cur, x', y') == 0
    ensures PlacedFrom(cur, goal, x, y)
  {
  }

  /** Test `one_conflict_in_one_row` of `linear_conflict`. */
  lemma LinearConflictRowTest(cur: Puzzle, goal: Puzzle)
    requires IsRowSwapped(cur) && IsGoal(goal)
    ensures SameShape(cur, goal)
    ensures LinearConflict(cur, goal) == Some(2)
  {
    var n := cur.size * cur.size;
    var l0 := Range(n);
    var l1 := RemoveAt(l0, 2);
    RangeWithout(n, 2);
    assert l0[1] == 1;
    RowSwappedFirst(cur, goal, l0);
    StepConflict(cur, goal, 0, 0, l0, 0, 2);
    RowSwappedSecond(cur, goal, l1);
    StepQuiet(cur, goal, 1, 0, l1, 2);
    PlacedAfter(cur, goal, 2, 0);
    LinearConflictFromUnmoved(cur, goal, 2, 0, l1, 2);
  }

  // --- one_conflict_in_one_column ------------------------------------------

  lemma ColumnSwappedFirst(cur: Puzzle, goal: Puzzle, list: seq<nat>)
    requires IsColumnSwapped(cur) && IsGoal(goal) && 1 in list
    ensures SameShape(cur, goal) && Misplaced(cur, goal, 0, 0)
    ensures ConflictAt(cur, goal, 0, 0, list) == 2
  {
    InCorrectColumnIff(goal, 1, 0);
    assert Cell(goal, 0, 0) == 1;
    assert ColumnBlocker(cur, goal, 8, 0, 1, list);
    ColumnConflictIff(cur, goal, 8, 0, list);
    assert RowConflictFrom(cur, goal, 8, 0, list, 2) == 0;
    assert RowConflictFrom(cur, goal, 8, 0, list, 1) == 0;
    assert RowConflictFrom(cur, goal, 8, 0, list, 0) == 0;
  }

  lemma ColumnSwappedSecond(cur: Puzzle, goal: Puzzle, list: seq<nat>)
    requires IsColumnSwapped(cur) && IsGoal(goal) && 8 !in list
    ensures SameShape(cur, goal) && Misplaced(cur, goal, 0, 1)
    ensures ConflictAt(cur, goal, 0, 1, list) == 0
  {
    assert ColumnConflictFrom(cur, goal, 1, 0, list, 2) == 0;
    assert ColumnConflictFrom(cur, goal, 1, 0, list, 1) == 0;
    assert ColumnConflictFrom(cur, goal, 1, 0, list, 0) == 0;
    assert RowConflictFrom(cur, goal, 1, 1, list, 2) == 0;
    assert RowConflictFrom(cur, goal, 1, 1, list, 1) == 0;
    assert RowConflictFrom(cur, goal, 1, 1, list, 0) == 0;
  }

  /** Test `one_conflict_in_one_column` of `linear_conflict`. */
  lemma LinearConflictColumnTest(cur: Puzzle, goal: Puzzle)
    requires IsColumnSwapped(cur) && IsGoal(goal)
    ensures SameShape(cur, goal)
    ensures LinearConflict(cur, goal) == Some(2)
  {
    var n := cur.size * cur.size;
    var l0 := Range(n);
    var l1 := RemoveAt(l0, 8);
    RangeWithout(n, 8);
    assert l0[1] == 1;
    ColumnSwappedFirst(cur, goal, l0);
    StepConflict(cur, goal, 0, 0, l0, 0, 2);
    StepQuiet(cur, goal, 1, 0, l1, 2);
    StepQuiet(cur, goal, 2, 0, l1, 2);
    StepRow(cur, goal, 0, l1, 2);
    ColumnSwappedSecond(cur, goal, l1);
    StepQuiet(cur, goal, 0, 1, l1, 2);
    PlacedAfter(cur, goal, 1, 1);
    LinearConflictFromUnmoved(cur, goal, 1, 1, l1, 2);
  }

  // --- the index/value confusion of `number_list.remove` -------------------

  lemma RotatedFirst(cur: Puzzle, goal: Puzzle, list: seq<nat>)
    requires IsRotated(cur) && IsGoal(goal) && 8 in list
    ensures SameShape(cur, goal) && Misplaced(cur, goal, 0, 0)
    ensures ConflictAt(cur, goal, 0, 0, list) == 2
  {
    InCorrectColumnIff(goal, 8, 0);
    assert Cell(goal, 0, 1) == 8;
    assert ColumnBlocker(cur, goal, 7, 0, 2, list);
    ColumnConflictIff(cur, goal, 7, 0, list);
    assert RowConflictFrom(cur, goal, 7, 0, list, 2) == 0;
    assert RowConflictFrom(cur, goal, 7, 0, list, 1) == 0;
    assert RowConflictFrom(cur, goal, 7, 0, list, 0) == 0;
  }

  lemma RotatedSecond(cur: Puzzle, goal: Puzzle, list: seq<nat>)
    requires IsRotated(cur) && IsGoal(goal) && 7 !in list
    ensures SameShape(cur, goal) && Misplaced(cur, goal, 0, 1)
    ensures ConflictAt(cur, goal, 0, 1, list) == 0
  {
    assert ColumnConflictFrom(cur, goal, 1, 0, list, 2) == 0;
    assert ColumnConflictFrom(cur, goal, 1, 0, list, 1) == 0;
    assert ColumnConflictFrom(cur, goal, 1, 0, list, 0) == 0;
    assert RowConflictFrom(cur, goal, 1, 1, list, 2) == 0;
    assert RowConflictFrom(cur, goal, 1, 1, list, 1) == 0;
    assert RowConflictFrom(cur, goal, 1, 1, list, 0) == 0;
  }

  lemma RotatedThird(cur: Puzzle, goal: Puzzle, list: seq<nat>)
    requires IsRotated(cur) && IsGoal(goal) && 1 in list
    ensures SameShape(cur, goal) && Misplaced(cur, goal, 0, 2)
    ensures ConflictAt(cur, goal, 0, 2, list) == 2
  {
    InCorrectColumnIff(goal, 1, 0);
    assert Cell(goal, 0, 0) == 1;
    assert ColumnBlocker(cur, goal, 8, 0, 1, list);
    ColumnConflictIff(cur, goal, 8, 0, list);
    assert RowConflictFrom(cur, goal, 8, 2, list, 2) == 0;
    assert RowConflictFrom(cur, goal, 8, 2, list, 1) == 0;
    assert RowConflictFrom(cur, goal, 8, 2, list, 0) == 0;
  }

  /** Cells (1, 0), (2, 0), (1, 1) and (2, 1) of the rotated board add nothing. */
  lemma RotatedQuietCells(cur: Puzzle, goal: Puzzle, list: seq<nat>, acc: nat)
    requires IsRotated(cur) && IsGoal(goal)
    ensures SameShape(cur, goal)
    ensures LinearConflictFrom(cur, goal, 1, 0, list, acc) == LinearConflictFrom(cur, goal, 0, 1, list, acc)
    ensures LinearConflictFrom(cur, goal, 1, 1, list, acc) == LinearConflictFrom(cur, goal, 0, 2, list, acc)
    ensures LinearConflictFixedFrom(cur, goal, 1, 0, list, acc) == LinearConflictFixedFrom(cur, goal, 0, 1, list, acc)
    ensures LinearConflictFixedFrom(cur, goal, 1, 1, list, acc) == LinearConflictFixedFrom(cur, goal, 0, 2, list, acc)
  {
    StepQuiet(cur, goal, 1, 0, list, acc);
    StepQuiet(cur, goal, 2, 0, list, acc);
    StepQuiet(cur, goal, 1, 1, list, acc);
    StepQuiet(cur, goal, 2, 1, list, acc);
    StepQuietFixed(cur, goal, 1, 0, list, acc);
    StepQuietFixed(cur, goal, 2, 0, list, acc);
    StepQuietFixed(cur, goal, 1, 1, list, acc);
    StepQuietFixed(cur, goal, 2, 1, list, acc);
    StepRow(cur, goal, 0, list, acc);
    StepRow(cur, goal, 1, list, acc);
  }

  /** The top row of the rotated board, as written: tile 7 scores 2 and
      takes index 7 out of the list. */
  lemma RotatedTopRow(cur: Puzzle, goal: Puzzle)
    requires IsRotated(cur) && IsGoal(goal)
    ensures SameShape(cur, goal)
    ensures LinearConflictFrom(cur, goal, 0, 0, Range(cur.size * cur.size), 0)
              == LinearConflictFrom(cur, goal, 0, 1, RemoveAt(Range(cur.size * cur.size), 7), 2)
  {
    var l0 := Range(cur.size * cur.size);
    assert l0[8] == 8;
    RotatedFirst(cur, goal, l0);
    StepConflict(cur, goal, 0, 0, l0, 0, 2);
    RotatedQuietCells(cur, goal, RemoveAt(l0, 7), 2);
  }

  /** The first two rows of the rotated board, as written: after tile 7,
      tile 1 scores nothing, because its partner 7 has left the list. */
  lemma RotatedOpening(cur: Puzzle, goal: Puzzle)
    requires IsRotated(cur) && IsGoal(goal)
    ensures SameShape(cur, goal)
    ensures var l1 := RemoveAt(Range(cur.size * cur.size), 7);
      LinearConflictFrom(cur, goal, 0, 0, Range(cur.size * cur.size), 0) == LinearConflictFrom(cur, goal, 0, 2, l1, 2)
  {
    var n := cur.size * cur.size;
    var l1 := RemoveAt(Range(n), 7);
    RangeWithout(n, 7);
    RotatedTopRow(cur, goal);
    RotatedSecond(cur, goal, l1);
    StepQuiet(cur, goal, 0, 1, l1, 2);
    RotatedQuietCells(cur, goal, l1, 2);
  }

  /** The first two rows of the rotated board with removal by value: the
      same list and total as the as-written loop. */
  lemma RotatedOpeningFixed(cur: Puzzle, goal: Puzzle)
    requires IsRotated(cur) && IsGoal(goal)
    ensures SameShape(cur, goal)
    ensures var l1 := RemoveAt(Range(cur.size * cur.size), 7);
      1 in l1 &&
      LinearConflictFixedFrom(cur, goal, 0, 0, Range(cur.size * cur.size), 0) == LinearConflictFixedFrom(cur, goal, 0, 2, l1, 2)
  {
    var n := cur.size * cur.size;
    var l0 := Range(n);
    var l1 := RemoveAt(l0, 7);
    RangeWithout(n, 7);
    assert l0[8] == 8;
    RotatedFirst(cur, goal, l0);
    StepConflictFixed(cur, goal, 0, 0, l0, 0, 2);
    RotatedQuietCells(cur, goal, l1, 2);
    RotatedSecond(cur, goal, l1);
    StepQuietFixed(cur, goal, 0, 1, l1, 2);
  }

  /** `linear_conflict` as written panics on the rotated board: tile 7's
      conflict removes the element at index 7 — the value 7 — so tile 1
      finds no partner, and tile 8's conflict then asks for index 8 of a
      list of length 8. */
  lemma LinearConflictPanics(cur: Puzzle, goal: Puzzle)
    requires IsRotated(cur) && IsGoal(goal)
    ensures SameShape(cur, goal)
    ensures LinearConflict(cur, goal) == None
  {
    RotatedOpening(cur, goal);
    var l1 := RemoveAt(Range(cur.size * cur.size), 7);
    RangeWithout(cur.size * cur.size, 7);
    RotatedThird(cur, goal, l1);
    assert Cell(cur, 0, 2) == 8;
  }

  /** With removal by value the rotated board scores 4: tiles 7 and 8 each
      meet a partner still in the list. */
  lemma LinearConflictFixedRotated(cur: Puzzle, goal: Puzzle)
    requires IsRotated(cur) && IsGoal(goal)
    ensures SameShape(cur, goal)
    ensures LinearConflictFixed(cur, goal) == 4
  {
    RotatedOpeningFixed(cur, goal);
    var l1 := RemoveAt(Range(cur.size * cur.size), 7);
    RotatedThird(cur, goal, l1);
    StepConflictFixed(cur, goal, 0, 2, l1, 2, 2);
    PlacedAfter(cur, goal, 1, 2);
    LinearConflictFixedFromUnmoved(cur, goal, 1, 2, RemoveValue(l1, 8), 4);
  }
}
