/** The unit tests of src/heuristic.rs, restated as lemmas about the model.
    Each lemma speaks of any board laid out as the test's board, against the
    size-3 spiral goal `[[1,2,3],[8,0,4],[7,6,5]]` the tests use. */
module HeuristicExamples {
  import opened Seqs
  import opened Grid
  import opened Heuristic

  /** The goal board of the tests: the size-3 spiral. */
  predicate IsGoal(p: Puzzle)
  {
    p.size == 3 && p.data == [[1, 2, 3], [8, 0, 4], [7, 6, 5]]
  }

  /** Test board `five_moved_tiles` of `hamming_distance` and `manhattan_distance`. */
  predicate IsFiveMoved(p: Puzzle)
  {
    p.size == 3 && p.data == [[1, 2, 8], [0, 3, 4], [7, 5, 6]]
  }

  /** Test board `every_tiles_moved` of `hamming_distance` and `manhattan_distance`. */
  predicate IsEveryMoved(p: Puzzle)
  {
    p.size == 3 && p.data == [[7, 5, 6], [1, 2, 3], [8, 0, 4]]
  }

  /** Where each tile sits on the goal. */
  function GoalXY(v: nat): (nat, nat)
  {
    match v
    case 1 => (0, 0) case 2 => (1, 0) case 3 => (2, 0)
    case 8 => (0, 1) case 0 => (1, 1) case 4 => (2, 1)
    case 7 => (0, 2) case 6 => (1, 2) case 5 => (2, 2)
    case _ => (0, 0)
  }

  /** The goal holds no tile twice: `GoalXY` recovers each cell from its tile. */
  lemma GoalDistinct(goal: Puzzle)
    requires IsGoal(goal)
    ensures WellFormed(goal) && Distinct(goal)
  {
    forall x: nat, y: nat | x < 3 && y < 3
      ensures GoalXY(Cell(goal, x, y)) == (x, y)
    {
    }
  }

  function Count(b: bool): nat
  {
    if b then 1 else 0
  }

  /** One row of a 3-wide board adds its three misplaced-cell counts. */
  lemma HammingRow3(cur: Puzzle, goal: Puzzle, y: nat)
    requires SameShape(cur, goal) && cur.size == 3 && y < 3
    ensures HammingFrom(cur, goal, 0, y) == Count(Misplaced(cur, goal, 0, y)) + Count(Misplaced(cur, goal, 1, y))
              + Count(Misplaced(cur, goal, 2, y)) + HammingFrom(cur, goal, 0, y + 1)
  {
    assert HammingFrom(cur, goal, 3, y) == HammingFrom(cur, goal, 0, y + 1);
    assert HammingFrom(cur, goal, 2, y) == Count(Misplaced(cur, goal, 2, y)) + HammingFrom(cur, goal, 3, y);
    assert HammingFrom(cur, goal, 1, y) == Count(Misplaced(cur, goal, 1, y)) + HammingFrom(cur, goal, 2, y);
  }

  /** A 3×3 board's Hamming score is the count of its nine misplaced cells. */
  lemma HammingByRows(cur: Puzzle, goal: Puzzle)
    requires SameShape(cur, goal) && cur.size == 3
    ensures Hamming(cur, goal) ==
              Count(Misplaced(cur, goal, 0, 0)) + Count(Misplaced(cur, goal, 1, 0)) + Count(Misplaced(cur, goal, 2, 0))
              + Count(Misplaced(cur, goal, 0, 1)) + Count(Misplaced(cur, goal, 1, 1)) + Count(Misplaced(cur, goal, 2, 1))
              + Count(Misplaced(cur, goal, 0, 2)) + Count(Misplaced(cur, goal, 1, 2)) + Count(Misplaced(cur, goal, 2, 2))
  {
    HammingRow3(cur, goal, 0);
    HammingRow3(cur, goal, 1);
    HammingRow3(cur, goal, 2);
    assert HammingFrom(cur, goal, 0, 3) == 0;
  }

  /** One row of a 3-wide board adds its three Manhattan terms. */
  lemma ManhattanRow3(cur: Puzzle, goal: Puzzle, y: nat)
    requires SameShape(cur, goal) && cur.size == 3 && y < 3
    ensures ManhattanFrom(cur, goal, 0, y) == ManhattanTerm(cur, goal, 0, y) + ManhattanTerm(cur, goal, 1, y)
              + ManhattanTerm(cur, goal, 2, y) + ManhattanFrom(cur, goal, 0, y + 1)
  {
    assert ManhattanFrom(cur, goal, 3, y) == ManhattanFrom(cur, goal, 0, y + 1);
    assert ManhattanFrom(cur, goal, 2, y) == ManhattanTerm(cur, goal, 2, y) + ManhattanFrom(cur, goal, 3, y);
    assert ManhattanFrom(cur, goal, 1, y) == ManhattanTerm(cur, goal, 1, y) + ManhattanFrom(cur, goal, 2, y);
  }

  /** A 3×3 board's Manhattan score is the sum of its nine cell terms. */
  lemma ManhattanByRows(cur: Puzzle, goal: Puzzle)
    requires SameShape(cur, goal) && cur.size == 3
    ensures Manhattan(cur, goal) ==
              ManhattanTerm(cur, goal, 0, 0) + ManhattanTerm(cur, goal, 1, 0) + ManhattanTerm(cur, goal, 2, 0)
              + ManhattanTerm(cur, goal, 0, 1) + ManhattanTerm(cur, goal, 1, 1) + ManhattanTerm(cur, goal, 2, 1)
              + ManhattanTerm(cur, goal, 0, 2) + ManhattanTerm(cur, goal, 1, 2) + ManhattanTerm(cur, goal, 2, 2)
  {
    ManhattanRow3(cur, goal, 0);
    ManhattanRow3(cur, goal, 1);
    ManhattanRow3(cur, goal, 2);
    assert ManhattanFrom(cur, goal, 0, 3) == 0;
  }

  /** Test `five_moved_tiles` of `hamming_distance`. */
  lemma HammingFiveMovedTiles(cur: Puzzle, goal: Puzzle)
    requires IsFiveMoved(cur) && IsGoal(goal)
    ensures SameShape(cur, goal) && Hamming(cur, goal) == 4
  {
    HammingByRows(cur, goal);
  }

  /** Test `every_tiles_moved` of `hamming_distance`. */
  lemma HammingEveryTileMoved(cur: Puzzle, goal: Puzzle)
    requires IsEveryMoved(cur) && IsGoal(goal)
    ensures SameShape(cur, goal) && Hamming(cur, goal) == 8
  {
    HammingByRows(cur, goal);
  }

  /** Tests `no_moved_tile` of all three estimators. */
  lemma NoMovedTile(goal: Puzzle)
    requires IsGoal(goal)
    ensures WellFormed(goal)
    ensures Hamming(goal, goal) == 0
    ensures Manhattan(goal, goal) == 0
    ensures LinearConflict(goal, goal) == Some(0)
  {
    GoalScoresZero(goal);
    LinearConflictZeroWhenPlaced(goal, goal);
  }

  /** Test `five_moved_tiles` of `manhattan_distance`. */
  lemma ManhattanFiveMovedTiles(cur: Puzzle, goal: Puzzle)
    requires IsFiveMoved(cur) && IsGoal(goal)
    ensures SameShape(cur, goal) && Manhattan(cur, goal) == 7
  {
    GoalDistinct(goal);
    ManhattanTermIsDistance(cur, goal, 2, 0, 0, 1);
    ManhattanTermIsDistance(cur, goal, 1, 1, 2, 0);
    ManhattanTermIsDistance(cur, goal, 1, 2, 2, 2);
    ManhattanTermIsDistance(cur, goal, 2, 2, 1, 2);
    assert !Misplaced(cur, goal, 0, 0) && !Misplaced(cur, goal, 1, 0) && !Misplaced(cur, goal, 0, 1);
    assert !Misplaced(cur, goal, 2, 1) && !Misplaced(cur, goal, 0, 2);
    ManhattanByRows(cur, goal);
  }

  /** The top row of `every_tiles_moved` is 2 + 3 + 3 away from home. */
  lemma EveryMovedTopRow(cur: Puzzle, goal: Puzzle)
    requires IsEveryMoved(cur) && IsGoal(goal)
    ensures SameShape(cur, goal)
    ensures ManhattanTerm(cur, goal, 0, 0) == 2 && ManhattanTerm(cur, goal, 1, 0) == 3
    ensures ManhattanTerm(cur, goal, 2, 0) == 3
  {
    GoalDistinct(goal);
    ManhattanTermIsDistance(cur, goal, 0, 0, 0, 2);
    ManhattanTermIsDistance(cur, goal, 1, 0, 2, 2);
    ManhattanTermIsDistance(cur, goal, 2, 0, 1, 2);
  }

  /** Each tile of the middle row of `every_tiles_moved` is one row below home. */
  lemma EveryMovedMiddleRow(cur: Puzzle, goal: Puzzle)
    requires IsEveryMoved(cur) && IsGoal(goal)
    ensures SameShape(cur, goal)
    ensures ManhattanTerm(cur, goal, 0, 1) == 1 && ManhattanTerm(cur, goal, 1, 1) == 1
    ensures ManhattanTerm(cur, goal, 2, 1) == 1
  {
    GoalDistinct(goal);
    ManhattanTermIsDistance(cur, goal, 0, 1, 0, 0);
    ManhattanTermIsDistance(cur, goal, 1, 1, 1, 0);
    ManhattanTermIsDistance(cur, goal, 2, 1, 2, 0);
  }

  /** The bottom row of `every_tiles_moved`: two tiles one step away, and the blank. */
  lemma EveryMovedBottomRow(cur: Puzzle, goal: Puzzle)
    requires IsEveryMoved(cur) && IsGoal(goal)
    ensures SameShape(cur, goal)
    ensures ManhattanTerm(cur, goal, 0, 2) == 1 && ManhattanTerm(cur, goal, 1, 2) == 0
    ensures ManhattanTerm(cur, goal, 2, 2) == 1
  {
    GoalDistinct(goal);
    ManhattanTermIsDistance(cur, goal, 0, 2, 0, 1);
    assert !Misplaced(cur, goal, 1, 2);
    ManhattanTermIsDistance(cur, goal, 2, 2, 2, 1);
  }

  /** Test `every_tiles_moved` of `manhattan_distance`. */
  lemma ManhattanEveryTileMoved(cur: Puzzle, goal: Puzzle)
    requires IsEveryMoved(cur) && IsGoal(goal)
    ensures SameShape(cur, goal) && Manhattan(cur, goal) == 13
  {
    EveryMovedTopRow(cur, goal);
    EveryMovedMiddleRow(cur, goal);
    EveryMovedBottomRow(cur, goal);
    ManhattanByRows(cur, goal);
  }

  /** Tests `return_true` and `return_false` of `check_in_correct_column` and
      `check_in_correct_row`: tile 1 belongs to goal column 0 and goal row 0,
      not to column 1 or row 1. */
  lemma CorrectLineTests(goal: Puzzle)
    requires IsGoal(goal)
    ensures WellFormed(goal)
    ensures InCorrectColumn(goal, 1, 0) && !InCorrectColumn(goal, 1, 1)
    ensures InCorrectRow(goal, 1, 0) && !InCorrectRow(goal, 1, 1)
  {
    InCorrectColumnIff(goal, 1, 0);
    InCorrectColumnIff(goal, 1, 1);
    InCorrectRowIff(goal, 1, 0);
    InCorrectRowIff(goal, 1, 1);
    assert Cell(goal, 0, 0) == 1;
  }
}
