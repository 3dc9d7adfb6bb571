/** The unit tests of src/node.rs, restated as lemmas about the model. Each
    speaks of any board laid out as the tests' board `[[0,1,2],[3,4,5],[6,8,7]]`. */
module NodeExamples {
  import opened Grid
  import opened SearchNode

  /** The board of the `swap_two_positions` and `calculate_next_state` tests. */
  predicate IsTestBoard(p: Puzzle)
  {
    p.size == 3 && p.data == [[0, 1, 2], [3, 4, 5], [6, 8, 7]]
  }

  /** Test `down_swap`: the blank trades places with the tile below it. */
  lemma DownSwap(p: Puzzle)
    requires IsTestBoard(p)
    ensures WellFormed(p)
    ensures SwapTwoPositions(p, 0, 0, 0, 1).data == [[3, 1, 2], [0, 4, 5], [6, 8, 7]]
  {
    SameCells(SwapTwoPositions(p, 0, 0, 0, 1), Puzzle(3, [[3, 1, 2], [0, 4, 5], [6, 8, 7]]));
  }

  /** Test `right_swap`: the blank trades places with the tile to its right. */
  lemma RightSwap(p: Puzzle)
    requires IsTestBoard(p)
    ensures WellFormed(p)
    ensures SwapTwoPositions(p, 0, 0, 1, 0).data == [[1, 0, 2], [3, 4, 5], [6, 8, 7]]
  {
    SameCells(SwapTwoPositions(p, 0, 0, 1, 0), Puzzle(3, [[1, 0, 2], [3, 4, 5], [6, 8, 7]]));
  }

  /** The blank in the top-left corner is found there. */
  lemma BlankAtOrigin(p: Puzzle)
    requires WellFormed(p) && p.size > 0 && Cell(p, 0, 0) == 0
    ensures Holds(p, 0) && GetPosition(p, 0) == (0, 0)
  {
    assert Cell(p, 0, 0) == 0;
  }

  /** Test `two_dir`: from the top-left corner the blank can only move down,
      then right, in that order. */
  lemma TwoDirections(p: Puzzle)
    requires IsTestBoard(p)
    ensures WellFormed(p) && Holds(p, 0)
    ensures |NextStates(p)| == 2
    ensures NextStates(p)[0].data == [[3, 1, 2], [0, 4, 5], [6, 8, 7]]
    ensures NextStates(p)[1].data == [[1, 0, 2], [3, 4, 5], [6, 8, 7]]
  {
    BlankAtOrigin(p);
    assert Moves(3, 0, 0) == [Down, Right];
    DownSwap(p);
    RightSwap(p);
  }
}
