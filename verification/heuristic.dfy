/** The three estimators of src/heuristic.rs — Hamming, Manhattan and the
    linear-conflict correction — and their helpers. Each one compares a board
    with an explicitly given goal board of the same side length, visiting the
    cells row by row as the source's nested `for y { for x { … } }` loops do.
    A loop resumed at cell (x, y) is written as a recursion whose cursor
    moves right, and to the start of the next row when `x == size`. */
module Heuristic {
  import opened Seqs
  import opened Grid

  function Abs(i: int): nat
  {
    if i < 0 then -i else i
  }

  /** `get_distance`: the taxicab distance between cells (x1, y1) and (x2, y2). */
  function Distance(x1: nat, y1: nat, x2: nat, y2: nat): (d: nat)
    ensures d == 0 <==> x1 == x2 && y1 == y2
  {
    Abs(x1 - x2) + Abs(y1 - y2)
  }

  /** Distance does not depend on the direction of travel. */
  lemma DistanceSymmetric(x1: nat, y1: nat, x2: nat, y2: nat)
    ensures Distance(x1, y1, x2, y2) == Distance(x2, y2, x1, y1)
  {
  }

  /** The triangle inequality: going through a third cell is never shorter. */
  lemma DistanceTriangle(x1: nat, y1: nat, x2: nat, y2: nat, x3: nat, y3: nat)
    ensures Distance(x1, y1, x3, y3) <= Distance(x1, y1, x2, y2) + Distance(x2, y2, x3, y3)
  {
  }

  /** `get_correct_point`: where `v` sits on the goal board — the first cell in
      row-major order holding it — or (0, 0) when the goal does not hold `v`.
      The source's first two arguments are never read, so they are not modelled. */
  function CorrectPoint(goal: Puzzle, v: nat): (pt: (nat, nat))
    requires WellFormed(goal)
    ensures Holds(goal, v) ==> pt.0 < goal.size && pt.1 < goal.size && Cell(goal, pt.0, pt.1) == v
    ensures Holds(goal, v) ==> forall x: nat, y: nat ::
              (x < goal.size && y < goal.size && Before(x, y, pt.0, pt.1)) ==> Cell(goal, x, y) != v
    ensures !Holds(goal, v) ==> pt == (0, 0)
  {
    ScanFindsHeld(goal, v);
    match ScanFrom(goal, v, 0, 0)
    case Some(pt) => pt
    case None => (0, 0)
  }

  /** On a goal without repeated tiles, the goal cell of `v` is the one cell holding it. */
  lemma CorrectPointUnique(goal: Puzzle, v: nat, x: nat, y: nat)
    requires WellFormed(goal) && Distinct(goal) && x < goal.size && y < goal.size && Cell(goal, x, y) == v
    ensures CorrectPoint(goal, v) == (x, y)
  {
    var pt := CorrectPoint(goal, v);
    assert Cell(goal, pt.0, pt.1) == Cell(goal, x, y);
  }

  // ---------------------------------------------------------------------------
  // Column and row checks of the linear conflict
  // ---------------------------------------------------------------------------

  /** `check_in_correct_column` from row `y` down. */
  function ColumnHasFrom(goal: Puzzle, v: nat, x: nat, y: nat): bool
    requires WellFormed(goal) && x < goal.size
    decreases goal.size - y
  {
    if y >= goal.size then false
    else Cell(goal, x, y) == v || ColumnHasFrom(goal, v, x, y + 1)
  }

  /** `check_in_correct_row` from column `x` rightwards. */
  function RowHasFrom(goal: Puzzle, v: nat, y: nat, x: nat): bool
    requires WellFormed(goal) && y < goal.size
    decreases goal.size - x
  {
    if x >= goal.size then false
    else Cell(goal, x, y) == v || RowHasFrom(goal, v, y, x + 1)
  }

  lemma {:induction false} ColumnHasFromIff(goal: Puzzle, v: nat, x: nat, y: nat)
    requires WellFormed(goal) && x < goal.size
    decreases goal.size - y
    ensures ColumnHasFrom(goal, v, x, y) <==> exists y': nat :: y <= y' < goal.size && Cell(goal, x, y') == v
  {
    if y < goal.size {
      ColumnHasFromIff(goal, v, x, y + 1);
    }
  }

  lemma {:induction false} RowHasFromIff(goal: Puzzle, v: nat, y: nat, x: nat)
    requires WellFormed(goal) && y < goal.size
    decreases goal.size - x
    ensures RowHasFrom(goal, v, y, x) <==> exists x': nat :: x <= x' < goal.size && Cell(goal, x', y) == v
  {
    if x < goal.size {
      RowHasFromIff(goal, v, y, x + 1);
    }
  }

  /** `check_in_correct_column`: does goal column `x` hold `v`? */
  function InCorrectColumn(goal: Puzzle, v: nat, x: nat): bool
    requires WellFormed(goal) && x < goal.size
  {
    ColumnHasFrom(goal, v, x, 0)
  }

  /** `check_in_correct_row`: does goal row `y` hold `v`? */
  function InCorrectRow(goal: Puzzle, v: nat, y: nat): bool
    requires WellFormed(goal) && y < goal.size
  {
    RowHasFrom(goal, v, y, 0)
  }

  /** `check_in_correct_column` is true exactly when some row of goal column `x` holds `v`. */
  lemma InCorrectColumnIff(goal: Puzzle, v: nat, x: nat)
    requires WellFormed(goal) && x < goal.size
    ensures InCorrectColumn(goal, v, x) <==> exists y: nat :: y < goal.size && Cell(goal, x, y) == v
  {
    ColumnHasFromIff(goal, v, x, 0);
  }

  /** `check_in_correct_row` is true exactly when some column of goal row `y` holds `v`. */
  lemma InCorrectRowIff(goal: Puzzle, v: nat, y: nat)
    requires WellFormed(goal) && y < goal.size
    ensures InCorrectRow(goal, v, y) <==> exists x: nat :: x < goal.size && Cell(goal, x, y) == v
  {
    RowHasFromIff(goal, v, y, 0);
  }

  /** Row `y` of column `x` is where the goal wants `v`, and the tile now there
      belongs to goal column `x` and is still in `list`. */
  predicate ColumnBlocker(cur: Puzzle, goal: Puzzle, v: nat, x: nat, y: nat, list: seq<nat>)
    requires SameShape(cur, goal) && x < goal.size && y < goal.size
  {
    Cell(goal, x, y) == v && InCorrectColumn(goal, Cell(cur, x, y), x) && Cell(cur, x, y) in list
  }

  /** Column `x` of row `y` is where the goal wants `v`, and the tile now there
      belongs to goal row `y` and is still in `list`. */
  predicate RowBlocker(cur: Puzzle, goal: Puzzle, v: nat, y: nat, x: nat, list: seq<nat>)
    requires SameShape(cur, goal) && x < goal.size && y < goal.size
  {
    Cell(goal, x, y) == v && InCorrectRow(goal, Cell(cur, x, y), y) && Cell(cur, x, y) in list
  }

  function ColumnConflictFrom(cur: Puzzle, goal: Puzzle, v: nat, x: nat, list: seq<nat>, y: nat): (r: nat)
    requires SameShape(cur, goal) && x < goal.size
    decreases goal.size - y
    ensures r == 0 || r == 2
  {
    if y >= goal.size then 0
    else if ColumnBlocker(cur, goal, v, x, y, list) then 2
    else ColumnConflictFrom(cur, goal, v, x, list, y + 1)
  }

  function RowConflictFrom(cur: Puzzle, goal: Puzzle, v: nat, y: nat, list: seq<nat>, x: nat): (r: nat)
    requires SameShape(cur, goal) && y < goal.size
    decreases goal.size - x
    ensures r == 0 || r == 2
  {
    if x >= goal.size then 0
    else if RowBlocker(cur, goal, v, y, x, list) then 2
    else RowConflictFrom(cur, goal, v, y, list, x + 1)
  }

  lemma {:induction false} ColumnConflictFromIff(cur: Puzzle, goal: Puzzle, v: nat, x: nat, list: seq<nat>, y: nat)
    requires SameShape(cur, goal) && x < goal.size
    decreases goal.size - y
    ensures ColumnConflictFrom(cur, goal, v, x, list, y) == 2 <==>
              exists y': nat :: y <= y' < goal.size && ColumnBlocker(cur, goal, v, x, y', list)
  {
    if y < goal.size {
      ColumnConflictFromIff(cur, goal, v, x, list, y + 1);
    }
  }

  lemma {:induction false} RowConflictFromIff(cur: Puzzle, goal: Puzzle, v: nat, y: nat, list: seq<nat>, x: nat)
    requires SameShape(cur, goal) && y < goal.size
    decreases goal.size - x
    ensures RowConflictFrom(cur, goal, v, y, list, x) == 2 <==>
              exists x': nat :: x <= x' < goal.size && RowBlocker(cur, goal, v, y, x', list)
  {
    if x < goal.size {
      RowConflictFromIff(cur, goal, v, y, list, x + 1);
    }
  }

  /** `check_column_conflict`: 2 or 0. */
  function ColumnConflict(cur: Puzzle, goal: Puzzle, v: nat, x: nat, list: seq<nat>): (r: nat)
    requires SameShape(cur, goal) && x < goal.size
    ensures r == 0 || r == 2
  {
    ColumnConflictFrom(cur, goal, v, x, list, 0)
  }

  /** `check_row_conflict`: 2 or 0. */
  function RowConflict(cur: Puzzle, goal: Puzzle, v: nat, y: nat, list: seq<nat>): (r: nat)
    requires SameShape(cur, goal) && y < goal.size
    ensures r == 0 || r == 2
  {
    RowConflictFrom(cur, goal, v, y, list, 0)
  }

  /** `check_column_conflict` reports 2 exactly when some row of column `x` is a blocker for `v`. */
  lemma ColumnConflictIff(cur: Puzzle, goal: Puzzle, v: nat, x: nat, list: seq<nat>)
    requires SameShape(cur, goal) && x < goal.size
    ensures ColumnConflict(cur, goal, v, x, list) == 2 <==>
              exists y: nat :: y < goal.size && ColumnBlocker(cur, goal, v, x, y, list)
  {
    ColumnConflictFromIff(cur, goal, v, x, list, 0);
  }

  /** `check_row_conflict` reports 2 exactly when some column of row `y` is a blocker for `v`. */
  lemma RowConflictIff(cur: Puzzle, goal: Puzzle, v: nat, y: nat, list: seq<nat>)
    requires SameShape(cur, goal) && y < goal.size
    ensures RowConflict(cur, goal, v, y, list) == 2 <==>
              exists x: nat :: x < goal.size && RowBlocker(cur, goal, v, y, x, list)
  {
    RowConflictFromIff(cur, goal, v, y, list, 0);
  }

  /** On a goal board without repeated tiles, goal column `x` holds `v`
      exactly when `v`'s goal cell lies in column `x`. */
  lemma InCorrectColumnMeaning(goal: Puzzle, v: nat, x: nat)
    requires WellFormed(goal) && x < goal.size && Distinct(goal)
    ensures InCorrectColumn(goal, v, x) <==> Holds(goal, v) && CorrectPoint(goal, v).0 == x
  {
    InCorrectColumnIff(goal, v, x);
    if InCorrectColumn(goal, v, x) {
      var y: nat :| y < goal.size && Cell(goal, x, y) == v;
      CorrectPointUnique(goal, v, x, y);
    }
    if Holds(goal, v) && CorrectPoint(goal, v).0 == x {
      assert Cell(goal, x, CorrectPoint(goal, v).1) == v;
    }
  }

  /** On a goal board without repeated tiles, goal row `y` holds `v`
      exactly when `v`'s goal cell lies in row `y`. */
  lemma InCorrectRowMeaning(goal: Puzzle, v: nat, y: nat)
    requires WellFormed(goal) && y < goal.size && Distinct(goal)
    ensures InCorrectRow(goal, v, y) <==> Holds(goal, v) && CorrectPoint(goal, v).1 == y
  {
    InCorrectRowIff(goal, v, y);
    if InCorrectRow(goal, v, y) {
      var x: nat :| x < goal.size && Cell(goal, x, y) == v;
      CorrectPointUnique(goal, v, x, y);
    }
    if Holds(goal, v) && CorrectPoint(goal, v).1 == y {
      assert Cell(goal, CorrectPoint(goal, v).0, y) == v;
    }
  }

  /** On a goal board without repeated tiles, a column conflict for `v` means:
      `v`'s goal cell lies in column `x`, and the tile now on that goal cell
      also belongs to goal column `x` and is still in `list`. */
  lemma ColumnConflictMeaning(cur: Puzzle, goal: Puzzle, v: nat, x: nat, list: seq<nat>)
    requires SameShape(cur, goal) && x < goal.size && Distinct(goal)
    ensures ColumnConflict(cur, goal, v, x, list) == 2 <==>
              Holds(goal, v) && CorrectPoint(goal, v).0 == x
              && InCorrectColumn(goal, Cell(cur, x, CorrectPoint(goal, v).1), x)
              && Cell(cur, x, CorrectPoint(goal, v).1) in list
  {
    ColumnConflictIff(cur, goal, v, x, list);
    if ColumnConflict(cur, goal, v, x, list) == 2 {
      var y: nat :| y < goal.size && ColumnBlocker(cur, goal, v, x, y, list);
      CorrectPointUnique(goal, v, x, y);
    }
    var pt := CorrectPoint(goal, v);
    if Holds(goal, v) && pt.0 == x && InCorrectColumn(goal, Cell(cur, x, pt.1), x) && Cell(cur, x, pt.1) in list {
      assert ColumnBlocker(cur, goal, v, x, pt.1, list);
    }
  }

  /** The row counterpart of `ColumnConflictMeaning`. */
  lemma RowConflictMeaning(cur: Puzzle, goal: Puzzle, v: nat, y: nat, list: seq<nat>)
    requires SameShape(cur, goal) && y < goal.size && Distinct(goal)
    ensures RowConflict(cur, goal, v, y, list) == 2 <==>
              Holds(goal, v) && CorrectPoint(goal, v).1 == y
              && InCorrectRow(goal, Cell(cur, CorrectPoint(goal, v).0, y), y)
              && Cell(cur, CorrectPoint(goal, v).0, y) in list
  {
    RowConflictIff(cur, goal, v, y, list);
    if RowConflict(cur, goal, v, y, list) == 2 {
      var x: nat :| x < goal.size && RowBlocker(cur, goal, v, y, x, list);
      CorrectPointUnique(goal, v, x, y);
    }
    var pt := CorrectPoint(goal, v);
    if Holds(goal, v) && pt.1 == y && InCorrectRow(goal, Cell(cur, pt.0, y), y) && Cell(cur, pt.0, y) in list {
      assert RowBlocker(cur, goal, v, y, pt.0, list);
    }
  }

  // ---------------------------------------------------------------------------
  // Hamming distance
  // ---------------------------------------------------------------------------

  /** Cell (x, y) holds a non-blank tile other than the goal's tile there. */
  predicate Misplaced(cur: Puzzle, goal: Puzzle, x: nat, y: nat)
    requires SameShape(cur, goal) && x < cur.size && y < cur.size
  {
    Cell(cur, x, y) != Cell(goal, x, y) && Cell(cur, x, y) != 0
  }

  /** No cell at or after (x, y) is misplaced. */
  predicate PlacedFrom(cur: Puzzle, goal: Puzzle, x: nat, y: nat)
    requires SameShape(cur, goal)
  {
    forall x': nat, y': nat :: x' < cur.size && y' < cur.size && !Before(x', y', x, y) ==> !Misplaced(cur, goal, x', y')
  }

  /** The number of cells at or after (x, y) on an n×n board. */
  function CellsFrom(n: nat, x: nat, y: nat): nat
    requires x <= n
    decreases n - y, n - x
  {
    if y >= n then 0
    else if x == n then CellsFrom(n, 0, y + 1)
    else 1 + CellsFrom(n, x + 1, y)
  }

  lemma {:induction false} CellsFromRow(n: nat, x: nat, y: nat)
    requires x <= n && y < n
    decreases n - x
    ensures CellsFrom(n, x, y) == (n - x) + CellsFrom(n, 0, y + 1)
  {
    if x < n {
      CellsFromRow(n, x + 1, y);
    }
  }

  lemma {:induction false} CellsFromRows(n: nat, y: nat)
    requires y <= n
    decreases n - y
    ensures CellsFrom(n, 0, y) == (n - y) * n
  {
    if y < n {
      CellsFromRow(n, 0, y);
      CellsFromRows(n, y + 1);
      assert (n - y) * n == n + (n - y - 1) * n;
    }
  }

  /** The row-major loop of `hamming_distance`, resumed at cell (x, y). */
  function HammingFrom(cur: Puzzle, goal: Puzzle, x: nat, y: nat): nat
    requires SameShape(cur, goal) && x <= cur.size
    decreases cur.size - y, cur.size - x
  {
    if y >= cur.size then 0
    else if x == cur.size then HammingFrom(cur, goal, 0, y + 1)
    else (if Misplaced(cur, goal, x, y) then 1 else 0) + HammingFrom(cur, goal, x + 1, y)
  }

  /** The loop finds nothing to count exactly when no cell it visits is misplaced. */
  lemma {:induction false} HammingFromZeroIff(cur: Puzzle, goal: Puzzle, x: nat, y: nat)
    requires SameShape(cur, goal) && x <= cur.size
    decreases cur.size - y, cur.size - x
    ensures HammingFrom(cur, goal, x, y) == 0 <==> PlacedFrom(cur, goal, x, y)
  {
    if y < cur.size {
      if x == cur.size {
        HammingFromZeroIff(cur, goal, 0, y + 1);
      } else {
        HammingFromZeroIff(cur, goal, x + 1, y);
        if !PlacedFrom(cur, goal, x + 1, y) {
          var x': nat, y': nat :| x' < cur.size && y' < cur.size && !Before(x', y', x + 1, y) && Misplaced(cur, goal, x', y');
          assert !Before(x', y', x, y);
        }
      }
    }
  }

  /** `hamming_distance`: the number of non-blank tiles not on their goal cell;
      0 exactly when every non-blank tile is on its goal cell. */
  function Hamming(cur: Puzzle, goal: Puzzle): (r: nat)
    requires SameShape(cur, goal)
    ensures r == 0 <==> PlacedFrom(cur, goal, 0, 0)
  {
    HammingFromZeroIff(cur, goal, 0, 0);
    HammingFrom(cur, goal, 0, 0)
  }

  /** The cells at or after (x, y) that are misplaced. */
  function MisplacedFrom(cur: Puzzle, goal: Puzzle, x: nat, y: nat): set<(nat, nat)>
    requires SameShape(cur, goal)
  {
    set x': nat, y': nat | x' < cur.size && y' < cur.size && !Before(x', y', x, y) && Misplaced(cur, goal, x', y')
      :: (x', y')
  }

  /** Each visited cell adds at most one, and a blank among them adds nothing. */
  lemma {:induction false} HammingFromBound(cur: Puzzle, goal: Puzzle, x: nat, y: nat)
    requires SameShape(cur, goal) && x <= cur.size
    decreases cur.size - y, cur.size - x
    ensures HammingFrom(cur, goal, x, y) <= CellsFrom(cur.size, x, y)
    ensures (exists x': nat, y': nat :: x' < cur.size && y' < cur.size && !Before(x', y', x, y) && Cell(cur, x', y') == 0)
            ==> HammingFrom(cur, goal, x, y) < CellsFrom(cur.size, x, y)
  {
    if y < cur.size {
      if x == cur.size {
        HammingFromBound(cur, goal, 0, y + 1);
      } else {
        HammingFromBound(cur, goal, x + 1, y);
        if exists x': nat, y': nat :: x' < cur.size && y' < cur.size && !Before(x', y', x, y) && Cell(cur, x', y') == 0 {
          var x': nat, y': nat :| x' < cur.size && y' < cur.size && !Before(x', y', x, y) && Cell(cur, x', y') == 0;
          if x' != x || y' != y {
            assert !Before(x', y', x + 1, y);
          }
        }
      }
    }
  }

  /** Hamming never exceeds the number of cells, and a board holding the
      blank scores at most size² - 1. */
  lemma HammingBound(cur: Puzzle, goal: Puzzle)
    requires SameShape(cur, goal)
    ensures Hamming(cur, goal) <= cur.size * cur.size
    ensures Holds(cur, 0) ==> Hamming(cur, goal) < cur.size * cur.size
  {
    HammingFromBound(cur, goal, 0, 0);
    CellsFromRows(cur.size, 0);
  }

  /** Moving the cursor one cell on drops exactly that cell from the misplaced set. */
  lemma MisplacedFromStep(cur: Puzzle, goal: Puzzle, x: nat, y: nat)
    requires SameShape(cur, goal) && x < cur.size && y < cur.size
    ensures (x, y) !in MisplacedFrom(cur, goal, x + 1, y)
    ensures Misplaced(cur, goal, x, y) ==>
              MisplacedFrom(cur, goal, x, y) == {(x, y)} + MisplacedFrom(cur, goal, x + 1, y)
    ensures !Misplaced(cur, goal, x, y) ==>
              MisplacedFrom(cur, goal, x, y) == MisplacedFrom(cur, goal, x + 1, y)
  {
  }

  /** The end of a row and the start of the next one name the same cells. */
  lemma MisplacedFromRowEnd(cur: Puzzle, goal: Puzzle, y: nat)
    requires SameShape(cur, goal)
    ensures MisplacedFrom(cur, goal, cur.size, y) == MisplacedFrom(cur, goal, 0, y + 1)
  {
  }

  /** Hamming counts exactly the set of misplaced cells. */
  lemma {:induction false} HammingFromCounts(cur: Puzzle, goal: Puzzle, x: nat, y: nat)
    requires SameShape(cur, goal) && x <= cur.size
    decreases cur.size - y, cur.size - x
    ensures HammingFrom(cur, goal, x, y) == |MisplacedFrom(cur, goal, x, y)|
  {
    if y >= cur.size {
      assert MisplacedFrom(cur, goal, x, y) == {};
    } else if x == cur.size {
      HammingFromCounts(cur, goal, 0, y + 1);
      MisplacedFromRowEnd(cur, goal, y);
    } else {
      HammingFromCounts(cur, goal, x + 1, y);
      MisplacedFromStep(cur, goal, x, y);
    }
  }

  /** `hamming_distance` equals the number of misplaced non-blank cells. */
  lemma HammingCountsMisplaced(cur: Puzzle, goal: Puzzle)
    requires SameShape(cur, goal)
    ensures Hamming(cur, goal) ==
              |set x: nat, y: nat | x < cur.size && y < cur.size && Misplaced(cur, goal, x, y) :: (x, y)|
  {
    HammingFromCounts(cur, goal, 0, 0);
    assert MisplacedFrom(cur, goal, 0, 0) ==
             set x: nat, y: nat | x < cur.size && y < cur.size && Misplaced(cur, goal, x, y) :: (x, y);
  }

  // ---------------------------------------------------------------------------
  // Manhattan distance
  // ---------------------------------------------------------------------------

  /** What cell (x, y) adds to `manhattan_distance`: the distance from the
      cell to the goal cell of its tile when misplaced, else 0. */
  function ManhattanTerm(cur: Puzzle, goal: Puzzle, x: nat, y: nat): nat
    requires SameShape(cur, goal) && x < cur.size && y < cur.size
  {
    if Misplaced(cur, goal, x, y) then
      var pt := CorrectPoint(goal, Cell(cur, x, y));
      Distance(x, y, pt.0, pt.1)
    else 0
  }

  /** The row-major loop of `manhattan_distance`, resumed at cell (x, y). */
  function ManhattanFrom(cur: Puzzle, goal: Puzzle, x: nat, y: nat): nat
    requires SameShape(cur, goal) && x <= cur.size
    decreases cur.size - y, cur.size - x
  {
    if y >= cur.size then 0
    else if x == cur.size then ManhattanFrom(cur, goal, 0, y + 1)
    else ManhattanTerm(cur, goal, x, y) + ManhattanFrom(cur, goal, x + 1, y)
  }

  /** `manhattan_distance`: the summed taxicab distance of each misplaced
      non-blank tile to its goal cell. */
  function Manhattan(cur: Puzzle, goal: Puzzle): nat
    requires SameShape(cur, goal)
  {
    ManhattanFrom(cur, goal, 0, 0)
  }

  /** On a goal without repeated tiles, a misplaced tile adds its taxicab
      distance to the one goal cell (gx, gy) that holds it. */
  lemma ManhattanTermIsDistance(cur: Puzzle, goal: Puzzle, x: nat, y: nat, gx: nat, gy: nat)
    requires SameShape(cur, goal) && Distinct(goal) && x < cur.size && y < cur.size
    requires gx < goal.size && gy < goal.size
    requires Cell(goal, gx, gy) == Cell(cur, x, y) && Misplaced(cur, goal, x, y)
    ensures ManhattanTerm(cur, goal, x, y) == Distance(x, y, gx, gy)
  {
    CorrectPointUnique(goal, Cell(cur, x, y), gx, gy);
  }

  /** A misplaced tile that the goal holds is at distance at least 1 from its goal cell. */
  lemma MisplacedTileIsAway(cur: Puzzle, goal: Puzzle, x: nat, y: nat)
    requires SameShape(cur, goal) && x < cur.size && y < cur.size && Misplaced(cur, goal, x, y)
    requires Holds(goal, Cell(cur, x, y))
    ensures ManhattanTerm(cur, goal, x, y) >= 1
  {
    var pt := CorrectPoint(goal, Cell(cur, x, y));
    assert Cell(goal, pt.0, pt.1) != Cell(goal, x, y);
  }

  /** Every tile of `cur` occurs somewhere on `goal`. */
  predicate TilesHeld(cur: Puzzle, goal: Puzzle)
    requires SameShape(cur, goal)
  {
    forall x: nat, y: nat :: x < cur.size && y < cur.size ==> Holds(goal, Cell(cur, x, y))
  }

  lemma {:induction false} ManhattanFromDominates(cur: Puzzle, goal: Puzzle, x: nat, y: nat)
    requires SameShape(cur, goal) && x <= cur.size && TilesHeld(cur, goal)
    decreases cur.size - y, cur.size - x
    ensures ManhattanFrom(cur, goal, x, y) >= HammingFrom(cur, goal, x, y)
  {
    if y < cur.size {
      if x == cur.size {
        ManhattanFromDominates(cur, goal, 0, y + 1);
      } else {
        ManhattanFromDominates(cur, goal, x + 1, y);
        if Misplaced(cur, goal, x, y) {
          MisplacedTileIsAway(cur, goal, x, y);
        }
      }
    }
  }

  /** When every tile of the board occurs on the goal board (as for two
      permutations of 0..size²-1), Manhattan never scores below Hamming. */
  lemma ManhattanDominatesHamming(cur: Puzzle, goal: Puzzle)
    requires SameShape(cur, goal) && TilesHeld(cur, goal)
    ensures Manhattan(cur, goal) >= Hamming(cur, goal)
  {
    ManhattanFromDominates(cur, goal, 0, 0);
  }

  lemma {:induction false} ManhattanFromZero(cur: Puzzle, goal: Puzzle, x: nat, y: nat)
    requires SameShape(cur, goal) && x <= cur.size && PlacedFrom(cur, goal, x, y)
    decreases cur.size - y, cur.size - x
    ensures ManhattanFrom(cur, goal, x, y) == 0
  {
    if y < cur.size {
      if x == cur.size {
        ManhattanFromZero(cur, goal, 0, y + 1);
      } else {
        ManhattanFromZero(cur, goal, x + 1, y);
      }
    }
  }

  /** With every tile present on the goal board, Manhattan is 0 exactly when
      Hamming is, i.e. exactly when no non-blank tile is off its goal cell. */
  lemma ManhattanZeroIff(cur: Puzzle, goal: Puzzle)
    requires SameShape(cur, goal) && TilesHeld(cur, goal)
    ensures Manhattan(cur, goal) == 0 <==> Hamming(cur, goal) == 0
  {
    ManhattanDominatesHamming(cur, goal);
    if Hamming(cur, goal) == 0 {
      ManhattanFromZero(cur, goal, 0, 0);
    }
  }

  /** Both distances vanish on the goal itself. */
  lemma GoalScoresZero(goal: Puzzle)
    requires WellFormed(goal)
    ensures Hamming(goal, goal) == 0 && Manhattan(goal, goal) == 0
  {
    ManhattanFromZero(goal, goal, 0, 0);
  }

  // ---------------------------------------------------------------------------
  // Linear conflict
  // ---------------------------------------------------------------------------

  /** Adding an even step keeps the total's parity relative to `acc`. */
  lemma EvenStep(acc: nat, c: nat, r: Option<nat>)
    requires c % 2 == 0
    requires r.Some? ==> acc + c <= r.value && (r.value - (acc + c)) % 2 == 0
    ensures r.Some? ==> acc <= r.value && (r.value - acc) % 2 == 0
  {
  }

  /** What `linear_conflict` adds for the misplaced tile at cell (x, y):
      its column conflict plus its row conflict, given the current `list`. */
  function ConflictAt(cur: Puzzle, goal: Puzzle, x: nat, y: nat, list: seq<nat>): (c: nat)
    requires SameShape(cur, goal) && x < cur.size && y < cur.size
    ensures c == 0 || c == 2 || c == 4
  {
    ColumnConflict(cur, goal, Cell(cur, x, y), x, list) + RowConflict(cur, goal, Cell(cur, x, y), y, list)
  }

  /** The loop of `linear_conflict` as written, resumed at cell (x, y), with
      the running total `acc`. After a conflict it calls `number_list.remove(value)`,
      which removes the element at INDEX `value`; `None` is the panic when that
      index is past the end of the shrunken list. */
  function LinearConflictFrom(cur: Puzzle, goal: Puzzle, x: nat, y: nat, list: seq<nat>, acc: nat): (r: Option<nat>)
    requires SameShape(cur, goal) && x <= cur.size
    decreases cur.size - y, cur.size - x
    ensures r.Some? ==> acc <= r.value && (r.value - acc) % 2 == 0
  {
    if y >= cur.size then Some(acc)
    else if x == cur.size then LinearConflictFrom(cur, goal, 0, y + 1, list, acc)
    else if !Misplaced(cur, goal, x, y) then LinearConflictFrom(cur, goal, x + 1, y, list, acc)
    else
      var c := ConflictAt(cur, goal, x, y, list);
      if c == 0 then LinearConflictFrom(cur, goal, x + 1, y, list, acc)
      else if Cell(cur, x, y) < |list| then
        var r := LinearConflictFrom(cur, goal, x + 1, y, RemoveAt(list, Cell(cur, x, y)), acc + c);
        EvenStep(acc, c, r);
        r
      else None
  }

  /** Each misplaced tile adds at most 4 to the as-written score. */
  lemma {:induction false} LinearConflictFromBound(cur: Puzzle, goal: Puzzle, x: nat, y: nat, list: seq<nat>, acc: nat)
    requires SameShape(cur, goal) && x <= cur.size
    decreases cur.size - y, cur.size - x
    ensures LinearConflictFrom(cur, goal, x, y, list, acc).Some? ==>
              LinearConflictFrom(cur, goal, x, y, list, acc).value <= acc + 4 * HammingFrom(cur, goal, x, y)
  {
    if y < cur.size {
      if x == cur.size {
        LinearConflictFromBound(cur, goal, 0, y + 1, list, acc);
      } else {
        var c := ConflictAt(cur, goal, x, y, list);
        if !Misplaced(cur, goal, x, y) || c == 0 {
          LinearConflictFromBound(cur, goal, x + 1, y, list, acc);
        } else if Cell(cur, x, y) < |list| {
          LinearConflictFromBound(cur, goal, x + 1, y, RemoveAt(list, Cell(cur, x, y)), acc + c);
        }
      }
    }
  }

  /** `linear_conflict` as written: an even total, at most four per misplaced
      tile, or a panic (`None`). */
  function LinearConflict(cur: Puzzle, goal: Puzzle): (r: Option<nat>)
    requires SameShape(cur, goal)
    ensures r.Some? ==> r.value % 2 == 0
    ensures r.Some? ==> r.value <= 4 * Hamming(cur, goal)
  {
    LinearConflictFromBound(cur, goal, 0, 0, Range(cur.size * cur.size), 0);
    LinearConflictFrom(cur, goal, 0, 0, Range(cur.size * cur.size), 0)
  }

  lemma {:induction false} LinearConflictFromUnmoved(cur: Puzzle, goal: Puzzle, x: nat, y: nat, list: seq<nat>, acc: nat)
    requires SameShape(cur, goal) && x <= cur.size && PlacedFrom(cur, goal, x, y)
    decreases cur.size - y, cur.size - x
    ensures LinearConflictFrom(cur, goal, x, y, list, acc) == Some(acc)
  {
    if y < cur.size {
      if x == cur.size {
        LinearConflictFromUnmoved(cur, goal, 0, y + 1, list, acc);
      } else {
        LinearConflictFromUnmoved(cur, goal, x + 1, y, list, acc);
      }
    }
  }

  /** A board with no misplaced tile has no linear conflict (and never panics). */
  lemma LinearConflictZeroWhenPlaced(cur: Puzzle, goal: Puzzle)
    requires SameShape(cur, goal) && Hamming(cur, goal) == 0
    ensures LinearConflict(cur, goal) == Some(0)
  {
    LinearConflictFromUnmoved(cur, goal, 0, 0, Range(cur.size * cur.size), 0);
  }

  /** `number_list.remove(value)` as evidently meant: drop the first copy of the value itself. */
  function RemoveValue(list: seq<nat>, v: nat): (r: seq<nat>)
    ensures v in list ==> |r| == |list| - 1
    ensures v !in list ==> r == list
  {
    if v in list then RemoveAt(list, FirstIndex(list, v)) else list
  }

  /** Removing a value present in the list takes exactly one copy of it away. */
  lemma RemoveValueMultiset(list: seq<nat>, v: nat)
    requires v in list
    ensures multiset(RemoveValue(list, v)) + multiset{v} == multiset(list)
  {
    RemoveAtMultiset(list, FirstIndex(list, v));
  }

  /** The loop of `linear_conflict` with removal by value: it never panics. */
  function LinearConflictFixedFrom(cur: Puzzle, goal: Puzzle, x: nat, y: nat, list: seq<nat>, acc: nat): (r: nat)
    requires SameShape(cur, goal) && x <= cur.size
    decreases cur.size - y, cur.size - x
    ensures acc <= r && (r - acc) % 2 == 0
  {
    if y >= cur.size then acc
    else if x == cur.size then LinearConflictFixedFrom(cur, goal, 0, y + 1, list, acc)
    else if !Misplaced(cur, goal, x, y) then LinearConflictFixedFrom(cur, goal, x + 1, y, list, acc)
    else
      var c := ConflictAt(cur, goal, x, y, list);
      var list' := if c == 0 then list else RemoveValue(list, Cell(cur, x, y));
      var r := LinearConflictFixedFrom(cur, goal, x + 1, y, list', acc + c);
      EvenStep(acc, c, Some(r));
      r
  }

  /** Each misplaced tile adds at most 4 to the corrected score. */
  lemma {:induction false} LinearConflictFixedFromBound(cur: Puzzle, goal: Puzzle, x: nat, y: nat, list: seq<nat>, acc: nat)
    requires SameShape(cur, goal) && x <= cur.size
    decreases cur.size - y, cur.size - x
    ensures LinearConflictFixedFrom(cur, goal, x, y, list, acc) <= acc + 4 * HammingFrom(cur, goal, x, y)
  {
    if y < cur.size {
      if x == cur.size {
        LinearConflictFixedFromBound(cur, goal, 0, y + 1, list, acc);
      } else if !Misplaced(cur, goal, x, y) {
        LinearConflictFixedFromBound(cur, goal, x + 1, y, list, acc);
      } else {
        var c := ConflictAt(cur, goal, x, y, list);
        var list' := if c == 0 then list else RemoveValue(list, Cell(cur, x, y));
        LinearConflictFixedFromBound(cur, goal, x + 1, y, list', acc + c);
        assert LinearConflictFixedFrom(cur, goal, x, y, list, acc) == LinearConflictFixedFrom(cur, goal, x + 1, y, list', acc + c);
        assert HammingFrom(cur, goal, x, y) == 1 + HammingFrom(cur, goal, x + 1, y);
      }
    }
  }

  /** `linear_conflict` with `number_list` shrinking by value: a total,
      even score of at most four per misplaced tile. */
  function LinearConflictFixed(cur: Puzzle, goal: Puzzle): (r: nat)
    requires SameShape(cur, goal)
    ensures r % 2 == 0
    ensures r <= 4 * Hamming(cur, goal)
  {
    LinearConflictFixedFromBound(cur, goal, 0, 0, Range(cur.size * cur.size), 0);
    LinearConflictFixedFrom(cur, goal, 0, 0, Range(cur.size * cur.size), 0)
  }

  lemma {:induction false} LinearConflictFixedFromUnmoved(cur: Puzzle, goal: Puzzle, x: nat, y: nat, list: seq<nat>, acc: nat)
    requires SameShape(cur, goal) && x <= cur.size && PlacedFrom(cur, goal, x, y)
    decreases cur.size - y, cur.size - x
    ensures LinearConflictFixedFrom(cur, goal, x, y, list, acc) == acc
  {
    if y < cur.size {
      if x == cur.size {
        LinearConflictFixedFromUnmoved(cur, goal, 0, y + 1, list, acc);
      } else {
        LinearConflictFixedFromUnmoved(cur, goal, x + 1, y, list, acc);
      }
    }
  }

  /** The corrected score is 0 on a board with no misplaced tile. */
  lemma LinearConflictFixedZeroWhenPlaced(cur: Puzzle, goal: Puzzle)
    requires SameShape(cur, goal) && Hamming(cur, goal) == 0
    ensures LinearConflictFixed(cur, goal) == 0
  {
    LinearConflictFixedFromUnmoved(cur, goal, 0, 0, Range(cur.size * cur.size), 0);
  }

  /** No misplaced cell at or after (x, y) has a conflict against `list`. */
  predicate QuietFrom(cur: Puzzle, goal: Puzzle, x: nat, y: nat, list: seq<nat>)
    requires SameShape(cur, goal)
  {
    forall x': nat, y': nat :: x' < cur.size && y' < cur.size && !Before(x', y', x, y) && Misplaced(cur, goal, x', y')
      ==> ConflictAt(cur, goal, x', y', list) == 0
  }

  /** The two loops agree for as long as no conflict is found: the lists stay
      identical and the as-written loop cannot panic. */
  lemma {:induction false} LinearConflictAgreesWhenQuiet(cur: Puzzle, goal: Puzzle, x: nat, y: nat, list: seq<nat>, acc: nat)
    requires SameShape(cur, goal) && x <= cur.size && QuietFrom(cur, goal, x, y, list)
    decreases cur.size - y, cur.size - x
    ensures LinearConflictFrom(cur, goal, x, y, list, acc) == Some(acc)
    ensures LinearConflictFixedFrom(cur, goal, x, y, list, acc) == acc
  {
    if y < cur.size {
      if x == cur.size {
        LinearConflictAgreesWhenQuiet(cur, goal, 0, y + 1, list, acc);
      } else {
        LinearConflictAgreesWhenQuiet(cur, goal, x + 1, y, list, acc);
      }
    }
  }
}
