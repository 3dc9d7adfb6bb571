/** The search node of src/node.rs: a board with its path cost `g` (moves
    from the start) and its heuristic estimate `h`, and the generation of the
    boards one slide of the blank away. */
module SearchNode {
  import opened Grid

  datatype Node = Node(state: Puzzle, g: nat, h: nat)

  /** `f_score`: the A* priority of a node. */
  function FScore(n: Node): nat
  {
    n.g + n.h
  }

  datatype Ordering = Less | Equal | Greater

  /** `Ord::cmp`: nodes are ranked by f-score and nothing else. */
  function Compare(a: Node, b: Node): (o: Ordering)
    ensures o == Less <==> a.g + a.h < b.g + b.h
    ensures o == Equal <==> a.g + a.h == b.g + b.h
    ensures o == Greater <==> a.g + a.h > b.g + b.h
  {
    if FScore(a) < FScore(b) then Less
    else if FScore(a) > FScore(b) then Greater
    else Equal
  }

  function Flip(o: Ordering): Ordering
  {
    match o
    case Less => Greater
    case Equal => Equal
    case Greater => Less
  }

  /** The ranking is a total preorder: antisymmetric and transitive. */
  lemma CompareIsPreorder(a: Node, b: Node, c: Node)
    ensures Compare(b, a) == Flip(Compare(a, b))
    ensures Compare(a, b) != Greater && Compare(b, c) != Greater ==> Compare(a, c) != Greater
  {
  }

  /** `PartialEq::eq`: two nodes are equal when their boards are, whatever their scores. */
  predicate SameNode(a: Node, b: Node)
  {
    a.state == b.state
  }

  /** Equality and ordering disagree: two nodes equal for `==` are still ranked
      apart by `cmp` whenever their f-scores differ, although Rust expects `Ord`
      and `Eq` to agree. */
  lemma EqualityIgnoresScores(a: Node, b: Node)
    requires SameNode(a, b)
    ensures FScore(a) != FScore(b) ==> Compare(a, b) != Equal
  {
  }

  /** `new_starting_node`: the start board, scored zero. */
  function NewStartingNode(state: Puzzle): (n: Node)
    ensures n.state == state && FScore(n) == 0
  {
    Node(state, 0, 0)
  }

  /** `get_final_node`: the goal board, scored zero; the goal itself is a
      parameter, since `get_final_state` is not part of this model. */
  function FinalNode(goal: Puzzle): (n: Node)
    ensures SameNode(n, Node(goal, 0, 0)) && FScore(n) == 0
  {
    Node(goal, 0, 0)
  }

  /** `swap_two_positions`: a copy of the board with cells (x, y) and (x', y') exchanged. */
  function SwapTwoPositions(p: Puzzle, x: nat, y: nat, x': nat, y': nat): (r: Puzzle)
    requires WellFormed(p) && x < p.size && y < p.size && x' < p.size && y' < p.size
    ensures SameShape(p, r)
    ensures Cell(r, x, y) == Cell(p, x', y') && Cell(r, x', y') == Cell(p, x, y)
    ensures forall u: nat, v: nat :: u < p.size && v < p.size && (u, v) != (x, y) && (u, v) != (x', y') ==>
              Cell(r, u, v) == Cell(p, u, v)
  {
    var q := SetValue(p, x, y, Cell(p, x', y'));
    SetValue(q, x', y', Cell(p, x, y))
  }

  /** A swap only moves tiles: the board keeps its multiset of tiles. */
  lemma SwapKeepsTiles(p: Puzzle, x: nat, y: nat, x': nat, y': nat)
    requires WellFormed(p) && x < p.size && y < p.size && x' < p.size && y' < p.size
    ensures Tiles(SwapTwoPositions(p, x, y, x', y')) == Tiles(p)
  {
    var a, b := Cell(p, x, y), Cell(p, x', y');
    var q := SetValue(p, x, y, b);
    SetValueTiles(p, x, y, b);
    SetValueTiles(q, x', y', a);
    assert Cell(q, x', y') == b;
    var r := SwapTwoPositions(p, x, y, x', y');
    assert Tiles(r) + multiset{b} == Tiles(p) + multiset{b};
    forall t
      ensures Tiles(r)[t] == Tiles(p)[t]
    {
      assert (Tiles(r) + multiset{b})[t] == (Tiles(p) + multiset{b})[t];
    }
  }

  /** Swapping the same two cells again restores the board. */
  lemma SwapInvolution(p: Puzzle, x: nat, y: nat, x': nat, y': nat)
    requires WellFormed(p) && x < p.size && y < p.size && x' < p.size && y' < p.size
    ensures SwapTwoPositions(SwapTwoPositions(p, x, y, x', y'), x, y, x', y') == p
  {
    var r := SwapTwoPositions(SwapTwoPositions(p, x, y, x', y'), x, y, x', y');
    SameCells(r, p);
  }

  /** The order in which a swap names its two cells does not matter. */
  lemma SwapSymmetric(p: Puzzle, x: nat, y: nat, x': nat, y': nat)
    requires WellFormed(p) && x < p.size && y < p.size && x' < p.size && y' < p.size
    ensures SwapTwoPositions(p, x, y, x', y') == SwapTwoPositions(p, x', y', x, y)
  {
    SameCells(SwapTwoPositions(p, x, y, x', y'), SwapTwoPositions(p, x', y', x, y));
  }

  /** A slide of the blank, named after the way the blank moves. */
  datatype Direction = Up | Down | Left | Right

  /** Position of each direction in the order `calculate_next_states` tries them. */
  function Rank(d: Direction): nat
  {
    match d
    case Up => 0
    case Down => 1
    case Left => 2
    case Right => 3
  }

  /** The cell one step from (x, y) in direction `d`, which may lie off the board. */
  function Toward(x: nat, y: nat, d: Direction): (int, int)
  {
    match d
    case Up => (x, y - 1)
    case Down => (x, y + 1)
    case Left => (x - 1, y)
    case Right => (x + 1, y)
  }

  predicate Inside(n: nat, c: (int, int))
  {
    0 <= c.0 < n && 0 <= c.1 < n
  }

  /** Two cells share a side. */
  predicate Adjacent(x: nat, y: nat, x': nat, y': nat)
  {
    (x == x' && (y' == y + 1 || y == y' + 1)) || (y == y' && (x' == x + 1 || x == x' + 1))
  }

  /** The directions the blank at (x, y) can slide in, in the order
      `calculate_next_states` emits them: every direction that stays on the
      board, each once, ranked up, down, left, right. */
  function Moves(n: nat, x: nat, y: nat): (ds: seq<Direction>)
    requires x < n && y < n
    ensures forall d :: d in ds <==> Inside(n, Toward(x, y, d))
    ensures forall i, j :: 0 <= i < j < |ds| ==> Rank(ds[i]) < Rank(ds[j])
  {
    (if y != 0 then [Up] else []) + (if y != n - 1 then [Down] else [])
    + (if x != 0 then [Left] else []) + (if x != n - 1 then [Right] else [])
  }

  /** A cell on the board one step away is exactly an adjacent cell. */
  lemma TowardIsAdjacent(n: nat, x: nat, y: nat, d: Direction)
    requires x < n && y < n && Inside(n, Toward(x, y, d))
    ensures Adjacent(x, y, Toward(x, y, d).0 as nat, Toward(x, y, d).1 as nat)
  {
  }

  /** The blank at (x, y) slides in direction `d`. */
  function Slide(p: Puzzle, x: nat, y: nat, d: Direction): (r: Puzzle)
    requires WellFormed(p) && x < p.size && y < p.size && Inside(p.size, Toward(x, y, d))
  {
    var t := Toward(x, y, d);
    SwapTwoPositions(p, x, y, t.0 as nat, t.1 as nat)
  }

  /** `calculate_next_states`: one board per legal slide of the blank, which
      `get_position(0)` locates at its first row-major occurrence. */
  function NextStates(p: Puzzle): (r: seq<Puzzle>)
    requires WellFormed(p) && Holds(p, 0)
    ensures |r| <= 4
    ensures forall i :: 0 <= i < |r| ==> SameShape(p, r[i])
  {
    var (x, y) := GetPosition(p, 0);
    var ds := Moves(p.size, x, y);
    seq(|ds|, i requires 0 <= i < |ds| => Slide(p, x, y, ds[i]))
  }

  /** The k-th successor: the blank's tile moves to an adjacent cell (given by
      the k-th legal direction), the tile there takes the blank's old cell, and
      no other cell changes. */
  lemma NextStateSlidesBlank(p: Puzzle, k: nat)
    requires WellFormed(p) && Holds(p, 0) && k < |NextStates(p)|
    ensures var (x, y) := GetPosition(p, 0);
            var t := Toward(x, y, Moves(p.size, x, y)[k]);
            var s := NextStates(p)[k];
            Inside(p.size, t) && Adjacent(x, y, t.0 as nat, t.1 as nat)
            && Cell(s, t.0 as nat, t.1 as nat) == 0 && Cell(s, x, y) == Cell(p, t.0 as nat, t.1 as nat)
            && forall u: nat, v: nat :: u < p.size && v < p.size && (u, v) != (x, y) && (u, v) != (t.0 as nat, t.1 as nat)
                 ==> Cell(s, u, v) == Cell(p, u, v)
  {
    var (x, y) := GetPosition(p, 0);
    var ds := Moves(p.size, x, y);
    assert ds[k] in ds;
    TowardIsAdjacent(p.size, x, y, ds[k]);
  }

  /** On a board holding each tile once, a successor differs from its parent
      in exactly two cells: the blank's old cell and its new one. */
  lemma NextStateDiffersInTwoCells(p: Puzzle, k: nat)
    requires WellFormed(p) && Distinct(p) && Holds(p, 0) && k < |NextStates(p)|
    ensures var (x, y) := GetPosition(p, 0);
            var t := Toward(x, y, Moves(p.size, x, y)[k]);
            var s := NextStates(p)[k];
            (x, y) != (t.0 as nat, t.1 as nat)
            && Cell(s, x, y) != Cell(p, x, y) && Cell(s, t.0 as nat, t.1 as nat) != Cell(p, t.0 as nat, t.1 as nat)
  {
    var (x, y) := GetPosition(p, 0);
    var t := Toward(x, y, Moves(p.size, x, y)[k]);
    NextStateSlidesBlank(p, k);
    assert Cell(p, t.0 as nat, t.1 as nat) != Cell(p, x, y);
  }

  /** A cell is on the edge of its axis. */
  function Border(n: nat, c: nat): nat
  {
    (if c == 0 then 1 else 0) + (if c == n - 1 then 1 else 0)
  }

  /** On a board of side at least 2, a blank in a corner has 2 successors, one
      on an edge 3, one in the interior 4. */
  lemma {:induction false} NextStatesCount(p: Puzzle)
    requires WellFormed(p) && Holds(p, 0) && p.size >= 2
    ensures var (x, y) := GetPosition(p, 0);
            var corner := (x == 0 || x == p.size - 1) && (y == 0 || y == p.size - 1);
            var interior := 0 < x < p.size - 1 && 0 < y < p.size - 1;
            (|NextStates(p)| == 2 <==> corner)
            && (|NextStates(p)| == 4 <==> interior)
            && (|NextStates(p)| == 3 <==> !corner && !interior)
  {
    var (x, y) := GetPosition(p, 0);
    assert |NextStates(p)| == 4 - Border(p.size, x) - Border(p.size, y);
  }

  /** `calculate_next_nodes`: one child node per successor board, in the same
      order, one move further from the start and scored by `heuristic` against
      the final node's board. */
  method NextNodes(parent: Node, final: Node, heuristic: (Puzzle, Puzzle) -> nat) returns (childs: seq<Node>)
    requires WellFormed(parent.state) && Holds(parent.state, 0)
    ensures |childs| == |NextStates(parent.state)|
    ensures forall i :: 0 <= i < |childs| ==>
              childs[i].state == NextStates(parent.state)[i]
              && childs[i].g == parent.g + 1
              && childs[i].h == heuristic(childs[i].state, final.state)
  {
    var states := NextStates(parent.state);
    childs := [];
    for k := 0 to |states|
      invariant |childs| == k
      invariant forall i :: 0 <= i < k ==>
                  childs[i] == Node(states[i], parent.g + 1, heuristic(states[i], final.state))
    {
      childs := childs + [Node(states[k], parent.g + 1, heuristic(states[k], final.state))];
    }
  }
}
