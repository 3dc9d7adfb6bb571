/** The open and closed lists of the A* search in src/graph.rs. A node's
    `distance` there is its path cost, the `g` of `SearchNode.Node`; the
    search's one-argument heuristic is a parameter of every operation that
    consults it. */
module SearchGraph {
  import opened Seqs
  import opened Grid
  import opened SearchNode

  /** `Graph` without its heuristic: the two lists, the start node and the
      peak size the open list has been seen to reach. */
  datatype Graph = Graph(open: seq<Node>, closed: seq<Node>, start: Node, maxStates: nat)

  /** The priority the open list is kept in: estimate plus path cost. */
  function Priority(heuristic: Puzzle -> nat, n: Node): nat
  {
    heuristic(n.state) + n.g
  }

  /** The open list is in ascending order of priority. */
  predicate Sorted(heuristic: Puzzle -> nat, list: seq<Node>)
  {
    forall i, j :: 0 <= i < j < |list| ==> Priority(heuristic, list[i]) <= Priority(heuristic, list[j])
  }

  /** `add_to_open_list`: the node goes to the end of the open list. */
  function AddToOpenList(g: Graph, n: Node): (r: Graph)
    ensures |r.open| == |g.open| + 1 && r.open[..|g.open|] == g.open && r.open[|g.open|] == n
    ensures r.closed == g.closed && r.start == g.start && r.maxStates == g.maxStates
  {
    g.(open := g.open + [n])
  }

  /** `add_to_closed_list`: the node goes to the end of the closed list. */
  function AddToClosedList(g: Graph, n: Node): (r: Graph)
    ensures |r.closed| == |g.closed| + 1 && r.closed[..|g.closed|] == g.closed && r.closed[|g.closed|] == n
    ensures r.open == g.open && r.start == g.start && r.maxStates == g.maxStates
  {
    g.(closed := g.closed + [n])
  }

  /** `list.contains(&n)`, with node equality comparing boards only. */
  predicate Contains(list: seq<Node>, n: Node)
  {
    exists i :: 0 <= i < |list| && SameNode(list[i], n)
  }

  /** `.iter().any(|m| m == n && m.distance < n.distance)`, front to back. */
  function CheaperCopyFrom(list: seq<Node>, n: Node, i: nat): bool
    requires i <= |list|
    decreases |list| - i
  {
    if i == |list| then false
    else (SameNode(list[i], n) && list[i].g < n.g) || CheaperCopyFrom(list, n, i + 1)
  }

  /** The scan from `i` finds a copy of `n`'s board reached more cheaply
      exactly when one sits at or after `i`. */
  lemma {:induction false} CheaperCopyFromIff(list: seq<Node>, n: Node, i: nat)
    requires i <= |list|
    ensures CheaperCopyFrom(list, n, i) <==> exists k :: i <= k < |list| && SameNode(list[k], n) && list[k].g < n.g
    decreases |list| - i
  {
    if i < |list| {
      CheaperCopyFromIff(list, n, i + 1);
    }
  }

  /** `is_lower_cost`: false exactly when the open list already holds the
      node's board with a strictly smaller path cost. */
  function IsLowerCost(g: Graph, n: Node): (b: bool)
    ensures !b <==> exists k :: 0 <= k < |g.open| && SameNode(g.open[k], n) && g.open[k].g < n.g
  {
    CheaperCopyFromIff(g.open, n, 0);
    !CheaperCopyFrom(g.open, n, 0)
  }

  /** `.iter().position(|m| f(n) <= f(m))` from index `i` on: the first entry
      whose priority is no smaller than the node's. */
  function FirstNotCheaper(heuristic: Puzzle -> nat, list: seq<Node>, n: Node, i: nat): (r: Option<nat>)
    requires i <= |list|
    decreases |list| - i
    ensures r.Some? ==> i <= r.value < |list| && Priority(heuristic, n) <= Priority(heuristic, list[r.value])
    ensures r.Some? ==> forall k :: i <= k < r.value ==> Priority(heuristic, list[k]) < Priority(heuristic, n)
    ensures r.None? ==> forall k :: i <= k < |list| ==> Priority(heuristic, list[k]) < Priority(heuristic, n)
  {
    if i == |list| then None
    else if Priority(heuristic, n) <= Priority(heuristic, list[i]) then Some(i)
    else FirstNotCheaper(heuristic, list, n, i + 1)
  }

  /** `Vec::insert(k, n)`. */
  function Insert(list: seq<Node>, k: nat, n: Node): (r: seq<Node>)
    requires k <= |list|
    ensures |r| == |list| + 1 && r[k] == n
    ensures RemoveAt(r, k) == list
  {
    list[..k] + [n] + list[k..]
  }

  /** The index `add_in_sorted_open_list` inserts at, as written: the first
      entry no cheaper than the node, or the FRONT when every entry is cheaper. */
  function InsertIndex(heuristic: Puzzle -> nat, list: seq<Node>, n: Node): (k: nat)
    ensures k <= |list|
    ensures (exists i :: 0 <= i < |list| && Priority(heuristic, n) <= Priority(heuristic, list[i])) ==>
              k < |list| && Priority(heuristic, n) <= Priority(heuristic, list[k])
              && forall i :: 0 <= i < k ==> Priority(heuristic, list[i]) < Priority(heuristic, n)
    ensures (forall i :: 0 <= i < |list| ==> Priority(heuristic, list[i]) < Priority(heuristic, n)) ==> k == 0
  {
    match FirstNotCheaper(heuristic, list, n, 0)
    case Some(k) => k
    case None => 0
  }

  /** The index with the fall-back the ordering needs: past the end when
      every entry is cheaper. */
  function InsertIndexFixed(heuristic: Puzzle -> nat, list: seq<Node>, n: Node): (k: nat)
    ensures k <= |list|
    ensures forall i :: 0 <= i < k ==> Priority(heuristic, list[i]) < Priority(heuristic, n)
    ensures k < |list| ==> Priority(heuristic, n) <= Priority(heuristic, list[k])
  {
    match FirstNotCheaper(heuristic, list, n, 0)
    case Some(k) => k
    case None => |list|
  }

  /** `add_in_sorted_open_list` with the open list's insertion point given by `at`. */
  function AddInOpenListAt(heuristic: Puzzle -> nat, g: Graph, opt: Option<Node>,
                           at: (Puzzle -> nat, seq<Node>, Node) -> nat): (r: Graph)
    requires forall list, n :: at(heuristic, list, n) <= |list|
  {
    match opt
    case None => g
    case Some(n) =>
      if Contains(g.closed, n) then g
      else
        var open := if IsLowerCost(g, n) then Insert(g.open, at(heuristic, g.open, n), n) else g.open;
        g.(open := open, maxStates := if g.maxStates < |open| then g.maxStates + 1 else g.maxStates)
  }

  /** `add_in_sorted_open_list` as written. */
  function AddInSortedOpenList(heuristic: Puzzle -> nat, g: Graph, opt: Option<Node>): (r: Graph)
    ensures opt.None? ==> r == g
    ensures opt.Some? && Contains(g.closed, opt.value) ==> r == g
    ensures opt.Some? && !IsLowerCost(g, opt.value) ==> r.open == g.open
    ensures opt.Some? && !Contains(g.closed, opt.value) && IsLowerCost(g, opt.value) ==>
              var k := InsertIndex(heuristic, g.open, opt.value);
              |r.open| == |g.open| + 1 && r.open[k] == opt.value && RemoveAt(r.open, k) == g.open
    ensures r.closed == g.closed && r.start == g.start
    ensures r.maxStates == g.maxStates || r.maxStates == g.maxStates + 1
    ensures g.maxStates >= |g.open| ==> r.maxStates >= |r.open|
    ensures g.maxStates >= |g.open| ==> r.maxStates == (if |r.open| > g.maxStates then |r.open| else g.maxStates)
  {
    AddInOpenListAt(heuristic, g, opt, InsertIndex)
  }

  /** `add_in_sorted_open_list` with the corrected fall-back index. */
  function AddInSortedOpenListFixed(heuristic: Puzzle -> nat, g: Graph, opt: Option<Node>): (r: Graph)
    ensures opt.None? ==> r == g
    ensures opt.Some? && Contains(g.closed, opt.value) ==> r == g
    ensures opt.Some? && !IsLowerCost(g, opt.value) ==> r.open == g.open
    ensures opt.Some? && !Contains(g.closed, opt.value) && IsLowerCost(g, opt.value) ==>
              var k := InsertIndexFixed(heuristic, g.open, opt.value);
              |r.open| == |g.open| + 1 && r.open[k] == opt.value && RemoveAt(r.open, k) == g.open
    ensures r.closed == g.closed && r.start == g.start
    ensures r.maxStates == g.maxStates || r.maxStates == g.maxStates + 1
    ensures g.maxStates >= |g.open| ==> r.maxStates >= |r.open|
    ensures g.maxStates >= |g.open| ==> r.maxStates == (if |r.open| > g.maxStates then |r.open| else g.maxStates)
  {
    AddInOpenListAt(heuristic, g, opt, InsertIndexFixed)
  }

  /** Inserting a node at an index with only cheaper entries before it and no
      cheaper entry at it keeps a sorted list sorted. */
  lemma InsertKeepsSorted(heuristic: Puzzle -> nat, list: seq<Node>, k: nat, n: Node)
    requires Sorted(heuristic, list) && k <= |list|
    requires forall i :: 0 <= i < k ==> Priority(heuristic, list[i]) <= Priority(heuristic, n)
    requires k < |list| ==> Priority(heuristic, n) <= Priority(heuristic, list[k])
    ensures Sorted(heuristic, Insert(list, k, n))
  {
    var r := Insert(list, k, n);
    forall i, j | 0 <= i < j < |r|
      ensures Priority(heuristic, r[i]) <= Priority(heuristic, r[j])
    {
      if j < k {
        assert r[i] == list[i] && r[j] == list[j];
      } else if j == k {
        assert r[i] == list[i];
      } else if i < k {
        assert r[i] == list[i] && r[j] == list[j - 1];
      } else if i == k {
        assert r[j] == list[j - 1];
      } else {
        assert r[i] == list[i - 1] && r[j] == list[j - 1];
      }
    }
  }

  /** With the corrected fall-back, the open list stays sorted whatever is added. */
  lemma FixedKeepsOpenListSorted(heuristic: Puzzle -> nat, g: Graph, opt: Option<Node>)
    requires Sorted(heuristic, g.open)
    ensures Sorted(heuristic, AddInSortedOpenListFixed(heuristic, g, opt).open)
  {
    if opt.Some? && !Contains(g.closed, opt.value) && IsLowerCost(g, opt.value) {
      var k := InsertIndexFixed(heuristic, g.open, opt.value);
      InsertKeepsSorted(heuristic, g.open, k, opt.value);
    }
  }

  /** As written, the open list stays sorted as long as some entry is no
      cheaper than the node added; then both versions insert at the same place. */
  lemma KeepsOpenListSortedWhenNotLast(heuristic: Puzzle -> nat, g: Graph, n: Node)
    requires Sorted(heuristic, g.open)
    requires exists i :: 0 <= i < |g.open| && Priority(heuristic, n) <= Priority(heuristic, g.open[i])
    ensures AddInSortedOpenList(heuristic, g, Some(n)) == AddInSortedOpenListFixed(heuristic, g, Some(n))
    ensures Sorted(heuristic, AddInSortedOpenList(heuristic, g, Some(n)).open)
  {
    assert FirstNotCheaper(heuristic, g.open, n, 0).Some?;
    FixedKeepsOpenListSorted(heuristic, g, Some(n));
  }

  /** As written, a node dearer than every open entry lands at the front, ahead
      of a cheaper one, and the open list is no longer sorted. */
  lemma DearestNodeUnsortsOpenList(heuristic: Puzzle -> nat, g: Graph, n: Node)
    requires |g.open| > 0 && !Contains(g.closed, n) && IsLowerCost(g, n)
    requires forall i :: 0 <= i < |g.open| ==> Priority(heuristic, g.open[i]) < Priority(heuristic, n)
    ensures AddInSortedOpenList(heuristic, g, Some(n)).open[0] == n
    ensures !Sorted(heuristic, AddInSortedOpenList(heuristic, g, Some(n)).open)
  {
    var r := AddInSortedOpenList(heuristic, g, Some(n)).open;
    assert r == [n] + g.open;
    assert r[1] == g.open[0];
  }

  /** The commented-out test `dont_add_if_unnecessary`: after a node is added
      to an empty open list, a copy of its board reached by a longer path is
      turned away, so the open list keeps one entry. */
  lemma DontAddIfUnnecessary(heuristic: Puzzle -> nat, g: Graph, n1: Node, n2: Node)
    requires g.open == [] && g.closed == []
    requires n1.state == n2.state && n1.g < n2.g
    ensures var g1 := AddInSortedOpenList(heuristic, g, Some(n1));
            |AddInSortedOpenList(heuristic, g1, Some(n2)).open| == 1
  {
    var g1 := AddInSortedOpenList(heuristic, g, Some(n1));
    assert g1.open == [n1];
    assert SameNode(g1.open[0], n2) && g1.open[0].g < n2.g;
  }
}
