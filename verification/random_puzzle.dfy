/** `Puzzle::new` of src/puzzle.rs: a size×size grid filled row by row, each
    cell drawing a value from a pool holding `0 .. size²-1` that shrinks as it
    is used. The random index of each draw is a parameter: any sequence of
    in-range choices is a possible run. */
module RandomPuzzle {
  import opened Seqs
  import opened Grid

  /** One index per cell, each within the pool left when that cell is filled,
      as `gen_range(0, pool.len())` guarantees. */
  predicate ValidDraws(count: nat, draws: seq<nat>)
  {
    |draws| == count && forall k :: 0 <= k < |draws| ==> draws[k] < count - k
  }

  /** The retry loop: it takes `pool[d]` and repeats while the pool does not
      contain the value taken. The value came from the pool, so the loop runs
      once and the draw is `pool[d]`. */
  function Draw(pool: seq<nat>, d: nat): (v: nat)
    requires d < |pool|
    ensures v in pool && FirstIndex(pool, v) <= d
  {
    pool[d]
  }

  /** Fill cells in row-major order: each takes its drawn value, which then
      leaves the pool at its first position. Returns the values placed and the
      pool left over. */
  function Fill(pool: seq<nat>, draws: seq<nat>): (r: (seq<nat>, seq<nat>))
    requires |draws| <= |pool|
    requires forall k :: 0 <= k < |draws| ==> draws[k] < |pool| - k
    ensures |r.0| == |draws| && |r.1| == |pool| - |draws|
  {
    if |draws| == 0 then ([], pool)
    else
      var v := Draw(pool, draws[0]);
      var rest := Fill(RemoveAt(pool, FirstIndex(pool, v)), draws[1..]);
      ([v] + rest.0, rest.1)
  }

  /** Every value placed leaves the pool: placed values and the pool left
      together are exactly the pool at the start. */
  lemma {:induction false} FillTakesFromPool(pool: seq<nat>, draws: seq<nat>)
    requires |draws| <= |pool|
    requires forall k :: 0 <= k < |draws| ==> draws[k] < |pool| - k
    ensures multiset(Fill(pool, draws).0) + multiset(Fill(pool, draws).1) == multiset(pool)
  {
    if |draws| > 0 {
      var v := Draw(pool, draws[0]);
      var i := FirstIndex(pool, v);
      var pool' := RemoveAt(pool, i);
      RemoveAtMultiset(pool, i);
      FillTakesFromPool(pool', draws[1..]);
      var rest := Fill(pool', draws[1..]);
      assert Fill(pool, draws).0 == [v] + rest.0;
      assert multiset([v] + rest.0) == multiset{v} + multiset(rest.0);
    }
  }

  /** The grid's rows: `m` consecutive slices of `n` values. */
  function Rows(values: seq<nat>, n: nat, m: nat): (rows: seq<seq<nat>>)
    requires |values| == n * m
    ensures |rows| == m && forall y :: 0 <= y < m ==> |rows[y]| == n
    ensures Flatten(rows) == values
  {
    if m == 0 then []
    else
      assert |values[n..]| == n * (m - 1);
      var rest := Rows(values[n..], n, m - 1);
      assert ([values[..n]] + rest)[1..] == rest;
      [values[..n]] + rest
  }

  /** `Puzzle::new(size)`: `None` is the panic for sizes below 3. */
  function NewPuzzle(size: nat, draws: seq<nat>): (r: Option<seq<seq<nat>>>)
    requires size >= 3 ==> ValidDraws(size * size, draws)
    ensures r.None? <==> size < 3
    ensures r.Some? ==> WellFormed(Puzzle(size, r.value))
  {
    if size < 3 then None
    else
      var filled := Fill(Range(size * size), draws);
      Some(Rows(filled.0, size, size))
  }

  /** Every run ends with the pool empty and a grid holding each of
      `0 .. size²-1` exactly once. */
  lemma NewPuzzleIsPermutation(size: nat, draws: seq<nat>)
    requires size >= 3 && ValidDraws(size * size, draws)
    ensures Fill(Range(size * size), draws).1 == []
    ensures IsPermutation(Puzzle(size, NewPuzzle(size, draws).value))
  {
    FillTakesFromPool(Range(size * size), draws);
  }

  /** The check the tests run on a new grid: remove each value it holds from
      a fresh pool, at the value's first position; `None` is the panic of
      `position(..).unwrap()` for a value no longer in the pool. */
  function RemoveEach(pool: seq<nat>, values: seq<nat>): (r: Option<seq<nat>>)
    ensures r.Some? ==> |values| <= |pool| && |r.value| == |pool| - |values|
  {
    if |values| == 0 then Some(pool)
    else if values[0] !in pool then None
    else RemoveEach(RemoveAt(pool, FirstIndex(pool, values[0])), values[1..])
  }

  /** Removing the placed values one by one replays the fill and leaves the pool it left. */
  lemma {:induction false} RemoveEachReplaysFill(pool: seq<nat>, draws: seq<nat>)
    requires |draws| <= |pool|
    requires forall k :: 0 <= k < |draws| ==> draws[k] < |pool| - k
    ensures RemoveEach(pool, Fill(pool, draws).0) == Some(Fill(pool, draws).1)
  {
    if |draws| > 0 {
      var v := Draw(pool, draws[0]);
      var pool' := RemoveAt(pool, FirstIndex(pool, v));
      RemoveEachReplaysFill(pool', draws[1..]);
      var values := Fill(pool, draws).0;
      assert values[0] == v && values[1..] == Fill(pool', draws[1..]).0;
    }
  }

  /** Tests `correct_puzzle_of_size_three` and `correct_puzzle_of_size_ten`, for
      every size from 3 up: removing the new grid's values from a fresh pool
      empties it without a panic. */
  lemma NewPuzzleEmptiesFreshPool(size: nat, draws: seq<nat>)
    requires size >= 3 && ValidDraws(size * size, draws)
    ensures RemoveEach(Range(size * size), Flatten(NewPuzzle(size, draws).value)) == Some([])
  {
    RemoveEachReplaysFill(Range(size * size), draws);
  }

  /** Test `panic_because_size_less_than_three`. */
  lemma SizeTwoPanics(draws: seq<nat>)
    ensures NewPuzzle(2, draws).None?
  {
  }
}
