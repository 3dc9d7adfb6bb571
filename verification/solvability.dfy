/** The solvability test of src/generator.rs and src/puzzle.rs: flatten the
    grid row by row, bubble-sort the flat copy while counting the adjacent
    swaps, and call the grid solvable when that count is even. */
module Solvability {
  import opened Seqs
  import opened Grid

  /** The number of elements of `s` smaller than `v`. */
  function Smaller(v: nat, s: seq<nat>): nat
  {
    if |s| == 0 then 0 else (if v > s[0] then 1 else 0) + Smaller(v, s[1..])
  }

  /** The number of pairs i < j with `s[i] > s[j]`. */
  function Inversions(s: seq<nat>): nat
  {
    if |s| == 0 then 0 else Smaller(s[0], s[1..]) + Inversions(s[1..])
  }

  predicate Ascending(s: seq<nat>)
  {
    forall i, j :: 0 <= i < j < |s| ==> s[i] <= s[j]
  }

  /** `data.swap(i, i + 1)`. */
  function SwapNext(s: seq<nat>, i: nat): (r: seq<nat>)
    requires i + 1 < |s|
    ensures |r| == |s| && r[i] == s[i + 1] && r[i + 1] == s[i]
    ensures forall k :: 0 <= k < |s| && k != i && k != i + 1 ==> r[k] == s[k]
  {
    s[i := s[i + 1]][i + 1 := s[i]]
  }

  /** Only elements out of order with `v` count, so an element no greater than
      `v` adds nothing. */
  lemma {:induction false} SmallerSwap(v: nat, s: seq<nat>, i: nat)
    requires i + 1 < |s|
    ensures Smaller(v, SwapNext(s, i)) == Smaller(v, s)
  {
    var t := SwapNext(s, i);
    if i == 0 {
      assert t[2..] == s[2..];
      assert Smaller(v, t) == (if v > t[0] then 1 else 0) + Smaller(v, t[1..]);
      assert Smaller(v, t[1..]) == (if v > t[1] then 1 else 0) + Smaller(v, t[1..][1..]);
      assert Smaller(v, s[1..]) == (if v > s[1] then 1 else 0) + Smaller(v, s[1..][1..]);
      assert t[1..][1..] == t[2..] && s[1..][1..] == s[2..];
    } else {
      assert t[1..] == SwapNext(s[1..], i - 1);
      SmallerSwap(v, s[1..], i - 1);
    }
  }

  /** Swapping an adjacent out-of-order pair removes exactly one inversion. */
  lemma {:induction false} SwapRemovesOneInversion(s: seq<nat>, i: nat)
    requires i + 1 < |s| && s[i] > s[i + 1]
    ensures Inversions(SwapNext(s, i)) + 1 == Inversions(s)
  {
    var t := SwapNext(s, i);
    if i == 0 {
      var rest := s[2..];
      assert t[1..] == [s[0]] + rest && s[1..] == [s[1]] + rest;
      assert t[1..][1..] == rest && s[1..][1..] == rest;
      assert Smaller(t[0], t[1..]) == Smaller(s[1], rest);
      assert Smaller(s[0], s[1..]) == 1 + Smaller(s[0], rest);
      assert Inversions(t[1..]) == Smaller(s[0], rest) + Inversions(rest);
      assert Inversions(s[1..]) == Smaller(s[1], rest) + Inversions(rest);
    } else {
      assert t[1..] == SwapNext(s[1..], i - 1);
      SmallerSwap(s[0], s[1..], i - 1);
      SwapRemovesOneInversion(s[1..], i - 1);
    }
  }

  /** A sequence has no inversion exactly when it is in ascending order. */
  lemma {:induction false} NoInversionsIffAscending(s: seq<nat>)
    ensures Inversions(s) == 0 <==> Ascending(s)
  {
    if |s| > 0 {
      NoInversionsIffAscending(s[1..]);
      SmallerZeroIff(s[0], s[1..]);
      if Ascending(s) {
        assert Ascending(s[1..]) by {
          forall i, j | 0 <= i < j < |s[1..]|
            ensures s[1..][i] <= s[1..][j]
          {
            assert s[1..][i] == s[i + 1] && s[1..][j] == s[j + 1];
          }
        }
        forall k | 0 <= k < |s[1..]|
          ensures s[0] <= s[1..][k]
        {
          assert s[1..][k] == s[k + 1];
        }
      }
      if Inversions(s) == 0 {
        forall i, j | 0 <= i < j < |s|
          ensures s[i] <= s[j]
        {
          assert s[j] == s[1..][j - 1];
          if i > 0 {
            assert s[i] == s[1..][i - 1];
          }
        }
      }
    }
  }

  /** `v` is greater than no element of `s` exactly when `Smaller` is zero. */
  lemma {:induction false} SmallerZeroIff(v: nat, s: seq<nat>)
    ensures Smaller(v, s) == 0 <==> forall k :: 0 <= k < |s| ==> v <= s[k]
  {
    if |s| > 0 {
      SmallerZeroIff(v, s[1..]);
      if forall k :: 0 <= k < |s| ==> v <= s[k] {
        forall k | 0 <= k < |s[1..]|
          ensures v <= s[1..][k]
        {
          assert s[1..][k] == s[k + 1];
        }
      }
      if Smaller(v, s) == 0 {
        forall k | 0 <= k < |s|
          ensures v <= s[k]
        {
          if k > 0 {
            assert s[k] == s[1..][k - 1];
          }
        }
      }
    }
  }

  // ---- the corrected sort -------------------------------------------------

  /** One bubble pass from index `i`, comparing each element with its right
      neighbour while one exists (the loop `for i in 0..len-1`), returning the
      swept sequence and the number of swaps. */
  function Pass(s: seq<nat>, i: nat): (r: (seq<nat>, nat))
    decreases |s| - i
    ensures |r.0| == |s|
  {
    if i + 1 >= |s| then (s, 0)
    else if s[i] > s[i + 1] then
      var (t, c) := Pass(SwapNext(s, i), i + 1);
      (t, c + 1)
    else Pass(s, i + 1)
  }

  /** Every swap of a pass removes one inversion: the swaps made plus the
      inversions left equal the inversions before. */
  lemma {:induction false} PassCountsInversions(s: seq<nat>, i: nat)
    ensures Inversions(Pass(s, i).0) + Pass(s, i).1 == Inversions(s)
    decreases |s| - i
  {
    if i + 1 < |s| {
      if s[i] > s[i + 1] {
        SwapRemovesOneInversion(s, i);
        PassCountsInversions(SwapNext(s, i), i + 1);
      } else {
        PassCountsInversions(s, i + 1);
      }
    }
  }

  /** A pass only rearranges the elements. */
  lemma {:induction false} PassPermutes(s: seq<nat>, i: nat)
    ensures multiset(Pass(s, i).0) == multiset(s)
    decreases |s| - i
  {
    if i + 1 < |s| {
      if s[i] > s[i + 1] {
        var t := SwapNext(s, i);
        assert t == s[i := s[i + 1]][i + 1 := s[i]];
        PassPermutes(t, i + 1);
      } else {
        PassPermutes(s, i + 1);
      }
    }
  }

  /** The last `p` positions hold their final values: they ascend, and nothing
      before them is larger. */
  predicate Settled(s: seq<nat>, p: nat)
  {
    forall i, j :: 0 <= i < j < |s| && j + p >= |s| ==> s[i] <= s[j]
  }

  /** A pass over an ascending stretch swaps nothing. */
  lemma {:induction false} PassOverSettled(s: seq<nat>, i: nat)
    requires forall a, b :: i <= a < b < |s| ==> s[a] <= s[b]
    ensures Pass(s, i) == (s, 0)
    decreases |s| - i
  {
    if i + 1 < |s| {
      PassOverSettled(s, i + 1);
    }
  }

  /** The pass carries the largest unsettled element along to the end of the
      unsettled stretch, settling one more position. */
  lemma {:induction false} PassCarriesMaximum(s: seq<nat>, i: nat, p: nat)
    requires p < |s| && i + p < |s| && Settled(s, p)
    requires forall k :: 0 <= k < i ==> s[k] <= s[i]
    ensures Settled(Pass(s, i).0, p + 1)
    decreases |s| - i
  {
    if i + p + 1 == |s| {
      PassOverSettled(s, i);
    } else if s[i] > s[i + 1] {
      var t := SwapNext(s, i);
      assert Settled(t, p) by {
        forall a, b | 0 <= a < b < |t| && b + p >= |t|
          ensures t[a] <= t[b]
        {
          assert t[b] == s[b];
          if a == i {
            assert t[a] == s[i + 1];
          } else if a == i + 1 {
            assert t[a] == s[i];
          }
        }
      }
      assert forall k :: 0 <= k < i + 1 ==> t[k] <= t[i + 1] by {
        forall k | 0 <= k < i + 1
          ensures t[k] <= t[i + 1]
        {
          if k < i {
            assert t[k] == s[k];
          }
        }
      }
      PassCarriesMaximum(t, i + 1, p);
    } else {
      PassCarriesMaximum(s, i + 1, p);
    }
  }

  /** `k` passes: the sequence left, and the swaps made in all of them. */
  function Passes(s: seq<nat>, k: nat): (r: (seq<nat>, nat))
    decreases k
    ensures |r.0| == |s|
  {
    if k == 0 then (s, 0)
    else
      var (t, c) := Pass(s, 0);
      var (u, d) := Passes(t, k - 1);
      (u, c + d)
  }

  /** The passes as a whole: a permutation of the input, ascending once there
      are at least as many passes as elements, and the swap count equals the
      inversions removed. */
  lemma {:induction false} PassesSort(s: seq<nat>, k: nat, p: nat)
    requires p <= |s| && Settled(s, p)
    ensures multiset(Passes(s, k).0) == multiset(s)
    ensures Inversions(Passes(s, k).0) + Passes(s, k).1 == Inversions(s)
    ensures p + k >= |s| ==> Ascending(Passes(s, k).0)
    decreases k
  {
    if k == 0 {
      if p >= |s| {
        assert Ascending(s) by {
          forall i, j | 0 <= i < j < |s|
            ensures s[i] <= s[j]
          {
          }
        }
      }
    } else {
      var t := Pass(s, 0).0;
      PassCountsInversions(s, 0);
      PassPermutes(s, 0);
      if p < |s| {
        PassCarriesMaximum(s, 0, p);
        PassesSort(t, k - 1, p + 1);
      } else {
        PassOverSettled(s, 0);
        PassesSort(t, k - 1, p);
      }
    }
  }

  /** `is_solvable` with the inner loop stopping at the last pair: true exactly
      when the swap count of `len + 1` passes is even. */
  function IsSolvable(rows: seq<seq<nat>>): (b: bool)
  {
    var data := Flatten(rows);
    Passes(data, |data| + 1).1 % 2 == 0
  }

  /** The swap count is the inversion count of the row-major flattening, so a
      grid is solvable exactly when that flattening has an even number of
      inversions; the sorted copy is a permutation of the flattening. */
  lemma SolvableIffEvenInversions(rows: seq<seq<nat>>)
    ensures var data := Flatten(rows);
            var (sorted, count) := Passes(data, |data| + 1);
            count == Inversions(data) && Ascending(sorted) && multiset(sorted) == multiset(data)
    ensures IsSolvable(rows) <==> Inversions(Flatten(rows)) % 2 == 0
  {
    var data := Flatten(rows);
    PassesSort(data, |data| + 1, 0);
    NoInversionsIffAscending(Passes(data, |data| + 1).0);
  }

  // ---- the loop as written ------------------------------------------------

  /** One pass of the loop as written, `for i in 0..len`, which also compares
      the last element with `data[len]`, beyond the end: `None` is that panic. */
  function PassAsWritten(s: seq<nat>, i: nat): (r: Option<(seq<nat>, nat)>)
    decreases |s| - i
  {
    if i >= |s| then Some((s, 0))
    else if i + 1 >= |s| then None
    else if s[i] > s[i + 1] then
      match PassAsWritten(SwapNext(s, i), i + 1)
      case None => None
      case Some((t, c)) => Some((t, c + 1))
    else PassAsWritten(s, i + 1)
  }

  /** `is_solvable` as written; `None` when it panics. */
  function IsSolvableAsWritten(rows: seq<seq<nat>>): (r: Option<bool>)
  {
    var data := Flatten(rows);
    PassesAsWritten(data, |data| + 1, 0)
  }

  /** `k` more passes as written, after `count` swaps so far; the parity test
      at the end. */
  function PassesAsWritten(s: seq<nat>, k: nat, count: nat): (r: Option<bool>)
    decreases k
  {
    if k == 0 then Some(count % 2 == 0)
    else match PassAsWritten(s, 0)
      case None => None
      case Some((t, c)) => PassesAsWritten(t, k - 1, count + c)
  }

  /** As written, every pass over a non-empty sequence reaches the last index
      and reads past the end. */
  lemma {:induction false} PassAsWrittenOverruns(s: seq<nat>, i: nat)
    requires i < |s|
    ensures PassAsWritten(s, i).None?
    decreases |s| - i
  {
    if i + 1 < |s| {
      if s[i] > s[i + 1] {
        PassAsWrittenOverruns(SwapNext(s, i), i + 1);
      } else {
        PassAsWrittenOverruns(s, i + 1);
      }
    }
  }

  /** As written, `is_solvable` panics on every grid holding at least one tile,
      and answers only for the empty grid. */
  lemma SolvableAsWrittenPanics(rows: seq<seq<nat>>)
    ensures IsSolvableAsWritten(rows).None? <==> |Flatten(rows)| > 0
    ensures |Flatten(rows)| == 0 ==> IsSolvableAsWritten(rows) == Some(true)
  {
    var data := Flatten(rows);
    if |data| > 0 {
      PassAsWrittenOverruns(data, 0);
      assert PassesAsWritten(data, |data| + 1, 0).None?;
    } else {
      assert PassAsWritten(data, 0) == Some((data, 0));
      assert PassesAsWritten(data, 0, 0) == Some(true);
      assert PassesAsWritten(data, 1, 0) == Some(true);
    }
  }
}

/** The `is_solvable` unit tests of src/generator.rs and src/puzzle.rs,
    restated for the corrected loop. */
module SolvabilityExamples {
  import opened Seqs
  import opened Grid
  import opened Solvability

  /** Test `solvable_puzzle_already_solved`: `[[0,1,2],[3,4,5],[6,7,8]]`. */
  predicate IsSolved(rows: seq<seq<nat>>)
  {
    rows == [[0, 1, 2], [3, 4, 5], [6, 7, 8]]
  }

  /** Test `unsolvable_puzzle`: `[[0,1,2],[3,4,5],[6,8,7]]`. */
  predicate IsLastPairSwapped(rows: seq<seq<nat>>)
  {
    rows == [[0, 1, 2], [3, 4, 5], [6, 8, 7]]
  }

  lemma FlattenThree(rows: seq<seq<nat>>)
    requires |rows| == 3
    ensures Flatten(rows) == rows[0] + rows[1] + rows[2]
  {
    assert rows[1..][1..][1..] == [];
    assert Flatten(rows[1..][1..]) == rows[2];
  }

  /** A sequence holding each index at its own position has no inversion. */
  lemma IdentityHasNoInversion(s: seq<nat>)
    requires forall k :: 0 <= k < |s| ==> s[k] == k
    ensures Inversions(s) == 0
  {
    NoInversionsIffAscending(s);
  }

  /** The identity on `0..8` with its last two values exchanged has one inversion. */
  lemma LastPairSwappedHasOneInversion(s: seq<nat>)
    requires |s| == 9 && s[7] == 8 && s[8] == 7
    requires forall k :: 0 <= k < 7 ==> s[k] == k
    ensures Inversions(s) == 1
  {
    var t := SwapNext(s, 7);
    IdentityHasNoInversion(t);
    SwapRemovesOneInversion(s, 7);
  }

  /** Test `solvable_puzzle_already_solved`: no inversion, so solvable. */
  lemma SolvedIsSolvable(rows: seq<seq<nat>>)
    requires IsSolved(rows)
    ensures IsSolvable(rows)
  {
    FlattenThree(rows);
    IdentityHasNoInversion(Flatten(rows));
    SolvableIffEvenInversions(rows);
  }

  /** Test `unsolvable_puzzle`: one inversion, so not solvable. */
  lemma LastPairSwappedIsUnsolvable(rows: seq<seq<nat>>)
    requires IsLastPairSwapped(rows)
    ensures !IsSolvable(rows)
  {
    FlattenThree(rows);
    LastPairSwappedHasOneInversion(Flatten(rows));
    SolvableIffEvenInversions(rows);
  }

  /** As written, the loop panics on the sorted test grid too. */
  lemma SolvedPanicsAsWritten(rows: seq<seq<nat>>)
    requires IsSolved(rows)
    ensures IsSolvableAsWritten(rows) == None
  {
    FlattenThree(rows);
    SolvableAsWrittenPanics(rows);
  }
}
