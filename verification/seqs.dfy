/** Small sequence vocabulary shared by the puzzle modules: an optional value,
    the `0..n` range, removal by index and first-occurrence search. */
module Seqs {

  /** A value that may be missing; `None` also stands for a Rust panic. */
  datatype Option<T> = None | Some(value: T)

  /** The integers `0 .. n-1` in ascending order, as `(0..n).collect()` builds them. */
  function Range(n: nat): (r: seq<nat>)
    ensures |r| == n
    ensures forall i :: 0 <= i < n ==> r[i] == i
  {
    seq(n, i => i)
  }

  /** `Vec::remove(i)`: drop the element at index `i`, shifting the rest left. */
  function RemoveAt<T>(s: seq<T>, i: nat): (r: seq<T>)
    requires i < |s|
    ensures |r| == |s| - 1
    ensures forall j :: 0 <= j < i ==> r[j] == s[j]
    ensures forall j :: i <= j < |r| ==> r[j] == s[j + 1]
  {
    s[..i] + s[i + 1..]
  }

  /** Removal by index takes exactly one copy of the removed element away. */
  lemma RemoveAtMultiset<T>(s: seq<T>, i: nat)
    requires i < |s|
    ensures multiset(RemoveAt(s, i)) + multiset{s[i]} == multiset(s)
  {
    assert s == s[..i] + [s[i]] + s[i + 1..];
  }

  /** Index of the first occurrence of `v` in `s`, or `|s|` when `v` does not occur. */
  function FirstIndex<T(==)>(s: seq<T>, v: T): (i: nat)
    ensures i <= |s|
    ensures i < |s| ==> s[i] == v
    ensures forall j :: 0 <= j < i ==> s[j] != v
    ensures i == |s| <==> v !in s
  {
    if |s| == 0 then 0
    else if s[0] == v then 0
    else 1 + FirstIndex(s[1..], v)
  }
}
