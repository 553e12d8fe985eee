/** Operations on sequences shared by the index, search and rendering steps. */
module Seqs {

  /** `s.slice(0, n)` on an array and `s.substring(0, n)` on a string: the
      first `n` elements, or all of them when there are fewer. */
  function Take<T>(s: seq<T>, n: nat): (r: seq<T>)
    ensures |r| == if n <= |s| then n else |s|
    ensures r == s[..|r|]
  {
    if n <= |s| then s[..n] else s
  }

  /** Positions listed in strictly increasing order. */
  ghost predicate Increasing(ps: seq<nat>) {
    forall i, j :: 0 <= i < j < |ps| ==> ps[i] < ps[j]
  }

  /** `r` is the subsequence of `s` picked out by the positions `ps`: the
      elements of `r` occur in `s`, in the same relative order. */
  ghost predicate SubsequenceAt<T>(r: seq<T>, s: seq<T>, ps: seq<nat>) {
    && |ps| == |r|
    && Increasing(ps)
    && forall k :: 0 <= k < |ps| ==> ps[k] < |s| && r[k] == s[ps[k]]
  }

  /** An increasing sequence lists as many positions as it has elements. */
  lemma {:induction false} DistinctCard(ps: seq<nat>)
    requires Increasing(ps)
    ensures |set k | 0 <= k < |ps| :: ps[k]| == |ps|
  {
    if ps != [] {
      var n := |ps| - 1;
      DistinctCard(ps[..n]);
      var front := set k | 0 <= k < n :: ps[..n][k];
      assert (set k | 0 <= k < |ps| :: ps[k]) == front + {ps[n]};
      assert ps[n] !in front;
    }
  }
}
