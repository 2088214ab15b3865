/** Order-preserving selections from a sequence, described by the positions
    they take. Both route handlers build their result this way: they walk the
    input once and append some of its elements. */
module Subsequences {

  /** Every entry of `idx` is a position below `n`, and the entries strictly
      increase, so no position is named twice. */
  predicate StrictlyIncreasing(idx: seq<nat>, n: nat) {
    && (forall k :: 0 <= k < |idx| ==> idx[k] < n)
    && (forall j, k :: 0 <= j < k < |idx| ==> idx[j] < idx[k])
  }

  /** `r` is `s` read at the positions `idx`, in input order: `r` is a
      subsequence of `s` and each position of `s` contributes at most once. */
  predicate PicksAt<T(==)>(r: seq<T>, s: seq<T>, idx: seq<nat>) {
    && |idx| == |r|
    && StrictlyIncreasing(idx, |s|)
    && (forall k :: 0 <= k < |r| ==> r[k] == s[idx[k]])
  }

  /** Appending an element to the input keeps a selection valid, whether or
      not the new element is taken as well. */
  lemma PicksAtSnoc<T>(r: seq<T>, s: seq<T>, idx: seq<nat>, x: T)
    requires PicksAt(r, s, idx)
    ensures PicksAt(r, s + [x], idx)
    ensures PicksAt(r + [x], s + [x], idx + [|s|])
    ensures |s| !in idx
  {
  }
}
