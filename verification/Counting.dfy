/** Cardinality facts about sequences without repetition. */
module Counting {

  ghost predicate Distinct<T>(s: seq<T>) {
    forall j, k :: 0 <= j < k < |s| ==> s[j] != s[k]
  }

  ghost function Elements<T>(s: seq<T>): set<T> {
    set x | x in s
  }

  lemma {:induction false} DistinctSize<T>(s: seq<T>)
    requires Distinct(s)
    ensures |Elements(s)| == |s|
  {
    if s == [] {
      assert Elements(s) == {};
    } else {
      var last := s[|s| - 1];
      var front := s[..|s| - 1];
      DistinctSize(front);
      assert last !in front;
      assert Elements(s) == Elements(front) + {last};
    }
  }

  /** The naturals below n. */
  ghost function Below(n: nat): (s: set<nat>)
    ensures |s| == n
    ensures forall v: nat :: v in s <==> v < n
  {
    if n == 0 then {} else Below(n - 1) + {n - 1}
  }

  /** A sequence listing each number below n exactly once has length n. */
  lemma ListingSize(s: seq<nat>, n: nat)
    requires Distinct(s)
    requires forall k :: 0 <= k < |s| ==> s[k] < n
    requires forall v :: 0 <= v < n ==> v in s
    ensures |s| == n
  {
    DistinctSize(s);
    assert Elements(s) == Below(n);
  }
}
