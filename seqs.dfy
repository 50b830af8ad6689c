/** Facts about sequences shared by the retrieval model: duplicate-free
    sequences, the set of their elements and its size. */
module Seqs {

  /** No element occurs twice. */
  predicate Distinct<T(==)>(s: seq<T>) {
    forall a, b :: 0 <= a < b < |s| ==> s[a] != s[b]
  }

  /** The set of elements of `s` (Python's `set(s)`). */
  function Elems<T>(s: seq<T>): set<T> {
    set x | x in s
  }

  /** The indices `0 .. n-1`, in order. */
  function Iota(n: nat): (s: seq<nat>)
    ensures |s| == n && forall k :: 0 <= k < n ==> s[k] == k
  {
    seq(n, k requires 0 <= k < n => k as nat)
  }

  /** A duplicate-free sequence has as many distinct elements as it has positions. */
  lemma {:induction false} DistinctCard<T>(s: seq<T>)
    requires Distinct(s)
    ensures |Elems(s)| == |s|
  {
    if |s| > 0 {
      DistinctCard(s[1..]);
      assert Elems(s) == {s[0]} + Elems(s[1..]);
      assert s[0] !in Elems(s[1..]);
    } else {
      assert Elems(s) == {};
    }
  }

  /** A duplicate-free sequence of `n` indices below `n` lists every index below `n`. */
  lemma DistinctIndicesCover(s: seq<nat>, n: nat)
    requires |s| == n && Distinct(s)
    requires forall k :: 0 <= k < |s| ==> s[k] < n
    ensures forall j :: 0 <= j < n ==> j in s
  {
    var all := Iota(n);
    DistinctCard(s);
    DistinctCard(all);
    forall x | x in Elems(s) ensures x in Elems(all) {
      assert all[x] == x;
    }
    var missing := Elems(all) - Elems(s);
    assert |missing| == 0;
    forall j | 0 <= j < n ensures j in s {
      assert all[j] == j;
      assert j !in missing;
    }
  }
}
