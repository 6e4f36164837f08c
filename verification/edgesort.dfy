/**
  Ordering the edge list by ascending weight. main.go calls the library's
  unstable `sort.Slice`; the model only relies on its outcome being a
  permutation of the input that is sorted by weight, and supplies a small
  insertion sort that has that outcome.
*/
module EdgeSort {
  import opened Graphs

  ghost predicate SortedByWeight(es: seq<Edge>) {
    forall i, j :: 0 <= i < j < |es| ==> es[i].weight <= es[j].weight
  }

  /**
    Inserts `e` into a sorted list, keeping it sorted and adding exactly one
    copy of `e`; the new head is `e` or the old head.
  */
  function Insert(e: Edge, s: seq<Edge>): (r: seq<Edge>)
    requires SortedByWeight(s)
    ensures SortedByWeight(r)
    ensures multiset(r) == multiset(s) + multiset{e}
    ensures |r| == |s| + 1 && (r[0] == e || (|s| > 0 && r[0] == s[0]))
  {
    if |s| == 0 then [e]
    else if e.weight <= s[0].weight then [e] + s
    else
      var rest := Insert(e, s[1..]);
      assert s == [s[0]] + s[1..];
      assert s[0].weight <= rest[0].weight;
      [s[0]] + rest
  }

  /** A permutation of `es` sorted by non-decreasing weight. */
  function SortByWeight(es: seq<Edge>): (r: seq<Edge>)
    ensures SortedByWeight(r)
    ensures multiset(r) == multiset(es)
  {
    if |es| == 0 then []
    else
      assert es == [es[0]] + es[1..];
      Insert(es[0], SortByWeight(es[1..]))
  }

  /** No two edges of the list have the same weight. */
  ghost predicate DistinctWeights(es: seq<Edge>) {
    forall i, j :: 0 <= i < j < |es| ==> es[i].weight != es[j].weight
  }

  /** Two sorted permutations of edges with distinct weights start with the same edge. */
  lemma SameHead(a: seq<Edge>, b: seq<Edge>)
    requires SortedByWeight(a) && SortedByWeight(b)
    requires multiset(a) == multiset(b)
    requires DistinctWeights(a) && |a| > 0
    ensures |b| > 0 && a[0] == b[0]
  {
    assert a[0] in multiset(b);
    var j :| 0 <= j < |b| && b[j] == a[0];
    assert b[0] in multiset(a);
    var i :| 0 <= i < |a| && a[i] == b[0];
    assert a[0].weight <= a[i].weight == b[0].weight <= b[j].weight == a[0].weight;
  }

  /** Removing the same head from two permutations of each other leaves permutations. */
  lemma TailsPermute(a: seq<Edge>, b: seq<Edge>)
    requires |a| > 0 && |b| > 0 && a[0] == b[0]
    requires multiset(a) == multiset(b)
    ensures multiset(a[1..]) == multiset(b[1..])
  {
    assert a == [a[0]] + a[1..];
    assert b == [b[0]] + b[1..];
    assert multiset(a[1..]) == multiset(a) - multiset{a[0]};
    assert multiset(b[1..]) == multiset(b) - multiset{b[0]};
  }

  /**
    When all weights differ there is only one sorted order: any two sorted
    permutations of the same edges are equal, whatever tie rule the sort uses.
  */
  lemma {:induction false} SortedPermutationUnique(a: seq<Edge>, b: seq<Edge>)
    requires SortedByWeight(a) && SortedByWeight(b)
    requires multiset(a) == multiset(b)
    requires DistinctWeights(a)
    ensures a == b
    decreases |a|
  {
    assert |a| == |multiset(a)| == |multiset(b)| == |b|;
    if |a| > 0 {
      SameHead(a, b);
      TailsPermute(a, b);
      SortedPermutationUnique(a[1..], b[1..]);
      assert a == [a[0]] + a[1..];
      assert b == [b[0]] + b[1..];
    }
  }
}
