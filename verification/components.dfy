/**
  A reference semantics for the connected components that Kruskal's
  algorithm builds, independent of the union-find forest: every vertex
  carries a component label, and joining two vertices relabels the whole
  component of the second with the label of the first. Two vertices are in
  the same component exactly when their labels are equal.
*/
module Components {
  import opened Graphs

  /** Vertices `a` and `b` are in the same component of the labelling `lab`. */
  predicate Connected(lab: seq<int>, a: int, b: int) {
    0 <= a < |lab| && 0 <= b < |lab| && lab[a] == lab[b]
  }

  /** Each of the `n` vertices in a component of its own. */
  function Singletons(n: nat): (lab: seq<int>)
    ensures |lab| == n
    ensures forall a, b :: 0 <= a < n && 0 <= b < n ==> (Connected(lab, a, b) <==> a == b)
  {
    seq(n, i => i)
  }

  /**
    Joins the components of `u` and `v`: two vertices share a component
    afterwards exactly when they did before or one was with `u` and the other
    with `v`.
  */
  function Merge(lab: seq<int>, u: int, v: int): (m: seq<int>)
    requires 0 <= u < |lab| && 0 <= v < |lab|
    ensures |m| == |lab|
    ensures forall a, b :: 0 <= a < |lab| && 0 <= b < |lab| ==>
      (Connected(m, a, b) <==>
        || Connected(lab, a, b)
        || (Connected(lab, a, u) && Connected(lab, b, v))
        || (Connected(lab, a, v) && Connected(lab, b, u)))
  {
    seq(|lab|, i requires 0 <= i < |lab| => if lab[i] == lab[v] then lab[u] else lab[i])
  }

  /** Joining two vertices that already share a component changes nothing. */
  lemma MergeSameComponent(lab: seq<int>, u: int, v: int)
    requires 0 <= u < |lab| && 0 <= v < |lab| && lab[u] == lab[v]
    ensures Merge(lab, u, v) == lab
  {
  }

  /** The components of an `n`-vertex graph made of the edges `es`. */
  function Labels(n: nat, es: seq<Edge>): (lab: seq<int>)
    requires EndpointsIn(n, es)
    ensures |lab| == n
    decreases |es|
  {
    if |es| == 0 then Singletons(n)
    else
      var e := es[|es| - 1];
      Merge(Labels(n, es[..|es| - 1]), e.from, e.to)
  }

  /** Two labellings describe the same partition of the vertices. */
  ghost predicate SamePartition(l1: seq<int>, l2: seq<int>) {
    && |l1| == |l2|
    && forall a, b :: 0 <= a < |l1| && 0 <= b < |l1| ==> (Connected(l1, a, b) <==> Connected(l2, a, b))
  }

  /**
    The edges Kruskal's greedy pass accepts when it visits `es` in order: an
    edge is taken exactly when its endpoints are in different components of
    the edges visited before it. Accepted edges come from `es`, and none is
    a self-loop.
  */
  function AcceptedEdges(n: nat, es: seq<Edge>): (acc: seq<Edge>)
    requires EndpointsIn(n, es)
    ensures |acc| <= |es|
    ensures forall k :: 0 <= k < |acc| ==> acc[k] in es && acc[k].from != acc[k].to
    ensures EndpointsIn(n, acc)
    decreases |es|
  {
    if |es| == 0 then []
    else
      var prefix := es[..|es| - 1];
      var e := es[|es| - 1];
      var before := AcceptedEdges(n, prefix);
      assert forall k :: 0 <= k < |before| ==> before[k] in es;
      var lab := Labels(n, prefix);
      if lab[e.from] != lab[e.to] then before + [e] else before
  }

  /** Total weight of an edge list. */
  function Weight(es: seq<Edge>): int
    decreases |es|
  {
    if |es| == 0 then 0 else Weight(es[..|es| - 1]) + es[|es| - 1].weight
  }

  /** Number of distinct components in a labelling. */
  function ComponentCount(lab: seq<int>): nat {
    |set i | 0 <= i < |lab| :: lab[i]|
  }

  /** Joining two different components reduces the number of components by exactly one. */
  lemma MergeCount(lab: seq<int>, u: int, v: int)
    requires 0 <= u < |lab| && 0 <= v < |lab| && lab[u] != lab[v]
    ensures ComponentCount(Merge(lab, u, v)) == ComponentCount(lab) - 1
  {
    var m := Merge(lab, u, v);
    var before := set i | 0 <= i < |lab| :: lab[i];
    var after := set i | 0 <= i < |m| :: m[i];
    forall l | l in after
      ensures l in before - {lab[v]}
    {
      var i :| 0 <= i < |m| && m[i] == l;
    }
    forall l | l in before - {lab[v]}
      ensures l in after
    {
      var i :| 0 <= i < |lab| && lab[i] == l;
      assert m[i] == l;
    }
    assert after == before - {lab[v]};
  }

  /** `n` singleton components. */
  lemma SingletonsCount(n: nat)
    ensures ComponentCount(Singletons(n)) == n
  {
    DistinctLabelsCount(Singletons(n));
  }

  /** A labelling that gives every vertex its own label has one component per vertex. */
  lemma {:induction false} DistinctLabelsCount(lab: seq<int>)
    requires forall a, b :: 0 <= a < b < |lab| ==> lab[a] != lab[b]
    ensures ComponentCount(lab) == |lab|
    decreases |lab|
  {
    if |lab| > 0 {
      var p := lab[..|lab| - 1];
      DistinctLabelsCount(p);
      var last := lab[|lab| - 1];
      assert (set i | 0 <= i < |lab| :: lab[i]) == (set i | 0 <= i < |p| :: p[i]) + {last};
      assert last !in (set i | 0 <= i < |p| :: p[i]);
    }
  }

  /** A labelling of at least one vertex has at least one component. */
  lemma SomeComponent(lab: seq<int>)
    requires |lab| >= 1
    ensures ComponentCount(lab) >= 1
  {
    var ids := set i | 0 <= i < |lab| :: lab[i];
    assert lab[0] in ids by {
      assert 0 <= 0 < |lab|;
    }
    assert ids != {};
  }

  /** Unfolding Labels, AcceptedEdges and Weight for a list that ends in `e`. */
  lemma Snoc(n: nat, es: seq<Edge>, e: Edge)
    requires EndpointsIn(n, es) && InRange(n, e)
    ensures EndpointsIn(n, es + [e])
    ensures Labels(n, es + [e]) == Merge(Labels(n, es), e.from, e.to)
    ensures AcceptedEdges(n, es + [e]) ==
      if Labels(n, es)[e.from] != Labels(n, es)[e.to] then AcceptedEdges(n, es) + [e] else AcceptedEdges(n, es)
  {
    assert (es + [e])[..|es|] == es;
  }

  lemma WeightSnoc(es: seq<Edge>, e: Edge)
    ensures Weight(es + [e]) == Weight(es) + e.weight
  {
    assert (es + [e])[..|es|] == es;
  }

  /** Joining the same two vertices in two labellings of one partition keeps them one partition. */
  lemma MergeKeepsPartition(l1: seq<int>, l2: seq<int>, u: int, v: int)
    requires SamePartition(l1, l2) && 0 <= u < |l1| && 0 <= v < |l1|
    ensures SamePartition(Merge(l1, u, v), Merge(l2, u, v))
  {
  }

  /**
    The accepted edges connect exactly what the whole edge list connects:
    the greedy pass yields a spanning forest of the graph, one tree per
    component.
  */
  lemma {:induction false} AcceptedSpans(n: nat, es: seq<Edge>)
    requires EndpointsIn(n, es)
    ensures SamePartition(Labels(n, AcceptedEdges(n, es)), Labels(n, es))
    decreases |es|
  {
    if |es| > 0 {
      var prefix := es[..|es| - 1];
      var e := es[|es| - 1];
      assert es == prefix + [e];
      AcceptedSpans(n, prefix);
      Snoc(n, prefix, e);
      var before := AcceptedEdges(n, prefix);
      var lab := Labels(n, prefix);
      if lab[e.from] != lab[e.to] {
        Snoc(n, before, e);
        MergeKeepsPartition(Labels(n, before), lab, e.from, e.to);
      } else {
        MergeSameComponent(lab, e.from, e.to);
      }
    }
  }

  /**
    Each accepted edge joins two different components, so the accepted
    edges plus the components they leave add up to the vertex count: no
    accepted edge closes a cycle (a graph with n vertices, m edges and c
    components is a forest exactly when m + c == n). The same count holds for
    the components of the whole edge list.
  */
  lemma {:induction false} AcceptedIsForest(n: nat, es: seq<Edge>)
    requires EndpointsIn(n, es)
    ensures |AcceptedEdges(n, es)| + ComponentCount(Labels(n, AcceptedEdges(n, es))) == n
    ensures |AcceptedEdges(n, es)| + ComponentCount(Labels(n, es)) == n
    decreases |es|
  {
    if |es| == 0 {
      SingletonsCount(n);
    } else {
      var prefix := es[..|es| - 1];
      var e := es[|es| - 1];
      AcceptedIsForest(n, prefix);
      AcceptedSpans(n, prefix);
      var before := AcceptedEdges(n, prefix);
      var lab := Labels(n, prefix);
      if lab[e.from] != lab[e.to] {
        Snoc(n, before, e);
        assert !Connected(lab, e.from, e.to);
        assert !Connected(Labels(n, before), e.from, e.to);
        MergeCount(Labels(n, before), e.from, e.to);
        MergeCount(lab, e.from, e.to);
      } else {
        MergeSameComponent(lab, e.from, e.to);
      }
    }
  }

  /** A non-empty graph has at least one component, so at most `n - 1` edges are accepted. */
  lemma AcceptedAtMost(n: nat, es: seq<Edge>)
    requires EndpointsIn(n, es) && n >= 1
    ensures |AcceptedEdges(n, es)| <= n - 1
  {
    AcceptedIsForest(n, es);
    SomeComponent(Labels(n, es));
  }

  /** A self-loop appended to the edge list is rejected and leaves every component as it was. */
  lemma SelfLoopIgnored(n: nat, es: seq<Edge>, v: int, w: int)
    requires EndpointsIn(n, es) && 0 <= v < n
    ensures EndpointsIn(n, es + [Edge(v, v, w)])
    ensures Labels(n, es + [Edge(v, v, w)]) == Labels(n, es)
    ensures AcceptedEdges(n, es + [Edge(v, v, w)]) == AcceptedEdges(n, es)
  {
    Snoc(n, es, Edge(v, v, w));
    MergeSameComponent(Labels(n, es), v, v);
  }

  /** All `n` vertices are in one component. */
  ghost predicate OneComponent(n: nat, lab: seq<int>) {
    forall a, b :: 0 <= a < n && 0 <= b < n ==> Connected(lab, a, b)
  }

  /** An edge visited when all vertices are already connected is rejected and changes nothing. */
  lemma AbsorbStep(n: nat, es: seq<Edge>, e: Edge)
    requires EndpointsIn(n, es) && InRange(n, e)
    requires OneComponent(n, Labels(n, es))
    ensures EndpointsIn(n, es + [e])
    ensures Labels(n, es + [e]) == Labels(n, es)
    ensures AcceptedEdges(n, es + [e]) == AcceptedEdges(n, es)
  {
    Snoc(n, es, e);
    assert Connected(Labels(n, es), e.from, e.to);
    MergeSameComponent(Labels(n, es), e.from, e.to);
  }

  /**
    Once the edges visited so far connect every vertex, no further edge is
    accepted and the components stay as they are.
  */
  lemma {:induction false} OneComponentAbsorbs(n: nat, es: seq<Edge>, rest: seq<Edge>)
    requires EndpointsIn(n, es) && EndpointsIn(n, rest)
    requires OneComponent(n, Labels(n, es))
    ensures EndpointsIn(n, es + rest)
    ensures Labels(n, es + rest) == Labels(n, es)
    ensures AcceptedEdges(n, es + rest) == AcceptedEdges(n, es)
    decreases |rest|
  {
    if |rest| == 0 {
      assert es + rest == es;
    } else {
      var r := rest[..|rest| - 1];
      var e := rest[|rest| - 1];
      PrefixEndpoints(n, rest, |rest| - 1);
      OneComponentAbsorbs(n, es, r);
      AppendLast(es, rest);
      AbsorbStep(n, es + r, e);
    }
  }
}
