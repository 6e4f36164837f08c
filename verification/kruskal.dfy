/**
  Kruskal's greedy pass of main.go: sort the edges by weight, start from
  singleton sets, and add the weight of every edge whose endpoints are in
  different sets, uniting them. Its result is stated against the reference
  components of module Components, so the union-find forest is shown to
  track exactly the components of the edges visited so far.
*/
module Kruskal {
  import opened Graphs
  import opened EdgeSort
  import opened UnionFind
  import opened Components

  /** The forest `ds` partitions the vertices exactly as the labelling `lab` does. */
  ghost predicate Represents(ds: DisjointSet, lab: seq<int>) {
    && Valid(ds)
    && |lab| == Size(ds)
    && forall a, b :: 0 <= a < Size(ds) && 0 <= b < Size(ds) ==> (SameSet(ds, a, b) <==> Connected(lab, a, b))
  }

  /** A fresh structure represents n singleton components. */
  lemma NewRepresentsSingletons(n: nat)
    ensures Represents(NewDisjointSet(n), Singletons(n))
  {
  }

  /** A structure with the same roots (as Find leaves it) represents the same components. */
  lemma SameRootsRepresent(ds: DisjointSet, d: DisjointSet, lab: seq<int>)
    requires Represents(ds, lab) && Valid(d) && Size(d) == Size(ds)
    requires forall y :: 0 <= y < Size(ds) ==> Root(d, y) == Root(ds, y)
    ensures Represents(d, lab)
  {
    forall a, b | 0 <= a < Size(ds) && 0 <= b < Size(ds)
      ensures SameSet(d, a, b) <==> Connected(lab, a, b)
    {
      assert Root(d, a) == Root(ds, a) && Root(d, b) == Root(ds, b);
    }
  }

  /**
    Union of the endpoints of an edge joining two different components is
    Merge on the reference components.
  */
  lemma UnionRefinesMerge(ds: DisjointSet, w: DisjointSet, lab: seq<int>, x: int, y: int)
    requires Represents(ds, lab) && 0 <= x < Size(ds) && 0 <= y < Size(ds)
    requires Valid(w) && Size(w) == Size(ds)
    requires forall a, b :: 0 <= a < Size(ds) && 0 <= b < Size(ds) ==>
      (SameSet(w, a, b) <==>
        || SameSet(ds, a, b)
        || (SameSet(ds, a, x) && SameSet(ds, b, y))
        || (SameSet(ds, a, y) && SameSet(ds, b, x)))
    ensures Represents(w, Merge(lab, x, y))
  {
    var m := Merge(lab, x, y);
    forall a, b | 0 <= a < Size(ds) && 0 <= b < Size(ds)
      ensures SameSet(w, a, b) <==> Connected(m, a, b)
    {
      assert SameSet(ds, a, b) <==> Connected(lab, a, b);
      assert SameSet(ds, a, x) <==> Connected(lab, a, x);
      assert SameSet(ds, b, y) <==> Connected(lab, b, y);
      assert SameSet(ds, a, y) <==> Connected(lab, a, y);
      assert SameSet(ds, b, x) <==> Connected(lab, b, x);
    }
  }

  /**
    The body of KruskalMST's loop for one edge: Find both endpoints, and when
    the roots differ, unite them. The edge is accepted exactly when its
    endpoints were in different components, and afterwards the structure
    represents the components with the edge added.
  */
  method VisitEdge(ds: DisjointSet, e: Edge, ghost lab: seq<int>) returns (next: DisjointSet, accepted: bool)
    requires Represents(ds, lab) && InRange(Size(ds), e)
    ensures Size(next) == Size(ds)
    ensures accepted <==> !Connected(lab, e.from, e.to)
    ensures Represents(next, Merge(lab, e.from, e.to))
  {
    var d1, rootFrom := Find(ds, e.from);
    var d2, rootTo := Find(d1, e.to);
    SameRootsRepresent(ds, d2, lab);
    accepted := rootFrom != rootTo;
    if accepted {
      next := Union(d2, e.from, e.to);
      UnionRefinesMerge(d2, next, lab, e.from, e.to);
    } else {
      assert SameSet(d2, e.from, e.to);
      MergeSameComponent(lab, e.from, e.to);
      next := d2;
    }
  }

  /** Visiting edge `k` extends the components and the accepted edges by exactly that edge's effect. */
  lemma VisitStep(n: nat, es: seq<Edge>, k: nat)
    requires k < |es| && EndpointsIn(n, es)
    ensures EndpointsIn(n, es[..k]) && EndpointsIn(n, es[..k + 1])
    ensures Labels(n, es[..k + 1]) == Merge(Labels(n, es[..k]), es[k].from, es[k].to)
    ensures Weight(AcceptedEdges(n, es[..k + 1])) ==
      Weight(AcceptedEdges(n, es[..k])) + if Connected(Labels(n, es[..k]), es[k].from, es[k].to) then 0 else es[k].weight
  {
    var e := es[k];
    assert es[..k + 1] == es[..k] + [e];
    Snoc(n, es[..k], e);
    WeightSnoc(AcceptedEdges(n, es[..k]), e);
  }

  /**
    The loop invariant of KruskalMST after the first `k` sorted edges: the
    structure has one element per vertex and represents the components of
    those edges, and the running total is the weight of the edges accepted
    among them.
  */
  ghost predicate Progress(n: nat, es: seq<Edge>, k: nat, ds: DisjointSet, total: int)
    requires k <= |es| && EndpointsIn(n, es[..k])
  {
    && Size(ds) == n
    && Represents(ds, Labels(n, es[..k]))
    && total == Weight(AcceptedEdges(n, es[..k]))
  }

  /**
    The loop of KruskalMST over edges already in visiting order: starting
    from singleton sets, the sum of the weights of the edges whose endpoints
    Find puts under different roots, each such edge followed by a Union.
  */
  method GreedyPass(n: nat, es: seq<Edge>) returns (total: int)
    requires EndpointsIn(n, es)
    ensures total == Weight(AcceptedEdges(n, es))
  {
    var ds := NewDisjointSet(n);
    NewRepresentsSingletons(n);
    total := 0;
    var k := 0;
    PrefixEndpoints(n, es, k);
    while k < |es|
      invariant 0 <= k <= |es|
      invariant EndpointsIn(n, es[..k])
      invariant Progress(n, es, k, ds, total)
    {
      var e := es[k];
      ghost var lab := Labels(n, es[..k]);
      VisitStep(n, es, k);
      var accepted;
      ds, accepted := VisitEdge(ds, e, lab);
      if accepted {
        total := total + e.weight;
      }
      k := k + 1;
    }
    assert es[..|es|] == es;
  }

  /**
    KruskalMST. The edge list of the graph is sorted in place, so the graph
    comes back with its edges reordered: a permutation of the original,
    sorted by non-decreasing weight (any order among equal weights). The
    result is the total weight of exactly the edges the greedy pass accepts
    on that order, those whose endpoints were in different components of the
    edges before them.
  */
  method KruskalMST(g: Graph) returns (sorted: Graph, total: int)
    requires WellFormed(g)
    ensures sorted.vertices == g.vertices
    ensures multiset(sorted.edges) == multiset(g.edges)
    ensures SortedByWeight(sorted.edges)
    ensures WellFormed(sorted)
    ensures total == Weight(AcceptedEdges(g.vertices, sorted.edges))
    ensures |g.edges| == 0 ==> total == 0
  {
    var es := SortByWeight(g.edges);
    EndpointsInPermutation(g.vertices, g.edges, es);
    sorted := g.(edges := es);
    total := GreedyPass(g.vertices, es);
  }

  /** The seven edges main.go adds to the demonstration graph, in its order. */
  function DemoEdges(): seq<Edge> {
    [Edge(0, 1, 2), Edge(0, 3, 6), Edge(1, 2, 3), Edge(1, 3, 8), Edge(1, 4, 5), Edge(2, 4, 7), Edge(3, 4, 9)]
  }

  /** The demonstration graph of main.go: five vertices and seven weighted edges. */
  function DemoGraph(): Graph {
    AddEdges(NewGraph(5), DemoEdges())
  }

  /** Building the demonstration graph edge by edge leaves exactly its edge list. */
  lemma DemoGraphEdges()
    ensures DemoGraph() == Graph(5, DemoEdges())
  {
    AddEdgesAppends(NewGraph(5), DemoEdges());
    assert [] + DemoEdges() == DemoEdges();
  }

  /**
    The demonstration graph with the same edges added in ascending weight
    order; all seven weights differ.
  */
  function DemoGraphByWeight(): Graph {
    var g := NewGraph(5);
    var g := AddEdge(g, 0, 1, 2);
    var g := AddEdge(g, 1, 2, 3);
    var g := AddEdge(g, 1, 4, 5);
    var g := AddEdge(g, 0, 3, 6);
    var g := AddEdge(g, 2, 4, 7);
    var g := AddEdge(g, 1, 3, 8);
    AddEdge(g, 3, 4, 9)
  }

  /** Reordering the demonstration graph's edges by weight is a permutation of them. */
  lemma DemoByWeightPermutes()
    ensures multiset(DemoGraphByWeight().edges) == multiset(DemoGraph().edges)
  {
    DemoGraphEdges();
  }

  /** The demonstration edges in weight order, as a list. */
  lemma DemoByWeightEdges()
    ensures DemoGraphByWeight().edges ==
      [Edge(0, 1, 2), Edge(1, 2, 3), Edge(1, 4, 5), Edge(0, 3, 6), Edge(2, 4, 7), Edge(1, 3, 8), Edge(3, 4, 9)]
  {
  }

  /** Ascending, pairwise different weights. */
  lemma DemoWeightsAscend()
    ensures SortedByWeight([Edge(0, 1, 2), Edge(1, 2, 3), Edge(1, 4, 5), Edge(0, 3, 6), Edge(2, 4, 7), Edge(1, 3, 8), Edge(3, 4, 9)])
    ensures DistinctWeights([Edge(0, 1, 2), Edge(1, 2, 3), Edge(1, 4, 5), Edge(0, 3, 6), Edge(2, 4, 7), Edge(1, 3, 8), Edge(3, 4, 9)])
  {
  }

  /** The demonstration edges in weight order are sorted, and no two weights are equal. */
  lemma DemoByWeightSorted()
    ensures SortedByWeight(DemoGraphByWeight().edges)
    ensures DistinctWeights(DemoGraphByWeight().edges)
  {
    DemoByWeightEdges();
    DemoWeightsAscend();
  }

  /**
    Visiting an edge whose endpoints are in different components accepts it,
    so a list whose every edge was accepted stays so.
  */
  lemma JoinStep(n: nat, s: seq<Edge>, e: Edge, t: seq<Edge>, lab: seq<int>, next: seq<int>)
    requires t == s + [e]
    requires EndpointsIn(n, s) && InRange(n, e) && Labels(n, s) == lab && AcceptedEdges(n, s) == s
    requires lab[e.from] != lab[e.to] && Merge(lab, e.from, e.to) == next
    ensures EndpointsIn(n, t) && Labels(n, t) == next && AcceptedEdges(n, t) == t
  {
    Snoc(n, s, e);
  }

  /** The two lightest demonstration edges join vertices 0, 1 and 2. */
  lemma DemoFirstTwo()
    ensures EndpointsIn(5, [Edge(0, 1, 2), Edge(1, 2, 3)])
    ensures Labels(5, [Edge(0, 1, 2), Edge(1, 2, 3)]) == [0, 0, 0, 3, 4]
    ensures AcceptedEdges(5, [Edge(0, 1, 2), Edge(1, 2, 3)]) == [Edge(0, 1, 2), Edge(1, 2, 3)]
  {
    var s0: seq<Edge> := [];
    var s1 := [Edge(0, 1, 2)];
    var s2 := [Edge(0, 1, 2), Edge(1, 2, 3)];
    assert Labels(5, s0) == [0, 1, 2, 3, 4];
    assert Merge([0, 1, 2, 3, 4], 0, 1) == [0, 0, 2, 3, 4];
    assert s1 == s0 + [Edge(0, 1, 2)];
    JoinStep(5, s0, Edge(0, 1, 2), s1, [0, 1, 2, 3, 4], [0, 0, 2, 3, 4]);
    assert Merge([0, 0, 2, 3, 4], 1, 2) == [0, 0, 0, 3, 4];
    assert s2 == s1 + [Edge(1, 2, 3)];
    JoinStep(5, s1, Edge(1, 2, 3), s2, [0, 0, 2, 3, 4], [0, 0, 0, 3, 4]);
  }

  /** The four lightest demonstration edges each join two components, leaving one. */
  lemma DemoTree()
    ensures EndpointsIn(5, [Edge(0, 1, 2), Edge(1, 2, 3), Edge(1, 4, 5), Edge(0, 3, 6)])
    ensures Labels(5, [Edge(0, 1, 2), Edge(1, 2, 3), Edge(1, 4, 5), Edge(0, 3, 6)]) == [0, 0, 0, 0, 0]
    ensures AcceptedEdges(5, [Edge(0, 1, 2), Edge(1, 2, 3), Edge(1, 4, 5), Edge(0, 3, 6)])
      == [Edge(0, 1, 2), Edge(1, 2, 3), Edge(1, 4, 5), Edge(0, 3, 6)]
  {
    DemoFirstTwo();
    var s2 := [Edge(0, 1, 2), Edge(1, 2, 3)];
    var s3 := [Edge(0, 1, 2), Edge(1, 2, 3), Edge(1, 4, 5)];
    var s4 := [Edge(0, 1, 2), Edge(1, 2, 3), Edge(1, 4, 5), Edge(0, 3, 6)];
    assert Merge([0, 0, 0, 3, 4], 1, 4) == [0, 0, 0, 3, 0];
    assert s3 == s2 + [Edge(1, 4, 5)];
    JoinStep(5, s2, Edge(1, 4, 5), s3, [0, 0, 0, 3, 4], [0, 0, 0, 3, 0]);
    assert Merge([0, 0, 0, 3, 0], 0, 3) == [0, 0, 0, 0, 0];
    assert s4 == s3 + [Edge(0, 3, 6)];
    JoinStep(5, s3, Edge(0, 3, 6), s4, [0, 0, 0, 3, 0], [0, 0, 0, 0, 0]);
  }

  /** Labels that are all 0 put every vertex in one component. */
  lemma AllZeroIsOneComponent(n: nat, lab: seq<int>)
    requires |lab| == n && forall i :: 0 <= i < n ==> lab[i] == 0
    ensures OneComponent(n, lab)
  {
  }

  /** The weight-ordered demonstration edges are the four tree edges followed by the other three. */
  lemma DemoSplit()
    ensures DemoGraphByWeight().edges
      == [Edge(0, 1, 2), Edge(1, 2, 3), Edge(1, 4, 5), Edge(0, 3, 6)] + [Edge(2, 4, 7), Edge(1, 3, 8), Edge(3, 4, 9)]
  {
    DemoByWeightEdges();
  }

  /**
    The greedy pass over the demonstration edges in weight order accepts the
    four lightest; the remaining three close cycles.
  */
  lemma DemoAccepted()
    ensures EndpointsIn(5, DemoGraphByWeight().edges)
    ensures AcceptedEdges(5, DemoGraphByWeight().edges) == [Edge(0, 1, 2), Edge(1, 2, 3), Edge(1, 4, 5), Edge(0, 3, 6)]
  {
    var tree := [Edge(0, 1, 2), Edge(1, 2, 3), Edge(1, 4, 5), Edge(0, 3, 6)];
    var rest := [Edge(2, 4, 7), Edge(1, 3, 8), Edge(3, 4, 9)];
    DemoTree();
    AllZeroIsOneComponent(5, [0, 0, 0, 0, 0]);
    OneComponentAbsorbs(5, tree, rest);
    DemoSplit();
  }

  /** Since all seven weights differ, every sorted order of the demonstration edges is the same. */
  lemma DemoSortIsUnique(sorted: seq<Edge>)
    requires SortedByWeight(sorted) && multiset(sorted) == multiset(DemoGraph().edges)
    ensures sorted == DemoGraphByWeight().edges
  {
    DemoByWeightPermutes();
    DemoByWeightSorted();
    SortedPermutationUnique(DemoGraphByWeight().edges, sorted);
  }

  /** The four accepted demonstration edges weigh 16 together. */
  lemma DemoTreeWeight()
    ensures Weight([Edge(0, 1, 2), Edge(1, 2, 3), Edge(1, 4, 5), Edge(0, 3, 6)]) == 16
  {
    var acc := [Edge(0, 1, 2), Edge(1, 2, 3), Edge(1, 4, 5), Edge(0, 3, 6)];
    assert acc == [] + [acc[0]] + [acc[1]] + [acc[2]] + [acc[3]];
    WeightSnoc([], acc[0]);
    WeightSnoc([] + [acc[0]], acc[1]);
    WeightSnoc([] + [acc[0]] + [acc[1]], acc[2]);
    WeightSnoc([] + [acc[0]] + [acc[1]] + [acc[2]], acc[3]);
  }

  /**
    main.go's demonstration: for every sorted order of the five-vertex,
    seven-edge graph (the seven weights are distinct, so there is only one),
    the greedy pass accepts (0,1,2), (1,2,3), (1,4,5) and (0,3,6), for a
    total weight of 16.
  */
  lemma DemoGraphTotal(sorted: seq<Edge>)
    requires SortedByWeight(sorted) && multiset(sorted) == multiset(DemoGraph().edges)
    ensures EndpointsIn(5, sorted)
    ensures AcceptedEdges(5, sorted) == [Edge(0, 1, 2), Edge(1, 2, 3), Edge(1, 4, 5), Edge(0, 3, 6)]
    ensures Weight(AcceptedEdges(5, sorted)) == 16
  {
    DemoSortIsUnique(sorted);
    DemoAccepted();
    DemoTreeWeight();
  }

  /** The body of main without the printing: KruskalMST on the demonstration graph returns 16. */
  method RunDemo() returns (total: int)
    ensures total == 16
  {
    var g := DemoGraph();
    DemoGraphWellFormed();
    var sorted;
    sorted, total := KruskalMST(g);
    DemoGraphTotal(sorted.edges);
  }

  /** Every endpoint of the demonstration graph is one of its five vertices. */
  lemma DemoGraphWellFormed()
    ensures WellFormed(DemoGraph())
  {
    DemoAccepted();
    DemoByWeightPermutes();
    EndpointsInPermutation(5, DemoGraphByWeight().edges, DemoGraph().edges);
    DemoGraphEdges();
  }
}
