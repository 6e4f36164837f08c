/**
  The graph of main.go: a vertex count and an edge list, each edge an
  (endpoint, endpoint, weight) triple. Edges are undirected; the list keeps
  insertion order until KruskalMST sorts it.
*/
module Graphs {

  datatype Edge = Edge(from: int, to: int, weight: int)

  datatype Graph = Graph(vertices: int, edges: seq<Edge>)

  /** NewGraph: a graph with the given vertex count and no edges. */
  function NewGraph(vertices: int): (g: Graph)
    ensures g.vertices == vertices && |g.edges| == 0
  {
    Graph(vertices, [])
  }

  /** AddEdge: appends one edge at the end of the list; the vertex count is unchanged. */
  function AddEdge(g: Graph, from: int, to: int, weight: int): (h: Graph)
    ensures h.vertices == g.vertices && |h.edges| == |g.edges| + 1
    ensures h.edges[..|g.edges|] == g.edges && h.edges[|g.edges|] == Edge(from, to, weight)
  {
    g.(edges := g.edges + [Edge(from, to, weight)])
  }

  /** Calls AddEdge once per element of `es`, in order. */
  function AddEdges(g: Graph, es: seq<Edge>): Graph
    decreases |es|
  {
    if |es| == 0 then g
    else AddEdges(AddEdge(g, es[0].from, es[0].to, es[0].weight), es[1..])
  }

  /**
    Building a graph edge by edge keeps the edges in insertion order,
    duplicates and self-loops included, and never changes the vertex count.
  */
  lemma {:induction false} AddEdgesAppends(g: Graph, es: seq<Edge>)
    ensures AddEdges(g, es) == Graph(g.vertices, g.edges + es)
    decreases |es|
  {
    if |es| > 0 {
      var h := AddEdge(g, es[0].from, es[0].to, es[0].weight);
      AddEdgesAppends(h, es[1..]);
      assert h.edges + es[1..] == g.edges + es;
    }
  }

  /** Both endpoints of `e` are vertices of a graph with `n` vertices. */
  predicate InRange(n: int, e: Edge) {
    0 <= e.from < n && 0 <= e.to < n
  }

  predicate EndpointsIn(n: int, es: seq<Edge>) {
    forall i :: 0 <= i < |es| ==> InRange(n, es[i])
  }

  /**
    The inputs on which KruskalMST returns instead of panicking: a
    non-negative vertex count (the size passed to `make`) and every endpoint
    a valid index into the disjoint-set arrays.
  */
  predicate WellFormed(g: Graph) {
    g.vertices >= 0 && EndpointsIn(g.vertices, g.edges)
  }

  /** Every prefix of a list of in-range edges is in range. */
  lemma PrefixEndpoints(n: int, es: seq<Edge>, k: nat)
    requires k <= |es| && EndpointsIn(n, es)
    ensures EndpointsIn(n, es[..k])
  {
    assert forall i :: 0 <= i < k ==> es[..k][i] == es[i];
  }

  /** Splitting the last edge off a non-empty suffix. */
  lemma AppendLast(es: seq<Edge>, rest: seq<Edge>)
    requires |rest| > 0
    ensures es + rest == (es + rest[..|rest| - 1]) + [rest[|rest| - 1]]
  {
  }

  /** Reordering the edge list keeps every endpoint in range. */
  lemma EndpointsInPermutation(n: int, es: seq<Edge>, ps: seq<Edge>)
    requires EndpointsIn(n, es) && multiset(ps) == multiset(es)
    ensures EndpointsIn(n, ps)
  {
    forall i | 0 <= i < |ps|
      ensures InRange(n, ps[i])
    {
      assert ps[i] in multiset(es);
    }
  }
}
