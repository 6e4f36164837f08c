# Kruskal's minimum spanning tree with union-find, in Dafny

This project models the Go program `main.go`. The program keeps a weighted
undirected graph as a vertex count plus an edge list (`Graph`, `Edge`,
`NewGraph`, `AddEdge`). `KruskalMST` sorts the edges by weight and walks them
with a disjoint-set forest (`DisjointSet`, `NewDisjointSet`, `Find` with path
compression, `Union` by rank). It adds up the weights of the edges that join
two different sets.

The modules follow the program's parts:

- `Graphs` (graphs.dfy): `Edge`, `Graph`, `NewGraph` and `AddEdge`. It also
  defines the well-formedness condition under which the Go code does not
  panic.
- `UnionFind` (unionfind.dfy): the disjoint-set forest. The Go structure is
  changed in place; here it is an immutable value, and each operation returns
  the new value.
  - `Root` is the abstraction: the root reached by following parents.
  - `Valid` is the rank invariant that makes parent chains finite.
  - `Find` and `Union` are methods that mirror the Go recursion and branches.
- `EdgeSort` (edgesort.dfy): ordering edges by weight. It defines what a
  sorted permutation is and gives an insertion sort that produces one.
- `Components` (components.dfy): a reference semantics that does not use the
  forest.
  - Component labels are joined edge by edge (`Labels`, `Merge`).
  - `AcceptedEdges` is the greedy choice: an edge is taken when its endpoints
    are in different components of the edges before it.
  - `Weight` adds up a list of weights.
  - Lemmas show the accepted edges form a spanning forest.
- `Kruskal` (kruskal.dfy): `KruskalMST` itself. It proves that the forest
  tracks the reference components edge by edge, so the returned total is the
  weight of the accepted edges. It also contains the five-vertex
  demonstration graph of `main`.

## Model

| member | source | states |
|---|---|---|
| Graphs.NewGraph | main.go:19-24 | the new graph has the requested vertex count and no edges |
| Graphs.AddEdge | main.go:26-29 | the edge is appended at the end; earlier edges and the vertex count are unchanged |
| Graphs.AddEdgesAppends | main.go:97-106 | a graph built by repeated AddEdge has exactly the added edges in insertion order, duplicates and self-loops kept, and the same vertex count |
| UnionFind.Root | main.go:46-52 | following parent pointers always ends at a root, and ranks only grow on the way up, so the recursion in Find terminates |
| UnionFind.RootIsSelf | main.go:48 | an element is its own representative exactly when its parent pointer is itself |
| UnionFind.NewDisjointSet | main.go:36-44 | n singleton sets: every parent is itself, every rank is 0, two elements share a set only when they are equal |
| UnionFind.Find | main.go:46-52 | returns the root of x; exactly the elements on the path from x to the root are redirected to the root and every other parent stays; no set and no rank changes; nothing changes when x already points at its root |
| UnionFind.FindShortens | main.go:49 | after Find, x is at most one step from its root and no element is further from its root than before |
| UnionFind.Link | main.go:58-67 | the three union-by-rank cases: the lower-rank root goes under the higher, and on a tie rootY goes under rootX and rootX's rank rises by one; the losing root's parent slot is the only parent entry that changes, exactly the losing root's set moves to the winning root, and the rank invariant is kept |
| UnionFind.Union | main.go:54-69 | x and y end in one set; exactly the sets of x and y are merged and every other pair keeps its relation; already-joined elements keep their ranks and roots; the link follows the union-by-rank rule; no parent entry off the paths from x and from y to their roots changes |
| UnionFind.LinkMerges | main.go:56-68 | linking the two roots Find returned merges exactly the two original classes |
| UnionFind.CompressPreservesRoots | main.go:49 | pointing x at its root keeps every element's root |
| UnionFind.CompressionShortens | main.go:49 | a compression that only redirects pointers to roots never lengthens a path |
| EdgeSort.Insert | main.go:74-76 | inserting into a sorted list keeps it sorted and adds exactly one copy of the edge |
| EdgeSort.SortByWeight | main.go:74-76 | the result is a permutation of the input sorted by non-decreasing weight |
| EdgeSort.SortedPermutationUnique | main.go:74-76 | when no two weights are equal, every sorted permutation is the same list, so the unstable sort's tie order cannot matter |
| Components.Merge | main.go:87 | after joining u and v, two vertices share a component exactly when they did before or one was with u and the other with v |
| Components.AcceptedEdges | main.go:85-90 | accepted edges come from the list, there are no more of them than edges, and none is a self-loop |
| Components.AcceptedSpans | main.go:85-90 | the accepted edges connect exactly the same vertices as the whole edge list |
| Components.AcceptedIsForest | main.go:85-90 | accepted edges plus remaining components equal the vertex count, so no accepted edge closes a cycle |
| Components.AcceptedAtMost | main.go:85-90 | a graph with n >= 1 vertices has at most n - 1 accepted edges |
| Components.SelfLoopIgnored | main.go:86 | a self-loop is never accepted and changes no component |
| Components.OneComponentAbsorbs | main.go:85-90 | once every vertex is connected, no later edge is accepted |
| Kruskal.UnionRefinesMerge | main.go:87 | Union on the forest is Merge on the reference components |
| Kruskal.VisitEdge | main.go:86-89 | one loop step: the edge is accepted exactly when its endpoints were in different components, and afterwards the forest represents the components with the edge added |
| Kruskal.GreedyPass | main.go:78-92 | the loop over ordered edges returns the total weight of exactly the accepted edges |
| Kruskal.KruskalMST | main.go:71-93 | the edge list comes back as a weight-sorted permutation of the original; the result is the weight of the edges the greedy pass accepts in that order, and 0 for a graph without edges |
| Kruskal.DemoGraphTotal | main.go:95-109 | for the demonstration graph, every sorted order accepts (0,1,2), (1,2,3), (1,4,5) and (0,3,6), and the total is 16 |
| Kruskal.RunDemo | main.go:95-109 | KruskalMST on the demonstration graph returns 16, the value main prints |

## Left out

- `main` prints the total with `fmt.Printf`. Output is not modelled;
  `Kruskal.RunDemo` is `main` without the printing.
- The Go code has no error values. A negative vertex count makes `make`
  panic, and an endpoint outside `0..vertices-1` makes an index panic. Both
  are preconditions here (`Graphs.WellFormed`, and the index bounds of
  `Find` and `Union`), not modelled error paths.
- `sort.Slice` is the library's unstable sort. Its algorithm is not
  modelled: the contract of `KruskalMST` admits any sorted permutation. The
  body uses an insertion sort that meets that contract.
- In-place mutation through pointers is modelled by returning the new
  structure. Go's aliasing (the caller's graph sees its edges reordered) is
  the `sorted` result of `KruskalMST`.
- Go's `int` is 32 or 64 bits wide depending on the platform. Weights, ranks and the running total are unbounded
  integers here, so an overflowing sum of weights is not modelled (a rank
  cannot realistically overflow, but no bound on ranks is proved).
- The depth of Go's recursion in `Find` (stack size) is not modelled.
- Kruskal.KruskalMST: its contract relates the total to the greedy choice
  of accepted edges, and the `Components` lemmas prove those edges form a
  spanning forest. Nothing proves that forest has minimum weight among all
  spanning forests (the cut property), which the function's name suggests.
