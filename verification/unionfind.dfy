/**
  The disjoint-set (union-find) structure of main.go: a forest over the
  elements 0..n-1 kept in two parallel arrays `parent` and `rank`, with
  path compression in `Find` and union by rank in `Union`.

  The Go structure is mutated in place through a pointer; here each
  operation returns the new state instead, so that every contract can speak
  about the state before and after without `old`.
*/
module UnionFind {

  /** The `parent` and `rank` slices of the Go structure. */
  datatype DisjointSet = DisjointSet(parent: seq<int>, rank: seq<int>)

  /** Number of elements the structure was created for. */
  function Size(ds: DisjointSet): nat {
    |ds.parent|
  }

  /**
    The structural invariant: both arrays have the same length, every parent
    pointer stays in range, ranks are never negative, and a non-root's rank is
    strictly below its parent's. The last conjunct rules out cycles other than
    the self-loops that mark roots.
  */
  ghost predicate Valid(ds: DisjointSet) {
    && |ds.parent| == |ds.rank|
    && (forall i :: 0 <= i < |ds.parent| ==> 0 <= ds.parent[i] < |ds.parent|)
    && (forall i :: 0 <= i < |ds.rank| ==> 0 <= ds.rank[i])
    && (forall i :: 0 <= i < |ds.parent| && ds.parent[i] != i ==> ds.rank[i] < ds.rank[ds.parent[i]])
  }

  /** An upper bound of a sequence of integers; with ranks it bounds how far up a tree can go. */
  ghost function MaxOf(s: seq<int>): (m: int)
    ensures forall i :: 0 <= i < |s| ==> s[i] <= m
  {
    if |s| == 0 then 0
    else
      var rest := MaxOf(s[1..]);
      assert forall i :: 1 <= i < |s| ==> s[i] == s[1..][i - 1];
      if s[0] > rest then s[0] else rest
  }

  /**
    The root reached by following parent pointers from `x`. This is the
    abstraction of the structure: two elements are in the same set exactly
    when they reach the same root.
  */
  ghost function Root(ds: DisjointSet, x: int): (r: int)
    requires Valid(ds) && 0 <= x < Size(ds)
    ensures 0 <= r < Size(ds) && ds.parent[r] == r
    ensures ds.rank[x] <= ds.rank[r]
    ensures ds.parent[x] != x ==> ds.rank[x] < ds.rank[r]
    decreases MaxOf(ds.rank) - ds.rank[x]
  {
    if ds.parent[x] == x then x else Root(ds, ds.parent[x])
  }

  /** Number of parent steps from `x` to its root. */
  ghost function Depth(ds: DisjointSet, x: int): (d: nat)
    requires Valid(ds) && 0 <= x < Size(ds)
    ensures d == 0 <==> ds.parent[x] == x
    decreases MaxOf(ds.rank) - ds.rank[x]
  {
    if ds.parent[x] == x then 0 else 1 + Depth(ds, ds.parent[x])
  }

  /** `y` lies on the parent path from `x` to its root, both ends included. */
  ghost predicate OnPath(ds: DisjointSet, x: int, y: int)
    requires Valid(ds) && 0 <= x < Size(ds)
    decreases MaxOf(ds.rank) - ds.rank[x]
  {
    y == x || (ds.parent[x] != x && OnPath(ds, ds.parent[x], y))
  }

  /** `a` and `b` are in the same set. */
  ghost predicate SameSet(ds: DisjointSet, a: int, b: int)
    requires Valid(ds) && 0 <= a < Size(ds) && 0 <= b < Size(ds)
  {
    Root(ds, a) == Root(ds, b)
  }

  /** An element is a root exactly when it is its own root. */
  lemma RootIsSelf(ds: DisjointSet, x: int)
    requires Valid(ds) && 0 <= x < Size(ds)
    ensures Root(ds, x) == x <==> ds.parent[x] == x
  {
  }

  /**
    NewDisjointSet(n): n singleton sets. Every element is its own parent with
    rank 0, so no two distinct elements share a set.
  */
  function NewDisjointSet(n: int): (ds: DisjointSet)
    requires n >= 0
    ensures Valid(ds) && Size(ds) == n && |ds.rank| == n
    ensures forall i :: 0 <= i < n ==> ds.parent[i] == i && ds.rank[i] == 0
    ensures forall a, b :: 0 <= a < n && 0 <= b < n ==> (SameSet(ds, a, b) <==> a == b)
  {
    DisjointSet(seq(n, i => i), seq(n, _ => 0))
  }

  /**
    What Find(x) promises of the structure `d` and the root it returns: `root`
    is x's root and x now points straight at it; exactly the elements on the
    path from x to the root are redirected to the root, all other parents
    and every rank stay. So no element changes root; when x already pointed
    at its root, nothing changed at all.
  */
  ghost predicate Compresses(ds: DisjointSet, x: int, d: DisjointSet, root: int)
    requires Valid(ds) && 0 <= x < Size(ds)
  {
    && Valid(d) && Size(d) == Size(ds) && d.rank == ds.rank
    && root == Root(ds, x) && d.parent[root] == root
    && d.parent[x] == root
    && (forall y :: 0 <= y < Size(ds) ==> d.parent[y] == if OnPath(ds, x, y) then root else ds.parent[y])
    && (forall y :: 0 <= y < Size(ds) ==> Root(d, y) == Root(ds, y))
    && (forall y :: 0 <= y < Size(ds) ==> d.parent[y] == ds.parent[y] || d.parent[y] == Root(ds, y))
    && (ds.parent[x] == Root(ds, x) ==> d == ds)
  }

  /** Find(x) with path compression, recursive as in the Go code. */
  method Find(ds: DisjointSet, x: int) returns (d: DisjointSet, root: int)
    requires Valid(ds) && 0 <= x < Size(ds)
    ensures Compresses(ds, x, d, root)
    decreases MaxOf(ds.rank) - ds.rank[x]
  {
    if ds.parent[x] != x {
      var sub, r := Find(ds, ds.parent[x]);
      d := sub.(parent := sub.parent[x := r]);
      root := r;
      CompressStep(ds, x, sub, r);
    } else {
      d, root := ds, x;
    }
  }

  /**
    The recursive case of Find: once the parent's path is compressed,
    pointing x at the root compresses x's path.
  */
  lemma CompressStep(ds: DisjointSet, x: int, sub: DisjointSet, r: int)
    requires Valid(ds) && 0 <= x < Size(ds) && ds.parent[x] != x
    requires Compresses(ds, ds.parent[x], sub, r)
    ensures Compresses(ds, x, sub.(parent := sub.parent[x := r]), r)
  {
    var d := sub.(parent := sub.parent[x := r]);
    CompressStepParents(ds, x, sub, r);
    CompressPreservesRoots(sub, x);
    if ds.parent[x] == Root(ds, x) {
      assert d.parent == ds.parent;
    }
  }

  /** The parent pointers after the recursive case of Find. */
  lemma CompressStepParents(ds: DisjointSet, x: int, sub: DisjointSet, r: int)
    requires Valid(ds) && 0 <= x < Size(ds) && ds.parent[x] != x
    requires Compresses(ds, ds.parent[x], sub, r)
    ensures var d := sub.(parent := sub.parent[x := r]);
      && r == Root(ds, x) && d.parent[r] == r && d.parent[x] == r
      && (forall y :: 0 <= y < Size(ds) ==> d.parent[y] == if OnPath(ds, x, y) then r else ds.parent[y])
      && (forall y :: 0 <= y < Size(ds) ==> d.parent[y] == ds.parent[y] || d.parent[y] == Root(ds, y))
  {
  }

  /** Pointing `x` directly at its root keeps the invariant and every element's root. */
  lemma CompressPreservesRoots(ds: DisjointSet, x: int)
    requires Valid(ds) && 0 <= x < Size(ds)
    ensures var c := ds.(parent := ds.parent[x := Root(ds, x)]);
      && Valid(c)
      && forall y :: 0 <= y < Size(ds) ==> Root(c, y) == Root(ds, y)
  {
    var c := ds.(parent := ds.parent[x := Root(ds, x)]);
    forall y | 0 <= y < Size(ds)
      ensures Root(c, y) == Root(ds, y)
    {
      CompressedRoot(ds, x, y);
    }
  }

  lemma {:induction false} CompressedRoot(ds: DisjointSet, x: int, y: int)
    requires Valid(ds) && 0 <= x < Size(ds) && 0 <= y < Size(ds)
    ensures var c := ds.(parent := ds.parent[x := Root(ds, x)]);
      Valid(c) && Root(c, y) == Root(ds, y)
    decreases MaxOf(ds.rank) - ds.rank[y]
  {
    var c := ds.(parent := ds.parent[x := Root(ds, x)]);
    var r := Root(ds, x);
    if y == x {
      if r != x {
        assert c.parent[r] == r;
      }
    } else if ds.parent[y] != y {
      CompressedRoot(ds, x, ds.parent[y]);
    }
  }

  /** In `u`, the elements whose root in `d` was `loser` now have root `winner`; every other root is unchanged. */
  ghost predicate RenamesRoot(d: DisjointSet, u: DisjointSet, loser: int, winner: int)
    requires Valid(d) && Valid(u) && Size(u) == Size(d)
  {
    forall a :: 0 <= a < Size(d) ==> Root(u, a) == if Root(d, a) == loser then winner else Root(d, a)
  }

  /** Hanging root `c` under root `p` of higher rank moves exactly c's set under p. */
  lemma LinkRoots(ds: DisjointSet, c: int, p: int)
    requires Valid(ds) && 0 <= c < Size(ds) && 0 <= p < Size(ds)
    requires ds.parent[c] == c && ds.parent[p] == p && c != p
    requires ds.rank[c] < ds.rank[p]
    ensures var l := ds.(parent := ds.parent[c := p]);
      && Valid(l)
      && RenamesRoot(ds, l, c, p)
  {
    var l := ds.(parent := ds.parent[c := p]);
    forall y | 0 <= y < Size(ds)
      ensures Root(l, y) == if Root(ds, y) == c then p else Root(ds, y)
    {
      LinkedRoot(ds, c, p, y);
    }
  }

  lemma {:induction false} LinkedRoot(ds: DisjointSet, c: int, p: int, y: int)
    requires Valid(ds) && 0 <= c < Size(ds) && 0 <= p < Size(ds) && 0 <= y < Size(ds)
    requires ds.parent[c] == c && ds.parent[p] == p && c != p
    requires ds.rank[c] < ds.rank[p]
    ensures var l := ds.(parent := ds.parent[c := p]);
      Valid(l) && Root(l, y) == if Root(ds, y) == c then p else Root(ds, y)
    decreases MaxOf(ds.rank) - ds.rank[y]
  {
    var l := ds.(parent := ds.parent[c := p]);
    if y == c {
      assert Root(l, p) == p;
    } else if ds.parent[y] != y {
      LinkedRoot(ds, c, p, ds.parent[y]);
    }
  }

  /** Raising the rank of a root keeps the invariant and changes no element's root. */
  lemma RaiseRootRank(ds: DisjointSet, r: int)
    requires Valid(ds) && 0 <= r < Size(ds) && ds.parent[r] == r
    ensures var b := ds.(rank := ds.rank[r := ds.rank[r] + 1]);
      && Valid(b)
      && forall y :: 0 <= y < Size(ds) ==> Root(b, y) == Root(ds, y)
  {
    var b := ds.(rank := ds.rank[r := ds.rank[r] + 1]);
    forall y | 0 <= y < Size(ds)
      ensures Root(b, y) == Root(ds, y)
    {
      RaisedRoot(ds, r, y);
    }
  }

  lemma {:induction false} RaisedRoot(ds: DisjointSet, r: int, y: int)
    requires Valid(ds) && 0 <= r < Size(ds) && ds.parent[r] == r && 0 <= y < Size(ds)
    ensures var b := ds.(rank := ds.rank[r := ds.rank[r] + 1]);
      Valid(b) && Root(b, y) == Root(ds, y)
    decreases MaxOf(ds.rank) - ds.rank[y]
  {
    if ds.parent[y] != y {
      RaisedRoot(ds, r, ds.parent[y]);
    }
  }

  /**
    The union-by-rank rule for two distinct roots rx and ry of `d`: the root
    of lower rank goes under the other one; on equal ranks ry goes under rx
    and rx's rank rises by exactly one; no other rank changes; and exactly
    the elements of the losing root's set change root, to the winning root.
  */
  ghost predicate RankRule(d: DisjointSet, rx: int, ry: int, u: DisjointSet)
    requires Valid(d) && Valid(u) && Size(u) == Size(d)
    requires 0 <= rx < Size(d) && 0 <= ry < Size(d)
  {
    && (d.rank[rx] > d.rank[ry] ==>
          u.parent[ry] == rx && u.rank == d.rank && RenamesRoot(d, u, ry, rx))
    && (d.rank[rx] < d.rank[ry] ==>
          u.parent[rx] == ry && u.rank == d.rank && RenamesRoot(d, u, rx, ry))
    && (d.rank[rx] == d.rank[ry] ==>
          u.parent[ry] == rx && u.rank == d.rank[rx := d.rank[rx] + 1] && RenamesRoot(d, u, ry, rx))
  }

  /**
    One link of two distinct roots of `d`: the union-by-rank rule, and the
    losing root's parent slot is the only parent entry that changes.
  */
  ghost predicate LinkStep(d: DisjointSet, rx: int, ry: int, u: DisjointSet)
    requires Valid(d) && Valid(u) && Size(u) == Size(d)
    requires 0 <= rx < Size(d) && 0 <= ry < Size(d)
  {
    && RankRule(d, rx, ry, u)
    && (d.rank[rx] < d.rank[ry] ==> u.parent == d.parent[rx := ry])
    && (d.rank[rx] >= d.rank[ry] ==> u.parent == d.parent[ry := rx])
  }

  /** The union-by-rank rule, stated on the roots of x and y before the call. */
  ghost predicate LinkedByRank(ds: DisjointSet, x: int, y: int, u: DisjointSet)
    requires Valid(ds) && Valid(u) && Size(u) == Size(ds)
    requires 0 <= x < Size(ds) && 0 <= y < Size(ds)
  {
    Root(ds, x) != Root(ds, y) ==> RankRule(ds, Root(ds, x), Root(ds, y), u)
  }

  /**
    The branch of Union that runs when the two roots differ: it links them by
    rank.
  */
  function Link(d: DisjointSet, rx: int, ry: int): (u: DisjointSet)
    requires Valid(d) && 0 <= rx < Size(d) && 0 <= ry < Size(d)
    requires d.parent[rx] == rx && d.parent[ry] == ry && rx != ry
    ensures Valid(u) && Size(u) == Size(d)
    ensures LinkStep(d, rx, ry, u)
  {
    if d.rank[rx] > d.rank[ry] then
      LinkRoots(d, ry, rx);
      d.(parent := d.parent[ry := rx])
    else if d.rank[rx] < d.rank[ry] then
      LinkRoots(d, rx, ry);
      d.(parent := d.parent[rx := ry])
    else
      RaiseRootRank(d, rx);
      var b := d.(rank := d.rank[rx := d.rank[rx] + 1]);
      LinkRoots(b, ry, rx);
      b.(parent := b.parent[ry := rx])
  }

  /**
    When every root `loser` is renamed to `winner` and nothing else moves, two
    elements end up together exactly when they were together or one was with
    `loser` and the other with `winner`.
  */
  lemma MergedClasses(ds: DisjointSet, u: DisjointSet, x: int, y: int, winner: int, loser: int)
    requires Valid(ds) && Valid(u) && Size(u) == Size(ds)
    requires 0 <= x < Size(ds) && 0 <= y < Size(ds)
    requires (winner == Root(ds, x) && loser == Root(ds, y)) || (winner == Root(ds, y) && loser == Root(ds, x))
    requires RenamesRoot(ds, u, loser, winner)
    ensures SameSet(u, x, y)
    ensures forall a, b :: 0 <= a < Size(ds) && 0 <= b < Size(ds) ==>
      (SameSet(u, a, b) <==>
        || SameSet(ds, a, b)
        || (SameSet(ds, a, x) && SameSet(ds, b, y))
        || (SameSet(ds, a, y) && SameSet(ds, b, x)))
  {
    assert Root(u, x) == winner && Root(u, y) == winner;
  }

  /** Renaming a root is a statement about roots only, so it carries over to any structure with the same roots. */
  lemma RenamesRootTransfer(ds: DisjointSet, d: DisjointSet, u: DisjointSet, loser: int, winner: int)
    requires Valid(ds) && Valid(d) && Valid(u) && Size(d) == Size(ds) && Size(u) == Size(ds)
    requires forall a :: 0 <= a < Size(ds) ==> Root(d, a) == Root(ds, a)
    requires RenamesRoot(d, u, loser, winner)
    ensures RenamesRoot(ds, u, loser, winner)
  {
    forall a | 0 <= a < Size(ds)
      ensures Root(u, a) == if Root(ds, a) == loser then winner else Root(ds, a)
    {
      assert Root(d, a) == Root(ds, a);
    }
  }

  /**
    Linking the distinct roots of x and y, taken in a structure `d` that has
    the same roots and ranks as `ds`, performs the union-by-rank step on the
    roots of `ds` and merges exactly the two classes of x and y.
  */
  lemma LinkMerges(ds: DisjointSet, d: DisjointSet, u: DisjointSet, x: int, y: int)
    requires Valid(ds) && Valid(d) && Valid(u) && Size(d) == Size(ds) && Size(u) == Size(ds)
    requires d.rank == ds.rank
    requires 0 <= x < Size(ds) && 0 <= y < Size(ds)
    requires forall a :: 0 <= a < Size(ds) ==> Root(d, a) == Root(ds, a)
    requires Root(ds, x) != Root(ds, y)
    requires RankRule(d, Root(ds, x), Root(ds, y), u)
    ensures SameSet(u, x, y)
    ensures LinkedByRank(ds, x, y, u)
    ensures forall a, b :: 0 <= a < Size(ds) && 0 <= b < Size(ds) ==>
      (SameSet(u, a, b) <==>
        || SameSet(ds, a, b)
        || (SameSet(ds, a, x) && SameSet(ds, b, y))
        || (SameSet(ds, a, y) && SameSet(ds, b, x)))
  {
    var rx := Root(ds, x);
    var ry := Root(ds, y);
    RankRuleTransfer(ds, d, u, rx, ry);
    if ds.rank[rx] < ds.rank[ry] {
      MergedClasses(ds, u, x, y, ry, rx);
    } else {
      MergedClasses(ds, u, x, y, rx, ry);
    }
  }

  /** The union-by-rank rule only mentions ranks and roots, so it carries over to any structure with the same ones. */
  lemma RankRuleTransfer(ds: DisjointSet, d: DisjointSet, u: DisjointSet, rx: int, ry: int)
    requires Valid(ds) && Valid(d) && Valid(u) && Size(d) == Size(ds) && Size(u) == Size(ds)
    requires d.rank == ds.rank
    requires 0 <= rx < Size(ds) && 0 <= ry < Size(ds)
    requires forall a :: 0 <= a < Size(ds) ==> Root(d, a) == Root(ds, a)
    requires RankRule(d, rx, ry, u)
    ensures RankRule(ds, rx, ry, u)
  {
    if ds.rank[rx] < ds.rank[ry] {
      RenamesRootTransfer(ds, d, u, rx, ry);
    } else {
      RenamesRootTransfer(ds, d, u, ry, rx);
    }
  }

  /**
    Union(x, y): afterwards x and y share a set, and two elements share a set
    exactly when they did before or one was with x and the other with y, so
    at most two classes merge. If x and y were already together, the
    partition and every rank are unchanged; this holds for Union(x, x) and a
    repeated Union(x, y), whose two Finds still compress the paths of x and
    y. Otherwise the roots are linked by rank. Either way, no parent entry
    off the paths from x and from y to their roots changes.
  */
  method Union(ds: DisjointSet, x: int, y: int) returns (u: DisjointSet)
    requires Valid(ds) && 0 <= x < Size(ds) && 0 <= y < Size(ds)
    ensures Valid(u) && Size(u) == Size(ds)
    ensures SameSet(u, x, y)
    ensures forall a, b :: 0 <= a < Size(ds) && 0 <= b < Size(ds) ==>
      (SameSet(u, a, b) <==>
        || SameSet(ds, a, b)
        || (SameSet(ds, a, x) && SameSet(ds, b, y))
        || (SameSet(ds, a, y) && SameSet(ds, b, x)))
    ensures SameSet(ds, x, y) ==>
      u.rank == ds.rank && forall a :: 0 <= a < Size(ds) ==> Root(u, a) == Root(ds, a)
    ensures LinkedByRank(ds, x, y, u)
    ensures forall a :: 0 <= a < Size(ds) && !OnPath(ds, x, a) && !OnPath(ds, y, a) ==>
      u.parent[a] == ds.parent[a]
  {
    var d1, rootX := Find(ds, x);
    var d, rootY := Find(d1, y);
    if rootX != rootY {
      RootIsSelf(d, rootX);
      u := Link(d, rootX, rootY);
      LinkMerges(ds, d, u, x, y);
      LinkKeepsOthers(d, rootX, rootY, u);
    } else {
      u := d;
    }
    UnionKeepsOffPath(ds, x, y, d1, rootX, d, rootY, u);
  }

  /**
    When the structure after the two Finds of Union changes at most at the
    two roots, every parent entry off the paths from x and from y keeps its
    original value.
  */
  lemma UnionKeepsOffPath(ds: DisjointSet, x: int, y: int, d1: DisjointSet, rx: int, d: DisjointSet, ry: int, u: DisjointSet)
    requires Valid(ds) && 0 <= x < Size(ds) && 0 <= y < Size(ds)
    requires Compresses(ds, x, d1, rx) && Compresses(d1, y, d, ry)
    requires Size(u) == Size(ds)
    requires forall a :: 0 <= a < Size(ds) && a != rx && a != ry ==> u.parent[a] == d.parent[a]
    ensures forall a :: 0 <= a < Size(ds) && !OnPath(ds, x, a) && !OnPath(ds, y, a) ==>
      u.parent[a] == ds.parent[a]
  {
    forall a | 0 <= a < Size(ds) && !OnPath(ds, x, a) && !OnPath(ds, y, a)
      ensures u.parent[a] == ds.parent[a]
    {
      FindsKeepOffPath(ds, x, y, d1, rx, d, ry, a);
    }
  }

  /** Linking two roots changes no parent entry but theirs. */
  lemma LinkKeepsOthers(d: DisjointSet, rx: int, ry: int, u: DisjointSet)
    requires Valid(d) && Valid(u) && Size(u) == Size(d)
    requires 0 <= rx < Size(d) && 0 <= ry < Size(d)
    requires LinkStep(d, rx, ry, u)
    ensures forall a :: 0 <= a < Size(d) && a != rx && a != ry ==> u.parent[a] == d.parent[a]
  {
  }

  /** The root of x lies on the path from x. */
  lemma {:induction false} OnPathRoot(ds: DisjointSet, x: int)
    requires Valid(ds) && 0 <= x < Size(ds)
    ensures OnPath(ds, x, Root(ds, x))
    decreases MaxOf(ds.rank) - ds.rank[x]
  {
    if ds.parent[x] != x {
      OnPathRoot(ds, ds.parent[x]);
    }
  }

  /**
    After Find(x) has compressed x's path into `d`, the path from any y in
    `d` runs only over elements that were on y's path or on x's path before.
  */
  lemma {:induction false} PathAfterCompress(ds: DisjointSet, x: int, d: DisjointSet, rx: int, y: int, a: int)
    requires Valid(ds) && 0 <= x < Size(ds) && 0 <= y < Size(ds)
    requires Compresses(ds, x, d, rx)
    requires OnPath(d, y, a)
    ensures OnPath(ds, y, a) || OnPath(ds, x, a)
    decreases MaxOf(d.rank) - d.rank[y]
  {
    if a != y {
      if OnPath(ds, x, y) {
        assert d.parent[y] == rx && d.parent[rx] == rx;
        OnPathRoot(ds, x);
      } else {
        PathAfterCompress(ds, x, d, rx, d.parent[y], a);
      }
    }
  }

  /**
    The two Finds of Union leave every parent entry off the paths from x and
    from y as it was, and neither root they return is such an entry.
  */
  lemma FindsKeepOffPath(ds: DisjointSet, x: int, y: int, d1: DisjointSet, rx: int, d: DisjointSet, ry: int, a: int)
    requires Valid(ds) && 0 <= x < Size(ds) && 0 <= y < Size(ds)
    requires Compresses(ds, x, d1, rx) && Compresses(d1, y, d, ry)
    requires 0 <= a < Size(ds) && !OnPath(ds, x, a) && !OnPath(ds, y, a)
    ensures d.parent[a] == ds.parent[a] && a != rx && a != ry
  {
    OnPathRoot(ds, x);
    OnPathRoot(ds, y);
    assert ry == Root(ds, y);
    if OnPath(d1, y, a) {
      PathAfterCompress(ds, x, d1, rx, y, a);
    }
  }


  /**
    Find shortens paths: afterwards x is at most one step from its root, and
    no element is further from its root than before.
  */
  lemma FindShortens(ds: DisjointSet, x: int, d: DisjointSet, root: int)
    requires Valid(ds) && 0 <= x < Size(ds)
    requires Compresses(ds, x, d, root)
    ensures Depth(d, x) <= 1
    ensures forall y :: 0 <= y < Size(ds) ==> Depth(d, y) <= Depth(ds, y)
  {
    CompressionShortens(ds, d);
    assert Depth(d, root) == 0;
  }

  /**
    A structure that agrees with `ds` on every root, and whose entries either
    keep their parent or point at their root, has no longer paths than `ds`.
  */
  lemma CompressionShortens(ds: DisjointSet, c: DisjointSet)
    requires Valid(ds) && Valid(c) && Size(c) == Size(ds) && c.rank == ds.rank
    requires forall z :: 0 <= z < Size(ds) ==> Root(c, z) == Root(ds, z)
    requires forall z :: 0 <= z < Size(ds) ==> c.parent[z] == ds.parent[z] || c.parent[z] == Root(ds, z)
    ensures forall y :: 0 <= y < Size(ds) ==> Depth(c, y) <= Depth(ds, y)
  {
    forall y | 0 <= y < Size(ds)
      ensures Depth(c, y) <= Depth(ds, y)
    {
      CompressedDepth(ds, c, y);
    }
  }

  lemma {:induction false} CompressedDepth(ds: DisjointSet, c: DisjointSet, y: int)
    requires Valid(ds) && Valid(c) && Size(c) == Size(ds) && c.rank == ds.rank
    requires 0 <= y < Size(ds)
    requires forall z :: 0 <= z < Size(ds) ==> Root(c, z) == Root(ds, z)
    requires forall z :: 0 <= z < Size(ds) ==> c.parent[z] == ds.parent[z] || c.parent[z] == Root(ds, z)
    ensures Depth(c, y) <= Depth(ds, y)
    decreases MaxOf(ds.rank) - ds.rank[y]
  {
    if ds.parent[y] != y {
      if c.parent[y] == ds.parent[y] {
        CompressedDepth(ds, c, ds.parent[y]);
      } else {
        var r := Root(ds, y);
        assert Root(c, r) == r;
        RootIsSelf(c, r);
      }
    } else {
      assert Root(ds, y) == y;
    }
  }
}
