/** The weighted graph the algorithms read, the edges they write, and the
    graph-theoretic notions (paths, reachability, spanning trees) their
    contracts are stated in. */
module Graphs {

  /** The largest C `int`; the algorithms use it as the "infinite" sentinel. */
  const INT_MAX: int := 0x7fff_ffff

  /** A C `int`: the type of weights, distances and keys. */
  newtype int32 = x: int | -0x8000_0000 <= x <= 0x7fff_ffff

  /** One node of a vertex's adjacency list: the neighbouring vertex and the edge's weight. */
  datatype Neighbor = Neighbor(vertex: int, data: int32)

  /** The input graph: a vertex count and, per vertex, its adjacency list in the
      order the graph enumerates it. */
  datatype Graph = Graph(vertices: nat, adj: seq<seq<Neighbor>>)

  /** An edge (src, dest, weight). A sequence of edges also records the `addEdge`
      calls an algorithm makes on the output graph it builds. */
  datatype Edge = Edge(src: int, dest: int, weight: int32)

  /** One adjacency list per vertex, and every neighbour is a vertex. */
  ghost predicate WellFormed(g: Graph)
  {
    |g.adj| == g.vertices &&
    forall u, k :: 0 <= u < g.vertices && 0 <= k < |g.adj[u]| ==> 0 <= g.adj[u][k].vertex < g.vertices
  }

  /** No edge weight is negative. */
  ghost predicate NonNegative(g: Graph)
    requires WellFormed(g)
  {
    forall u, k :: 0 <= u < g.vertices && 0 <= k < |g.adj[u]| ==> g.adj[u][k].data >= 0
  }

  /** Every edge is registered at both of its endpoints with the same weight. */
  ghost predicate Undirected(g: Graph)
    requires WellFormed(g)
  {
    forall u, k :: 0 <= u < g.vertices && 0 <= k < |g.adj[u]| ==>
      Neighbor(u, g.adj[u][k].data) in g.adj[g.adj[u][k].vertex]
  }

  /** The position of the first entry for `v` in an adjacency list, or its
      length when there is none: the walk `hasEdge` and `getWeight` make. */
  function Position(list: seq<Neighbor>, v: int): (k: nat)
    ensures k <= |list|
    ensures k < |list| ==> list[k].vertex == v
    ensures forall j :: 0 <= j < k ==> list[j].vertex != v
  {
    if list == [] then 0
    else if list[0].vertex == v then 0
    else 1 + Position(list[1..], v)
  }

  /** `hasEdge(u, v)`: some entry of u's adjacency list is v. */
  function HasEdge(g: Graph, u: int, v: int): (r: bool)
    requires 0 <= u < |g.adj|
    ensures r <==> exists k :: 0 <= k < |g.adj[u]| && g.adj[u][k].vertex == v
  {
    Position(g.adj[u], v) < |g.adj[u]|
  }

  /** `getWeight(u, v)`: the weight of the first entry for v in u's adjacency list;
      0 when there is no such entry (callers only rely on it for existing edges). */
  function GetWeight(g: Graph, u: int, v: int): (w: int32)
    requires 0 <= u < |g.adj|
    ensures HasEdge(g, u, v) ==> Neighbor(v, w) in g.adj[u]
    ensures !HasEdge(g, u, v) ==> w == 0
  {
    var k := Position(g.adj[u], v);
    if k < |g.adj[u]| then g.adj[u][k].data else 0
  }

  /** Every weight is at most `bound`. */
  ghost predicate WeightsAtMost(g: Graph, bound: int)
    requires WellFormed(g)
  {
    forall u, k :: 0 <= u < g.vertices && 0 <= k < |g.adj[u]| ==> g.adj[u][k].data as int <= bound
  }

  lemma GetWeightBounds(g: Graph, u: int, v: int, bound: int)
    requires WellFormed(g) && 0 <= u < g.vertices
    requires NonNegative(g) && WeightsAtMost(g, bound) && bound >= 0
    ensures 0 <= GetWeight(g, u, v) as int <= bound
  {
    if HasEdge(g, u, v) {
      var k :| 0 <= k < |g.adj[u]| && g.adj[u][k] == Neighbor(v, GetWeight(g, u, v));
    }
  }

  // ---------------------------------------------------------------------------
  // Sequences of vertices

  /** No vertex occurs twice. */
  ghost predicate Distinct(s: seq<int>)
  {
    forall i, j :: 0 <= i < j < |s| ==> s[i] != s[j]
  }

  /** `x` occurs in `s` strictly before `y`. */
  ghost predicate Precedes(s: seq<int>, x: int, y: int)
  {
    exists i, j :: 0 <= i < j < |s| && s[i] == x && s[j] == y
  }

  /** The destinations of a sequence of edges, in order. */
  function Dests(tree: seq<Edge>): (d: seq<int>)
    ensures |d| == |tree| && forall i :: 0 <= i < |tree| ==> d[i] == tree[i].dest
  {
    seq(|tree|, i requires 0 <= i < |tree| => tree[i].dest)
  }

  lemma DestsAppend(tree: seq<Edge>, e: Edge)
    ensures Dests(tree + [e]) == Dests(tree) + [e.dest]
  {
  }

  /** The indices below `k` at which `flags` holds, in increasing order: the
      vertices an output loop `for v in 0..k: if flags[v] then addEdge(.., v, ..)`
      writes an edge into. */
  function Indices(flags: seq<bool>, k: int): (r: seq<int>)
    requires 0 <= k <= |flags|
    ensures forall x :: x in r <==> 0 <= x < k && flags[x]
    ensures forall i, j :: 0 <= i < j < |r| ==> r[i] < r[j]
    ensures |r| <= k
  {
    if k == 0 then []
    else
      var r := Indices(flags, k - 1);
      assert forall i :: 0 <= i < |r| ==> r[i] in r;
      r + (if flags[k - 1] then [k - 1] else [])
  }

  /** One more index: `Indices` grows by `k` exactly when `k` is flagged. */
  lemma IndicesStep(flags: seq<bool>, k: int)
    requires 0 <= k < |flags|
    ensures Indices(flags, k + 1) == Indices(flags, k) + (if flags[k] then [k] else [])
  {
  }

  /** When some index below `k` is not flagged, fewer than `k` indices are. */
  lemma {:induction false} IndicesMissing(flags: seq<bool>, k: int, s: int)
    requires 0 <= s < k <= |flags| && !flags[s]
    ensures |Indices(flags, k)| <= k - 1
  {
    if s < k - 1 {
      IndicesMissing(flags, k - 1, s);
    }
  }

  /** `Indices` depends only on the flags below `k`. */
  lemma {:induction false} IndicesPrefix(a: seq<bool>, b: seq<bool>, k: int)
    requires 0 <= k <= |a| && k <= |b| && a[..k] == b[..k]
    ensures Indices(a, k) == Indices(b, k)
  {
    if k > 0 {
      assert a[..k - 1] == b[..k - 1];
      assert a[k - 1] == a[..k][k - 1] == b[..k][k - 1] == b[k - 1];
      IndicesPrefix(a, b, k - 1);
    }
  }

  /** Flagging one more index below `k` adds one element to `Indices`. */
  lemma {:induction false} IndicesFlag(flags: seq<bool>, k: int, u: int)
    requires 0 <= u < k <= |flags| && !flags[u]
    ensures |Indices(flags[u := true], k)| == |Indices(flags, k)| + 1
  {
    var flags' := flags[u := true];
    if u < k - 1 {
      IndicesFlag(flags, k - 1, u);
      assert flags'[k - 1] == flags[k - 1];
    } else {
      assert flags'[..k - 1] == flags[..k - 1];
      IndicesPrefix(flags', flags, k - 1);
    }
  }

  /** When two indices below `k` are not flagged, at most `k - 2` are. */
  lemma {:induction false} IndicesMissingTwo(flags: seq<bool>, k: int, s: int, t: int)
    requires 0 <= s < k <= |flags| && 0 <= t < k && s != t && !flags[s] && !flags[t]
    ensures |Indices(flags, k)| <= k - 2
  {
    if s == k - 1 {
      IndicesMissing(flags, k - 1, t);
    } else if t == k - 1 {
      IndicesMissing(flags, k - 1, s);
    } else {
      IndicesMissingTwo(flags, k - 1, s, t);
    }
  }

  /** With nothing flagged, `Indices` is empty. */
  lemma {:induction false} IndicesNone(flags: seq<bool>, k: int)
    requires 0 <= k <= |flags| && forall x :: 0 <= x < k ==> !flags[x]
    ensures |Indices(flags, k)| == 0
  {
    if k > 0 {
      IndicesNone(flags, k - 1);
    }
  }

  /** A sequence without repetitions has as many elements as its set. */
  lemma {:induction false} DistinctCardinality(s: seq<int>)
    requires Distinct(s)
    ensures |set x | x in s| == |s|
  {
    if s != [] {
      var t := s[..|s| - 1];
      var last := s[|s| - 1];
      assert Distinct(t);
      DistinctCardinality(t);
      assert (set x | x in s) == (set x | x in t) + {last};
      assert last !in (set x | x in t);
    }
  }

  /** A sequence of distinct vertices below `n` has at most `n` elements. */
  lemma {:induction false} DistinctBound(s: seq<int>, n: nat)
    requires Distinct(s) && forall i :: 0 <= i < |s| ==> 0 <= s[i] < n
    ensures |s| <= n
    decreases |s|
  {
    if s != [] {
      // drop the last vertex and rename `n - 1` to it
      var last := s[|s| - 1];
      var t := seq(|s| - 1, k requires 0 <= k < |s| - 1 => if s[k] == n - 1 then last else s[k]);
      DistinctBound(t, n - 1);
    }
  }

  // ---------------------------------------------------------------------------
  // Paths, reachability and spanning trees

  /** `p` is a walk through the graph along `hasEdge`. */
  ghost predicate IsPath(g: Graph, p: seq<int>)
    requires WellFormed(g)
  {
    |p| >= 1 &&
    (forall i :: 0 <= i < |p| ==> 0 <= p[i] < g.vertices) &&
    (forall i :: 0 <= i < |p| - 1 ==> HasEdge(g, p[i], p[i + 1]))
  }

  /** Some walk leads from `s` to `v`. */
  ghost predicate Reachable(g: Graph, s: int, v: int)
    requires WellFormed(g)
  {
    exists p :: IsPath(g, p) && p[0] == s && p[|p| - 1] == v
  }

  /** `p` is a walk whose every step `hasEdge` allows and `getWeight` weighs
      below `cap`. */
  ghost predicate IsLightPath(g: Graph, p: seq<int>, cap: int)
    requires WellFormed(g)
  {
    IsPath(g, p) && forall i :: 0 <= i < |p| - 1 ==> GetWeight(g, p[i], p[i + 1]) as int < cap
  }

  /** Some walk along edges lighter than `cap` leads from `s` to `v`. */
  ghost predicate ReachableBelow(g: Graph, s: int, v: int, cap: int)
    requires WellFormed(g)
  {
    exists p :: IsLightPath(g, p, cap) && p[0] == s && p[|p| - 1] == v
  }

  /** Every vertex is reachable from itself. */
  lemma ReachableBelowSelf(g: Graph, s: int, cap: int)
    requires WellFormed(g) && 0 <= s < g.vertices
    ensures ReachableBelow(g, s, s, cap)
  {
    assert IsLightPath(g, [s], cap);
  }

  /** A walk to `u` followed by an edge `u -> v` lighter than `cap` reaches `v`. */
  lemma ReachableBelowStep(g: Graph, s: int, u: int, v: int, cap: int)
    requires WellFormed(g) && ReachableBelow(g, s, u, cap) && 0 <= u < g.vertices && 0 <= v < g.vertices
    requires HasEdge(g, u, v) && GetWeight(g, u, v) as int < cap
    ensures ReachableBelow(g, s, v, cap)
  {
    var p :| IsLightPath(g, p, cap) && p[0] == s && p[|p| - 1] == u;
    var q := p + [v];
    assert q[|q| - 1] == v && q[0] == s;
    assert forall i :: 0 <= i < |p| ==> q[i] == p[i];
    assert IsLightPath(g, q, cap);
  }

  /** Every `int32` weight is below `INT_MAX + 1`, so that cap restricts no walk. */
  lemma ReachableAnyWeight(g: Graph, s: int, v: int)
    requires WellFormed(g)
    ensures Reachable(g, s, v) <==> ReachableBelow(g, s, v, INT_MAX + 1)
    ensures Reachable(g, s, v) ==> 0 <= v < g.vertices
  {
    if Reachable(g, s, v) {
      var p :| IsPath(g, p) && p[0] == s && p[|p| - 1] == v;
      assert IsLightPath(g, p, INT_MAX + 1);
    }
  }

  /** Every edge lighter than `cap` leaving a flagged vertex ends at a flagged one. */
  ghost predicate LightClosed(g: Graph, flags: seq<bool>, cap: int)
    requires WellFormed(g) && |flags| == g.vertices
  {
    forall x, y ::
      (0 <= x < g.vertices && 0 <= y < g.vertices && flags[x] && HasEdge(g, x, y) &&
       GetWeight(g, x, y) as int < cap) ==> flags[y]
  }

  /** A set of vertices, given by its flags, that every edge lighter than
      `cap` leaving it stays in, contains every light walk from its members. */
  lemma {:induction false} LightClosedContainsPath(g: Graph, flags: seq<bool>, cap: int, p: seq<int>)
    requires WellFormed(g) && |flags| == g.vertices && IsLightPath(g, p, cap) && flags[p[0]]
    requires LightClosed(g, flags, cap)
    ensures flags[p[|p| - 1]]
  {
    if |p| > 1 {
      var q := p[..|p| - 1];
      assert IsLightPath(g, q, cap);
      LightClosedContainsPath(g, flags, cap, q);
      assert HasEdge(g, p[|p| - 2], p[|p| - 1]) && GetWeight(g, p[|p| - 2], p[|p| - 1]) as int < cap;
    }
  }

  /** Every edge leaving a vertex of `vs` ends in `vs`. */
  ghost predicate Closed(g: Graph, vs: seq<int>)
    requires WellFormed(g)
  {
    forall x, y :: x in vs && 0 <= x < g.vertices && 0 <= y < g.vertices && HasEdge(g, x, y) ==> y in vs
  }

  /** `tree` is a spanning tree of the vertices `order`, rooted at `order[0]`:
      each tree edge is a graph edge from an earlier to a later vertex of `order`,
      and every vertex but the root is the destination of exactly one tree edge. */
  ghost predicate SpanningTree(g: Graph, tree: seq<Edge>, order: seq<int>)
    requires WellFormed(g)
  {
    |order| >= 1 && Distinct(order) &&
    (forall i :: 0 <= i < |order| ==> 0 <= order[i] < g.vertices) &&
    (forall e :: e in tree ==> 0 <= e.src < g.vertices && HasEdge(g, e.src, e.dest) && Precedes(order, e.src, e.dest)) &&
    Distinct(Dests(tree)) &&
    (forall i :: 1 <= i < |order| ==> order[i] in Dests(tree))
  }

  /** Along a path, membership in a closed set is never lost. */
  lemma {:induction false} ClosedContainsPath(g: Graph, vs: seq<int>, p: seq<int>)
    requires WellFormed(g) && Closed(g, vs) && IsPath(g, p) && p[0] in vs
    ensures p[|p| - 1] in vs
  {
    if |p| > 1 {
      var q := p[..|p| - 1];
      assert IsPath(g, q);
      ClosedContainsPath(g, vs, q);
      assert HasEdge(g, p[|p| - 2], p[|p| - 1]);
    }
  }

  /** The first `i + 1` vertices of a spanning tree's order are reachable from its root. */
  lemma {:induction false} SpanningTreePrefixReachable(g: Graph, tree: seq<Edge>, order: seq<int>, i: int)
    requires WellFormed(g) && SpanningTree(g, tree, order) && 0 <= i < |order|
    ensures Reachable(g, order[0], order[i])
    decreases i
  {
    if i == 0 {
      assert IsPath(g, [order[0]]);
    } else {
      var a := ParentPosition(g, tree, order, i);
      SpanningTreePrefixReachable(g, tree, order, a);
      var p :| IsPath(g, p) && p[0] == order[0] && p[|p| - 1] == order[a];
      ExtendPath(g, p, order[i]);
    }
  }

  /** Every tree edge ends at a vertex of the order other than the root. */
  lemma DestsNonRoot(g: Graph, tree: seq<Edge>, order: seq<int>)
    requires WellFormed(g) && SpanningTree(g, tree, order)
    ensures forall t :: 0 <= t < |tree| ==> tree[t].dest in order && tree[t].dest != order[0]
  {
    forall t | 0 <= t < |tree| ensures tree[t].dest in order && tree[t].dest != order[0] {
      assert tree[t] in tree;
      var a, b :| 0 <= a < b < |order| && order[a] == tree[t].src && order[b] == tree[t].dest;
    }
  }

  /** Every non-root vertex of a spanning tree has a graph edge into it from an
      earlier vertex of the order. */
  lemma ParentPosition(g: Graph, tree: seq<Edge>, order: seq<int>, i: int) returns (a: int)
    requires WellFormed(g) && SpanningTree(g, tree, order) && 1 <= i < |order|
    ensures 0 <= a < i && HasEdge(g, order[a], order[i])
  {
    var d := Dests(tree);
    assert order[i] in d;
    var t :| 0 <= t < |d| && d[t] == order[i];
    var e := tree[t];
    assert e in tree;
    var b;
    a, b :| 0 <= a < b < |order| && order[a] == e.src && order[b] == e.dest;
    assert order[b] == order[i];
  }

  /** A walk extended by an edge is a walk. */
  lemma ExtendPath(g: Graph, p: seq<int>, v: int)
    requires WellFormed(g) && IsPath(g, p) && 0 <= v < g.vertices && HasEdge(g, p[|p| - 1], v)
    ensures IsPath(g, p + [v]) && (p + [v])[0] == p[0]
  {
  }

  /** The vertices of a closed spanning tree are exactly those reachable from its root. */
  lemma SpanningTreeIsReachableSet(g: Graph, tree: seq<Edge>, order: seq<int>, v: int)
    requires WellFormed(g) && SpanningTree(g, tree, order) && Closed(g, order)
    ensures v in order <==> Reachable(g, order[0], v)
  {
    if v in order {
      var i :| 0 <= i < |order| && order[i] == v;
      SpanningTreePrefixReachable(g, tree, order, i);
    }
    if Reachable(g, order[0], v) {
      var p :| IsPath(g, p) && p[0] == order[0] && p[|p| - 1] == v;
      ClosedContainsPath(g, order, p);
    }
  }

  /** A spanning tree has one edge fewer than it has vertices. */
  lemma SpanningTreeSize(g: Graph, tree: seq<Edge>, order: seq<int>)
    requires WellFormed(g) && SpanningTree(g, tree, order)
    ensures |tree| == |order| - 1
  {
    var d := Dests(tree);
    DistinctCardinality(d);
    DistinctCardinality(order);
    DestsAreNonRootVertices(g, tree, order);
    var oset := set x | x in order;
    assert order[0] in oset;
    assert |oset - {order[0]}| == |oset| - 1;
  }

  /** The destinations of a spanning tree are its vertices other than the root. */
  lemma DestsAreNonRootVertices(g: Graph, tree: seq<Edge>, order: seq<int>)
    requires WellFormed(g) && SpanningTree(g, tree, order)
    ensures (set x | x in Dests(tree)) == (set x | x in order) - {order[0]}
  {
    var d := Dests(tree);
    DestsNonRoot(g, tree, order);
    forall x | x in d ensures x in order && x != order[0] {
      var t :| 0 <= t < |d| && d[t] == x;
    }
    forall x | x in order && x != order[0] ensures x in d {
      var i :| 0 <= i < |order| && order[i] == x;
    }
  }
}
