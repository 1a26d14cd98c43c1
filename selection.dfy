/** The primitives Dijkstra and Prim share: the linear argmin scans `minDist`
    and `minKey`, and the conditional edge update `relax`. */
module Selection {
  import opened Graphs

  /** `r` is what a scan with strict `<`, starting from INT_MAX, picks among the
      vertices below `n` that `done` does not mark: an unmarked vertex with a
      finite value that is no larger than any unmarked value and strictly smaller
      than every unmarked value before it (so the lowest such index). */
  ghost predicate IsFirstMinimum(vals: seq<int32>, done: seq<bool>, n: int, r: int)
    requires 0 <= n <= |vals| && n <= |done|
  {
    0 <= r < n && !done[r] && vals[r] as int < INT_MAX &&
    (forall i :: 0 <= i < n && !done[i] ==> vals[r] <= vals[i]) &&
    (forall i :: 0 <= i < r && !done[i] ==> vals[r] < vals[i])
  }

  /** Every unmarked vertex below `n` holds the sentinel INT_MAX. */
  ghost predicate NoneFinite(vals: seq<int32>, done: seq<bool>, n: int)
    requires 0 <= n <= |vals| && n <= |done|
  {
    forall i :: 0 <= i < n && !done[i] ==> vals[i] as int == INT_MAX
  }

  /** `minDist`: the unfinalised vertex with the smallest distance, or -1. */
  method MinDist(dist: array<int32>, shortestPaths: array<bool>, vertices: int) returns (index: int)
    requires 0 <= vertices <= dist.Length && vertices <= shortestPaths.Length
    ensures index == -1 <==> NoneFinite(dist[..], shortestPaths[..], vertices)
    ensures index != -1 ==> IsFirstMinimum(dist[..], shortestPaths[..], vertices, index)
  {
    var min: int32 := INT_MAX as int32;
    index := -1;
    var i := 0;
    while i < vertices
      invariant 0 <= i <= vertices
      invariant index == -1 ==> min as int == INT_MAX && NoneFinite(dist[..], shortestPaths[..], i)
      invariant index != -1 ==> IsFirstMinimum(dist[..], shortestPaths[..], i, index) && min == dist[index]
    {
      if !shortestPaths[i] && dist[i] < min {
        min := dist[i];
        index := i;
      }
      i := i + 1;
    }
  }

  /** `minKey`: the vertex outside the tree with the smallest key, or -1. */
  method MinKey(key: array<int32>, mstSet: array<bool>, vertices: int) returns (minIndex: int)
    requires 0 <= vertices <= key.Length && vertices <= mstSet.Length
    ensures minIndex == -1 <==> NoneFinite(key[..], mstSet[..], vertices)
    ensures minIndex != -1 ==> IsFirstMinimum(key[..], mstSet[..], vertices, minIndex)
  {
    var min: int32 := INT_MAX as int32;
    minIndex := -1;
    var v := 0;
    while v < vertices
      invariant 0 <= v <= vertices
      invariant minIndex == -1 ==> min as int == INT_MAX && NoneFinite(key[..], mstSet[..], v)
      invariant minIndex != -1 ==> IsFirstMinimum(key[..], mstSet[..], v, minIndex) && min == key[minIndex]
    {
      if !mstSet[v] && key[v] < min {
        min := key[v];
        minIndex := v;
      }
      v := v + 1;
    }
  }

  /** Whether `relax(u, v)` acts: there is an edge u -> v and u's distance is finite. */
  ghost predicate Applies(g: Graph, u: int, v: int, du: int32)
    requires 0 <= u < |g.adj|
  {
    HasEdge(g, u, v) && du as int != INT_MAX
  }

  /** The effect of `relax(u, v)` on the distance array `d` and predecessor array
      `p`: only cell `v` of either can change, and it changes (to the distance
      through `u`, with predecessor `u`) exactly when the edge applies and the
      distance through `u` is strictly smaller. */
  ghost predicate Relaxed(g: Graph, u: int, v: int, d: seq<int32>, p: seq<int>, d': seq<int32>, p': seq<int>)
    requires 0 <= u < |g.adj| && 0 <= u < |d| && 0 <= v < |d| && v < |p|
  {
    |d'| == |d| && |p'| == |p| &&
    (forall i :: 0 <= i < |d| && i != v ==> d'[i] == d[i]) &&
    (forall i :: 0 <= i < |p| && i != v ==> p'[i] == p[i]) &&
    RelaxedAt(g, u, v, d, p, d', p')
  }

  /** The effect of `relax(u, v)` on cell `v`: it takes the distance through
      `u`, with predecessor `u`, exactly when the edge applies and that
      distance is strictly smaller; otherwise it keeps its values. */
  ghost predicate RelaxedAt(g: Graph, u: int, v: int, d: seq<int32>, p: seq<int>, d': seq<int32>, p': seq<int>)
    requires 0 <= u < |g.adj| && 0 <= u < |d| && 0 <= v < |d| && v < |p| && |d'| == |d| && |p'| == |p|
  {
    if Applies(g, u, v, d[u]) && d[u] as int + GetWeight(g, u, v) as int < d[v] as int
    then d'[v] as int == d[u] as int + GetWeight(g, u, v) as int && p'[v] == u
    else d'[v] == d[v] && p'[v] == p[v]
  }

  /** `relax(u, v)`: when it applies, `distances[v]` becomes the smaller of itself
      and `distances[u] + getWeight(u, v)`, and `prev[v]` becomes `u` exactly when
      the distance strictly improves; nothing else changes. The caller guarantees
      that the sum does not overflow a C `int`. */
  method Relax(g: Graph, u: int, v: int, distances: array<int32>, prev: array<int>)
    requires WellFormed(g) && 0 <= u < g.vertices && 0 <= v < g.vertices
    requires u < distances.Length && v < distances.Length && v < prev.Length
    requires Applies(g, u, v, distances[u]) ==> FitsInt(distances[u] as int + GetWeight(g, u, v) as int)
    modifies distances, prev
    ensures Relaxed(g, u, v, old(distances[..]), old(prev[..]), distances[..], prev[..])
    ensures !Applies(g, u, v, old(distances[u])) ==> distances[..] == old(distances[..]) && prev[..] == old(prev[..])
    ensures Applies(g, u, v, old(distances[u])) ==>
      distances[v] as int == Min(old(distances[v]) as int, old(distances[u]) as int + GetWeight(g, u, v) as int)
    ensures distances[v] <= old(distances[v])
  {
    if HasEdge(g, u, v) && distances[u] as int != INT_MAX {
      var weight := GetWeight(g, u, v);
      if distances[u] as int + weight as int < distances[v] as int {
        distances[v] := distances[u] + weight;
        prev[v] := u;
      }
    }
  }

  /** What a search that finalises one vertex per round, Dijkstra's or
      Prim's, has established after `rounds` rounds, for the values `vals`
      (distances or keys) and the finalised flags `done`, following edges
      lighter than `cap`: exactly `rounds` vertices are finalised; each
      finalised vertex has a finite value, and so has every vertex an edge
      lighter than `cap` leads to from it; and every vertex with a finite
      value is reachable from `s` along such edges. */
  ghost predicate Frontier(g: Graph, s: int, vals: seq<int32>, done: seq<bool>, rounds: int, cap: int)
    requires WellFormed(g) && |vals| == g.vertices && |done| == g.vertices
  {
    |Indices(done, g.vertices)| == rounds &&
    (forall f :: 0 <= f < g.vertices && done[f] ==> vals[f] as int != INT_MAX) &&
    (forall f, y ::
      (0 <= f < g.vertices && 0 <= y < g.vertices && done[f] && HasEdge(g, f, y) &&
       GetWeight(g, f, y) as int < cap) ==> vals[y] as int != INT_MAX) &&
    (forall x :: 0 <= x < g.vertices && vals[x] as int != INT_MAX ==> ReachableBelow(g, s, x, cap))
  }

  /** Before the first round only `s` has a finite value. */
  lemma FrontierStart(g: Graph, s: int, vals: seq<int32>, done: seq<bool>, cap: int)
    requires WellFormed(g) && |vals| == g.vertices && |done| == g.vertices && 0 <= s < g.vertices
    requires forall x :: 0 <= x < g.vertices ==> !done[x] && (vals[x] as int != INT_MAX <==> x == s)
    ensures Frontier(g, s, vals, done, 0, cap)
  {
    IndicesNone(done, g.vertices);
    ReachableBelowSelf(g, s, cap);
  }

  /** When the search stops, because no unfinalised vertex has a finite value
      or because all vertices but at most one are finalised, the vertices with
      a finite value are exactly those reachable from `s` along edges lighter
      than `cap`. */
  lemma FrontierReach(g: Graph, s: int, vals: seq<int32>, done: seq<bool>, rounds: int, cap: int)
    requires WellFormed(g) && |vals| == g.vertices && |done| == g.vertices && 0 <= s < g.vertices
    requires Frontier(g, s, vals, done, rounds, cap) && vals[s] as int != INT_MAX
    requires NoneFinite(vals, done, g.vertices) || rounds >= g.vertices - 1
    ensures forall v :: 0 <= v < g.vertices ==> (vals[v] as int != INT_MAX <==> ReachableBelow(g, s, v, cap))
  {
    var flags := seq(g.vertices, x requires 0 <= x < g.vertices => vals[x] as int != INT_MAX);
    forall x, y | 0 <= x < g.vertices && 0 <= y < g.vertices && flags[x] && HasEdge(g, x, y) && GetWeight(g, x, y) as int < cap
      ensures flags[y]
    {
      if !done[x] && !done[y] && x != y {
        IndicesMissingTwo(done, g.vertices, x, y);
      }
    }
    forall v | 0 <= v < g.vertices && ReachableBelow(g, s, v, cap)
      ensures flags[v]
    {
      var p :| IsLightPath(g, p, cap) && p[0] == s && p[|p| - 1] == v;
      LightClosedContainsPath(g, flags, cap, p);
    }
  }

  /** `x` is representable as a C `int`: no overflow. */
  predicate FitsInt(x: int)
  {
    -0x8000_0000 <= x <= INT_MAX
  }

  function Min(a: int, b: int): int
  {
    if a <= b then a else b
  }
}
