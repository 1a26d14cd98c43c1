/** Dijkstra's single-source shortest-path tree, with array-scan selection. */
module ShortestPaths {
  import opened Graphs
  import opened Selection
  import opened PredecessorTrees

  /** A weight bound under which no sum of fewer than `n` weights exceeds INT_MAX. */
  function SafeWeight(n: int): (w: int)
    requires n > 0
    ensures 0 <= w && n * w <= INT_MAX
  {
    INT_MAX / n
  }

  /** `k` rounds of at most `w` each stay within `n` rounds of at most `w`. */
  lemma {:induction false} RoundsFit(k: int, n: int, w: int)
    requires 0 <= k <= n && 0 <= w
    ensures k * w <= n * w
    decreases n - k
  {
    if k < n {
      RoundsFit(k + 1, n, w);
      assert (k + 1) * w == k * w + w;
    }
  }

  /** Each of the `n - 1` rounds stays strictly below INT_MAX. */
  lemma NextBound(round: int, n: int, w: int)
    requires 0 <= round && round + 1 < n && w == SafeWeight(n)
    ensures round * w + w == (round + 1) * w < INT_MAX
  {
    RoundsFit(round + 1, n - 1, w);
    assert (n - 1) * w + w == n * w;
  }

  /** What holds of Dijkstra's scratch arrays between steps: `d` distances,
      `fin` the finalised flags, `prev` the predecessors. The start keeps
      distance 0 and no predecessor; exactly the start and the vertices with a
      predecessor have a finite distance, and that distance is the finite
      distance of a finalised predecessor plus the connecting edge's weight;
      no finalised vertex is farther than an unfinalised one; and every finite
      distance is at most `bound`. */
  ghost predicate Invariant(g: Graph, start: int, bound: int, d: seq<int32>, fin: seq<bool>, prev: seq<int>)
    requires WellFormed(g)
  {
    |d| == g.vertices && |fin| == g.vertices && |prev| == g.vertices &&
    0 <= start < g.vertices && d[start] == 0 && prev[start] == -1 &&
    (forall x :: 0 <= x < |d| ==> d[x] >= 0) &&
    (forall x {:trigger prev[x]} :: 0 <= x < |d| ==> (d[x] as int != INT_MAX <==> x == start || prev[x] != -1)) &&
    (forall x :: 0 <= x < |d| && d[x] as int != INT_MAX ==> d[x] as int <= bound) &&
    (forall x {:trigger prev[x]} :: 0 <= x < |d| && prev[x] != -1 ==>
       0 <= prev[x] < g.vertices && fin[prev[x]] && HasEdge(g, prev[x], x) &&
       d[x] as int == d[prev[x]] as int + GetWeight(g, prev[x], x) as int) &&
    (forall f, x :: 0 <= f < |d| && 0 <= x < |d| && fin[f] && !fin[x] ==> d[f] <= d[x])
  }

  /** Finalising the unfinalised vertex of least finite distance keeps the invariant. */
  lemma FinalizeKeepsInvariant(g: Graph, start: int, bound: int, bound': int, d: seq<int32>, fin: seq<bool>, prev: seq<int>, u: int)
    requires WellFormed(g) && Invariant(g, start, bound, d, fin, prev) && bound <= bound'
    requires IsFirstMinimum(d, fin, g.vertices, u)
    ensures Invariant(g, start, bound', d, fin[u := true], prev)
    ensures forall f :: 0 <= f < |d| && fin[u := true][f] ==> d[f] <= d[u]
    ensures 0 <= d[u] as int <= bound
  {
  }

  /** Relaxing every vertex against a finalised `u` that is no nearer than any
      finalised vertex keeps the invariant, with the bound raised by one weight. */
  lemma {:induction false} RelaxKeepsInvariant(g: Graph, start: int, bound: int, w: int,
                                               d: seq<int32>, fin: seq<bool>, prev: seq<int>,
                                               u: int, v: int, d': seq<int32>, prev': seq<int>)
    requires WellFormed(g) && NonNegative(g) && WeightsAtMost(g, w) && w >= 0
    requires Invariant(g, start, bound, d, fin, prev)
    requires 0 <= u < g.vertices && 0 <= v < g.vertices && fin[u] && d[u] as int + w <= bound
    requires forall f :: 0 <= f < |d| && fin[f] ==> d[f] <= d[u]
    requires Relaxed(g, u, v, d, prev, d', prev')
    ensures Invariant(g, start, bound, d', fin, prev')
    ensures d'[u] == d[u] && forall f :: 0 <= f < |d'| && fin[f] ==> d'[f] == d[f]
  {
    GetWeightBounds(g, u, v, w);
    forall x | 0 <= x < |d'| && prev'[x] != -1
      ensures 0 <= prev'[x] < g.vertices && fin[prev'[x]] && HasEdge(g, prev'[x], x) &&
              d'[x] as int == d'[prev'[x]] as int + GetWeight(g, prev'[x], x) as int
    {
      if x != v {
        assert prev'[x] == prev[x];
        assert d'[prev[x]] == d[prev[x]];
      }
    }
  }

  /** `dijkstra`: a tree of predecessor edges rooted at `start`. The ghost
      result `dist` holds the final distance array: a distance is finite
      exactly when its vertex is reachable from the start, and every such
      vertex but the start has exactly one tree edge into it, from a vertex
      whose distance plus the edge's weight is its own; the start has
      distance 0 and no tree edge into it. The ghost result `order` lists the
      reachable vertices, the start first, so that every edge runs from an
      earlier vertex to a later one: the edges form a tree. Every weight is
      at most INT_MAX / vertices, so no relaxation overflows. */
  method Dijkstra(g: Graph, start: int) returns (tree: seq<Edge>, ghost dist: seq<int32>, ghost order: seq<int>)
    requires WellFormed(g) && NonNegative(g)
    requires 0 <= start < g.vertices
    requires WeightsAtMost(g, SafeWeight(g.vertices))
    ensures |dist| == g.vertices && dist[start] == 0
    ensures forall v :: 0 <= v < g.vertices ==> (dist[v] as int != INT_MAX <==> Reachable(g, start, v))
    ensures forall v :: v in Dests(tree) <==> v != start && Reachable(g, start, v)
    ensures Dests(tree) == Indices(Reached(dist, start), g.vertices)
    ensures DistanceEdges(g, dist, tree)
    ensures SpanningTree(g, tree, order) && order[0] == start
    ensures forall v :: v in order <==> Reachable(g, start, v)
    ensures |tree| <= g.vertices - 1
  {
    var vertices := g.vertices;
    var distances, shortestPaths, prev := Initialize(g, start);
    ghost var rounds, finalised := Settle(g, start, distances, shortestPaths, prev);

    dist := distances[..];
    DijkstraReach(g, start, dist, shortestPaths[..], rounds);
    ghost var p := prev[..];
    PredecessorFacts(g, start, rounds * SafeWeight(vertices), dist, shortestPaths[..], p);
    tree := EmitTree(g, start, prev, p);
    PredecessorEdgesDests(g, start, p, dist, vertices);
    PredecessorEdgesAreDistanceEdges(g, start, p, dist, vertices);
    IndicesMissing(Reached(dist, start), vertices, start);
    ReachedDests(g, start, dist, tree);
    FinalFacts(g, start, rounds * SafeWeight(vertices), dist, shortestPaths[..], p);
    PredecessorTree(g, start, dist, shortestPaths[..], p, finalised, tree);
    order := FullOrder(dist, shortestPaths[..], finalised);
  }

  /** The main loop of `dijkstra`: at most `vertices - 1` rounds, each
      finalising the vertex `minDist` picks and relaxing every vertex against
      it, stopping early when `minDist` finds none. On return the invariant
      and the frontier hold, and either no unfinalised vertex has a finite
      distance or all `vertices - 1` rounds ran. */
  method Settle(g: Graph, start: int, distances: array<int32>, shortestPaths: array<bool>, prev: array<int>)
    returns (ghost rounds: int, ghost order: seq<int>)
    requires WellFormed(g) && NonNegative(g) && 0 <= start < g.vertices
    requires WeightsAtMost(g, SafeWeight(g.vertices))
    requires Settling(g, start, SafeWeight(g.vertices), distances[..], shortestPaths[..], prev[..], 0)
    requires Ranked(g, start, shortestPaths[..], prev[..], [])
    modifies distances, shortestPaths, prev
    ensures 0 <= rounds && Settling(g, start, SafeWeight(g.vertices), distances[..], shortestPaths[..], prev[..], rounds)
    ensures Ranked(g, start, shortestPaths[..], prev[..], order)
    ensures NoneFinite(distances[..], shortestPaths[..], g.vertices) || rounds >= g.vertices - 1
  {
    var vertices := g.vertices;
    ghost var w := SafeWeight(vertices);
    var round := 0;
    order := [];
    while round < vertices - 1
      invariant 0 <= round <= vertices - 1
      invariant Settling(g, start, w, distances[..], shortestPaths[..], prev[..], round)
      invariant Ranked(g, start, shortestPaths[..], prev[..], order)
    {
      var u := MinDist(distances, shortestPaths, vertices);
      if u == -1 {
        break;
      }
      ghost var d0, fin0, p0 := distances[..], shortestPaths[..], prev[..];
      FinalizeAndRelax(g, start, w, round, u, distances, shortestPaths, prev);
      RoundFacts(g, start, round * w, d0, fin0, p0, u);
      PredecessorsKept(g, w, d0, fin0, p0, u, distances[..], prev[..]);
      RankStep(g, start, d0, fin0, p0, order, u, prev[..]);
      order := order + [u];
      round := round + 1;
    }
    rounds := round;
  }

  /** The state of `dijkstra`'s arrays after `rounds` rounds, with every
      weight at most `w`: the invariant, with finite distances at most
      `rounds * w`, and the frontier. */
  ghost predicate Settling(g: Graph, start: int, w: int, d: seq<int32>, fin: seq<bool>, p: seq<int>, rounds: int)
    requires WellFormed(g)
  {
    Invariant(g, start, rounds * w, d, fin, p) &&
    Frontier(g, start, d, fin, rounds, INT_MAX + 1)
  }

  /** What one round needs of the invariant to extend the finalisation order. */
  lemma RoundFacts(g: Graph, start: int, bound: int, d: seq<int32>, fin: seq<bool>, p: seq<int>, u: int)
    requires WellFormed(g) && Invariant(g, start, bound, d, fin, p) && IsFirstMinimum(d, fin, g.vertices, u)
    ensures ReachedIffPredecessor(g, start, p, d) && PredecessorsFinalised(g, fin, p)
    ensures forall f :: 0 <= f < g.vertices && fin[f] ==> d[f] <= d[u]
  {
  }

  /** Relaxing against `u`, no nearer than any finalised vertex, changes the
      predecessor of no vertex finalised with it: the distance through `u`
      never strictly improves on theirs. */
  lemma PredecessorsKept(g: Graph, w: int, d: seq<int32>, fin: seq<bool>, p: seq<int>,
                         u: int, d': seq<int32>, p': seq<int>)
    requires WellFormed(g) && NonNegative(g) && WeightsAtMost(g, w) && w >= 0 && 0 <= u < g.vertices
    requires |d| == g.vertices && |fin| == g.vertices && |p| == g.vertices && |d'| == g.vertices && |p'| == g.vertices
    requires forall f :: 0 <= f < g.vertices && fin[f] ==> d[f] <= d[u]
    requires forall v :: 0 <= v < g.vertices ==> RelaxedAt(g, u, v, d, p, d', p')
    ensures forall x :: 0 <= x < g.vertices && fin[u := true][x] ==> p'[x] == p[x]
  {
    forall x | 0 <= x < g.vertices && fin[u := true][x]
      ensures p'[x] == p[x]
    {
      assert RelaxedAt(g, u, x, d, p, d', p');
      GetWeightBounds(g, u, x, w);
    }
  }

  /** The facts about predecessors the invariant holds that the finished
      tree needs. */
  lemma FinalFacts(g: Graph, start: int, bound: int, d: seq<int32>, fin: seq<bool>, p: seq<int>)
    requires WellFormed(g) && Invariant(g, start, bound, d, fin, p)
    ensures ReachedIffPredecessor(g, start, p, d) && PredecessorsFinalised(g, fin, p)
    ensures forall x {:trigger p[x]} :: 0 <= x < g.vertices && p[x] != -1 ==> HasEdge(g, p[x], x)
  {
  }

  /** When exactly the reachable vertices have a finite distance, the output
      loop writes an edge into exactly the reachable vertices other than the
      start. */
  lemma ReachedDests(g: Graph, start: int, dist: seq<int32>, tree: seq<Edge>)
    requires WellFormed(g) && |dist| == g.vertices && Dests(tree) == Indices(Reached(dist, start), g.vertices)
    requires forall v :: 0 <= v < g.vertices ==> (dist[v] as int != INT_MAX <==> Reachable(g, start, v))
    requires forall v :: Reachable(g, start, v) ==> 0 <= v < g.vertices
    ensures forall v :: v in Dests(tree) <==> v != start && Reachable(g, start, v)
  {
  }

  /** The initialisation loop of `dijkstra`: every distance INT_MAX, nothing
      finalised, no predecessor; then the start's distance 0. */
  method Initialize(g: Graph, start: int) returns (distances: array<int32>, shortestPaths: array<bool>, prev: array<int>)
    requires WellFormed(g) && 0 <= start < g.vertices
    ensures fresh(distances) && fresh(shortestPaths) && fresh(prev)
    ensures Settling(g, start, SafeWeight(g.vertices), distances[..], shortestPaths[..], prev[..], 0)
    ensures forall x :: 0 <= x < g.vertices ==> !shortestPaths[x]
  {
    var vertices := g.vertices;
    distances := new int32[vertices];
    shortestPaths := new bool[vertices];
    prev := new int[vertices];
    var i := 0;
    while i < vertices
      invariant 0 <= i <= vertices
      invariant forall x :: 0 <= x < i ==> distances[x] as int == INT_MAX && !shortestPaths[x] && prev[x] == -1
    {
      distances[i] := INT_MAX as int32;
      shortestPaths[i] := false;
      prev[i] := -1;
      i := i + 1;
    }
    distances[start] := 0;
    FrontierStart(g, start, distances[..], shortestPaths[..], INT_MAX + 1);
  }

  /** A round that finalises `u`, the unfinalised vertex of least finite
      distance, and relaxes every vertex against it extends the frontier by
      one round: `u`'s neighbours now have finite distances, because the
      distance through `u` stays below INT_MAX, and a distance that became
      finite is reachable through `u`. */
  lemma RoundKeepsFrontier(g: Graph, start: int, bound: int, w: int, d: seq<int32>, fin: seq<bool>, p: seq<int>,
                           u: int, d': seq<int32>, p': seq<int>, rounds: int)
    requires WellFormed(g) && NonNegative(g) && WeightsAtMost(g, w) && w >= 0 && bound + w < INT_MAX
    requires |d| == g.vertices && |fin| == g.vertices && |p| == g.vertices && 0 <= start < g.vertices
    requires Frontier(g, start, d, fin, rounds, INT_MAX + 1)
    requires IsFirstMinimum(d, fin, g.vertices, u) && 0 <= d[u] as int <= bound
    requires |d'| == g.vertices && |p'| == g.vertices
    requires forall v :: 0 <= v < g.vertices ==> RelaxedAt(g, u, v, d, p, d', p')
    ensures Frontier(g, start, d', fin[u := true], rounds + 1, INT_MAX + 1)
  {
    IndicesFlag(fin, g.vertices, u);
    RelaxLowers(g, u, w, d, p, d', p');
    RelaxReaches(g, start, u, d, p, d', p');
  }

  /** Relaxing against `u` raises no distance, and makes every neighbour of
      `u` finite when `u`'s distance plus any weight stays below INT_MAX. */
  lemma RelaxLowers(g: Graph, u: int, w: int, d: seq<int32>, p: seq<int>, d': seq<int32>, p': seq<int>)
    requires WellFormed(g) && NonNegative(g) && WeightsAtMost(g, w) && w >= 0 && 0 <= u < g.vertices
    requires |d| == g.vertices && |p| == g.vertices && |d'| == g.vertices && |p'| == g.vertices
    requires 0 <= d[u] as int && d[u] as int + w < INT_MAX
    requires forall v :: 0 <= v < g.vertices ==> RelaxedAt(g, u, v, d, p, d', p')
    ensures forall y :: 0 <= y < g.vertices ==> d'[y] <= d[y]
    ensures forall y :: 0 <= y < g.vertices && HasEdge(g, u, y) ==> d'[y] as int != INT_MAX
  {
    forall y | 0 <= y < g.vertices
      ensures d'[y] <= d[y]
      ensures HasEdge(g, u, y) ==> d'[y] as int != INT_MAX
    {
      assert RelaxedAt(g, u, y, d, p, d', p');
      GetWeightBounds(g, u, y, w);
    }
  }

  /** A distance that relaxing against `u` made finite belongs to a vertex
      reachable through `u`. */
  lemma RelaxReaches(g: Graph, start: int, u: int, d: seq<int32>, p: seq<int>, d': seq<int32>, p': seq<int>)
    requires WellFormed(g) && 0 <= u < g.vertices
    requires |d| == g.vertices && |p| == g.vertices && |d'| == g.vertices && |p'| == g.vertices
    requires ReachableBelow(g, start, u, INT_MAX + 1)
    requires forall x :: 0 <= x < g.vertices && d[x] as int != INT_MAX ==> ReachableBelow(g, start, x, INT_MAX + 1)
    requires forall v :: 0 <= v < g.vertices ==> RelaxedAt(g, u, v, d, p, d', p')
    ensures forall x :: 0 <= x < g.vertices && d'[x] as int != INT_MAX ==> ReachableBelow(g, start, x, INT_MAX + 1)
  {
    forall x | 0 <= x < g.vertices && d'[x] as int != INT_MAX
      ensures ReachableBelow(g, start, x, INT_MAX + 1)
    {
      assert RelaxedAt(g, u, x, d, p, d', p');
      if d'[x] != d[x] {
        ReachableBelowStep(g, start, u, x, INT_MAX + 1);
      }
    }
  }

  /** When the loop of `dijkstra` stops, the vertices with a finite distance
      are exactly those reachable from the start. */
  lemma DijkstraReach(g: Graph, start: int, d: seq<int32>, fin: seq<bool>, rounds: int)
    requires WellFormed(g) && |d| == g.vertices && |fin| == g.vertices && 0 <= start < g.vertices
    requires Frontier(g, start, d, fin, rounds, INT_MAX + 1) && d[start] as int != INT_MAX
    requires NoneFinite(d, fin, g.vertices) || rounds >= g.vertices - 1
    ensures forall v :: 0 <= v < g.vertices ==> (d[v] as int != INT_MAX <==> Reachable(g, start, v))
    ensures forall v :: Reachable(g, start, v) ==> 0 <= v < g.vertices
  {
    FrontierReach(g, start, d, fin, rounds, INT_MAX + 1);
    forall v
      ensures Reachable(g, start, v) <==> ReachableBelow(g, start, v, INT_MAX + 1)
      ensures Reachable(g, start, v) ==> 0 <= v < g.vertices
    {
      ReachableAnyWeight(g, start, v);
    }
  }

  /** The facts about predecessors the invariant holds, on their own. */
  lemma PredecessorFacts(g: Graph, start: int, bound: int, d: seq<int32>, fin: seq<bool>, prev: seq<int>)
    requires WellFormed(g) && Invariant(g, start, bound, d, fin, prev)
    ensures PredecessorRange(g, prev) && PredecessorsOk(g, start, prev, d)
  {
  }

  /** One round of `dijkstra`, the `rounds`-th of at most `vertices - 1`,
      after `minDist` picked `u`: finalise `u`, then relax every vertex
      against it. Each distance takes what relaxing it against `u` gives, and
      the arrays are settled one round further. */
  method FinalizeAndRelax(g: Graph, start: int, ghost w: int, ghost rounds: int, u: int,
                          distances: array<int32>, shortestPaths: array<bool>, prev: array<int>)
    requires WellFormed(g) && NonNegative(g) && 0 <= rounds && rounds + 1 < g.vertices
    requires w == SafeWeight(g.vertices) && WeightsAtMost(g, w)
    requires Settling(g, start, w, distances[..], shortestPaths[..], prev[..], rounds)
    requires IsFirstMinimum(distances[..], shortestPaths[..], g.vertices, u)
    modifies distances, shortestPaths, prev
    ensures Settling(g, start, w, distances[..], shortestPaths[..], prev[..], rounds + 1)
    ensures shortestPaths[..] == old(shortestPaths[..])[u := true]
    ensures forall v :: 0 <= v < g.vertices ==> RelaxedAt(g, u, v, old(distances[..]), old(prev[..]), distances[..], prev[..])
  {
    NextBound(rounds, g.vertices, w);
    ghost var bound := rounds * w;
    ghost var d0, fin0, p0 := distances[..], shortestPaths[..], prev[..];
    FinalizeKeepsInvariant(g, start, bound, bound + w, d0, fin0, p0, u);
    shortestPaths[u] := true;
    assert shortestPaths[..] == fin0[u := true];
    RelaxAll(g, start, bound + w, w, u, distances, shortestPaths, prev);
    RoundKeepsFrontier(g, start, bound, w, d0, fin0, p0, u, distances[..], prev[..], rounds);
  }

  /** The relaxation loop of one round: `relax(u, v)` for every vertex `v`,
      after `u` has been finalised. It keeps the invariant, and leaves every
      finalised distance as it was. */
  method RelaxAll(g: Graph, start: int, ghost bound: int, ghost w: int, u: int,
                  distances: array<int32>, shortestPaths: array<bool>, prev: array<int>)
    requires WellFormed(g) && NonNegative(g) && WeightsAtMost(g, w) && w >= 0
    requires Invariant(g, start, bound, distances[..], shortestPaths[..], prev[..])
    requires 0 <= u < g.vertices && shortestPaths[u] && distances[u] as int + w <= bound <= INT_MAX
    requires forall f :: 0 <= f < g.vertices && shortestPaths[f] ==> distances[f] <= distances[u]
    modifies distances, prev
    ensures Invariant(g, start, bound, distances[..], shortestPaths[..], prev[..])
    ensures forall v :: 0 <= v < g.vertices ==> RelaxedAt(g, u, v, old(distances[..]), old(prev[..]), distances[..], prev[..])
    ensures forall f :: 0 <= f < g.vertices && shortestPaths[f] ==> distances[f] == old(distances[f])
  {
    ghost var d, fin, p := distances[..], shortestPaths[..], prev[..];
    RelaxingStart(g, start, bound, w, u, d, fin, p);
    var v := 0;
    while v < g.vertices
      invariant 0 <= v <= g.vertices && shortestPaths[..] == fin
      invariant Relaxing(g, start, bound, w, u, d, fin, p, distances[..], prev[..], v)
    {
      ghost var d0, p0 := distances[..], prev[..];
      Relax(g, u, v, distances, prev);
      RelaxingStep(g, start, bound, w, u, d, fin, p, d0, p0, distances[..], prev[..], v);
      v := v + 1;
    }
  }

  /** The state of `dijkstra`'s relaxing loop over `u`, from the arrays `d`
      and `p`, before relaxing `v`: the invariant holds, the finalised
      distances are as in `d`, and every vertex below `v` has been relaxed. */
  ghost predicate Relaxing(g: Graph, start: int, bound: int, w: int, u: int, d: seq<int32>, fin: seq<bool>, p: seq<int>,
                           d': seq<int32>, p': seq<int>, v: int)
    requires WellFormed(g) && 0 <= u < g.vertices && 0 <= v <= g.vertices
  {
    Invariant(g, start, bound, d, fin, p) && Invariant(g, start, bound, d', fin, p') &&
    fin[u] && 0 <= d[u] as int && d[u] as int + w <= bound &&
    (forall f :: 0 <= f < g.vertices && fin[f] ==> d[f] <= d[u]) &&
    (forall f :: 0 <= f < g.vertices && fin[f] ==> d'[f] == d[f]) &&
    RelaxedUpTo(g, u, d, p, d', p', v)
  }

  /** Before the first `relax`, nothing has been relaxed yet. */
  lemma RelaxingStart(g: Graph, start: int, bound: int, w: int, u: int, d: seq<int32>, fin: seq<bool>, p: seq<int>)
    requires WellFormed(g) && NonNegative(g) && w >= 0
    requires Invariant(g, start, bound, d, fin, p)
    requires 0 <= u < g.vertices && fin[u] && d[u] as int + w <= bound <= INT_MAX
    requires forall f :: 0 <= f < g.vertices && fin[f] ==> d[f] <= d[u]
    ensures Relaxing(g, start, bound, w, u, d, fin, p, d, p, 0)
  {
    assert d[0..] == d && p[0..] == p;
  }

  /** One more `relax(u, v)` keeps the relaxing loop's state. */
  lemma RelaxingStep(g: Graph, start: int, bound: int, w: int, u: int, d: seq<int32>, fin: seq<bool>, p: seq<int>,
                     d0: seq<int32>, p0: seq<int>, d1: seq<int32>, p1: seq<int>, v: int)
    requires WellFormed(g) && NonNegative(g) && WeightsAtMost(g, w) && w >= 0 && 0 <= u < g.vertices && 0 <= v < g.vertices
    requires Relaxing(g, start, bound, w, u, d, fin, p, d0, p0, v)
    requires Relaxed(g, u, v, d0, p0, d1, p1)
    ensures Relaxing(g, start, bound, w, u, d, fin, p, d1, p1, v + 1)
  {
    RelaxKeepsInvariant(g, start, bound, w, d0, fin, p0, u, v, d1, p1);
    RelaxedUpToStep(g, u, d, p, d0, p0, d1, p1, v);
  }

  /** After `relax(u, x)` for every `x` below `v`, starting from the arrays
      `d` and `p`: those cells hold what relaxing them from `d` and `p` gives,
      and the others still hold their values in `d` and `p`. */
  ghost predicate RelaxedUpTo(g: Graph, u: int, d: seq<int32>, p: seq<int>, d': seq<int32>, p': seq<int>, v: int)
    requires 0 <= u < |g.adj| && 0 <= u < |d| && |p| == |d| && |d'| == |d| && |p'| == |p| && 0 <= v <= |d|
  {
    (forall x :: 0 <= x < v ==> RelaxedAt(g, u, x, d, p, d', p')) &&
    d'[v..] == d[v..] && p'[v..] == p[v..]
  }

  /** `relax(u, v)` on arrays relaxed up to `v`, with `u`'s distance as it
      was, relaxes them up to `v + 1`. */
  lemma RelaxedUpToStep(g: Graph, u: int, d: seq<int32>, p: seq<int>, d0: seq<int32>, p0: seq<int>,
                        d1: seq<int32>, p1: seq<int>, v: int)
    requires 0 <= u < |g.adj| && 0 <= u < |d| && |p| == |d| && |d0| == |d| && |p0| == |p| && 0 <= v < |d|
    requires RelaxedUpTo(g, u, d, p, d0, p0, v) && d0[u] == d[u]
    requires Relaxed(g, u, v, d0, p0, d1, p1)
    ensures |d1| == |d| && |p1| == |p| && RelaxedUpTo(g, u, d, p, d1, p1, v + 1)
  {
    assert RelaxedAt(g, u, v, d0, p0, d1, p1);
    assert d0[v] == d0[v..][0] == d[v..][0] == d[v];
    assert p0[v] == p0[v..][0] == p[v..][0] == p[v];
    assert d1[v + 1..] == d0[v + 1..] == d0[v..][1..] == d[v..][1..] == d[v + 1..];
    assert p1[v + 1..] == p0[v + 1..] == p0[v..][1..] == p[v..][1..] == p[v + 1..];
    forall x | 0 <= x < v
      ensures RelaxedAt(g, u, x, d, p, d1, p1)
    {
      assert RelaxedAt(g, u, x, d, p, d0, p0);
    }
  }

  /** The output loop of `dijkstra`: one edge `(prev[v], v, getWeight(prev[v], v))`
      per vertex `v` other than the start that has a predecessor, in increasing
      order of `v`. */
  method EmitTree(g: Graph, start: int, prev: array<int>, ghost p: seq<int>) returns (tree: seq<Edge>)
    requires WellFormed(g) && prev[..] == p && PredecessorRange(g, p)
    ensures tree == PredecessorEdges(g, start, p, g.vertices)
  {
    var vertices := g.vertices;
    tree := [];
    var v := 0;
    while v < vertices
      invariant 0 <= v <= vertices
      invariant tree == PredecessorEdges(g, start, p, v)
    {
      assert prev[v] == p[v];
      if v != start && prev[v] != -1 {
        tree := tree + [Edge(prev[v], v, GetWeight(g, prev[v], v))];
      }
      v := v + 1;
    }
  }

  /** Given the predecessor facts, every predecessor edge is a shortest-path tree edge. */
  lemma {:induction false} PredecessorEdgesAreDistanceEdges(g: Graph, start: int, p: seq<int>, dist: seq<int32>, k: int)
    requires WellFormed(g) && PredecessorRange(g, p) && |dist| == g.vertices
    requires 0 <= k <= g.vertices && PredecessorsOk(g, start, p, dist)
    ensures DistanceEdges(g, dist, PredecessorEdges(g, start, p, k))
  {
    if k > 0 {
      var v := k - 1;
      var tree := PredecessorEdges(g, start, p, v);
      PredecessorEdgesAreDistanceEdges(g, start, p, dist, v);
      if v != start && p[v] != -1 {
        var e := Edge(p[v], v, GetWeight(g, p[v], v));
        assert TreeEdge(g, dist, e);
        assert forall i :: 0 <= i < |tree| ==> (tree + [e])[i] == tree[i];
      }
    }
  }

  /** What Dijkstra's predecessor array `p` says about the distances `dist`:
      exactly the start and the vertices with a predecessor have a finite
      distance, and a predecessor is joined to its vertex by a graph edge whose
      weight is the difference of their distances. */
  ghost predicate PredecessorsOk(g: Graph, start: int, p: seq<int>, dist: seq<int32>)
    requires WellFormed(g) && |p| == g.vertices == |dist|
  {
    ReachedIffPredecessor(g, start, p, dist) &&
    (forall x {:trigger p[x]} :: 0 <= x < g.vertices && p[x] != -1 ==>
       0 <= p[x] < g.vertices && HasEdge(g, p[x], x) &&
       dist[x] as int == dist[p[x]] as int + GetWeight(g, p[x], x) as int)
  }

  /** Every edge of `tree` is a shortest-path tree edge. */
  ghost predicate DistanceEdges(g: Graph, dist: seq<int32>, tree: seq<Edge>)
    requires WellFormed(g) && |dist| == g.vertices
  {
    forall i :: 0 <= i < |tree| ==> TreeEdge(g, dist, tree[i])
  }

  /** A shortest-path tree edge: a graph edge, weighted as the graph weighs it,
      whose weight is the difference of its endpoints' distances. */
  ghost predicate TreeEdge(g: Graph, dist: seq<int32>, e: Edge)
    requires WellFormed(g) && |dist| == g.vertices
  {
    0 <= e.src < g.vertices && 0 <= e.dest < g.vertices &&
    HasEdge(g, e.src, e.dest) && e.weight == GetWeight(g, e.src, e.dest) &&
    dist[e.dest] as int == dist[e.src] as int + e.weight as int
  }
}
