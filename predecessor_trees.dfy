/** The predecessor arrays Dijkstra and Prim build, and the output loops that
    turn them into tree edges. */
module PredecessorTrees {
  import opened Graphs

  /** The vertices other than the start whose distance in `d` is finite. */
  ghost function Reached(d: seq<int32>, start: int): (flags: seq<bool>)
    ensures |flags| == |d|
  {
    seq(|d|, x requires 0 <= x < |d| => x != start && d[x] as int != INT_MAX)
  }

  /** Every predecessor is a vertex or -1 (none). */
  ghost predicate PredecessorRange(g: Graph, p: seq<int>)
  {
    |p| == g.vertices && forall x :: 0 <= x < |p| ==> -1 <= p[x] < g.vertices
  }

  /** The edges `(p[v], v, getWeight(p[v], v))` for the vertices `v` below `k`
      other than the start that have a predecessor, in increasing order of `v`. */
  ghost function PredecessorEdges(g: Graph, start: int, p: seq<int>, k: int): seq<Edge>
    requires WellFormed(g) && PredecessorRange(g, p) && 0 <= k <= g.vertices
  {
    if k == 0 then []
    else
      var v := k - 1;
      var rest := PredecessorEdges(g, start, p, v);
      if v != start && p[v] != -1 then rest + [Edge(p[v], v, GetWeight(g, p[v], v))] else rest
  }

  /** Exactly the vertices other than `start` with a predecessor have a finite
      value in `d` (`start` itself is finite). */
  ghost predicate ReachedIffPredecessor(g: Graph, start: int, p: seq<int>, d: seq<int32>)
    requires |p| == g.vertices == |d|
  {
    forall x {:trigger p[x]} :: 0 <= x < g.vertices ==> (d[x] as int != INT_MAX <==> x == start || p[x] != -1)
  }

  /** When exactly the vertices with a predecessor are reached, the predecessor edges below `k` go into
      exactly the reached vertices below `k`, in increasing order. */
  lemma {:induction false} PredecessorEdgesDests(g: Graph, start: int, p: seq<int>, dist: seq<int32>, k: int)
    requires WellFormed(g) && 0 <= start < g.vertices && PredecessorRange(g, p) && |dist| == g.vertices
    requires 0 <= k <= g.vertices && ReachedIffPredecessor(g, start, p, dist)
    ensures Dests(PredecessorEdges(g, start, p, k)) == Indices(Reached(dist, start), k)
  {
    if k > 0 {
      var v := k - 1;
      var tree := PredecessorEdges(g, start, p, v);
      PredecessorEdgesDests(g, start, p, dist, v);
      var reached := Reached(dist, start);
      IndicesStep(reached, v);
      assert reached[v] == (v != start && p[v] != -1);
      if v != start && p[v] != -1 {
        var e := Edge(p[v], v, GetWeight(g, p[v], v));
        assert PredecessorEdges(g, start, p, k) == tree + [e];
        DestsAppend(tree, e);
      } else {
        assert PredecessorEdges(g, start, p, k) == tree;
      }
    }
  }

  // ---------------------------------------------------------------------------
  // The order in which a search finalises its vertices
  // ---------------------------------------------------------------------------

  /** Every vertex with a predecessor has a finalised one. */
  ghost predicate PredecessorsFinalised(g: Graph, fin: seq<bool>, p: seq<int>)
    requires |fin| == g.vertices && |p| == g.vertices
  {
    forall x {:trigger p[x]} :: 0 <= x < g.vertices && p[x] != -1 ==> 0 <= p[x] < g.vertices && fin[p[x]]
  }

  /** The order in which Dijkstra or Prim finalised its vertices: each
      finalised vertex once, the start first, and every finalised vertex's
      predecessor finalised before it. */
  ghost predicate Ranked(g: Graph, start: int, fin: seq<bool>, p: seq<int>, order: seq<int>)
    requires WellFormed(g) && |fin| == g.vertices && |p| == g.vertices
  {
    Distinct(order) &&
    (forall i :: 0 <= i < |order| ==> 0 <= order[i] < g.vertices) &&
    (forall x :: 0 <= x < g.vertices ==> (fin[x] <==> x in order)) &&
    (order != [] ==> order[0] == start) &&
    (forall i :: 0 <= i < |order| && p[order[i]] != -1 ==> p[order[i]] in order[..i])
  }

  /** Finalising the unfinalised vertex `u` of finite value, in a round that
      leaves the predecessors of the finalised vertices and of `u` as they
      were, appends `u` to the finalisation order: `u`'s own predecessor was
      finalised already, and the first vertex finalised is the start, the
      only finite one while nothing is finalised. */
  lemma RankStep(g: Graph, start: int, d: seq<int32>, fin: seq<bool>, p: seq<int>,
                 order: seq<int>, u: int, p': seq<int>)
    requires WellFormed(g) && 0 <= start < g.vertices
    requires |d| == g.vertices && |fin| == g.vertices && |p| == g.vertices && |p'| == g.vertices
    requires ReachedIffPredecessor(g, start, p, d) && PredecessorsFinalised(g, fin, p) && Ranked(g, start, fin, p, order)
    requires 0 <= u < g.vertices && !fin[u] && d[u] as int != INT_MAX
    requires forall x :: 0 <= x < g.vertices && fin[u := true][x] ==> p'[x] == p[x]
    ensures Ranked(g, start, fin[u := true], p', order + [u])
  {
    var order' := order + [u];
    if order == [] {
      NothingFinalised(g, start, d, fin, p);
    }
    forall i | 0 <= i < |order'| && p'[order'[i]] != -1
      ensures p'[order'[i]] in order'[..i]
    {
      if i < |order| {
        assert order'[..i] == order[..i];
      } else {
        assert order'[..i] == order;
      }
    }
  }

  /** While no vertex is finalised no vertex has a predecessor, so the start
      is the only vertex with a finite value. */
  lemma NothingFinalised(g: Graph, start: int, d: seq<int32>, fin: seq<bool>, p: seq<int>)
    requires |d| == g.vertices && |fin| == g.vertices && |p| == g.vertices
    requires ReachedIffPredecessor(g, start, p, d) && PredecessorsFinalised(g, fin, p)
    requires forall f :: 0 <= f < g.vertices ==> !fin[f]
    ensures forall x :: 0 <= x < g.vertices && x != start ==> d[x] as int == INT_MAX
  {
    forall x | 0 <= x < g.vertices && x != start
      ensures d[x] as int == INT_MAX
    {
      assert p[x] == -1;
    }
  }

  /** The vertices with a finite value that are not finalised. */
  ghost function Pending(d: seq<int32>, fin: seq<bool>): (flags: seq<bool>)
    requires |fin| == |d|
    ensures |flags| == |d|
  {
    seq(|d|, x requires 0 <= x < |d| => !fin[x] && d[x] as int != INT_MAX)
  }

  /** The finalisation order followed by the vertices with a finite value
      that were never finalised. */
  ghost function FullOrder(d: seq<int32>, fin: seq<bool>, order: seq<int>): seq<int>
    requires |fin| == |d|
  {
    order + Indices(Pending(d, fin), |d|)
  }

  /** An edge the output loop writes goes into a vertex other than the start
      that has a predecessor, from that predecessor. */
  lemma {:induction false} PredecessorEdgesMember(g: Graph, start: int, p: seq<int>, k: int, e: Edge)
    requires WellFormed(g) && PredecessorRange(g, p) && 0 <= k <= g.vertices
    requires e in PredecessorEdges(g, start, p, k)
    ensures 0 <= e.dest < k && e.dest != start && p[e.dest] != -1 && e.src == p[e.dest]
  {
    var v := k - 1;
    if e !in PredecessorEdges(g, start, p, v) {
      assert v != start && p[v] != -1 && e == Edge(p[v], v, GetWeight(g, p[v], v));
    } else {
      PredecessorEdgesMember(g, start, p, v, e);
    }
  }

  /** When the rounds stop, the predecessor edges form a tree rooted at the
      start: listing the finalised vertices in the order they were finalised,
      then the other vertices with a finite value, every edge runs from an
      earlier vertex to a later one, and every listed vertex but the start
      has exactly one edge into it. */
  lemma PredecessorTree(g: Graph, start: int, d: seq<int32>, fin: seq<bool>, p: seq<int>, order: seq<int>, tree: seq<Edge>)
    requires WellFormed(g) && 0 <= start < g.vertices && |d| == g.vertices && |fin| == g.vertices
    requires PredecessorRange(g, p) && ReachedIffPredecessor(g, start, p, d)
    requires PredecessorsFinalised(g, fin, p) && Ranked(g, start, fin, p, order)
    requires forall x {:trigger p[x]} :: 0 <= x < g.vertices && p[x] != -1 ==> HasEdge(g, p[x], x)
    requires forall f :: 0 <= f < g.vertices && fin[f] ==> d[f] as int != INT_MAX
    requires tree == PredecessorEdges(g, start, p, g.vertices)
    requires Dests(tree) == Indices(Reached(d, start), g.vertices)
    ensures SpanningTree(g, tree, FullOrder(d, fin, order)) && FullOrder(d, fin, order)[0] == start
    ensures forall v :: v in FullOrder(d, fin, order) <==> 0 <= v < g.vertices && d[v] as int != INT_MAX
  {
    var full := FullOrder(d, fin, order);
    FullOrderVertices(g, start, d, fin, p, order);
    FullOrderStart(g, start, d, fin, p, order);
    forall e | e in tree
      ensures 0 <= e.src < g.vertices && HasEdge(g, e.src, e.dest) && Precedes(full, e.src, e.dest)
    {
      PredecessorEdgesMember(g, start, p, g.vertices, e);
      PredecessorPrecedes(g, start, d, fin, p, order, e.dest);
    }
    forall i | 1 <= i < |full| ensures full[i] in Dests(tree) {
      assert full[i] in full && full[i] != full[0];
      assert Reached(d, start)[full[i]];
    }
  }

  /** The full order lists each vertex with a finite value once. */
  lemma FullOrderVertices(g: Graph, start: int, d: seq<int32>, fin: seq<bool>, p: seq<int>, order: seq<int>)
    requires WellFormed(g) && |d| == g.vertices && |fin| == g.vertices && |p| == g.vertices
    requires Ranked(g, start, fin, p, order)
    requires forall f :: 0 <= f < g.vertices && fin[f] ==> d[f] as int != INT_MAX
    ensures Distinct(FullOrder(d, fin, order))
    ensures forall v :: v in FullOrder(d, fin, order) <==> 0 <= v < g.vertices && d[v] as int != INT_MAX
  {
    var tail := Indices(Pending(d, fin), |d|);
    var full := FullOrder(d, fin, order);
    forall v ensures v in full <==> 0 <= v < g.vertices && d[v] as int != INT_MAX {
      assert v in full <==> v in order || v in tail;
    }
    forall i, j | 0 <= i < j < |full| ensures full[i] != full[j] {
      if j >= |order| && i < |order| {
        var t := j - |order|;
        assert full[j] == tail[t] && tail[t] in tail && Pending(d, fin)[tail[t]];
        assert full[i] == order[i] && order[i] in order;
      }
    }
  }

  /** The full order starts with the start: either it was finalised first,
      or nothing was finalised and it is the only vertex with a finite value. */
  lemma FullOrderStart(g: Graph, start: int, d: seq<int32>, fin: seq<bool>, p: seq<int>, order: seq<int>)
    requires WellFormed(g) && 0 <= start < g.vertices && |d| == g.vertices && |fin| == g.vertices && |p| == g.vertices
    requires ReachedIffPredecessor(g, start, p, d) && PredecessorsFinalised(g, fin, p) && Ranked(g, start, fin, p, order)
    ensures |FullOrder(d, fin, order)| >= 1 && FullOrder(d, fin, order)[0] == start
  {
    if order == [] {
      var tail := Indices(Pending(d, fin), |d|);
      NothingFinalised(g, start, d, fin, p);
      assert !fin[start] && p[start] == -1;
      assert Pending(d, fin)[start];
      assert tail[0] in tail;
      assert FullOrder(d, fin, order) == tail;
    }
  }

  /** The predecessor of a vertex with one comes before it in the full order. */
  lemma PredecessorPrecedes(g: Graph, start: int, d: seq<int32>, fin: seq<bool>, p: seq<int>,
                            order: seq<int>, v: int)
    requires WellFormed(g) && |d| == g.vertices && |fin| == g.vertices && |p| == g.vertices
    requires ReachedIffPredecessor(g, start, p, d) && PredecessorsFinalised(g, fin, p) && Ranked(g, start, fin, p, order)
    requires 0 <= v < g.vertices && p[v] != -1
    ensures Precedes(FullOrder(d, fin, order), p[v], v)
  {
    var full := FullOrder(d, fin, order);
    var tail := Indices(Pending(d, fin), |d|);
    assert fin[p[v]] && p[v] in order;
    if fin[v] {
      var b :| 0 <= b < |order| && order[b] == v;
      assert p[order[b]] in order[..b];
      var a :| 0 <= a < b && order[a] == p[v];
      assert full[a] == p[v] && full[b] == v;
    } else {
      var a :| 0 <= a < |order| && order[a] == p[v];
      assert v in tail;
      var b :| 0 <= b < |tail| && tail[b] == v;
      assert full[a] == p[v] && full[|order| + b] == v;
    }
  }
}
