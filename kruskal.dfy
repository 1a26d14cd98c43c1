/** `kruskalMST`: collect each undirected edge once, sort the edges by weight,
    and accept them greedily while they join two different union-find classes,
    up to `vertices - 1` edges. */
module Kruskal {
  import opened Graphs
  import opened DisjointSets
  import opened Forests
  import opened EdgeSort

  /** The entries `0..k-1` of vertex `u`'s adjacency list that lead to a higher
      vertex, as edges from `u`, in list order. */
  function ForwardEdges(u: int, list: seq<Neighbor>, k: int): seq<Edge>
    requires 0 <= k <= |list|
  {
    if k == 0 then []
    else
      var nb := list[k - 1];
      ForwardEdges(u, list, k - 1) + (if u < nb.vertex then [Edge(u, nb.vertex, nb.data)] else [])
  }

  /** The undirected edges registered at the vertices `0..i-1`, each taken once,
      at its smaller endpoint: the array Kruskal's algorithm builds, in the
      order it builds it. */
  function UniqueEdges(g: Graph, i: int): seq<Edge>
    requires 0 <= i <= |g.adj|
  {
    if i == 0 then []
    else UniqueEdges(g, i - 1) + ForwardEdges(i - 1, g.adj[i - 1], |g.adj[i - 1]|)
  }

  /** An edge is collected from a prefix of `u`'s list exactly when one of those
      entries leads from `u` to a higher vertex with its weight. */
  lemma {:induction false} ForwardEdgesExactly(u: int, list: seq<Neighbor>, k: int, e: Edge)
    requires 0 <= k <= |list|
    ensures e in ForwardEdges(u, list, k) <==> e.src == u && u < e.dest && Neighbor(e.dest, e.weight) in list[..k]
  {
    if k > 0 {
      ForwardEdgesExactly(u, list, k - 1, e);
      assert list[..k] == list[..k - 1] + [list[k - 1]];
    }
  }

  /** The collected edges are exactly the adjacency entries `(src, dest, weight)`
      of the vertices below `i` with `src < dest`. */
  lemma {:induction false} UniqueEdgesExactly(g: Graph, i: int, e: Edge)
    requires 0 <= i <= |g.adj|
    ensures e in UniqueEdges(g, i) <==>
      0 <= e.src < i && e.src < e.dest && Neighbor(e.dest, e.weight) in g.adj[e.src]
  {
    if i > 0 {
      UniqueEdgesExactly(g, i - 1, e);
      var list := g.adj[i - 1];
      ForwardEdgesExactly(i - 1, list, |list|, e);
      assert list[..|list|] == list;
    }
  }

  /** Collecting from more of a list never yields fewer edges. */
  lemma {:induction false} ForwardEdgesGrow(u: int, list: seq<Neighbor>, k: int, m: int)
    requires 0 <= k <= m <= |list|
    ensures |ForwardEdges(u, list, k)| <= |ForwardEdges(u, list, m)|
    decreases m - k
  {
    if k < m {
      ForwardEdgesGrow(u, list, k, m - 1);
    }
  }

  /** Collecting from more vertices never yields fewer edges. */
  lemma {:induction false} UniqueEdgesGrow(g: Graph, i: int, m: int)
    requires 0 <= i <= m <= |g.adj|
    ensures |UniqueEdges(g, i)| <= |UniqueEdges(g, m)|
    decreases m - i
  {
    if i < m {
      UniqueEdgesGrow(g, i, m - 1);
    }
  }

  /** Every position the collecting pass writes lies below the count of the
      counting pass. */
  lemma CollectBound(g: Graph, i: int, k: int)
    requires 0 <= i < |g.adj| && 0 <= k <= |g.adj[i]|
    ensures |UniqueEdges(g, i)| + |ForwardEdges(i, g.adj[i], k)| <= |UniqueEdges(g, |g.adj|)|
  {
    ForwardEdgesGrow(i, g.adj[i], k, |g.adj[i]|);
    UniqueEdgesGrow(g, i + 1, |g.adj|);
    assert UniqueEdges(g, i + 1) == UniqueEdges(g, i) + ForwardEdges(i, g.adj[i], |g.adj[i]|);
  }

  /** The counting pass of `kruskalMST`: the number of edges it will collect. */
  method CountEdges(g: Graph) returns (edgeCount: int)
    requires WellFormed(g)
    ensures edgeCount == |UniqueEdges(g, g.vertices)|
  {
    edgeCount := 0;
    var i := 0;
    while i < g.vertices
      invariant 0 <= i <= g.vertices
      invariant edgeCount == |UniqueEdges(g, i)|
    {
      var list := g.adj[i];
      var k := 0;
      while k < |list|
        invariant 0 <= k <= |list|
        invariant edgeCount == |UniqueEdges(g, i)| + |ForwardEdges(i, list, k)|
      {
        if i < list[k].vertex {
          edgeCount := edgeCount + 1;
        }
        k := k + 1;
      }
      i := i + 1;
    }
  }

  /** The collecting pass of `kruskalMST`: a fresh array of `edgeCount` edges
      holding the collected edges in order. */
  method CollectEdges(g: Graph, edgeCount: int) returns (edges: array<Edge>)
    requires WellFormed(g) && edgeCount == |UniqueEdges(g, g.vertices)|
    ensures fresh(edges) && edges[..] == UniqueEdges(g, g.vertices)
  {
    edges := new Edge[edgeCount];
    var index := 0;
    var i := 0;
    while i < g.vertices
      invariant 0 <= i <= g.vertices && 0 <= index <= edgeCount
      invariant edges[..index] == UniqueEdges(g, i)
    {
      var list := g.adj[i];
      var k := 0;
      while k < |list|
        invariant 0 <= k <= |list| && 0 <= index <= edgeCount
        invariant edges[..index] == UniqueEdges(g, i) + ForwardEdges(i, list, k)
      {
        if i < list[k].vertex {
          CollectBound(g, i, k + 1);
          edges[index] := Edge(i, list[k].vertex, list[k].data);
          index := index + 1;
        }
        k := k + 1;
      }
      i := i + 1;
    }
    assert edges[..] == edges[..index];
  }

  /** `kruskalMST(graph)`: the accepted edges, in the order they are added to
      the output graph. Each is a graph edge, taken once; they come in
      non-decreasing weight, form a forest, number at most `vertices - 1`, and
      when fewer than `vertices - 1` were accepted they connect the endpoints
      of every collected edge, and so, in a graph that registers each edge at
      both ends, of every graph edge. */
  method KruskalMST(g: Graph) returns (mst: seq<Edge>)
    requires WellFormed(g)
    ensures g.vertices == 0 ==> mst == []
    ensures g.vertices > 0 ==> |mst| <= g.vertices - 1
    ensures forall k :: 0 <= k < |mst| ==> mst[k] in UniqueEdges(g, g.vertices)
    ensures forall k, l :: 0 <= k < l < |mst| ==> mst[k].weight <= mst[l].weight
    ensures Acyclic(g.vertices, mst)
    ensures |mst| < g.vertices - 1 ==>
      forall e :: e in UniqueEdges(g, g.vertices) ==> Connected(g.vertices, mst, e.src, e.dest)
    ensures Undirected(g) && |mst| < g.vertices - 1 ==>
      forall u, v :: 0 <= u < g.vertices && 0 <= v < g.vertices && HasEdge(g, u, v) ==> Connected(g.vertices, mst, u, v)
  {
    var edgeCount := CountEdges(g);
    var edges := CollectEdges(g, edgeCount);
    ghost var unique := edges[..];
    QuickSort(edges, 0, edgeCount - 1);
    assert multiset(edges[..]) == multiset(unique);
    SortedEdgesInRange(g, edges[..], unique);
    mst := SelectEdges(g.vertices, edges);
    SameElements(edges[..], unique);
    if Undirected(g) && |mst| < g.vertices - 1 {
      ConnectsGraphEdges(g, mst);
    }
  }

  /** In a graph that registers each edge at both ends, a forest connecting
      the ends of every collected edge connects the ends of every graph edge:
      an edge to a lower vertex is collected from the other end. */
  lemma ConnectsGraphEdges(g: Graph, mst: seq<Edge>)
    requires WellFormed(g) && Undirected(g) && InRange(g.vertices, mst)
    requires forall e :: e in UniqueEdges(g, g.vertices) ==> Connected(g.vertices, mst, e.src, e.dest)
    ensures forall u, v :: 0 <= u < g.vertices && 0 <= v < g.vertices && HasEdge(g, u, v) ==> Connected(g.vertices, mst, u, v)
  {
    var n := g.vertices;
    forall u, v | 0 <= u < n && 0 <= v < n && HasEdge(g, u, v)
      ensures Connected(n, mst, u, v)
    {
      var k :| 0 <= k < |g.adj[u]| && g.adj[u][k].vertex == v;
      var w := g.adj[u][k].data;
      if u < v {
        assert Neighbor(v, w) in g.adj[u];
        UniqueEdgesExactly(g, n, Edge(u, v, w));
      } else if v < u {
        assert Neighbor(u, w) in g.adj[v];
        UniqueEdgesExactly(g, n, Edge(v, u, w));
        LabelsConnected(n, mst, v, u);
        LabelsConnected(n, mst, u, v);
      } else {
        LabelsConnected(n, mst, u, v);
      }
    }
  }

  /** Two sequences with the same multiset hold the same elements. */
  lemma SameElements(s: seq<Edge>, t: seq<Edge>)
    requires multiset(s) == multiset(t)
    ensures forall c :: c in s <==> c in t
  {
    forall c
      ensures c in s <==> c in t
    {
      assert c in s <==> c in multiset(s);
      assert c in t <==> c in multiset(t);
    }
  }

  /** The greedy loop of `kruskalMST` over the sorted edge array: an edge is
      accepted when `find` gives its endpoints different representatives, after
      which their classes are united, until `n - 1` edges are accepted or the
      array is exhausted. The accepted edges come from the array in
      non-decreasing weight and form a forest; when fewer than `n - 1` were
      accepted, they connect the endpoints of every edge of the array. */
  method SelectEdges(n: nat, edges: array<Edge>) returns (mst: seq<Edge>)
    requires InRange(n, edges[..]) && SortedBetween(edges[..], 0, edges.Length - 1)
    ensures n == 0 ==> mst == []
    ensures n > 0 ==> |mst| <= n - 1
    ensures forall k :: 0 <= k < |mst| ==> mst[k] in edges[..]
    ensures forall k, l :: 0 <= k < l < |mst| ==> mst[k].weight <= mst[l].weight
    ensures Acyclic(n, mst)
    ensures |mst| < n - 1 ==> forall j :: 0 <= j < edges.Length ==> Connected(n, mst, edges[j].src, edges[j].dest)
  {
    ghost var es := edges[..];
    var edgeCount := edges.Length;
    var uf := new UnionFind(n);
    mst := [];
    var iEdge := 0;
    var e := 0;
    GreedyStart(n, es, uf);
    while e < n - 1 && iEdge < edgeCount
      invariant 0 <= iEdge <= edgeCount && e == |mst| && (mst == [] || |mst| <= n - 1)
      invariant edges[..] == es && Selecting(uf, n, es, mst, iEdge)
    {
      var accepted;
      mst, accepted := Examine(n, edges, uf, mst, iEdge);
      iEdge := iEdge + 1;
      if accepted {
        e := e + 1;
      }
    }
    GreedyDone(n, es, mst, iEdge);
  }

  /** The state of the greedy loop once it has examined `es[..iEdge]`: the
      union-find answers for the accepted edges `mst`, and they are chosen
      greedily. */
  ghost predicate Selecting(uf: UnionFind, n: nat, es: seq<Edge>, mst: seq<Edge>, iEdge: int)
    requires 0 <= iEdge <= |es|
    reads uf, uf.rep
  {
    Tracks(uf, n, mst) && Greedy(n, es, mst, iEdge)
  }

  /** Before any edge is examined, a fresh union-find answers for no
      accepted edges, and the empty choice is greedy. */
  lemma GreedyStart(n: nat, es: seq<Edge>, uf: UnionFind)
    requires uf.Valid() && uf.size == n && uf.rep[..] == Identity(n)
    ensures Selecting(uf, n, es, [], 0)
  {
  }

  /** When the greedy loop stops, with `n - 1` edges accepted or every edge
      examined, the accepted edges come from the array, and short of `n - 1`
      of them they connect the ends of every edge in it. */
  lemma GreedyDone(n: nat, es: seq<Edge>, mst: seq<Edge>, iEdge: int)
    requires 0 <= iEdge <= |es| && Greedy(n, es, mst, iEdge) && (|mst| >= n - 1 || iEdge == |es|)
    ensures forall k :: 0 <= k < |mst| ==> mst[k] in es
    ensures |mst| < n - 1 ==> forall j :: 0 <= j < |es| ==> Connected(n, mst, es[j].src, es[j].dest)
  {
    forall k | 0 <= k < |mst|
      ensures mst[k] in es
    {
      var j :| 0 <= j < iEdge && es[..iEdge][j] == mst[k];
      assert es[j] == mst[k];
    }
  }

  /** The union-find `uf` over `n` vertices answers for the accepted edges `mst`. */
  ghost predicate Tracks(uf: UnionFind, n: nat, mst: seq<Edge>)
    reads uf, uf.rep
  {
    uf.Valid() && uf.size == n && InRange(n, mst) && uf.rep[..] == Labels(n, mst)
  }

  /** One iteration of the greedy loop on `edges[iEdge]`: `find` both
      endpoints; when the representatives differ, the edge is accepted and
      the two classes united. */
  method Examine(n: nat, edges: array<Edge>, uf: UnionFind, mst: seq<Edge>, iEdge: int)
    returns (mst': seq<Edge>, accepted: bool)
    requires 0 <= iEdge < edges.Length && InRange(n, edges[..]) && SortedBetween(edges[..], 0, edges.Length - 1)
    requires Tracks(uf, n, mst) && Greedy(n, edges[..], mst, iEdge)
    modifies uf.rep
    ensures Tracks(uf, n, mst') && Greedy(n, edges[..], mst', iEdge + 1)
    ensures accepted <==> !Connected(n, mst, edges[iEdge].src, edges[iEdge].dest)
    ensures accepted ==> mst' == mst + [edges[iEdge]]
    ensures !accepted ==> mst' == mst
  {
    ghost var es := edges[..];
    var nextEdge := edges[iEdge];
    var x := uf.Find(nextEdge.src);
    var y := uf.Find(nextEdge.dest);
    LabelsConnected(n, mst, nextEdge.src, nextEdge.dest);
    if x != y {
      AcceptStep(n, es, mst, iEdge);
      mst' := mst + [nextEdge];
      uf.UnionSets(x, y);
      accepted := true;
    } else {
      RejectStep(n, es, mst, iEdge);
      mst' := mst;
      accepted := false;
    }
  }

  /** What the greedy loop keeps after examining `es[..iEdge]`: the accepted
      edges join vertices below `n`, come from the examined edges, are in
      non-decreasing weight and no heavier than any edge still to examine,
      form a forest, and connect the endpoints of every examined edge. */
  ghost predicate Greedy(n: nat, es: seq<Edge>, mst: seq<Edge>, iEdge: int)
    requires 0 <= iEdge <= |es|
  {
    InRange(n, mst) &&
    (forall k :: 0 <= k < |mst| ==> mst[k] in es[..iEdge]) &&
    (forall k, l :: 0 <= k < l < |mst| ==> mst[k].weight <= mst[l].weight) &&
    (forall k, j :: 0 <= k < |mst| && iEdge <= j < |es| ==> mst[k].weight <= es[j].weight) &&
    Acyclic(n, mst) &&
    (forall j :: 0 <= j < iEdge ==> Connected(n, mst, es[j].src, es[j].dest))
  }

  /** Sorting the collected edges keeps every cell a collected edge. */
  lemma SortedEdgesInRange(g: Graph, edges: seq<Edge>, unique: seq<Edge>)
    requires WellFormed(g) && unique == UniqueEdges(g, g.vertices) && multiset(edges) == multiset(unique)
    ensures InRange(g.vertices, edges)
  {
    forall j | 0 <= j < |edges|
      ensures 0 <= edges[j].src < g.vertices && 0 <= edges[j].dest < g.vertices
    {
      assert edges[j] in multiset(unique);
      UniqueEdgesExactly(g, g.vertices, edges[j]);
    }
  }

  /** Accepting `es[iEdge]`, whose endpoints the accepted edges do not yet
      connect, keeps the greedy loop's facts; merging along it is what the
      union-find does. */
  lemma AcceptStep(n: nat, es: seq<Edge>, mst: seq<Edge>, iEdge: int)
    requires 0 <= iEdge < |es| && InRange(n, es) && SortedBetween(es, 0, |es| - 1)
    requires Greedy(n, es, mst, iEdge) && !Connected(n, mst, es[iEdge].src, es[iEdge].dest)
    ensures Greedy(n, es, mst + [es[iEdge]], iEdge + 1)
    ensures Labels(n, mst + [es[iEdge]]) ==
      Relabel(Labels(n, mst), Labels(n, mst)[es[iEdge].src], Labels(n, mst)[es[iEdge].dest])
  {
    var next := es[iEdge];
    AcyclicExtend(n, mst, next);
    var rep := LabelsStep(n, mst, next);
    AcceptConnects(n, es, mst, iEdge);
    AcceptOrder(es, mst, iEdge);
  }

  /** After accepting `es[iEdge]`, the endpoints of every examined edge are connected. */
  lemma AcceptConnects(n: nat, es: seq<Edge>, mst: seq<Edge>, iEdge: int)
    requires 0 <= iEdge < |es| && InRange(n, es)
    requires forall j :: 0 <= j < iEdge ==> Connected(n, mst, es[j].src, es[j].dest)
    ensures forall j :: 0 <= j < iEdge + 1 ==> Connected(n, mst + [es[iEdge]], es[j].src, es[j].dest)
  {
    var next := es[iEdge];
    forall j | 0 <= j < iEdge + 1
      ensures Connected(n, mst + [next], es[j].src, es[j].dest)
    {
      if j < iEdge {
        ConnectedWiden(n, mst, next, es[j].src, es[j].dest);
      } else {
        EdgeConnects(n, mst + [next], next);
      }
    }
  }

  /** Accepting `es[iEdge]` keeps the accepted edges drawn from the examined
      ones, in non-decreasing weight and no heavier than those to come. */
  lemma AcceptOrder(es: seq<Edge>, mst: seq<Edge>, iEdge: int)
    requires 0 <= iEdge < |es| && SortedBetween(es, 0, |es| - 1)
    requires forall k :: 0 <= k < |mst| ==> mst[k] in es[..iEdge]
    requires forall k, l :: 0 <= k < l < |mst| ==> mst[k].weight <= mst[l].weight
    requires forall k, j :: 0 <= k < |mst| && iEdge <= j < |es| ==> mst[k].weight <= es[j].weight
    ensures forall k :: 0 <= k < |mst| + 1 ==> (mst + [es[iEdge]])[k] in es[..iEdge + 1]
    ensures forall k, l :: 0 <= k < l < |mst| + 1 ==> (mst + [es[iEdge]])[k].weight <= (mst + [es[iEdge]])[l].weight
    ensures forall k, j :: 0 <= k < |mst| + 1 && iEdge + 1 <= j < |es| ==> (mst + [es[iEdge]])[k].weight <= es[j].weight
  {
    assert es[..iEdge + 1] == es[..iEdge] + [es[iEdge]];
  }

  /** Rejecting `es[iEdge]`, whose endpoints the accepted edges already
      connect, keeps the greedy loop's facts. */
  lemma RejectStep(n: nat, es: seq<Edge>, mst: seq<Edge>, iEdge: int)
    requires 0 <= iEdge < |es|
    requires Greedy(n, es, mst, iEdge) && Connected(n, mst, es[iEdge].src, es[iEdge].dest)
    ensures Greedy(n, es, mst, iEdge + 1)
  {
    forall k | 0 <= k < |mst|
      ensures mst[k] in es[..iEdge + 1]
    {
      assert mst[k] in es[..iEdge];
      assert es[..iEdge] == es[..iEdge + 1][..iEdge];
    }
  }
}
