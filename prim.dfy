/** Prim's minimum-spanning-tree construction rooted at vertex 0, with
    array-scan selection. */
module Prim {
  import opened Graphs
  import opened Selection
  import opened PredecessorTrees

  /** A parent is joined to its vertex by a graph edge whose weight is the
      vertex's key. */
  ghost predicate ParentEdgesOk(g: Graph, parent: seq<int>, key: seq<int32>)
    requires WellFormed(g) && PredecessorRange(g, parent) && |key| == g.vertices
  {
    forall x {:trigger parent[x]} :: 0 <= x < g.vertices && parent[x] != -1 ==>
      HasEdge(g, parent[x], x) && key[x] == GetWeight(g, parent[x], x)
  }

  /** What holds of Prim's scratch arrays between steps: the root 0 has key 0
      and no parent; exactly the root and the vertices with a parent have a
      finite key; every parent is already in the tree and is joined to its
      vertex by an edge weighing the vertex's key; and the root is the first
      vertex to enter the tree. */
  ghost predicate PrimInvariant(g: Graph, key: seq<int32>, mstSet: seq<bool>, parent: seq<int>)
    requires WellFormed(g)
  {
    |key| == g.vertices && |mstSet| == g.vertices && PredecessorRange(g, parent) && g.vertices >= 1 &&
    key[0] == 0 && parent[0] == -1 &&
    ((forall x :: 0 <= x < g.vertices ==> !mstSet[x]) || mstSet[0]) &&
    ReachedIffPredecessor(g, 0, parent, key) &&
    (forall x {:trigger parent[x]} :: 0 <= x < g.vertices && parent[x] != -1 ==> mstSet[parent[x]]) &&
    ParentEdgesOk(g, parent, key)
  }

  /** `primMST`: a tree rooted at vertex 0, built one vertex per round. The
      ghost result `key` holds the final keys: a key is finite exactly when
      its vertex is reachable from 0 along edges whose `getWeight` is below
      INT_MAX (a heavier edge never beats the INT_MAX key it would replace);
      the edges go into exactly those vertices other than 0, in increasing
      order; each is a graph edge weighted as the graph weighs it, and that
      weight is its destination's key. The ghost result `order` lists those
      vertices, 0 first, so that every edge runs from an earlier vertex to a
      later one: the edges form a tree. */
  method PrimMST(g: Graph) returns (tree: seq<Edge>, ghost key: seq<int32>, ghost order: seq<int>)
    requires WellFormed(g) && g.vertices >= 1
    ensures |key| == g.vertices && key[0] == 0
    ensures forall v :: 0 <= v < g.vertices ==> (key[v] as int != INT_MAX <==> ReachableBelow(g, 0, v, INT_MAX))
    ensures forall v :: v in Dests(tree) <==> 0 < v < g.vertices && ReachableBelow(g, 0, v, INT_MAX)
    ensures Dests(tree) == Indices(Reached(key, 0), g.vertices)
    ensures forall i :: 0 <= i < |tree| ==> tree[i].dest != 0
    ensures MstEdges(g, key, tree)
    ensures SpanningTree(g, tree, order) && order[0] == 0
    ensures forall v :: v in order <==> 0 <= v < g.vertices && ReachableBelow(g, 0, v, INT_MAX)
    ensures |tree| <= g.vertices - 1
  {
    var vertices := g.vertices;
    var keys, mstSet, parent := PrimInitialize(g);
    ghost var rounds, finalised := Grow(g, keys, mstSet, parent);

    key := keys[..];
    FrontierReach(g, 0, key, mstSet[..], rounds, INT_MAX);
    ghost var p := parent[..];
    PrimParentFacts(g, key, mstSet[..], p);
    tree := EmitMst(g, parent, p);
    PredecessorEdgesDests(g, 0, p, key, vertices);
    ParentEdgesAreMstEdges(g, p, key, vertices);
    IndicesMissing(Reached(key, 0), vertices, 0);
    PrimReachedDests(g, key, tree);
    PrimTreeFacts(g, key, mstSet[..], p);
    PredecessorTree(g, 0, key, mstSet[..], p, finalised, tree);
    order := FullOrder(key, mstSet[..], finalised);
  }

  /** The main loop of `primMST`: at most `vertices - 1` rounds, each adding
      the vertex `minKey` picks to the tree, stopping early when no vertex
      outside the tree has a finite key. */
  method Grow(g: Graph, key: array<int32>, mstSet: array<bool>, parent: array<int>)
    returns (ghost rounds: int, ghost order: seq<int>)
    requires WellFormed(g) && Growing(g, key[..], mstSet[..], parent[..], 0)
    requires Ranked(g, 0, mstSet[..], parent[..], [])
    modifies key, mstSet, parent
    ensures 0 <= rounds && Growing(g, key[..], mstSet[..], parent[..], rounds)
    ensures Ranked(g, 0, mstSet[..], parent[..], order)
    ensures NoneFinite(key[..], mstSet[..], g.vertices) || rounds >= g.vertices - 1
  {
    var vertices := g.vertices;
    var round := 0;
    order := [];
    while round < vertices - 1
      invariant 0 <= round <= vertices - 1
      invariant Growing(g, key[..], mstSet[..], parent[..], round)
      invariant Ranked(g, 0, mstSet[..], parent[..], order)
    {
      var u := MinKey(key, mstSet, vertices);
      if u == -1 {
        break;
      }
      ghost var k0, fin0, p0 := key[..], mstSet[..], parent[..];
      FinalizeAndUpdate(g, round, u, key, mstSet, parent);
      PrimTreeFacts(g, k0, fin0, p0);
      ParentsKept(g, u, fin0, mstSet[..], k0, p0, key[..], parent[..]);
      RankStep(g, 0, k0, fin0, p0, order, u, parent[..]);
      order := order + [u];
      round := round + 1;
    }
    rounds := round;
  }

  /** The facts about parents the invariant holds that the finalisation
      order and the finished tree need. */
  lemma PrimTreeFacts(g: Graph, key: seq<int32>, mstSet: seq<bool>, parent: seq<int>)
    requires WellFormed(g) && PrimInvariant(g, key, mstSet, parent)
    ensures ReachedIffPredecessor(g, 0, parent, key) && PredecessorsFinalised(g, mstSet, parent)
    ensures forall x {:trigger parent[x]} :: 0 <= x < g.vertices && parent[x] != -1 ==> HasEdge(g, parent[x], x)
  {
  }

  /** Updating against `u` changes the parent of no tree vertex, `u` included. */
  lemma ParentsKept(g: Graph, u: int, fin: seq<bool>, fin': seq<bool>, k: seq<int32>, p: seq<int>, k': seq<int32>, p': seq<int>)
    requires WellFormed(g) && 0 <= u < g.vertices && |fin| == g.vertices && |k| == g.vertices && |p| == g.vertices
    requires |k'| == g.vertices && |p'| == g.vertices && fin' == fin[u := true]
    requires forall v :: 0 <= v < g.vertices ==> UpdatedAt(g, u, v, fin', k, p, k', p')
    ensures forall x :: 0 <= x < g.vertices && fin[u := true][x] ==> p'[x] == p[x]
  {
    forall x | 0 <= x < g.vertices && fin'[x]
      ensures p'[x] == p[x]
    {
      assert UpdatedAt(g, u, x, fin', k, p, k', p');
    }
  }

  /** Prim's arrays after `rounds` rounds: the invariant and the frontier of
      edges lighter than INT_MAX. */
  ghost predicate Growing(g: Graph, key: seq<int32>, mstSet: seq<bool>, parent: seq<int>, rounds: int)
    requires WellFormed(g)
  {
    PrimInvariant(g, key, mstSet, parent) && Frontier(g, 0, key, mstSet, rounds, INT_MAX)
  }

  /** With the finite keys those of the vertices reachable along edges lighter
      than INT_MAX, the tree's edges go into exactly those vertices but 0. */
  lemma PrimReachedDests(g: Graph, key: seq<int32>, tree: seq<Edge>)
    requires WellFormed(g) && |key| == g.vertices && Dests(tree) == Indices(Reached(key, 0), g.vertices)
    requires forall v :: 0 <= v < g.vertices ==> (key[v] as int != INT_MAX <==> ReachableBelow(g, 0, v, INT_MAX))
    ensures forall v :: v in Dests(tree) <==> 0 < v < g.vertices && ReachableBelow(g, 0, v, INT_MAX)
  {
    forall v | v in Dests(tree)
      ensures 0 < v < g.vertices
    {
      assert v in Indices(Reached(key, 0), g.vertices);
      assert v != 0;
    }
  }

  /** The initialisation loop of `primMST`: every key INT_MAX, nothing in the
      tree, no parent; then the root's key 0. */
  method PrimInitialize(g: Graph) returns (key: array<int32>, mstSet: array<bool>, parent: array<int>)
    requires WellFormed(g) && g.vertices >= 1
    ensures fresh(key) && fresh(mstSet) && fresh(parent)
    ensures Growing(g, key[..], mstSet[..], parent[..], 0)
    ensures forall x :: 0 <= x < g.vertices ==> !mstSet[x]
  {
    var vertices := g.vertices;
    key := new int32[vertices];
    mstSet := new bool[vertices];
    parent := new int[vertices];
    var i := 0;
    while i < vertices
      invariant 0 <= i <= vertices
      invariant forall x :: 0 <= x < i ==> key[x] as int == INT_MAX && !mstSet[x] && parent[x] == -1
    {
      key[i] := INT_MAX as int32;
      mstSet[i] := false;
      parent[i] := -1;
      i := i + 1;
    }
    key[0] := 0;
    FrontierStart(g, 0, key[..], mstSet[..], INT_MAX);
  }

  /** Adding the unfinished vertex of least finite key to the tree keeps the
      invariant; in the first round that vertex is the root. */
  lemma FinalizeKeepsPrimInvariant(g: Graph, key: seq<int32>, mstSet: seq<bool>, parent: seq<int>, u: int)
    requires WellFormed(g) && PrimInvariant(g, key, mstSet, parent)
    requires IsFirstMinimum(key, mstSet, g.vertices, u)
    ensures PrimInvariant(g, key, mstSet[u := true], parent)
    ensures mstSet[u := true][0]
  {
    if !mstSet[0] {
      assert forall x :: 0 <= x < g.vertices ==> !mstSet[x];
      assert parent[u] == -1 ==> u == 0;
    }
  }

  /** One round of `primMST`, after `rounds` rounds, once `minKey` picked
      `u`: add `u` to the tree, then update the keys of its neighbours outside
      the tree. Each vertex's key and parent become what updating it against
      `u` gives, and the arrays have grown by one round. */
  method FinalizeAndUpdate(g: Graph, ghost rounds: int, u: int, key: array<int32>, mstSet: array<bool>, parent: array<int>)
    requires WellFormed(g) && Growing(g, key[..], mstSet[..], parent[..], rounds)
    requires IsFirstMinimum(key[..], mstSet[..], g.vertices, u)
    modifies key, mstSet, parent
    ensures Growing(g, key[..], mstSet[..], parent[..], rounds + 1)
    ensures mstSet[..] == old(mstSet[..])[u := true]
    ensures forall v :: 0 <= v < g.vertices ==>
      UpdatedAt(g, u, v, mstSet[..], old(key[..]), old(parent[..]), key[..], parent[..])
  {
    ghost var k0, fin0, p0 := key[..], mstSet[..], parent[..];
    FinalizeKeepsPrimInvariant(g, k0, fin0, p0, u);
    mstSet[u] := true;
    assert mstSet[..] == fin0[u := true];
    UpdateKeys(g, u, key, mstSet, parent);
    UpdateKeepsFrontier(g, k0, fin0, p0, u, mstSet[..], key[..], parent[..], rounds);
  }

  /** The effect of the key update of `v` against the tree vertex `u`, with
      `fin` the tree: if `v` is outside the tree and `u`'s edge to it is
      lighter than its key, `v` takes that weight as its key and `u` as its
      parent; otherwise its key and parent stay. */
  ghost predicate UpdatedAt(g: Graph, u: int, v: int, fin: seq<bool>, k: seq<int32>, p: seq<int>, k': seq<int32>, p': seq<int>)
    requires 0 <= u < |g.adj| && 0 <= v < |fin| && |k| == |fin| && |p| == |fin| && |k'| == |fin| && |p'| == |fin|
  {
    if HasEdge(g, u, v) && !fin[v] && GetWeight(g, u, v) < k[v]
    then k'[v] == GetWeight(g, u, v) && p'[v] == u
    else k'[v] == k[v] && p'[v] == p[v]
  }

  /** The round that finalises the first least key `u` and updates every key
      against it extends the frontier by one round: `u`'s neighbours along
      edges lighter than INT_MAX get finite keys, and a key that became finite
      belongs to a vertex reached through `u`. */
  lemma UpdateKeepsFrontier(g: Graph, k: seq<int32>, fin: seq<bool>, p: seq<int>, u: int,
                            fin': seq<bool>, k': seq<int32>, p': seq<int>, rounds: int)
    requires WellFormed(g) && |k| == g.vertices && |fin| == g.vertices && |p| == g.vertices
    requires |k'| == g.vertices && |p'| == g.vertices && g.vertices >= 1
    requires Frontier(g, 0, k, fin, rounds, INT_MAX) && IsFirstMinimum(k, fin, g.vertices, u)
    requires fin' == fin[u := true]
    requires forall v :: 0 <= v < g.vertices ==> UpdatedAt(g, u, v, fin', k, p, k', p')
    ensures Frontier(g, 0, k', fin', rounds + 1, INT_MAX)
  {
    IndicesFlag(fin, g.vertices, u);
    UpdateLowers(g, u, fin', k, p, k', p');
    UpdateReaches(g, u, fin', k, p, k', p');
  }

  /** Updating against `u`, with `fin` the tree including `u`, lowers keys
      only, keeps the keys of the tree, and gives a finite key to every
      neighbour of `u` outside the tree along an edge lighter than INT_MAX. */
  lemma UpdateLowers(g: Graph, u: int, fin: seq<bool>, k: seq<int32>, p: seq<int>, k': seq<int32>, p': seq<int>)
    requires WellFormed(g) && 0 <= u < g.vertices && |fin| == g.vertices && |k| == g.vertices && |p| == g.vertices
    requires |k'| == g.vertices && |p'| == g.vertices
    requires forall v :: 0 <= v < g.vertices ==> UpdatedAt(g, u, v, fin, k, p, k', p')
    ensures forall y :: 0 <= y < g.vertices ==> k'[y] <= k[y]
    ensures forall y :: 0 <= y < g.vertices && fin[y] ==> k'[y] == k[y]
    ensures forall y :: 0 <= y < g.vertices && !fin[y] && HasEdge(g, u, y) && GetWeight(g, u, y) as int < INT_MAX ==>
      k'[y] as int != INT_MAX
  {
    forall y | 0 <= y < g.vertices
      ensures k'[y] <= k[y]
      ensures fin[y] ==> k'[y] == k[y]
      ensures !fin[y] && HasEdge(g, u, y) && GetWeight(g, u, y) as int < INT_MAX ==> k'[y] as int != INT_MAX
    {
      assert UpdatedAt(g, u, y, fin, k, p, k', p');
    }
  }

  /** A key that updating against a reachable `u` made finite belongs to a
      vertex reachable through `u`. */
  lemma UpdateReaches(g: Graph, u: int, fin: seq<bool>, k: seq<int32>, p: seq<int>, k': seq<int32>, p': seq<int>)
    requires WellFormed(g) && 0 <= u < g.vertices && |fin| == g.vertices && |k| == g.vertices && |p| == g.vertices
    requires |k'| == g.vertices && |p'| == g.vertices
    requires ReachableBelow(g, 0, u, INT_MAX)
    requires forall x :: 0 <= x < g.vertices && k[x] as int != INT_MAX ==> ReachableBelow(g, 0, x, INT_MAX)
    requires forall v :: 0 <= v < g.vertices ==> UpdatedAt(g, u, v, fin, k, p, k', p')
    ensures forall x :: 0 <= x < g.vertices && k'[x] as int != INT_MAX ==> ReachableBelow(g, 0, x, INT_MAX)
  {
    forall x | 0 <= x < g.vertices && k'[x] as int != INT_MAX
      ensures ReachableBelow(g, 0, x, INT_MAX)
    {
      assert UpdatedAt(g, u, x, fin, k, p, k', p');
      if k'[x] != k[x] {
        ReachableBelowStep(g, 0, u, x, INT_MAX);
      }
    }
  }

  /** The key-update loop of one round: every vertex `v` outside the tree
      joined to `u` by an edge lighter than its key takes that edge's weight
      as its key and `u` as its parent; every other vertex keeps its key and
      parent. Keys never grow, and the keys and parents of tree vertices stay
      as they were. */
  method UpdateKeys(g: Graph, u: int, key: array<int32>, mstSet: array<bool>, parent: array<int>)
    requires WellFormed(g) && PrimInvariant(g, key[..], mstSet[..], parent[..])
    requires 0 <= u < g.vertices && mstSet[u]
    modifies key, parent
    ensures PrimInvariant(g, key[..], mstSet[..], parent[..])
    ensures forall v :: 0 <= v < g.vertices ==>
      UpdatedAt(g, u, v, mstSet[..], old(key[..]), old(parent[..]), key[..], parent[..])
    ensures forall v :: 0 <= v < g.vertices ==> key[v] <= old(key[v])
    ensures forall v :: 0 <= v < g.vertices && mstSet[v] ==> key[v] == old(key[v]) && parent[v] == old(parent[v])
  {
    ghost var k, fin, p := key[..], mstSet[..], parent[..];
    UpdatingStart(g, u, k, fin, p);
    var v := 0;
    while v < g.vertices
      invariant 0 <= v <= g.vertices && mstSet[..] == fin
      invariant Updating(g, u, k, fin, p, key[..], parent[..], v)
    {
      ghost var k0, p0 := key[..], parent[..];
      var currentWeight := GetWeight(g, u, v);
      if HasEdge(g, u, v) && !mstSet[v] && currentWeight < key[v] {
        parent[v] := u;
        key[v] := currentWeight;
      }
      UpdatingStep(g, u, k, fin, p, k0, p0, key[..], parent[..], v);
      v := v + 1;
    }
    UpdatedFacts(g, u, k, fin, p, key[..], parent[..]);
  }

  /** The state of the key-update loop over `u`, from the keys `k` and parents
      `p`, before updating `v`: the invariant holds, and every vertex below
      `v` has been updated while the others are as in `k` and `p`. */
  ghost predicate Updating(g: Graph, u: int, k: seq<int32>, fin: seq<bool>, p: seq<int>, k': seq<int32>, p': seq<int>, v: int)
    requires WellFormed(g) && 0 <= u < g.vertices && 0 <= v <= g.vertices
  {
    PrimInvariant(g, k, fin, p) && PrimInvariant(g, k', fin, p') && fin[u] &&
    (forall x :: 0 <= x < v ==> UpdatedAt(g, u, x, fin, k, p, k', p')) &&
    k'[v..] == k[v..] && p'[v..] == p[v..]
  }

  /** Before the first update, nothing has been updated yet. */
  lemma UpdatingStart(g: Graph, u: int, k: seq<int32>, fin: seq<bool>, p: seq<int>)
    requires WellFormed(g) && PrimInvariant(g, k, fin, p) && 0 <= u < g.vertices && fin[u]
    ensures Updating(g, u, k, fin, p, k, p, 0)
  {
    assert k[0..] == k && p[0..] == p;
  }

  /** Updating `v` as the loop body does keeps the loop's state. */
  lemma UpdatingStep(g: Graph, u: int, k: seq<int32>, fin: seq<bool>, p: seq<int>,
                     k0: seq<int32>, p0: seq<int>, k1: seq<int32>, p1: seq<int>, v: int)
    requires WellFormed(g) && 0 <= u < g.vertices && 0 <= v < g.vertices
    requires Updating(g, u, k, fin, p, k0, p0, v)
    requires if HasEdge(g, u, v) && !fin[v] && GetWeight(g, u, v) < k0[v]
             then k1 == k0[v := GetWeight(g, u, v)] && p1 == p0[v := u]
             else k1 == k0 && p1 == p0
    ensures Updating(g, u, k, fin, p, k1, p1, v + 1)
  {
    assert k0[v] == k0[v..][0] == k[v..][0] == k[v];
    assert p0[v] == p0[v..][0] == p[v..][0] == p[v];
    if HasEdge(g, u, v) && !fin[v] && GetWeight(g, u, v) < k0[v] {
      UpdateKeepsPrimInvariant(g, k0, fin, p0, u, v, k1, p1);
    }
    assert UpdatedAt(g, u, v, fin, k, p, k1, p1);
    assert k1[v + 1..] == k0[v + 1..] == k0[v..][1..] == k[v..][1..] == k[v + 1..];
    assert p1[v + 1..] == p0[v + 1..] == p0[v..][1..] == p[v..][1..] == p[v + 1..];
    forall x | 0 <= x < v
      ensures UpdatedAt(g, u, x, fin, k, p, k1, p1)
    {
      assert UpdatedAt(g, u, x, fin, k, p, k0, p0);
    }
  }

  /** After updating every vertex, keys never grew and tree vertices kept
      their keys and parents. */
  lemma UpdatedFacts(g: Graph, u: int, k: seq<int32>, fin: seq<bool>, p: seq<int>, k': seq<int32>, p': seq<int>)
    requires WellFormed(g) && 0 <= u < g.vertices
    requires Updating(g, u, k, fin, p, k', p', g.vertices)
    ensures forall v :: 0 <= v < g.vertices ==> k'[v] <= k[v]
    ensures forall v :: 0 <= v < g.vertices && fin[v] ==> k'[v] == k[v] && p'[v] == p[v]
  {
    forall v | 0 <= v < g.vertices
      ensures k'[v] <= k[v]
      ensures fin[v] ==> k'[v] == k[v] && p'[v] == p[v]
    {
      assert UpdatedAt(g, u, v, fin, k, p, k', p');
    }
  }

  /** Giving a vertex outside the tree a lighter edge from the tree vertex `u`
      keeps the invariant. */
  lemma UpdateKeepsPrimInvariant(g: Graph, key: seq<int32>, mstSet: seq<bool>, parent: seq<int>,
                                 u: int, v: int, key': seq<int32>, parent': seq<int>)
    requires WellFormed(g) && PrimInvariant(g, key, mstSet, parent)
    requires 0 <= u < g.vertices && mstSet[u] && 0 <= v < g.vertices && !mstSet[v]
    requires HasEdge(g, u, v) && GetWeight(g, u, v) < key[v]
    requires key' == key[v := GetWeight(g, u, v)] && parent' == parent[v := u]
    ensures PrimInvariant(g, key', mstSet, parent')
  {
    assert v != 0;
  }

  /** The facts about parents the invariant holds, on their own. */
  lemma PrimParentFacts(g: Graph, key: seq<int32>, mstSet: seq<bool>, parent: seq<int>)
    requires WellFormed(g) && PrimInvariant(g, key, mstSet, parent)
    ensures PredecessorRange(g, parent) && ReachedIffPredecessor(g, 0, parent, key) && ParentEdgesOk(g, parent, key)
  {
  }

  /** The output loop of `primMST`: one edge `(parent[v], v, getWeight(parent[v], v))`
      per vertex `v` from 1 on that has a parent, in increasing order of `v`. */
  method EmitMst(g: Graph, parent: array<int>, ghost p: seq<int>) returns (tree: seq<Edge>)
    requires WellFormed(g) && g.vertices >= 1 && parent[..] == p && PredecessorRange(g, p)
    ensures tree == PredecessorEdges(g, 0, p, g.vertices)
  {
    var vertices := g.vertices;
    tree := [];
    var v := 1;
    while v < vertices
      invariant 1 <= v <= vertices
      invariant tree == PredecessorEdges(g, 0, p, v)
    {
      assert parent[v] == p[v];
      if parent[v] != -1 {
        tree := tree + [Edge(parent[v], v, GetWeight(g, parent[v], v))];
      }
      v := v + 1;
    }
  }

  /** Given the parent facts, every parent edge is an MST edge as the invariant describes. */
  lemma {:induction false} ParentEdgesAreMstEdges(g: Graph, p: seq<int>, key: seq<int32>, k: int)
    requires WellFormed(g) && PredecessorRange(g, p) && |key| == g.vertices
    requires 0 <= k <= g.vertices && ParentEdgesOk(g, p, key)
    ensures MstEdges(g, key, PredecessorEdges(g, 0, p, k))
  {
    if k > 0 {
      var v := k - 1;
      var tree := PredecessorEdges(g, 0, p, v);
      ParentEdgesAreMstEdges(g, p, key, v);
      if v != 0 && p[v] != -1 {
        var e := Edge(p[v], v, GetWeight(g, p[v], v));
        assert MstEdge(g, key, e);
        assert forall i :: 0 <= i < |tree| ==> (tree + [e])[i] == tree[i];
      }
    }
  }

  /** Every edge of `tree` is an MST edge. */
  ghost predicate MstEdges(g: Graph, key: seq<int32>, tree: seq<Edge>)
    requires WellFormed(g) && |key| == g.vertices
  {
    forall i :: 0 <= i < |tree| ==> MstEdge(g, key, tree[i])
  }

  /** An edge Prim adds: a graph edge, weighted as the graph weighs it, whose
      weight is its destination's key. */
  ghost predicate MstEdge(g: Graph, key: seq<int32>, e: Edge)
    requires WellFormed(g) && |key| == g.vertices
  {
    0 <= e.src < g.vertices && 0 <= e.dest < g.vertices &&
    HasEdge(g, e.src, e.dest) && e.weight == GetWeight(g, e.src, e.dest) && e.weight == key[e.dest]
  }
}
