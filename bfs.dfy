/** Breadth-first search: `BFS` marks the start visited and queues it, then
    repeatedly dequeues a vertex and, walking its adjacency list, marks,
    records the parent and weight of, and queues every neighbour not yet
    visited; the parent edges, in increasing order of their destination, form
    the tree it returns. */
module BreadthFirst {
  import opened Graphs
  import opened Queues

  /** The state of the search once the vertices `order[..head]` have been
      dequeued: `order` lists the vertices discovered so far, the start first,
      and `from[i]` is the position in `order` of the vertex whose adjacency
      list discovered `order[i]`. The queue holds the discovered vertices not
      yet dequeued; exactly the discovered vertices are visited; every
      discovered vertex but the start has as parent the vertex that discovered
      it, dequeued earlier, and as weight the weight of that adjacency entry;
      and vertices are discovered in the order their discoverers were
      dequeued. */
  ghost predicate Searching(g: Graph, start: int, order: seq<int>, from: seq<int>, head: int,
                            vis: seq<bool>, par: seq<int>, wt: seq<int32>, items: seq<int>)
    requires WellFormed(g)
  {
    |vis| == g.vertices && |par| == g.vertices && |wt| == g.vertices &&
    |order| >= 1 && order[0] == start && Distinct(order) &&
    (forall i :: 0 <= i < |order| ==> 0 <= order[i] < g.vertices) &&
    0 <= head <= |order| && items == order[head..] &&
    (forall v :: 0 <= v < g.vertices ==> (vis[v] <==> v in order)) &&
    par[start] == -1 &&
    (forall v {:trigger par[v]} :: 0 <= v < g.vertices && par[v] != -1 ==> v in order) &&
    |from| == |order| &&
    (forall i :: 1 <= i < |order| ==>
      0 <= from[i] < i && from[i] < head && par[order[i]] == order[from[i]] &&
      Neighbor(order[i], wt[order[i]]) in g.adj[order[from[i]]]) &&
    (forall i, j :: 1 <= i <= j < |order| ==> from[i] <= from[j])
  }

  /** Each discovered vertex but the start was discovered by the first
      dequeued vertex with an edge to it: none dequeued before its discoverer
      has one. */
  ghost predicate FirstDiscoverers(g: Graph, order: seq<int>, from: seq<int>)
    requires WellFormed(g) && |from| == |order| && forall i :: 0 <= i < |order| ==> 0 <= order[i] < g.vertices
  {
    forall i, k {:trigger HasEdge(g, order[k], order[i])} ::
      1 <= i < |order| && 0 <= k < from[i] && k < |order| ==> !HasEdge(g, order[k], order[i])
  }

  /** Each discovered vertex but the start has as weight that of the first
      entry for it in its discoverer's adjacency list, and the vertices one
      list discovered were discovered in the order of those entries. */
  ghost predicate EntryOrder(g: Graph, order: seq<int>, from: seq<int>, wt: seq<int32>)
    requires WellFormed(g) && |from| == |order| && |wt| == g.vertices
    requires forall i :: 0 <= i < |order| ==> 0 <= order[i] < g.vertices
    requires forall i :: 1 <= i < |order| ==> 0 <= from[i] < i
  {
    EntryWeights(g, order, from, wt) && ListOrder(g, order, from)
  }

  /** The weight half of `EntryOrder`. */
  ghost predicate EntryWeights(g: Graph, order: seq<int>, from: seq<int>, wt: seq<int32>)
    requires WellFormed(g) && |from| == |order| && |wt| == g.vertices
    requires forall i :: 0 <= i < |order| ==> 0 <= order[i] < g.vertices
    requires forall i :: 1 <= i < |order| ==> 0 <= from[i] < i
  {
    forall i :: 1 <= i < |order| ==> wt[order[i]] == GetWeight(g, order[from[i]], order[i])
  }

  /** The order half of `EntryOrder`. */
  ghost predicate ListOrder(g: Graph, order: seq<int>, from: seq<int>)
    requires WellFormed(g) && |from| == |order|
    requires forall i :: 0 <= i < |order| ==> 0 <= order[i] < g.vertices
    requires forall i :: 1 <= i < |order| ==> 0 <= from[i] < i
  {
    forall i, j :: 1 <= i < j < |order| && from[i] == from[j] ==>
      Position(g.adj[order[from[i]]], order[i]) < Position(g.adj[order[from[i]]], order[j])
  }

  /** Every neighbour of the first `done` discovered vertices is visited. */
  ghost predicate Expanded(g: Graph, order: seq<int>, done: int, vis: seq<bool>)
  {
    forall i, k ::
      (0 <= i < done && i < |order| && 0 <= order[i] < |g.adj| && 0 <= k < |g.adj[order[i]]| &&
       0 <= g.adj[order[i]][k].vertex < |vis|) ==> vis[g.adj[order[i]][k].vertex]
  }

  /** `parent[v] != -1`, per vertex. */
  function HasParent(par: seq<int>): (flags: seq<bool>)
    ensures |flags| == |par| && forall v :: 0 <= v < |par| ==> (flags[v] <==> par[v] != -1)
  {
    seq(|par|, v requires 0 <= v < |par| => par[v] != -1)
  }

  /** The edges `(parent[v], v, weights[v])` the output loop of `BFS` adds for
      the vertices `v` below `k` that have a parent, in increasing order of `v`. */
  ghost function ParentEdges(par: seq<int>, wt: seq<int32>, k: int): seq<Edge>
    requires 0 <= k <= |par| == |wt|
  {
    if k == 0 then []
    else
      var v := k - 1;
      ParentEdges(par, wt, v) + (if par[v] != -1 then [Edge(par[v], v, wt[v])] else [])
  }

  /** The parent edges go into exactly the vertices that have a parent, in
      increasing order. */
  lemma {:induction false} ParentEdgesDests(par: seq<int>, wt: seq<int32>, k: int)
    requires 0 <= k <= |par| == |wt|
    ensures Dests(ParentEdges(par, wt, k)) == Indices(HasParent(par), k)
  {
    if k > 0 {
      var v := k - 1;
      var rest := ParentEdges(par, wt, v);
      ParentEdgesDests(par, wt, v);
      IndicesStep(HasParent(par), v);
      if par[v] != -1 {
        DestsAppend(rest, Edge(par[v], v, wt[v]));
      }
    }
  }

  /** An edge is a parent edge exactly when it runs from the parent of a vertex
      below `k` to that vertex, with that vertex's recorded weight. */
  lemma {:induction false} ParentEdgesMembers(par: seq<int>, wt: seq<int32>, k: int, e: Edge)
    requires 0 <= k <= |par| == |wt|
    ensures e in ParentEdges(par, wt, k) <==>
      0 <= e.dest < k && par[e.dest] != -1 && e.src == par[e.dest] && e.weight == wt[e.dest]
  {
    if k > 0 {
      ParentEdgesMembers(par, wt, k - 1, e);
    }
  }

  /** The initialisation loop of `BFS`: nothing visited, no parent, weight 0. */
  method Initialize(g: Graph) returns (parent: array<int>, visited: array<bool>, weights: array<int32>)
    ensures fresh(parent) && fresh(visited) && fresh(weights)
    ensures parent.Length == visited.Length == weights.Length == g.vertices
    ensures forall v :: 0 <= v < g.vertices ==> !visited[v] && parent[v] == -1 && weights[v] == 0
  {
    var vertices := g.vertices;
    parent := new int[vertices];
    visited := new bool[vertices];
    weights := new int32[vertices];
    var i := 0;
    while i < vertices
      invariant 0 <= i <= vertices
      invariant forall v :: 0 <= v < i ==> !visited[v] && parent[v] == -1 && weights[v] == 0
    {
      visited[i] := false;
      parent[i] := -1;
      weights[i] := 0;
      i := i + 1;
    }
  }

  /** `BFS(graph, start)`. The ghost result `order` lists the vertices in the
      order they were discovered (and dequeued), and `from[i]` is the position
      in `order` of the vertex that discovered `order[i]`. The tree is a
      spanning tree of exactly the vertices reachable from `start`: one edge
      into each of them but `start`, from the vertex that discovered it, with
      the weight of the adjacency entry that discovered it, written in
      increasing order of destination, whose weight is `getWeight` of its
      endpoints; vertices are discovered in the order their discoverers were
      dequeued, and those of one discoverer in the order of their first
      entries in its adjacency list; and each vertex is discovered by the
      first dequeued vertex with an edge to it. */
  method BFS(g: Graph, start: int) returns (tree: seq<Edge>, ghost order: seq<int>, ghost from: seq<int>)
    requires WellFormed(g) && 0 <= start < g.vertices
    ensures SpanningTree(g, tree, order) && order[0] == start && Closed(g, order) && |tree| == |order| - 1
    ensures forall v :: v in order <==> Reachable(g, start, v)
    ensures forall e :: e in tree ==> 0 <= e.src < g.vertices && Neighbor(e.dest, e.weight) in g.adj[e.src]
    ensures forall e :: e in tree ==> 0 <= e.src < g.vertices && e.weight == GetWeight(g, e.src, e.dest)
    ensures forall i, j :: 0 <= i < j < |tree| ==> tree[i].dest < tree[j].dest
    ensures |from| == |order|
    ensures forall i :: 1 <= i < |order| ==>
      0 <= from[i] < i && exists e :: e in tree && e.src == order[from[i]] && e.dest == order[i]
    ensures forall i, j :: 1 <= i <= j < |order| ==> from[i] <= from[j]
    ensures forall i, j :: 1 <= i < j < |order| && from[i] == from[j] ==>
      Position(g.adj[order[from[i]]], order[i]) < Position(g.adj[order[from[i]]], order[j])
    ensures forall i, k :: 1 <= i < |order| && 0 <= k < from[i] ==> !HasEdge(g, order[k], order[i])
  {
    var queue := new Queue(g.vertices);
    var parent, visited, weights := Initialize(g);
    visited[start] := true;
    queue.Enqueue(start);
    order, from := Search(g, start, queue, visited, parent, weights);
    tree := EmitTree(parent, weights);
    BfsTree(g, start, order, from, visited[..], parent[..], weights[..]);
    ParentEdgesWeights(g, start, order, from, visited[..], parent[..], weights[..]);
    SpanningTreeSize(g, tree, order);
    forall v
      ensures v in order <==> Reachable(g, start, v)
    {
      SpanningTreeIsReachableSet(g, tree, order, v);
    }
  }

  /** The main loop of `BFS`, from the start alone visited and queued until the
      queue is empty. */
  method Search(g: Graph, start: int, queue: Queue, visited: array<bool>, parent: array<int>, weights: array<int32>)
    returns (ghost order: seq<int>, ghost from: seq<int>)
    requires WellFormed(g) && 0 <= start < g.vertices
    requires queue.Valid() && queue.capacity == g.vertices && queue.items == [start]
    requires parent.Length == visited.Length == weights.Length == g.vertices
    requires forall v :: 0 <= v < g.vertices ==> (visited[v] <==> v == start) && parent[v] == -1
    modifies queue, visited, parent, weights
    ensures Searching(g, start, order, from, |order|, visited[..], parent[..], weights[..], [])
    ensures Expanded(g, order, |order|, visited[..]) && FirstDiscoverers(g, order, from)
    ensures EntryOrder(g, order, from, weights[..])
  {
    order, from := [start], [0];
    ghost var head := 0;
    Started(g, start, visited[..], parent[..], weights[..]);
    while !queue.IsEmpty()
      invariant queue.Valid() && queue.capacity == g.vertices
      invariant Searching(g, start, order, from, head, visited[..], parent[..], weights[..], queue.items)
      invariant Expanded(g, order, head, visited[..]) && FirstDiscoverers(g, order, from)
      invariant EntryOrder(g, order, from, weights[..])
      decreases g.vertices as int - head
    {
      Dequeued(g, start, order, from, head, visited[..], parent[..], weights[..], queue.items);
      var curr := queue.Peek();
      queue.Dequeue();
      head := head + 1;
      order, from := Scan(g, start, curr, queue, visited, parent, weights, order, from, head);
    }
  }

  /** The state after the start is marked visited and queued. */
  lemma Started(g: Graph, start: int, vis: seq<bool>, par: seq<int>, wt: seq<int32>)
    requires WellFormed(g) && 0 <= start < g.vertices
    requires |vis| == |par| == |wt| == g.vertices
    requires forall v :: 0 <= v < g.vertices ==> (vis[v] <==> v == start) && par[v] == -1
    ensures Searching(g, start, [start], [0], 0, vis, par, wt, [start]) && Expanded(g, [start], 0, vis)
    ensures FirstDiscoverers(g, [start], [0]) && EntryOrder(g, [start], [0], wt)
  {
  }

  /** Dequeuing the front vertex `order[head]` keeps the search state, with
      one more vertex dequeued. */
  lemma Dequeued(g: Graph, start: int, order: seq<int>, from: seq<int>, head: int,
                 vis: seq<bool>, par: seq<int>, wt: seq<int32>, items: seq<int>)
    requires WellFormed(g) && Searching(g, start, order, from, head, vis, par, wt, items) && items != []
    ensures head < |order| <= g.vertices && items[0] == order[head]
    ensures Searching(g, start, order, from, head + 1, vis, par, wt, items[1..])
  {
    DistinctBound(order, g.vertices);
  }

  /** The inner loop of `BFS` over the adjacency list of the dequeued vertex
      `curr`: afterwards every neighbour of `curr` is visited. */
  method Scan(g: Graph, start: int, curr: int, queue: Queue, visited: array<bool>, parent: array<int>,
              weights: array<int32>, ghost order: seq<int>, ghost from: seq<int>, ghost head: int)
    returns (ghost order': seq<int>, ghost from': seq<int>)
    requires WellFormed(g) && queue.Valid() && queue.capacity == g.vertices
    requires Searching(g, start, order, from, head, visited[..], parent[..], weights[..], queue.items)
    requires 1 <= head && curr == order[head - 1] && Expanded(g, order, head - 1, visited[..])
    requires FirstDiscoverers(g, order, from) && EntryOrder(g, order, from, weights[..])
    requires forall i :: 1 <= i < |order| ==> from[i] < head - 1
    modifies queue, visited, parent, weights
    ensures queue.Valid()
    ensures Searching(g, start, order', from', head, visited[..], parent[..], weights[..], queue.items)
    ensures Expanded(g, order', head, visited[..]) && FirstDiscoverers(g, order', from')
    ensures EntryOrder(g, order', from', weights[..])
  {
    var list := g.adj[curr];
    order', from' := order, from;
    var k := 0;
    while k < |list|
      invariant 0 <= k <= |list| && queue.Valid()
      invariant Searching(g, start, order', from', head, visited[..], parent[..], weights[..], queue.items)
      invariant order'[head - 1] == curr && Expanded(g, order', head - 1, visited[..])
      invariant FirstDiscoverers(g, order', from') && EntryOrder(g, order', from', weights[..])
      invariant Scanned(g, list, k, order', from', head, visited[..])
    {
      order', from' := ScanEntry(g, start, curr, k, queue, visited, parent, weights, order', from', head);
      k := k + 1;
    }
    ScanDone(g, order', from', head, visited[..]);
  }

  /** Once every entry of the list of `order[head - 1]` is scanned, that vertex
      is expanded too. */
  lemma ScanDone(g: Graph, order: seq<int>, from: seq<int>, head: int, vis: seq<bool>)
    requires WellFormed(g) && 1 <= head <= |order| && |from| == |order| && 0 <= order[head - 1] < g.vertices
    requires Expanded(g, order, head - 1, vis)
    requires Scanned(g, g.adj[order[head - 1]], |g.adj[order[head - 1]]|, order, from, head, vis)
    ensures Expanded(g, order, head, vis)
  {
  }

  /** One step of the inner loop of `BFS`: the entry `k` of the adjacency list
      of `curr` is visited if its vertex is not yet, and the scanned prefix
      grows by one. */
  method ScanEntry(g: Graph, start: int, curr: int, k: int, queue: Queue, visited: array<bool>, parent: array<int>,
                   weights: array<int32>, ghost order: seq<int>, ghost from: seq<int>, ghost head: int)
    returns (ghost order': seq<int>, ghost from': seq<int>)
    requires WellFormed(g) && queue.Valid() && queue.capacity == g.vertices
    requires 0 <= curr < g.vertices && 0 <= k < |g.adj[curr]|
    requires Searching(g, start, order, from, head, visited[..], parent[..], weights[..], queue.items)
    requires 1 <= head && order[head - 1] == curr && Expanded(g, order, head - 1, visited[..])
    requires FirstDiscoverers(g, order, from) && EntryOrder(g, order, from, weights[..])
    requires Scanned(g, g.adj[curr], k, order, from, head, visited[..])
    modifies queue, visited, parent, weights
    ensures queue.Valid()
    ensures Searching(g, start, order', from', head, visited[..], parent[..], weights[..], queue.items)
    ensures order'[head - 1] == curr && Expanded(g, order', head - 1, visited[..])
    ensures FirstDiscoverers(g, order', from') && EntryOrder(g, order', from', weights[..])
    ensures Scanned(g, g.adj[curr], k + 1, order', from', head, visited[..])
  {
    var list := g.adj[curr];
    ghost var vis := visited[..];
    order', from' := order, from;
    if !visited[list[k].vertex] {
      ScannedFirst(g, list, k, order, from, head, vis);
      order', from' := Visit(g, start, curr, list[k], k, queue, visited, parent, weights, order, from, head);
    }
    ScannedStep(g, list, k, order, from, head, vis, order', from', visited[..]);
  }

  /** The first `k` entries of the list being scanned lead to visited
      vertices, and the vertices discovered from it so far came from entries
      before `k`. */
  ghost predicate Scanned(g: Graph, list: seq<Neighbor>, k: int, order: seq<int>, from: seq<int>, head: int, vis: seq<bool>)
    requires 0 <= k <= |list| && |from| == |order|
  {
    (forall j :: 0 <= j < k ==> 0 <= list[j].vertex < |vis| && vis[list[j].vertex]) &&
    (forall i :: 1 <= i < |order| && from[i] == head - 1 ==> Position(list, order[i]) < k)
  }

  /** An entry of the scanned list whose vertex is unvisited is the first for it. */
  lemma ScannedFirst(g: Graph, list: seq<Neighbor>, k: int, order: seq<int>, from: seq<int>, head: int, vis: seq<bool>)
    requires 0 <= k < |list| && |from| == |order| && Scanned(g, list, k, order, from, head, vis)
    requires 0 <= list[k].vertex < |vis| && !vis[list[k].vertex]
    ensures Position(list, list[k].vertex) == k
  {
  }

  /** Scanning entry `k`, whether it discovers its vertex through that entry or
      finds it visited, extends the scanned prefix by one. */
  lemma ScannedStep(g: Graph, list: seq<Neighbor>, k: int, order: seq<int>, from: seq<int>, head: int, vis: seq<bool>,
                    order': seq<int>, from': seq<int>, vis': seq<bool>)
    requires 0 <= k < |list| && |from| == |order| && Scanned(g, list, k, order, from, head, vis)
    requires 0 <= list[k].vertex < |vis|
    requires (order' == order && from' == from && vis' == vis && vis[list[k].vertex]) ||
             (order' == order + [list[k].vertex] && from' == from + [head - 1] &&
              vis' == vis[list[k].vertex := true] && Position(list, list[k].vertex) == k)
    ensures Scanned(g, list, k + 1, order', from', head, vis')
  {
  }

  /** The body of the inner loop of `BFS` for a neighbour not yet visited:
      mark it, record the current vertex as its parent and the entry's weight
      as its weight, and queue it. */
  method Visit(g: Graph, start: int, curr: int, n: Neighbor, ghost k: int, queue: Queue, visited: array<bool>, parent: array<int>,
               weights: array<int32>, ghost order: seq<int>, ghost from: seq<int>, ghost head: int)
    returns (ghost order': seq<int>, ghost from': seq<int>)
    requires WellFormed(g) && queue.Valid() && queue.capacity == g.vertices
    requires Searching(g, start, order, from, head, visited[..], parent[..], weights[..], queue.items)
    requires 1 <= head && curr == order[head - 1] && Expanded(g, order, head - 1, visited[..])
    requires n in g.adj[curr] && !visited[n.vertex] && FirstDiscoverers(g, order, from)
    requires 0 <= k < |g.adj[curr]| && g.adj[curr][k] == n && Position(g.adj[curr], n.vertex) == k
    requires EntryOrder(g, order, from, weights[..])
    requires forall i :: 1 <= i < |order| && from[i] == head - 1 ==> Position(g.adj[curr], order[i]) < k
    modifies queue, visited, parent, weights
    ensures queue.Valid() && order' == order + [n.vertex] && from' == from + [head - 1]
    ensures Searching(g, start, order', from', head, visited[..], parent[..], weights[..], queue.items)
    ensures Expanded(g, order', head - 1, visited[..]) && FirstDiscoverers(g, order', from')
    ensures EntryOrder(g, order', from', weights[..])
    ensures visited[..] == old(visited[..])[n.vertex := true]
  {
    ghost var vis, par, wt, items := visited[..], parent[..], weights[..], queue.items;
    Discover(g, start, order, from, head, vis, par, wt, items, n);
    DiscoverFirst(g, start, order, from, head, vis, par, wt, items, n.vertex);
    assert n.vertex !in order;
    DiscoverInOrder(g, order, from, head, wt, n, k);
    var neighbor := n.vertex;
    visited[neighbor] := true;
    parent[neighbor] := curr;
    weights[neighbor] := n.data;
    queue.Enqueue(neighbor);
    order', from' := order + [neighbor], from + [head - 1];
    assert visited[..] == vis[neighbor := true];
    assert parent[..] == par[neighbor := curr];
    assert weights[..] == wt[neighbor := n.data];
  }

  /** Discovering an unvisited neighbour `n` of the last dequeued vertex keeps
      the search state, and the queue has room for it. */
  lemma Discover(g: Graph, start: int, order: seq<int>, from: seq<int>, head: int,
                 vis: seq<bool>, par: seq<int>, wt: seq<int32>, items: seq<int>, n: Neighbor)
    requires WellFormed(g) && Searching(g, start, order, from, head, vis, par, wt, items)
    requires 1 <= head && n in g.adj[order[head - 1]] && !vis[n.vertex]
    requires Expanded(g, order, head - 1, vis)
    ensures |items| < g.vertices
    ensures Searching(g, start, order + [n.vertex], from + [head - 1], head, vis[n.vertex := true],
                      par[n.vertex := order[head - 1]], wt[n.vertex := n.data], items + [n.vertex])
    ensures Expanded(g, order + [n.vertex], head - 1, vis[n.vertex := true])
  {
    DiscoverRoom(g, start, order, from, head, vis, par, wt, items, n.vertex);
    DiscoverKeeps(g, start, order, from, head, vis, par, wt, items, n);
    ExpandedGrows(g, order, order + [n.vertex], head - 1, vis, vis[n.vertex := true]);
  }

  /** An unvisited vertex has no edge from the vertices expanded so far, so
      the last dequeued vertex is the first with an edge to it. */
  lemma DiscoverFirst(g: Graph, start: int, order: seq<int>, from: seq<int>, head: int,
                      vis: seq<bool>, par: seq<int>, wt: seq<int32>, items: seq<int>, v: int)
    requires WellFormed(g) && Searching(g, start, order, from, head, vis, par, wt, items)
    requires 1 <= head && 0 <= v < g.vertices && !vis[v] && Expanded(g, order, head - 1, vis)
    requires FirstDiscoverers(g, order, from)
    ensures FirstDiscoverers(g, order + [v], from + [head - 1])
  {
    var order', from' := order + [v], from + [head - 1];
    forall i, k | 1 <= i < |order'| && 0 <= k < from'[i] && k < |order'|
      ensures !HasEdge(g, order'[k], order'[i])
    {
      if i < |order| {
        assert order'[i] == order[i] && order'[k] == order[k] && from'[i] == from[i];
      } else {
        assert order'[i] == v && order'[k] == order[k];
      }
    }
  }

  /** Discovering an unvisited vertex through the first entry for it in the
      last dequeued vertex's list, after every vertex that list discovered
      before, records that entry's weight and keeps the entry order. */
  lemma DiscoverInOrder(g: Graph, order: seq<int>, from: seq<int>, head: int, wt: seq<int32>, n: Neighbor, k: int)
    requires WellFormed(g) && |from| == |order| && |wt| == g.vertices && 1 <= head <= |order|
    requires forall i :: 0 <= i < |order| ==> 0 <= order[i] < g.vertices
    requires forall i :: 1 <= i < |order| ==> 0 <= from[i] < i
    requires 0 <= n.vertex < g.vertices && n.vertex !in order
    requires 0 <= k < |g.adj[order[head - 1]]| && g.adj[order[head - 1]][k] == n
    requires Position(g.adj[order[head - 1]], n.vertex) == k
    requires forall i :: 1 <= i < |order| && from[i] == head - 1 ==> Position(g.adj[order[head - 1]], order[i]) < k
    requires EntryOrder(g, order, from, wt)
    ensures EntryOrder(g, order + [n.vertex], from + [head - 1], wt[n.vertex := n.data])
  {
    DiscoverWeight(g, order, from, head, wt, n, k);
    DiscoverListOrder(g, order, from, head, n.vertex, k);
  }

  /** The entry that discovers a vertex is the first for it, so its weight is
      `getWeight`'s. */
  lemma DiscoverWeight(g: Graph, order: seq<int>, from: seq<int>, head: int, wt: seq<int32>, n: Neighbor, k: int)
    requires WellFormed(g) && |from| == |order| && |wt| == g.vertices && 1 <= head <= |order|
    requires forall i :: 0 <= i < |order| ==> 0 <= order[i] < g.vertices
    requires forall i :: 1 <= i < |order| ==> 0 <= from[i] < i
    requires 0 <= n.vertex < g.vertices && n.vertex !in order
    requires 0 <= k < |g.adj[order[head - 1]]| && g.adj[order[head - 1]][k] == n
    requires Position(g.adj[order[head - 1]], n.vertex) == k
    requires EntryWeights(g, order, from, wt)
    ensures EntryWeights(g, order + [n.vertex], from + [head - 1], wt[n.vertex := n.data])
  {
    var order', from', wt' := order + [n.vertex], from + [head - 1], wt[n.vertex := n.data];
    forall i | 1 <= i < |order'|
      ensures wt'[order'[i]] == GetWeight(g, order'[from'[i]], order'[i])
    {
      if i < |order| {
        assert order[i] in order;
        assert order'[i] == order[i] != n.vertex && from'[i] == from[i];
        assert wt'[order'[i]] == wt[order[i]] == GetWeight(g, order[from[i]], order[i]);
      } else {
        assert order'[i] == n.vertex && order'[from'[i]] == order[head - 1];
        assert GetWeight(g, order[head - 1], n.vertex) == n.data;
      }
    }
  }

  /** A vertex discovered through entry `k` comes after those the same list
      discovered through earlier entries. */
  lemma DiscoverListOrder(g: Graph, order: seq<int>, from: seq<int>, head: int, v: int, k: int)
    requires WellFormed(g) && |from| == |order| && 1 <= head <= |order|
    requires forall i :: 0 <= i < |order| ==> 0 <= order[i] < g.vertices
    requires forall i :: 1 <= i < |order| ==> 0 <= from[i] < i
    requires 0 <= v < g.vertices && Position(g.adj[order[head - 1]], v) == k
    requires forall i :: 1 <= i < |order| && from[i] == head - 1 ==> Position(g.adj[order[head - 1]], order[i]) < k
    requires ListOrder(g, order, from)
    ensures ListOrder(g, order + [v], from + [head - 1])
  {
    var order', from' := order + [v], from + [head - 1];
    forall i, j | 1 <= i < j < |order'| && from'[i] == from'[j]
      ensures Position(g.adj[order'[from'[i]]], order'[i]) < Position(g.adj[order'[from'[i]]], order'[j])
    {
      assert order'[i] == order[i] && from'[i] == from[i] && order'[from'[i]] == order[from[i]];
      if j == |order| {
        assert from[i] == head - 1 && order'[j] == v;
      } else {
        assert order'[j] == order[j] && from'[j] == from[j];
      }
    }
  }

  /** While some vertex is undiscovered, the queue is not full. */
  lemma DiscoverRoom(g: Graph, start: int, order: seq<int>, from: seq<int>, head: int,
                     vis: seq<bool>, par: seq<int>, wt: seq<int32>, items: seq<int>, v: int)
    requires WellFormed(g) && Searching(g, start, order, from, head, vis, par, wt, items)
    requires 1 <= head && 0 <= v < g.vertices && !vis[v]
    ensures |items| < g.vertices
  {
    var order' := order + [v];
    assert Distinct(order');
    DistinctBound(order', g.vertices);
  }

  lemma DiscoverKeeps(g: Graph, start: int, order: seq<int>, from: seq<int>, head: int,
                      vis: seq<bool>, par: seq<int>, wt: seq<int32>, items: seq<int>, n: Neighbor)
    requires WellFormed(g) && Searching(g, start, order, from, head, vis, par, wt, items)
    requires 1 <= head && n in g.adj[order[head - 1]] && !vis[n.vertex]
    ensures Searching(g, start, order + [n.vertex], from + [head - 1], head, vis[n.vertex := true],
                      par[n.vertex := order[head - 1]], wt[n.vertex := n.data], items + [n.vertex])
  {
    var order' := order + [n.vertex];
    assert Distinct(order');
    assert order'[head..] == items + [n.vertex];
  }

  /** Discovering more vertices and visiting more keeps the vertices already
      expanded expanded. */
  lemma ExpandedGrows(g: Graph, order: seq<int>, order': seq<int>, done: int, vis: seq<bool>, vis': seq<bool>)
    requires 0 <= done <= |order| <= |order'| && order'[..|order|] == order
    requires |vis'| == |vis| && forall x :: 0 <= x < |vis| && vis[x] ==> vis'[x]
    requires Expanded(g, order, done, vis)
    ensures Expanded(g, order', done, vis')
  {
    assert forall i :: 0 <= i < done ==> order'[i] == order[i];
  }

  /** The output loop of `BFS`: an edge `(parent[v], v, weights[v])` for every
      vertex with a parent, in increasing order of `v`. */
  method EmitTree(parent: array<int>, weights: array<int32>) returns (tree: seq<Edge>)
    requires parent.Length == weights.Length
    ensures tree == ParentEdges(parent[..], weights[..], parent.Length)
  {
    tree := [];
    var v := 0;
    while v < parent.Length
      invariant 0 <= v <= parent.Length
      invariant tree == ParentEdges(parent[..], weights[..], v)
    {
      if parent[v] != -1 {
        tree := tree + [Edge(parent[v], v, weights[v])];
      }
      v := v + 1;
    }
  }

  /** Once the queue is empty, the discovered vertices are closed under edges
      and the parent edges span them, each discovered vertex but the start
      entered from its discoverer. */
  lemma BfsTree(g: Graph, start: int, order: seq<int>, from: seq<int>, vis: seq<bool>, par: seq<int>, wt: seq<int32>)
    requires WellFormed(g) && Searching(g, start, order, from, |order|, vis, par, wt, [])
    requires Expanded(g, order, |order|, vis)
    ensures SpanningTree(g, ParentEdges(par, wt, g.vertices), order) && Closed(g, order)
    ensures forall e :: e in ParentEdges(par, wt, g.vertices) ==> 0 <= e.src < g.vertices && Neighbor(e.dest, e.weight) in g.adj[e.src]
    ensures forall i, j :: 0 <= i < j < |ParentEdges(par, wt, g.vertices)| ==>
      ParentEdges(par, wt, g.vertices)[i].dest < ParentEdges(par, wt, g.vertices)[j].dest
    ensures forall i :: 1 <= i < |order| ==> Edge(order[from[i]], order[i], wt[order[i]]) in ParentEdges(par, wt, g.vertices)
  {
    var tree := ParentEdges(par, wt, g.vertices);
    ParentEdgesDests(par, wt, g.vertices);
    BfsClosed(g, start, order, from, vis, par, wt);
    ParentEdgesValid(g, start, order, from, vis, par, wt);
    ParentEdgesCover(g, start, order, from, vis, par, wt);
    assert Distinct(Dests(tree));
  }

  /** Every parent edge's weight is `getWeight` of its endpoints. */
  lemma ParentEdgesWeights(g: Graph, start: int, order: seq<int>, from: seq<int>, vis: seq<bool>, par: seq<int>, wt: seq<int32>)
    requires WellFormed(g) && Searching(g, start, order, from, |order|, vis, par, wt, [])
    requires EntryOrder(g, order, from, wt)
    ensures forall e :: e in ParentEdges(par, wt, g.vertices) ==> 0 <= e.src < g.vertices && e.weight == GetWeight(g, e.src, e.dest)
  {
    forall e | e in ParentEdges(par, wt, g.vertices)
      ensures 0 <= e.src < g.vertices && e.weight == GetWeight(g, e.src, e.dest)
    {
      ParentEdgesMembers(par, wt, g.vertices, e);
      var i :| 0 <= i < |order| && order[i] == e.dest;
      assert i != 0;
    }
  }

  /** With the queue empty, every neighbour of a discovered vertex is discovered. */
  lemma BfsClosed(g: Graph, start: int, order: seq<int>, from: seq<int>, vis: seq<bool>, par: seq<int>, wt: seq<int32>)
    requires WellFormed(g) && Searching(g, start, order, from, |order|, vis, par, wt, [])
    requires Expanded(g, order, |order|, vis)
    ensures Closed(g, order)
  {
    forall x, y | x in order && 0 <= x < g.vertices && 0 <= y < g.vertices && HasEdge(g, x, y)
      ensures y in order
    {
      var i :| 0 <= i < |order| && order[i] == x;
      var k :| 0 <= k < |g.adj[x]| && g.adj[x][k].vertex == y;
      assert vis[g.adj[order[i]][k].vertex];
    }
  }

  /** Every parent edge is an adjacency entry, from a vertex discovered
      earlier than the vertex it goes into. */
  lemma ParentEdgesValid(g: Graph, start: int, order: seq<int>, from: seq<int>, vis: seq<bool>, par: seq<int>, wt: seq<int32>)
    requires WellFormed(g) && Searching(g, start, order, from, |order|, vis, par, wt, [])
    ensures forall e :: e in ParentEdges(par, wt, g.vertices) ==>
      0 <= e.src < g.vertices && Neighbor(e.dest, e.weight) in g.adj[e.src] &&
      HasEdge(g, e.src, e.dest) && Precedes(order, e.src, e.dest)
  {
    forall e | e in ParentEdges(par, wt, g.vertices)
      ensures 0 <= e.src < g.vertices && Neighbor(e.dest, e.weight) in g.adj[e.src]
      ensures HasEdge(g, e.src, e.dest) && Precedes(order, e.src, e.dest)
    {
      ParentEdgesMembers(par, wt, g.vertices, e);
      var i :| 0 <= i < |order| && order[i] == e.dest;
      assert i != 0;
      var k :| 0 <= k < |g.adj[e.src]| && g.adj[e.src][k] == Neighbor(e.dest, e.weight);
    }
  }

  /** Every discovered vertex but the start has a parent edge, from its discoverer. */
  lemma ParentEdgesCover(g: Graph, start: int, order: seq<int>, from: seq<int>, vis: seq<bool>, par: seq<int>, wt: seq<int32>)
    requires WellFormed(g) && Searching(g, start, order, from, |order|, vis, par, wt, [])
    ensures forall i :: 1 <= i < |order| ==> Edge(order[from[i]], order[i], wt[order[i]]) in ParentEdges(par, wt, g.vertices)
  {
    forall i | 1 <= i < |order|
      ensures Edge(order[from[i]], order[i], wt[order[i]]) in ParentEdges(par, wt, g.vertices)
    {
      ParentEdgesMembers(par, wt, g.vertices, Edge(order[from[i]], order[i], wt[order[i]]));
    }
  }
}
