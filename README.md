# Graph algorithms over a weighted graph, modelled in Dafny

This project models `Algorithms.cpp`, a small library of graph algorithms over an
in-memory weighted graph:

- breadth-first and depth-first spanning trees (`BFS`, `DFSHelper`/`DFS`);
- Dijkstra's shortest-path tree (`dijkstra`), with its selection scan `minDist`
  and the edge update `relax`;
- Prim's minimum spanning tree rooted at vertex 0 (`primMST`, with `minKey`);
- Kruskal's minimum spanning forest (`kruskalMST`), with the Lomuto quicksort
  over edges (`swapEdges`, `partition`, `quickSort`) and a union-find structure.

Each algorithm keeps its own shape:
- It is a method over Dafny arrays, with the source's loops and their invariants.
- `DFSHelper` is a recursive method over the shared `visited` array.
- The BFS queue and the Kruskal union-find are classes whose methods update
  their state in place.

The input graph is a value:
- A vertex count.
- One adjacency list of `(vertex, data)` entries per vertex, in the order the
  graph enumerates them.
- `hasEdge` and `getWeight` are functions over those lists.

The graph each algorithm returns is modelled as the sequence of `addEdge(src,
dest, weight)` calls it makes.

C `int` weights, distances and keys are the newtype `int32`. `INT_MAX` is the
"infinite" sentinel.

Modules, leaves first:

- `Graphs` (graphs.dfy): the graph, edges, and the notions the contracts use:
  - `Distinct`, paths and reachability;
  - closed vertex sets and spanning trees;
  - the lemmas that a closed spanning tree holds exactly the reachable
    vertices and has one edge fewer than vertices.
- `Selection` (selection.dfy): `minDist`, `minKey`, `relax`.
- `PredecessorTrees` (predecessor_trees.dfy): the output loops of `dijkstra`
  and `primMST`, which turn a predecessor array into edges, and the proof
  that those edges form a tree: each vertex is selected after its
  predecessor.
- `ShortestPaths` (shortest_paths.dfy): `dijkstra`.
- `Prim` (prim.dfy): `primMST`.
- `EdgeSort` (edge_sort.dfy): `swapEdges`, `partition`, `quickSort`.
- `DisjointSets` (union_find.dfy): the union-find structure.
- `Forests` (forests.dfy): connectivity through a sequence of edges. Its
  central lemma: after merging along those edges, two vertices share a
  representative exactly when the edges connect them.
- `Kruskal` (kruskal.dfy): `kruskalMST`.
- `DepthFirst` (dfs.dfy): `DFSHelper`, `DFS`.
- `Queues` (queue.dfy) and `BreadthFirst` (bfs.dfy): the queue and `BFS`.

Some single C functions are split into several Dafny methods, each running a
contiguous part of the function's statements in the same order. For example,
the loops of `dijkstra` are `Initialize`, `Settle` (whose rounds are
`FinalizeAndRelax`, with the inner loop `RelaxAll`) and `EmitTree`. The table
names each part with the lines it covers.

Two details of the code the model keeps as written:
- `DFSHelper` descends into `neighbor` when `hasEdge(start, neighbor)` holds,
  an edge from the current vertex to the neighbour.
- `dijkstra`'s output loop tests only `v != start && prev[v] != -1`, not the
  finiteness of the distance. The model proves the two tests agree.

Reachability along edges "lighter than a cap" is the notion behind the
`dijkstra` and `primMST` contracts. After `k` rounds the selected vertices
number `k`, every selected vertex has a finite value, every neighbour of a
selected vertex along a light enough edge has a finite value, and every finite
value belongs to a vertex reachable from the root. When the rounds stop, these
facts pin the finite values to exactly the reachable vertices. For `dijkstra`
every edge counts. For `primMST` only edges whose `getWeight` is below
`INT_MAX` count, because a heavier edge never beats the `INT_MAX` key it would
replace.

## Model

| member | source | states |
|---|---|---|
| Graphs.HasEdge | Algorithms.cpp:86 | `hasEdge(u, v)` holds exactly when some entry of u's adjacency list names v |
| Graphs.GetWeight | Algorithms.cpp:266 | `getWeight(u, v)` is the weight of an entry for v in u's adjacency list when there is one, and 0 otherwise, so Prim may call it before `hasEdge` |
| Graphs.DistinctBound | Algorithms.cpp:22 | distinct vertices below `n` number at most `n`, so a queue of capacity `vertices` holding each vertex at most once cannot overflow |
| Graphs.SpanningTreeIsReachableSet | Algorithms.cpp:59-66 | a spanning tree of a set of vertices closed under edges holds exactly the vertices reachable from its root |
| Graphs.SpanningTreeSize | Algorithms.cpp:59-66 | a spanning tree has exactly one edge fewer than it has vertices |
| Graphs.ClosedContainsPath | Algorithms.cpp:38-57 | a path that starts in a set closed under edges ends in it |
| Graphs.SpanningTreePrefixReachable | Algorithms.cpp:59-66 | every vertex of a spanning tree is reachable from its root |
| Graphs.ReachableBelowStep | Algorithms.cpp:216 | a walk to `u` along light edges, followed by a light edge from `u` to `v`, reaches `v` |
| Graphs.ReachableAnyWeight | Algorithms.cpp:190-233 | with a cap above every `int` weight, reachability along light edges is plain reachability, and only vertices are reachable |
| Graphs.LightClosedContainsPath | Algorithms.cpp:207-218 | a walk along light edges that starts in a set closed under light edges ends in it |
| Graphs.IndicesFlag | Algorithms.cpp:213 | selecting one more vertex adds exactly one to the number selected |
| Graphs.IndicesMissingTwo | Algorithms.cpp:207 | with two distinct vertices unselected, at most `vertices - 2` are selected |
| Queues.Queue.constructor | Algorithms.cpp:22 | `Queue queue(vertices)` is empty, with capacity `vertices` |
| Queues.Queue.IsEmpty | Algorithms.cpp:38 | `isEmpty()` holds exactly when no vertex is queued |
| Queues.Queue.Peek | Algorithms.cpp:40 | `peek()` on a non-empty queue returns the front vertex, the earliest queued of those still queued |
| Queues.Queue.Enqueue | Algorithms.cpp:52 | `enqueue(x)` on a queue with room appends `x` at the back |
| Queues.Queue.Dequeue | Algorithms.cpp:41 | `dequeue()` on a non-empty queue removes the front vertex and keeps the rest in order |
| BreadthFirst.BFS | Algorithms.cpp:19-72 | the tree is a spanning tree of exactly the vertices reachable from `start`, closed under edges, with one edge fewer than vertices. Each edge is an adjacency entry of its source, and its weight is `getWeight` of its ends: the first entry for a vertex is the one that discovers it. Edges are written in increasing order of destination. Each vertex but `start` is entered from the vertex whose list discovered it. Vertices are discovered in the order their discoverers were dequeued, and those discovered by one vertex in the order of its adjacency list. No vertex dequeued before a vertex's discoverer has an edge to it, so each vertex is discovered by the first dequeued vertex adjacent to it |
| BreadthFirst.Initialize | Algorithms.cpp:27-32 | afterwards no vertex is visited, every parent is -1 and every weight is 0 |
| BreadthFirst.Search | Algorithms.cpp:35-57 | from `start` alone visited and queued, the loop ends with the queue empty. Every neighbour of every discovered vertex is then visited, the search invariant holds, and each discovered vertex was discovered by the first dequeued vertex with an edge to it |
| BreadthFirst.Dequeued | Algorithms.cpp:40-41 | the front of the queue is the next undequeued vertex of the discovery order; dequeuing it keeps the search invariant |
| BreadthFirst.Scan | Algorithms.cpp:43-56 | after walking the adjacency list of the dequeued vertex, all its neighbours are visited and the search invariant holds. The vertices it discovered follow their order in the list, and each got the weight of the first entry naming it |
| BreadthFirst.ScanEntry | Algorithms.cpp:44-55 | one entry of the list: its vertex is visited afterwards, the search invariant and the entry order hold, and the scanned prefix grows by one |
| BreadthFirst.ScannedStep | Algorithms.cpp:44-55 | one more adjacency entry keeps the scan's state: every entry so far names a visited vertex, and every vertex this list discovered sits at an earlier position of the list |
| BreadthFirst.ScannedFirst | Algorithms.cpp:46-47 | an entry naming an unvisited vertex is the first entry of the list naming that vertex |
| BreadthFirst.Visit | Algorithms.cpp:47-54 | an unvisited neighbour is marked, gets the current vertex as parent and the entry's weight, and joins the queue and the discovery order. Visited flags change only at that neighbour. Since the entry is the first naming the neighbour, its weight is `getWeight`, and the neighbour comes after every vertex this list discovered before |
| BreadthFirst.Discover | Algorithms.cpp:47-54 | discovering an unvisited neighbour keeps the search invariant and the expanded vertices expanded, and the queue has room for it |
| BreadthFirst.DiscoverInOrder | Algorithms.cpp:47-52 | discovering the vertex of the first entry naming it gives it the weight `getWeight` from the current vertex, and places it after the earlier discoveries of this list in list order |
| BreadthFirst.DiscoverRoom | Algorithms.cpp:52 | while some vertex is unvisited, the queue holds fewer than `vertices` vertices |
| BreadthFirst.DiscoverFirst | Algorithms.cpp:43-54 | an unvisited neighbour has no edge from any vertex expanded earlier, so the current vertex is the first dequeued vertex with an edge to it |
| BreadthFirst.DiscoverKeeps | Algorithms.cpp:49-52 | marking, parenting, weighting and queuing an unvisited neighbour keeps the search invariant |
| BreadthFirst.EmitTree | Algorithms.cpp:59-66 | the output loop writes exactly the parent edges of the vertices with a parent, in increasing vertex order |
| BreadthFirst.ParentEdgesDests | Algorithms.cpp:59-66 | the parent edges go into exactly the vertices whose parent is not -1, in increasing order |
| BreadthFirst.ParentEdgesMembers | Algorithms.cpp:59-66 | an edge is written exactly when it is `(parent[v], v, weights[v])` for a vertex `v` with a parent |
| BreadthFirst.BfsTree | Algorithms.cpp:38-66 | once the queue is empty, the parent edges span the discovered vertices. The discovered set is closed under edges. Every edge is an adjacency entry, in increasing destination order. Each discovered vertex but `start` has the edge from its discoverer |
| BreadthFirst.BfsClosed | Algorithms.cpp:38-57 | once the queue is empty, every neighbour of a discovered vertex has been discovered |
| BreadthFirst.ParentEdgesValid | Algorithms.cpp:59-66 | every parent edge is an adjacency entry of its source, from a vertex discovered before its destination |
| BreadthFirst.ParentEdgesCover | Algorithms.cpp:59-66 | every discovered vertex but `start` receives the edge from its discoverer |
| BreadthFirst.ParentEdgesWeights | Algorithms.cpp:38-66 | every parent edge is weighted by `getWeight` of its ends |
| DepthFirst.DFSHelper | Algorithms.cpp:81-92 | the call enters `start` and then vertices each unvisited before the call, each at most once. Exactly those become visited. Every neighbour of an entered vertex is visited on return. The tree grows by one edge into each entered vertex but `start`, in entry order, from a vertex entered earlier, weighted by `getWeight`. The edges it adds out of any one vertex enter vertices in increasing index order. Each vertex but `start` is entered depth first: from the deepest entered vertex that still has an unvisited neighbour, as the lowest unvisited neighbour of that vertex. Every vertex entered after its source has returned with all its neighbours visited, and every neighbour of the source below it was found visited. Hence each vertex is entered from the last vertex entered before it that has an edge to it |
| DepthFirst.DFS | Algorithms.cpp:100-115 | the tree is a spanning tree of exactly the vertices reachable from `start`, closed under edges. It holds one edge into each vertex but `start`, in the order they were entered, each weighted by `getWeight`. Edges out of the same vertex appear in increasing order of the vertex they enter. Each vertex is entered depth first, as `DFSHelper` enters it from nothing visited, so from the last vertex entered before it that has an edge to it |
| DepthFirst.UnvisitedShrinks | Algorithms.cpp:83-89 | marking an unvisited vertex strictly reduces the number of unvisited vertices, so the recursion terminates |
| DepthFirst.UnvisitedMonotone | Algorithms.cpp:83-89 | visiting more vertices never leaves more unvisited |
| DepthFirst.SkipExplored | Algorithms.cpp:85-86 | skipping a neighbour that is visited or not adjacent keeps the call's exploration state, one neighbour further |
| DepthFirst.DescendExplored | Algorithms.cpp:86-89 | descending into an unvisited neighbour and returning keeps the call's exploration state, one neighbour further, with the callee's vertices appended |
| DepthFirst.DescendProgress | Algorithms.cpp:86-89 | descending into an unvisited neighbour and returning keeps the loop's progress, one neighbour further: the exploration state, the tree growth, the increasing order of edges and the depth-first entry |
| DepthFirst.DescendEntryStep | Algorithms.cpp:86-89 | after a descent, every vertex entered so far by the call, on the tree edges the call holds, is entered depth first |
| DepthFirst.DescendEntry | Algorithms.cpp:85-89 | after a descent, every vertex entered so far is entered depth first: those entered before as they were, the neighbour from the start vertex, and the callee's vertices as the callee entered them |
| DepthFirst.KeptEntry | Algorithms.cpp:85-89 | a vertex entered depth first before a descent stays so once the callee's vertices are appended |
| DepthFirst.StartEntry | Algorithms.cpp:85-88 | the neighbour is entered depth first from the start vertex: every vertex entered by earlier descents has all its neighbours visited, and every lower neighbour of the start vertex is visited |
| DepthFirst.DescendedEntry | Algorithms.cpp:81-89 | a vertex the callee entered depth first from what was visited at the call is entered depth first by the caller |
| DepthFirst.SeenShift | Algorithms.cpp:83-89 | a vertex visited by the callee before it entered its `q`-th vertex is visited by the caller before the matching vertex |
| DepthFirst.EntryLastAdjacent | Algorithms.cpp:85-89 | depth-first entry implies each vertex is entered from the last vertex entered before it that has an edge to it |
| DepthFirst.DescendGrows | Algorithms.cpp:88-89 | the edge to the neighbour followed by the callee's edges extends the tree by one edge into each newly entered vertex |
| DepthFirst.DescendDests | Algorithms.cpp:88-89 | the destinations of the extended edges are the newly entered vertices in order |
| DepthFirst.DescendEdgesFrom | Algorithms.cpp:88-89 | every extended edge is a graph edge weighted by `getWeight`, from a vertex entered earlier |
| DepthFirst.DescendAscending | Algorithms.cpp:85-89 | after a descent, the edges added out of each vertex are still in increasing destination order. Those out of the start vertex enter vertices no higher than the neighbour just tried |
| DepthFirst.AscendingJoin | Algorithms.cpp:85-89 | a new edge out of the start vertex into a higher vertex, followed by edges out of vertices not yet entered, keeps the edges out of each vertex in increasing order |
| DepthFirst.DfsSpanningTree | Algorithms.cpp:105-110 | a search from nothing visited enters a set closed under edges, and its edges span that set |
| DepthFirst.DfsDetermined | Algorithms.cpp:100-115 | two results that both meet the contract of `DFS` from the same start have the same tree and the same order: the contract pins down the depth-first tree |
| DepthFirst.TreeSteps | Algorithms.cpp:100-115 | a depth-first tree enters each vertex but `start` along its own tree edge, from an earlier vertex, depth first |
| DepthFirst.StepsDetermined | Algorithms.cpp:100-115 | two orders entered step by step depth first from the same start are equal, and so are their trees |
| DepthFirst.PrefixAgree | Algorithms.cpp:81-92 | two such orders agree on every common prefix length |
| DepthFirst.StepAgree | Algorithms.cpp:81-92 | from the same entered vertices, both orders enter the same next vertex along the same tree edge |
| DepthFirst.EntryAt | Algorithms.cpp:85-89 | each vertex but the first is entered along its tree edge from an earlier vertex with an edge to it, depth first |
| DepthFirst.SameEntry | Algorithms.cpp:85-89 | from the same entered vertices the next vertex is determined: its source is the deepest vertex with an unvisited neighbour and it is that vertex's lowest unvisited neighbour |
| DepthFirst.SourceAt | Algorithms.cpp:88 | the tree edge into each entered vertex comes from an earlier entered vertex, is a graph edge and is weighted by `getWeight` |
| DepthFirst.NotClosedBefore | Algorithms.cpp:85-89 | no proper prefix of the order is closed under edges: the search stops only when nothing more is reachable |
| Selection.MinDist | Algorithms.cpp:124-137 | returns -1 exactly when every unfinalised vertex has distance `INT_MAX`. Otherwise it returns the lowest-indexed unfinalised vertex among those of least distance |
| Selection.MinKey | Algorithms.cpp:168-182 | returns -1 exactly when every vertex outside the tree has key `INT_MAX`. Otherwise it returns the lowest-indexed vertex outside the tree among those of least key |
| Selection.Relax | Algorithms.cpp:148-159 | only `distances[v]` and `prev[v]` can change, and nothing changes when there is no edge or `distances[u]` is `INT_MAX`. Otherwise `distances[v]` becomes `min(old, distances[u] + getWeight(u, v))`, and `prev[v]` becomes `u` exactly on strict improvement. Distances never increase |
| ShortestPaths.Dijkstra | Algorithms.cpp:190-233 | the start keeps distance 0. A final distance is finite exactly when its vertex is reachable from the start. The edges go into exactly the reachable vertices other than the start, which are those with a finite final distance, in increasing order. Each edge is a graph edge weighted by `getWeight`, and that weight is the difference of its endpoints' distances. The reachable vertices can be listed, start first, so that every edge runs from an earlier vertex to a later one: the edges form a tree rooted at the start. At most `vertices - 1` edges are written |
| ShortestPaths.Initialize | Algorithms.cpp:198-205 | every distance is `INT_MAX` but the start's 0, nothing is finalised, no predecessor is set; the invariant holds and the frontier is at round 0 |
| ShortestPaths.Settle | Algorithms.cpp:207-218 | the rounds keep the invariant and the frontier, and stop after `vertices - 1` rounds or when no unfinalised vertex has a finite distance. The finalised vertices, in the order the rounds finalise them, start at the start vertex, and each one's predecessor was finalised before it |
| ShortestPaths.FinalizeAndRelax | Algorithms.cpp:213-217 | `u` is finalised, and each vertex's distance and predecessor become what `relax(u, v)` gives from the old arrays. The invariant holds with the distance bound raised by one weight, and the frontier moves one round on |
| ShortestPaths.RelaxAll | Algorithms.cpp:214-217 | each vertex's distance and predecessor become what `relax(u, v)` gives from the arrays before the loop. The invariant holds and no finalised distance changes |
| ShortestPaths.RelaxingStep | Algorithms.cpp:214-217 | one more `relax(u, v)` keeps the inner loop's state: the invariant, and every vertex up to `v` relaxed from the arrays before the loop while the rest are untouched |
| ShortestPaths.RelaxedUpToStep | Algorithms.cpp:216 | relaxing the next vertex, while `u`'s distance is unchanged, extends the relaxed prefix by one |
| ShortestPaths.RoundKeepsFrontier | Algorithms.cpp:209-217 | finalising the selected vertex and relaxing against it moves the frontier one round on |
| ShortestPaths.RelaxLowers | Algorithms.cpp:214-217 | relaxing against a finite `u` raises no distance and makes every neighbour of `u` finite |
| ShortestPaths.RelaxReaches | Algorithms.cpp:214-217 | a distance that relaxing against a reachable `u` made finite belongs to a vertex reachable through `u` |
| ShortestPaths.DijkstraReach | Algorithms.cpp:207-218 | when the rounds stop, a distance is finite exactly when its vertex is reachable from the start |
| ShortestPaths.FinalizeKeepsInvariant | Algorithms.cpp:209-213 | finalising the selected vertex keeps the invariant; it is no nearer than any finalised vertex and is within the bound |
| ShortestPaths.RelaxKeepsInvariant | Algorithms.cpp:216 | one relaxation against the last finalised vertex keeps the invariant and changes no finalised distance |
| ShortestPaths.SafeWeight | Algorithms.cpp:153-155 | weights of at most `INT_MAX / vertices` keep `vertices` rounds of relaxation within `INT_MAX` |
| ShortestPaths.NextBound | Algorithms.cpp:207 | one more round of relaxation stays within `INT_MAX` |
| ShortestPaths.PredecessorFacts | Algorithms.cpp:220-226 | when the rounds end, predecessors are vertices or -1, and exactly the vertices with a predecessor are reached. Each predecessor is joined to its vertex by an edge weighing the difference of their distances |
| ShortestPaths.PredecessorsKept | Algorithms.cpp:213-217 | finalising `u` and relaxing against it changes the predecessor of no finalised vertex, `u` included |
| ShortestPaths.FinalFacts | Algorithms.cpp:220-226 | when the rounds end, exactly the vertices with a predecessor are reached, every predecessor is finalised and is joined to its vertex by an edge |
| ShortestPaths.EmitTree | Algorithms.cpp:220-226 | the output loop writes exactly the predecessor edges of the vertices other than the start, in increasing vertex order |
| ShortestPaths.PredecessorEdgesAreDistanceEdges | Algorithms.cpp:220-226 | every predecessor edge is a graph edge weighted by `getWeight` whose weight is the difference of its endpoints' distances |
| Selection.FrontierStart | Algorithms.cpp:198-205 | before the first round, with only the root finite and nothing selected, the frontier holds at round 0 |
| Selection.FrontierReach | Algorithms.cpp:207-218 | when the rounds stop, either after `vertices - 1` of them or with no unselected vertex finite, a value is finite exactly when its vertex is reachable from the root along light edges |
| PredecessorTrees.PredecessorEdgesDests | Algorithms.cpp:220-226 | the predecessor edges go into exactly the reached vertices other than the start, in increasing order |
| PredecessorTrees.RankStep | Algorithms.cpp:207-218 | selecting a vertex with a finite value whose predecessor, if any, is already selected, and then changing no selected vertex's predecessor, extends the selection order by that vertex: the order still starts at the root and lists each vertex after its predecessor |
| PredecessorTrees.PredecessorTree | Algorithms.cpp:220-226 | when the rounds end, the predecessor edges form a spanning tree of the vertices with a finite value, rooted at the start: the selected vertices in selection order, followed by the rest, put every predecessor before its vertex |
| PredecessorTrees.FullOrderVertices | Algorithms.cpp:220-226 | the selection order followed by the unselected vertices of finite value lists each vertex of finite value exactly once |
| PredecessorTrees.PredecessorPrecedes | Algorithms.cpp:220-226 | in that listing each vertex with a predecessor comes after it |
| Prim.PrimMST | Algorithms.cpp:240-289 | the root 0 has key 0 and never receives an edge. A final key is finite exactly when its vertex is reachable from 0 along edges whose `getWeight` is below `INT_MAX`. The edges go into exactly those vertices other than 0, which are the other vertices with a finite key, in increasing order. Each edge is a graph edge weighted by `getWeight`, and its weight is its destination's key. Those vertices can be listed, 0 first, so that every edge runs from an earlier vertex to a later one: the edges form a tree rooted at 0. At most `vertices - 1` edges are written |
| Prim.PrimInitialize | Algorithms.cpp:247-254 | every key is `INT_MAX` but the root's 0, nothing is in the tree, no parent is set; the invariant holds and the frontier is at round 0 |
| Prim.Grow | Algorithms.cpp:256-273 | the rounds keep the invariant and the frontier, and stop after `vertices - 1` rounds or when no vertex outside the tree has a finite key. The tree vertices, in the order they joined, start at 0, and each one's parent joined before it |
| Prim.FinalizeAndUpdate | Algorithms.cpp:258-272 | `u` joins the tree, and each vertex's key and parent become what the update against `u` gives from the old arrays. The invariant holds and the frontier moves one round on |
| Prim.UpdateKeys | Algorithms.cpp:264-272 | each vertex outside the tree joined to `u` by an edge lighter than its key takes that weight as key and `u` as parent; every other vertex keeps its key and parent. The invariant holds, no key increases, and tree vertices do not change |
| Prim.UpdatingStep | Algorithms.cpp:264-272 | one more update keeps the loop's state: the invariant, and every vertex up to `v` updated from the arrays before the loop while the rest are untouched |
| Prim.UpdatedFacts | Algorithms.cpp:264-272 | after updating every vertex, no key grew and tree vertices kept their keys and parents |
| Prim.UpdateKeepsFrontier | Algorithms.cpp:258-272 | adding the selected vertex and updating against it moves the frontier one round on |
| Prim.UpdateLowers | Algorithms.cpp:264-272 | the update lowers keys only, keeps the tree's keys, and gives a finite key to every neighbour outside the tree along an edge lighter than `INT_MAX` |
| Prim.UpdateReaches | Algorithms.cpp:264-272 | a key that updating against a reachable `u` made finite belongs to a vertex reachable through `u` |
| Prim.PrimReachedDests | Algorithms.cpp:275-282 | with the finite keys at exactly the reachable vertices, the tree's edges go into exactly the reachable vertices other than 0 |
| Prim.FinalizeKeepsPrimInvariant | Algorithms.cpp:258-262 | adding the selected vertex to the tree keeps the invariant, and the root is then in the tree |
| Prim.UpdateKeepsPrimInvariant | Algorithms.cpp:267-271 | lowering a non-tree vertex's key to the weight of its edge from a tree vertex, with that vertex as parent, keeps the invariant |
| Prim.PrimParentFacts | Algorithms.cpp:276-282 | when the rounds end, exactly the vertices other than 0 with a parent have a finite key. Each parent is joined to its vertex by an edge weighing its key |
| Prim.PrimTreeFacts | Algorithms.cpp:258-272 | between rounds, exactly the vertices with a parent, and 0, have a finite key, and every parent is a tree vertex joined to its child by an edge |
| Prim.ParentsKept | Algorithms.cpp:264-272 | updating against `u` changes the parent of no tree vertex, `u` included |
| Prim.EmitMst | Algorithms.cpp:275-282 | the output loop writes exactly the parent edges of the vertices other than 0, in increasing vertex order |
| Prim.ParentEdgesAreMstEdges | Algorithms.cpp:276-282 | every parent edge is a graph edge weighted by `getWeight`, whose weight is its destination's key |
| EdgeSort.SwapEdges | Algorithms.cpp:296-301 | the two cells exchange their edges and no other cell changes |
| EdgeSort.SwapPermutes | Algorithms.cpp:296-301 | a swap inside `[low, high]` permutes that range and leaves the rest in place |
| EdgeSort.PermutesTrans | Algorithms.cpp:336-338 | two permutations of a range compose to one |
| EdgeSort.PermutesWiden | Algorithms.cpp:336-338 | a permutation of a range is one of any range containing it |
| EdgeSort.PermutesMiddle | Algorithms.cpp:336-338 | a permutation of a range keeps the multiset of that range |
| EdgeSort.PermutesKeepsWeights | Algorithms.cpp:336-338 | a permutation of a range keeps every bound on the range's weights |
| EdgeSort.Partition | Algorithms.cpp:310-324 | returns `p` in `[low, high]`, holding the old `arr[high]`. Every edge in `[low, p)` weighs less than it and every edge in `(p, high]` at least as much. The array is a permutation of the old one within `[low, high]` and unchanged outside |
| EdgeSort.Scan | Algorithms.cpp:312-321 | after the loop, `[low, i]` weighs less than the pivot and `(i, high)` at least as much, the pivot is still at `high`, and the range is permuted |
| EdgeSort.PartitionStep | Algorithms.cpp:316-320 | one loop step, swapping or not, keeps the partition invariant |
| EdgeSort.SwapWeights | Algorithms.cpp:318-319 | swapping a lighter edge into `i + 1` extends the lighter part by one |
| EdgeSort.PartitionFinish | Algorithms.cpp:322-323 | the final swap puts the pivot at `i + 1` between the two parts and keeps the permutation |
| EdgeSort.FinishWeights | Algorithms.cpp:322 | the final swap keeps both weight bounds |
| EdgeSort.QuickSort | Algorithms.cpp:332-340 | afterwards `arr[low..high]` is sorted by weight and a permutation of the old range, and nothing outside it changes |
| EdgeSort.QuickSortCombine | Algorithms.cpp:336-338 | partitioning and then sorting both sides sorts and permutes the whole range |
| EdgeSort.KeepsOutside | Algorithms.cpp:337-338 | sorting one side leaves the cells and weight bounds of the other side unchanged |
| EdgeSort.SortedJoin | Algorithms.cpp:336-338 | two sorted sides separated by the pivot form a sorted range |
| DisjointSets.Identity | Algorithms.cpp:390 | every vertex starts alone: two vertices share a representative exactly when they are equal |
| DisjointSets.RelabelIsLabelling | Algorithms.cpp:403 | merging two classes keeps every representative a self-representing vertex |
| DisjointSets.RelabelMerges | Algorithms.cpp:403 | after `unionSets(x, y)` two vertices share a class exactly when they did before or one came from each merged class |
| DisjointSets.RelabelJoins | Algorithms.cpp:403 | the two merged vertices share a representative afterwards |
| DisjointSets.RelabelKeeps | Algorithms.cpp:403 | vertices that shared a representative still do after any merge |
| DisjointSets.UnionFind.constructor | Algorithms.cpp:390 | `UnionFind uf(vertices)` puts every vertex in a class of its own |
| DisjointSets.UnionFind.Find | Algorithms.cpp:398-399 | `find(x)` is a representative, and it is shared by exactly the vertices of `x`'s class |
| DisjointSets.UnionFind.UnionSets | Algorithms.cpp:403 | `unionSets(x, y)` on two representatives moves the class of `x` into the class of `y`; nothing else changes |
| Forests.Labels | Algorithms.cpp:398-403 | the representatives after merging along the accepted edges in order form a labelling |
| Forests.LabelsConnected | Algorithms.cpp:398-401 | two vertices have the same representative exactly when the accepted edges connect them |
| Forests.WalkKeepsLabel | Algorithms.cpp:403 | every vertex of a walk along the accepted edges has its first vertex's representative |
| Forests.LinkKeepsLabel | Algorithms.cpp:403 | the two ends of an accepted edge share a representative |
| Forests.LabelsStep | Algorithms.cpp:403 | accepting one more edge merges the class of its source into the class of its destination |
| Forests.EdgeConnects | Algorithms.cpp:402 | an accepted edge connects its endpoints |
| Forests.ConnectedWiden | Algorithms.cpp:402 | accepting an edge keeps every connection |
| Forests.ConnectedThrough | Algorithms.cpp:402 | connections to both ends of an accepted edge join up |
| Forests.AcyclicExtend | Algorithms.cpp:401-403 | accepting an edge between vertices not yet connected keeps the accepted edges a forest |
| Kruskal.KruskalMST | Algorithms.cpp:347-411 | the result is empty for no vertices and at most `vertices - 1` edges otherwise. Every edge is one of the deduplicated graph edges, and the edges come in non-decreasing weight order. They form a forest. With fewer than `vertices - 1` edges, the forest connects the ends of every deduplicated edge. In a graph that registers each edge at both ends, it then connects the ends of every graph edge |
| Kruskal.ConnectsGraphEdges | Algorithms.cpp:370-384 | in a graph that registers each edge at both ends, a forest connecting the ends of every deduplicated edge connects the ends of every graph edge, since an edge to a lower vertex is collected from its other end |
| Kruskal.CountEdges | Algorithms.cpp:352-365 | `edgeCount` is the number of adjacency entries `(i, v)` with `i < v` |
| Kruskal.CollectEdges | Algorithms.cpp:368-384 | the array holds exactly those entries as edges `(i, v, weight)`, in adjacency order |
| Kruskal.UniqueEdgesExactly | Algorithms.cpp:370-384 | an edge is collected exactly when it is an adjacency entry of its source with source below destination |
| Kruskal.ForwardEdgesExactly | Algorithms.cpp:373-383 | from one adjacency list, exactly the entries to a larger vertex are collected |
| Kruskal.ForwardEdgesGrow | Algorithms.cpp:373-383 | walking further along a list collects no fewer edges |
| Kruskal.UniqueEdgesGrow | Algorithms.cpp:370-384 | scanning more vertices collects no fewer edges |
| Kruskal.CollectBound | Algorithms.cpp:377-380 | the running index stays below `edgeCount` while edges remain to be stored |
| Kruskal.SortedEdgesInRange | Algorithms.cpp:387 | after sorting, every edge still joins two vertices of the graph |
| Kruskal.SameElements | Algorithms.cpp:387 | sorting keeps exactly the same edges |
| Kruskal.SelectEdges | Algorithms.cpp:390-406 | the greedy loop over the sorted edges accepts at most `vertices - 1`, in the array's order and so by non-decreasing weight. The accepted edges form a forest. Short of `vertices - 1` accepted edges, they connect the ends of every array edge |
| Kruskal.GreedyDone | Algorithms.cpp:396-406 | when the loop stops, the accepted edges come from the array. Short of `vertices - 1` accepted edges, every array edge was examined, so its ends are connected |
| Kruskal.Examine | Algorithms.cpp:397-405 | an edge is accepted exactly when the edges accepted so far do not connect its ends, which is when `find` gives them different representatives. Accepting it and merging keeps the union-find in step with the accepted edges, and keeps the greedy invariant |
| Kruskal.AcceptStep | Algorithms.cpp:401-404 | accepting an edge whose ends are not yet connected keeps the greedy invariant, and merges their classes |
| Kruskal.AcceptConnects | Algorithms.cpp:401-404 | after accepting, the ends of every edge examined so far are connected |
| Kruskal.AcceptOrder | Algorithms.cpp:402 | accepting the next sorted edge keeps the accepted edges in non-decreasing weight order, no heavier than the edges still to come |
| Kruskal.RejectStep | Algorithms.cpp:401 | skipping an edge whose ends are already connected keeps the greedy invariant |

## Left out

- The graph container, its `Vertex` linked-list nodes, the queue and the
  union-find are not part of this model beyond the behaviour the algorithms
  use. The graph is a value with one adjacency sequence per vertex, walked by
  index rather than by `next` pointers. `hasEdge`/`getWeight` look for the first
  entry naming the vertex. The output graph is the sequence of `addEdge` calls,
  without the symmetric registration the container may perform.
- DisjointSets.UnionFind.Find: the union-find is modelled as quick-find, an array
  of representatives that `unionSets` relabels. A parent-chasing `find`, path
  compression and the cost of either are not modelled. The classes `find` and
  `unionSets` produce are the same.
- Memory management (`new[]`/`delete[]`) is not modelled. Arrays are Dafny
  arrays, and nothing is freed.
- C `int` overflow is excluded by preconditions rather than modelled as
  wrap-around:
  - ShortestPaths.Dijkstra: requires every weight to be at most
    `INT_MAX / vertices`, so no sum of distances overflows.
  - Selection.Relax: requires `distances[u] + getWeight(u, v)` to fit in an
    `int` whenever the update applies.
  - Loop counters and `edgeCount` are unbounded integers.
- An out-of-range start vertex, or `primMST` on a graph with no vertices, is
  undefined behaviour in the source (unchecked array access). It is a
  precondition here.
- ShortestPaths.Dijkstra: that the distances are least path weights is not
  proved. The contract states which distances are finite (those of the
  reachable vertices) and which vertices get an edge, that the edges form a
  tree rooted at the start, and that each edge's weight is the difference of
  its endpoints' distances.
- Prim.PrimMST: minimality of the total weight is not proved. The contract
  states which keys are finite, which vertices get an edge, that the edges
  form a tree rooted at 0 and that each edge weighs its destination's key.
- Kruskal.KruskalMST: minimality of the total weight is not proved. When the
  loop stops at `vertices - 1` accepted edges, that the forest spans every
  vertex is not stated (it follows from acyclicity by counting).
- Kruskal.KruskalMST: in a graph that does not register every edge at both
  ends, an edge stored only at its higher end is never collected, and the
  contract says nothing about it.
- Recursion depth of `DFSHelper` (call-stack growth) is not modelled.
