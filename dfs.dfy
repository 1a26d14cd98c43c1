/** Depth-first search: `DFSHelper` recurses through a shared `visited`
    array, trying the neighbours of each vertex in increasing index order and
    adding a tree edge before each descent; `DFS` starts it from one vertex. */
module DepthFirst {
  import opened Graphs

  /** The number of unvisited vertices: what each descent of `DFSHelper` reduces. */
  function Unvisited(vis: seq<bool>): (c: nat)
    ensures c <= |vis|
  {
    if vis == [] then 0
    else Unvisited(vis[..|vis| - 1]) + (if vis[|vis| - 1] then 0 else 1)
  }

  /** Visiting more vertices never leaves more of them unvisited. */
  lemma {:induction false} UnvisitedMonotone(a: seq<bool>, b: seq<bool>)
    requires |a| == |b| && forall v :: 0 <= v < |a| && a[v] ==> b[v]
    ensures Unvisited(b) <= Unvisited(a)
  {
    if a != [] {
      UnvisitedMonotone(a[..|a| - 1], b[..|b| - 1]);
    }
  }

  /** Visiting a vertex that was unvisited leaves strictly fewer unvisited. */
  lemma {:induction false} UnvisitedShrinks(a: seq<bool>, b: seq<bool>, i: int)
    requires |a| == |b| && 0 <= i < |a| && !a[i] && b[i]
    requires forall v :: 0 <= v < |a| && a[v] ==> b[v]
    ensures Unvisited(b) < Unvisited(a)
  {
    var a', b' := a[..|a| - 1], b[..|b| - 1];
    if i == |a| - 1 {
      UnvisitedMonotone(a', b');
    } else {
      UnvisitedShrinks(a', b', i);
    }
  }

  /** What a call `DFSHelper(start)` has done once it has tried the neighbours
      `0..upto-1` of `start`: the vertices `part` it entered, `start` first,
      each once and each unvisited before the call; exactly these were added to
      the visited vertices; every neighbour of an entered vertex other than
      `start`, and of `start` below `upto`, is visited. */
  ghost predicate Explored(g: Graph, before: seq<bool>, vis: seq<bool>, part: seq<int>, upto: int)
    requires WellFormed(g)
  {
    |before| == g.vertices && |vis| == g.vertices &&
    |part| >= 1 && Distinct(part) &&
    (forall i :: 0 <= i < |part| ==> 0 <= part[i] < g.vertices && !before[part[i]]) &&
    (forall v :: 0 <= v < g.vertices ==> (vis[v] <==> before[v] || v in part)) &&
    (forall x, y :: x in part && x != part[0] && 0 <= y < g.vertices && HasEdge(g, x, y) ==> vis[y]) &&
    (forall y :: 0 <= y < upto && y < g.vertices && HasEdge(g, part[0], y) ==> vis[y])
  }

  /** The tree edges a call adds: one into each entered vertex but the first,
      in the order they were entered; each is a graph edge weighted as the graph
      weighs it, from a vertex entered earlier. */
  ghost predicate TreeEdges(g: Graph, added: seq<Edge>, part: seq<int>)
    requires WellFormed(g) && |part| >= 1
  {
    Dests(added) == part[1..] && EdgesFrom(g, added, part)
  }

  /** Each edge is a graph edge weighted as the graph weighs it, from a vertex
      of `part` to a later one. */
  ghost predicate EdgesFrom(g: Graph, added: seq<Edge>, part: seq<int>)
    requires WellFormed(g)
  {
    forall e :: e in added ==>
      0 <= e.src < g.vertices && HasEdge(g, e.src, e.dest) &&
      e.weight == GetWeight(g, e.src, e.dest) && Precedes(part, e.src, e.dest)
  }

  /** Edges leaving the same vertex were added in increasing order of the
      vertex they enter: the order in which `DFSHelper` tries neighbours. */
  ghost predicate ChildrenAscending(added: seq<Edge>)
  {
    forall i, j :: 0 <= i < j < |added| && added[i].src == added[j].src ==> added[i].dest < added[j].dest
  }

  /** Each entered vertex but the first was entered from the last vertex
      entered before it that has an edge to it: `added[j - 1]` enters
      `part[j]`, and no vertex entered after its source and before `part[j]`
      has an edge to `part[j]`. */
  ghost predicate LastAdjacent(g: Graph, added: seq<Edge>, part: seq<int>)
    requires WellFormed(g)
  {
    forall j, p, k {:trigger HasEdge(g, part[k], part[j]), part[p]} ::
      (0 <= p < k < j < |part| && j - 1 < |added| && part[p] == added[j - 1].src && 0 <= part[k] < g.vertices) ==>
      !HasEdge(g, part[k], part[j])
  }

  /** `y` is visited once the first `j` vertices of `part` have been entered:
      it was visited before the call, or it is one of them. */
  ghost predicate Seen(before: seq<bool>, part: seq<int>, j: int, y: int)
  {
    (0 <= y < |before| && before[y]) || (0 <= j <= |part| && y in part[..j])
  }

  /** `part[j]` is entered along an edge from `part[p]` as `DFSHelper` enters
      it: every vertex entered after `part[p]` has returned with all its
      neighbours visited, and every neighbour of `part[p]` below `part[j]` was
      tried and found visited. */
  ghost predicate EnteredAt(g: Graph, before: seq<bool>, part: seq<int>, j: int, p: int)
    requires WellFormed(g)
  {
    0 <= p < j < |part| &&
    (forall k, y {:trigger HasEdge(g, part[k], y)} ::
      p < k < j && 0 <= part[k] < g.vertices && 0 <= y < g.vertices && HasEdge(g, part[k], y) ==>
      Seen(before, part, j, y)) &&
    (forall y {:trigger HasEdge(g, part[p], y)} ::
      0 <= y < part[j] && 0 <= part[p] < g.vertices && HasEdge(g, part[p], y) ==> Seen(before, part, j, y))
  }

  /** Every entered vertex but the first is entered as `DFSHelper` enters it,
      from the source of its tree edge `added[j - 1]`. */
  ghost predicate DepthFirstEntry(g: Graph, before: seq<bool>, added: seq<Edge>, part: seq<int>)
    requires WellFormed(g)
  {
    forall j, p {:trigger EnteredAt(g, before, part, j, p)} ::
      1 <= j < |part| && j - 1 < |added| && 0 <= p < j && part[p] == added[j - 1].src ==>
      EnteredAt(g, before, part, j, p)
  }

  /** The tree grew from `tree` to `tree'` by the edges of the vertices `part`. */
  ghost predicate Grows(g: Graph, tree: seq<Edge>, tree': seq<Edge>, part: seq<int>)
    requires WellFormed(g) && |part| >= 1
  {
    |tree'| >= |tree| && tree'[..|tree|] == tree && TreeEdges(g, tree'[|tree|..], part)
  }

  /** `DFSHelper(graph, start, visited, DFSTree)`: enter `start`, then for each
      vertex `neighbor` in increasing order, when it is unvisited and joined to
      `start`, add the edge `(start, neighbor)` to the tree and descend into it.
      The tree `tree` grows by the edges `tree'[|tree|..]`; `part` is the
      sequence of vertices entered. Each but `start` is entered depth first
      (`DepthFirstEntry`): from the deepest vertex still having an unvisited
      neighbour, as its lowest such neighbour; so from the last vertex entered
      before it that has an edge to it (`LastAdjacent`). */
  method DFSHelper(g: Graph, start: int, visited: array<bool>, tree: seq<Edge>)
    returns (tree': seq<Edge>, ghost part: seq<int>)
    requires WellFormed(g) && visited.Length == g.vertices && 0 <= start < g.vertices && !visited[start]
    modifies visited
    ensures |part| >= 1 && part[0] == start
    ensures Explored(g, old(visited[..]), visited[..], part, g.vertices)
    ensures Grows(g, tree, tree', part) && ChildrenAscending(tree'[|tree|..])
    ensures DepthFirstEntry(g, old(visited[..]), tree'[|tree|..], part)
    ensures LastAdjacent(g, tree'[|tree|..], part)
    decreases Unvisited(visited[..])
  {
    ghost var before := visited[..];
    visited[start] := true;
    tree' := tree;
    part := [start];
    var neighbor := 0;
    while neighbor < g.vertices
      invariant 0 <= neighbor <= g.vertices && |part| >= 1 && part[0] == start
      invariant Progress(g, before, visited[..], tree, tree', part, neighbor)
    {
      if !visited[neighbor] && HasEdge(g, start, neighbor) {
        ghost var mid := visited[..];
        ghost var prev := tree';
        var e := Edge(start, neighbor, GetWeight(g, start, neighbor));
        tree' := tree' + [e];
        UnvisitedShrinks(before, mid, start);
        ghost var sub;
        tree', sub := DFSHelper(g, neighbor, visited, tree');
        DescendProgress(g, before, mid, visited[..], tree, prev, e, tree', part, sub);
        part := part + sub;
      } else {
        SkipProgress(g, before, visited[..], tree, tree', part, neighbor);
      }
      neighbor := neighbor + 1;
    }
    EntryLastAdjacent(g, before, tree'[|tree|..], part);
  }

  /** The loop of `DFSHelper` has tried the neighbours `0..upto-1` of its start
      vertex `part[0]`: `Explored`, the tree grew by the edges of `part`, and
      the edges it added out of each vertex are in increasing order, those out
      of the start vertex below `upto`; and each vertex was entered as
      `DFSHelper` enters it. */
  ghost predicate Progress(g: Graph, before: seq<bool>, vis: seq<bool>, tree: seq<Edge>, tree': seq<Edge>, part: seq<int>, upto: int)
    requires WellFormed(g)
  {
    Explored(g, before, vis, part, upto) && Grows(g, tree, tree', part) &&
    ChildrenAscending(tree'[|tree|..]) && ChildrenBelow(tree'[|tree|..], part[0], upto) &&
    DepthFirstEntry(g, before, tree'[|tree|..], part)
  }

  /** A neighbour that is already visited, or not joined to the start vertex,
      carries the loop of `DFSHelper` past it without change. */
  lemma SkipProgress(g: Graph, before: seq<bool>, vis: seq<bool>, tree: seq<Edge>, tree': seq<Edge>, part: seq<int>, y: int)
    requires WellFormed(g) && 0 <= y < g.vertices && Progress(g, before, vis, tree, tree', part, y)
    requires vis[y] || !HasEdge(g, part[0], y)
    ensures Progress(g, before, vis, tree, tree', part, y + 1)
  {
    SkipExplored(g, before, vis, part, y);
  }

  /** A completed descent into the unvisited neighbour `sub[0]` of the start
      vertex, along the edge `e`, carries the loop of `DFSHelper` past that
      neighbour. */
  lemma DescendProgress(g: Graph, before: seq<bool>, mid: seq<bool>, after: seq<bool>, tree: seq<Edge>, prev: seq<Edge>, e: Edge, tree': seq<Edge>, part: seq<int>, sub: seq<int>)
    requires WellFormed(g) && |sub| >= 1 && 0 <= sub[0] < g.vertices
    requires Progress(g, before, mid, tree, prev, part, sub[0])
    requires e == Edge(part[0], sub[0], GetWeight(g, part[0], sub[0])) && HasEdge(g, part[0], sub[0])
    requires Explored(g, mid, after, sub, g.vertices) && Grows(g, prev + [e], tree', sub)
    requires ChildrenAscending(tree'[|prev + [e]|..]) && DepthFirstEntry(g, mid, tree'[|prev + [e]|..], sub)
    ensures Progress(g, before, after, tree, tree', part + sub, sub[0] + 1)
  {
    DescendExplored(g, before, mid, after, part, sub, sub[0]);
    DescendGrows(g, tree, prev, e, tree', part, sub);
    DescendAscending(g, tree, prev, e, tree', part, sub);
    DescendEntryStep(g, before, mid, tree, prev, e, tree', part, sub);
  }

  /** The depth-first entry of `Progress` after such a descent, on the tree
      edges as the loop of `DFSHelper` holds them. */
  lemma DescendEntryStep(g: Graph, before: seq<bool>, mid: seq<bool>, tree: seq<Edge>, prev: seq<Edge>, e: Edge, tree': seq<Edge>, part: seq<int>, sub: seq<int>)
    requires WellFormed(g) && |sub| >= 1 && 0 <= sub[0] < g.vertices
    requires Explored(g, before, mid, part, sub[0]) && Distinct(part + sub)
    requires Grows(g, tree, prev, part) && Grows(g, prev + [e], tree', sub)
    requires e.src == part[0] && e.dest == sub[0]
    requires DepthFirstEntry(g, before, prev[|tree|..], part) && DepthFirstEntry(g, mid, tree'[|prev + [e]|..], sub)
    ensures DepthFirstEntry(g, before, tree'[|tree|..], part + sub)
  {
    SuffixSplit(tree', prev + [e], |tree|);
    assert (prev + [e])[|tree|..] == prev[|tree|..] + [e];
    EdgesLeaveFrom(g, tree'[|prev| + 1..], sub);
    DescendEntry(g, before, mid, prev[|tree|..], e, tree'[|prev| + 1..], part, sub);
  }

  /** After a descent into the unvisited neighbour `sub[0]` of the start
      vertex, every vertex entered so far is entered as `DFSHelper` enters it:
      the vertices entered before by the same edges, `sub[0]` from the start
      vertex, and the descent's vertices by the descent's own edges. */
  lemma DescendEntry(g: Graph, before: seq<bool>, mid: seq<bool>, added: seq<Edge>, e: Edge, more: seq<Edge>,
                     part: seq<int>, sub: seq<int>)
    requires WellFormed(g) && |sub| >= 1 && 0 <= sub[0] < g.vertices
    requires Explored(g, before, mid, part, sub[0]) && Distinct(part + sub)
    requires |added| == |part| - 1 && |more| == |sub| - 1 && LeaveFrom(more, sub)
    requires e.src == part[0] && e.dest == sub[0]
    requires DepthFirstEntry(g, before, added, part) && DepthFirstEntry(g, mid, more, sub)
    ensures DepthFirstEntry(g, before, added + [e] + more, part + sub)
  {
    var whole, edges := part + sub, added + [e] + more;
    DistinctSplit(part, sub);
    forall j, p | 1 <= j < |whole| && j - 1 < |edges| && 0 <= p < j && whole[p] == edges[j - 1].src
      ensures EnteredAt(g, before, whole, j, p)
    {
      if j < |part| {
        assert edges[j - 1] == added[j - 1] && whole[p] == part[p];
        assert EnteredAt(g, before, part, j, p);
        KeptEntry(g, before, part, sub, j, p);
      } else if j == |part| {
        assert edges[j - 1] == e && whole[p] == part[p];
        assert p == 0;
        StartEntry(g, before, mid, part, sub);
      } else {
        var q := j - |part|;
        assert edges[j - 1] == more[q - 1] && more[q - 1] in more;
        assert whole[p] in sub && whole[p] !in part;
        assert p >= |part|;
        assert whole[p] == sub[p - |part|];
        assert EnteredAt(g, mid, sub, q, p - |part|);
        DescendedEntry(g, before, mid, part, sub, q, p - |part|);
      }
    }
  }

  /** `DescendEntry` for a vertex entered before the descent: what it saw
      is unchanged. */
  lemma KeptEntry(g: Graph, before: seq<bool>, part: seq<int>, sub: seq<int>, j: int, p: int)
    requires WellFormed(g) && EnteredAt(g, before, part, j, p)
    ensures EnteredAt(g, before, part + sub, j, p)
  {
    var whole := part + sub;
    assert whole[..j] == part[..j];
    assert whole[p] == part[p] && whole[j] == part[j];
    forall k | p < k < j
      ensures whole[k] == part[k]
    {
    }
  }

  /** `DescendEntry` for `sub[0]`, entered from the start vertex: the vertices
      entered after the start vertex had all their neighbours visited, and so
      had the start vertex below `sub[0]`. */
  lemma StartEntry(g: Graph, before: seq<bool>, mid: seq<bool>, part: seq<int>, sub: seq<int>)
    requires WellFormed(g) && |sub| >= 1 && 0 <= sub[0] < g.vertices
    requires Explored(g, before, mid, part, sub[0])
    ensures EnteredAt(g, before, part + sub, |part|, 0)
  {
    var whole := part + sub;
    assert whole[..|part|] == part;
    forall k, y | 0 < k < |part| && 0 <= whole[k] < g.vertices && 0 <= y < g.vertices && HasEdge(g, whole[k], y)
      ensures Seen(before, whole, |part|, y)
    {
      assert whole[k] == part[k] && part[k] in part && part[k] != part[0];
      assert mid[y];
    }
    forall y | 0 <= y < whole[|part|] && 0 <= whole[0] < g.vertices && HasEdge(g, whole[0], y)
      ensures Seen(before, whole, |part|, y)
    {
      assert mid[y];
    }
  }

  /** `DescendEntry` for a vertex the descent entered: what the descent saw
      before entering it was seen by the whole call. */
  lemma DescendedEntry(g: Graph, before: seq<bool>, mid: seq<bool>, part: seq<int>, sub: seq<int>, q: int, r: int)
    requires WellFormed(g) && |before| == g.vertices && |mid| == g.vertices
    requires forall v :: 0 <= v < g.vertices ==> (mid[v] <==> before[v] || v in part)
    requires EnteredAt(g, mid, sub, q, r)
    ensures EnteredAt(g, before, part + sub, |part| + q, |part| + r)
  {
    var whole := part + sub;
    assert whole[|part| + r] == sub[r] && whole[|part| + q] == sub[q];
    forall k, y | |part| + r < k < |part| + q && 0 <= whole[k] < g.vertices && 0 <= y < g.vertices &&
                  HasEdge(g, whole[k], y)
      ensures Seen(before, whole, |part| + q, y)
    {
      assert whole[k] == sub[k - |part|];
      assert Seen(mid, sub, q, y);
      SeenShift(g, before, mid, part, sub, q, y);
    }
    var src, dest := whole[|part| + r], whole[|part| + q];
    forall y | 0 <= y < dest && 0 <= src < g.vertices && HasEdge(g, src, y)
      ensures Seen(before, whole, |part| + q, y)
    {
      assert Seen(mid, sub, q, y);
      SeenShift(g, before, mid, part, sub, q, y);
    }
  }

  /** Seen by the descent before its `q`-th vertex means seen by the call
      before that vertex. */
  lemma SeenShift(g: Graph, before: seq<bool>, mid: seq<bool>, part: seq<int>, sub: seq<int>, q: int, y: int)
    requires |before| == g.vertices && |mid| == g.vertices && 0 <= q <= |sub|
    requires forall v :: 0 <= v < g.vertices ==> (mid[v] <==> before[v] || v in part)
    requires Seen(mid, sub, q, y)
    ensures Seen(before, part + sub, |part| + q, y)
  {
    assert (part + sub)[..|part| + q] == part + sub[..q];
  }

  /** Entering each vertex as `DFSHelper` does means entering it from the last
      vertex entered before it with an edge to it. */
  lemma EntryLastAdjacent(g: Graph, before: seq<bool>, added: seq<Edge>, part: seq<int>)
    requires WellFormed(g) && Distinct(part) && |before| == g.vertices
    requires forall i :: 0 <= i < |part| ==> 0 <= part[i] < g.vertices && !before[part[i]]
    requires DepthFirstEntry(g, before, added, part)
    ensures LastAdjacent(g, added, part)
  {
    forall j, p, k | 0 <= p < k < j < |part| && j - 1 < |added| && part[p] == added[j - 1].src &&
                     0 <= part[k] < g.vertices
      ensures !HasEdge(g, part[k], part[j])
    {
      assert EnteredAt(g, before, part, j, p);
      assert part[j] !in part[..j];
      assert !Seen(before, part, j, part[j]);
    }
  }

  /** The parts of a sequence without repeats have none, and share no element. */
  lemma DistinctSplit(part: seq<int>, sub: seq<int>)
    requires Distinct(part + sub)
    ensures Distinct(sub) && forall x :: x in part ==> x !in sub
  {
    forall i, j | 0 <= i < j < |sub| ensures sub[i] != sub[j] {
      assert (part + sub)[|part| + i] == sub[i] && (part + sub)[|part| + j] == sub[j];
    }
    forall x | x in part ensures x !in sub {
      var i :| 0 <= i < |part| && part[i] == x;
      if j :| 0 <= j < |sub| && sub[j] == x {
        assert (part + sub)[i] == x == (part + sub)[|part| + j];
      }
    }
  }

  /** The suffix of `t` from `a` splits at the end of its prefix `t0`. */
  lemma SuffixSplit(t: seq<Edge>, t0: seq<Edge>, a: int)
    requires 0 <= a <= |t0| <= |t| && t[..|t0|] == t0
    ensures t[a..] == t0[a..] + t[|t0|..]
  {
    assert t[a..] == t[a..|t0|] + t[|t0|..];
    assert t[a..|t0|] == t0[a..];
  }

  /** A neighbour that is already visited, or not joined to the start vertex,
      is tried without change. */
  lemma SkipExplored(g: Graph, before: seq<bool>, vis: seq<bool>, part: seq<int>, y: int)
    requires WellFormed(g) && Explored(g, before, vis, part, y) && 0 <= y < g.vertices
    requires vis[y] || !HasEdge(g, part[0], y)
    ensures Explored(g, before, vis, part, y + 1)
  {
  }

  /** A completed descent into the unvisited neighbour `y` of the start vertex
      extends what the call has entered by what the descent entered. */
  lemma DescendExplored(g: Graph, before: seq<bool>, mid: seq<bool>, after: seq<bool>, part: seq<int>, sub: seq<int>, y: int)
    requires WellFormed(g) && Explored(g, before, mid, part, y) && 0 <= y < g.vertices
    requires |sub| >= 1 && sub[0] == y && Explored(g, mid, after, sub, g.vertices)
    ensures Explored(g, before, after, part + sub, y + 1)
  {
    var whole := part + sub;
    forall i, j | 0 <= i < j < |whole|
      ensures whole[i] != whole[j]
    {
      if i < |part| && |part| <= j {
        assert mid[whole[i]] && !mid[whole[j]];
      }
    }
    forall x, z | x in whole && x != whole[0] && 0 <= z < g.vertices && HasEdge(g, x, z)
      ensures after[z]
    {
      if x in part {
        assert mid[z];
      }
    }
  }

  /** Adding the edge `e` into `sub[0]` and then the descent's edges extends
      the call's tree edges to the vertices entered so far. */
  lemma DescendGrows(g: Graph, tree: seq<Edge>, prev: seq<Edge>, e: Edge, tree': seq<Edge>, part: seq<int>, sub: seq<int>)
    requires WellFormed(g) && |part| >= 1 && |sub| >= 1
    requires Grows(g, tree, prev, part) && Grows(g, prev + [e], tree', sub)
    requires e.src == part[0] && e.dest == sub[0] && 0 <= e.src < g.vertices
    requires HasEdge(g, e.src, e.dest) && e.weight == GetWeight(g, e.src, e.dest)
    ensures Grows(g, tree, tree', part + sub)
  {
    var added, more := prev[|tree|..], tree'[|prev| + 1..];
    assert (prev + [e])[|tree|..] == added + [e];
    SuffixSplit(tree', prev + [e], |tree|);
    assert tree'[..|tree|] == (prev + [e])[..|tree|] == tree;
    DescendDests(added, e, more, part, sub);
    DescendEdgesFrom(g, added, e, more, part, sub);
  }

  /** Every edge of `added` leaving `x` enters a vertex below `y`. */
  ghost predicate ChildrenBelow(added: seq<Edge>, x: int, y: int)
  {
    forall d :: d in added && d.src == x ==> d.dest < y
  }

  /** Every edge of `added` leaves a vertex of `part`. */
  ghost predicate LeaveFrom(added: seq<Edge>, part: seq<int>)
  {
    forall d :: d in added ==> d.src in part
  }

  /** After a descent into `sub[0]`, edges leaving the same vertex are still
      in increasing order: the new edge out of the start vertex enters a
      higher vertex than the earlier ones, and the descent's edges leave
      vertices the call had not entered before. */
  lemma DescendAscending(g: Graph, tree: seq<Edge>, prev: seq<Edge>, e: Edge, tree': seq<Edge>, part: seq<int>, sub: seq<int>)
    requires WellFormed(g) && |part| >= 1 && |sub| >= 1 && Distinct(part + sub)
    requires Grows(g, tree, prev, part) && Grows(g, prev + [e], tree', sub)
    requires ChildrenAscending(prev[|tree|..]) && ChildrenAscending(tree'[|prev| + 1..])
    requires ChildrenBelow(prev[|tree|..], part[0], sub[0])
    requires e.src == part[0] && e.dest == sub[0]
    ensures ChildrenAscending(tree'[|tree|..]) && ChildrenBelow(tree'[|tree|..], part[0], sub[0] + 1)
  {
    var added, more := prev[|tree|..], tree'[|prev| + 1..];
    SuffixSplit(tree', prev + [e], |tree|);
    assert (prev + [e])[|tree|..] == added + [e];
    EdgesLeaveFrom(g, added, part);
    EdgesLeaveFrom(g, more, sub);
    forall i, j | 0 <= i < |part| && 0 <= j < |sub|
      ensures part[i] != sub[j]
    {
      assert (part + sub)[i] == part[i] && (part + sub)[|part| + j] == sub[j];
    }
    AscendingJoin(added, e, more, part, sub);
  }

  /** The edges a call adds leave the vertices it entered. */
  lemma EdgesLeaveFrom(g: Graph, added: seq<Edge>, part: seq<int>)
    requires WellFormed(g) && EdgesFrom(g, added, part)
    ensures LeaveFrom(added, part)
  {
    forall d | d in added
      ensures d.src in part
    {
      var i, j :| 0 <= i < j < |part| && part[i] == d.src && part[j] == d.dest;
    }
  }

  /** Joining the edges of the call so far, a new edge out of its start
      vertex into a higher vertex, and edges leaving vertices the call had not
      entered keeps edges out of each vertex in increasing order. */
  lemma AscendingJoin(added: seq<Edge>, e: Edge, more: seq<Edge>, part: seq<int>, sub: seq<int>)
    requires |part| >= 1 && e.src == part[0]
    requires ChildrenAscending(added) && ChildrenAscending(more) && ChildrenBelow(added, part[0], e.dest)
    requires LeaveFrom(added, part) && LeaveFrom(more, sub)
    requires forall x :: x in part ==> x !in sub
    ensures ChildrenAscending(added + [e] + more) && ChildrenBelow(added + [e] + more, part[0], e.dest + 1)
  {
    var w := added + [e] + more;
    forall i | 0 <= i < |w|
      ensures i <= |added| ==> w[i].src in part
      ensures i > |added| ==> w[i].src in sub
    {
      if i < |added| {
        assert w[i] == added[i];
      } else if i > |added| {
        assert w[i] == more[i - |added| - 1];
      }
    }
    forall i, j | 0 <= i < j < |w| && w[i].src == w[j].src
      ensures w[i].dest < w[j].dest
    {
      if j < |added| {
        assert w[i] == added[i] && w[j] == added[j];
      } else if j == |added| {
        assert w[i] in added;
      } else if i > |added| {
        assert w[i] == more[i - |added| - 1] && w[j] == more[j - |added| - 1];
      }
    }
  }

  /** The destinations after a descent are the vertices entered so far but the first. */
  lemma DescendDests(added: seq<Edge>, e: Edge, more: seq<Edge>, part: seq<int>, sub: seq<int>)
    requires |part| >= 1 && |sub| >= 1 && Dests(added) == part[1..] && Dests(more) == sub[1..] && e.dest == sub[0]
    ensures Dests(added + [e] + more) == (part + sub)[1..]
  {
    assert Dests(added + [e] + more) == Dests(added) + [e.dest] + Dests(more);
    assert (part + sub)[1..] == part[1..] + [sub[0]] + sub[1..];
  }

  /** Each edge after a descent runs from an earlier to a later vertex entered so far. */
  lemma DescendEdgesFrom(g: Graph, added: seq<Edge>, e: Edge, more: seq<Edge>, part: seq<int>, sub: seq<int>)
    requires WellFormed(g) && |part| >= 1 && |sub| >= 1 && EdgesFrom(g, added, part) && EdgesFrom(g, more, sub)
    requires e.src == part[0] && e.dest == sub[0] && 0 <= e.src < g.vertices
    requires HasEdge(g, e.src, e.dest) && e.weight == GetWeight(g, e.src, e.dest)
    ensures EdgesFrom(g, added + [e] + more, part + sub)
  {
    var whole := part + sub;
    forall d | d in added + [e] + more
      ensures Precedes(whole, d.src, d.dest)
    {
      if d in added {
        var i, j :| 0 <= i < j < |part| && part[i] == d.src && part[j] == d.dest;
        assert whole[i] == d.src && whole[j] == d.dest;
      } else if d in more {
        var i, j :| 0 <= i < j < |sub| && sub[i] == d.src && sub[j] == d.dest;
        assert whole[|part| + i] == d.src && whole[|part| + j] == d.dest;
      } else {
        assert whole[0] == d.src && whole[|part|] == d.dest;
      }
    }
  }

  /** What `DFS` returns, from nothing visited: `tree` is a spanning tree of
      the vertices `order`, rooted at `start`, closed under edges, with one
      edge into each vertex but `start` in the order they were entered, each
      weighted as the graph weighs it, and each vertex entered as `DFSHelper`
      enters it. `DfsDetermined` shows these facts fix the tree. */
  ghost predicate DepthFirstTree(g: Graph, start: int, tree: seq<Edge>, order: seq<int>)
    requires WellFormed(g)
  {
    EntryTree(g, tree, order) && order[0] == start && Closed(g, order)
  }

  /** `tree` is a spanning tree of `order` with one edge into each vertex but
      the first, in order, each weighted as the graph weighs it, and each
      vertex entered as `DFSHelper` enters it from nothing visited. */
  ghost predicate EntryTree(g: Graph, tree: seq<Edge>, order: seq<int>)
    requires WellFormed(g)
  {
    SpanningTree(g, tree, order) && Dests(tree) == order[1..] &&
    (forall e :: e in tree ==> e.weight == GetWeight(g, e.src, e.dest)) &&
    DepthFirstEntry(g, seq(g.vertices, v => false), tree, order)
  }

  /** `DFS(g, start)`: clear `visited` and run `DFSHelper` from `start`. The
      ghost result `order` is the sequence of vertices entered. The tree is the
      depth-first tree of `DepthFirstTree`: a spanning tree of exactly the
      vertices reachable from `start`, each vertex entered from the deepest
      vertex still having an unvisited neighbour, as its lowest such
      neighbour, so from the last vertex entered before it that has an edge to
      it; every edge is weighted as the graph weighs it. `DfsDetermined` shows
      that these conditions leave no choice of tree or order. */
  method DFS(g: Graph, start: int) returns (tree: seq<Edge>, ghost order: seq<int>)
    requires WellFormed(g) && 0 <= start < g.vertices
    ensures DepthFirstTree(g, start, tree, order)
    ensures LastAdjacent(g, tree, order)
    ensures |tree| == |order| - 1
    ensures forall v :: v in order <==> Reachable(g, start, v)
    ensures ChildrenAscending(tree)
  {
    var visited := new bool[g.vertices];
    var i := 0;
    while i < g.vertices
      invariant 0 <= i <= g.vertices
      invariant forall v :: 0 <= v < i ==> !visited[v]
    {
      visited[i] := false;
      i := i + 1;
    }
    ghost var before := visited[..];
    assert before == seq(g.vertices, v => false);
    tree, order := DFSHelper(g, start, visited, []);
    DfsSpanningTree(g, before, visited[..], tree, order);
    forall v
      ensures v in order <==> Reachable(g, start, v)
    {
      SpanningTreeIsReachableSet(g, tree, order, v);
    }
  }

  /** A search from a state with nothing visited enters a closed set of
      vertices, and its tree edges span them. */
  lemma DfsSpanningTree(g: Graph, before: seq<bool>, after: seq<bool>, tree: seq<Edge>, order: seq<int>)
    requires WellFormed(g) && Explored(g, before, after, order, g.vertices) && Grows(g, [], tree, order)
    requires forall v :: 0 <= v < g.vertices ==> !before[v]
    ensures SpanningTree(g, tree, order) && Closed(g, order)
  {
    forall x, y | x in order && 0 <= x < g.vertices && 0 <= y < g.vertices && HasEdge(g, x, y)
      ensures y in order
    {
      assert after[y];
    }
    forall k | 1 <= k < |order|
      ensures order[k] in Dests(tree)
    {
      assert order[k] == order[1..][k - 1];
    }
    assert Distinct(order[1..]);
  }

  /** Two results that both meet `DepthFirstTree` from the same start are the
      same: the contract of `DFS` leaves it no choice of tree or order. */
  lemma DfsDetermined(g: Graph, start: int, t1: seq<Edge>, o1: seq<int>, t2: seq<Edge>, o2: seq<int>)
    requires WellFormed(g) && DepthFirstTree(g, start, t1, o1) && DepthFirstTree(g, start, t2, o2)
    ensures o1 == o2 && t1 == t2
  {
    TreeSteps(g, start, t1, o1);
    TreeSteps(g, start, t2, o2);
    StepsDetermined(g, start, t1, o1, t2, o2);
  }

  /** The `j`-th vertex of `order` is entered along the edge `tree[j - 1]`
      from an earlier vertex, as `DFSHelper` enters it from nothing visited. */
  ghost predicate EnteredBy(g: Graph, tree: seq<Edge>, order: seq<int>, j: int)
    requires WellFormed(g) && 1 <= j < |order| && |tree| == |order| - 1
  {
    exists p :: 0 <= p < j && 0 <= order[p] < g.vertices && 0 <= order[j] < g.vertices &&
      HasEdge(g, order[p], order[j]) && tree[j - 1] == Edge(order[p], order[j], GetWeight(g, order[p], order[j])) &&
      EnteredAt(g, seq(g.vertices, v => false), order, j, p)
  }

  /** `DepthFirstTree` vertex by vertex: `order` starts at `start`, enters
      each vertex once, is closed under edges, and enters each vertex but the
      first by its own tree edge. */
  ghost predicate EntrySteps(g: Graph, start: int, tree: seq<Edge>, order: seq<int>)
    requires WellFormed(g)
  {
    |order| >= 1 && order[0] == start && Distinct(order) && |tree| == |order| - 1 &&
    (forall i :: 0 <= i < |order| ==> 0 <= order[i] < g.vertices) && Closed(g, order) &&
    forall j {:trigger EnteredBy(g, tree, order, j)} :: 1 <= j < |order| ==> EnteredBy(g, tree, order, j)
  }

  /** A depth-first tree enters each vertex by its own tree edge. */
  lemma TreeSteps(g: Graph, start: int, tree: seq<Edge>, order: seq<int>)
    requires WellFormed(g) && DepthFirstTree(g, start, tree, order)
    ensures EntrySteps(g, start, tree, order)
  {
    assert |tree| == |Dests(tree)| == |order| - 1;
    forall j | 1 <= j < |order|
      ensures EnteredBy(g, tree, order, j)
    {
      var p := SourceAt(g, tree, order, j);
      assert EnteredAt(g, seq(g.vertices, v => false), order, j, p);
    }
  }

  /** Two orders entered step by step as `DFSHelper` enters vertices, from
      the same start, are the same, and so are their trees. */
  lemma StepsDetermined(g: Graph, start: int, t1: seq<Edge>, o1: seq<int>, t2: seq<Edge>, o2: seq<int>)
    requires WellFormed(g) && EntrySteps(g, start, t1, o1) && EntrySteps(g, start, t2, o2)
    ensures o1 == o2 && t1 == t2
  {
    var m := if |o1| <= |o2| then |o1| else |o2|;
    PrefixAgree(g, start, t1, o1, t2, o2, m);
    NotClosedBefore(g, start, t1, o1, m);
    NotClosedBefore(g, start, t2, o2, m);
    assert o1[..|o1|] == o1 && o2[..|o2|] == o2;
    assert o1 == o2;
    forall i | 0 <= i < |t1|
      ensures t1[i] == t2[i]
    {
      assert o1[..i + 1] == o2[..i + 1];
      StepAgree(g, start, t1, o1, t2, o2, i + 1);
    }
  }

  /** The two orders agree on their first `j` vertices. */
  lemma {:induction false} PrefixAgree(g: Graph, start: int, t1: seq<Edge>, o1: seq<int>, t2: seq<Edge>, o2: seq<int>, j: int)
    requires WellFormed(g) && EntrySteps(g, start, t1, o1) && EntrySteps(g, start, t2, o2)
    requires 1 <= j <= |o1| && j <= |o2|
    ensures o1[..j] == o2[..j]
  {
    if j > 1 {
      PrefixAgree(g, start, t1, o1, t2, o2, j - 1);
      StepAgree(g, start, t1, o1, t2, o2, j - 1);
      assert o1[..j] == o1[..j - 1] + [o1[j - 1]];
      assert o2[..j] == o2[..j - 1] + [o2[j - 1]];
    }
  }

  /** With the same first `j` vertices entered, both orders enter the same
      vertex next, along the same edge. */
  lemma StepAgree(g: Graph, start: int, t1: seq<Edge>, o1: seq<int>, t2: seq<Edge>, o2: seq<int>, j: int)
    requires WellFormed(g) && EntrySteps(g, start, t1, o1) && EntrySteps(g, start, t2, o2)
    requires 1 <= j < |o1| && j < |o2| && o1[..j] == o2[..j]
    ensures o1[j] == o2[j] && t1[j - 1] == t2[j - 1]
  {
    var none := seq(g.vertices, v => false);
    var p1 := EntryAt(g, start, t1, o1, j);
    var p2 := EntryAt(g, start, t2, o2, j);
    SameEntry(g, none, o1, o2, j, p1, p2);
  }

  /** The index of the vertex the `j`-th vertex of `order` is entered from. */
  lemma EntryAt(g: Graph, start: int, tree: seq<Edge>, order: seq<int>, j: int) returns (p: int)
    requires WellFormed(g) && EntrySteps(g, start, tree, order) && 1 <= j < |order|
    ensures 0 <= p < j && 0 <= order[p] < g.vertices && 0 <= order[j] < g.vertices && HasEdge(g, order[p], order[j])
    ensures tree[j - 1] == Edge(order[p], order[j], GetWeight(g, order[p], order[j]))
    ensures EnteredAt(g, seq(g.vertices, v => false), order, j, p)
  {
    assert EnteredBy(g, tree, order, j);
    p :| 0 <= p < j && 0 <= order[p] < g.vertices && 0 <= order[j] < g.vertices && HasEdge(g, order[p], order[j]) &&
      tree[j - 1] == Edge(order[p], order[j], GetWeight(g, order[p], order[j])) &&
      EnteredAt(g, seq(g.vertices, v => false), order, j, p);
  }

  /** From the same first `j` vertices, with nothing visited before, the next
      vertex entered is determined: its source is the last of them with an
      unvisited neighbour, and it is that vertex's lowest unvisited neighbour. */
  lemma SameEntry(g: Graph, none: seq<bool>, o1: seq<int>, o2: seq<int>, j: int, p1: int, p2: int)
    requires WellFormed(g) && |none| == g.vertices && forall v :: 0 <= v < |none| ==> !none[v]
    requires Distinct(o1) && Distinct(o2) && 1 <= j < |o1| && j < |o2| && o1[..j] == o2[..j]
    requires 0 <= p1 < j && 0 <= o1[p1] < g.vertices && 0 <= o1[j] < g.vertices && HasEdge(g, o1[p1], o1[j])
    requires 0 <= p2 < j && 0 <= o2[p2] < g.vertices && 0 <= o2[j] < g.vertices && HasEdge(g, o2[p2], o2[j])
    requires EnteredAt(g, none, o1, j, p1) && EnteredAt(g, none, o2, j, p2)
    ensures p1 == p2 && o1[j] == o2[j]
  {
    assert o1[p1] == o1[..j][p1] == o2[p1] && o1[p2] == o1[..j][p2] == o2[p2];
    assert o1[j] !in o1[..j] && o2[j] !in o2[..j];
    assert !Seen(none, o1, j, o2[j]) && !Seen(none, o2, j, o1[j]);
    assert p1 == p2;
  }

  /** The index of the source of the edge into the `j`-th entered vertex. */
  lemma SourceAt(g: Graph, tree: seq<Edge>, order: seq<int>, j: int) returns (p: int)
    requires WellFormed(g) && EntryTree(g, tree, order) && 1 <= j < |order|
    ensures 0 <= p < j && order[p] == tree[j - 1].src && tree[j - 1].dest == order[j]
    ensures 0 <= order[p] < g.vertices && HasEdge(g, order[p], order[j])
    ensures tree[j - 1] == Edge(order[p], order[j], GetWeight(g, order[p], order[j]))
  {
    var e := tree[j - 1];
    assert e in tree && Dests(tree)[j - 1] == order[1..][j - 1] == order[j];
    var i, i' :| 0 <= i < i' < |order| && order[i] == e.src && order[i'] == e.dest;
    p := i;
  }

  /** An order stops only when its vertices are closed under edges, so no
      proper prefix of it is. */
  lemma NotClosedBefore(g: Graph, start: int, tree: seq<Edge>, order: seq<int>, j: int)
    requires WellFormed(g) && EntrySteps(g, start, tree, order) && 1 <= j
    ensures j < |order| ==> !Closed(g, order[..j])
  {
    if j < |order| {
      var p := EntryAt(g, start, tree, order, j);
      assert order[p] in order[..j] && order[j] !in order[..j];
    }
  }
}
