/** Connectivity through a set of undirected edges, and how a union-find
    labelling built by merging along those edges tracks it: the facts that
    make Kruskal's `find(src) != find(dest)` test an acyclicity test. */
module Forests {
  import opened Graphs
  import opened DisjointSets

  /** Every edge joins two of the vertices `0..n-1`. */
  ghost predicate InRange(n: nat, forest: seq<Edge>)
  {
    forall k :: 0 <= k < |forest| ==> 0 <= forest[k].src < n && 0 <= forest[k].dest < n
  }

  /** Some edge of `forest` joins `u` and `v`, in either direction. */
  ghost predicate Linked(forest: seq<Edge>, u: int, v: int)
  {
    exists e :: e in forest && ((e.src == u && e.dest == v) || (e.src == v && e.dest == u))
  }

  /** `w` is a walk among the vertices `0..n-1` along edges of `forest`. */
  ghost predicate Walk(n: nat, forest: seq<Edge>, w: seq<int>)
  {
    |w| >= 1 &&
    (forall i :: 0 <= i < |w| ==> 0 <= w[i] < n) &&
    (forall i :: 0 <= i < |w| - 1 ==> Linked(forest, w[i], w[i + 1]))
  }

  /** Some walk along `forest` leads from `a` to `b`. */
  ghost predicate Connected(n: nat, forest: seq<Edge>, a: int, b: int)
  {
    exists w :: Walk(n, forest, w) && w[0] == a && w[|w| - 1] == b
  }

  /** Each edge joins two vertices that the edges before it do not connect:
      the edges form a forest. */
  ghost predicate Acyclic(n: nat, forest: seq<Edge>)
  {
    forall k :: 0 <= k < |forest| ==> !Connected(n, forest[..k], forest[k].src, forest[k].dest)
  }

  /** The union-find labelling after merging along the edges of `forest` in
      order, starting from every vertex alone: what `find` answers after the
      corresponding `unionSets(find(src), find(dest))` calls. */
  ghost function Labels(n: nat, forest: seq<Edge>): (rep: seq<int>)
    requires InRange(n, forest)
    ensures |rep| == n && IsLabelling(rep)
    decreases |forest|
  {
    if forest == [] then Identity(n)
    else
      var last := forest[|forest| - 1];
      var rep := Labels(n, forest[..|forest| - 1]);
      RelabelIsLabelling(rep, rep[last.src], rep[last.dest]);
      Relabel(rep, rep[last.src], rep[last.dest])
  }

  /** Two vertices carry the same label exactly when the edges connect them. */
  lemma {:induction false} LabelsConnected(n: nat, forest: seq<Edge>, a: int, b: int)
    requires InRange(n, forest) && 0 <= a < n && 0 <= b < n
    ensures Labels(n, forest)[a] == Labels(n, forest)[b] <==> Connected(n, forest, a, b)
    decreases |forest|, 1, 0
  {
    if forest == [] {
      if a == b {
        assert Walk(n, forest, [a]);
      }
      if Connected(n, forest, a, b) {
        var w :| Walk(n, forest, w) && w[0] == a && w[|w| - 1] == b;
        assert |w| > 1 ==> Linked(forest, w[0], w[1]);
      }
    } else {
      var f := forest[..|forest| - 1];
      var e := forest[|forest| - 1];
      assert forest == f + [e];
      assert InRange(n, f);
      var rep := Labels(n, f);
      var x, y := rep[e.src], rep[e.dest];
      if Connected(n, forest, a, b) {
        var w :| Walk(n, forest, w) && w[0] == a && w[|w| - 1] == b;
        WalkKeepsLabel(n, f, e, w);
      }
      if Labels(n, forest)[a] == Labels(n, forest)[b] {
        if rep[a] == rep[b] {
          LabelsConnected(n, f, a, b);
          ConnectedWiden(n, f, e, a, b);
        } else if rep[a] == x {
          LabelsConnected(n, f, a, e.src);
          LabelsConnected(n, f, e.dest, b);
          ConnectedThrough(n, f, e, a, e.src, e.dest, b);
        } else {
          LabelsConnected(n, f, a, e.dest);
          LabelsConnected(n, f, e.src, b);
          ConnectedThrough(n, f, e, a, e.dest, e.src, b);
        }
      }
    }
  }

  /** Every vertex of a walk along `f + [e]` carries the label its first vertex
      carries after merging along `e`. */
  lemma {:induction false} WalkKeepsLabel(n: nat, f: seq<Edge>, e: Edge, w: seq<int>)
    requires InRange(n, f + [e]) && Walk(n, f + [e], w)
    ensures Labels(n, f + [e])[w[0]] == Labels(n, f + [e])[w[|w| - 1]]
    decreases |f| + 1, 0, |w|
  {
    if |w| > 1 {
      var v := w[..|w| - 1];
      assert Walk(n, f + [e], v);
      WalkKeepsLabel(n, f, e, v);
      LinkKeepsLabel(n, f, e, w[|w| - 2], w[|w| - 1]);
    }
  }

  /** The two ends of an edge of `f + [e]` carry the same label after merging along `e`. */
  lemma {:induction false} LinkKeepsLabel(n: nat, f: seq<Edge>, e: Edge, s: int, t: int)
    requires InRange(n, f + [e]) && Linked(f + [e], s, t) && 0 <= s < n && 0 <= t < n
    ensures Labels(n, f + [e])[s] == Labels(n, f + [e])[t]
    decreases |f| + 1, 0, 0
  {
    var rep := LabelsStep(n, f, e);
    var d :| d in f + [e] && ((d.src == s && d.dest == t) || (d.src == t && d.dest == s));
    if d == e {
      RelabelJoins(rep, e.src, e.dest);
    } else {
      assert d in f;
      EdgeConnects(n, f, d);
      LabelsConnected(n, f, d.src, d.dest);
      RelabelKeeps(rep, rep[e.src], rep[e.dest], s, t);
    }
  }

  /** Merging along one more edge relabels the class of its source into the
      class of its destination. */
  lemma LabelsStep(n: nat, f: seq<Edge>, e: Edge) returns (rep: seq<int>)
    requires InRange(n, f + [e])
    ensures InRange(n, f) && rep == Labels(n, f) && 0 <= e.src < n && 0 <= e.dest < n
    ensures Labels(n, f + [e]) == Relabel(rep, rep[e.src], rep[e.dest])
  {
    var forest := f + [e];
    assert forest[..|forest| - 1] == f && forest[|forest| - 1] == e;
    assert InRange(n, f);
    rep := Labels(n, f);
  }

  /** Adding an edge keeps every connection. */
  lemma ConnectedWiden(n: nat, f: seq<Edge>, e: Edge, a: int, b: int)
    requires Connected(n, f, a, b)
    ensures Connected(n, f + [e], a, b)
  {
    var w :| Walk(n, f, w) && w[0] == a && w[|w| - 1] == b;
    forall i | 0 <= i < |w| - 1
      ensures Linked(f + [e], w[i], w[i + 1])
    {
      assert Linked(f, w[i], w[i + 1]);
    }
    assert Walk(n, f + [e], w);
  }

  /** A connection from `a` to `u`, the edge `e` between `u` and `v`, and a
      connection from `v` to `b` connect `a` to `b`. */
  lemma ConnectedThrough(n: nat, f: seq<Edge>, e: Edge, a: int, u: int, v: int, b: int)
    requires Connected(n, f, a, u) && Connected(n, f, v, b)
    requires (e.src == u && e.dest == v) || (e.src == v && e.dest == u)
    ensures Connected(n, f + [e], a, b)
  {
    var w1 :| Walk(n, f, w1) && w1[0] == a && w1[|w1| - 1] == u;
    var w2 :| Walk(n, f, w2) && w2[0] == v && w2[|w2| - 1] == b;
    var w := w1 + w2;
    forall i | 0 <= i < |w| - 1
      ensures Linked(f + [e], w[i], w[i + 1])
    {
      if i < |w1| - 1 {
        assert Linked(f, w1[i], w1[i + 1]);
      } else if i == |w1| - 1 {
        assert e in f + [e];
      } else {
        assert Linked(f, w2[i - |w1|], w2[i - |w1| + 1]);
      }
    }
    assert Walk(n, f + [e], w);
  }

  /** An edge connects its own endpoints. */
  lemma EdgeConnects(n: nat, f: seq<Edge>, e: Edge)
    requires e in f && 0 <= e.src < n && 0 <= e.dest < n
    ensures Connected(n, f, e.src, e.dest)
  {
    var w := [e.src, e.dest];
    assert Linked(f, w[0], w[1]);
    assert Walk(n, f, w);
  }

  /** An edge between two vertices the forest does not connect keeps it a forest. */
  lemma AcyclicExtend(n: nat, f: seq<Edge>, e: Edge)
    requires Acyclic(n, f) && !Connected(n, f, e.src, e.dest)
    ensures Acyclic(n, f + [e])
  {
    var g := f + [e];
    forall k | 0 <= k < |g|
      ensures !Connected(n, g[..k], g[k].src, g[k].dest)
    {
      if k < |f| {
        assert g[..k] == f[..k];
      } else {
        assert g[..k] == f;
      }
    }
  }
}
