/** The union-find structure Kruskal's algorithm keeps over the vertices:
    `UnionFind(n)`, `find` and `unionSets`. Its implementation is not part of
    this model; it is modelled as quick-find, an array holding each vertex's
    representative, which gives `find` and `unionSets` exactly the behaviour
    the algorithm relies on. */
module DisjointSets {

  /** `rep` labels every vertex with a representative vertex that labels itself. */
  ghost predicate IsLabelling(rep: seq<int>)
  {
    forall v :: 0 <= v < |rep| ==> 0 <= rep[v] < |rep| && rep[rep[v]] == rep[v]
  }

  /** `v` represents its own class. */
  ghost predicate IsRoot(rep: seq<int>, v: int)
  {
    0 <= v < |rep| && rep[v] == v
  }

  /** Every vertex alone in its own class. */
  function Identity(n: nat): (rep: seq<int>)
    ensures |rep| == n && IsLabelling(rep)
    ensures forall a, b :: 0 <= a < n && 0 <= b < n ==> (rep[a] == rep[b] <==> a == b)
  {
    seq(n, v => v)
  }

  /** The labelling after the class of `x` joins the class of `y`. */
  function Relabel(rep: seq<int>, x: int, y: int): (r: seq<int>)
    ensures |r| == |rep|
  {
    seq(|rep|, v requires 0 <= v < |rep| => if rep[v] == x then y else rep[v])
  }

  /** Merging two classes keeps a labelling a labelling. */
  lemma RelabelIsLabelling(rep: seq<int>, x: int, y: int)
    requires IsLabelling(rep) && IsRoot(rep, x) && IsRoot(rep, y)
    ensures IsLabelling(Relabel(rep, x, y))
  {
  }

  /** After merging, two vertices share a class exactly when they did before
      or one was in the class of `x` and the other in the class of `y`. */
  lemma RelabelMerges(rep: seq<int>, x: int, y: int, a: int, b: int)
    requires IsLabelling(rep) && IsRoot(rep, x) && IsRoot(rep, y) && x != y
    requires 0 <= a < |rep| && 0 <= b < |rep|
    ensures Relabel(rep, x, y)[a] == Relabel(rep, x, y)[b] <==>
      rep[a] == rep[b] || (rep[a] == x && rep[b] == y) || (rep[a] == y && rep[b] == x)
  {
  }

  /** The merged labelling gives the two merged vertices the same label. */
  lemma RelabelJoins(rep: seq<int>, a: int, b: int)
    requires 0 <= a < |rep| && 0 <= b < |rep|
    ensures Relabel(rep, rep[a], rep[b])[a] == Relabel(rep, rep[a], rep[b])[b]
  {
  }

  /** Vertices that shared a label still share one after any merge. */
  lemma RelabelKeeps(rep: seq<int>, x: int, y: int, a: int, b: int)
    requires 0 <= a < |rep| && 0 <= b < |rep| && rep[a] == rep[b]
    ensures Relabel(rep, x, y)[a] == Relabel(rep, x, y)[b]
  {
  }

  class UnionFind {
    /** The number of vertices. */
    const size: nat
    /** `rep[v]`: the representative of the class of `v`. */
    const rep: array<int>

    ghost predicate Valid()
      reads this, rep
    {
      rep.Length == size && IsLabelling(rep[..])
    }

    /** `UnionFind uf(n)`: every vertex in a class of its own. */
    constructor(n: nat)
      ensures Valid() && size == n && rep[..] == Identity(n) && fresh(rep)
    {
      size := n;
      var r := new int[n];
      var v := 0;
      while v < n
        invariant 0 <= v <= n
        invariant r[..v] == Identity(n)[..v]
      {
        r[v] := v;
        v := v + 1;
      }
      rep := r;
    }

    /** `find(x)`: the representative of the class of `x`, itself a
        representative and the label every vertex of that class carries. */
    function Find(x: int): (r: int)
      requires Valid() && 0 <= x < size
      reads this, rep
      ensures IsRoot(rep[..], r)
      ensures forall v :: 0 <= v < size ==> (rep[v] == rep[x] <==> rep[v] == r)
    {
      rep[x]
    }

    /** `unionSets(x, y)` on two representatives: the class of `x` joins the
        class of `y`; every other vertex keeps its representative. */
    method UnionSets(x: int, y: int)
      requires Valid() && IsRoot(rep[..], x) && IsRoot(rep[..], y)
      modifies rep
      ensures Valid() && rep[..] == Relabel(old(rep[..]), x, y)
    {
      ghost var before := rep[..];
      RelabelIsLabelling(before, x, y);
      var v := 0;
      while v < rep.Length
        invariant 0 <= v <= rep.Length
        invariant rep[..v] == Relabel(before, x, y)[..v]
        invariant rep[v..] == before[v..]
      {
        if rep[v] == x {
          rep[v] := y;
        }
        v := v + 1;
      }
    }
  }
}
