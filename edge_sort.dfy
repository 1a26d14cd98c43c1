/** The in-place quicksort Kruskal uses to order its edge array by weight:
    `swapEdges`, a Lomuto `partition` around the last element, and the
    recursive `quickSort`. */
module EdgeSort {
  import opened Graphs

  /** `t` is `s` with the cells `low..high` permuted among themselves and
      every other cell unchanged. */
  ghost predicate Permutes(s: seq<Edge>, t: seq<Edge>, low: int, high: int)
    requires 0 <= low <= high + 1 <= |s|
  {
    |t| == |s| && t[..low] == s[..low] && t[high + 1..] == s[high + 1..] &&
    multiset(t) == multiset(s)
  }

  /** Under `Permutes`, the cells `low..high` hold the same multiset of edges. */
  lemma PermutesMiddle(s: seq<Edge>, t: seq<Edge>, low: int, high: int)
    requires 0 <= low <= high + 1 <= |s| && Permutes(s, t, low, high)
    ensures multiset(t[low..high + 1]) == multiset(s[low..high + 1])
  {
    assert s == s[..low] + s[low..high + 1] + s[high + 1..];
    assert t == t[..low] + t[low..high + 1] + t[high + 1..];
    assert multiset(s) == multiset(s[..low]) + multiset(s[low..high + 1]) + multiset(s[high + 1..]);
    assert multiset(t) == multiset(t[..low]) + multiset(t[low..high + 1]) + multiset(t[high + 1..]);
    var ms, mt := multiset(s[low..high + 1]), multiset(t[low..high + 1]);
    forall e
      ensures mt[e] == ms[e]
    {
      assert multiset(t)[e] == multiset(s)[e];
    }
  }

  /** The cells `low..high` of `s` are in non-decreasing order of weight. */
  ghost predicate SortedBetween(s: seq<Edge>, low: int, high: int)
  {
    forall i, j :: 0 <= low <= i < j <= high < |s| ==> s[i].weight <= s[j].weight
  }

  /** Every cell `low..high` of `s` satisfies `lo <= weight < hi` (bounds as ints). */
  ghost predicate WeightsIn(s: seq<Edge>, low: int, high: int, lo: int, hi: int)
  {
    forall k :: 0 <= low <= k <= high < |s| ==> lo <= s[k].weight as int < hi
  }

  /** `swapEdges(arr[i], arr[j])`: the two cells exchange their edges. */
  method SwapEdges(a: array<Edge>, i: int, j: int)
    requires 0 <= i < a.Length && 0 <= j < a.Length
    modifies a
    ensures a[..] == old(a[..])[i := old(a[..])[j]][j := old(a[..])[i]]
  {
    var temp := a[i];
    a[i] := a[j];
    a[j] := temp;
  }

  /** Exchanging two cells inside `low..high` permutes `low..high`. */
  lemma SwapPermutes(s: seq<Edge>, i: int, j: int, low: int, high: int)
    requires 0 <= low <= i <= high < |s| && low <= j <= high
    ensures Permutes(s, s[i := s[j]][j := s[i]], low, high)
  {
    var t := s[i := s[j]][j := s[i]];
    assert t[..low] == s[..low];
    assert t[high + 1..] == s[high + 1..];
  }

  /** Permuting `low..high` twice permutes it. */
  lemma PermutesTrans(s: seq<Edge>, t: seq<Edge>, u: seq<Edge>, low: int, high: int)
    requires 0 <= low <= high + 1 <= |s| && Permutes(s, t, low, high) && Permutes(t, u, low, high)
    ensures Permutes(s, u, low, high)
  {
  }

  /** A permutation of a narrower range permutes a wider one. */
  lemma PermutesWiden(s: seq<Edge>, t: seq<Edge>, low: int, high: int, low': int, high': int)
    requires 0 <= low' <= low <= high + 1 <= high' + 1 <= |s| && Permutes(s, t, low, high)
    ensures Permutes(s, t, low', high')
  {
    assert t[..low'] == t[..low][..low'];
    assert s[..low'] == s[..low][..low'];
    assert t[high' + 1..] == t[high + 1..][high' - high..];
    assert s[high' + 1..] == s[high + 1..][high' - high..];
  }

  /** Permuting `low..high` keeps any bound that held on every cell of it. */
  lemma PermutesKeepsWeights(s: seq<Edge>, t: seq<Edge>, low: int, high: int, lo: int, hi: int)
    requires 0 <= low <= high + 1 <= |s| && Permutes(s, t, low, high) && WeightsIn(s, low, high, lo, hi)
    ensures WeightsIn(t, low, high, lo, hi)
  {
    PermutesMiddle(s, t, low, high);
    forall k | low <= k <= high
      ensures lo <= t[k].weight as int < hi
    {
      assert t[k] == t[low..high + 1][k - low];
      assert t[k] in multiset(s[low..high + 1]);
      var m :| 0 <= m < high + 1 - low && s[low..high + 1][m] == t[k];
      assert s[m + low] == t[k];
    }
  }

  /** `partition(arr, low, high)`: Lomuto partition around the last cell's
      weight. The pivot edge ends at the returned index `p`; the cells before
      it are strictly lighter and the cells after it are at least as heavy;
      the cells `low..high` are permuted and no other cell changes. */
  method Partition(a: array<Edge>, low: int, high: int) returns (p: int)
    requires 0 <= low <= high < a.Length
    modifies a
    ensures low <= p <= high
    ensures a[p] == old(a[high])
    ensures WeightsIn(a[..], low, p - 1, -0x8000_0000, a[p].weight as int)
    ensures WeightsIn(a[..], p + 1, high, a[p].weight as int, 0x8000_0000)
    ensures Permutes(old(a[..]), a[..], low, high)
  {
    ghost var s0 := a[..];
    var i := Scan(a, low, high);
    ghost var before := a[..];
    SwapEdges(a, i + 1, high);
    PartitionFinish(s0, before, a[..], low, high, i);
    p := i + 1;
  }

  /** The loop of `partition`: scanning `low..high-1`, each cell lighter than
      the pivot moves to the end of the lighter part `low..i`. */
  method Scan(a: array<Edge>, low: int, high: int) returns (i: int)
    requires 0 <= low <= high < a.Length
    modifies a
    ensures low - 1 <= i < high && PartitionLoop(old(a[..]), a[..], low, high, i, high)
  {
    ghost var s0 := a[..];
    var pivot := a[high].weight;
    i := low - 1;
    var j := low;
    while j < high
      invariant low - 1 <= i < j <= high && a.Length == |s0|
      invariant PartitionLoop(s0, a[..], low, high, i, j)
    {
      ghost var before := a[..];
      if a[j].weight < pivot {
        SwapEdges(a, i + 1, j);
        PartitionStep(s0, before, a[..], low, high, i, j);
        i := i + 1;
      }
      j := j + 1;
    }
  }

  /** The partition loop's invariant after scanning `low..j-1` of `s0` with
      `i` the end of the lighter part: `s` permutes `s0` on `low..high`, the
      pivot cell `high` is untouched, the cells `low..i` are lighter than the
      pivot and the cells `i+1..j-1` are at least as heavy. */
  ghost predicate PartitionLoop(s0: seq<Edge>, s: seq<Edge>, low: int, high: int, i: int, j: int)
    requires 0 <= low && low - 1 <= i < j <= high < |s0|
  {
    Permutes(s0, s, low, high) && s[high] == s0[high] &&
    WeightsIn(s, low, i, -0x8000_0000, s0[high].weight as int) &&
    WeightsIn(s, i + 1, j - 1, s0[high].weight as int, 0x8000_0000)
  }

  /** One step of the partition loop keeps its invariant: a lighter cell `j`
      moves to the end of the lighter part; a heavier one stays. */
  lemma PartitionStep(s0: seq<Edge>, s: seq<Edge>, t: seq<Edge>, low: int, high: int, i: int, j: int)
    requires 0 <= low && low - 1 <= i < j < high < |s0| && PartitionLoop(s0, s, low, high, i, j)
    requires s[j].weight < s0[high].weight ==> t == s[i + 1 := s[j]][j := s[i + 1]]
    requires s[j].weight >= s0[high].weight ==> t == s
    ensures s[j].weight < s0[high].weight ==> PartitionLoop(s0, t, low, high, i + 1, j + 1)
    ensures s[j].weight >= s0[high].weight ==> PartitionLoop(s0, t, low, high, i, j + 1)
  {
    if s[j].weight < s0[high].weight {
      SwapWeights(s, t, low, i, j, s0[high].weight as int);
      SwapPermutes(s, i + 1, j, low, high);
      PermutesTrans(s0, s, t, low, high);
    }
  }

  /** Moving a cell lighter than `pivot` from `j` to just after the lighter
      part `low..i` keeps both parts' bounds, each part one cell further on. */
  lemma SwapWeights(s: seq<Edge>, t: seq<Edge>, low: int, i: int, j: int, pivot: int)
    requires 0 <= low && low - 1 <= i < j < |s|
    requires WeightsIn(s, low, i, -0x8000_0000, pivot) && WeightsIn(s, i + 1, j - 1, pivot, 0x8000_0000)
    requires s[j].weight as int < pivot && t == s[i + 1 := s[j]][j := s[i + 1]]
    ensures WeightsIn(t, low, i + 1, -0x8000_0000, pivot) && WeightsIn(t, i + 2, j, pivot, 0x8000_0000)
  {
  }

  /** The final exchange of `partition` puts the pivot between the two parts. */
  lemma PartitionFinish(s0: seq<Edge>, s: seq<Edge>, t: seq<Edge>, low: int, high: int, i: int)
    requires 0 <= low && low - 1 <= i < high < |s0| && PartitionLoop(s0, s, low, high, i, high)
    requires t == s[i + 1 := s[high]][high := s[i + 1]]
    ensures t[i + 1] == s0[high]
    ensures WeightsIn(t, low, i, -0x8000_0000, t[i + 1].weight as int)
    ensures WeightsIn(t, i + 2, high, t[i + 1].weight as int, 0x8000_0000)
    ensures Permutes(s0, t, low, high)
  {
    FinishWeights(s, t, low, i, high, s0[high].weight as int);
    SwapPermutes(s, i + 1, high, low, high);
    PermutesTrans(s0, s, t, low, high);
  }

  /** Exchanging the pivot cell `high` with the first heavier cell `i+1`
      leaves the lighter cells before the pivot and the heavier ones after it. */
  lemma FinishWeights(s: seq<Edge>, t: seq<Edge>, low: int, i: int, high: int, pivot: int)
    requires 0 <= low && low - 1 <= i < high < |s| && s[high].weight as int == pivot
    requires WeightsIn(s, low, i, -0x8000_0000, pivot) && WeightsIn(s, i + 1, high - 1, pivot, 0x8000_0000)
    requires t == s[i + 1 := s[high]][high := s[i + 1]]
    ensures t[i + 1] == s[high]
    ensures WeightsIn(t, low, i, -0x8000_0000, pivot) && WeightsIn(t, i + 2, high, pivot, 0x8000_0000)
  {
  }

  /** `quickSort(arr, low, high)`: the cells `low..high` end up sorted by
      weight, as a permutation of what they held; no other cell changes.
      Nothing happens when `low >= high`. */
  method QuickSort(a: array<Edge>, low: int, high: int)
    requires 0 <= low && high < a.Length
    modifies a
    ensures SortedBetween(a[..], low, high)
    ensures low >= high ==> a[..] == old(a[..])
    ensures low < high ==> Permutes(old(a[..]), a[..], low, high)
    decreases high - low
  {
    if low < high {
      var pi := Partition(a, low, high);
      ghost var a1 := a[..];
      QuickSort(a, low, pi - 1);
      ghost var a2 := a[..];
      QuickSort(a, pi + 1, high);
      QuickSortCombine(old(a[..]), a1, a2, a[..], low, pi, high);
    }
  }

  /** What a recursive `quickSort(low, high)` call promises: `low..high` is
      sorted, and permuted (unchanged when it has at most one cell). */
  ghost predicate SortedPart(s: seq<Edge>, t: seq<Edge>, low: int, high: int)
    requires 0 <= low <= high + 1 <= |s|
  {
    SortedBetween(t, low, high) &&
    (low >= high ==> t == s) && (low < high ==> Permutes(s, t, low, high))
  }

  /** The two recursive sorts after a partition leave `low..high` sorted and permuted. */
  lemma QuickSortCombine(s: seq<Edge>, a1: seq<Edge>, a2: seq<Edge>, a3: seq<Edge>, low: int, pi: int, high: int)
    requires 0 <= low <= pi <= high < |s|
    requires Permutes(s, a1, low, high)
    requires WeightsIn(a1, low, pi - 1, -0x8000_0000, a1[pi].weight as int)
    requires WeightsIn(a1, pi + 1, high, a1[pi].weight as int, 0x8000_0000)
    requires SortedPart(a1, a2, low, pi - 1)
    requires SortedPart(a2, a3, pi + 1, high)
    ensures SortedBetween(a3, low, high)
    ensures Permutes(s, a3, low, high)
  {
    var pivot := a1[pi].weight as int;
    assert Permutes(a1, a2, low, pi - 1);
    assert Permutes(a2, a3, pi + 1, high);
    PermutesKeepsWeights(a1, a2, low, pi - 1, -0x8000_0000, pivot);
    KeepsOutside(a1, a2, low, pi - 1, pi, high);
    PermutesKeepsWeights(a2, a3, pi + 1, high, pivot, 0x8000_0000);
    KeepsOutside(a2, a3, pi + 1, high, low, pi);
    SortedJoin(a3, low, pi, high);
    PermutesWiden(a1, a2, low, pi - 1, low, high);
    PermutesWiden(a2, a3, pi + 1, high, low, high);
    PermutesTrans(s, a1, a2, low, high);
    PermutesTrans(s, a2, a3, low, high);
  }

  /** A permutation of `low..high` leaves the cells `from..to` outside it as
      they were, so their weights, their order and any bound on them. */
  lemma KeepsOutside(s: seq<Edge>, t: seq<Edge>, low: int, high: int, from: int, to: int)
    requires 0 <= low <= high + 1 <= |s| && Permutes(s, t, low, high)
    requires 0 <= from <= to < |s| && (to < low || high < from)
    ensures forall k :: from <= k <= to ==> t[k] == s[k]
    ensures forall lo, hi :: WeightsIn(s, from, to, lo, hi) ==> WeightsIn(t, from, to, lo, hi)
    ensures SortedBetween(s, from, to) ==> SortedBetween(t, from, to)
  {
    forall k | from <= k <= to
      ensures t[k] == s[k]
    {
      if k < low {
        assert t[k] == t[..low][k];
      } else {
        assert t[k] == t[high + 1..][k - high - 1];
      }
    }
  }

  /** A sorted part of lighter cells, the pivot, and a sorted part of at least
      as heavy cells make a sorted whole. */
  lemma SortedJoin(s: seq<Edge>, low: int, pi: int, high: int)
    requires 0 <= low <= pi <= high < |s|
    requires WeightsIn(s, low, pi - 1, -0x8000_0000, s[pi].weight as int) && SortedBetween(s, low, pi - 1)
    requires WeightsIn(s, pi + 1, high, s[pi].weight as int, 0x8000_0000) && SortedBetween(s, pi + 1, high)
    ensures SortedBetween(s, low, high)
  {
  }
}
