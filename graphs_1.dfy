/**
 * Graph utilities over adjacency lists: conversion from a multiplicity
 * adjacency matrix, recursive and iterative depth-first search, and cycle
 * detection by path-based depth-first search.
 */
module Graphs1 {
  import opened AdjLists

  function Max0(c: int): nat {
    if c > 0 then c else 0
  }

  /** `c` copies of `x`; none when `c` is not positive. */
  function Repeat(x: int, c: int): seq<int>
    decreases c
  {
    if c <= 0 then [] else Repeat(x, c - 1) + [x]
  }

  /** The neighbour list built from the first `k` entries of a matrix row: j+1 repeated row[j] times, j = 0 .. k-1. */
  function RowList(row: seq<int>, k: nat): seq<int>
    requires k <= |row|
  {
    if k == 0 then [] else RowList(row, k - 1) + Repeat(k, row[k - 1])
  }

  /** Sum of the positive entries among the first `k` of a row. */
  function PositiveSum(row: seq<int>, k: nat): nat
    requires k <= |row|
  {
    if k == 0 then 0 else PositiveSum(row, k - 1) + Max0(row[k - 1])
  }

  lemma {:induction false} RepeatProperties(x: int, c: int)
    ensures |Repeat(x, c)| == Max0(c)
    ensures forall a :: 0 <= a < |Repeat(x, c)| ==> Repeat(x, c)[a] == x
    decreases c
  {
    if c > 0 {
      RepeatProperties(x, c - 1);
    }
  }

  lemma {:induction false} RepeatCount(x: int, c: int, y: int)
    ensures multiset(Repeat(x, c))[y] == if y == x then Max0(c) else 0
    decreases c
  {
    if c > 0 {
      RepeatCount(x, c - 1, y);
      assert multiset(Repeat(x, c))[y] == multiset(Repeat(x, c - 1))[y] + multiset([x])[y];
    }
  }

  /** The list for a row holds j+1 exactly max(row[j], 0) times for every j < k, and nothing else. */
  lemma RowListCounts(row: seq<int>, k: nat)
    requires k <= |row|
    ensures forall y :: multiset(RowList(row, k))[y] == if 1 <= y <= k then Max0(row[y - 1]) else 0
  {
    forall y
      ensures multiset(RowList(row, k))[y] == if 1 <= y <= k then Max0(row[y - 1]) else 0
    {
      RowListCount(row, k, y);
    }
  }

  lemma {:induction false} RowListCount(row: seq<int>, k: nat, y: int)
    requires k <= |row|
    ensures multiset(RowList(row, k))[y] == if 1 <= y <= k then Max0(row[y - 1]) else 0
  {
    if k > 0 {
      RowListCount(row, k - 1, y);
      RepeatCount(k, row[k - 1], y);
      var prev, rep := RowList(row, k - 1), Repeat(k, row[k - 1]);
      assert RowList(row, k) == prev + rep;
      assert multiset(prev + rep) == multiset(prev) + multiset(rep);
    }
  }

  /** The list for a row lists its vertices 1 .. k in non-decreasing order. */
  lemma {:induction false} RowListOrdered(row: seq<int>, k: nat)
    requires k <= |row|
    ensures forall a :: 0 <= a < |RowList(row, k)| ==> 1 <= RowList(row, k)[a] <= k
    ensures forall a, b :: 0 <= a < b < |RowList(row, k)| ==> RowList(row, k)[a] <= RowList(row, k)[b]
  {
    if k > 0 {
      RowListOrdered(row, k - 1);
      RepeatProperties(k, row[k - 1]);
      var prev, rep := RowList(row, k - 1), Repeat(k, row[k - 1]);
      var l := RowList(row, k);
      assert l == prev + rep;
      assert forall a :: 0 <= a < |prev| ==> l[a] == prev[a];
      assert forall a :: |prev| <= a < |l| ==> l[a] == rep[a - |prev|];
    }
  }

  /** The list for a row is as long as the sum of the row's positive entries. */
  lemma {:induction false} RowListLength(row: seq<int>, k: nat)
    requires k <= |row|
    ensures |RowList(row, k)| == PositiveSum(row, k)
  {
    if k > 0 {
      RowListLength(row, k - 1);
      RepeatProperties(k, row[k - 1]);
    }
  }

  /**
   * Converts a multiplicity adjacency matrix into an adjacency list with
   * 1-based vertex numbers: vertex i+1 lists j+1 once per edge i -> j.
   */
  method AdjmatToAdjlist(adjmat: seq<seq<int>>) returns (adjlist: AdjList)
    requires forall i :: 0 <= i < |adjmat| ==> |adjmat[i]| >= |adjmat|
    ensures forall x :: x in adjlist <==> 1 <= x <= |adjmat|
    ensures forall i :: 0 <= i < |adjmat| ==> adjlist[i + 1] == RowList(adjmat[i], |adjmat|)
  {
    var numVertices := |adjmat|;
    adjlist := map[];
    for i := 0 to numVertices
      invariant forall x :: x in adjlist <==> 1 <= x <= i
      invariant forall x :: 0 <= x < i ==> adjlist[x + 1] == RowList(adjmat[x], numVertices)
    {
      var neighbors: seq<int> := [];
      for j := 0 to numVertices
        invariant neighbors == RowList(adjmat[i], j)
      {
        var k := 0;
        while k < adjmat[i][j]
          invariant 0 <= k && (k <= adjmat[i][j] || k == 0)
          invariant neighbors == RowList(adjmat[i], j) + Repeat(j + 1, k)
        {
          neighbors := neighbors + [j + 1];
          k := k + 1;
        }
      }
      adjlist := adjlist[i + 1 := neighbors];
    }
  }

  /** Every element at or after position `base` has all its neighbours in `l`. */
  predicate ExpandedFrom(G: AdjList, l: seq<int>, base: nat) {
    forall k :: base <= k < |l| ==> ExpandedAt(G, l, k)
  }

  predicate ExpandedAt(G: AdjList, l: seq<int>, k: nat) {
    k < |l| && Expanded(G, l[k], l)
  }

  /**
   * One recursive depth-first visit: appends `v` to the visited list, then
   * visits every neighbour of `v` not yet in the list, in list order. The
   * list the Python `DFS_recursive` appends to in place is passed in and returned.
   * The new part of the list starts with `v`, each of its vertices after
   * `v` was not yet in the list, each of its vertices has all its
   * neighbours in the list, and each after `v` is a neighbour of an
   * earlier one of the new part.
   */
  method DfsVisit(G: AdjList, v: int, visited: seq<int>) returns (out: seq<int>)
    ensures |out| > |visited| && out[..|visited|] == visited && out[|visited|] == v
    ensures FreshFrom(out, |visited|)
    ensures ExpandedFrom(G, out, |visited|)
    ensures ParentedFrom(G, out, |visited|)
    decreases |Mentioned(G) - Elems(visited)|, if v in Mentioned(G) && v !in visited then 0 else 1
  {
    out := visited + [v];
    if v in G {
      var nbrs := G[v];
      for idx := 0 to |nbrs|
        invariant |out| > |visited| && out[..|visited|] == visited && out[|visited|] == v
        invariant FreshFrom(out, |visited|)
        invariant ExpandedFrom(G, out, |visited| + 1)
        invariant ParentedFrom(G, out, |visited|)
        invariant forall t :: 0 <= t < idx ==> nbrs[t] in out
      {
        var u := nbrs[idx];
        if u !in out {
          assert out[..|visited| + 1] == visited + [v];
          VisitShrinks(G, visited, out, v);
          NeighbourIsMentioned(G, v, u);
          ghost var before := out;
          out := DfsVisit(G, u, out);
          PrefixKeepsFacts(visited, v, before, out);
          FreshGrows(before, out, |visited|);
          ExpandedGrows(G, before, out, |visited| + 1);
          ParentedGrows(G, before, out, |visited|, |visited|);
          assert out[|before|] == u && u in out;
          assert forall t :: 0 <= t < idx ==> nbrs[t] in before;
        }
      }
      assert Expanded(G, out[|visited|], out);
    }
    assert ExpandedAt(G, out, |visited|);
  }

  /** A longer list with the same prefix still holds the prefix's elements, and `v` where it was. */
  lemma PrefixKeepsFacts(visited: seq<int>, v: int, before: seq<int>, after: seq<int>)
    requires |before| > |visited| && before[..|visited|] == visited && before[|visited|] == v
    requires |after| > |before| && after[..|before|] == before
    ensures after[..|visited|] == visited && after[|visited|] == v
    ensures forall x :: x in before ==> x in after
  {
    assert after[..|visited|] == before[..|visited|];
    forall x | x in before
      ensures x in after
    {
      var k :| 0 <= k < |before| && before[k] == x;
      assert after[k] == x;
    }
  }

  lemma FreshGrows(before: seq<int>, after: seq<int>, base: nat)
    requires base <= |before| < |after| && after[..|before|] == before
    requires FreshFrom(before, base) && after[|before|] !in before && FreshFrom(after, |before|)
    ensures FreshFrom(after, base)
  {
    forall k | base < k < |after|
      ensures FreshAt(after, k)
    {
      if k <= |before| {
        assert after[..k] == before[..k];
        if k < |before| {
          assert FreshAt(before, k);
          assert after[k] == before[k];
        }
      } else {
        assert FreshAt(after, k);
      }
    }
  }

  lemma ExpandedGrows(G: AdjList, before: seq<int>, after: seq<int>, base: nat)
    requires |before| < |after| && after[..|before|] == before
    requires ExpandedFrom(G, before, base) && ExpandedFrom(G, after, |before|)
    ensures ExpandedFrom(G, after, base)
  {
    forall k | base <= k < |after|
      ensures ExpandedAt(G, after, k)
    {
      if k < |before| {
        assert after[k] == before[k];
        assert ExpandedAt(G, before, k);
        forall x | x in before
          ensures x in after
        {
          var i :| 0 <= i < |before| && before[i] == x;
          assert after[i] == x;
        }
      } else {
        assert ExpandedAt(G, after, k);
      }
    }
  }

  lemma ParentedGrows(G: AdjList, before: seq<int>, after: seq<int>, base: nat, p: nat)
    requires base <= p < |before| < |after| && after[..|before|] == before
    requires before[p] in G && after[|before|] in G[before[p]]
    requires ParentedFrom(G, before, base) && ParentedFrom(G, after, |before|)
    ensures ParentedFrom(G, after, base)
  {
    forall k | base < k < |after|
      ensures HasParent(G, after, base, k)
    {
      if k < |before| {
        assert HasParent(G, before, base, k);
        var q :| base <= q < k && before[q] in G && before[k] in G[before[q]];
        assert after[q] == before[q] && after[k] == before[k];
      } else if k == |before| {
        assert after[p] == before[p];
      } else {
        assert HasParent(G, after, |before|, k);
      }
    }
  }

  /**
   * Recursive depth-first search from `s`: starts at `s`, holds each vertex
   * once, and holds exactly the vertices reachable from `s`.
   */
  method DfsRecursive(G: AdjList, s: int) returns (out: seq<int>)
    ensures |out| >= 1 && out[0] == s
    ensures NoDuplicates(out)
    ensures forall x :: x in out ==> Expanded(G, x, out)
    ensures forall x :: x in out <==> Reachable(G, s, x)
  {
    out := DfsVisit(G, s, []);
    FreshAppendsAreDistinct(out);
    forall x | x in out
      ensures Expanded(G, x, out)
    {
      var k :| 0 <= k < |out| && out[k] == x;
      assert ExpandedAt(G, out, k);
    }
    TraversalIsReachableSet(G, s, out);
  }

  /** Every neighbour of visited[k] is visited or on the stack. */
  predicate CoveredAt(G: AdjList, visited: seq<int>, stack: seq<int>, k: nat) {
    k < |visited| && (visited[k] in G ==> forall u :: u in G[visited[k]] ==> u in visited || u in stack)
  }

  /** stack[j] is the start, stacked before anything was visited, or a neighbour of a visited vertex. */
  predicate StackedAt(G: AdjList, s: int, visited: seq<int>, stack: seq<int>, j: nat) {
    j < |stack| &&
    ((visited == [] && stack[j] == s) ||
     exists p :: 0 <= p < |visited| && visited[p] in G && stack[j] in G[visited[p]])
  }

  /**
   * The invariant of the iterative search, with the first `covered`
   * visited vertices known to have all their neighbours visited or stacked.
   */
  ghost predicate SearchInv(G: AdjList, s: int, universe: set<int>, visited: seq<int>, stack: seq<int>, covered: nat) {
    covered <= |visited| &&
    (forall j :: 0 <= j < |stack| ==> stack[j] in universe) &&
    (visited == [] ==> stack == [s]) && (visited != [] ==> visited[0] == s) &&
    FreshFrom(visited, 0) && ParentedFrom(G, visited, 0) &&
    (forall j :: 0 <= j < |stack| ==> StackedAt(G, s, visited, stack, j)) &&
    (forall k :: 0 <= k < covered ==> CoveredAt(G, visited, stack, k))
  }

  /** The search starts with nothing visited and only `s` on the stack. */
  lemma InitSearch(G: AdjList, s: int, universe: set<int>)
    requires s in universe
    ensures SearchInv(G, s, universe, [], [s], 0)
  {
    assert StackedAt(G, s, [], [s], 0);
  }

  /** Popping a vertex that is already visited keeps the invariant. */
  lemma SkipStep(G: AdjList, s: int, universe: set<int>, visited: seq<int>, oldStack: seq<int>)
    requires SearchInv(G, s, universe, visited, oldStack, |visited|)
    requires |oldStack| >= 1 && oldStack[|oldStack| - 1] in visited
    ensures SearchInv(G, s, universe, visited, oldStack[..|oldStack| - 1], |visited|)
  {
    var stack, v := oldStack[..|oldStack| - 1], oldStack[|oldStack| - 1];
    assert oldStack == stack + [v];
    assert visited != [];
    forall j | 0 <= j < |stack|
      ensures StackedAt(G, s, visited, stack, j)
    {
      assert StackedAt(G, s, visited, oldStack, j);
      assert oldStack[j] == stack[j];
    }
    forall j | 0 <= j < |stack|
      ensures stack[j] in universe
    {
      assert oldStack[j] == stack[j];
    }
    forall k | 0 <= k < |visited|
      ensures CoveredAt(G, visited, stack, k)
    {
      assert CoveredAt(G, visited, oldStack, k);
    }
  }

  /** Visiting a popped, unvisited vertex keeps the invariant except for its own neighbours, and shrinks the measure. */
  lemma VisitStep(G: AdjList, s: int, universe: set<int>, before: seq<int>, oldStack: seq<int>)
    requires SearchInv(G, s, universe, before, oldStack, |before|)
    requires |oldStack| >= 1 && oldStack[|oldStack| - 1] !in before
    ensures var v := oldStack[|oldStack| - 1];
      SearchInv(G, s, universe, before + [v], oldStack[..|oldStack| - 1], |before|) &&
      |universe - Elems(before + [v])| < |universe - Elems(before)|
  {
    var stack, v := oldStack[..|oldStack| - 1], oldStack[|oldStack| - 1];
    assert oldStack == stack + [v];
    assert StackedAt(G, s, before, oldStack, |stack|);
    VisitKeepsOrder(G, s, before, v);
    VisitKeepsStack(G, s, universe, before, stack, v);
    VisitKeepsCovered(G, before, stack, v);
    var visited := before + [v];
    ElemsSnoc(before, v);
    CardMono(universe - Elems(visited), universe - Elems(before));
    assert v in (universe - Elems(before)) - (universe - Elems(visited));
  }

  /** Appending a new neighbour of a visited vertex keeps the visited list fresh and parented. */
  lemma VisitKeepsOrder(G: AdjList, s: int, before: seq<int>, v: int)
    requires FreshFrom(before, 0) && ParentedFrom(G, before, 0) && v !in before
    requires before == [] ==> v == s
    requires before != [] ==> before[0] == s
    requires before != [] ==> exists p :: 0 <= p < |before| && before[p] in G && v in G[before[p]]
    ensures FreshFrom(before + [v], 0) && ParentedFrom(G, before + [v], 0)
    ensures (before + [v])[0] == s
  {
    var visited := before + [v];
    forall k | 0 < k < |visited|
      ensures FreshAt(visited, k)
    {
      assert visited[..k] == before[..k];
      if k < |before| {
        assert FreshAt(before, k);
      }
    }
    forall k | 0 < k < |visited|
      ensures HasParent(G, visited, 0, k)
    {
      if k < |before| {
        assert HasParent(G, before, 0, k);
        var p :| 0 <= p < k && before[p] in G && before[k] in G[before[p]];
        assert visited[p] == before[p];
      } else {
        var p :| 0 <= p < |before| && before[p] in G && v in G[before[p]];
        assert visited[p] == before[p];
      }
    }
  }

  /** The rest of the stack stays stacked after a visit. */
  lemma VisitKeepsStack(G: AdjList, s: int, universe: set<int>, before: seq<int>, stack: seq<int>, v: int)
    requires forall j :: 0 <= j < |stack + [v]| ==> StackedAt(G, s, before, stack + [v], j)
    requires forall j :: 0 <= j < |stack + [v]| ==> (stack + [v])[j] in universe
    requires before == [] ==> stack + [v] == [s]
    ensures forall j :: 0 <= j < |stack| ==> StackedAt(G, s, before + [v], stack, j)
    ensures forall j :: 0 <= j < |stack| ==> stack[j] in universe
  {
    var oldStack, visited := stack + [v], before + [v];
    forall j | 0 <= j < |stack|
      ensures StackedAt(G, s, visited, stack, j) && stack[j] in universe
    {
      assert StackedAt(G, s, before, oldStack, j);
      assert oldStack[j] == stack[j];
      var p :| 0 <= p < |before| && before[p] in G && stack[j] in G[before[p]];
      assert visited[p] == before[p];
    }
  }

  /** Vertices already covered stay covered: the popped vertex moved from the stack to the visited list. */
  lemma VisitKeepsCovered(G: AdjList, before: seq<int>, stack: seq<int>, v: int)
    requires forall k :: 0 <= k < |before| ==> CoveredAt(G, before, stack + [v], k)
    ensures forall k :: 0 <= k < |before| ==> CoveredAt(G, before + [v], stack, k)
  {
    var oldStack, visited := stack + [v], before + [v];
    forall k | 0 <= k < |before|
      ensures CoveredAt(G, visited, stack, k)
    {
      assert CoveredAt(G, before, oldStack, k);
      assert visited[k] == before[k];
    }
  }

  /** Pushing a neighbour of the last visited vertex keeps the invariant. */
  lemma PushStep(G: AdjList, s: int, universe: set<int>, visited: seq<int>, stack: seq<int>, u: int)
    requires |visited| >= 1 && SearchInv(G, s, universe, visited, stack, |visited| - 1)
    requires visited[|visited| - 1] in G && u in G[visited[|visited| - 1]] && u in universe
    ensures SearchInv(G, s, universe, visited, stack + [u], |visited| - 1)
  {
    var stack' := stack + [u];
    forall j | 0 <= j < |stack'|
      ensures StackedAt(G, s, visited, stack', j)
    {
      if j < |stack| {
        assert StackedAt(G, s, visited, stack, j);
        assert stack'[j] == stack[j];
      }
    }
    forall k | 0 <= k < |visited| - 1
      ensures CoveredAt(G, visited, stack', k)
    {
      assert CoveredAt(G, visited, stack, k);
    }
  }

  /** Once all neighbours of the last visited vertex are visited or stacked, it is covered too. */
  lemma CloseStep(G: AdjList, s: int, universe: set<int>, visited: seq<int>, stack: seq<int>)
    requires |visited| >= 1 && SearchInv(G, s, universe, visited, stack, |visited| - 1)
    requires var v := visited[|visited| - 1];
      v in G ==> forall t :: 0 <= t < |G[v]| ==> G[v][t] in visited || G[v][t] in stack
    ensures SearchInv(G, s, universe, visited, stack, |visited|)
  {
    var last := |visited| - 1;
    var v := visited[last];
    if v in G {
      forall u | u in G[v]
        ensures u in visited || u in stack
      {
        var t :| 0 <= t < |G[v]| && G[v][t] == u;
      }
    }
    assert CoveredAt(G, visited, stack, last);
  }

  /** With the stack empty, the invariant gives a closed, duplicate-free traversal from `s`. */
  lemma FinishSearch(G: AdjList, s: int, universe: set<int>, visited: seq<int>)
    requires SearchInv(G, s, universe, visited, [], |visited|)
    ensures |visited| >= 1 && visited[0] == s
    ensures NoDuplicates(visited)
    ensures forall x :: x in visited ==> Expanded(G, x, visited)
    ensures forall x :: x in visited <==> Reachable(G, s, x)
  {
    FreshAppendsAreDistinct(visited);
    forall x | x in visited
      ensures Expanded(G, x, visited)
    {
      var k :| 0 <= k < |visited| && visited[k] == x;
      assert CoveredAt(G, visited, [], k);
    }
    TraversalIsReachableSet(G, s, visited);
  }

  /** The inner loop of the iterative search: pushes every neighbour of the last visited vertex that is not visited. */
  method PushUnvisited(G: AdjList, ghost s: int, ghost universe: set<int>, visited: seq<int>, stack0: seq<int>)
    returns (stack: seq<int>)
    requires |visited| >= 1 && SearchInv(G, s, universe, visited, stack0, |visited| - 1)
    requires Mentioned(G) <= universe
    ensures SearchInv(G, s, universe, visited, stack, |visited|)
  {
    stack := stack0;
    var v := visited[|visited| - 1];
    if v in G {
      var nbrs := G[v];
      for idx := 0 to |nbrs|
        invariant SearchInv(G, s, universe, visited, stack, |visited| - 1)
        invariant forall t :: 0 <= t < idx ==> nbrs[t] in visited || nbrs[t] in stack
      {
        var u := nbrs[idx];
        if u !in visited {
          NeighbourIsMentioned(G, v, u);
          PushStep(G, s, universe, visited, stack, u);
          stack := stack + [u];
        }
      }
    }
    CloseStep(G, s, universe, visited, stack);
  }

  /**
   * Iterative depth-first search with an explicit stack: pops a vertex,
   * and if it is new, visits it and pushes its unvisited neighbours.
   * Starts at `s`, holds each vertex once, and holds exactly the vertices
   * reachable from `s`.
   */
  method DfsIterative(G: AdjList, s: int) returns (visited: seq<int>)
    ensures |visited| >= 1 && visited[0] == s
    ensures NoDuplicates(visited)
    ensures forall x :: x in visited ==> Expanded(G, x, visited)
    ensures forall x :: x in visited <==> Reachable(G, s, x)
  {
    visited := [];
    var stack := [s];
    ghost var universe := Mentioned(G) + {s};
    InitSearch(G, s, universe);
    while stack != []
      invariant SearchInv(G, s, universe, visited, stack, |visited|)
      decreases |universe - Elems(visited)|, |stack|
    {
      var v := stack[|stack| - 1];
      ghost var oldStack := stack;
      stack := stack[..|stack| - 1];
      if v !in visited {
        VisitStep(G, s, universe, visited, oldStack);
        visited := visited + [v];
        stack := PushUnvisited(G, s, universe, visited, stack);
      } else {
        SkipStep(G, s, universe, visited, oldStack);
      }
    }
    FinishSearch(G, s, universe, visited);
  }

  /** `w` starts beyond `path` and ends on a vertex of `path` or on an earlier vertex of its own. */
  ghost predicate RevisitingWalk(G: AdjList, path: seq<int>, w: seq<int>) {
    IsWalk(G, w) && |w| >= 2 && w[|w| - 1] in path + w[..|w| - 1]
  }

  /** A walk from `v` extending `path` + [v] comes back to a vertex already on it. */
  ghost predicate HasRevisitingWalk(G: AdjList, v: int, path: seq<int>) {
    exists w :: RevisitingWalk(G, path, w) && w[0] == v
  }

  /** A walk of length at least one that ends where it starts. */
  ghost predicate HasClosedWalk(G: AdjList) {
    exists w :: IsWalk(G, w) && |w| >= 2 && w[0] == w[|w| - 1]
  }

  /**
   * One step of the revisiting walks: there is one from `v` exactly when `v`
   * has a neighbour already on path + [v], or one from which such a walk
   * continues with `v` added to the path.
   */
  lemma RevisitingWalkUnfold(G: AdjList, v: int, path: seq<int>)
    ensures HasRevisitingWalk(G, v, path) <==>
              v in G && exists u :: u in G[v] && (u in path + [v] || HasRevisitingWalk(G, u, path + [v]))
  {
    if HasRevisitingWalk(G, v, path) {
      var w :| RevisitingWalk(G, path, w) && w[0] == v;
      var u := w[1];
      assert v in G && u in G[v];
      if |w| == 2 {
        assert w[..|w| - 1] == [v];
      } else {
        var w' := w[1..];
        assert path + w[..|w| - 1] == (path + [v]) + w'[..|w'| - 1];
        WalkSlice(G, w, 1, |w|);
        assert RevisitingWalk(G, path + [v], w');
      }
    }
    if v in G && exists u :: u in G[v] && (u in path + [v] || HasRevisitingWalk(G, u, path + [v])) {
      var u :| u in G[v] && (u in path + [v] || HasRevisitingWalk(G, u, path + [v]));
      if u in path + [v] {
        var w := [v, u];
        assert w[..|w| - 1] == [v];
        assert RevisitingWalk(G, path, w);
      } else {
        var w' :| RevisitingWalk(G, path + [v], w') && w'[0] == u;
        var w := [v] + w';
        assert w[..|w| - 1] == [v] + w'[..|w'| - 1];
        WalkPrepend(G, v, w');
        assert RevisitingWalk(G, path, w);
      }
    }
  }

  /** A self-loop on `v` is found at once, whatever the path. */
  lemma SelfLoopIsCyclic(G: AdjList, v: int, path: seq<int>)
    requires v in G && v in G[v]
    ensures HasRevisitingWalk(G, v, path)
  {
    var w := [v, v];
    assert w[..|w| - 1] == [v];
    assert RevisitingWalk(G, path, w);
  }

  /**
   * Path-based cycle detection from `v`: with `v` added to a copy of the
   * path, a neighbour on the path answers true, and otherwise each
   * neighbour is explored with its own copy. True exactly when a walk from
   * `v` returns to a vertex on path + [v] or to one it passed before.
   */
  method Cyclic(G: AdjList, v: int, path: seq<int>) returns (b: bool)
    ensures b <==> HasRevisitingWalk(G, v, path)
    decreases |Mentioned(G) - Elems(path)|, if v in Mentioned(G) && v !in path then 0 else 1
  {
    var visited := path + [v];
    RevisitingWalkUnfold(G, v, path);
    if v in G {
      var nbrs := G[v];
      for idx := 0 to |nbrs|
        invariant forall t :: 0 <= t < idx ==> nbrs[t] !in visited && !HasRevisitingWalk(G, nbrs[t], visited)
      {
        var vertex := nbrs[idx];
        if vertex in visited {
          return true;
        }
        VisitShrinks(G, path, visited, v);
        NeighbourIsMentioned(G, v, vertex);
        var c := Cyclic(G, vertex, visited);
        if c {
          return true;
        }
      }
    }
    return false;
  }

  /** A revisiting walk from the empty path contains a closed walk. */
  lemma RevisitingWalkHasClosedWalk(G: AdjList, w: seq<int>)
    requires RevisitingWalk(G, [], w)
    ensures HasClosedWalk(G)
  {
    assert [] + w[..|w| - 1] == w[..|w| - 1];
    var j :| 0 <= j < |w| - 1 && w[..|w| - 1][j] == w[|w| - 1];
    var c := w[j..];
    WalkSlice(G, w, j, |w|);
    assert c[0] == c[|c| - 1];
  }

  /** A closed walk is a revisiting walk from its first vertex, which is a key. */
  lemma ClosedWalkIsRevisiting(G: AdjList, c: seq<int>)
    requires IsWalk(G, c) && |c| >= 2 && c[0] == c[|c| - 1]
    ensures c[0] in G && HasRevisitingWalk(G, c[0], [])
  {
    assert [] + c[..|c| - 1] == c[..|c| - 1];
    assert c[0] == c[..|c| - 1][0];
    assert RevisitingWalk(G, [], c);
  }

  /** Some key starts a revisiting walk from the empty path exactly when the graph has a closed walk. */
  lemma CyclicFromSomeKeyIffClosedWalk(G: AdjList)
    ensures (exists k :: k in G && HasRevisitingWalk(G, k, [])) <==> HasClosedWalk(G)
  {
    if exists k :: k in G && HasRevisitingWalk(G, k, []) {
      var k :| k in G && HasRevisitingWalk(G, k, []);
      var w :| RevisitingWalk(G, [], w) && w[0] == k;
      RevisitingWalkHasClosedWalk(G, w);
    }
    if HasClosedWalk(G) {
      var c :| IsWalk(G, c) && |c| >= 2 && c[0] == c[|c| - 1];
      ClosedWalkIsRevisiting(G, c);
    }
  }

  /**
   * Acyclicity test: runs the cycle detection from every key with an empty
   * path and answers false as soon as one finds a cycle. The key order does
   * not matter for the answer. True exactly when the graph has no closed walk.
   */
  method IsAcyclic(G: AdjList) returns (b: bool)
    ensures b <==> forall k :: k in G ==> !HasRevisitingWalk(G, k, [])
    ensures b <==> !HasClosedWalk(G)
  {
    var keys := G.Keys;
    while keys != {}
      invariant keys <= G.Keys
      invariant forall k :: k in G.Keys - keys ==> !HasRevisitingWalk(G, k, [])
      decreases |keys|
    {
      NonEmptyHasMember(keys);
      var vertex :| vertex in keys;
      var c := Cyclic(G, vertex, []);
      if c {
        CyclicFromSomeKeyIffClosedWalk(G);
        return false;
      }
      keys := keys - {vertex};
    }
    CyclicFromSomeKeyIffClosedWalk(G);
    return true;
  }
}
