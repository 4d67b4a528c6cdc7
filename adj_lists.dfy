/**
 * Adjacency lists of directed multigraphs, walks in them, and the facts
 * about traversal orders that the depth-first searches share.
 */
module AdjLists {

  /** Vertex -> out-neighbours; a neighbour repeated k times stands for k parallel edges. */
  type AdjList = map<int, seq<int>>

  /** The elements of a list, as a set. */
  ghost function Elems(s: seq<int>): set<int> {
    set x | x in s
  }

  /** Every vertex that appears in some neighbour list. */
  ghost function Mentioned(G: AdjList): set<int> {
    set x, u | x in G && u in G[x] :: u
  }

  /** Each step of `w` follows an edge: the vertex is a key and the next one is in its list. */
  predicate IsWalk(G: AdjList, w: seq<int>) {
    |w| >= 1 && forall i :: 0 <= i < |w| - 1 ==> w[i] in G && w[i + 1] in G[w[i]]
  }

  /** A piece of a walk is a walk. */
  lemma WalkSlice(G: AdjList, w: seq<int>, a: nat, b: nat)
    requires IsWalk(G, w) && a < b <= |w|
    ensures IsWalk(G, w[a..b])
  {
    var c := w[a..b];
    forall i | 0 <= i < |c| - 1
      ensures c[i] in G && c[i + 1] in G[c[i]]
    {
      assert c[i] == w[a + i] && c[i + 1] == w[a + i + 1];
    }
  }

  /** An edge into the start of a walk extends it backwards. */
  lemma WalkPrepend(G: AdjList, v: int, w: seq<int>)
    requires IsWalk(G, w) && v in G && w[0] in G[v]
    ensures IsWalk(G, [v] + w)
  {
    var c := [v] + w;
    forall i | 0 <= i < |c| - 1
      ensures c[i] in G && c[i + 1] in G[c[i]]
    {
      if i > 0 {
        assert c[i] == w[i - 1] && c[i + 1] == w[i];
      }
    }
  }

  /** `x` can be reached from `s` by a walk (of length zero when x == s). */
  ghost predicate Reachable(G: AdjList, s: int, x: int) {
    exists w :: IsWalk(G, w) && w[0] == s && w[|w| - 1] == x
  }

  /** All out-neighbours of `x` lie in `l`; vacuous for a vertex that is not a key. */
  predicate Expanded(G: AdjList, x: int, l: seq<int>) {
    x in G ==> forall u :: u in G[x] ==> u in l
  }

  /** Every element after position `base` is a neighbour of an earlier element at or after `base`. */
  predicate ParentedFrom(G: AdjList, l: seq<int>, base: nat) {
    forall k :: base < k < |l| ==> HasParent(G, l, base, k)
  }

  /** l[k] is a neighbour of some l[p] with base <= p < k. */
  predicate HasParent(G: AdjList, l: seq<int>, base: nat, k: nat) {
    k < |l| && exists p :: base <= p < k && l[p] in G && l[k] in G[l[p]]
  }

  /** Every element after position `base` was new when it was appended. */
  predicate FreshFrom(l: seq<int>, base: nat) {
    forall k :: base < k < |l| ==> FreshAt(l, k)
  }

  predicate FreshAt(l: seq<int>, k: nat) {
    k < |l| && l[k] !in l[..k]
  }

  predicate NoDuplicates(l: seq<int>) {
    forall j, k :: 0 <= j < k < |l| ==> l[j] != l[k]
  }

  lemma CardMono(a: set<int>, b: set<int>)
    requires a <= b
    ensures |b| == |a| + |b - a|
  {
    assert b == a + (b - a);
  }

  lemma NonEmptyHasMember(s: set<int>)
    requires s != {}
    ensures exists x :: x in s
  {
    if forall x :: x !in s {
      assert false;
    }
  }

  lemma ElemsSnoc(s: seq<int>, v: int)
    ensures Elems(s + [v]) == Elems(s) + {v}
  {
  }

  lemma ElemsPrefix(s: seq<int>, t: seq<int>)
    requires |s| <= |t| && t[..|s|] == s
    ensures Elems(s) <= Elems(t)
  {
    forall x | x in s
      ensures x in t
    {
      var k :| 0 <= k < |s| && s[k] == x;
      assert t[k] == x;
    }
  }

  /** The measure of the searches shrinks when a mentioned vertex is added to the visited list. */
  lemma VisitShrinks(G: AdjList, visited: seq<int>, longer: seq<int>, v: int)
    requires |visited| < |longer| && longer[..|visited| + 1] == visited + [v]
    ensures |Mentioned(G) - Elems(longer)| <= |Mentioned(G) - Elems(visited)|
    ensures v in Mentioned(G) && v !in visited ==>
              |Mentioned(G) - Elems(longer)| < |Mentioned(G) - Elems(visited)|
  {
    ElemsSnoc(visited, v);
    ElemsPrefix(visited + [v], longer);
    CardMono(Mentioned(G) - Elems(longer), Mentioned(G) - Elems(visited));
    if v in Mentioned(G) && v !in visited {
      assert v in (Mentioned(G) - Elems(visited)) - (Mentioned(G) - Elems(longer));
    }
  }

  lemma NeighbourIsMentioned(G: AdjList, x: int, u: int)
    requires x in G && u in G[x]
    ensures u in Mentioned(G)
  {
  }

  /** A list whose later elements all have earlier parents holds only vertices reachable from its head. */
  lemma {:induction false} ParentedWalk(G: AdjList, l: seq<int>, k: nat) returns (w: seq<int>)
    requires ParentedFrom(G, l, 0) && k < |l|
    ensures IsWalk(G, w) && w[0] == l[0] && w[|w| - 1] == l[k]
    decreases k
  {
    if k == 0 {
      w := [l[0]];
    } else {
      assert HasParent(G, l, 0, k);
      var p :| 0 <= p < k && l[p] in G && l[k] in G[l[p]];
      var w' := ParentedWalk(G, l, p);
      w := w' + [l[k]];
      assert w[|w'| - 1] == l[p];
    }
  }

  /** A list that holds all out-neighbours of its elements holds the end of every walk that starts in it. */
  lemma {:induction false} ClosedContainsWalk(G: AdjList, l: seq<int>, w: seq<int>)
    requires forall x :: x in l ==> Expanded(G, x, l)
    requires IsWalk(G, w) && w[0] in l
    ensures w[|w| - 1] in l
    decreases |w|
  {
    if |w| > 1 {
      var w' := w[..|w| - 1];
      assert IsWalk(G, w');
      ClosedContainsWalk(G, l, w');
      var x, u := w[|w| - 2], w[|w| - 1];
      assert x == w'[|w'| - 1] && x in G && u in G[x];
      assert Expanded(G, x, l);
    }
  }

  /** Each element is new when appended, so none occurs twice. */
  lemma FreshAppendsAreDistinct(l: seq<int>)
    requires FreshFrom(l, 0)
    ensures NoDuplicates(l)
  {
    forall j, k | 0 <= j < k < |l|
      ensures l[j] != l[k]
    {
      assert FreshAt(l, k);
      assert l[j] == l[..k][j];
    }
  }

  /**
   * A traversal from `s` that is closed under the edges and in which every
   * later vertex has an earlier parent holds exactly the vertices reachable from `s`.
   */
  lemma TraversalIsReachableSet(G: AdjList, s: int, l: seq<int>)
    requires |l| >= 1 && l[0] == s && ParentedFrom(G, l, 0)
    requires forall x :: x in l ==> Expanded(G, x, l)
    ensures forall x :: x in l <==> Reachable(G, s, x)
  {
    forall x | x in l
      ensures Reachable(G, s, x)
    {
      var k :| 0 <= k < |l| && l[k] == x;
      var w := ParentedWalk(G, l, k);
    }
    forall x | Reachable(G, s, x)
      ensures x in l
    {
      var w :| IsWalk(G, w) && w[0] == s && w[|w| - 1] == x;
      ClosedContainsWalk(G, l, w);
    }
  }
}
