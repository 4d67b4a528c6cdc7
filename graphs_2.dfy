/**
 * Bounded breadth-first search: the vertices reachable from a start vertex
 * by a walk of at least one and at most `maxDistance` edges.
 */
module Graphs2 {
  import opened AdjLists

  /** A queue entry: a vertex and the number of edges walked to reach it. */
  type Entry = (int, int)

  /** The out-neighbours of the vertices of `S` that are keys. */
  ghost function Succ(G: AdjList, S: set<int>): set<int> {
    set x, u | x in S && x in G && u in G[x] :: u
  }

  /** The out-neighbours of one vertex; none when it is not a key. */
  ghost function Adj(G: AdjList, x: int): set<int> {
    if x in G then Elems(G[x]) else {}
  }

  /** The vertices at most `d` edges away from `s`, `s` itself included. */
  ghost function Ball(G: AdjList, s: int, d: nat): set<int>
    decreases d
  {
    if d == 0 then {s} else Ball(G, s, d - 1) + Succ(G, Ball(G, s, d - 1))
  }

  /** The vertices that end a walk from `s` of between 1 and `m` edges. */
  ghost function Within(G: AdjList, s: int, m: int): set<int> {
    if m <= 0 then {} else Succ(G, Ball(G, s, m - 1))
  }

  /** Some walk of between one and `m` edges leads from `s` to `x`. */
  ghost predicate ReachableWithin(G: AdjList, s: int, x: int, m: int) {
    exists w :: IsWalk(G, w) && w[0] == s && w[|w| - 1] == x && 2 <= |w| <= m + 1
  }

  lemma SuccMono(G: AdjList, A: set<int>, B: set<int>)
    requires A <= B
    ensures Succ(G, A) <= Succ(G, B)
  {
  }

  lemma SuccAddOne(G: AdjList, A: set<int>, x: int)
    ensures Succ(G, A + {x}) == Succ(G, A) + Adj(G, x)
  {
    forall u | u in Adj(G, x)
      ensures u in Succ(G, A + {x})
    {
      assert x in G && u in G[x];
    }
  }

  lemma SuccIsMentioned(G: AdjList, A: set<int>)
    ensures Succ(G, A) <= Mentioned(G)
  {
  }

  lemma InSucc(G: AdjList, A: set<int>, x: int, u: int)
    requires x in A && x in G && u in G[x]
    ensures u in Succ(G, A)
  {
  }

  lemma {:induction false} BallMono(G: AdjList, s: int, a: nat, b: nat)
    requires a <= b
    ensures Ball(G, s, a) <= Ball(G, s, b)
    decreases b
  {
    if a < b {
      BallMono(G, s, a, b - 1);
    }
  }

  /** A set that holds a ball and all neighbours of its own elements holds every larger ball. */
  lemma {:induction false} ClosedHoldsBalls(G: AdjList, s: int, E: set<int>, a: nat, b: nat)
    requires Ball(G, s, a) <= E && Succ(G, E) <= E && a <= b
    ensures Ball(G, s, b) <= E
    decreases b
  {
    if a < b {
      ClosedHoldsBalls(G, s, E, a, b - 1);
      SuccMono(G, Ball(G, s, b - 1), E);
    }
  }

  /** Every vertex of the ball of radius `d` ends a walk from `s` of at most `d` edges. */
  lemma {:induction false} BallToWalk(G: AdjList, s: int, d: nat, x: int) returns (w: seq<int>)
    requires x in Ball(G, s, d)
    ensures IsWalk(G, w) && w[0] == s && w[|w| - 1] == x && |w| <= d + 1
    decreases d
  {
    if d == 0 {
      w := [s];
    } else if x in Ball(G, s, d - 1) {
      w := BallToWalk(G, s, d - 1, x);
    } else {
      var y :| y in Ball(G, s, d - 1) && y in G && x in G[y];
      var w' := BallToWalk(G, s, d - 1, y);
      w := w' + [x];
      assert w[|w| - 2] == y;
    }
  }

  /** The end of a walk from `s` of at most `d` edges lies in the ball of radius `d`. */
  lemma {:induction false} WalkToBall(G: AdjList, s: int, d: nat, w: seq<int>)
    requires IsWalk(G, w) && w[0] == s && |w| <= d + 1
    ensures w[|w| - 1] in Ball(G, s, d)
    decreases d
  {
    if d > 0 {
      if |w| <= d {
        WalkToBall(G, s, d - 1, w);
      } else {
        var w' := w[..|w| - 1];
        WalkSlice(G, w, 0, |w| - 1);
        WalkToBall(G, s, d - 1, w');
        InSucc(G, Ball(G, s, d - 1), w'[|w'| - 1], w[|w| - 1]);
      }
    }
  }

  /** The vertices within `m` steps are exactly the ends of the walks from `s` of one to `m` edges. */
  lemma WithinIsWalks(G: AdjList, s: int, m: int, x: int)
    ensures x in Within(G, s, m) <==> ReachableWithin(G, s, x, m)
  {
    if m > 0 {
      if x in Within(G, s, m) {
        var y :| y in Ball(G, s, m - 1) && y in G && x in G[y];
        var w := BallToWalk(G, s, m - 1, y);
        var w' := w + [x];
        assert w'[|w'| - 2] == y;
        assert IsWalk(G, w');
      }
      if ReachableWithin(G, s, x, m) {
        var w :| IsWalk(G, w) && w[0] == s && w[|w| - 1] == x && 2 <= |w| <= m + 1;
        var w' := w[..|w| - 1];
        WalkSlice(G, w, 0, |w| - 1);
        WalkToBall(G, s, m - 1, w');
        InSucc(G, Ball(G, s, m - 1), w'[|w'| - 1], x);
      }
    }
  }

  /** The vertices of the queue. */
  ghost function QueueVertices(q: seq<Entry>): set<int> {
    set i | 0 <= i < |q| :: q[i].0
  }

  /** The vertices queued at distance `d`. */
  ghost function LevelVertices(q: seq<Entry>, d: int): set<int> {
    set i | 0 <= i < |q| && q[i].1 == d :: q[i].0
  }

  /**
   * What holds between rounds of the search, with `expanded` the vertices
   * popped and expanded so far and `level` the distance being expanded:
   * the visited set is everything adjacent to an expanded vertex; a visited
   * vertex is expanded or queued; the queue holds distances `level` and
   * `level + 1` in non-decreasing order, each entry at most its distance
   * away from `s`; the ball of radius `level` is expanded or queued at
   * that level, and the one below is expanded.
   */
  ghost predicate BfsInv(G: AdjList, s: int, m: int, visited: set<int>, queue: seq<Entry>, expanded: set<int>, level: nat) {
    visited == Succ(G, expanded) &&
    visited <= expanded + QueueVertices(queue) &&
    Ball(G, s, level) <= expanded + LevelVertices(queue, level) &&
    (level >= 1 ==> Ball(G, s, level - 1) <= expanded) &&
    expanded <= Ball(G, s, level) &&
    (expanded != {} ==> level < m) &&
    (expanded != {} || queue != []) &&
    (forall i :: 0 <= i < |queue| ==> level <= queue[i].1 <= level + 1) &&
    (forall i :: 0 <= i < |queue| ==> queue[i].0 in Ball(G, s, queue[i].1)) &&
    (forall i, j :: 0 <= i < j < |queue| ==> queue[i].1 <= queue[j].1)
  }

  lemma StartBfs(G: AdjList, s: int, m: int)
    ensures BfsInv(G, s, m, {}, [(s, 0)], {}, 0)
  {
    var q: seq<Entry> := [(s, 0)];
    assert q[0].0 == s && q[0].1 == 0;
    assert s in LevelVertices(q, 0);
  }

  /** When the front of the queue is one level further, the whole current level has been expanded. */
  lemma NextLevel(G: AdjList, s: int, m: int, visited: set<int>, queue: seq<Entry>, expanded: set<int>, level: nat)
    requires BfsInv(G, s, m, visited, queue, expanded, level)
    requires |queue| >= 1 && queue[0].1 == level + 1 && level + 1 < m
    ensures BfsInv(G, s, m, visited, queue, expanded, level + 1)
  {
    NoneAtLevel(queue, level);
    assert LevelVertices(queue, level + 1) == QueueVertices(queue);
    SuccMono(G, Ball(G, s, level), expanded);
    BallMono(G, s, level, level + 1);
  }

  lemma QueueSnoc(q: seq<Entry>, e: Entry)
    ensures QueueVertices(q + [e]) == QueueVertices(q) + {e.0}
  {
    var q' := q + [e];
    forall x | x in QueueVertices(q)
      ensures x in QueueVertices(q')
    {
      var i :| 0 <= i < |q| && q[i].0 == x;
      assert q'[i] == q[i];
    }
    assert q'[|q|] == e;
  }

  /** The queue after popping the front and appending: every vertex queued before is the popped one or still queued, at the same distance. */
  lemma PopAndAppend(oldQueue: seq<Entry>, queue': seq<Entry>, d: int)
    requires |oldQueue| >= 1 && |queue'| >= |oldQueue| - 1 && queue'[..|oldQueue| - 1] == oldQueue[1..]
    ensures QueueVertices(oldQueue) <= {oldQueue[0].0} + QueueVertices(queue')
    ensures LevelVertices(oldQueue, d) <= {oldQueue[0].0} + LevelVertices(queue', d)
    ensures forall i :: 0 <= i < |oldQueue| - 1 ==> queue'[i] == oldQueue[i + 1]
  {
    forall i | 0 <= i < |oldQueue| - 1
      ensures queue'[i] == oldQueue[i + 1]
    {
      assert queue'[..|oldQueue| - 1][i] == queue'[i];
    }
    forall x | x in QueueVertices(oldQueue)
      ensures x in {oldQueue[0].0} + QueueVertices(queue')
    {
      var i :| 0 <= i < |oldQueue| && oldQueue[i].0 == x;
      if i > 0 {
        assert queue'[i - 1] == oldQueue[i];
      }
    }
    forall x | x in LevelVertices(oldQueue, d)
      ensures x in {oldQueue[0].0} + LevelVertices(queue', d)
    {
      var i :| 0 <= i < |oldQueue| && oldQueue[i].1 == d && oldQueue[i].0 == x;
      if i > 0 {
        assert queue'[i - 1] == oldQueue[i];
      }
    }
  }

  /** The queue entries stay within their distance and in order after a pop and the appends of one expansion. */
  lemma QueueOrderKept(G: AdjList, s: int, oldQueue: seq<Entry>, queue': seq<Entry>, level: nat)
    requires |oldQueue| >= 1 && oldQueue[0].1 == level && oldQueue[0].0 in Ball(G, s, level)
    requires forall i :: 0 <= i < |oldQueue| ==> level <= oldQueue[i].1 <= level + 1
    requires forall i :: 0 <= i < |oldQueue| ==> oldQueue[i].0 in Ball(G, s, oldQueue[i].1)
    requires forall i, j :: 0 <= i < j < |oldQueue| ==> oldQueue[i].1 <= oldQueue[j].1
    requires |queue'| >= |oldQueue| - 1
    requires forall i :: 0 <= i < |oldQueue| - 1 ==> queue'[i] == oldQueue[i + 1]
    requires forall i :: |oldQueue| - 1 <= i < |queue'| ==>
               queue'[i].1 == level + 1 && oldQueue[0].0 in G && queue'[i].0 in G[oldQueue[0].0]
    ensures forall i :: 0 <= i < |queue'| ==> level <= queue'[i].1 <= level + 1
    ensures forall i :: 0 <= i < |queue'| ==> queue'[i].0 in Ball(G, s, queue'[i].1)
    ensures forall i, j :: 0 <= i < j < |queue'| ==> queue'[i].1 <= queue'[j].1
  {
    var u, n := oldQueue[0].0, |oldQueue| - 1;
    forall i | 0 <= i < |queue'|
      ensures level <= queue'[i].1 <= level + 1 && queue'[i].0 in Ball(G, s, queue'[i].1)
    {
      if i < n {
        assert queue'[i] == oldQueue[i + 1];
      } else {
        InSucc(G, Ball(G, s, level), u, queue'[i].0);
      }
    }
    forall i, j | 0 <= i < j < |queue'|
      ensures queue'[i].1 <= queue'[j].1
    {
      if j < n {
        assert queue'[i] == oldQueue[i + 1] && queue'[j] == oldQueue[j + 1];
      } else if i < n {
        assert queue'[i] == oldQueue[i + 1];
      }
    }
  }

  /**
   * Popping the front entry `(u, d)` at the current level and expanding `u`
   * keeps the invariant; the search measure shrinks when something new was visited.
   */
  lemma ExpandStep(G: AdjList, s: int, m: int, visited: set<int>, oldQueue: seq<Entry>, expanded: set<int>, level: nat,
                   u: int, d: int, rest: seq<Entry>, visited': set<int>, queue': seq<Entry>)
    requires BfsInv(G, s, m, visited, oldQueue, expanded, level)
    requires |oldQueue| >= 1 && oldQueue[0].0 == u && oldQueue[0].1 == d && rest == oldQueue[1..]
    requires d == level && level < m && u in G
    requires visited' == visited + Elems(G[u])
    requires |queue'| >= |rest| && queue'[..|rest|] == rest
    requires forall i :: |rest| <= i < |queue'| ==> queue'[i].1 == d + 1 && queue'[i].0 in G[u]
    requires forall x :: x in visited' && x !in visited ==> x in QueueVertices(queue')
    ensures BfsInv(G, s, m, visited', queue', expanded + {u}, level)
    ensures visited != visited' ==> |Mentioned(G) - visited'| < |Mentioned(G) - visited|
  {
    assert oldQueue[0].0 in Ball(G, s, oldQueue[0].1);
    SuccAddOne(G, expanded, u);
    PopAndAppend(oldQueue, queue', level);
    QueueOrderKept(G, s, oldQueue, queue', level);
    SuccIsMentioned(G, expanded);
    SuccIsMentioned(G, expanded + {u});
    if visited != visited' {
      ShrinkByGrowth(Mentioned(G), visited, visited');
    }
  }

  /** Popping the front entry at the current level when its vertex has no list keeps the invariant. */
  lemma DeadEndStep(G: AdjList, s: int, m: int, visited: set<int>, oldQueue: seq<Entry>, expanded: set<int>, level: nat)
    requires BfsInv(G, s, m, visited, oldQueue, expanded, level)
    requires |oldQueue| >= 1 && oldQueue[0].1 == level && level < m && oldQueue[0].0 !in G
    ensures BfsInv(G, s, m, visited, oldQueue[1..], expanded + {oldQueue[0].0}, level)
  {
    var u, rest := oldQueue[0].0, oldQueue[1..];
    assert u in Ball(G, s, oldQueue[0].1);
    SuccAddOne(G, expanded, u);
    assert rest[..|rest|] == rest;
    PopAndAppend(oldQueue, rest, level);
    QueueOrderKept(G, s, oldQueue, rest, level);
  }

  /** A queue whose front is already one level on holds nothing at the current level. */
  lemma NoneAtLevel(queue: seq<Entry>, level: int)
    requires |queue| >= 1 && queue[0].1 == level + 1
    requires forall i :: 0 <= i < |queue| ==> level <= queue[i].1 <= level + 1
    requires forall i, j :: 0 <= i < j < |queue| ==> queue[i].1 <= queue[j].1
    ensures LevelVertices(queue, level) == {}
  {
    forall i | 0 <= i < |queue|
      ensures queue[i].1 == level + 1
    {
      if i > 0 {
        assert queue[0].1 <= queue[i].1;
      }
    }
  }

  /** Meeting an entry at distance `m` or more: everything within `m` steps has been expanded. */
  lemma StopEarly(G: AdjList, s: int, m: int, visited: set<int>, queue: seq<Entry>, expanded: set<int>, level: nat)
    requires BfsInv(G, s, m, visited, queue, expanded, level)
    requires |queue| >= 1 && queue[0].1 >= m
    ensures visited == Within(G, s, m)
  {
    if m <= 0 {
      assert expanded == {};
      assert Succ(G, expanded) == {};
    } else {
      BallMono(G, s, 0, level);
      if level >= 1 {
        BallMono(G, s, 0, level - 1);
        assert s in expanded;
      }
      assert queue[0].1 == level + 1;
      NoneAtLevel(queue, level);
      assert Ball(G, s, level) <= expanded;
      assert s in expanded;
      assert level == m - 1;
      assert expanded == Ball(G, s, m - 1);
    }
  }

  /** An empty queue: the expanded set is closed under edges, so it is the whole ball of radius `m - 1`. */
  lemma QueueExhausted(G: AdjList, s: int, m: int, visited: set<int>, expanded: set<int>, level: nat)
    requires BfsInv(G, s, m, visited, [], expanded, level)
    ensures visited == Within(G, s, m)
  {
    assert LevelVertices([], level) == {} && QueueVertices([]) == {};
    ClosedHoldsBalls(G, s, expanded, level, m - 1);
    BallMono(G, s, level, m - 1);
  }

  /** No vertex occurs in two entries of `q`. */
  predicate DistinctVertices(q: seq<Entry>) {
    forall i, j :: 0 <= i < j < |q| ==> q[i].0 != q[j].0
  }

  /** Appending an entry for a vertex not yet queued keeps the entries' vertices distinct. */
  lemma DistinctSnoc(q: seq<Entry>, e: Entry)
    requires DistinctVertices(q) && e.0 !in QueueVertices(q)
    ensures DistinctVertices(q + [e]) && QueueVertices(q + [e]) == QueueVertices(q) + {e.0}
  {
    QueueSnoc(q, e);
    var q' := q + [e];
    forall i, j | 0 <= i < j < |q'|
      ensures q'[i].0 != q'[j].0
    {
      assert q'[i] == q[i];
      if j < |q| {
        assert q'[j] == q[j];
      }
    }
  }

  /** Two lists of entries over disjoint vertices join into one whose vertices are distinct. */
  lemma DistinctConcat(a: seq<Entry>, b: seq<Entry>)
    requires DistinctVertices(a) && DistinctVertices(b) && QueueVertices(a) !! QueueVertices(b)
    ensures DistinctVertices(a + b) && QueueVertices(a + b) == QueueVertices(a) + QueueVertices(b)
  {
    var c := a + b;
    forall i, j | 0 <= i < j < |c|
      ensures c[i].0 != c[j].0
    {
      if j < |a| {
        assert c[i] == a[i] && c[j] == a[j];
      } else if i < |a| {
        assert c[i] == a[i] && c[j] == b[j - |a|];
        assert c[i].0 in QueueVertices(a) && c[j].0 in QueueVertices(b);
      } else {
        assert c[i] == b[i - |a|] && c[j] == b[j - |a|];
      }
    }
    forall x | x in QueueVertices(c)
      ensures x in QueueVertices(a) + QueueVertices(b)
    {
      var i :| 0 <= i < |c| && c[i].0 == x;
      if i >= |a| {
        assert c[i] == b[i - |a|];
      }
    }
    forall x | x in QueueVertices(a) + QueueVertices(b)
      ensures x in QueueVertices(c)
    {
      if x in QueueVertices(a) {
        var i :| 0 <= i < |a| && a[i].0 == x;
        assert c[i] == a[i];
      } else {
        var i :| 0 <= i < |b| && b[i].0 == x;
        assert c[|a| + i] == b[i];
      }
    }
  }

  /** The vertices of a tail of the queue are vertices of the queue; none at all only for no entries. */
  lemma QueueTail(q: seq<Entry>, k: nat)
    requires k <= |q|
    ensures QueueVertices(q[k..]) <= QueueVertices(q)
    ensures QueueVertices(q[k..]) == {} ==> |q| == k
  {
    forall x | x in QueueVertices(q[k..])
      ensures x in QueueVertices(q)
    {
      var i :| 0 <= i < |q| - k && q[k..][i].0 == x;
      assert q[k + i] == q[k..][i];
    }
    if |q| > k {
      assert q[k..][0].0 in QueueVertices(q[k..]);
    }
  }

  lemma ShrinkByGrowth(M: set<int>, a: set<int>, b: set<int>)
    requires a <= b <= M && a != b
    ensures |M - b| < |M - a|
  {
    CardMono(M - b, M - a);
    NonEmptyHasMember(b - a);
    var x :| x in b - a;
    assert x in (M - a) - (M - b);
  }

  /**
   * The inner loop: every neighbour of `u` not yet visited is marked
   * visited and queued at distance `d + 1`, in list order. The appended
   * entries are exactly the newly visited vertices, each queued once.
   */
  method ExpandVertex(G: AdjList, u: int, d: int, visited0: set<int>, queue0: seq<Entry>)
    returns (visited: set<int>, queue: seq<Entry>)
    requires u in G
    ensures visited == visited0 + Elems(G[u])
    ensures |queue| >= |queue0| && queue[..|queue0|] == queue0
    ensures forall i :: |queue0| <= i < |queue| ==> queue[i].1 == d + 1 && queue[i].0 in G[u]
    ensures DistinctVertices(queue[|queue0|..]) && QueueVertices(queue[|queue0|..]) == visited - visited0
  {
    visited, queue := visited0, queue0;
    var neighbours := G[u];
    for j := 0 to |neighbours|
      invariant visited == visited0 + Elems(neighbours[..j])
      invariant |queue| >= |queue0| && queue[..|queue0|] == queue0
      invariant forall i :: |queue0| <= i < |queue| ==> queue[i].1 == d + 1 && queue[i].0 in neighbours
      invariant DistinctVertices(queue[|queue0|..]) && QueueVertices(queue[|queue0|..]) == visited - visited0
    {
      var v := neighbours[j];
      assert neighbours[..j + 1] == neighbours[..j] + [v];
      ElemsSnoc(neighbours[..j], v);
      if v !in visited {
        DistinctSnoc(queue[|queue0|..], (v, d + 1));
        assert (queue + [(v, d + 1)])[|queue0|..] == queue[|queue0|..] + [(v, d + 1)];
        visited := visited + {v};
        queue := queue + [(v, d + 1)];
      }
    }
    assert neighbours[..|neighbours|] == neighbours;
  }

  /**
   * One round of the search below the distance bound: pops the front entry
   * and, when its vertex has a list, marks and queues its unvisited
   * neighbours one step further on. The entries appended behind the rest of
   * the queue are exactly the newly visited vertices, each queued once.
   */
  method ExpandFront(G: AdjList, ghost s: int, ghost m: int, visited0: set<int>, queue0: seq<Entry>,
                     ghost expanded: set<int>, ghost level: nat)
    returns (visited: set<int>, queue: seq<Entry>)
    requires BfsInv(G, s, m, visited0, queue0, expanded, level)
    requires |queue0| >= 1 && queue0[0].1 == level && level < m
    ensures BfsInv(G, s, m, visited, queue, expanded + {queue0[0].0}, level)
    ensures |queue| >= |queue0| - 1 && queue[..|queue0| - 1] == queue0[1..]
    ensures visited0 <= visited
    ensures DistinctVertices(queue[|queue0| - 1..]) && QueueVertices(queue[|queue0| - 1..]) == visited - visited0
    ensures |Mentioned(G) - visited| < |Mentioned(G) - visited0| ||
            (visited == visited0 && |queue| < |queue0|)
  {
    var u, distance := queue0[0].0, queue0[0].1;
    queue := queue0[1..];
    ghost var rest := queue;
    if u in G {
      visited, queue := ExpandVertex(G, u, distance, visited0, queue);
      QueueTail(queue, |rest|);
      ExpandStep(G, s, m, visited0, queue0, expanded, level, u, distance, rest, visited, queue);
    } else {
      visited := visited0;
      assert queue[..|rest|] == rest && queue[|rest|..] == [];
      DeadEndStep(G, s, m, visited, queue0, expanded, level);
    }
  }

  /** The queue is the tail of the log of all entries ever queued, that log starting with the start entry. */
  ghost predicate QueueIsTail(s: int, queued: seq<Entry>, queue: seq<Entry>) {
    |queue| <= |queued| + 1 && queue == ([(s, 0)] + queued)[|queued| + 1 - |queue|..]
  }

  /**
   * Popping the front and appending `added` to both the queue and the log
   * keeps the queue the log's tail; when `added` holds exactly the newly
   * visited vertices, each once, the log still queues each visited vertex once.
   */
  lemma LogStep(s: int, queued: seq<Entry>, queue0: seq<Entry>, queue: seq<Entry>, added: seq<Entry>,
                visited0: set<int>, visited: set<int>)
    requires QueueIsTail(s, queued, queue0) && |queue0| >= 1
    requires DistinctVertices(queued) && QueueVertices(queued) == visited0
    requires |queue| >= |queue0| - 1 && queue[..|queue0| - 1] == queue0[1..] && added == queue[|queue0| - 1..]
    requires DistinctVertices(added) && QueueVertices(added) == visited - visited0 && visited0 <= visited
    ensures QueueIsTail(s, queued + added, queue)
    ensures DistinctVertices(queued + added) && QueueVertices(queued + added) == visited
  {
    assert queue == queue0[1..] + added;
    var all, all' := [(s, 0)] + queued, [(s, 0)] + (queued + added);
    var k := |queued| + 1 - |queue0|;
    assert all' == all + added;
    assert all[k..][1..] == all[k + 1..];
    assert all'[k + 1..] == all[k + 1..] + added;
    DistinctConcat(queued, added);
  }

  /**
   * The vertices reachable from `s` by a walk of one to `maxDistance`
   * edges, found breadth first with a FIFO queue of (vertex, distance)
   * pairs; the search stops at the first entry `maxDistance` away. `s`
   * itself is returned only when it lies on such a closed walk. `queued`
   * logs every entry appended to the queue after the start entry: each
   * visited vertex is queued exactly once.
   */
  method Neighbors(G: AdjList, s: int, maxDistance: int) returns (visited: set<int>, ghost queued: seq<Entry>)
    ensures visited == Within(G, s, maxDistance)
    ensures forall x :: x in visited <==> ReachableWithin(G, s, x, maxDistance)
    ensures maxDistance <= 0 ==> visited == {}
    ensures visited <= Mentioned(G)
    ensures DistinctVertices(queued) && QueueVertices(queued) == visited
  {
    visited := {};
    var queue: seq<Entry> := [(s, 0)];
    queued := [];
    ghost var expanded: set<int> := {};
    ghost var level: nat := 0;
    StartBfs(G, s, maxDistance);
    while queue != []
      invariant BfsInv(G, s, maxDistance, visited, queue, expanded, level)
      invariant QueueIsTail(s, queued, queue)
      invariant DistinctVertices(queued) && QueueVertices(queued) == visited
      decreases |Mentioned(G) - visited|, |queue|
    {
      var u, distance := queue[0].0, queue[0].1;
      if distance >= maxDistance {
        StopEarly(G, s, maxDistance, visited, queue, expanded, level);
        WithinFacts(G, s, maxDistance);
        return;
      }
      if distance != level {
        NextLevel(G, s, maxDistance, visited, queue, expanded, level);
        level := level + 1;
      }
      ghost var oldQueue, oldVisited := queue, visited;
      visited, queue := ExpandFront(G, s, maxDistance, visited, queue, expanded, level);
      ghost var added := queue[|oldQueue| - 1..];
      LogStep(s, queued, oldQueue, queue, added, oldVisited, visited);
      queued := queued + added;
      expanded := expanded + {oldQueue[0].0};
    }
    QueueExhausted(G, s, maxDistance, visited, expanded, level);
    WithinFacts(G, s, maxDistance);
  }

  lemma WithinFacts(G: AdjList, s: int, m: int)
    ensures forall x :: x in Within(G, s, m) <==> ReachableWithin(G, s, x, m)
    ensures m <= 0 ==> Within(G, s, m) == {}
    ensures Within(G, s, m) <= Mentioned(G)
  {
    forall x
      ensures x in Within(G, s, m) <==> ReachableWithin(G, s, x, m)
    {
      WithinIsWalks(G, s, m, x);
    }
    if m > 0 {
      SuccIsMentioned(G, Ball(G, s, m - 1));
    }
  }
}
