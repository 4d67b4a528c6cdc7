/**
 * The search driver of the branch-and-bound TSP solver: tour cost, the
 * "edge excluded" sibling node, the filter that keeps the optimal tours,
 * and the explicit-stack search loop.
 */
module TspSolver {
  import opened TspCosts
  import opened TspCostMatrix
  import opened TspStageState

  /** A search node as a value: what the LIFO of the search holds. */
  datatype Stage = Stage(matrix: Matrix, path: seq<Vertex>, lowerBound: Cost)

  /** A recorded tour; the field the solver calls lower_bound holds the cost of the tour. */
  datatype Solution = Solution(lowerBound: Cost, path: seq<nat>)

  /** The result of a search: the optimal tours, or no verdict within the step budget. */
  datatype Outcome = Solved(solutions: seq<Solution>) | Unfinished

  predicate PathInRange(p: seq<nat>, n: nat) {
    forall k :: 0 <= k < |p| ==> p[k] < n
  }

  /** Every fixed edge is a cell of an n-by-n matrix. */
  predicate EdgesInRange(edges: seq<Vertex>, n: nat) {
    forall k :: 0 <= k < |edges| ==> InRange(edges[k], n)
  }

  /** The cost of the edges p[0] -> p[1] -> ... -> p[|p|-1], accumulated from the left. */
  function PathCost(m: Matrix, p: seq<nat>): Cost
    requires IsSquare(m) && PathInRange(p, |m|)
  {
    if |p| < 2 then Fin(0)
    else Plus(PathCost(m, p[..|p| - 1]), m[p[|p| - 2]][p[|p| - 1]])
  }

  /** The cost of the closed tour: the path's edges plus the edge back to the start. */
  function TourCost(m: Matrix, p: seq<nat>): Cost
    requires IsSquare(m) && |p| >= 1 && PathInRange(p, |m|)
  {
    Plus(PathCost(m, p), m[p[|p| - 1]][p[0]])
  }

  /** The cost of a path equals its first edge plus the cost of the rest. */
  lemma {:induction false} PathCostPrepend(m: Matrix, a: nat, q: seq<nat>)
    requires IsSquare(m) && a < |m| && |q| >= 1 && PathInRange(q, |m|)
    ensures PathInRange([a] + q, |m|)
    ensures PathCost(m, [a] + q) == Plus(m[a][q[0]], PathCost(m, q))
  {
    var p := [a] + q;
    if |q| == 1 {
      assert p[..1] == [a];
    } else {
      var q' := q[..|q| - 1];
      PathCostPrepend(m, a, q');
      assert p[..|p| - 1] == [a] + q';
    }
  }

  /** A tour costs the same from whichever of its vertices it starts. */
  lemma TourCostRotate(m: Matrix, p: seq<nat>)
    requires IsSquare(m) && |p| >= 1 && PathInRange(p, |m|)
    ensures PathInRange(p[1..] + [p[0]], |m|)
    ensures TourCost(m, p[1..] + [p[0]]) == TourCost(m, p)
  {
    var q := p[1..];
    var r := q + [p[0]];
    if |p| == 1 {
      assert r == p;
    } else {
      assert r[..|r| - 1] == q;
      assert p == [p[0]] + q;
      PathCostPrepend(m, p[0], q);
    }
  }

  /** Computes the cost of a tour, summing its consecutive edges and the closing edge. */
  method GetOptimalCost(optimalPath: seq<nat>, m: Matrix) returns (cost: Cost)
    requires IsSquare(m) && |optimalPath| >= 1 && PathInRange(optimalPath, |m|)
    ensures cost == TourCost(m, optimalPath)
  {
    cost := Fin(0);
    var idx := 1;
    while idx < |optimalPath|
      invariant 1 <= idx <= |optimalPath|
      invariant cost == PathCost(m, optimalPath[..idx])
    {
      assert optimalPath[..idx + 1][..idx] == optimalPath[..idx];
      cost := Plus(cost, m[optimalPath[idx - 1]][optimalPath[idx]]);
      idx := idx + 1;
    }
    assert optimalPath[..idx] == optimalPath;
    cost := Plus(cost, m[optimalPath[|optimalPath| - 1]][optimalPath[0]]);
  }

  /**
   * The sibling node "without edge v": a copy of the original matrix with
   * cell v forbidden, no fixed edges, and the given bound.
   */
  function CreateRightBranchMatrix(m: Matrix, v: Vertex, lb: Cost): (s: Stage)
    requires IsSquare(m) && InRange(v, |m|)
    ensures IsSquare(s.matrix) && |s.matrix| == |m|
    ensures s.matrix[v.row][v.col] == Inf
    ensures forall i, j :: 0 <= i < |m| && 0 <= j < |m| && Vertex(i, j) != v ==> s.matrix[i][j] == m[i][j]
    ensures s.path == [] && s.lowerBound == lb
  {
    Stage(m[v.row := m[v.row][v.col := Inf]], [], lb)
  }

  /** The smallest recorded cost, as a running minimum from the left. */
  function MinLowerBound(s: seq<Solution>): (b: Cost)
    requires |s| >= 1
    ensures exists k :: 0 <= k < |s| && s[k].lowerBound == b
    ensures forall k :: 0 <= k < |s| ==> Le(b, s[k].lowerBound)
  {
    if |s| == 1 then s[0].lowerBound
    else
      var b := MinLowerBound(s[..|s| - 1]);
      if Lt(s[|s| - 1].lowerBound, b) then s[|s| - 1].lowerBound else b
  }

  /** The solutions recorded with cost `b`, in their original order. */
  function KeepBound(s: seq<Solution>, b: Cost): (r: seq<Solution>)
    ensures |r| <= |s|
    ensures forall x :: x in r <==> x in s && x.lowerBound == b
  {
    if s == [] then []
    else KeepBound(s[..|s| - 1], b) + if s[|s| - 1].lowerBound == b then [s[|s| - 1]] else []
  }

  /** Keeping by cost commutes with concatenation, so the original order survives. */
  lemma {:induction false} KeepBoundConcat(s: seq<Solution>, t: seq<Solution>, b: Cost)
    ensures KeepBound(s + t, b) == KeepBound(s, b) + KeepBound(t, b)
    decreases |t|
  {
    if t != [] {
      var t' := t[..|t| - 1];
      assert (s + t)[..|s + t| - 1] == s + t';
      KeepBoundConcat(s, t', b);
    } else {
      assert s + t == s;
    }
  }

  /**
   * Keeps exactly the solutions whose cost is the minimum cost, in their
   * original order; nothing for no solutions, something for some.
   */
  function FilterSolutions(solutions: seq<Solution>): (r: seq<Solution>)
    ensures |solutions| > 0 ==> |r| > 0
    ensures forall x :: x in r <==>
              x in solutions && forall y :: y in solutions ==> Le(x.lowerBound, y.lowerBound)
    ensures forall x, y :: x in r && y in r ==> x.lowerBound == y.lowerBound
  {
    var optimalCost := if |solutions| > 0 then MinLowerBound(solutions) else Inf;
    KeepBound(solutions, optimalCost)
  }

  /** The fixed-edge list is in range, so a stitching of it is too. */
  lemma StitchingInRange(edges: seq<Vertex>, p: seq<nat>, n: nat)
    requires IsStitching(edges, p)
    requires forall k :: 0 <= k < |edges| ==> InRange(edges[k], n)
    ensures PathInRange(p, n)
  {
    forall k | 0 < k < |p|
      ensures p[k] < n
    {
      assert Vertex(p[k - 1], p[k]) in edges[1..];
    }
  }

  /** A node the search restarts from: the original matrix with at most one cell changed, no edges. */
  ghost predicate IsRestart(cm: Matrix, s: Stage)
    requires IsSquare(cm)
  {
    s.path == [] && IsSquare(s.matrix) && |s.matrix| == |cm| &&
    exists v :: InRange(v, |cm|) &&
      forall i, j :: 0 <= i < |cm| && 0 <= j < |cm| && Vertex(i, j) != v ==> s.matrix[i][j] == cm[i][j]
  }

  /** Every sibling node the search pushes is a restart node. */
  lemma RightBranchIsRestart(cm: Matrix, v: Vertex, lb: Cost)
    requires IsSquare(cm) && InRange(v, |cm|)
    ensures IsRestart(cm, CreateRightBranchMatrix(cm, v, lb))
  {
  }

  /** Every node on the stack is an n-by-n matrix with no fixed edges, as restart nodes are. */
  /** Every node of the stack is a restart node. */
  ghost predicate Restarts(cm: Matrix, lifo: seq<Stage>)
    requires IsSquare(cm)
  {
    forall k {:trigger IsRestart(cm, lifo[k])} :: 0 <= k < |lifo| ==> IsRestart(cm, lifo[k])
  }

  /** A stack of restart nodes has the shape every node of the search has. */
  lemma RestartsFit(cm: Matrix, lifo: seq<Stage>)
    requires IsSquare(cm) && Restarts(cm, lifo)
    ensures StackFits(lifo, |cm|)
  {
    forall k | 0 <= k < |lifo|
      ensures IsSquare(lifo[k].matrix) && |lifo[k].matrix| == |cm| && lifo[k].path == []
    {
      assert IsRestart(cm, lifo[k]);
    }
  }

  predicate StackFits(lifo: seq<Stage>, n: nat) {
    forall k :: 0 <= k < |lifo| ==> IsSquare(lifo[k].matrix) && |lifo[k].matrix| == n && lifo[k].path == []
  }

  /** The chosen edge of a non-empty matrix is one of its cells. */
  lemma ChosenInRange(m: Matrix)
    requires IsSquare(m) && |m| >= 1
    ensures InRange(ChosenVertex(m).coordinates, |m|)
  {
    ChosenVertexProperties(m);
  }

  lemma ConstrainedShape(m: Matrix, v: Vertex)
    requires IsSquare(m)
    ensures IsSquare(Constrained(m, v)) && |Constrained(m, v)| == |m|
  {
  }

  lemma ReducedShape(m: Matrix)
    requires IsSquare(m)
    ensures IsSquare(ReducedRows(m)) && |ReducedRows(m)| == |m|
    ensures IsSquare(ReducedCols(ReducedRows(m))) && |ReducedCols(ReducedRows(m))| == |m|
  {
    ReducedRowsProperties(m);
    ReducedColsProperties(ReducedRows(m));
  }

  /** The state of a node object, as a node value. */
  ghost function Snapshot(node: StageState): Stage
    reads node, node.matrix
  {
    Stage(node.matrix.cells, node.unsortedPath, node.lowerBound)
  }

  /**
   * The bounding half of a round of the inner loop, on node values: the
   * matrix reduced in rows then columns, and the bound (reset to 0 at level
   * 0) increased by the sum of all the minima subtracted.
   */
  function BoundStage(s: Stage): (t: Stage)
    requires IsSquare(s.matrix)
    ensures IsSquare(t.matrix) && |t.matrix| == |s.matrix| && t.path == s.path
  {
    ReducedShape(s.matrix);
    var start := if |s.path| == 0 then Fin(0) else s.lowerBound;
    Stage(ReducedCols(ReducedRows(s.matrix)), s.path,
          Plus(start, Fin(Sum(RowMins(s.matrix)) + Sum(ColMins(ReducedRows(s.matrix))))))
  }

  /**
   * The branching half, on node values: the node with the chosen edge
   * fixed and its row, column and reverse cell forbidden, and the sibling
   * pushed for the search without that edge, whose bound adds the cost of
   * leaving the edge out.
   */
  function BranchStage(cm: Matrix, s: Stage): (r: (Stage, Stage))
    requires IsSquare(cm) && |cm| >= 1 && IsSquare(s.matrix) && |s.matrix| == |cm|
    ensures IsSquare(r.0.matrix) && |r.0.matrix| == |cm|
  {
    ChosenInRange(s.matrix);
    var nv := ChosenVertex(s.matrix);
    ConstrainedShape(s.matrix, nv.coordinates);
    (Stage(Constrained(s.matrix, nv.coordinates), s.path + [nv.coordinates], s.lowerBound),
     CreateRightBranchMatrix(cm, nv.coordinates, Plus(s.lowerBound, nv.cost)))
  }

  /**
   * One round of the inner loop, on node values: bound the node; report
   * when its bound now exceeds `bestLb`, otherwise branch and push the sibling.
   */
  function ExpandStage(cm: Matrix, s: Stage, bestLb: Cost, lifo: seq<Stage>): (r: (Stage, seq<Stage>, bool))
    requires IsSquare(cm) && |cm| >= 1 && IsSquare(s.matrix) && |s.matrix| == |cm|
    ensures IsSquare(r.0.matrix) && |r.0.matrix| == |cm|
    ensures |r.0.path| == if r.2 then |s.path| else |s.path| + 1
  {
    var b := BoundStage(s);
    if Lt(bestLb, b.lowerBound) then (b, lifo, true)
    else
      var t := BranchStage(cm, b);
      (t.0, lifo + [t.1], false)
  }

  /**
   * The inner loop, on node values: expand the node until it reaches the
   * last level or its bound exceeds `bestLb`.
   */
  function DescendStage(cm: Matrix, s: Stage, nLevels: nat, bestLb: Cost, lifo: seq<Stage>): (r: (Stage, seq<Stage>))
    requires IsSquare(cm) && |cm| >= 1 && IsSquare(s.matrix) && |s.matrix| == |cm| && |s.path| <= nLevels
    ensures IsSquare(r.0.matrix) && |r.0.matrix| == |cm|
    decreases nLevels - |s.path|
  {
    if |s.path| == nLevels || !Le(s.lowerBound, bestLb) then (s, lifo)
    else
      var e := ExpandStage(cm, s, bestLb, lifo);
      if e.2 then (e.0, e.1) else DescendStage(cm, e.0, nLevels, bestLb, e.1)
  }

  /**
   * Branching keeps the bound and the edges in range, appends one edge,
   * and pushes a restart node.
   */
  lemma BranchStageFacts(cm: Matrix, s: Stage)
    requires IsSquare(cm) && |cm| >= 1 && IsSquare(s.matrix) && |s.matrix| == |cm|
    ensures BranchStage(cm, s).0.lowerBound == s.lowerBound && |BranchStage(cm, s).0.path| == |s.path| + 1
    ensures EdgesInRange(s.path, |cm|) ==> EdgesInRange(BranchStage(cm, s).0.path, |cm|)
    ensures IsRestart(cm, BranchStage(cm, s).1) && StackFits([BranchStage(cm, s).1], |cm|)
  {
    ChosenVertexProperties(s.matrix);
    var nv := ChosenVertex(s.matrix);
    RightBranchIsRestart(cm, nv.coordinates, Plus(s.lowerBound, nv.cost));
  }

  /**
   * One round reports `exceeded` exactly when the bound now exceeds the
   * best, keeps the edges in range, and pushes only restart-shaped nodes.
   */
  lemma ExpandStageFacts(cm: Matrix, s: Stage, bestLb: Cost, lifo: seq<Stage>)
    requires IsSquare(cm) && |cm| >= 1 && IsSquare(s.matrix) && |s.matrix| == |cm|
    ensures ExpandStage(cm, s, bestLb, lifo).2 <==> Lt(bestLb, ExpandStage(cm, s, bestLb, lifo).0.lowerBound)
    ensures StackFits(lifo, |cm|) ==> StackFits(ExpandStage(cm, s, bestLb, lifo).1, |cm|)
    ensures EdgesInRange(s.path, |cm|) ==> EdgesInRange(ExpandStage(cm, s, bestLb, lifo).0.path, |cm|)
  {
    var b := BoundStage(s);
    if !Lt(bestLb, b.lowerBound) {
      BranchStageFacts(cm, b);
    }
  }

  /** The inner loop ends with a bound above the best, or at the last level. */
  lemma {:induction false} DescendStageExit(cm: Matrix, s: Stage, nLevels: nat, bestLb: Cost, lifo: seq<Stage>)
    requires IsSquare(cm) && |cm| >= 1 && IsSquare(s.matrix) && |s.matrix| == |cm| && |s.path| <= nLevels
    ensures Le(DescendStage(cm, s, nLevels, bestLb, lifo).0.lowerBound, bestLb) ==>
              |DescendStage(cm, s, nLevels, bestLb, lifo).0.path| == nLevels
    decreases nLevels - |s.path|
  {
    if |s.path| != nLevels && Le(s.lowerBound, bestLb) {
      var e := ExpandStage(cm, s, bestLb, lifo);
      ExpandStageFacts(cm, s, bestLb, lifo);
      if !e.2 {
        DescendStageExit(cm, e.0, nLevels, bestLb, e.1);
      }
    }
  }

  /** The inner loop keeps the edges in range and pushes only restart-shaped nodes. */
  lemma {:induction false} DescendStageFits(cm: Matrix, s: Stage, nLevels: nat, bestLb: Cost, lifo: seq<Stage>)
    requires IsSquare(cm) && |cm| >= 1 && IsSquare(s.matrix) && |s.matrix| == |cm| && |s.path| <= nLevels
    requires StackFits(lifo, |cm|) && EdgesInRange(s.path, |cm|)
    ensures StackFits(DescendStage(cm, s, nLevels, bestLb, lifo).1, |cm|)
    ensures EdgesInRange(DescendStage(cm, s, nLevels, bestLb, lifo).0.path, |cm|)
    decreases nLevels - |s.path|
  {
    if |s.path| != nLevels && Le(s.lowerBound, bestLb) {
      var e := ExpandStage(cm, s, bestLb, lifo);
      ExpandStageFacts(cm, s, bestLb, lifo);
      if !e.2 {
        DescendStageFits(cm, e.0, nLevels, bestLb, e.1);
      }
    }
  }


  lemma {:induction false} SumNonNegative(s: seq<int>)
    requires forall k :: 0 <= k < |s| ==> s[k] >= 0
    ensures Sum(s) >= 0
    decreases |s|
  {
    if s != [] {
      SumNonNegative(s[..|s| - 1]);
    }
  }

  /** On a matrix without negative costs, the minima a reduction subtracts add up to a non-negative amount. */
  lemma ReductionNonNegative(m: Matrix)
    requires IsSquare(m) && NonNegative(m)
    ensures Sum(RowMins(m)) >= 0 && Sum(ColMins(ReducedRows(m))) >= 0
  {
    forall i | 0 <= i < |m|
      ensures RowMins(m)[i] >= 0
    {
      RowMinsAreMinima(m, i);
    }
    SumNonNegative(RowMins(m));
    var r := ReducedRows(m);
    ReducedRowsProperties(m);
    forall j | 0 <= j < |r|
      ensures ColMins(r)[j] >= 0
    {
      ColMinsAreMinima(r, j);
    }
    SumNonNegative(ColMins(r));
  }

  /** Bounding a node without negative costs keeps its costs non-negative and its bound from decreasing. */
  lemma BoundStageGrows(s: Stage)
    requires IsSquare(s.matrix) && NonNegative(s.matrix)
    ensures NonNegative(BoundStage(s).matrix)
    ensures Le(if |s.path| == 0 then Fin(0) else s.lowerBound, BoundStage(s).lowerBound)
  {
    ReductionNonNegative(s.matrix);
    ReducedMatrixProperties(s.matrix);
  }

  /** Branching keeps costs non-negative and the bound, and appends one fixed edge. */
  lemma BranchStageKeeps(cm: Matrix, s: Stage)
    requires IsSquare(cm) && |cm| >= 1 && IsSquare(s.matrix) && |s.matrix| == |cm| && NonNegative(s.matrix)
    ensures NonNegative(BranchStage(cm, s).0.matrix)
    ensures BranchStage(cm, s).0.lowerBound == s.lowerBound
    ensures |BranchStage(cm, s).0.path| == |s.path| + 1 && BranchStage(cm, s).0.path[..|s.path|] == s.path
  {
    ChosenVertexProperties(s.matrix);
    var v := ChosenVertex(s.matrix).coordinates;
    ConstrainedProperties(s.matrix, v);
    assert (s.path + [v])[..|s.path|] == s.path;
  }

  /**
   * On a matrix without negative costs, one round keeps the costs
   * non-negative and never lowers the bound: below level 0 it only grows,
   * and at level 0 it restarts from 0, so it is at least 0.
   */
  lemma ExpandBoundGrows(cm: Matrix, s: Stage, bestLb: Cost, lifo: seq<Stage>)
    requires IsSquare(cm) && |cm| >= 1 && IsSquare(s.matrix) && |s.matrix| == |cm| && NonNegative(s.matrix)
    ensures NonNegative(ExpandStage(cm, s, bestLb, lifo).0.matrix)
    ensures |s.path| > 0 ==> Le(s.lowerBound, ExpandStage(cm, s, bestLb, lifo).0.lowerBound)
    ensures (|s.path| == 0 || Le(Fin(0), s.lowerBound)) ==> Le(Fin(0), ExpandStage(cm, s, bestLb, lifo).0.lowerBound)
    ensures ExpandStage(cm, s, bestLb, lifo).0.path[..|s.path|] == s.path
  {
    BoundStageGrows(s);
    var b := BoundStage(s);
    if |s.path| > 0 && Le(Fin(0), s.lowerBound) {
      LeTransitive(Fin(0), s.lowerBound, b.lowerBound);
    }
    if !Lt(bestLb, b.lowerBound) {
      BranchStageKeeps(cm, b);
    } else {
      assert b.path[..|s.path|] == s.path;
    }
  }

  /**
   * Down a branch of the search tree, on a matrix without negative costs:
   * the fixed edges only grow, the bound never decreases below level 0 and
   * never goes below 0, and every pushed sibling is a restart node.
   */
  lemma {:induction false} DescendBoundGrows(cm: Matrix, s: Stage, nLevels: nat, bestLb: Cost, lifo: seq<Stage>)
    requires IsSquare(cm) && |cm| >= 1 && IsSquare(s.matrix) && |s.matrix| == |cm| && |s.path| <= nLevels
    requires NonNegative(s.matrix)
    ensures NonNegative(DescendStage(cm, s, nLevels, bestLb, lifo).0.matrix)
    ensures |s.path| > 0 ==> Le(s.lowerBound, DescendStage(cm, s, nLevels, bestLb, lifo).0.lowerBound)
    ensures Le(Fin(0), s.lowerBound) ==> Le(Fin(0), DescendStage(cm, s, nLevels, bestLb, lifo).0.lowerBound)
    ensures |s.path| <= |DescendStage(cm, s, nLevels, bestLb, lifo).0.path|
    ensures DescendStage(cm, s, nLevels, bestLb, lifo).0.path[..|s.path|] == s.path
    decreases nLevels - |s.path|
  {
    if |s.path| != nLevels && Le(s.lowerBound, bestLb) {
      var e := ExpandStage(cm, s, bestLb, lifo);
      ExpandBoundGrows(cm, s, bestLb, lifo);
      if !e.2 {
        DescendBoundGrows(cm, e.0, nLevels, bestLb, e.1);
        var r := DescendStage(cm, e.0, nLevels, bestLb, e.1).0;
        assert r.path[..|s.path|] == r.path[..|e.0.path|][..|s.path|];
        if |s.path| > 0 {
          LeTransitive(s.lowerBound, e.0.lowerBound, r.lowerBound);
        }
        LeTransitive(Fin(0), e.0.lowerBound, r.lowerBound);
      }
    }
  }

  /**
   * The bounding half of a round of the inner loop: reduce the node's
   * matrix (resetting its bound at level 0) and add the reduction to the
   * bound; the fixed edges stay as they are.
   */
  method BoundNode(leftBranch: StageState)
    requires leftBranch.Valid()
    modifies leftBranch, leftBranch.matrix
    ensures leftBranch.matrix == old(leftBranch.matrix)
    ensures leftBranch.Valid() && Snapshot(leftBranch) == BoundStage(old(Snapshot(leftBranch)))
  {
    if leftBranch.Level() == 0 {
      leftBranch.ResetLowerBound();
    }
    var newCost := leftBranch.ReduceCostMatrix();
    leftBranch.UpdateLowerBound(newCost);
  }

  /**
   * The branching half: fix the chosen edge in the node, one level down,
   * and push the sibling node without it.
   */
  method BranchNode(cm: Matrix, leftBranch: StageState, lifo: seq<Stage>) returns (treeLifo: seq<Stage>)
    requires IsSquare(cm) && |cm| >= 2 && leftBranch.Valid() && |leftBranch.matrix.cells| == |cm|
    requires Restarts(cm, lifo)
    modifies leftBranch, leftBranch.matrix
    ensures leftBranch.matrix == old(leftBranch.matrix) && leftBranch.Valid()
    ensures Snapshot(leftBranch) == BranchStage(cm, old(Snapshot(leftBranch))).0
    ensures treeLifo == lifo + [BranchStage(cm, old(Snapshot(leftBranch))).1]
    ensures Restarts(cm, treeLifo)
  {
    var newVertex := leftBranch.ChooseNewVertex();
    leftBranch.AppendToPath(newVertex.coordinates);
    leftBranch.UpdateCostMatrix(newVertex.coordinates);
    var newLowerBound := Plus(leftBranch.lowerBound, newVertex.cost);
    RightBranchIsRestart(cm, newVertex.coordinates, newLowerBound);
    treeLifo := lifo + [CreateRightBranchMatrix(cm, newVertex.coordinates, newLowerBound)];
  }

  /**
   * One round of the inner loop: bound the node; if its bound now exceeds
   * `bestLb`, report that, otherwise branch on it.
   */
  method ExpandNode(cm: Matrix, leftBranch: StageState, bestLb: Cost, lifo: seq<Stage>)
    returns (treeLifo: seq<Stage>, exceeded: bool)
    requires IsSquare(cm) && |cm| >= 2 && leftBranch.Valid() && |leftBranch.matrix.cells| == |cm|
    requires Restarts(cm, lifo)
    modifies leftBranch, leftBranch.matrix
    ensures leftBranch.matrix == old(leftBranch.matrix) && leftBranch.Valid()
    ensures (Snapshot(leftBranch), treeLifo, exceeded) == ExpandStage(cm, old(Snapshot(leftBranch)), bestLb, lifo)
    ensures exceeded <==> Lt(bestLb, leftBranch.lowerBound)
    ensures Restarts(cm, treeLifo)
  {
    BoundNode(leftBranch);
    if Lt(bestLb, leftBranch.lowerBound) {
      return lifo, true;
    }
    treeLifo := BranchNode(cm, leftBranch, lifo);
    exceeded := false;
  }

  /**
   * The inner loop of the search: while the node is above the last level
   * and its bound does not exceed `bestLb`, expand it one level. On exit a
   * node whose bound does not exceed `bestLb` is at the last level.
   */
  method Descend(cm: Matrix, leftBranch: StageState, nLevels: nat, bestLb: Cost, lifo: seq<Stage>)
    returns (treeLifo: seq<Stage>)
    requires IsSquare(cm) && |cm| >= 2 && leftBranch.Valid() && |leftBranch.matrix.cells| == |cm|
    requires leftBranch.Level() <= nLevels
    requires Restarts(cm, lifo)
    modifies leftBranch, leftBranch.matrix
    ensures leftBranch.matrix == old(leftBranch.matrix)
    ensures leftBranch.Valid() && |leftBranch.matrix.cells| == |cm|
    ensures (Snapshot(leftBranch), treeLifo) == DescendStage(cm, old(Snapshot(leftBranch)), nLevels, bestLb, lifo)
    ensures Le(leftBranch.lowerBound, bestLb) ==> leftBranch.Level() == nLevels
    ensures |treeLifo| >= |lifo| && treeLifo[..|lifo|] == lifo
    ensures Restarts(cm, treeLifo)
  {
    ghost var s0 := Snapshot(leftBranch);
    treeLifo := lifo;
    while leftBranch.Level() != nLevels && Le(leftBranch.lowerBound, bestLb)
      invariant leftBranch.matrix == old(leftBranch.matrix)
      invariant leftBranch.Valid() && |leftBranch.matrix.cells| == |cm|
      invariant leftBranch.Level() <= nLevels
      invariant DescendStage(cm, Snapshot(leftBranch), nLevels, bestLb, treeLifo) == DescendStage(cm, s0, nLevels, bestLb, lifo)
      invariant |treeLifo| >= |lifo| && treeLifo[..|lifo|] == lifo
      invariant Restarts(cm, treeLifo)
      decreases nLevels - leftBranch.Level()
    {
      ghost var before := treeLifo;
      var exceeded;
      treeLifo, exceeded := ExpandNode(cm, leftBranch, bestLb, treeLifo);
      assert treeLifo[..|lifo|] == before[..|lifo|];
      if exceeded {
        break;
      }
    }
  }

  /**
   * Pops the top node of the stack into a fresh node object and runs the
   * inner loop on it. A node whose bound does not exceed `bestLb`
   * afterwards is at the last level; the stack still holds only restart nodes.
   */
  method PopAndDescend(cm: Matrix, nLevels: nat, bestLb: Cost, lifo: seq<Stage>)
    returns (leftBranch: StageState, treeLifo: seq<Stage>)
    requires IsSquare(cm) && |cm| >= 2 && lifo != []
    requires Restarts(cm, lifo)
    ensures fresh(leftBranch) && fresh(leftBranch.matrix)
    ensures leftBranch.Valid() && |leftBranch.matrix.cells| == |cm|
    ensures IsRestart(cm, lifo[|lifo| - 1]) &&
            (Snapshot(leftBranch), treeLifo) == DescendStage(cm, lifo[|lifo| - 1], nLevels, bestLb, lifo[..|lifo| - 1])
    ensures Le(leftBranch.lowerBound, bestLb) ==> leftBranch.Level() == nLevels
    ensures Restarts(cm, treeLifo)
  {
    var top := lifo[|lifo| - 1];
    assert IsRestart(cm, top);
    leftBranch := new StageState(top.matrix, top.path, top.lowerBound);
    treeLifo := Descend(cm, leftBranch, nLevels, bestLb, lifo[..|lifo| - 1]);
  }

  /**
   * What a node at the last level yields, on node values: the node with
   * the chosen edge fixed and every finite cell left appended as an edge,
   * and the stitched tour with its cost on the original matrix; None when
   * the edges do not stitch. A single cycle of edges always gives its tour.
   */
  function TourStage(cm: Matrix, s: Stage): (r: (Stage, Option<Solution>))
    requires IsSquare(cm) && |cm| >= 1 && IsSquare(s.matrix) && |s.matrix| == |cm| && EdgesInRange(s.path, |cm|)
    ensures r.1.Some? ==> |r.1.value.path| >= 1 && PathInRange(r.1.value.path, |cm|)
  {
    TourEdgesFit(cm, s);
    var v := ChosenVertex(s.matrix).coordinates;
    var m := Constrained(s.matrix, v);
    var edges := s.path + [v] + FiniteCells(m);
    var p := Stitch(edges);
    if p.None? then (Stage(m, edges, s.lowerBound), None)
    else (Stage(m, edges, s.lowerBound), Some(Solution(TourCost(cm, p.value), p.value)))
  }

  /** The shapes `TourStage` needs: a square constrained matrix, and a stitched path over cities in range. */
  lemma TourEdgesFit(cm: Matrix, s: Stage)
    requires IsSquare(cm) && |cm| >= 1 && IsSquare(s.matrix) && |s.matrix| == |cm| && EdgesInRange(s.path, |cm|)
    ensures var v := ChosenVertex(s.matrix).coordinates;
      IsSquare(Constrained(s.matrix, v)) &&
      var edges := s.path + [v] + FiniteCells(Constrained(s.matrix, v));
      Stitch(edges).Some? ==> |Stitch(edges).value| >= 1 && PathInRange(Stitch(edges).value, |cm|)
  {
    var v := ChosenVertex(s.matrix).coordinates;
    ConstrainedShape(s.matrix, v);
    TourEdgesInRange(cm, s);
    var edges := s.path + [v] + FiniteCells(Constrained(s.matrix, v));
    StitchProperties(edges);
    if Stitch(edges).Some? {
      StitchingInRange(edges, Stitch(edges).value, |cm|);
    }
  }

  /** The edges of a node at the last level, with its remaining finite cells appended, are all in range. */
  lemma TourEdgesInRange(cm: Matrix, s: Stage)
    requires IsSquare(cm) && |cm| >= 1 && IsSquare(s.matrix) && |s.matrix| == |cm| && EdgesInRange(s.path, |cm|)
    ensures var v := ChosenVertex(s.matrix).coordinates;
      InRange(v, |cm|) && EdgesInRange(s.path + [v] + FiniteCells(Constrained(s.matrix, v)), |cm|)
  {
    ChosenVertexProperties(s.matrix);
    var v := ChosenVertex(s.matrix).coordinates;
    ConstrainedProperties(s.matrix, v);
    var m := Constrained(s.matrix, v);
    FiniteCellsUpToMembers(m, |m|, 0);
    var edges := s.path + [v] + FiniteCells(m);
    forall k | |s.path| < k < |edges|
      ensures InRange(edges[k], |cm|)
    {
      assert edges[k] in FiniteCells(m);
    }
  }

  /**
   * A tour is a stitching of the node's edges, in range, costed as a tour
   * on the original matrix; and edges forming a single cycle always give
   * that cycle as the tour.
   */
  lemma TourStageFacts(cm: Matrix, s: Stage)
    requires IsSquare(cm) && |cm| >= 1 && IsSquare(s.matrix) && |s.matrix| == |cm| && EdgesInRange(s.path, |cm|)
    ensures var r := TourStage(cm, s);
      r.1.Some? ==> IsStitching(r.0.path, r.1.value.path) && r.1.value.lowerBound == TourCost(cm, r.1.value.path)
    ensures var r := TourStage(cm, s);
      forall t :: IsCycleOrder(r.0.path, t) ==> r.1.Some? && r.1.value.path == t
  {
    TourEdgesInRange(cm, s);
    StitchProperties(TourStage(cm, s).0.path);
  }

  /**
   * The tour of a node at the last level and its cost: the fixed edges
   * stitched into a path, costed on the original matrix. None when the
   * edges do not stitch into one cycle.
   */
  method TourOf(cm: Matrix, leftBranch: StageState) returns (tour: Option<Solution>)
    requires IsSquare(cm) && |cm| >= 1 && leftBranch.Valid() && |leftBranch.matrix.cells| == |cm|
    modifies leftBranch, leftBranch.matrix
    ensures leftBranch.matrix == old(leftBranch.matrix) && leftBranch.Valid()
    ensures (Snapshot(leftBranch), tour) == TourStage(cm, old(Snapshot(leftBranch)))
    ensures var v := ChosenVertex(old(leftBranch.matrix.cells)).coordinates;
      leftBranch.unsortedPath == old(leftBranch.unsortedPath) + [v] + FiniteCells(leftBranch.matrix.cells)
    ensures forall t :: IsCycleOrder(leftBranch.unsortedPath, t) ==> tour.Some? && tour.value.path == t
    ensures tour.Some? ==> IsStitching(leftBranch.unsortedPath, tour.value.path)
    ensures tour.Some? ==> |tour.value.path| >= 1 && PathInRange(tour.value.path, |cm|) &&
                           tour.value.lowerBound == TourCost(cm, tour.value.path)
  {
    var newPath := leftBranch.GetPath();
    if newPath.None? {
      return None;
    }
    StitchingInRange(leftBranch.unsortedPath, newPath.value, |cm|);
    var cost := GetOptimalCost(newPath.value, cm);
    tour := Some(Solution(cost, newPath.value));
  }

  /**
   * What the search has recorded so far: one entry per tour, each a path
   * over cities of the matrix whose bound is its tour cost, every one found
   * at the last level, with the best bounds never increasing.
   */
  predicate Records(cm: Matrix, nLevels: nat, recorded: seq<Solution>, levels: seq<nat>, bounds: seq<Cost>)
    requires IsSquare(cm)
  {
    |levels| == |recorded| && |bounds| == |recorded| &&
    (forall k :: 0 <= k < |recorded| ==>
       |recorded[k].path| >= 1 && PathInRange(recorded[k].path, |cm|) &&
       recorded[k].lowerBound == TourCost(cm, recorded[k].path)) &&
    (forall k :: 0 <= k < |levels| ==> levels[k] == nLevels) &&
    (forall k, l :: 0 <= k < l < |bounds| ==> Le(bounds[l], bounds[k]))
  }

  /** Recording one more tour at the last level, with a bound no larger than the last, keeps the record. */
  lemma RecordStep(cm: Matrix, nLevels: nat, recorded: seq<Solution>, levels: seq<nat>, bounds: seq<Cost>,
                   s: Solution, b: Cost)
    requires IsSquare(cm) && Records(cm, nLevels, recorded, levels, bounds)
    requires |s.path| >= 1 && PathInRange(s.path, |cm|) && s.lowerBound == TourCost(cm, s.path)
    requires bounds != [] ==> Le(b, bounds[|bounds| - 1])
    ensures Records(cm, nLevels, recorded + [s], levels + [nLevels], bounds + [b])
  {
    var bs := bounds + [b];
    forall k, l | 0 <= k < l < |bs|
      ensures Le(bs[l], bs[k])
    {
      if l == |bounds| && k < |bounds| - 1 {
        LeTransitive(b, bounds[|bounds| - 1], bounds[k]);
      }
    }
  }

  /** The state of the outer loop: the stack, the best bound, and per recorded tour its level and the bound it set. */
  datatype SearchState = SearchState(lifo: seq<Stage>, bestLb: Cost, solutions: seq<Solution>,
                                     levels: seq<nat>, bounds: seq<Cost>)

  /** The best bound the recorded bounds leave: the last one, or INF before any. */
  function BestOf(bounds: seq<Cost>): Cost {
    if bounds == [] then Inf else bounds[|bounds| - 1]
  }

  /**
   * One round of the outer loop, on values: pop the top node and descend;
   * a node that ends with a bound no larger than the best sets the best
   * bound and records its tour. The flag is false when its edges do not
   * stitch; the recorded state then stays as it was.
   */
  function RoundStage(cm: Matrix, nLevels: nat, st: SearchState): (r: (SearchState, bool))
    requires IsSquare(cm) && |cm| >= 2 && st.lifo != [] && StackFits(st.lifo, |cm|)
    ensures StackFits(r.0.lifo, |cm|)
  {
    var top := st.lifo[|st.lifo| - 1];
    var d := DescendStage(cm, top, nLevels, st.bestLb, st.lifo[..|st.lifo| - 1]);
    DescendStageFits(cm, top, nLevels, st.bestLb, st.lifo[..|st.lifo| - 1]);
    if Le(d.0.lowerBound, st.bestLb) then
      var tour := TourStage(cm, d.0).1;
      if tour.None? then (st.(lifo := d.1), false)
      else (SearchState(d.1, d.0.lowerBound, st.solutions + [tour.value], st.levels + [|d.0.path|],
                        st.bounds + [d.0.lowerBound]), true)
    else (st.(lifo := d.1), true)
  }


  /**
   * One round keeps the record: the old tours, levels and bounds stay as
   * prefixes, at most one tour is added, found at the last level with a
   * bound no larger than the best, so the best bound never increases; and
   * a round from an empty record that stitches records a tour.
   */
  lemma RoundStageKeeps(cm: Matrix, nLevels: nat, st: SearchState)
    requires IsSquare(cm) && |cm| >= 2 && st.lifo != [] && StackFits(st.lifo, |cm|)
    requires Records(cm, nLevels, st.solutions, st.levels, st.bounds) && st.bestLb == BestOf(st.bounds)
    ensures var r := RoundStage(cm, nLevels, st);
      Records(cm, nLevels, r.0.solutions, r.0.levels, r.0.bounds) && r.0.bestLb == BestOf(r.0.bounds) &&
      |st.solutions| <= |r.0.solutions| <= |st.solutions| + 1 &&
      r.0.solutions[..|st.solutions|] == st.solutions && r.0.levels[..|st.levels|] == st.levels &&
      r.0.bounds[..|st.bounds|] == st.bounds && Le(r.0.bestLb, st.bestLb) &&
      (r.1 && st.solutions == [] ==> r.0.solutions != [])
  {
    var r := RoundStage(cm, nLevels, st);
    var top := st.lifo[|st.lifo| - 1];
    var d := DescendStage(cm, top, nLevels, st.bestLb, st.lifo[..|st.lifo| - 1]);
    DescendStageExit(cm, top, nLevels, st.bestLb, st.lifo[..|st.lifo| - 1]);
    if Le(d.0.lowerBound, st.bestLb) {
      DescendStageFits(cm, top, nLevels, st.bestLb, st.lifo[..|st.lifo| - 1]);
      var tour := TourStage(cm, d.0).1;
      if tour.Some? {
        assert r.0 == SearchState(d.1, d.0.lowerBound, st.solutions + [tour.value], st.levels + [nLevels],
                                  st.bounds + [d.0.lowerBound]);
        RecordStep(cm, nLevels, st.solutions, st.levels, st.bounds, tour.value, d.0.lowerBound);
        assert (st.solutions + [tour.value])[..|st.solutions|] == st.solutions;
        assert (st.levels + [nLevels])[..|st.levels|] == st.levels;
        assert (st.bounds + [d.0.lowerBound])[..|st.bounds|] == st.bounds;
      } else {
        assert r.0 == st.(lifo := d.1);
      }
    } else {
      assert r.0 == st.(lifo := d.1);
    }
    assert st.solutions[..|st.solutions|] == st.solutions;
    assert st.levels[..|st.levels|] == st.levels && st.bounds[..|st.bounds|] == st.bounds;
  }

  /**
   * One round of the outer loop: pop a node and descend; a node that ends
   * at the last level with a bound no larger than the best sets the best
   * bound and records its tour. `ok` is false when the fixed edges do not
   * stitch into one cycle.
   */
  method SearchRound(cm: Matrix, nLevels: nat, lifo: seq<Stage>, bestLb0: Cost, solutions0: seq<Solution>,
                     ghost levels0: seq<nat>, ghost bounds0: seq<Cost>)
    returns (treeLifo: seq<Stage>, bestLb: Cost, solutions: seq<Solution>, ghost levels: seq<nat>, ghost bounds: seq<Cost>,
             ok: bool)
    requires IsSquare(cm) && |cm| >= 2 && lifo != []
    requires Restarts(cm, lifo)
    ensures Restarts(cm, treeLifo)
    ensures Records(cm, nLevels, solutions0, levels0, bounds0) && bestLb0 == BestOf(bounds0) ==>
              Records(cm, nLevels, solutions, levels, bounds) && bestLb == BestOf(bounds) &&
              (ok && solutions0 == [] ==> solutions != [])
    ensures |solutions0| <= |solutions| <= |solutions0| + 1 && solutions[..|solutions0|] == solutions0
    ensures |levels0| <= |levels| && levels[..|levels0|] == levels0 && Le(bestLb, bestLb0)
    ensures |bounds0| <= |bounds| && bounds[..|bounds0|] == bounds0
    ensures |solutions| == |solutions0| + 1 ==> |bounds| == |bounds0| + 1 && Le(bounds[|bounds| - 1], bestLb0)
    ensures StackFits(lifo, |cm|) &&
            (SearchState(treeLifo, bestLb, solutions, levels, bounds), ok) ==
            RoundStage(cm, nLevels, SearchState(lifo, bestLb0, solutions0, levels0, bounds0))
  {
    RestartsFit(cm, lifo);
    solutions, levels, bounds := solutions0, levels0, bounds0;
    var leftBranch;
    leftBranch, treeLifo := PopAndDescend(cm, nLevels, bestLb0, lifo);
    bestLb := bestLb0;
    ok := true;
    if Le(leftBranch.lowerBound, bestLb) {
      bestLb := leftBranch.lowerBound;
      ghost var level := leftBranch.Level();
      var tour := TourOf(cm, leftBranch);
      if tour.None? {
        return treeLifo, bestLb0, solutions0, levels0, bounds0, false;
      }
      if Records(cm, nLevels, solutions, levels, bounds) && bestLb0 == BestOf(bounds0) {
        RecordStep(cm, nLevels, solutions, levels, bounds, tour.value, bestLb);
      }
      solutions := solutions + [tour.value];
      levels, bounds := levels + [level], bounds + [bestLb];
    }
  }

  /**
   * The outer loop, on values: run rounds until the stack is empty, then
   * keep the recorded tours of least cost; Unfinished when `fuel` rounds
   * did not empty the stack or a node's edges did not stitch.
   */
  function Search(cm: Matrix, nLevels: nat, st: SearchState, fuel: nat): (r: (Outcome, SearchState))
    requires IsSquare(cm) && |cm| >= 2 && StackFits(st.lifo, |cm|)
    decreases fuel
  {
    if st.lifo == [] then (Solved(FilterSolutions(st.solutions)), st)
    else if fuel == 0 then (Unfinished, st)
    else
      var next := RoundStage(cm, nLevels, st);
      if !next.1 then (Unfinished, next.0) else Search(cm, nLevels, next.0, fuel - 1)
  }

  /** One round of the outer loop, unfolded: the search goes on from the round's state, or stops there. */
  lemma SearchAdvance(cm: Matrix, nLevels: nat, st: SearchState, next: SearchState, ok: bool, fuel: nat)
    requires IsSquare(cm) && |cm| >= 2 && StackFits(st.lifo, |cm|) && st.lifo != []
    requires RoundStage(cm, nLevels, st) == (next, ok) && fuel >= 1
    ensures StackFits(next.lifo, |cm|)
    ensures ok ==> Search(cm, nLevels, st, fuel) == Search(cm, nLevels, next, fuel - 1)
    ensures !ok ==> Search(cm, nLevels, st, fuel) == (Unfinished, next)
  {
  }

  /** The start of the search: the original matrix as the only node, no best bound, nothing recorded. */
  function InitialSearch(cm: Matrix): (st: SearchState)
    requires IsSquare(cm) && |cm| >= 2
    ensures StackFits(st.lifo, |cm|) && Records(cm, |cm| - 2, st.solutions, st.levels, st.bounds)
    ensures st.bestLb == BestOf(st.bounds) && st.lifo != [] && Restarts(cm, st.lifo)
  {
    assert InRange(Vertex(0, 0), |cm|);
    SearchState([Stage(cm, [], Fin(0))], Inf, [], [], [])
  }

  /**
   * The whole search keeps the record, loses none of it, and a Solved
   * outcome holds the least-cost tours of a non-empty record.
   */
  lemma {:induction false} SearchKeeps(cm: Matrix, nLevels: nat, st: SearchState, fuel: nat)
    requires IsSquare(cm) && |cm| >= 2 && StackFits(st.lifo, |cm|)
    requires Records(cm, nLevels, st.solutions, st.levels, st.bounds) && st.bestLb == BestOf(st.bounds)
    requires st.solutions == [] ==> st.lifo != []
    ensures var r := Search(cm, nLevels, st, fuel);
      Records(cm, nLevels, r.1.solutions, r.1.levels, r.1.bounds) &&
      |st.solutions| <= |r.1.solutions| && r.1.solutions[..|st.solutions|] == st.solutions &&
      (r.0.Solved? ==> r.1.solutions != [] && r.0.solutions == FilterSolutions(r.1.solutions))
    decreases fuel
  {
    if st.lifo == [] || fuel == 0 {
      assert st.solutions[..|st.solutions|] == st.solutions;
    } else {
      var next := RoundStage(cm, nLevels, st);
      RoundStageKeeps(cm, nLevels, st);
      if next.1 {
        SearchKeeps(cm, nLevels, next.0, fuel - 1);
        var r := Search(cm, nLevels, next.0, fuel - 1);
        assert r.1.solutions[..|st.solutions|] == r.1.solutions[..|next.0.solutions|][..|st.solutions|];
      }
    }
  }

  /** The least-cost tours of a record are tours of the record, so each is costed as a tour. */
  lemma FilteredTours(cm: Matrix, nLevels: nat, recorded: seq<Solution>, levels: seq<nat>, bounds: seq<Cost>)
    requires IsSquare(cm) && Records(cm, nLevels, recorded, levels, bounds)
    ensures forall x :: x in FilterSolutions(recorded) ==>
              |x.path| >= 1 && PathInRange(x.path, |cm|) && x.lowerBound == TourCost(cm, x.path)
  {
    forall x | x in FilterSolutions(recorded)
      ensures |x.path| >= 1 && PathInRange(x.path, |cm|) && x.lowerBound == TourCost(cm, x.path)
    {
      var k :| 0 <= k < |recorded| && recorded[k] == x;
    }
  }

  /**
   * What the whole search from the start promises: Solved holds at least
   * one tour, all of one cost and each a path over the cities costed as a
   * tour; every recorded tour was found at the last level, and the best
   * bounds never increase.
   */
  lemma SolveFacts(cm: Matrix, fuel: nat)
    requires IsSquare(cm) && |cm| >= 2
    ensures var res := Search(cm, |cm| - 2, InitialSearch(cm), fuel);
      res.0.Solved? ==> forall x :: x in res.0.solutions ==>
        |x.path| >= 1 && PathInRange(x.path, |cm|) && x.lowerBound == TourCost(cm, x.path)
    ensures var res := Search(cm, |cm| - 2, InitialSearch(cm), fuel);
      res.0.Solved? ==> forall x, y :: x in res.0.solutions && y in res.0.solutions ==> x.lowerBound == y.lowerBound
    ensures var res := Search(cm, |cm| - 2, InitialSearch(cm), fuel);
      res.0.Solved? ==> |res.0.solutions| > 0 && res.0.solutions == FilterSolutions(res.1.solutions)
    ensures var res := Search(cm, |cm| - 2, InitialSearch(cm), fuel);
      Records(cm, |cm| - 2, res.1.solutions, res.1.levels, res.1.bounds)
  {
    var res := Search(cm, |cm| - 2, InitialSearch(cm), fuel);
    SearchKeeps(cm, |cm| - 2, InitialSearch(cm), fuel);
    FilteredTours(cm, |cm| - 2, res.1.solutions, res.1.levels, res.1.bounds);
  }


  /** One round of the outer loop, advancing the search by one round. */
  method SearchStep(cm: Matrix, nLevels: nat, ghost fuel: nat, lifo: seq<Stage>, bestLb0: Cost, solutions0: seq<Solution>,
                    ghost levels0: seq<nat>, ghost bounds0: seq<Cost>)
    returns (treeLifo: seq<Stage>, bestLb: Cost, solutions: seq<Solution>, ghost levels: seq<nat>, ghost bounds: seq<Cost>,
             ok: bool)
    requires IsSquare(cm) && |cm| >= 2 && lifo != [] && fuel >= 1
    requires Restarts(cm, lifo)
    ensures Restarts(cm, treeLifo)
    ensures StackFits(lifo, |cm|) && StackFits(treeLifo, |cm|)
    ensures ok ==> Search(cm, nLevels, SearchState(lifo, bestLb0, solutions0, levels0, bounds0), fuel) ==
                   Search(cm, nLevels, SearchState(treeLifo, bestLb, solutions, levels, bounds), fuel - 1)
    ensures !ok ==> Search(cm, nLevels, SearchState(lifo, bestLb0, solutions0, levels0, bounds0), fuel) ==
                    (Unfinished, SearchState(treeLifo, bestLb, solutions, levels, bounds))
  {
    treeLifo, bestLb, solutions, levels, bounds, ok := SearchRound(cm, nLevels, lifo, bestLb0, solutions0, levels0, bounds0);
    SearchAdvance(cm, nLevels, SearchState(lifo, bestLb0, solutions0, levels0, bounds0),
                  SearchState(treeLifo, bestLb, solutions, levels, bounds), ok, fuel);
  }

  /**
   * The outer loop of the search, from any state whose stack holds restart
   * nodes: pops nodes until the stack is empty, or `fuel` rounds have run,
   * or a node's edges did not stitch. `finished` says whether the stack was
   * emptied; the ghost outputs record, per recorded tour, the node's level
   * and the best bound it set.
   */
  method SearchFrom(cm: Matrix, nLevels: nat, st0: SearchState, fuel: nat)
    returns (finished: bool, solutions: seq<Solution>, ghost levels: seq<nat>, ghost bounds: seq<Cost>)
    requires IsSquare(cm) && |cm| >= 2 && StackFits(st0.lifo, |cm|) && Restarts(cm, st0.lifo)
    ensures var res := Search(cm, nLevels, st0, fuel);
      (finished <==> res.0.Solved?) && solutions == res.1.solutions && levels == res.1.levels && bounds == res.1.bounds
  {
    var treeLifo, bestLb := st0.lifo, st0.bestLb;
    solutions, levels, bounds := st0.solutions, st0.levels, st0.bounds;
    var steps := fuel;
    while treeLifo != []
      invariant Restarts(cm, treeLifo) && StackFits(treeLifo, |cm|)
      invariant Search(cm, nLevels, SearchState(treeLifo, bestLb, solutions, levels, bounds), steps) ==
                Search(cm, nLevels, st0, fuel)
      decreases steps
    {
      if steps == 0 {
        return false, solutions, levels, bounds;
      }
      var ok;
      treeLifo, bestLb, solutions, levels, bounds, ok := SearchStep(cm, nLevels, steps, treeLifo, bestLb, solutions, levels, bounds);
      steps := steps - 1;
      if !ok {
        return false, solutions, levels, bounds;
      }
    }
    finished := true;
  }

  /** The outer loop of the search, started from the root node of `cm`. */
  method SearchLoop(cm: Matrix, fuel: nat)
    returns (finished: bool, solutions: seq<Solution>, ghost levels: seq<nat>, ghost bounds: seq<Cost>)
    requires IsSquare(cm) && |cm| >= 2
    ensures var res := Search(cm, |cm| - 2, InitialSearch(cm), fuel);
      (finished <==> res.0.Solved?) && solutions == res.1.solutions && levels == res.1.levels && bounds == res.1.bounds
  {
    var st0 := InitialSearch(cm);
    var nLevels := |cm| - 2;
    finished, solutions, levels, bounds := SearchFrom(cm, nLevels, st0, fuel);
  }

  /**
   * The branch-and-bound search. Pops a node; while it is above the last
   * level and its bound does not exceed the best bound, reduces it, stops
   * if the bound now exceeds the best, else fixes the chosen edge and pushes
   * the sibling without that edge. A node that ends at the last level with
   * a bound no larger than the best sets the best bound and records its tour.
   * Once the stack is empty, keeps the recorded tours of least cost.
   * `fuel` bounds the number of nodes popped. The ghost outputs record, per
   * recorded tour, the node's level and the best bound it set.
   */
  method SolveTsp(cm: Matrix, fuel: nat)
    returns (r: Outcome, ghost recorded: seq<Solution>, ghost levels: seq<nat>, ghost bounds: seq<Cost>)
    requires IsSquare(cm) && |cm| >= 2
    ensures var res := Search(cm, |cm| - 2, InitialSearch(cm), fuel);
      r == res.0 && recorded == res.1.solutions && levels == res.1.levels && bounds == res.1.bounds
    ensures r.Solved? ==> forall x :: x in r.solutions ==>
              |x.path| >= 1 && PathInRange(x.path, |cm|) && x.lowerBound == TourCost(cm, x.path)
    ensures r.Solved? ==> forall x, y :: x in r.solutions && y in r.solutions ==> x.lowerBound == y.lowerBound
    ensures r.Solved? ==> |r.solutions| > 0
    ensures r.Solved? ==> r.solutions == FilterSolutions(recorded)
    ensures |levels| == |recorded| && |bounds| == |recorded|
    ensures forall k :: 0 <= k < |recorded| ==>
              |recorded[k].path| >= 1 && PathInRange(recorded[k].path, |cm|) &&
              recorded[k].lowerBound == TourCost(cm, recorded[k].path)
    ensures forall k :: 0 <= k < |levels| ==> levels[k] == |cm| - 2
    ensures forall k, l :: 0 <= k < l < |bounds| ==> Le(bounds[l], bounds[k])
  {
    SolveFacts(cm, fuel);
    var finished, solutions;
    finished, solutions, levels, bounds := SearchLoop(cm, fuel);
    recorded := solutions;
    if finished {
      r := Solved(FilterSolutions(solutions));
    } else {
      r := Unfinished;
    }
  }
}
