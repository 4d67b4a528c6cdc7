/**
 * A node of the branch-and-bound tree: its own cost matrix, the edges fixed
 * so far (in the order they were fixed) and its lower bound. The node picks
 * the next edge, applies the constraints of a fixed edge and, at the last
 * level, stitches its edges into a tour.
 */
module TspStageState {
  import opened TspCosts
  import opened TspCostMatrix

  datatype Option<T> = None | Some(value: T)

  /** A matrix cell (row, col): the edge row -> col. */
  datatype Vertex = Vertex(row: nat, col: nat)

  /** A candidate edge and the cost of not taking it. */
  datatype NewVertex = NewVertex(coordinates: Vertex, cost: Cost)

  /** The value a default-constructed vertex holds. */
  const NoVertex := Vertex(0, 0)

  predicate InRange(v: Vertex, n: nat) {
    v.row < n && v.col < n
  }

  /** Cell (p, q) comes before position (i, j) in a row-major scan. */
  predicate ScannedBefore(p: nat, q: nat, i: nat, j: nat) {
    p < i || (p == i && q < j)
  }

  /**
   * The edge choice after a row-major scan of rows 0..i-1 and of columns
   * 0..j-1 of row i: start from cost 0 and the default vertex, and take
   * every zero cell whose exclusion cost is strictly larger than the best so far.
   */
  function ScanZeros(m: Matrix, i: nat, j: nat): NewVertex
    requires IsSquare(m) && i <= |m| && j <= |m| && (i == |m| ==> j == 0)
    decreases i, j
  {
    if j == 0 then
      if i == 0 then NewVertex(NoVertex, Fin(0)) else ScanZeros(m, i - 1, |m|)
    else
      var best := ScanZeros(m, i, j - 1);
      if m[i][j - 1] == Fin(0) && Lt(best.cost, VertexCost(m, i, j - 1))
      then NewVertex(Vertex(i, j - 1), VertexCost(m, i, j - 1))
      else best
  }

  /** The edge choice over the whole matrix. */
  function ChosenVertex(m: Matrix): NewVertex
    requires IsSquare(m)
  {
    ScanZeros(m, |m|, 0)
  }

  /**
   * What a partial scan chooses: its cost is at least 0; cost 0 means the
   * default vertex; any other cost is the exclusion cost of a scanned zero
   * cell; no scanned zero cell costs more, and every scanned zero cell
   * before the chosen one costs strictly less.
   */
  lemma {:induction false} ScanZerosProperties(m: Matrix, i: nat, j: nat)
    requires IsSquare(m) && i <= |m| && j <= |m| && (i == |m| ==> j == 0)
    ensures var r := ScanZeros(m, i, j);
      Le(Fin(0), r.cost) &&
      (r.cost == Fin(0) ==> r.coordinates == NoVertex) &&
      (r.cost != Fin(0) ==>
         InRange(r.coordinates, |m|) &&
         ScannedBefore(r.coordinates.row, r.coordinates.col, i, j) &&
         m[r.coordinates.row][r.coordinates.col] == Fin(0) &&
         r.cost == VertexCost(m, r.coordinates.row, r.coordinates.col)) &&
      (forall p, q :: 0 <= p < |m| && 0 <= q < |m| && ScannedBefore(p, q, i, j) && m[p][q] == Fin(0) ==>
         Le(VertexCost(m, p, q), r.cost)) &&
      (r.cost != Fin(0) ==>
         forall p, q ::
           (0 <= p < |m| && 0 <= q < |m| &&
            ScannedBefore(p, q, r.coordinates.row, r.coordinates.col) && m[p][q] == Fin(0)) ==>
           Lt(VertexCost(m, p, q), r.cost))
    decreases i, j
  {
    if j == 0 {
      if i > 0 {
        ScanZerosProperties(m, i - 1, |m|);
      }
    } else {
      ScanZerosProperties(m, i, j - 1);
      var best := ScanZeros(m, i, j - 1);
      var r := ScanZeros(m, i, j);
      forall p, q | 0 <= p < |m| && 0 <= q < |m| && ScannedBefore(p, q, i, j - 1) && m[p][q] == Fin(0)
        ensures Le(VertexCost(m, p, q), r.cost)
      {
        LeTransitive(VertexCost(m, p, q), best.cost, r.cost);
      }
      if r != best {
        forall p, q | 0 <= p < |m| && 0 <= q < |m| && ScannedBefore(p, q, i, j - 1) && m[p][q] == Fin(0)
          ensures Lt(VertexCost(m, p, q), r.cost)
        {
          LeTransitive(VertexCost(m, p, q), best.cost, r.cost);
        }
      }
    }
  }

  /**
   * The edge choice over a whole matrix: a zero cell with strictly maximal
   * exclusion cost, the first such in row-major order, at cost at least 0;
   * when no zero cell costs more than 0, the default vertex at cost 0.
   */
  lemma ChosenVertexProperties(m: Matrix)
    requires IsSquare(m)
    ensures var r := ChosenVertex(m);
      Le(Fin(0), r.cost) &&
      (|m| > 0 ==> InRange(r.coordinates, |m|)) &&
      (r.cost == Fin(0) <==>
         forall p, q :: 0 <= p < |m| && 0 <= q < |m| && m[p][q] == Fin(0) ==> Le(VertexCost(m, p, q), Fin(0))) &&
      (r.cost == Fin(0) ==> r.coordinates == NoVertex) &&
      (r.cost != Fin(0) ==>
         m[r.coordinates.row][r.coordinates.col] == Fin(0) &&
         r.cost == VertexCost(m, r.coordinates.row, r.coordinates.col) &&
         forall p, q :: 0 <= p < |m| && 0 <= q < |m| && m[p][q] == Fin(0) ==>
           Le(VertexCost(m, p, q), r.cost) &&
           (ScannedBefore(p, q, r.coordinates.row, r.coordinates.col) ==> Lt(VertexCost(m, p, q), r.cost)))
  {
    ScanZerosProperties(m, |m|, 0);
    var r := ChosenVertex(m);
    if r.cost != Fin(0) {
      var v := r.coordinates;
      assert m[v.row][v.col] == Fin(0) && !Le(VertexCost(m, v.row, v.col), Fin(0));
    }
  }

  /**
   * The matrix after edge v is fixed: row v.row, column v.col and the
   * reverse cell (v.col, v.row) become INF, every other cell is kept.
   */
  function Constrained(m: Matrix, v: Vertex): Matrix
    requires IsSquare(m)
  {
    seq(|m|, i requires 0 <= i < |m| =>
      seq(|m|, j requires 0 <= j < |m| =>
        if i == v.row || j == v.col || (i == v.col && j == v.row) then Inf else m[i][j]))
  }

  /** No cell of the diagonal holds a finite cost. */
  predicate DiagonalInf(m: Matrix)
    requires IsSquare(m)
  {
    forall i :: 0 <= i < |m| ==> m[i][i] == Inf
  }

  /**
   * Fixing an edge keeps the matrix square, non-negative and INF on the
   * diagonal, only turns cells into INF, and leaves the fixed row and
   * column and the reverse edge without a finite cost, so that the next
   * reduction takes nothing from them and the 2-cycle v.col -> v.row is gone.
   */
  lemma ConstrainedProperties(m: Matrix, v: Vertex)
    requires IsSquare(m) && InRange(v, |m|)
    ensures var c := Constrained(m, v);
      IsSquare(c) && |c| == |m| &&
      (NonNegative(m) ==> NonNegative(c)) &&
      (DiagonalInf(m) ==> DiagonalInf(c)) &&
      (forall i, j :: 0 <= i < |m| && 0 <= j < |m| && m[i][j] == Inf ==> c[i][j] == Inf) &&
      !RowHasFinite(c, v.row) && !ColHasFinite(c, v.col) && c[v.col][v.row] == Inf &&
      RowMins(c)[v.row] == 0 && ColMins(c)[v.col] == 0
  {
    var c := Constrained(m, v);
    RowMinsAreMinima(c, v.row);
    ColMinsAreMinima(c, v.col);
  }

  /**
   * The finite cells of rows 0..i-1 and of columns 0..j-1 of row i, in
   * row-major order.
   */
  function FiniteCellsUpTo(m: Matrix, i: nat, j: nat): seq<Vertex>
    requires IsSquare(m) && i <= |m| && j <= |m| && (i == |m| ==> j == 0)
    decreases i, j
  {
    if j == 0 then
      if i == 0 then [] else FiniteCellsUpTo(m, i - 1, |m|)
    else
      FiniteCellsUpTo(m, i, j - 1) + if m[i][j - 1] != Inf then [Vertex(i, j - 1)] else []
  }

  /** All finite cells of the matrix, in row-major order. */
  function FiniteCells(m: Matrix): seq<Vertex>
    requires IsSquare(m)
  {
    FiniteCellsUpTo(m, |m|, 0)
  }

  /** The collected cells are exactly the finite cells scanned so far. */
  lemma {:induction false} FiniteCellsUpToMembers(m: Matrix, i: nat, j: nat)
    requires IsSquare(m) && i <= |m| && j <= |m| && (i == |m| ==> j == 0)
    ensures forall v :: v in FiniteCellsUpTo(m, i, j) <==>
              InRange(v, |m|) && ScannedBefore(v.row, v.col, i, j) && m[v.row][v.col] != Inf
    decreases i, j
  {
    if j == 0 {
      if i > 0 {
        FiniteCellsUpToMembers(m, i - 1, |m|);
      }
    } else {
      FiniteCellsUpToMembers(m, i, j - 1);
    }
  }

  /** Cells listed in row-major order, so each occurs once. */
  predicate RowMajor(r: seq<Vertex>) {
    forall a, b :: 0 <= a < b < |r| ==> ScannedBefore(r[a].row, r[a].col, r[b].row, r[b].col)
  }

  /** The collected cells come in row-major order. */
  lemma {:induction false} FiniteCellsUpToOrdered(m: Matrix, i: nat, j: nat)
    requires IsSquare(m) && i <= |m| && j <= |m| && (i == |m| ==> j == 0)
    ensures RowMajor(FiniteCellsUpTo(m, i, j))
    decreases i, j
  {
    if j == 0 {
      if i > 0 {
        FiniteCellsUpToOrdered(m, i - 1, |m|);
      }
    } else {
      FiniteCellsUpToOrdered(m, i, j - 1);
      if m[i][j - 1] != Inf {
        FiniteCellsUpToMembers(m, i, j - 1);
        RowMajorSnoc(FiniteCellsUpTo(m, i, j - 1), Vertex(i, j - 1));
      }
    }
  }

  /** A cell scanned after every listed one can be appended in row-major order. */
  lemma RowMajorSnoc(r: seq<Vertex>, v: Vertex)
    requires RowMajor(r) && forall x :: x in r ==> ScannedBefore(x.row, x.col, v.row, v.col)
    ensures RowMajor(r + [v])
  {
    var q := r + [v];
    forall a, b | 0 <= a < b < |q|
      ensures ScannedBefore(q[a].row, q[a].col, q[b].row, q[b].col)
    {
      assert q[a] == r[a] && r[a] in r;
      if b < |r| {
        assert q[b] == r[b];
      }
    }
  }

  /** The fixed edges, with `t` the tour they make: a single cycle through the vertices of `t`. */
  predicate IsCycleOrder(edges: seq<Vertex>, t: seq<nat>) {
    |t| == |edges| >= 1 &&
    (forall a, b :: 0 <= a < b < |t| ==> t[a] != t[b]) &&
    edges[0] == Vertex(t[|t| - 1], t[0]) &&
    (forall k :: 0 <= k < |t| - 1 ==> Vertex(t[k], t[k + 1]) in edges) &&
    (forall a, b :: 0 <= a < b < |edges| ==> edges[a].row != edges[b].row)
  }

  /** Consecutive vertices of `p` are joined by edges other than the first. */
  predicate Chained(edges: seq<Vertex>, p: seq<nat>)
    requires |edges| >= 1
  {
    forall k :: 0 <= k < |p| - 1 ==> Vertex(p[k], p[k + 1]) in edges[1..]
  }

  /**
   * A stitching of the fixed edges: one vertex per edge, starting with the
   * first edge's column, each step along one of the other edges.
   */
  predicate IsStitching(edges: seq<Vertex>, p: seq<nat>) {
    |p| == |edges| >= 1 &&
    p[0] == edges[0].col &&
    Chained(edges, p)
  }

  /** In a single cycle, the edge leaving t[k-1] is the one to t[k]. */
  lemma CycleStep(edges: seq<Vertex>, t: seq<nat>, k: nat, i: nat)
    requires IsCycleOrder(edges, t) && 1 <= k <= |t| && 0 < i < |edges| && edges[i].row == t[k - 1]
    ensures k < |t| && edges[i].col == t[k]
  {
    if k == |t| {
      assert false;
    } else {
      assert Vertex(t[k - 1], t[k]) in edges;
      var p :| 0 <= p < |edges| && edges[p] == Vertex(t[k - 1], t[k]);
      if p != i {
        assert false;
      }
    }
  }

  /** In a single cycle, the edge t[k-1] -> t[k] (k < |t|) is not the first edge. */
  lemma CycleNextEdge(edges: seq<Vertex>, t: seq<nat>, k: nat) returns (p: nat)
    requires IsCycleOrder(edges, t) && 1 <= k < |t|
    ensures 1 <= p < |edges| && edges[p] == Vertex(t[k - 1], t[k])
  {
    assert Vertex(t[k - 1], t[k]) in edges;
    p :| 0 <= p < |edges| && edges[p] == Vertex(t[k - 1], t[k]);
    if p == 0 {
      assert false;
    }
  }

  /** The fixed edges determine their tour. */
  lemma CycleOrderUnique(edges: seq<Vertex>, t1: seq<nat>, t2: seq<nat>)
    requires IsCycleOrder(edges, t1) && IsCycleOrder(edges, t2)
    ensures t1 == t2
  {
    var k := 1;
    while k < |t1|
      invariant 1 <= k <= |t1|
      invariant t1[..k] == t2[..k]
    {
      var p := CycleNextEdge(edges, t1, k);
      var q := CycleNextEdge(edges, t2, k);
      assert t1[k - 1] == t2[k - 1] by { assert t1[..k][k - 1] == t2[..k][k - 1]; }
      if p != q {
        assert false;
      }
      assert t1[..k + 1] == t1[..k] + [t1[k]] && t2[..k + 1] == t2[..k] + [t2[k]];
      k := k + 1;
    }
    assert t1 == t1[..k] && t2 == t2[..k];
  }

  /** Appending the column of a non-first edge that leaves the last vertex keeps the chain, and stays on the cycle. */
  lemma StitchStep(edges: seq<Vertex>, p: seq<nat>, cycle: bool, t: seq<nat>, i: nat)
    requires 0 < i < |edges| && |p| >= 1 && edges[i].row == p[|p| - 1] && Chained(edges, p)
    requires cycle ==> IsCycleOrder(edges, t) && |p| <= |t| && p == t[..|p|]
    ensures Chained(edges, p + [edges[i].col])
    ensures cycle ==> |p| < |t| && p + [edges[i].col] == t[..|p| + 1]
  {
    var back := p[|p| - 1];
    assert edges[i] == Vertex(back, edges[i].col) && edges[1..][i - 1] == edges[i];
    if cycle {
      assert back == t[|p| - 1];
      CycleStep(edges, t, |p|, i);
      assert t[..|p| + 1] == p + [t[|p|]];
    }
    var q := p + [edges[i].col];
    forall k | 0 <= k < |q| - 1
      ensures Vertex(q[k], q[k + 1]) in edges[1..]
    {
      if k < |p| - 1 {
        assert q[k] == p[k] && q[k + 1] == p[k + 1];
      }
    }
  }

  /**
   * One pass of the stitching loop, from edge `i` on: every edge but the
   * first (whose row has been switched off) whose row is the last vertex
   * so far appends its column.
   */
  function PassFrom(edges: seq<Vertex>, p: seq<nat>, i: nat): (q: seq<nat>)
    requires |p| >= 1 && i <= |edges|
    ensures |p| <= |q| && q[..|p|] == p
    decreases |edges| - i
  {
    if i == |edges| then p
    else PassFrom(edges, if i > 0 && edges[i].row == p[|p| - 1] then p + [edges[i].col] else p, i + 1)
  }

  /** A pass keeps the chain, and on a single cycle it stays on the tour. */
  lemma {:induction false} PassFromChained(edges: seq<Vertex>, p: seq<nat>, i: nat, cycle: bool, t: seq<nat>)
    requires |p| >= 1 && 1 <= |edges| && i <= |edges| && Chained(edges, p)
    requires cycle ==> IsCycleOrder(edges, t) && |p| <= |t| && p == t[..|p|]
    ensures Chained(edges, PassFrom(edges, p, i))
    ensures cycle ==> |PassFrom(edges, p, i)| <= |t| && PassFrom(edges, p, i) == t[..|PassFrom(edges, p, i)|]
    decreases |edges| - i
  {
    if i < |edges| {
      if i > 0 && edges[i].row == p[|p| - 1] {
        StitchStep(edges, p, cycle, t, i);
        PassFromChained(edges, p + [edges[i].col], i + 1, cycle, t);
      } else {
        PassFromChained(edges, p, i + 1, cycle, t);
      }
    }
  }

  /** A pass that meets a non-first edge leaving the last vertex appends at least one vertex. */
  lemma {:induction false} PassFromAdvances(edges: seq<Vertex>, p: seq<nat>, i: nat, k: nat)
    requires |p| >= 1 && i <= k < |edges| && k > 0 && edges[k].row == p[|p| - 1]
    ensures |PassFrom(edges, p, i)| > |p|
    decreases |edges| - i
  {
    if i == k {
      assert |PassFrom(edges, p + [edges[i].col], i + 1)| >= |p| + 1;
    } else if i > 0 && edges[i].row == p[|p| - 1] {
      assert |PassFrom(edges, p + [edges[i].col], i + 1)| >= |p| + 1;
    } else {
      PassFromAdvances(edges, p, i + 1, k);
    }
  }

  /**
   * The stitching loop from the sequence `p` on: pass after pass until
   * there is one vertex per edge; None when a pass appends nothing or
   * overshoots, where the C++ loop would never stop.
   */
  function StitchFrom(edges: seq<Vertex>, p: seq<nat>): Option<seq<nat>>
    requires 1 <= |p| <= |edges|
    decreases |edges| - |p|
  {
    if |p| == |edges| then Some(p)
    else
      var q := PassFrom(edges, p, 0);
      if |q| == |p| || |q| > |edges| then None else StitchFrom(edges, q)
  }

  /** The whole stitching of the fixed edges, starting from the first edge's column. */
  function Stitch(edges: seq<Vertex>): Option<seq<nat>>
    requires |edges| >= 1
  {
    StitchFrom(edges, [edges[0].col])
  }

  /** A stitching loop that returns keeps the chain, and on a single cycle it returns the tour. */
  lemma {:induction false} StitchFromProperties(edges: seq<Vertex>, p: seq<nat>, cycle: bool, t: seq<nat>)
    requires 1 <= |p| <= |edges| && p[0] == edges[0].col && Chained(edges, p)
    requires cycle ==> IsCycleOrder(edges, t) && p == t[..|p|]
    ensures StitchFrom(edges, p).Some? ==> IsStitching(edges, StitchFrom(edges, p).value)
    ensures cycle ==> StitchFrom(edges, p) == Some(t)
    decreases |edges| - |p|
  {
    if |p| == |edges| {
      if cycle {
        assert p == t[..|t|] == t;
      }
    } else {
      var q := PassFrom(edges, p, 0);
      PassFromChained(edges, p, 0, cycle, t);
      if cycle {
        var k := CycleNextEdge(edges, t, |p|);
        assert p[|p| - 1] == t[|p| - 1];
        PassFromAdvances(edges, p, 0, k);
      }
      if |q| != |p| && |q| <= |edges| {
        assert q[0] == q[..|p|][0] == p[0];
        StitchFromProperties(edges, q, cycle, t);
      }
    }
  }

  /** A stitching of the fixed edges is an IsStitching; a single cycle always stitches, into its tour. */
  lemma StitchProperties(edges: seq<Vertex>)
    requires |edges| >= 1
    ensures Stitch(edges).Some? ==> IsStitching(edges, Stitch(edges).value)
    ensures forall t :: IsCycleOrder(edges, t) ==> Stitch(edges) == Some(t)
  {
    StitchFromProperties(edges, [edges[0].col], false, []);
    forall t | IsCycleOrder(edges, t)
      ensures Stitch(edges) == Some(t)
    {
      assert [edges[0].col] == t[..1];
      StitchFromProperties(edges, [edges[0].col], true, t);
    }
  }

  /**
   * One pass of the stitching loop over all edges (the first one's row
   * switched off to INF), reading the current back of the sequence.
   */
  method StitchPass(edges: seq<Vertex>, rows: seq<Cost>, sp0: seq<nat>) returns (sortedPath: seq<nat>)
    requires |rows| == |edges| >= 1 && rows[0] == Inf
    requires forall k :: 1 <= k < |edges| ==> rows[k] == Fin(edges[k].row)
    requires |sp0| >= 1
    ensures sortedPath == PassFrom(edges, sp0, 0)
  {
    sortedPath := sp0;
    var i := 0;
    while i < |edges|
      invariant 0 <= i <= |edges| && |sortedPath| >= 1
      invariant PassFrom(edges, sortedPath, i) == PassFrom(edges, sp0, 0)
    {
      if rows[i] == Fin(sortedPath[|sortedPath| - 1]) {
        sortedPath := sortedPath + [edges[i].col];
      }
      i := i + 1;
    }
  }

  /**
   * Stitches the fixed edges into a vertex sequence: start from the first
   * edge's column, switch the first edge off, and pass over the edges again
   * and again, appending the column of every edge whose row is the last
   * vertex so far, until there is one vertex per edge. The result is None
   * when that loop would never stop: a pass that appends nothing, or one
   * that overshoots the number of edges.
   */
  method SortPath(edges: seq<Vertex>) returns (r: Option<seq<nat>>)
    requires |edges| >= 1
    ensures r == Stitch(edges)
    ensures r.Some? ==> IsStitching(edges, r.value)
    ensures forall t :: IsCycleOrder(edges, t) ==> r == Some(t)
  {
    var rows: seq<Cost> := seq(|edges|, k requires 0 <= k < |edges| => Fin(edges[k].row));
    var sortedPath := [edges[0].col];
    rows := rows[0 := Inf];
    StitchProperties(edges);
    while |sortedPath| != |edges|
      invariant |rows| == |edges| && rows[0] == Inf
      invariant forall k :: 1 <= k < |edges| ==> rows[k] == Fin(edges[k].row)
      invariant 1 <= |sortedPath| <= |edges|
      invariant StitchFrom(edges, sortedPath) == Stitch(edges)
      decreases |edges| - |sortedPath|
    {
      var before := |sortedPath|;
      sortedPath := StitchPass(edges, rows, sortedPath);
      if |sortedPath| == before || |sortedPath| > |edges| {
        return None;
      }
    }
    r := Some(sortedPath);
  }

  /** A search node whose matrix and fixed-edge list the solver rewrites in place. */
  class StageState {
    var matrix: CostMatrix
    var unsortedPath: seq<Vertex>
    var lowerBound: Cost

    ghost predicate Valid()
      reads this, matrix
    {
      matrix.Valid() &&
      forall k :: 0 <= k < |unsortedPath| ==> InRange(unsortedPath[k], |matrix.cells|)
    }

    /** The depth of the node: the number of edges fixed so far. */
    function Level(): nat
      reads this
    {
      |unsortedPath|
    }

    constructor (m: Matrix, path: seq<Vertex>, lb: Cost)
      requires IsSquare(m)
      requires forall k :: 0 <= k < |path| ==> InRange(path[k], |m|)
      ensures Valid() && fresh(matrix)
      ensures matrix.cells == m && unsortedPath == path && lowerBound == lb
    {
      matrix := new CostMatrix(m);
      unsortedPath := path;
      lowerBound := lb;
    }

    method ResetLowerBound()
      modifies this
      ensures matrix == old(matrix) && unsortedPath == old(unsortedPath)
      ensures lowerBound == Fin(0)
    {
      lowerBound := Fin(0);
    }

    method UpdateLowerBound(delta: int)
      modifies this
      ensures matrix == old(matrix) && unsortedPath == old(unsortedPath)
      ensures lowerBound == Plus(old(lowerBound), Fin(delta))
    {
      lowerBound := Plus(lowerBound, Fin(delta));
    }

    method AppendToPath(v: Vertex)
      requires Valid() && InRange(v, |matrix.cells|)
      modifies this
      ensures Valid() && matrix == old(matrix) && lowerBound == old(lowerBound)
      ensures unsortedPath == old(unsortedPath) + [v]
    {
      unsortedPath := unsortedPath + [v];
    }

    /** Picks the zero cell that is most costly to leave out (see ChosenVertexProperties). */
    method ChooseNewVertex() returns (nv: NewVertex)
      requires Valid()
      ensures nv == ChosenVertex(matrix.cells)
      ensures Le(Fin(0), nv.cost) && (|matrix.cells| > 0 ==> InRange(nv.coordinates, |matrix.cells|))
    {
      var n := matrix.Size();
      var maxValue := Fin(0);
      var vertex := NoVertex;
      var i := 0;
      while i < n
        invariant 0 <= i <= n
        invariant NewVertex(vertex, maxValue) == ScanZeros(matrix.cells, i, 0)
      {
        var j := 0;
        while j < n
          invariant 0 <= j <= n
          invariant NewVertex(vertex, maxValue) == ScanZeros(matrix.cells, i, j)
        {
          if matrix.cells[i][j] == Fin(0) {
            var cost := matrix.GetVertexCost(i, j);
            if Lt(maxValue, cost) {
              maxValue := cost;
              vertex := Vertex(i, j);
            }
          }
          j := j + 1;
        }
        i := i + 1;
      }
      nv := NewVertex(vertex, maxValue);
      ChosenVertexProperties(matrix.cells);
    }

    /** Forbids row v.row, column v.col and the reverse edge (v.col, v.row). */
    method UpdateCostMatrix(v: Vertex)
      requires Valid() && InRange(v, |matrix.cells|)
      modifies matrix
      ensures Valid()
      ensures matrix.cells == Constrained(old(matrix.cells), v)
    {
      ghost var m0 := matrix.cells;
      ghost var target := Constrained(m0, v);
      var n := matrix.Size();
      var i := 0;
      while i < n
        invariant 0 <= i <= n && |matrix.cells| == n && IsSquare(matrix.cells)
        invariant forall r, c :: 0 <= r < n && 0 <= c < n ==>
                    matrix.cells[r][c] == if r < i && (r == v.row || c == v.col) then Inf else m0[r][c]
      {
        var j := 0;
        while j < n
          invariant 0 <= j <= n && |matrix.cells| == n && IsSquare(matrix.cells)
          invariant forall r, c :: 0 <= r < n && 0 <= c < n ==>
                      matrix.cells[r][c] ==
                        if (r < i || (r == i && c < j)) && (r == v.row || c == v.col) then Inf else m0[r][c]
        {
          if i == v.row || j == v.col {
            matrix.cells := matrix.cells[i := matrix.cells[i][j := Inf]];
          }
          j := j + 1;
        }
        i := i + 1;
      }
      matrix.cells := matrix.cells[v.col := matrix.cells[v.col][v.row := Inf]];
      assert forall r :: 0 <= r < n ==> matrix.cells[r] == target[r];
    }

    /** Row reduction then column reduction; returns the sum of all minima subtracted. */
    method ReduceCostMatrix() returns (sum: int)
      requires Valid()
      modifies matrix
      ensures Valid()
      ensures matrix.cells == ReducedCols(ReducedRows(old(matrix.cells)))
      ensures sum == Sum(RowMins(old(matrix.cells))) + Sum(ColMins(ReducedRows(old(matrix.cells))))
    {
      var sumR := matrix.ReduceRows();
      var sumC := matrix.ReduceCols();
      sum := sumC + sumR;
    }

    /**
     * Completes the tour at the last level: fixes one more edge as the edge
     * choice picks it, adds every cell still finite as a fixed edge, and
     * stitches the fixed edges into a vertex sequence.
     */
    method GetPath() returns (p: Option<seq<nat>>)
      requires Valid() && |matrix.cells| >= 1
      modifies this, matrix
      ensures Valid() && matrix == old(matrix) && lowerBound == old(lowerBound)
      ensures var v := ChosenVertex(old(matrix.cells)).coordinates;
        matrix.cells == Constrained(old(matrix.cells), v) &&
        unsortedPath == old(unsortedPath) + [v] + FiniteCells(matrix.cells)
      ensures p == Stitch(unsortedPath)
      ensures p.Some? ==> IsStitching(unsortedPath, p.value)
      ensures forall t :: IsCycleOrder(unsortedPath, t) ==> p == Some(t)
    {
      var vertex := ChooseNewVertex();
      AppendToPath(vertex.coordinates);
      UpdateCostMatrix(vertex.coordinates);
      ghost var base := unsortedPath;
      var n := matrix.Size();
      var i := 0;
      while i < n
        invariant 0 <= i <= n == |matrix.cells|
        invariant Valid() && matrix == old(matrix) && lowerBound == old(lowerBound)
        invariant matrix.cells == Constrained(old(matrix.cells), vertex.coordinates)
        invariant unsortedPath == base + FiniteCellsUpTo(matrix.cells, i, 0)
      {
        AppendFiniteRow(i, base);
        i := i + 1;
      }
      p := SortPath(unsortedPath);
    }

    /** The inner loop of `GetPath`: appends the finite cells of row `i`, left to right, as fixed edges. */
    method AppendFiniteRow(i: nat, ghost base: seq<Vertex>)
      requires Valid() && i < |matrix.cells|
      requires unsortedPath == base + FiniteCellsUpTo(matrix.cells, i, 0)
      modifies this
      ensures Valid() && matrix == old(matrix) && lowerBound == old(lowerBound)
      ensures unsortedPath == base + FiniteCellsUpTo(matrix.cells, i + 1, 0)
    {
      var n := matrix.Size();
      var j := 0;
      while j < n
        invariant 0 <= j <= n == |matrix.cells|
        invariant Valid() && matrix == old(matrix) && lowerBound == old(lowerBound)
        invariant unsortedPath == base + FiniteCellsUpTo(matrix.cells, i, j)
      {
        if matrix.cells[i][j] != Inf {
          AppendToPath(Vertex(i, j));
        }
        j := j + 1;
      }
    }
  }
}
