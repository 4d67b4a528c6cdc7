/**
 * The cost matrix of the solver: row and column minima, row and column
 * reduction, and the exclusion cost of a cell.
 */
module TspCostMatrix {
  import opened TspCosts

  /** What the row-minimum scan reports: per row its minimum finite cost, 0 for an all-INF row. */
  function RowMins(m: Matrix): seq<int> {
    seq(|m|, i requires 0 <= i < |m| => OrZero(MinOf(m[i])))
  }

  /** What the column-minimum scan reports, per column. */
  function ColMins(m: Matrix): seq<int>
    requires IsSquare(m)
  {
    seq(|m|, j requires 0 <= j < |m| => OrZero(MinOf(Column(m, j))))
  }

  /** A cell after `d` has been subtracted from it; INF stays INF. */
  function SubtractFinite(c: Cost, d: int): Cost {
    if c.Inf? then Inf else Fin(c.value - d)
  }

  /** The matrix after row reduction: each row's minimum subtracted from its finite cells. */
  function ReducedRows(m: Matrix): Matrix
    requires IsSquare(m)
  {
    var mins := RowMins(m);
    seq(|m|, i requires 0 <= i < |m| =>
      seq(|m|, j requires 0 <= j < |m| => SubtractFinite(m[i][j], mins[i])))
  }

  /** The matrix after column reduction. */
  function ReducedCols(m: Matrix): Matrix
    requires IsSquare(m)
  {
    var mins := ColMins(m);
    seq(|m|, i requires 0 <= i < |m| =>
      seq(|m|, j requires 0 <= j < |m| => SubtractFinite(m[i][j], mins[j])))
  }

  /** The minimum of row `row` over every column except `col`. */
  function RowMinExcept(m: Matrix, row: nat, col: nat): Cost
    requires IsSquare(m) && row < |m|
  {
    MinSkipping(m[row], col, |m|)
  }

  /** The minimum of column `col` over every row except `row`. */
  function ColMinExcept(m: Matrix, row: nat, col: nat): Cost
    requires IsSquare(m) && col < |m|
  {
    MinSkipping(Column(m, col), row, |m|)
  }

  /** The exclusion cost of cell (row, col), column part first as the solver adds them. */
  function VertexCost(m: Matrix, row: nat, col: nat): Cost
    requires IsSquare(m) && row < |m| && col < |m|
  {
    Plus(ColMinExcept(m, row, col), RowMinExcept(m, row, col))
  }

  predicate RowHasFinite(m: Matrix, i: nat)
    requires IsSquare(m) && i < |m|
  {
    exists j :: 0 <= j < |m| && m[i][j].Fin?
  }

  predicate RowHasZero(m: Matrix, i: nat)
    requires IsSquare(m) && i < |m|
  {
    exists j :: 0 <= j < |m| && m[i][j] == Fin(0)
  }

  predicate ColHasFinite(m: Matrix, j: nat)
    requires IsSquare(m) && j < |m|
  {
    exists i :: 0 <= i < |m| && m[i][j].Fin?
  }

  predicate ColHasZero(m: Matrix, j: nat)
    requires IsSquare(m) && j < |m|
  {
    exists i :: 0 <= i < |m| && m[i][j] == Fin(0)
  }

  /**
   * Each reported row minimum is the minimum finite cost of its row, and 0
   * when the row holds no finite cost.
   */
  lemma RowMinsAreMinima(m: Matrix, i: nat)
    requires IsSquare(m) && i < |m|
    ensures |RowMins(m)| == |m|
    ensures !RowHasFinite(m, i) ==> RowMins(m)[i] == 0
    ensures forall j :: 0 <= j < |m| && m[i][j].Fin? ==> RowMins(m)[i] <= m[i][j].value
    ensures RowHasFinite(m, i) ==> exists j :: 0 <= j < |m| && m[i][j] == Fin(RowMins(m)[i])
  {
    MinSkippingIsMinimum(m[i], -1, |m|);
  }

  /** Each reported column minimum is the minimum finite cost of its column, 0 when there is none. */
  lemma ColMinsAreMinima(m: Matrix, j: nat)
    requires IsSquare(m) && j < |m|
    ensures |ColMins(m)| == |m|
    ensures !ColHasFinite(m, j) ==> ColMins(m)[j] == 0
    ensures forall i :: 0 <= i < |m| && m[i][j].Fin? ==> ColMins(m)[j] <= m[i][j].value
    ensures ColHasFinite(m, j) ==> exists i :: 0 <= i < |m| && m[i][j] == Fin(ColMins(m)[j])
  {
    var c := Column(m, j);
    MinSkippingIsMinimum(c, -1, |m|);
    if ColHasFinite(m, j) {
      var i :| 0 <= i < |m| && m[i][j].Fin?;
      assert c[i] != Inf;
    }
  }

  /**
   * Row reduction leaves INF cells alone, subtracts the row minimum from
   * every finite cell, keeps non-negative cells non-negative and leaves a
   * zero in every row that holds a finite cost.
   */
  lemma ReducedRowsProperties(m: Matrix)
    requires IsSquare(m)
    ensures var r := ReducedRows(m);
      IsSquare(r) && |r| == |m| &&
      (forall i, j :: 0 <= i < |m| && 0 <= j < |m| ==>
         (r[i][j] == Inf <==> m[i][j] == Inf) &&
         (m[i][j].Fin? ==> r[i][j] == Fin(m[i][j].value - RowMins(m)[i]))) &&
      (NonNegative(m) ==> NonNegative(r)) &&
      (forall i :: 0 <= i < |m| && RowHasFinite(m, i) ==> RowHasZero(r, i))
  {
    var r: Matrix := ReducedRows(m);
    forall i | 0 <= i < |m|
      ensures NonNegative(m) ==> forall j :: 0 <= j < |m| && r[i][j].Fin? ==> r[i][j].value >= 0
      ensures RowHasFinite(m, i) ==> RowHasZero(r, i)
    {
      RowMinsAreMinima(m, i);
      if RowHasFinite(m, i) {
        var j :| 0 <= j < |m| && m[i][j] == Fin(RowMins(m)[i]);
        assert r[i][j] == Fin(0);
      }
    }
  }

  /** Column reduction: the same four facts, column by column. */
  lemma ReducedColsProperties(m: Matrix)
    requires IsSquare(m)
    ensures var r := ReducedCols(m);
      IsSquare(r) && |r| == |m| &&
      (forall i, j :: 0 <= i < |m| && 0 <= j < |m| ==>
         (r[i][j] == Inf <==> m[i][j] == Inf) &&
         (m[i][j].Fin? ==> r[i][j] == Fin(m[i][j].value - ColMins(m)[j]))) &&
      (NonNegative(m) ==> NonNegative(r)) &&
      (forall j :: 0 <= j < |m| && ColHasFinite(m, j) ==> ColHasZero(r, j))
  {
    var r: Matrix := ReducedCols(m);
    if NonNegative(m) {
      forall i, j | 0 <= i < |m| && 0 <= j < |m| && r[i][j].Fin?
        ensures r[i][j].value >= 0
      {
        ColMinsAreMinima(m, j);
      }
    }
    forall j | 0 <= j < |m|
      ensures ColHasFinite(m, j) ==> ColHasZero(r, j)
    {
      ColMinsAreMinima(m, j);
      if ColHasFinite(m, j) {
        var i :| 0 <= i < |m| && m[i][j] == Fin(ColMins(m)[j]);
        assert r[i][j] == Fin(0);
      }
    }
  }

  /**
   * A zero that row reduction left in a non-negative matrix survives column
   * reduction, because its column's minimum is then 0.
   */
  lemma ZeroSurvivesColumnReduction(m: Matrix, i: nat, j: nat)
    requires IsSquare(m) && NonNegative(m) && i < |m| && j < |m| && m[i][j] == Fin(0)
    ensures ColMins(m)[j] == 0 && ReducedCols(m)[i][j] == Fin(0)
  {
    ColMinsAreMinima(m, j);
    assert ColHasFinite(m, j);
  }

  /**
   * Row reduction followed by column reduction of a non-negative matrix
   * keeps it non-negative, keeps its INF cells, and leaves a zero in every
   * row and every column that holds a finite cost.
   */
  lemma ReducedMatrixProperties(m: Matrix)
    requires IsSquare(m) && NonNegative(m)
    ensures var r := ReducedCols(ReducedRows(m));
      IsSquare(r) && |r| == |m| && NonNegative(r) &&
      (forall i, j :: 0 <= i < |m| && 0 <= j < |m| ==> (r[i][j] == Inf <==> m[i][j] == Inf)) &&
      (forall i :: 0 <= i < |m| && RowHasFinite(m, i) ==> RowHasZero(r, i)) &&
      (forall j :: 0 <= j < |m| && ColHasFinite(m, j) ==> ColHasZero(r, j))
  {
    var rr := ReducedRows(m);
    ReducedRowsProperties(m);
    ReducedColsProperties(rr);
    var r := ReducedCols(rr);
    forall i | 0 <= i < |m| && RowHasFinite(m, i)
      ensures RowHasZero(r, i)
    {
      var j :| 0 <= j < |m| && rr[i][j] == Fin(0);
      ZeroSurvivesColumnReduction(rr, i, j);
    }
    forall j | 0 <= j < |m| && ColHasFinite(m, j)
      ensures ColHasFinite(rr, j)
    {
      var i :| 0 <= i < |m| && m[i][j].Fin?;
      assert rr[i][j].Fin?;
    }
  }

  /**
   * The exclusion cost of (row, col) is the minimum of the row without that
   * cell plus the minimum of the column without that cell: each part is no
   * larger than any other cell of its line, attained unless INF, and INF
   * exactly when the rest of its line is INF.
   */
  lemma VertexCostIsExclusionMinimum(m: Matrix, row: nat, col: nat)
    requires IsSquare(m) && row < |m| && col < |m|
    ensures VertexCost(m, row, col) == Plus(ColMinExcept(m, row, col), RowMinExcept(m, row, col))
    ensures forall j :: 0 <= j < |m| && j != col ==> Le(RowMinExcept(m, row, col), m[row][j])
    ensures forall i :: 0 <= i < |m| && i != row ==> Le(ColMinExcept(m, row, col), m[i][col])
    ensures RowMinExcept(m, row, col) != Inf ==>
              exists j :: 0 <= j < |m| && j != col && m[row][j] == RowMinExcept(m, row, col)
    ensures ColMinExcept(m, row, col) != Inf ==>
              exists i :: 0 <= i < |m| && i != row && m[i][col] == ColMinExcept(m, row, col)
    ensures RowMinExcept(m, row, col) == Inf <==> forall j :: 0 <= j < |m| && j != col ==> m[row][j] == Inf
    ensures ColMinExcept(m, row, col) == Inf <==> forall i :: 0 <= i < |m| && i != row ==> m[i][col] == Inf
  {
    MinSkippingIsMinimum(m[row], col, |m|);
    MinSkippingIsMinimum(Column(m, col), row, |m|);
  }

  /** The exclusion cost of (row, col) does not depend on cell (row, col) itself. */
  lemma VertexCostIgnoresCell(m: Matrix, row: nat, col: nat, x: Cost)
    requires IsSquare(m) && row < |m| && col < |m|
    ensures var m' := m[row := m[row][col := x]];
      IsSquare(m') && VertexCost(m', row, col) == VertexCost(m, row, col)
  {
    var m' := m[row := m[row][col := x]];
    MinSkippingIgnoresSkipped(m'[row], m[row], col, |m|);
    MinSkippingIgnoresSkipped(Column(m', col), Column(m, col), row, |m|);
  }

  /** A square cost matrix whose cells the solver rewrites in place. */
  class CostMatrix {
    var cells: Matrix

    ghost predicate Valid()
      reads this
    {
      IsSquare(cells)
    }

    /** The number of rows (and of columns). */
    function Size(): nat
      reads this
    {
      |cells|
    }

    constructor (m: Matrix)
      requires IsSquare(m)
      ensures Valid() && cells == m
    {
      cells := m;
    }

    /** The minimum of every row, by a running-minimum scan per row. */
    method GetMinValuesInRows() returns (mins: seq<int>)
      requires Valid()
      ensures mins == RowMins(cells)
    {
      mins := [];
      var i := 0;
      while i < |cells|
        invariant 0 <= i <= |cells|
        invariant mins == RowMins(cells)[..i]
      {
        var row := cells[i];
        var minValue := Inf;
        var j := 0;
        while j < |row|
          invariant 0 <= j <= |row|
          invariant minValue == MinSkipping(row, -1, j)
        {
          if Lt(row[j], minValue) {
            minValue := row[j];
          }
          j := j + 1;
        }
        if minValue == Inf {
          minValue := Fin(0);
        }
        mins := mins + [minValue.value];
        i := i + 1;
      }
    }

    /** The inner loop of `ReduceRows`: subtracts `d` from the finite cells of row `i`. */
    method SubtractFromRow(i: nat, d: int)
      requires Valid() && i < |cells|
      modifies this
      ensures Valid() && |cells| == old(|cells|)
      ensures forall r, c :: 0 <= r < |cells| && 0 <= c < |cells| ==>
                cells[r][c] == if r == i then SubtractFinite(old(cells)[r][c], d) else old(cells)[r][c]
    {
      ghost var m1 := cells;
      var n := |cells|;
      var j := 0;
      while j < n
        invariant 0 <= j <= n && |cells| == n && IsSquare(cells)
        invariant forall r, c :: 0 <= r < n && 0 <= c < n ==>
                    cells[r][c] == if r == i && c < j then SubtractFinite(m1[r][c], d) else m1[r][c]
      {
        if cells[i][j] != Inf {
          cells := cells[i := cells[i][j := Fin(cells[i][j].value - d)]];
        }
        j := j + 1;
      }
    }

    /** The inner loop of `ReduceCols`: subtracts `d` from the finite cells of column `j`. */
    method SubtractFromCol(j: nat, d: int)
      requires Valid() && j < |cells|
      modifies this
      ensures Valid() && |cells| == old(|cells|)
      ensures forall r, c :: 0 <= r < |cells| && 0 <= c < |cells| ==>
                cells[r][c] == if c == j then SubtractFinite(old(cells)[r][c], d) else old(cells)[r][c]
    {
      ghost var m1 := cells;
      var n := |cells|;
      var i := 0;
      while i < n
        invariant 0 <= i <= n && |cells| == n && IsSquare(cells)
        invariant forall r, c :: 0 <= r < n && 0 <= c < n ==>
                    cells[r][c] == if c == j && r < i then SubtractFinite(m1[r][c], d) else m1[r][c]
      {
        if cells[i][j] != Inf {
          cells := cells[i := cells[i][j := Fin(cells[i][j].value - d)]];
        }
        i := i + 1;
      }
    }

    /** Subtracts each row's minimum from its finite cells; returns the sum of the minima. */
    method ReduceRows() returns (sum: int)
      requires Valid()
      modifies this
      ensures Valid()
      ensures cells == ReducedRows(old(cells))
      ensures sum == Sum(RowMins(old(cells)))
    {
      sum := 0;
      var minVector := GetMinValuesInRows();
      ghost var m0 := cells;
      ghost var target := ReducedRows(m0);
      var n := |cells|;
      var i := 0;
      while i < n
        invariant 0 <= i <= n && |cells| == n && IsSquare(cells)
        invariant forall r, c :: 0 <= r < n && 0 <= c < n ==>
                    cells[r][c] == if r < i then target[r][c] else m0[r][c]
        invariant sum == Sum(minVector[..i])
      {
        SubtractFromRow(i, minVector[i]);
        assert minVector[..i + 1][..i] == minVector[..i];
        sum := sum + minVector[i];
        i := i + 1;
      }
      assert minVector[..n] == minVector;
      assert forall r :: 0 <= r < n ==> cells[r] == target[r];
    }

    /** The minimum of every column, by a running-minimum scan per column. */
    method GetMinValuesInCols() returns (mins: seq<int>)
      requires Valid()
      ensures mins == ColMins(cells)
    {
      mins := [];
      var n := |cells|;
      var j := 0;
      while j < n
        invariant 0 <= j <= n
        invariant mins == ColMins(cells)[..j]
      {
        ghost var col := Column(cells, j);
        var minValue := Inf;
        var i := 0;
        while i < n
          invariant 0 <= i <= n
          invariant minValue == MinSkipping(col, -1, i)
        {
          if Lt(cells[i][j], minValue) {
            minValue := cells[i][j];
          }
          i := i + 1;
        }
        if minValue == Inf {
          minValue := Fin(0);
        }
        mins := mins + [minValue.value];
        j := j + 1;
      }
    }

    /** Subtracts each column's minimum from its finite cells; returns the sum of the minima. */
    method ReduceCols() returns (sum: int)
      requires Valid()
      modifies this
      ensures Valid()
      ensures cells == ReducedCols(old(cells))
      ensures sum == Sum(ColMins(old(cells)))
    {
      sum := 0;
      var minVector := GetMinValuesInCols();
      ghost var m0 := cells;
      ghost var target := ReducedCols(m0);
      var n := |cells|;
      var j := 0;
      while j < n
        invariant 0 <= j <= n && |cells| == n && IsSquare(cells)
        invariant forall r, c :: 0 <= r < n && 0 <= c < n ==>
                    cells[r][c] == if c < j then target[r][c] else m0[r][c]
        invariant sum == Sum(minVector[..j])
      {
        SubtractFromCol(j, minVector[j]);
        assert minVector[..j + 1][..j] == minVector[..j];
        sum := sum + minVector[j];
        j := j + 1;
      }
      assert minVector[..n] == minVector;
      assert forall r :: 0 <= r < n ==> cells[r] == target[r];
    }

    /**
     * The cost of not taking edge (row, col): the minimum of row `row`
     * without column `col` plus the minimum of column `col` without row `row`.
     */
    method GetVertexCost(row: nat, col: nat) returns (cost: Cost)
      requires Valid() && row < |cells| && col < |cells|
      ensures cost == VertexCost(cells, row, col)
    {
      var n := |cells|;
      var minValueR := Inf;
      var minValueC := Inf;
      var j := 0;
      while j < n
        invariant 0 <= j <= n
        invariant minValueR == MinSkipping(cells[row], col, j)
      {
        if j != col {
          if Lt(cells[row][j], minValueR) {
            minValueR := cells[row][j];
          }
        }
        j := j + 1;
      }
      ghost var column := Column(cells, col);
      var i := 0;
      while i < n
        invariant 0 <= i <= n
        invariant minValueC == MinSkipping(column, row, i)
      {
        if i != row {
          if Lt(cells[i][col], minValueC) {
            minValueC := cells[i][col];
          }
        }
        i := i + 1;
      }
      cost := Plus(minValueC, minValueR);
    }
  }
}
