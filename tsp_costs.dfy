/**
 * The cost domain of the branch-and-bound TSP solver.
 *
 * The solver reserves one value of its cost type, INF, to mean "no edge" or
 * "forbidden edge". Here that value is an explicit constructor, so it can only
 * be compared and never takes part in arithmetic by accident.
 */
module TspCosts {

  /** A cell of a cost matrix: a finite cost or the INF sentinel. */
  datatype Cost = Inf | Fin(value: int)

  /** The `<` of the solver on costs: INF is larger than every finite cost. */
  predicate Lt(a: Cost, b: Cost) {
    match (a, b)
    case (Fin(x), Fin(y)) => x < y
    case (Fin(_), Inf) => true
    case (Inf, _) => false
  }

  /** `<=` on costs. */
  predicate Le(a: Cost, b: Cost) {
    !Lt(b, a)
  }

  /** Addition on costs; a sum that involves INF is INF. */
  function Plus(a: Cost, b: Cost): Cost {
    if a.Fin? && b.Fin? then Fin(a.value + b.value) else Inf
  }

  /** The value a minimum search reports for a row or column: 0 for INF. */
  function OrZero(c: Cost): int {
    if c.Inf? then 0 else c.value
  }

  /** A cost matrix, row by row. */
  type Matrix = seq<seq<Cost>>

  predicate IsSquare(m: Matrix) {
    forall i :: 0 <= i < |m| ==> |m[i]| == |m|
  }

  /** Every finite cell is non-negative. */
  predicate NonNegative(m: Matrix) {
    forall i, j :: 0 <= i < |m| && 0 <= j < |m[i]| && m[i][j].Fin? ==> m[i][j].value >= 0
  }

  /** Column `j` of `m`, top to bottom. */
  function Column(m: Matrix, j: nat): (c: seq<Cost>)
    requires IsSquare(m) && j < |m|
    ensures |c| == |m| && forall i :: 0 <= i < |m| ==> c[i] == m[i][j]
  {
    seq(|m|, i requires 0 <= i < |m| => m[i][j])
  }

  /**
   * The running minimum of the solver's scans: start from INF and, walking
   * over s[0], ..., s[k-1] from the left, keep every element that is strictly
   * smaller than the current minimum, passing over the position `skip`
   * (a negative `skip` passes over nothing).
   */
  function MinSkipping(s: seq<Cost>, skip: int, k: nat): Cost
    requires k <= |s|
  {
    if k == 0 then Inf
    else
      var m := MinSkipping(s, skip, k - 1);
      if k - 1 != skip && Lt(s[k - 1], m) then s[k - 1] else m
  }

  /** The minimum of a whole sequence, INF when it holds no finite cost. */
  function MinOf(s: seq<Cost>): Cost {
    MinSkipping(s, -1, |s|)
  }

  /** Sum of a sequence of integers, accumulated from the left. */
  function Sum(s: seq<int>): int {
    if s == [] then 0 else Sum(s[..|s| - 1]) + s[|s| - 1]
  }

  /**
   * The running minimum is a true minimum: it is no larger than any element
   * it looked at, it is one of them unless it is INF, and it is INF exactly
   * when every element it looked at is INF.
   */
  lemma {:induction false} MinSkippingIsMinimum(s: seq<Cost>, skip: int, k: nat)
    requires k <= |s|
    ensures forall l :: 0 <= l < k && l != skip ==> Le(MinSkipping(s, skip, k), s[l])
    ensures MinSkipping(s, skip, k) != Inf ==>
              exists l :: 0 <= l < k && l != skip && s[l] == MinSkipping(s, skip, k)
    ensures MinSkipping(s, skip, k) == Inf <==> forall l :: 0 <= l < k && l != skip ==> s[l] == Inf
  {
    if k > 0 {
      MinSkippingIsMinimum(s, skip, k - 1);
    }
  }

  /** The running minimum never looks at the skipped position. */
  lemma {:induction false} MinSkippingIgnoresSkipped(s: seq<Cost>, t: seq<Cost>, skip: int, k: nat)
    requires k <= |s| && |s| == |t|
    requires forall l :: 0 <= l < |s| && l != skip ==> s[l] == t[l]
    ensures MinSkipping(s, skip, k) == MinSkipping(t, skip, k)
  {
    if k > 0 {
      MinSkippingIgnoresSkipped(s, t, skip, k - 1);
    }
  }

  /** Le is transitive, and Lt followed by Le is Lt. */
  lemma LeTransitive(a: Cost, b: Cost, c: Cost)
    ensures Le(a, b) && Le(b, c) ==> Le(a, c)
    ensures Lt(a, b) && Le(b, c) ==> Lt(a, c)
    ensures Le(a, b) && Lt(b, c) ==> Lt(a, c)
  {
  }
}
