/**
 * In-place quicksort with a Hoare-style partition around the middle
 * element, and bubblesort on a copy with a last-swap boundary and a
 * comparison counter.
 */
module Sorting {

  predicate Sorted(s: seq<int>) {
    forall k, l :: 0 <= k < l < |s| ==> s[k] <= s[l]
  }

  /** a[lo..hi) is in non-decreasing order (vacuous when hi <= lo). */
  predicate SortedRange(a: seq<int>, lo: int, hi: int)
    requires 0 <= lo && hi <= |a|
  {
    forall k, l :: lo <= k < l < hi ==> a[k] <= a[l]
  }

  /** `a` and `b` agree everywhere except on the closed range [lo, hi]. */
  predicate SameOutside(a: seq<int>, b: seq<int>, lo: int, hi: int) {
    |a| == |b| && forall k :: 0 <= k < |a| && (k < lo || hi < k) ==> a[k] == b[k]
  }

  lemma SortedRangeSlice(a: seq<int>, lo: int, hi: int)
    requires 0 <= lo <= hi <= |a|
    ensures Sorted(a[lo..hi]) <==> SortedRange(a, lo, hi)
  {
    if Sorted(a[lo..hi]) {
      forall k, l | lo <= k < l < hi
        ensures a[k] <= a[l]
      {
        assert a[k] == a[lo..hi][k - lo] && a[l] == a[lo..hi][l - lo];
      }
    }
  }

  lemma SwapPermutes(s: seq<int>, x: int, y: int)
    requires 0 <= x < |s| && 0 <= y < |s|
    ensures multiset(s[x := s[y]][y := s[x]]) == multiset(s)
  {
  }

  /** Two sequences that agree outside [lo, hi] and are permutations of each other permute [lo, hi] too. */
  lemma SegmentPerm(a: seq<int>, b: seq<int>, lo: int, hi: int)
    requires 0 <= lo <= hi + 1 <= |a|
    requires SameOutside(a, b, lo, hi) && multiset(a) == multiset(b)
    ensures multiset(a[lo..hi + 1]) == multiset(b[lo..hi + 1])
  {
    assert a == a[..lo] + a[lo..hi + 1] + a[hi + 1..];
    assert b == b[..lo] + b[lo..hi + 1] + b[hi + 1..];
    assert a[..lo] == b[..lo];
    assert a[hi + 1..] == b[hi + 1..];
    assert multiset(a) == multiset(a[..lo]) + multiset(a[lo..hi + 1]) + multiset(a[hi + 1..]);
    assert multiset(b) == multiset(b[..lo]) + multiset(b[lo..hi + 1]) + multiset(b[hi + 1..]);
    assert multiset(a[lo..hi + 1]) == multiset(a) - multiset(a[..lo]) - multiset(a[hi + 1..]);
  }

  /** Every element of a[lo..hi) is at most `p`. */
  lemma SliceBelow(a: seq<int>, lo: int, hi: int, p: int)
    requires 0 <= lo <= hi <= |a| && Below(a, lo, hi, p)
    ensures forall e :: e in multiset(a[lo..hi]) ==> e <= p
  {
    forall e | e in multiset(a[lo..hi])
      ensures e <= p
    {
      var idx :| 0 <= idx < hi - lo && a[lo..hi][idx] == e;
      assert a[lo + idx] == e;
    }
  }

  /** Every element of a[lo..hi) is at least `p`. */
  lemma SliceAbove(a: seq<int>, lo: int, hi: int, p: int)
    requires 0 <= lo <= hi <= |a| && Above(a, lo, hi, p)
    ensures forall e :: e in multiset(a[lo..hi]) ==> p <= e
  {
    forall e | e in multiset(a[lo..hi])
      ensures p <= e
    {
      var idx :| 0 <= idx < hi - lo && a[lo..hi][idx] == e;
      assert a[lo + idx] == e;
    }
  }

  /** An element at position k of a[lo..hi) lies in the multiset of the slice. */
  lemma InSlice(a: seq<int>, lo: int, hi: int, k: int)
    requires 0 <= lo <= k < hi <= |a|
    ensures a[k] in multiset(a[lo..hi])
  {
    assert a[lo..hi][k - lo] == a[k];
  }

  /** A value found at two positions occurs at least twice. */
  lemma TwoPositions(s: seq<int>, k: int, l: int)
    requires 0 <= k < l < |s| && s[k] == s[l]
    ensures multiset(s)[s[k]] >= 2
  {
    assert s == s[..l] + [s[l]] + s[l + 1..];
    assert s[..l][k] == s[k];
    assert s[k] in multiset(s[..l]);
  }

  /**
   * A sorted permutation of `L + [x]`, where every element of `L` is at
   * most `p`, has every element but its last at most `p`: only `x` can
   * exceed `p`, and a sorted sequence keeps its largest element last.
   */
  lemma SortedPrefixBelow(t: seq<int>, L: seq<int>, x: int, p: int)
    requires Sorted(t) && |t| >= 1 && multiset(t) == multiset(L + [x])
    requires forall e :: e in multiset(L) ==> e <= p
    ensures forall k :: 0 <= k < |t| - 1 ==> t[k] <= p
  {
    assert multiset(L + [x]) == multiset(L) + multiset{x};
    forall k | 0 <= k < |t| - 1
      ensures t[k] <= p
    {
      var last := |t| - 1;
      if t[k] > p {
        assert t[k] in multiset(t) && t[last] in multiset(t);
        assert t[k] == x && t[last] == x;
        TwoPositions(t, k, last);
        assert false;
      }
    }
  }

  /** Every element of s[lo..hi) is at most `p`. */
  predicate Below(s: seq<int>, lo: int, hi: int, p: int)
    requires 0 <= lo && hi <= |s|
  {
    forall k :: lo <= k < hi ==> s[k] <= p
  }

  /** Every element of s[lo..hi) is at least `p`. */
  predicate Above(s: seq<int>, lo: int, hi: int, p: int)
    requires 0 <= lo && hi <= |s|
  {
    forall k :: lo <= k < hi ==> p <= s[k]
  }

  /**
   * Between rounds of the partition loop on s0[start..stop] around the
   * pivot `p` found at `mid`: everything before `i` is at most `p`,
   * everything after `j` at least `p`, only [start, stop] has been
   * permuted, and either nothing has moved yet or both ends have.
   */
  predicate PartitionInv(s: seq<int>, s0: seq<int>, start: int, stop: int, mid: int, p: int, i: int, j: int) {
    0 <= start <= mid <= stop < |s| &&
    start <= i <= stop + 1 && start - 1 <= j <= stop &&
    ((i == start && j == stop && s[mid] == p) || (start < i && j < stop)) &&
    Below(s, start, i, p) && Above(s, j + 1, stop + 1, p) &&
    SameOutside(s, s0, start, stop) && multiset(s) == multiset(s0)
  }

  /** Swapping the elements the two scans stopped at, and stepping past them, keeps the invariant. */
  lemma SwapStep(s: seq<int>, s0: seq<int>, start: int, stop: int, mid: int, p: int, i0: int, j0: int, i: int, j: int)
    requires PartitionInv(s, s0, start, stop, mid, p, i0, j0) && i0 < j0
    requires i0 <= i <= j <= j0 && p <= s[i] && s[j] <= p
    requires Below(s, start, i, p) && Above(s, j + 1, stop + 1, p)
    ensures PartitionInv(s[i := s[j]][j := s[i]], s0, start, stop, mid, p, i + 1, j - 1)
  {
    SwapPermutes(s, i, j);
  }

  /** Scans that crossed without a swap leave the invariant in place. */
  lemma CrossedStep(s: seq<int>, s0: seq<int>, start: int, stop: int, mid: int, p: int, i0: int, j0: int, i: int, j: int)
    requires PartitionInv(s, s0, start, stop, mid, p, i0, j0) && i0 < j0
    requires i0 <= i <= stop && start <= j <= j0 && j < i
    requires (i0 == start && j0 == stop) ==> i <= mid <= j
    requires Below(s, start, i, p) && Above(s, j + 1, stop + 1, p)
    ensures PartitionInv(s, s0, start, stop, mid, p, i, j)
  {
  }

  /**
   * The partition loop: from both ends towards the middle, `i` skips
   * elements below the pivot and `j` elements above it, and the pair they
   * stop at is swapped. On exit everything before `i` is at most the pivot,
   * everything after `j` at least the pivot, and `j <= i`; on a range of two
   * or more elements both recursive ranges are strictly smaller. The scans
   * read nothing outside [start, stop].
   */
  method Partition(a: array<int>, start: int, stop: int) returns (i: int, j: int, pivot: int)
    requires 0 <= start <= stop < a.Length
    modifies a
    ensures start <= i <= stop + 1 && start - 1 <= j <= stop && j <= i
    ensures start < stop ==> start < i && j < stop
    ensures Below(a[..], start, i, pivot) && Above(a[..], j + 1, stop + 1, pivot)
    ensures SameOutside(a[..], old(a[..]), start, stop)
    ensures multiset(a[..]) == multiset(old(a[..]))
  {
    ghost var s0 := a[..];
    i, j := start, stop;
    var mid := (start + stop) / 2;
    pivot := a[mid];
    while i < j
      invariant PartitionInv(a[..], s0, start, stop, mid, pivot, i, j)
      decreases j - i + stop - start + 2
    {
      ghost var s := a[..];
      ghost var i0, j0 := i, j;
      ghost var first := i == start && j == stop;
      while a[i] < pivot
        invariant i0 <= i <= (if first then mid else stop)
        invariant Below(s, start, i, pivot)
        decreases stop - i
      {
        i := i + 1;
      }
      while a[j] > pivot
        invariant (if first then mid else start) <= j <= j0
        invariant Above(s, j + 1, stop + 1, pivot)
        decreases j
      {
        j := j - 1;
      }
      if i <= j {
        a[i], a[j] := a[j], a[i];
        assert a[..] == s[i := s[j]][j := s[i]];
        SwapStep(s, s0, start, stop, mid, pivot, i0, j0, i, j);
        i := i + 1;
        j := j - 1;
      } else {
        CrossedStep(s, s0, start, stop, mid, pivot, i0, j0, i, j);
      }
    }
  }

  /**
   * Sorting [start, j] and then [i, stop] after a partition sorts
   * [start, stop]. When `j < i` the two ranges are disjoint and what lies
   * between them equals the pivot; when `i == j` they share one element,
   * which the first sort moves to the top of its range.
   */
  lemma SortedAfterPartition(A1: seq<int>, A2: seq<int>, A3: seq<int>, start: int, stop: int, i: int, j: int, p: int)
    requires |A1| == |A2| == |A3| && 0 <= start <= stop < |A1|
    requires start <= i <= stop + 1 && start - 1 <= j <= stop && j <= i
    requires Below(A1, start, i, p) && Above(A1, j + 1, stop + 1, p)
    requires SameOutside(A2, A1, start, j) && multiset(A2) == multiset(A1) && SortedRange(A2, start, j + 1)
    requires SameOutside(A3, A2, i, stop) && multiset(A3) == multiset(A2) && SortedRange(A3, i, stop + 1)
    ensures SortedRange(A3, start, stop + 1)
  {
    if j < i {
      DisjointHalves(A1, A2, A3, start, stop, i, j, p);
    } else {
      SharedMiddle(A1, A2, A3, start, stop, j, p);
    }
  }

  /** A bound on every element of a segment carries over to a permutation of the segment. */
  lemma PermBelow(a: seq<int>, b: seq<int>, lo: int, hi: int, p: int)
    requires 0 <= lo <= hi <= |a| == |b| && multiset(a[lo..hi]) == multiset(b[lo..hi])
    requires Below(b, lo, hi, p)
    ensures Below(a, lo, hi, p)
  {
    SliceBelow(b, lo, hi, p);
    forall k | lo <= k < hi
      ensures a[k] <= p
    {
      InSlice(a, lo, hi, k);
    }
  }

  lemma PermAbove(a: seq<int>, b: seq<int>, lo: int, hi: int, p: int)
    requires 0 <= lo <= hi <= |a| == |b| && multiset(a[lo..hi]) == multiset(b[lo..hi])
    requires Above(b, lo, hi, p)
    ensures Above(a, lo, hi, p)
  {
    SliceAbove(b, lo, hi, p);
    forall k | lo <= k < hi
      ensures p <= a[k]
    {
      InSlice(a, lo, hi, k);
    }
  }

  /** Two sorted blocks, the first at most `p` and the second at least `p`, make one sorted block. */
  lemma JoinAtPivot(s: seq<int>, lo: int, m: int, hi: int, p: int)
    requires 0 <= lo <= m <= hi <= |s|
    requires SortedRange(s, lo, m) && SortedRange(s, m, hi)
    requires Below(s, lo, m, p) && Above(s, m, hi, p)
    ensures SortedRange(s, lo, hi)
  {
    forall k, l | lo <= k < l < hi
      ensures s[k] <= s[l]
    {
      if k < m <= l {
        assert s[k] <= p <= s[l];
      }
    }
  }

  /** Elements the second sort did not touch keep their order and bound. */
  lemma LeftUntouched(A2: seq<int>, A3: seq<int>, start: int, m: int, i: int, stop: int, p: int)
    requires 0 <= start <= m <= i && m <= |A2| && SameOutside(A3, A2, i, stop)
    requires SortedRange(A2, start, m) && Below(A2, start, m, p)
    ensures SortedRange(A3, start, m) && Below(A3, start, m, p)
  {
    assert forall k :: start <= k < m ==> A3[k] == A2[k];
  }

  lemma DisjointHalves(A1: seq<int>, A2: seq<int>, A3: seq<int>, start: int, stop: int, i: int, j: int, p: int)
    requires |A1| == |A2| == |A3| && 0 <= start <= stop < |A1|
    requires start <= i <= stop + 1 && start - 1 <= j <= stop && j < i
    requires Below(A1, start, i, p) && Above(A1, j + 1, stop + 1, p)
    requires SameOutside(A2, A1, start, j) && multiset(A2) == multiset(A1) && SortedRange(A2, start, j + 1)
    requires SameOutside(A3, A2, i, stop) && multiset(A3) == multiset(A2) && SortedRange(A3, i, stop + 1)
    ensures SortedRange(A3, start, stop + 1)
  {
    SegmentPerm(A2, A1, start, j);
    PermBelow(A2, A1, start, j + 1, p);
    LeftUntouched(A2, A3, start, j + 1, i, stop, p);
    forall k | j < k < i
      ensures A3[k] == p
    {
      assert A3[k] == A2[k] == A1[k];
    }
    assert Above(A2, i, stop + 1, p) by {
      assert forall k :: i <= k <= stop ==> A2[k] == A1[k];
    }
    SegmentPerm(A3, A2, i, stop);
    PermAbove(A3, A2, i, stop + 1, p);
    JoinAtPivot(A3, start, j + 1, i, p);
    JoinAtPivot(A3, start, i, stop + 1, p);
  }

  lemma SharedMiddle(A1: seq<int>, A2: seq<int>, A3: seq<int>, start: int, stop: int, m: int, p: int)
    requires |A1| == |A2| == |A3| && 0 <= start <= m <= stop < |A1|
    requires Below(A1, start, m, p) && Above(A1, m + 1, stop + 1, p)
    requires SameOutside(A2, A1, start, m) && multiset(A2) == multiset(A1) && SortedRange(A2, start, m + 1)
    requires SameOutside(A3, A2, m, stop) && multiset(A3) == multiset(A2) && SortedRange(A3, m, stop + 1)
    ensures SortedRange(A3, start, stop + 1)
  {
    if start < m {
      SegmentPerm(A2, A1, start, m);
      SliceBelow(A1, start, m, p);
      assert A1[start..m + 1] == A1[start..m] + [A1[m]];
      SortedRangeSlice(A2, start, m + 1);
      SortedPrefixBelow(A2[start..m + 1], A1[start..m], A1[m], p);
      // the largest element left of m bounds the left block from above and the right block from below
      var q := A2[m - 1];
      assert q <= p by {
        assert q == A2[start..m + 1][m - 1 - start];
      }
      LeftUntouched(A2, A3, start, m, m, stop, q);
      assert Above(A2, m, stop + 1, q) by {
        assert forall k :: m < k <= stop ==> A2[k] == A1[k];
      }
      SegmentPerm(A3, A2, m, stop);
      PermAbove(A3, A2, m, stop + 1, q);
      JoinAtPivot(A3, start, m, stop + 1, q);
    }
  }

  lemma FrameChain(A0: seq<int>, A1: seq<int>, A2: seq<int>, A3: seq<int>, start: int, stop: int, i: int, j: int)
    requires start <= i && j <= stop
    requires SameOutside(A1, A0, start, stop) && SameOutside(A2, A1, start, j) && SameOutside(A3, A2, i, stop)
    ensures SameOutside(A3, A0, start, stop)
  {
  }

  /**
   * Sorts a[start..stop] in place, partitioning around the middle element
   * and recursing on both sides; the rest of the array is untouched and
   * the array's contents are a permutation of the old ones.
   */
  method Quicksort(a: array<int>, start: int, stop: int)
    requires 0 <= start <= stop < a.Length
    modifies a
    ensures Sorted(a[start..stop + 1])
    ensures multiset(a[..]) == multiset(old(a[..]))
    ensures SameOutside(a[..], old(a[..]), start, stop)
    decreases stop - start, 1
  {
    var i, j, pivot := Partition(a, start, stop);
    ghost var A1 := a[..];
    SortSide(a, start, j, stop - start);
    ghost var A2 := a[..];
    SortSide(a, i, stop, stop - start);
    ghost var A3 := a[..];
    SortedAfterPartition(A1, A2, A3, start, stop, i, j, pivot);
    FrameChain(old(a[..]), A1, A2, A3, start, stop, i, j);
    SortedRangeSlice(A3, start, stop + 1);
  }

  /**
   * One side after a partition: sorted by a recursive call when it has at
   * least two elements (`lo < hi`), left alone otherwise. `outer` is the
   * length bound of the range that was partitioned.
   */
  method SortSide(a: array<int>, lo: int, hi: int, ghost outer: int)
    requires 0 <= lo && lo - 1 <= hi < a.Length && (lo < hi ==> hi - lo < outer)
    modifies a
    ensures SameOutside(a[..], old(a[..]), lo, hi) && multiset(a[..]) == multiset(old(a[..]))
    ensures SortedRange(a[..], lo, hi + 1)
    decreases outer, 0
  {
    if lo < hi {
      Quicksort(a, lo, hi);
      SortedRangeSlice(a[..], lo, hi + 1);
    }
  }

  /** The most comparisons bubblesort can make on `n` elements: (n-1) + (n-2) + ... + 1. */
  function Pairs(n: int): nat
    decreases n
  {
    if n <= 1 then 0 else Pairs(n - 1) + (n - 1)
  }

  lemma {:induction false} PairsClosedForm(n: nat)
    ensures 2 * Pairs(n) == if n == 0 then 0 else n * (n - 1)
  {
    if n > 1 {
      PairsClosedForm(n - 1);
    }
  }

  lemma {:induction false} PairsMono(a: int, b: int)
    requires a <= b
    ensures Pairs(a) <= Pairs(b)
    decreases b - a
  {
    if a < b {
      PairsMono(a, b - 1);
    }
  }

  /** Nothing in s[..n) exceeds anything in s[n..). */
  predicate Split(s: seq<int>, n: int) {
    forall k, l :: 0 <= k < n <= l < |s| ==> s[k] <= s[l]
  }

  /**
   * Midway through a pass over s[..n) whose next comparison is at `i`:
   * s[i-1] is the largest of s[..i), s[newN..i) is sorted with nothing
   * before it larger, and the part from `n` on is as before the pass.
   */
  predicate PassInv(s: seq<int>, n: int, i: int, newN: int) {
    0 <= newN < i <= n <= |s| &&
    (forall k :: 0 <= k < i ==> s[k] <= s[i - 1]) &&
    SortedRange(s, newN, i) &&
    (forall k, l :: 0 <= k < newN <= l < i ==> s[k] <= s[l]) &&
    SortedRange(s, n, |s|) && Split(s, n)
  }

  /** Comparing an out-of-order pair at `i` and swapping it moves the boundary to `i`. */
  lemma PassSwapStep(s: seq<int>, n: int, i: int, newN: int)
    requires PassInv(s, n, i, newN) && i < n && s[i - 1] > s[i]
    ensures PassInv(s[i - 1 := s[i]][i := s[i - 1]], n, i + 1, i)
    ensures multiset(s[i - 1 := s[i]][i := s[i - 1]]) == multiset(s)
  {
    var t := s[i - 1 := s[i]][i := s[i - 1]];
    SwapPermutes(s, i - 1, i);
    forall k, l | 0 <= k < n <= l < |t|
      ensures t[k] <= t[l]
    {
      if k == i - 1 {
        assert t[k] == s[i];
      } else if k == i {
        assert t[k] == s[i - 1];
      }
    }
  }

  /** Comparing an ordered pair at `i` extends the sorted run. */
  lemma PassKeepStep(s: seq<int>, n: int, i: int, newN: int)
    requires PassInv(s, n, i, newN) && i < n && s[i - 1] <= s[i]
    ensures PassInv(s, n, i + 1, newN)
  {
  }

  /** At the end of a pass the sorted suffix starts at the last swap. */
  lemma PassDone(s: seq<int>, n: int, newN: int)
    requires PassInv(s, n, n, newN)
    ensures SortedRange(s, newN, |s|) && Split(s, newN)
  {
  }

  /** One comparison of a pass: swaps C[i-1] and C[i] when out of order and then records `i` as the last swap. */
  method CompareAdjacent(C: array<int>, ghost n: int, i: int, newN0: int, ghost cs0: seq<int>) returns (newN: int, ghost cs: seq<int>)
    requires C[..] == cs0 && PassInv(cs0, n, i, newN0) && i < n
    modifies C
    ensures C[..] == cs && PassInv(cs, n, i + 1, newN)
    ensures multiset(cs) == multiset(cs0)
    ensures Sorted(cs0) ==> newN == newN0 && cs == cs0
  {
    if C[i - 1] > C[i] {
      PassSwapStep(cs0, n, i, newN0);
      C[i - 1], C[i] := C[i], C[i - 1];
      cs := cs0[i - 1 := cs0[i]][i := cs0[i - 1]];
      assert C[..] == cs;
      newN := i;
    } else {
      PassKeepStep(cs0, n, i, newN0);
      newN, cs := newN0, cs0;
    }
  }

  /**
   * One pass over C[0..n): compares each adjacent pair once, swapping it
   * when out of order; `newN` is the position of the last swap (0 if
   * none). Afterwards C[newN..] is sorted with nothing before it larger.
   */
  method BubblePass(C: array<int>, n: int, d0: nat) returns (newN: int, d: nat)
    requires 1 < n <= C.Length && SortedRange(C[..], n, C.Length) && Split(C[..], n)
    modifies C
    ensures 0 <= newN < n && d == d0 + (n - 1)
    ensures multiset(C[..]) == multiset(old(C[..]))
    ensures SortedRange(C[..], newN, C.Length) && Split(C[..], newN)
    ensures Sorted(old(C[..])) ==> newN == 0 && C[..] == old(C[..])
  {
    newN, d := 0, d0;
    ghost var cs := C[..];
    for i := 1 to n
      invariant C[..] == cs
      invariant PassInv(cs, n, i, newN) && d == d0 + (i - 1)
      invariant multiset(cs) == multiset(old(C[..]))
      invariant Sorted(old(C[..])) ==> newN == 0 && cs == old(C[..])
    {
      d := d + 1;
      newN, cs := CompareAdjacent(C, n, i, newN, cs);
    }
    PassDone(cs, n, newN);
  }

  /**
   * Sorts a copy of `I`, which is left as it is, and counts the
   * comparisons: at most n(n-1)/2 of them, and exactly n-1 on sorted
   * input of n >= 1 elements.
   */
  method Bubblesort(I: array<int>) returns (C: array<int>, d: nat)
    ensures fresh(C) && Sorted(C[..]) && multiset(C[..]) == multiset(I[..])
    ensures 2 * d <= I.Length * (I.Length - 1)
    ensures Sorted(I[..]) ==> d == if I.Length > 1 then I.Length - 1 else 0
  {
    C := new int[I.Length](k reads I requires 0 <= k < I.Length => I[k]);
    assert C[..] == I[..];
    var n := C.Length;
    d := 0;
    while n > 1
      invariant 0 <= n <= C.Length && multiset(C[..]) == multiset(I[..])
      invariant SortedRange(C[..], n, C.Length) && Split(C[..], n)
      invariant d + Pairs(n) <= Pairs(C.Length)
      invariant Sorted(I[..]) ==> C[..] == I[..] && ((n == C.Length && d == 0) || (n == 0 && d == C.Length - 1))
      decreases n
    {
      var newN;
      newN, d := BubblePass(C, n, d);
      PairsMono(newN, n - 1);
      n := newN;
    }
    assert SortedRange(C[..], 0, C.Length);
    PairsClosedForm(C.Length);
  }
}
