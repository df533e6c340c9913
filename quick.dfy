/**
  Quick sort on an inclusive index range, with the swap helper and the two
  partition schemes it can use (Hoare with the first element as pivot,
  Lomuto with the last element as pivot), all working in place on an array.
*/
module QuickSorting {
  import opened Ordering

  /** Which partition scheme quick sort uses; the program as written uses Hoare. */
  datatype Scheme = Hoare | Lomuto

  /**
    Exchanges the elements at positions `i` and `j`. The exchange is skipped
    when the two positions coincide or hold equal values, which are exactly the
    cases where it would change nothing (Ordering.SwapIsIdentity).
  */
  method Swap(a: array<int>, i: int, j: int)
    requires 0 <= i < a.Length && 0 <= j < a.Length
    modifies a
    ensures a[..] == Swapped(old(a[..]), i, j)
  {
    if a[i] != a[j] && i != j {
      var temp := a[i];
      a[i] := a[j];
      a[j] := temp;
    } else {
      SwapIsIdentity(a[..], i, j);
    }
  }

  /**
    Hoare partition of `a[lo..hi]` (inclusive) around the pivot `a[lo]`:
    rounds of a left scan, a right scan and an exchange of the two elements
    they stop at, until the scans cross; then the pivot moves to where the
    right scan stopped.
  */
  method HoarePartition(a: array<int>, lo: int, hi: int) returns (p: int)
    requires 0 <= lo <= hi < a.Length
    modifies a
    ensures lo <= p <= hi
    ensures a[p] == old(a[lo])
    ensures forall k :: lo <= k < p ==> a[k] <= a[p]
    ensures forall k :: p < k <= hi ==> a[k] > a[p]
    ensures a[..lo] == old(a[..lo]) && a[hi + 1..] == old(a[hi + 1..])
    ensures multiset(a[..]) == multiset(old(a[..]))
  {
    var pivotIndex := lo;
    var pivot := a[pivotIndex];
    var startPointer := pivotIndex + 1;
    var endPointer := hi;
    // true when the previous round ended with an exchange: the two pointers
    // then rest on elements that the next scans are sure to step over
    ghost var exchanged := false;

    while startPointer <= endPointer
      invariant lo + 1 <= startPointer <= a.Length
      invariant lo <= endPointer <= hi
      invariant a[lo] == pivot
      invariant forall k :: lo < k < startPointer ==> a[k] <= pivot
      invariant forall k :: endPointer < k <= hi ==> a[k] > pivot
      invariant exchanged ==> startPointer < endPointer && a[startPointer] <= pivot < a[endPointer]
      invariant a[..lo] == old(a[..lo]) && a[hi + 1..] == old(a[hi + 1..])
      invariant multiset(a[..]) == multiset(old(a[..]))
      decreases 2 * (endPointer - startPointer) + (if exchanged then 0 else 1)
    {
      startPointer := ScanUp(a, startPointer, pivot);
      endPointer := ScanDown(a, lo, endPointer, pivot);
      if startPointer < endPointer {
        Swap(a, startPointer, endPointer);
        exchanged := true;
      } else {
        exchanged := false;
      }
    }
    Swap(a, pivotIndex, endPointer);
    p := endPointer;
  }

  /**
    The left scan of a Hoare round: from `start`, steps over elements at
    most the pivot. It is bounded by the array length only, so it can read
    past the partitioned range; it stops at the first element above the
    pivot, or at the end of the array.
  */
  method ScanUp(a: array<int>, start: int, pivot: int) returns (i: int)
    requires 0 <= start <= a.Length
    ensures start <= i <= a.Length
    ensures forall k :: start <= k < i ==> a[k] <= pivot
    ensures i < a.Length ==> a[i] > pivot
  {
    i := start;
    while i < a.Length && a[i] <= pivot
      invariant start <= i <= a.Length
      invariant forall k :: start <= k < i ==> a[k] <= pivot
    {
      i := i + 1;
    }
  }

  /**
    The right scan of a Hoare round: from `end`, steps down over elements
    above the pivot. It has no lower bound of its own: the element at `lo`,
    which is at most the pivot, stops it there at the latest.
  */
  method ScanDown(a: array<int>, lo: int, end: int, pivot: int) returns (j: int)
    requires 0 <= lo <= end < a.Length && a[lo] <= pivot
    ensures lo <= j <= end
    ensures a[j] <= pivot
    ensures forall k :: j < k <= end ==> a[k] > pivot
  {
    j := end;
    while a[j] > pivot
      invariant lo <= j <= end
      invariant forall k :: j < k <= end ==> a[k] > pivot
      decreases j
    {
      j := j - 1;
    }
  }

  /**
    Lomuto partition of `a[lo..hi]` (inclusive) around the pivot `a[hi]`:
    one forward scan moves every element at most the pivot in front of the
    boundary `partitionIndex`, and the pivot finally goes to the boundary.
  */
  method LomutoPartition(a: array<int>, lo: int, hi: int) returns (p: int)
    requires 0 <= lo <= hi < a.Length
    modifies a
    ensures lo <= p <= hi
    ensures a[p] == old(a[hi])
    ensures forall k :: lo <= k < p ==> a[k] <= a[p]
    ensures forall k :: p < k <= hi ==> a[k] > a[p]
    ensures a[..lo] == old(a[..lo]) && a[hi + 1..] == old(a[hi + 1..])
    ensures multiset(a[..]) == multiset(old(a[..]))
  {
    var pivot := a[hi];
    var partitionIndex := lo;
    for i := lo to hi
      invariant lo <= partitionIndex <= i
      invariant a[hi] == pivot
      invariant forall k :: lo <= k < partitionIndex ==> a[k] <= pivot
      invariant forall k :: partitionIndex <= k < i ==> a[k] > pivot
      invariant a[..lo] == old(a[..lo]) && a[hi + 1..] == old(a[hi + 1..])
      invariant multiset(a[..]) == multiset(old(a[..]))
    {
      if a[i] <= pivot {
        Swap(a, i, partitionIndex);
        partitionIndex := partitionIndex + 1;
      }
    }
    Swap(a, partitionIndex, hi);
    p := partitionIndex;
  }

  /** Partitions `a[lo..hi]` with the chosen scheme; both schemes meet one contract. */
  method Partition(a: array<int>, lo: int, hi: int, scheme: Scheme) returns (p: int)
    requires 0 <= lo <= hi < a.Length
    modifies a
    ensures lo <= p <= hi
    ensures a[p] == old(if scheme == Hoare then a[lo] else a[hi])
    ensures forall k :: lo <= k < p ==> a[k] <= a[p]
    ensures forall k :: p < k <= hi ==> a[k] > a[p]
    ensures a[..lo] == old(a[..lo]) && a[hi + 1..] == old(a[hi + 1..])
    ensures multiset(a[..]) == multiset(old(a[..]))
  {
    match scheme
    case Hoare => p := HoarePartition(a, lo, hi);
    case Lomuto => p := LomutoPartition(a, lo, hi);
  }

  /**
    The contents `c` are the contents `b` with the inclusive range `lo .. hi`
    sorted in place: if the range has at least two elements, it is sorted,
    holds the same elements as before and nothing outside it has moved;
    otherwise nothing has changed at all.
  */
  ghost predicate SortsRange(b: seq<int>, c: seq<int>, lo: int, hi: int) {
    if lo < hi then
      && 0 <= lo && hi < |b| == |c|
      && Sorted(c[lo..hi + 1]) && multiset(c[lo..hi + 1]) == multiset(b[lo..hi + 1])
      && c[..lo] == b[..lo] && c[hi + 1..] == b[hi + 1..]
    else
      c == b
  }

  /**
    Sorts the inclusive range `a[lo..hi]` in place. A range of at most one
    element is left alone, which is also where the recursive calls on
    `pivot - 1 < lo` or `pivot + 1 > hi` stop.
  */
  method QuickSort(a: array<int>, lo: int, hi: int, scheme: Scheme)
    requires lo < hi ==> 0 <= lo && hi < a.Length
    modifies a
    ensures SortsRange(old(a[..]), a[..], lo, hi)
    decreases hi - lo
  {
    if lo >= hi {
      return;
    }
    ghost var a0 := a[..];
    var p := Partition(a, lo, hi, scheme);
    ghost var a1 := a[..];
    QuickSort(a, lo, p - 1, scheme);
    ghost var a2 := a[..];
    QuickSort(a, p + 1, hi, scheme);
    QuickSortStep(a0, a1, a2, a[..], lo, p, hi);
  }

  /** Sorting a whole array with quick sort: the range `0 .. a.Length - 1`. */
  method QuickSortAll(a: array<int>, scheme: Scheme)
    modifies a
    ensures Sorted(a[..]) && multiset(a[..]) == multiset(old(a[..]))
    ensures Sorted(old(a[..])) ==> a[..] == old(a[..])
  {
    QuickSort(a, 0, a.Length - 1, scheme);
    SortsWhole(old(a[..]), a[..]);
    SortedInputUnchanged(old(a[..]), a[..]);
  }

  /** Sorting the range of all positions sorts the whole list. */
  lemma SortsWhole(b: seq<int>, c: seq<int>)
    requires SortsRange(b, c, 0, |b| - 1)
    ensures Sorted(c) && multiset(c) == multiset(b)
  {
    if 0 < |b| - 1 {
      assert c[0..|b|] == c && b[0..|b|] == b;
    }
  }

  /**
    The contract of a recursive call on the inclusive range `lo .. hi`, read
    uniformly: a range of at most one element is unchanged, hence sorted.
  */
  lemma RangeSorted(b: seq<int>, c: seq<int>, lo: int, hi: int)
    requires 0 <= lo <= hi + 1 <= |b|
    requires SortsRange(b, c, lo, hi)
    ensures |c| == |b|
    ensures Sorted(c[lo..hi + 1]) && multiset(c[lo..hi + 1]) == multiset(b[lo..hi + 1])
    ensures c[..lo] == b[..lo] && c[hi + 1..] == b[hi + 1..]
  {
  }

  /** Two lists that agree from `from` on agree on every slice there. */
  lemma SameAfter(b: seq<int>, c: seq<int>, from: int, lo: int, hi: int)
    requires 0 <= from <= lo <= hi <= |b| == |c|
    requires b[from..] == c[from..]
    ensures b[lo..hi] == c[lo..hi]
  {
    forall k | lo <= k < hi
      ensures b[k] == c[k]
    {
      assert b[k] == b[from..][k - from] && c[k] == c[from..][k - from];
    }
  }

  /** Two lists that agree up to `to` agree on every slice there. */
  lemma SameBefore(b: seq<int>, c: seq<int>, to: int, lo: int, hi: int)
    requires 0 <= lo <= hi <= to <= |b| == |c|
    requires b[..to] == c[..to]
    ensures b[lo..hi] == c[lo..hi]
  {
    forall k | lo <= k < hi
      ensures b[k] == c[k]
    {
      assert b[k] == b[..to][k] && c[k] == c[..to][k];
    }
  }

  /**
    What the two recursive calls leave in place: the left call does not
    touch the pivot or the right part, the right call does not touch the
    left part or the pivot, and neither touches anything outside the range.
  */
  lemma RecursiveCallsFrame(a1: seq<int>, a2: seq<int>, a3: seq<int>, lo: int, p: int, hi: int)
    requires 0 <= lo <= p <= hi < |a1|
    requires SortsRange(a1, a2, lo, p - 1) && SortsRange(a2, a3, p + 1, hi)
    ensures |a2| == |a3| == |a1|
    ensures a3[p] == a1[p]
    ensures Sorted(a3[lo..p]) && multiset(a3[lo..p]) == multiset(a1[lo..p])
    ensures Sorted(a3[p + 1..hi + 1]) && multiset(a3[p + 1..hi + 1]) == multiset(a1[p + 1..hi + 1])
    ensures a3[..lo] == a1[..lo] && a3[hi + 1..] == a1[hi + 1..]
  {
    RangeSorted(a1, a2, lo, p - 1);
    RangeSorted(a2, a3, p + 1, hi);
    SameAfter(a1, a2, p, p, p + 1);
    SameAfter(a1, a2, p, p + 1, hi + 1);
    SameBefore(a2, a3, p + 1, lo, p);
    SameBefore(a2, a3, p + 1, p, p + 1);
    assert a3[p] == a3[p..p + 1][0] && a2[p] == a2[p..p + 1][0] && a1[p] == a1[p..p + 1][0];
    SameBefore(a2, a3, p + 1, 0, lo);
    SameBefore(a1, a2, lo, 0, lo);
    SameAfter(a2, a3, hi + 1, hi + 1, |a1|);
    SameAfter(a1, a2, p, hi + 1, |a1|);
  }

  /** An inclusive range is its part before `p`, the element at `p` and its part after `p`. */
  lemma SplitAt(s: seq<int>, lo: int, p: int, hi: int)
    requires 0 <= lo <= p <= hi < |s|
    ensures s[lo..hi + 1] == s[lo..p] + [s[p]] + s[p + 1..hi + 1]
  {
  }

  /**
    The inductive step of quick sort, on the four successive contents of the
    array: before partitioning, after it, after sorting the left part and
    after sorting the right part. Each hypothesis is the contract of the
    call that produced that state.
  */
  lemma QuickSortStep(a0: seq<int>, a1: seq<int>, a2: seq<int>, a3: seq<int>, lo: int, p: int, hi: int)
    requires 0 <= lo <= p <= hi < |a0| == |a1|
    // partition
    requires a1[..lo] == a0[..lo] && a1[hi + 1..] == a0[hi + 1..] && multiset(a1) == multiset(a0)
    requires forall k :: lo <= k < p ==> a1[k] <= a1[p]
    requires forall k :: p < k <= hi ==> a1[k] > a1[p]
    // the two recursive calls
    requires SortsRange(a1, a2, lo, p - 1) && SortsRange(a2, a3, p + 1, hi)
    ensures lo < hi ==> SortsRange(a0, a3, lo, hi)
  {
    RecursiveCallsFrame(a1, a2, a3, lo, p, hi);
    FramedPermutation(a0, a1, lo, hi + 1);
    var pivot := a1[p];
    // the three parts of the range after partitioning and after sorting
    var left1, right1 := a1[lo..p], a1[p + 1..hi + 1];
    var left3, right3 := a3[lo..p], a3[p + 1..hi + 1];
    SplitAt(a1, lo, p, hi);
    SplitAt(a3, lo, p, hi);
    assert AllAtMost(left1, pivot) && AllAbove(right1, pivot);
    PermutationAtMost(left1, left3, pivot);
    PermutationAbove(right1, right3, pivot);
    SortedAroundPivot(left3, pivot, right3);
  }
}
