/**
  The four quadratic comparison sorts of the benchmark, each in place on an
  array: bubble sort with its early exit, insertion sort, shell sort over the
  halving gap sequence, and selection sort.
*/
module SimpleSorts {
  import opened Ordering
  import opened GapInsertion

  /**
    Bubble sort. Pass `i` bubbles the largest element of `a[..size - i]` to
    position `size - 1 - i`, so after it the last `i + 1` slots hold the
    largest elements in their final order; a pass that exchanges nothing
    found the rest already sorted, and the sort stops there.
  */
  method BubbleSort(a: array<int>)
    modifies a
    ensures Sorted(a[..]) && multiset(a[..]) == multiset(old(a[..]))
    ensures Sorted(old(a[..])) ==> a[..] == old(a[..])
  {
    var size := a.Length;
    var i := 0;
    while i < size - 1
      invariant 0 <= i <= size
      invariant SortedFrom(a[..], size - i) && PrefixBelow(a[..], size - i)
      invariant multiset(a[..]) == multiset(old(a[..]))
    {
      ghost var before := a[..];
      var swapped := BubblePass(a, size - 1 - i);
      BubblePassKeepsOrder(before, a[..], size - 1 - i);
      if !swapped {
        SortedJoin(a[..], size - i);
        break;
      }
      i := i + 1;
    }
    SortedJoin(a[..], size - i);
    SortedInputUnchanged(old(a[..]), a[..]);
  }

  /**
    One pass of bubble sort over `a[..last + 1]`: each neighbouring pair out
    of order is exchanged, which carries the largest element to `last`. The
    result says whether any exchange happened, which is exactly when some
    neighbouring pair of the old prefix was out of order; if none did, the
    array is as it was and its prefix up to `last` sorted.
  */
  method BubblePass(a: array<int>, last: int) returns (swapped: bool)
    requires 0 <= last < a.Length
    modifies a
    ensures MaxAt(a[..], last)
    ensures swapped <==> exists k :: 0 <= k < last && Inverted(old(a[..]), k)
    ensures !swapped ==> a[..] == old(a[..]) && SortedUpTo(a[..], last)
    ensures a[last + 1..] == old(a[last + 1..])
    ensures multiset(a[..]) == multiset(old(a[..]))
  {
    swapped := false;
    for j := 0 to last
      invariant MaxAt(a[..], j)
      invariant !swapped ==> a[..] == old(a[..]) && SortedUpTo(a[..], j)
      invariant swapped ==> exists k :: 0 <= k < j && Inverted(old(a[..]), k)
      invariant a[last + 1..] == old(a[last + 1..])
      invariant multiset(a[..]) == multiset(old(a[..]))
    {
      ghost var s := a[..];
      BubbleStep(s, j, last);
      if a[j] > a[j + 1] {
        assert !swapped ==> Inverted(old(a[..]), j);
        var temp := a[j];
        a[j] := a[j + 1];
        a[j + 1] := temp;
        swapped := true;
        assert a[..] == Swapped(s, j, j + 1);
      }
    }
    if !swapped {
      forall k | 0 <= k < last
        ensures !Inverted(old(a[..]), k)
      {
        assert a[k] <= a[k + 1];
      }
    }
  }

  /** The neighbours at `k` and `k + 1` are out of order. */
  ghost predicate Inverted(s: seq<int>, k: int) {
    0 <= k && k + 1 < |s| && s[k] > s[k + 1]
  }

  /** One comparison of a pass: the larger of the pair ends at `j + 1`, and nothing past `last` moves. */
  lemma BubbleStep(s: seq<int>, j: int, last: int)
    requires 0 <= j < last < |s|
    requires MaxAt(s, j)
    ensures s[j] > s[j + 1] ==> MaxAt(Swapped(s, j, j + 1), j + 1)
    ensures s[j] > s[j + 1] ==> Swapped(s, j, j + 1)[last + 1..] == s[last + 1..]
    ensures s[j] <= s[j + 1] ==> MaxAt(s, j + 1) && (SortedUpTo(s, j) ==> SortedUpTo(s, j + 1))
  {
    if s[j] > s[j + 1] {
      var t := Swapped(s, j, j + 1);
      assert forall k :: 0 <= k < j ==> t[k] == s[k];
    }
  }

  /*
    The four predicates below are `Sorted` and `AllAtMost` of the ordering
    vocabulary applied to a prefix or a suffix, but stated on the indices of
    the whole list, so that the bubble sort invariants need no slices.
  */

  /** The element at `j` is the largest of `s[..j + 1]`. */
  ghost predicate MaxAt(s: seq<int>, j: int) {
    forall k :: 0 <= k <= j && j < |s| ==> s[k] <= s[j]
  }

  /** The prefix `s[..j + 1]` is sorted. */
  ghost predicate SortedUpTo(s: seq<int>, j: int) {
    forall k, l :: 0 <= k < l <= j && l < |s| ==> s[k] <= s[l]
  }

  /** The part of `s` from position `m` on is sorted. */
  ghost predicate SortedFrom(s: seq<int>, m: int) {
    forall k, l :: m <= k < l < |s| && 0 <= k ==> s[k] <= s[l]
  }

  /** Every element before position `m` is at most the element at `m`, if there is one. */
  ghost predicate PrefixBelow(s: seq<int>, m: int) {
    0 <= m < |s| ==> forall k :: 0 <= k < m ==> s[k] <= s[m]
  }

  /**
    What a pass leaves for the next one: the tail after `last` is still
    sorted, and the prefix, a permutation of what it was, is still at most
    that tail.
  */
  lemma BubblePassKeepsOrder(before: seq<int>, after: seq<int>, last: int)
    requires 0 <= last < |before| == |after|
    requires SortedFrom(before, last + 1) && PrefixBelow(before, last + 1)
    requires MaxAt(after, last)
    requires after[last + 1..] == before[last + 1..]
    requires multiset(after) == multiset(before)
    ensures SortedFrom(after, last) && PrefixBelow(after, last)
  {
    FramedPermutation(after, before, 0, last + 1);
    assert after[..0] == before[..0];
    assert forall k :: last + 1 <= k < |after| ==> after[k] == after[last + 1..][k - last - 1];
    assert forall k :: last + 1 <= k < |before| ==> before[k] == before[last + 1..][k - last - 1];
    if last + 1 < |before| {
      assert AllAtMost(before[..last + 1], before[last + 1]);
      PermutationAtMost(before[..last + 1], after[..last + 1], before[last + 1]);
      assert after[last] == after[..last + 1][last];
    }
  }

  /**
    A sorted prefix `s[..m]` followed by a sorted rest whose first element is
    at least every element of the prefix make a sorted list.
  */
  lemma SortedJoin(s: seq<int>, m: int)
    requires 0 <= m <= |s|
    requires SortedUpTo(s, m - 1)
    requires SortedFrom(s, m) && PrefixBelow(s, m)
    ensures Sorted(s)
  {
    forall k, l | 0 <= k < l < |s|
      ensures s[k] <= s[l]
    {
      if k < m <= l {
        assert s[k] <= s[m];
        if l > m {
          assert s[m] <= s[l];
        }
      }
    }
  }

  /**
    Insertion sort. Before step `i` the prefix `a[..i]` is a sorted
    permutation of the original prefix and the rest is untouched; step `i`
    inserts `a[i]` into the prefix. It is the gap-1 instance of the gapped
    insertion that shell sort repeats, and shares it.
  */
  method InsertionSort(a: array<int>)
    modifies a
    ensures Sorted(a[..]) && multiset(a[..]) == multiset(old(a[..]))
    ensures Sorted(old(a[..])) ==> a[..] == old(a[..])
  {
    var i := 1;
    while i < a.Length
      invariant 1 <= i
      invariant GapSortedUpTo(a[..], 1, i - 1)
      invariant forall k :: i <= k < a.Length ==> a[k] == old(a[k])
      invariant multiset(a[..]) == multiset(old(a[..]))
    {
      var _ := GapInsert(a, 1, i);
      i := i + 1;
    }
    GapSortedUpToAll(a[..], 1);
    AdjacentSorted(a[..]);
    SortedInputUnchanged(old(a[..]), a[..]);
  }

  /**
    One round of shell sort: insertion sort over each of the `gap`
    interleaved sub-lists `a[r], a[r + gap], a[r + 2 * gap], ...`. Afterwards
    every element is at most the one `gap` places to its right, and each
    sub-list holds the elements it held before: nothing crosses from one
    sub-list to another.
  */
  method GapInsertionPass(a: array<int>, gap: int)
    requires gap > 0
    modifies a
    ensures GapSorted(a[..], gap) && multiset(a[..]) == multiset(old(a[..]))
    ensures ColumnsPermuted(a[..], old(a[..]), gap)
  {
    var i := gap;
    while i < a.Length
      invariant gap <= i
      invariant GapSortedUpTo(a[..], gap, i - 1)
      invariant multiset(a[..]) == multiset(old(a[..]))
      invariant ColumnsPermuted(a[..], old(a[..]), gap)
    {
      ghost var before := a[..];
      var _ := GapInsert(a, gap, i);
      ColumnsPermutedTrans(a[..], before, old(a[..]), gap);
      i := i + 1;
    }
    GapSortedUpToAll(a[..], gap);
  }

  /**
    The body of both insertion loops: `anchor := a[i]` travels left in steps
    of `gap`, each element of its sub-list strictly greater than it moving
    `gap` places right, and lands in the slot `p` left behind. So the
    anchor never passes an element equal to it, only `a[i]`'s own sub-list
    between `p` and `i` changes, and if the pairs `gap` apart up to `i - 1`
    were in order, now those up to `i` are.
  */
  method GapInsert(a: array<int>, gap: int, i: int) returns (p: int)
    requires 0 < gap <= i < a.Length
    requires GapSortedUpTo(a[..], gap, i - 1)
    modifies a
    ensures 0 <= p <= i && Stride(p, i, gap) && p % gap == i % gap
    ensures a[p] == old(a[i])
    ensures forall k {:trigger Stride(k, i, gap)} :: p + gap <= k <= i && Stride(k, i, gap) ==> a[k] == old(a[k - gap]) && old(a[k - gap]) > old(a[i])
    ensures p >= gap ==> old(a[p - gap]) <= old(a[i])
    ensures forall k {:trigger a[k]} :: 0 <= k < a.Length && !(p <= k && Stride(k, i, gap)) ==> a[k] == old(a[k])
    ensures GapSortedUpTo(a[..], gap, i)
    ensures ColumnsPermuted(a[..], old(a[..]), gap)
    ensures multiset(a[..]) == multiset(old(a[..]))
  {
    var anchor := a[i];
    var j := ShiftGreater(a, gap, i, anchor);
    ghost var before := a[..];
    GapInsertEnd(before, old(a[..]), gap, i, j, anchor);
    ShiftedEnd(before, old(a[..]), gap, i, j, anchor);
    a[j + gap] := anchor;
    assert a[..] == before[j + gap := anchor];
    p := j + gap;
    StrideMod(p, i, gap);
  }

  /**
    The inner loop of a gapped insertion of `anchor`, taken from `a[i]`:
    walking left from `i - gap` in steps of `gap`, each element strictly
    greater than `anchor` moves `gap` places right. It stops at the first
    element at most `anchor`, or when it runs off the front of the array,
    and returns that position `j`; the hole for `anchor` is `j + gap`.
  */
  method ShiftGreater(a: array<int>, gap: int, i: int, anchor: int) returns (j: int)
    requires 0 < gap <= i < a.Length && anchor == a[i]
    requires GapSortedUpTo(a[..], gap, i - 1)
    modifies a
    ensures -gap <= j <= i - gap
    ensures j >= 0 ==> anchor >= a[j]
    ensures Inserting(a[..], old(a[..]), gap, i, j, anchor)
    ensures Shifted(a[..], old(a[..]), gap, i, j, anchor)
  {
    ghost var orig := a[..];
    j := i - gap;
    GapInsertStart(orig, gap, i, anchor);
    ShiftedStart(orig, gap, i, anchor);
    while j >= 0 && anchor < a[j]
      invariant -gap <= j <= i - gap
      invariant Inserting(a[..], orig, gap, i, j, anchor)
      invariant Shifted(a[..], orig, gap, i, j, anchor)
    {
      ShiftOne(a, orig, gap, i, j, anchor);
      j := j - gap;
    }
  }

  /** One step of `ShiftGreater`: `a[j]`, greater than `anchor`, moves into the hole at `j + gap`. */
  method ShiftOne(a: array<int>, ghost orig: seq<int>, gap: int, i: int, j: int, anchor: int)
    requires 0 < gap && 0 <= j <= i - gap && i < a.Length && anchor < a[j]
    requires Inserting(a[..], orig, gap, i, j, anchor) && Shifted(a[..], orig, gap, i, j, anchor)
    modifies a
    ensures a[j + gap] == old(a[j]) && forall k :: 0 <= k < a.Length && k != j + gap ==> a[k] == old(a[k])
    ensures Inserting(a[..], orig, gap, i, j - gap, anchor) && Shifted(a[..], orig, gap, i, j - gap, anchor)
  {
    ghost var before := a[..];
    GapShiftStep(before, orig, gap, i, j, anchor);
    ShiftedStep(before, orig, gap, i, j, anchor);
    a[j + gap] := a[j];
    assert a[..] == before[j + gap := before[j]];
  }

  /** The gaps shell sort uses when its first gap is `g`: g, g / 2, g / 4, ..., 1. */
  function Gaps(g: nat): (r: seq<nat>)
    ensures |r| > 0 <==> g > 0
    ensures forall k :: 0 <= k < |r| ==> r[k] > 0
    decreases g
  {
    if g == 0 then [] else [g] + Gaps(g / 2)
  }

  /** The halving gap sequence from any positive gap strictly decreases and ends with gap 1. */
  lemma {:induction false} GapsEndWithOne(g: nat)
    requires g > 0
    ensures Gaps(g)[0] == g && Gaps(g)[|Gaps(g)| - 1] == 1
    ensures forall k :: 0 < k < |Gaps(g)| ==> Gaps(g)[k] < Gaps(g)[k - 1]
    decreases g
  {
    var r := Gaps(g);
    if g > 1 {
      var rest := Gaps(g / 2);
      GapsEndWithOne(g / 2);
      assert r == [g] + rest;
      forall k | 0 < k < |r|
        ensures r[k] < r[k - 1]
      {
        if k > 1 {
          assert r[k] == rest[k - 1] && r[k - 1] == rest[k - 2];
        }
      }
    }
  }

  /** After the round with gap `g` the remaining gaps are those from `g / 2`. */
  lemma NextGap(used: seq<nat>, g: nat, first: nat)
    requires g > 0 && used + Gaps(g) == Gaps(first)
    ensures (used + [g]) + Gaps(g / 2) == Gaps(first)
  {
    assert Gaps(g) == [g] + Gaps(g / 2);
    assert (used + [g]) + Gaps(g / 2) == used + ([g] + Gaps(g / 2));
  }

  /**
    Shell sort: gapped insertion rounds over the gaps `Gaps(size / 2)`,
    which the ghost result `rounds` records in the order they ran. The ghost
    result `states` holds the list before the first round and after each
    round: round `k` leaves `states[k + 1]` sorted for gap `rounds[k]`, with
    every sub-list of that gap a permutation of its part of `states[k]`. The
    last round uses gap 1 (GapsEndWithOne), which makes the list sorted; a
    list of fewer than two elements has no round at all.
  */
  method ShellSort(a: array<int>) returns (ghost rounds: seq<nat>, ghost states: seq<seq<int>>)
    modifies a
    ensures rounds == Gaps(a.Length / 2)
    ensures |states| == |rounds| + 1 && states[0] == old(a[..]) && states[|rounds|] == a[..]
    ensures forall k :: 0 <= k < |rounds| ==>
      rounds[k] > 0 && GapSorted(states[k + 1], rounds[k]) && ColumnsPermuted(states[k + 1], states[k], rounds[k])
    ensures Sorted(a[..]) && multiset(a[..]) == multiset(old(a[..]))
    ensures Sorted(old(a[..])) ==> a[..] == old(a[..])
  {
    var gap := a.Length / 2;
    rounds := [];
    states := [a[..]];
    while gap > 0
      invariant 0 <= gap
      invariant rounds + Gaps(gap) == Gaps(a.Length / 2)
      invariant |states| == |rounds| + 1 && states[0] == old(a[..]) && states[|rounds|] == a[..]
      invariant forall k :: 0 <= k < |rounds| ==>
        rounds[k] > 0 && GapSorted(states[k + 1], rounds[k]) && ColumnsPermuted(states[k + 1], states[k], rounds[k])
      invariant gap == 0 ==> Sorted(a[..])
      invariant multiset(a[..]) == multiset(old(a[..]))
      decreases gap
    {
      GapInsertionPass(a, gap);
      if gap == 1 {
        AdjacentSorted(a[..]);
      }
      NextGap(rounds, gap, a.Length / 2);
      rounds := rounds + [gap];
      states := states + [a[..]];
      gap := gap / 2;
    }
    SortedInputUnchanged(old(a[..]), a[..]);
  }

  /**
    The inner scan of selection sort: the index of the first occurrence of
    the minimum of `a[i..]`. The comparison is strict, so a later element
    equal to the current minimum does not replace it.
  */
  method FirstMinimum(a: array<int>, i: int) returns (m: int)
    requires 0 <= i < a.Length
    ensures i <= m < a.Length
    ensures forall k :: i <= k < a.Length ==> a[m] <= a[k]
    ensures forall k :: i <= k < m ==> a[k] > a[m]
  {
    m := i;
    for j := i + 1 to a.Length
      invariant i <= m < j
      invariant forall k :: i <= k < j ==> a[m] <= a[k]
      invariant forall k :: i <= k < m ==> a[k] > a[m]
    {
      if a[j] < a[m] {
        m := j;
      }
    }
  }

  /**
    Selection sort. After step `i` the prefix `a[..i + 1]` is sorted and at
    most every element after it; the exchange is skipped when the minimum
    found equals the element already in place.
  */
  method SelectionSort(a: array<int>)
    modifies a
    ensures Sorted(a[..]) && multiset(a[..]) == multiset(old(a[..]))
    ensures Sorted(old(a[..])) ==> a[..] == old(a[..])
  {
    var i := 0;
    while i < a.Length - 1
      invariant 0 <= i <= a.Length
      invariant forall k, l :: 0 <= k < l < i ==> a[k] <= a[l]
      invariant forall k, l :: 0 <= k < i <= l < a.Length ==> a[k] <= a[l]
      invariant multiset(a[..]) == multiset(old(a[..]))
    {
      var m := FirstMinimum(a, i);
      if a[i] != a[m] {
        a[i], a[m] := a[m], a[i];
      }
      i := i + 1;
    }
    SortedInputUnchanged(old(a[..]), a[..]);
  }
}
