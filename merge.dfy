/**
  Merge sort: the three-pointer merge of two sorted lists into a target
  array, specified by the recursive merge of those lists, and the sort that
  splits an array into copied halves, sorts them and merges them back.
*/
module MergeSorting {
  import opened Ordering

  /**
    The merge of `A` and `B` one head at a time; on equal heads the head of
    `A` goes first.
  */
  function Merge(A: seq<int>, B: seq<int>): (r: seq<int>)
    ensures |r| == |A| + |B|
    decreases |A| + |B|
  {
    if |A| == 0 then B
    else if |B| == 0 then A
    else if A[0] <= B[0] then [A[0]] + Merge(A[1..], B)
    else [B[0]] + Merge(A, B[1..])
  }

  /** For each element of `Merge(A, B)`, whether it was taken from `A` (true) or from `B`. */
  function MergeSides(A: seq<int>, B: seq<int>): (r: seq<bool>)
    ensures |r| == |A| + |B|
    decreases |A| + |B|
  {
    if |A| == 0 then seq(|B|, _ => false)
    else if |B| == 0 then seq(|A|, _ => true)
    else if A[0] <= B[0] then [true] + MergeSides(A[1..], B)
    else [false] + MergeSides(A, B[1..])
  }

  /** The elements of `r` whose side in `sides` is `side`, in order. */
  function Side(r: seq<int>, sides: seq<bool>, side: bool): (q: seq<int>)
    requires |r| == |sides|
    ensures |q| <= |r|
  {
    if |r| == 0 then []
    else (if sides[0] == side then [r[0]] else []) + Side(r[1..], sides[1..], side)
  }

  /** The merge holds exactly the elements of both lists. */
  lemma {:induction false} MergeMultiset(A: seq<int>, B: seq<int>)
    ensures multiset(Merge(A, B)) == multiset(A) + multiset(B)
    decreases |A| + |B|
  {
    if |A| > 0 && |B| > 0 {
      if A[0] <= B[0] {
        MergeMultiset(A[1..], B);
        assert A == [A[0]] + A[1..];
        assert multiset(A) == multiset{A[0]} + multiset(A[1..]);
        assert multiset(Merge(A, B)) == multiset{A[0]} + multiset(Merge(A[1..], B));
      } else {
        MergeMultiset(A, B[1..]);
        assert B == [B[0]] + B[1..];
        assert multiset(B) == multiset{B[0]} + multiset(B[1..]);
        assert multiset(Merge(A, B)) == multiset{B[0]} + multiset(Merge(A, B[1..]));
      }
    }
  }

  /** A sorted list stays sorted with an element at most its head put in front. */
  lemma SortedCons(x: int, s: seq<int>)
    requires Sorted(s) && (|s| > 0 ==> x <= s[0])
    ensures Sorted([x] + s)
  {
  }

  /** The merge of two non-empty lists starts with the smaller head, the head of `A` on a tie. */
  lemma MergeHead(A: seq<int>, B: seq<int>)
    requires |A| + |B| > 0
    ensures |A| > 0 && (|B| == 0 || A[0] <= B[0]) ==> Merge(A, B)[0] == A[0]
    ensures |B| > 0 && (|A| == 0 || B[0] < A[0]) ==> Merge(A, B)[0] == B[0]
  {
  }

  /** The merge of two sorted lists is sorted. */
  lemma {:induction false} MergeSorted(A: seq<int>, B: seq<int>)
    requires Sorted(A) && Sorted(B)
    ensures Sorted(Merge(A, B))
    decreases |A| + |B|
  {
    if |A| > 0 && |B| > 0 {
      if A[0] <= B[0] {
        var rest := Merge(A[1..], B);
        MergeSorted(A[1..], B);
        if |rest| > 0 {
          MergeHead(A[1..], B);
          assert |A[1..]| > 0 ==> A[1..][0] == A[1];
        }
        SortedCons(A[0], rest);
      } else {
        var rest := Merge(A, B[1..]);
        MergeSorted(A, B[1..]);
        MergeHead(A, B[1..]);
        assert |B[1..]| > 0 ==> B[1..][0] == B[1];
        SortedCons(B[0], rest);
      }
    }
  }

  /** Filtering a concatenation filters each part. */
  lemma {:induction false} SideAppend(r1: seq<int>, s1: seq<bool>, r2: seq<int>, s2: seq<bool>, side: bool)
    requires |r1| == |s1| && |r2| == |s2|
    ensures Side(r1 + r2, s1 + s2, side) == Side(r1, s1, side) + Side(r2, s2, side)
    decreases |r1|
  {
    if |r1| > 0 {
      var r, t := r1 + r2, s1 + s2;
      var head := if s1[0] == side then [r1[0]] else [];
      assert r[0] == r1[0] && t[0] == s1[0];
      assert r[1..] == r1[1..] + r2 && t[1..] == s1[1..] + s2;
      assert Side(r, t, side) == head + Side(r1[1..] + r2, s1[1..] + s2, side);
      SideAppend(r1[1..], s1[1..], r2, s2, side);
      assert Side(r1, s1, side) == head + Side(r1[1..], s1[1..], side);
    } else {
      assert r1 + r2 == r2 && s1 + s2 == s2;
    }
  }

  /** A list whose elements all lie on one side filters to itself on that side and to nothing on the other. */
  lemma {:induction false} SideConstant(r: seq<int>, side: bool)
    ensures Side(r, seq(|r|, _ => side), side) == r
    ensures Side(r, seq(|r|, _ => side), !side) == []
    decreases |r|
  {
    if |r| > 0 {
      assert seq(|r|, _ => side)[1..] == seq(|r| - 1, _ => side);
      SideConstant(r[1..], side);
    }
  }

  /**
    The sides record where each element came from, in order: taking the
    elements marked `true` gives back `A`, and those marked `false` give
    back `B`.
  */
  lemma {:induction false} MergeSidesSplit(A: seq<int>, B: seq<int>)
    ensures Side(Merge(A, B), MergeSides(A, B), true) == A
    ensures Side(Merge(A, B), MergeSides(A, B), false) == B
    decreases |A| + |B|
  {
    if |A| == 0 {
      SideConstant(B, false);
    } else if |B| == 0 {
      SideConstant(A, true);
    } else if A[0] <= B[0] {
      MergeSidesSplit(A[1..], B);
      SideAppend([A[0]], [true], Merge(A[1..], B), MergeSides(A[1..], B), true);
      SideAppend([A[0]], [true], Merge(A[1..], B), MergeSides(A[1..], B), false);
      assert A == [A[0]] + A[1..];
    } else {
      MergeSidesSplit(A, B[1..]);
      SideAppend([B[0]], [false], Merge(A, B[1..]), MergeSides(A, B[1..]), true);
      SideAppend([B[0]], [false], Merge(A, B[1..]), MergeSides(A, B[1..]), false);
      assert B == [B[0]] + B[1..];
    }
  }

  /** Every element the merge takes from `A` is an element of `A`. */
  lemma {:induction false} FromA(A: seq<int>, B: seq<int>, k: int)
    requires 0 <= k < |A| + |B| && MergeSides(A, B)[k]
    ensures Merge(A, B)[k] in A
    decreases |A| + |B|
  {
    if |A| > 0 && |B| > 0 {
      if A[0] <= B[0] {
        if k > 0 {
          FromA(A[1..], B, k - 1);
        }
      } else {
        FromA(A, B[1..], k - 1);
      }
    }
  }

  /**
    Stability of the merge: when `A` is sorted, an element taken from `B`
    never precedes an equal element taken from `A`. With `A` the left half,
    equal keys keep their original order.
  */
  lemma {:induction false} MergeStable(A: seq<int>, B: seq<int>)
    requires Sorted(A)
    ensures forall i, j ::
              0 <= i < j < |A| + |B| && Merge(A, B)[i] == Merge(A, B)[j] && MergeSides(A, B)[j] ==> MergeSides(A, B)[i]
    decreases |A| + |B|
  {
    var r, t := Merge(A, B), MergeSides(A, B);
    if |A| > 0 && |B| > 0 {
      if A[0] <= B[0] {
        MergeStable(A[1..], B);
        forall i, j | 0 < i < j < |r| && r[i] == r[j] && t[j]
          ensures t[i]
        {
          assert r[i] == Merge(A[1..], B)[i - 1] && r[j] == Merge(A[1..], B)[j - 1];
          assert t[i] == MergeSides(A[1..], B)[i - 1] && t[j] == MergeSides(A[1..], B)[j - 1];
        }
      } else {
        MergeStable(A, B[1..]);
        forall i, j | 0 <= i < j < |r| && r[i] == r[j] && t[j]
          ensures t[i]
        {
          assert r[j] == Merge(A, B[1..])[j - 1] && t[j] == MergeSides(A, B[1..])[j - 1];
          FromA(A, B[1..], j - 1);
          var m :| 0 <= m < |A| && A[m] == r[j];
          assert A[0] <= A[m];
          if i > 0 {
            assert r[i] == Merge(A, B[1..])[i - 1] && t[i] == MergeSides(A, B[1..])[i - 1];
          }
        }
      }
    } else if |A| == 0 {
      assert forall k :: 0 <= k < |t| ==> !t[k];
    }
  }

  /** While the merge takes from `A`, the rest of the merge starts with the head of `A`'s remainder. */
  lemma MergeTakesA(A: seq<int>, B: seq<int>, i: int, j: int)
    requires 0 <= i < |A| && 0 <= j <= |B|
    requires j == |B| || A[i] <= B[j]
    ensures Merge(A[i..], B[j..]) == [A[i]] + Merge(A[i + 1..], B[j..])
  {
    assert A[i..][1..] == A[i + 1..];
  }

  /** While the merge takes from `B`, the rest of the merge starts with the head of `B`'s remainder. */
  lemma MergeTakesB(A: seq<int>, B: seq<int>, i: int, j: int)
    requires 0 <= i <= |A| && 0 <= j < |B|
    requires i == |A| || B[j] < A[i]
    ensures Merge(A[i..], B[j..]) == [B[j]] + Merge(A[i..], B[j + 1..])
  {
    assert B[j..][1..] == B[j + 1..];
  }

  /**
    Writing the next merged element `v` at `k`: the written prefix grows by
    `v`, and the slots from `n` on stay as they were.
  */
  lemma WriteNext(before: seq<int>, k: int, n: int, v: int, rest: seq<int>, merged: seq<int>, tail: seq<int>)
    requires 0 <= k < n <= |before|
    requires before[..k] + tail == merged && tail == [v] + rest
    ensures before[k := v][..k + 1] + rest == merged
    ensures before[k := v][n..] == before[n..]
  {
    assert before[k := v][..k + 1] == before[..k] + [v];
  }

  /**
    Writing the head of `A`'s remainder at `i + j` when the merge takes it:
    the merge still completes from the next positions, and the slots from
    `|A| + |B|` on stay as they were.
  */
  lemma WriteFromA(before: seq<int>, A: seq<int>, B: seq<int>, i: int, j: int, k: int)
    requires 0 <= i < |A| && 0 <= j <= |B| && k == i + j && |A| + |B| <= |before|
    requires j == |B| || A[i] <= B[j]
    requires before[..k] + Merge(A[i..], B[j..]) == Merge(A, B)
    ensures before[k := A[i]][..k + 1] + Merge(A[i + 1..], B[j..]) == Merge(A, B)
    ensures before[k := A[i]][|A| + |B|..] == before[|A| + |B|..]
  {
    MergeTakesA(A, B, i, j);
    WriteNext(before, k, |A| + |B|, A[i], Merge(A[i + 1..], B[j..]), Merge(A, B), Merge(A[i..], B[j..]));
  }

  /** The same for the head of `B`'s remainder. */
  lemma WriteFromB(before: seq<int>, A: seq<int>, B: seq<int>, i: int, j: int, k: int)
    requires 0 <= i <= |A| && 0 <= j < |B| && k == i + j && |A| + |B| <= |before|
    requires i == |A| || B[j] < A[i]
    requires before[..k] + Merge(A[i..], B[j..]) == Merge(A, B)
    ensures before[k := B[j]][..k + 1] + Merge(A[i..], B[j + 1..]) == Merge(A, B)
    ensures before[k := B[j]][|A| + |B|..] == before[|A| + |B|..]
  {
    MergeTakesB(A, B, i, j);
    WriteNext(before, k, |A| + |B|, B[j], Merge(A[i..], B[j + 1..]), Merge(A, B), Merge(A[i..], B[j..]));
  }

  /**
    The three-pointer merge: writes `Merge(A, B)` into the first
    `|A| + |B|` slots of `arr`, first while both lists have elements left,
    then the rest of `A`, then the rest of `B`. The slots after those are
    not touched.
  */
  method MergeInto(A: seq<int>, B: seq<int>, arr: array<int>)
    requires |A| + |B| <= arr.Length
    modifies arr
    ensures arr[..|A| + |B|] == Merge(A, B)
    ensures arr[|A| + |B|..] == old(arr[|A| + |B|..])
  {
    var i, j, k := 0, 0, 0;
    while i < |A| && j < |B|
      invariant 0 <= i <= |A| && 0 <= j <= |B| && k == i + j
      invariant arr[..k] + Merge(A[i..], B[j..]) == Merge(A, B)
      invariant arr[|A| + |B|..] == old(arr[|A| + |B|..])
    {
      ghost var before := arr[..];
      if A[i] <= B[j] {
        WriteFromA(before, A, B, i, j, k);
        arr[k] := A[i];
        i := i + 1;
      } else {
        WriteFromB(before, A, B, i, j, k);
        arr[k] := B[j];
        j := j + 1;
      }
      assert arr[..] == before[k := arr[k]];
      k := k + 1;
    }
    // one list is used up, so what remains of the merge is the rest of the other
    MergeRest(A[i..], B[j..]);
    ghost var s1, k1 := arr[..], k;
    k := CopyRest(A, i, arr, k);
    ghost var s2, k2 := arr[..], k;
    k := CopyRest(B, j, arr, k);
    TailsJoin(s1, s2, arr[..], k1, k2, k, A[i..], B[j..], Merge(A, B));
  }

  /**
    The written prefix after both copies: with `s1[..k1]` followed by
    `x + y` making up `m`, copying `x` and then `y` behind the prefix leaves
    `m` in front and the rest as it was.
  */
  lemma TailsJoin(s1: seq<int>, s2: seq<int>, s3: seq<int>, k1: int, k2: int, n: int, x: seq<int>, y: seq<int>, m: seq<int>)
    requires 0 <= k1 <= k2 <= n <= |s1| == |s2| == |s3|
    requires s1[..k1] + (x + y) == m
    requires s2[..k2] == s1[..k1] + x && s2[k2..] == s1[k2..]
    requires s3[..n] == s2[..k2] + y && s3[n..] == s2[n..]
    ensures s3[..n] == m && s3[n..] == s1[n..]
  {
    assert s2[n..] == s2[k2..][n - k2..] && s1[n..] == s1[k2..][n - k2..];
  }

  /** When one of the lists is empty, the merge is the other one. */
  lemma MergeRest(X: seq<int>, Y: seq<int>)
    requires X == [] || Y == []
    ensures Merge(X, Y) == X + Y
  {
  }

  /**
    The second and third loops of the merge, one for each list: copies
    `src[from..]` into `arr` from position `k` on, and returns the position
    after the last one written. Nothing else in `arr` changes.
  */
  method CopyRest(src: seq<int>, from: int, arr: array<int>, k: int) returns (end: int)
    requires 0 <= from <= |src| && 0 <= k && k + |src| - from <= arr.Length
    modifies arr
    ensures end == k + |src| - from
    ensures arr[..end] == old(arr[..k]) + src[from..]
    ensures arr[end..] == old(arr[end..])
  {
    var i := from;
    end := k;
    while i < |src|
      invariant from <= i <= |src| && end == k + i - from
      invariant arr[..end] == old(arr[..k]) + src[from..i]
      invariant arr[k + |src| - from..] == old(arr[k + |src| - from..])
    {
      ghost var before := arr[..];
      arr[end] := src[i];
      assert arr[..] == before[end := src[i]];
      assert arr[..end + 1] == before[..end] + [src[i]];
      assert src[from..i + 1] == src[from..i] + [src[i]];
      i := i + 1;
      end := end + 1;
    }
  }

  /**
    Merge sort. An array of at most one element is left alone; otherwise the
    halves `arr[..n / 2]` and `arr[n / 2..]` are copied out, sorted
    recursively in their copies and merged back into `arr`.
  */
  method MergeSort(arr: array<int>)
    modifies arr
    ensures Sorted(arr[..]) && multiset(arr[..]) == multiset(old(arr[..]))
    ensures Sorted(old(arr[..])) ==> arr[..] == old(arr[..])
    decreases arr.Length
  {
    if arr.Length <= 1 {
      return;
    }
    var middle := arr.Length / 2;
    ghost var original := arr[..];
    var left := Slice(arr, 0, middle);
    var right := Slice(arr, middle, arr.Length);
    ghost var left0, right0 := left[..], right[..];
    MergeSort(left);
    MergeSort(right);
    MergeInto(left[..], right[..], arr);
    MergeSortStep(original, middle, left0, right0, left[..], right[..], arr[..]);
  }

  /** A fresh array holding a copy of `arr[lo..hi]`, as list slicing makes one. */
  method Slice(arr: array<int>, lo: int, hi: int) returns (b: array<int>)
    requires 0 <= lo <= hi <= arr.Length
    ensures fresh(b) && b[..] == arr[lo..hi]
  {
    b := new int[hi - lo];
    forall k | 0 <= k < hi - lo {
      b[k] := arr[lo + k];
    }
  }

  /**
    The step of merge sort on sequences: merging sorted permutations of the
    two halves of `original` gives a sorted permutation of `original`, and
    leaves a sorted `original` as it was.
  */
  lemma MergeSortStep(original: seq<int>, middle: int, left0: seq<int>, right0: seq<int>, left: seq<int>, right: seq<int>, result: seq<int>)
    requires 0 <= middle <= |original|
    requires left0 == original[0..middle] && right0 == original[middle..|original|]
    requires Sorted(left) && multiset(left) == multiset(left0)
    requires Sorted(right) && multiset(right) == multiset(right0)
    requires |result| == |left| + |right| && result[..|left| + |right|] == Merge(left, right)
    ensures Sorted(result) && multiset(result) == multiset(original)
    ensures Sorted(original) ==> result == original
  {
    assert original == left0 + right0;
    assert result == result[..|left| + |right|];
    MergeSorted(left, right);
    MergeMultiset(left, right);
    SortedInputUnchanged(original, result);
  }
}
