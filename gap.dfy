/**
  The reasoning behind one gapped insertion, the inner loop that insertion
  sort and every round of shell sort share: the positions of one
  gap-spaced sub-list, the state of the list while the anchor travels left,
  and the lemmas that carry that state from step to step.
*/
module GapInsertion {
  import opened Ordering

  /**
    The state of one gapped insertion of `anchor`, taken from position `i`
    of `orig`, while the hole is at `j + gap`: with `anchor` put into the
    hole, the list is a permutation of `orig`, every pair `gap` apart up to
    `i` is in order except the one ending at the hole, and the element
    before the hole is at most the one `gap` places after the hole. Nothing
    after `i` has moved.
  */
  ghost predicate Inserting(s: seq<int>, orig: seq<int>, gap: int, i: int, j: int, anchor: int)
    requires 0 < gap && -gap <= j <= i - gap && i < |s|
  {
    && GapSortedBut(s[j + gap := anchor], gap, i, j)
    && multiset(s[j + gap := anchor]) == multiset(orig)
    && ColumnsPermuted(s[j + gap := anchor], orig, gap)
    && |orig| == |s| && s[i + 1..] == orig[i + 1..]
  }

  /**
    Where the elements of one gapped insertion of `anchor`, taken from
    position `i` of `orig`, are while the hole is at `j + gap` (a position
    of `a[i]`'s sub-list): every element of the sub-list above the hole is
    the one `gap` places before it in `orig`, and that one is strictly
    greater than `anchor`; every other position, the hole included, holds what it
    held in `orig`.
  */
  ghost predicate Shifted(s: seq<int>, orig: seq<int>, gap: int, i: int, j: int, anchor: int)
    requires 0 < gap && -gap <= j <= i - gap && i < |s|
  {
    && |orig| == |s|
    && Stride(j + gap, i, gap)
    && (forall k {:trigger s[k]} :: 0 <= k < |s| && !(j + gap < k && Stride(k, i, gap)) ==> s[k] == orig[k])
    && (forall k {:trigger Stride(k, i, gap)} :: j + 2 * gap <= k <= i && Stride(k, i, gap) ==> s[k] == orig[k - gap] && orig[k - gap] > anchor)
  }

  /** `k` is a position of the sub-list that ends at `top`: `top` minus a multiple of `gap`. */
  ghost predicate Stride(k: int, top: int, gap: int)
    requires gap > 0
    decreases top - k
  {
    k == top || (k < top && Stride(k + gap, top, gap))
  }

  /** Positions of one sub-list leave the same remainder modulo `gap`. */
  lemma {:induction false} StrideMod(k: int, top: int, gap: int)
    requires gap > 0 && 0 <= k && Stride(k, top, gap)
    ensures k % gap == top % gap
    decreases top - k
  {
    if k != top {
      StrideMod(k + gap, top, gap);
      ModAddGap(k, gap);
    }
  }

  /** Two positions of one sub-list are at least `gap` apart. */
  lemma {:induction false} StrideAbove(k: int, h: int, top: int, gap: int)
    requires gap > 0 && Stride(k, top, gap) && Stride(h, top, gap) && h < k
    ensures h + gap <= k
    decreases top - k
  {
    if k != top {
      StrideAbove(k + gap, h + gap, top, gap);
    }
  }

  /** Adding `gap` keeps the remainder modulo `gap`. */
  lemma ModAddGap(k: int, gap: int)
    requires 0 <= k && 0 < gap
    ensures (k + gap) % gap == k % gap
  {
    var q, r := k / gap, k % gap;
    assert k == gap * q + r && 0 <= r < gap;
    assert k + gap == gap * (q + 1) + r;
    DivModUnique(k + gap, gap, q + 1, r);
  }

  /** Quotient and remainder are unique: any `n == d * q + r` with `0 <= r < d` has remainder `r`. */
  lemma DivModUnique(n: int, d: int, q: int, r: int)
    requires 0 < d && 0 <= r < d && n == d * q + r
    ensures n % d == r
  {
    var q', r' := n / d, n % d;
    assert n == d * q' + r' && 0 <= r' < d;
    assert d * (q - q') == r' - r;
    MulBounds(d, q - q');
  }

  /** A non-zero multiple of a positive `d` is at least `d` away from zero. */
  lemma {:induction false} MulBounds(d: int, m: int)
    requires 0 < d
    ensures m >= 1 ==> d * m >= d
    ensures m <= -1 ==> d * m <= -d
    decreases if m < 0 then -m else m
  {
    if m > 1 {
      MulBounds(d, m - 1);
      assert d * m == d * (m - 1) + d;
    } else if m < -1 {
      MulBounds(d, m + 1);
      assert d * m == d * (m + 1) - d;
    }
  }

  /** Taking up `a[i]`, nothing has moved yet. */
  lemma ShiftedStart(s: seq<int>, gap: int, i: int, anchor: int)
    requires gap > 0 && gap <= i < |s| && anchor == s[i]
    ensures Shifted(s, s, gap, i, i - gap, anchor)
  {
  }

  /** Moving the element before the hole into it records one more shifted element. */
  lemma ShiftedStep(s: seq<int>, orig: seq<int>, gap: int, i: int, j: int, anchor: int)
    requires gap > 0 && 0 <= j <= i - gap && i < |s|
    requires Shifted(s, orig, gap, i, j, anchor)
    requires anchor < s[j]
    ensures Shifted(s[j + gap := s[j]], orig, gap, i, j - gap, anchor)
  {
    var t := s[j + gap := s[j]];
    assert s[j] == orig[j];
    assert Stride(j, i, gap);
    forall k | j + gap <= k <= i && Stride(k, i, gap)
      ensures t[k] == orig[k - gap] && orig[k - gap] > anchor
    {
      if k != j + gap {
        StrideAbove(k, j + gap, i, gap);
      }
    }
  }

  /**
    Where one gapped insertion leaves everything: the anchor at `j + gap`,
    the elements of its sub-list strictly greater than it one step further
    up, the element before the anchor at most it, and everything else where
    it was.
  */
  lemma ShiftedEnd(s: seq<int>, orig: seq<int>, gap: int, i: int, j: int, anchor: int)
    requires gap > 0 && -gap <= j <= i - gap && i < |s|
    requires Shifted(s, orig, gap, i, j, anchor) && anchor == orig[i]
    requires j >= 0 ==> anchor >= s[j]
    ensures forall k {:trigger Stride(k, i, gap)} :: j + 2 * gap <= k <= i && Stride(k, i, gap) ==> s[j + gap := anchor][k] == orig[k - gap] && orig[k - gap] > orig[i]
    ensures j >= 0 ==> orig[j] <= orig[i]
    ensures forall k {:trigger s[k]} :: 0 <= k < |s| && !(j + gap <= k && Stride(k, i, gap)) ==> s[j + gap := anchor][k] == orig[k]
  {
    if j >= 0 {
      assert s[j] == orig[j];
    }
  }

  /** The elements of the sub-list of `s` at positions `r, r + gap, r + 2 * gap, ...`. */
  ghost function ColumnBag(s: seq<int>, r: nat, gap: int): multiset<int>
    requires gap > 0
    decreases |s| - r
  {
    if r >= |s| then multiset{} else multiset{s[r]} + ColumnBag(s, r + gap, gap)
  }

  /** The sub-lists of `s` and `t` from position `r` hold the same elements. */
  ghost predicate SameColumn(s: seq<int>, t: seq<int>, r: nat, gap: int)
    requires gap > 0
  {
    ColumnBag(s, r, gap) == ColumnBag(t, r, gap)
  }

  /**
    Each of the `gap` interleaved sub-lists of `t` is a permutation of the
    same sub-list of `s`. The quantifier is over `SameColumn` rather than
    `ColumnBag` itself so that unfolding `ColumnBag` does not instantiate it again.
  */
  ghost predicate ColumnsPermuted(s: seq<int>, t: seq<int>, gap: int)
    requires gap > 0
  {
    forall r: nat :: r < gap ==> SameColumn(s, t, r, gap)
  }

  lemma ColumnsPermutedTrans(s: seq<int>, t: seq<int>, u: seq<int>, gap: int)
    requires gap > 0 && ColumnsPermuted(s, t, gap) && ColumnsPermuted(t, u, gap)
    ensures ColumnsPermuted(s, u, gap)
  {
    forall r: nat | r < gap
      ensures SameColumn(s, u, r, gap)
    {
      assert SameColumn(s, t, r, gap) && SameColumn(t, u, r, gap);
    }
  }

  /** `s` and `t` agree everywhere except possibly at `j` and `j + gap`. */
  ghost predicate AgreeExcept(s: seq<int>, t: seq<int>, j: int, gap: int) {
    |s| == |t| && forall k :: 0 <= k < |s| && k != j && k != j + gap ==> t[k] == s[k]
  }

  /**
    A sub-list followed from a position `r` after `j`, other than `j + gap`,
    meets neither `j` nor `j + gap`, so changes there do not affect it.
  */
  lemma {:induction false} ColumnUntouched(s: seq<int>, t: seq<int>, j: int, gap: int, r: nat)
    requires gap > 0 && 0 <= j < r && r != j + gap
    requires AgreeExcept(s, t, j, gap)
    ensures ColumnBag(t, r, gap) == ColumnBag(s, r, gap)
    decreases |s| - r
  {
    if r < |s| {
      ColumnUntouched(s, t, j, gap, r + gap);
      assert t[r] == s[r];
    }
  }

  /** The sub-list followed from `j` itself starts with the exchanged pair. */
  lemma ColumnPair(s: seq<int>, t: seq<int>, j: int, gap: int)
    requires gap > 0 && |s| == |t| && 0 <= j && j + gap < |s|
    requires t[j] == s[j + gap] && t[j + gap] == s[j]
    requires AgreeExcept(s, t, j, gap)
    ensures ColumnBag(t, j, gap) == ColumnBag(s, j, gap)
  {
    ColumnUntouched(s, t, j, gap, j + gap + gap);
    ColumnCons(s, j + gap, gap);
    ColumnCons(t, j + gap, gap);
    ColumnCons(s, j, gap);
    ColumnCons(t, j, gap);
    PairSwap(ColumnBag(t, j, gap), ColumnBag(t, j + gap, gap), ColumnBag(s, j, gap), ColumnBag(s, j + gap, gap),
             s[j + gap], s[j], ColumnBag(s, j + gap + gap, gap));
  }

  /** A sub-list is its first element together with the sub-list one step further. */
  lemma ColumnCons(s: seq<int>, r: nat, gap: int)
    requires gap > 0 && r < |s|
    ensures ColumnBag(s, r, gap) == multiset{s[r]} + ColumnBag(s, r + gap, gap)
  {
  }

  /** Two elements added to the same multiset in either order give the same multiset. */
  lemma PairSwap(a: multiset<int>, b: multiset<int>, c: multiset<int>, d: multiset<int>, x: int, y: int, rest: multiset<int>)
    requires a == multiset{x} + b && b == multiset{y} + rest
    requires c == multiset{y} + d && d == multiset{x} + rest
    ensures a == c
  {
  }

  /**
    Exchanging the neighbours `j` and `j + gap` of one sub-list permutes
    that sub-list, followed from any position `r` up to `j`.
  */
  lemma {:induction false} ColumnSwap(s: seq<int>, t: seq<int>, j: int, gap: int, r: nat)
    requires gap > 0 && |s| == |t| && r <= j && j + gap < |s|
    requires t[j] == s[j + gap] && t[j + gap] == s[j]
    requires AgreeExcept(s, t, j, gap)
    ensures ColumnBag(t, r, gap) == ColumnBag(s, r, gap)
    decreases j - r
  {
    if r == j {
      ColumnPair(s, t, j, gap);
    } else {
      if r + gap <= j {
        ColumnSwap(s, t, j, gap, r + gap);
      } else {
        ColumnUntouched(s, t, j, gap, r + gap);
      }
      assert t[r] == s[r];
      ColumnStep(s, t, r, gap);
    }
  }

  /** Two sub-lists with the same first element and the same elements after it hold the same elements. */
  lemma ColumnStep(s: seq<int>, t: seq<int>, r: nat, gap: int)
    requires gap > 0 && |s| == |t| && r < |s| && t[r] == s[r]
    requires ColumnBag(t, r + gap, gap) == ColumnBag(s, r + gap, gap)
    ensures ColumnBag(t, r, gap) == ColumnBag(s, r, gap)
  {
  }

  /** The exchange behind one shift step keeps every sub-list a permutation of `orig`'s. */
  lemma ColumnShift(before: seq<int>, orig: seq<int>, gap: int, j: int)
    requires gap > 0 && 0 <= j && j + gap < |before|
    requires ColumnsPermuted(before, orig, gap)
    ensures ColumnsPermuted(Swapped(before, j, j + gap), orig, gap)
  {
    var t := Swapped(before, j, j + gap);
    assert AgreeExcept(before, t, j, gap);
    forall r: nat | r < gap
      ensures SameColumn(t, orig, r, gap)
    {
      assert SameColumn(before, orig, r, gap);
      if r <= j {
        ColumnSwap(before, t, j, gap, r);
      } else {
        ColumnUntouched(before, t, j, gap, r);
      }
    }
  }

  /**
    The pair of positions `k` and `k + gap` is in order. Kept as a predicate
    of its own so that the quantifiers below are instantiated only where a
    proof names a pair.
  */
  ghost predicate InOrder(s: seq<int>, k: int, gap: int)
    requires 0 <= k && 0 < gap && k + gap < |s|
  {
    s[k] <= s[k + gap]
  }

  /** Every pair of positions `gap` apart among `0 .. last` is in order. */
  ghost predicate GapSortedUpTo(s: seq<int>, gap: int, last: int)
    requires gap > 0
  {
    forall k :: 0 <= k && k + gap <= last && k + gap < |s| ==> InOrder(s, k, gap)
  }

  /**
    The state of one gapped insertion while `anchor` travels left: on
    positions up to `i`, every pair `gap` apart is in order except the pair
    ending at the hole `j + gap`, and the element before the hole is at
    most the one `gap` places after the hole.
  */
  ghost predicate GapSortedBut(s: seq<int>, gap: int, i: int, j: int)
    requires gap > 0 && -gap <= j <= i - gap && i < |s|
  {
    && (forall k :: 0 <= k && k + gap <= i && k != j ==> InOrder(s, k, gap))
    && (0 <= j && j + 2 * gap <= i ==> s[j] <= s[j + 2 * gap])
  }

  /** Taking up position `i`, the only pair possibly out of order is the one ending at `i`. */
  lemma GapInsertStart(s: seq<int>, gap: int, i: int, anchor: int)
    requires gap > 0 && gap <= i < |s| && anchor == s[i]
    requires GapSortedUpTo(s, gap, i - 1)
    ensures Inserting(s, s, gap, i, i - gap, anchor)
  {
    assert s[i := anchor] == s;
  }

  /** Shifting the element before the hole into it, the hole moves `gap` places left. */
  lemma GapShiftStep(s: seq<int>, orig: seq<int>, gap: int, i: int, j: int, anchor: int)
    requires gap > 0 && 0 <= j <= i - gap && i < |s|
    requires Inserting(s, orig, gap, i, j, anchor)
    requires anchor < s[j]
    ensures Inserting(s[j + gap := s[j]], orig, gap, i, j - gap, anchor)
  {
    var before := s[j + gap := anchor];
    var t := s[j + gap := s[j]][j := anchor];
    assert t == Swapped(before, j, j + gap);
    ColumnShift(before, orig, gap, j);
    ShiftOrder(before, t, gap, i, j);
    assert s[j + gap := s[j]][(j - gap) + gap := anchor] == t;
    assert s[j + gap := s[j]][i + 1..] == s[i + 1..];
  }

  /** Exchanging the hole at `j + gap` with a greater `s[j]` moves the one pair possibly out of order down a step. */
  lemma ShiftOrder(s: seq<int>, t: seq<int>, gap: int, i: int, j: int)
    requires gap > 0 && 0 <= j <= i - gap && i < |s|
    requires GapSortedBut(s, gap, i, j) && s[j + gap] < s[j]
    requires t == Swapped(s, j, j + gap)
    ensures GapSortedBut(t, gap, i, j - gap)
  {
    forall k | 0 <= k && k + gap <= i && k != j - gap
      ensures InOrder(t, k, gap)
    {
      if k == j + gap {
        assert t[k] == s[j];
        assert s[j] <= s[j + 2 * gap];
      } else if k != j {
        assert InOrder(s, k, gap);
      }
    }
    if 0 <= j - gap {
      assert InOrder(s, j - gap, gap);
    }
  }

  /** Once the element before the hole is at most `anchor`, putting it there orders all pairs up to `i`. */
  lemma GapInsertEnd(s: seq<int>, orig: seq<int>, gap: int, i: int, j: int, anchor: int)
    requires gap > 0 && -gap <= j <= i - gap && i < |s|
    requires Inserting(s, orig, gap, i, j, anchor)
    requires j >= 0 ==> anchor >= s[j]
    ensures GapSortedUpTo(s[j + gap := anchor], gap, i)
    ensures multiset(s[j + gap := anchor]) == multiset(orig)
    ensures ColumnsPermuted(s[j + gap := anchor], orig, gap)
    ensures s[j + gap := anchor][i + 1..] == orig[i + 1..]
  {
    var t := s[j + gap := anchor];
    forall k | 0 <= k && k + gap <= i
      ensures InOrder(t, k, gap)
    {
      if k != j {
        assert InOrder(t, k, gap);
      }
    }
    assert t[i + 1..] == s[i + 1..];
  }

  /** Once every pair `gap` apart up to the last position is in order, the whole list is gap-sorted. */
  lemma GapSortedUpToAll(s: seq<int>, gap: int)
    requires gap > 0 && GapSortedUpTo(s, gap, |s| - 1)
    ensures GapSorted(s, gap)
  {
    forall k, l | 0 <= k < l < |s| && l == k + gap
      ensures s[k] <= s[l]
    {
      assert InOrder(s, k, gap);
    }
  }
}
