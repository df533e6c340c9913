/**
  The specification vocabulary shared by every sorting routine of the
  benchmark: what "non-decreasing" means for a list of integers, the value
  of a list after two positions are exchanged, and the facts about
  permutations that the in-place algorithms rely on.
*/
module Ordering {

  /** Non-decreasing: every element is at most every later element. */
  predicate Sorted(s: seq<int>) {
    forall i, j :: 0 <= i < j < |s| ==> s[i] <= s[j]
  }

  /** Every pair of positions `gap` apart is in order (shell sort's h-sortedness). */
  ghost predicate GapSorted(s: seq<int>, gap: nat) {
    forall k, l :: 0 <= k < l < |s| && l == k + gap ==> s[k] <= s[l]
  }

  /** Every element of `s` is at most `v`. */
  predicate AllAtMost(s: seq<int>, v: int) {
    forall k :: 0 <= k < |s| ==> s[k] <= v
  }

  /** Every element of `s` is strictly greater than `v`. */
  predicate AllAbove(s: seq<int>, v: int) {
    forall k :: 0 <= k < |s| ==> s[k] > v
  }

  /** The list `s` with the elements at positions `i` and `j` exchanged. */
  function Swapped(s: seq<int>, i: int, j: int): (r: seq<int>)
    requires 0 <= i < |s| && 0 <= j < |s|
    ensures |r| == |s| && r[i] == s[j] && r[j] == s[i]
    ensures forall k :: 0 <= k < |s| && k != i && k != j ==> r[k] == s[k]
    ensures multiset(r) == multiset(s)
  {
    s[i := s[j]][j := s[i]]
  }

  /** An exchange changes nothing exactly when the positions coincide or hold equal values. */
  lemma SwapIsIdentity(s: seq<int>, i: int, j: int)
    requires 0 <= i < |s| && 0 <= j < |s|
    ensures Swapped(s, i, j) == s <==> (i == j || s[i] == s[j])
  {
    if i == j || s[i] == s[j] {
      assert forall k :: 0 <= k < |s| ==> Swapped(s, i, j)[k] == s[k];
    }
  }

  /** A list that is 1-gap-sorted (each element at most its right neighbour) is sorted. */
  lemma {:induction false} AdjacentSorted(s: seq<int>)
    requires GapSorted(s, 1)
    ensures Sorted(s)
  {
    forall i, j | 0 <= i < j < |s|
      ensures s[i] <= s[j]
    {
      AdjacentChain(s, i, j);
    }
  }

  lemma {:induction false} AdjacentChain(s: seq<int>, i: int, j: int)
    requires GapSorted(s, 1)
    requires 0 <= i <= j < |s|
    ensures s[i] <= s[j]
    decreases j - i
  {
    if i < j {
      assert s[i] <= s[i + 1];
      AdjacentChain(s, i + 1, j);
    }
  }

  /**
    A sorted permutation is unique: two sorted lists with the same elements
    are equal. Hence every sort returns the same list for the same input, a
    sorted input is left as it is, and sorting twice equals sorting once.
  */
  lemma {:induction false} SortedUnique(s: seq<int>, t: seq<int>)
    requires Sorted(s) && Sorted(t)
    requires multiset(s) == multiset(t)
    ensures s == t
    decreases |s|
  {
    assert |s| == |multiset(s)| == |multiset(t)| == |t|;
    if |s| > 0 {
      HeadIsLeast(s, t);
      HeadIsLeast(t, s);
      DropHead(s, t);
      SortedUnique(s[1..], t[1..]);
      assert s == [s[0]] + s[1..] && t == [t[0]] + t[1..];
    }
  }

  /** The head of a sorted list is at most every element of any permutation of it. */
  lemma HeadIsLeast(s: seq<int>, t: seq<int>)
    requires Sorted(t) && multiset(s) == multiset(t) && 0 < |s| && 0 < |t|
    ensures t[0] <= s[0]
  {
    assert s[0] in multiset(t);
    var k :| 0 <= k < |t| && t[k] == s[0];
  }

  /** Two permutations of each other with the same head have tails that are permutations. */
  lemma DropHead(s: seq<int>, t: seq<int>)
    requires multiset(s) == multiset(t) && 0 < |s| && 0 < |t| && s[0] == t[0]
    ensures multiset(s[1..]) == multiset(t[1..])
  {
    assert s == [s[0]] + s[1..] && t == [t[0]] + t[1..];
    assert multiset(s) == multiset{s[0]} + multiset(s[1..]);
    assert multiset(t) == multiset{t[0]} + multiset(t[1..]);
    forall x ensures multiset(s[1..])[x] == multiset(t[1..])[x] {
      assert multiset(s)[x] == multiset(t)[x];
    }
  }

  /** A sort leaves a sorted input as it is. */
  lemma SortedInputUnchanged(input: seq<int>, output: seq<int>)
    requires Sorted(output) && multiset(output) == multiset(input)
    ensures Sorted(input) ==> output == input
  {
    if Sorted(input) {
      SortedUnique(output, input);
    }
  }

  /** A permutation keeps every upper bound of its elements. */
  lemma PermutationAtMost(s: seq<int>, t: seq<int>, v: int)
    requires multiset(s) == multiset(t)
    requires AllAtMost(s, v)
    ensures AllAtMost(t, v)
  {
    forall k | 0 <= k < |t|
      ensures t[k] <= v
    {
      assert t[k] in multiset(s);
    }
  }

  /** A permutation keeps every strict lower bound of its elements. */
  lemma PermutationAbove(s: seq<int>, t: seq<int>, v: int)
    requires multiset(s) == multiset(t)
    requires AllAbove(s, v)
    ensures AllAbove(t, v)
  {
    forall k | 0 <= k < |t|
      ensures t[k] > v
    {
      assert t[k] in multiset(s);
    }
  }

  /**
    Two lists of equal length that agree outside the positions `lo .. hi-1`
    are permutations of each other exactly when their middle parts are.
  */
  lemma FramedPermutation(s: seq<int>, t: seq<int>, lo: int, hi: int)
    requires 0 <= lo <= hi <= |s| == |t|
    requires s[..lo] == t[..lo] && s[hi..] == t[hi..]
    ensures multiset(s) == multiset(t) <==> multiset(s[lo..hi]) == multiset(t[lo..hi])
  {
    assert s == s[..lo] + s[lo..hi] + s[hi..];
    assert t == t[..lo] + t[lo..hi] + t[hi..];
    var outside := multiset(s[..lo]) + multiset(s[hi..]);
    assert multiset(s) == multiset(s[lo..hi]) + outside;
    assert multiset(t) == multiset(t[lo..hi]) + outside;
    if multiset(s) == multiset(t) {
      forall x ensures multiset(s[lo..hi])[x] == multiset(t[lo..hi])[x] {
        assert multiset(s)[x] == multiset(t)[x];
      }
    }
  }

  /**
    A list made of a sorted left part, a pivot and a sorted right part, with
    the left part at most the pivot and the right part above it, is sorted.
  */
  lemma SortedAroundPivot(left: seq<int>, pivot: int, right: seq<int>)
    requires Sorted(left) && Sorted(right)
    requires AllAtMost(left, pivot) && AllAbove(right, pivot)
    ensures Sorted(left + [pivot] + right)
  {
  }
}
