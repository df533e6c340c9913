# Sorting benchmark: a verified model

`t.py` is a benchmark of six in-place sorting routines on Python lists of integers:

- bubble sort with an early exit;
- quick sort on an inclusive index range, built on a guarded swap helper and two partition schemes (Hoare and Lomuto);
- insertion sort;
- shell sort over the halving gap sequence `n // 2, n // 4, ..., 1`;
- merge sort, which copies out the two halves, sorts them recursively and merges them back with a three-pointer merge;
- selection sort.

This project models each routine as a Dafny method on an `array<int>`, with the source's loops, branches and comparisons. Each method is proved against a specification:

- the array ends sorted;
- the final contents are a permutation of the original (`multiset` equality);
- an already sorted input is left exactly as it was.

The partition schemes, the merge and the inner scans get contracts of their own. The merge is specified by a recursive reference function `Merge`, and lemmas prove its content, order and stability properties.

Modules:

- `Ordering` (`ordering.dfy`) defines the shared vocabulary:
  - sortedness and gap-sortedness;
  - the value of a list after an exchange;
  - facts about permutations, including that a sorted permutation is unique.
- `QuickSorting` (`quick.dfy`) contains the swap helper, both partition schemes and quick sort.
- `SimpleSorts` (`simple.dfy`) contains bubble, insertion, shell and selection sort.
- `GapInsertion` (`gap.dfy`) holds the reasoning behind the gapped insertion step that insertion sort and shell sort share:
  - the positions of one gap-spaced sub-list;
  - the state of the list while the anchor travels left;
  - the elements of each sub-list, as a multiset.
- `MergeSorting` (`merge.dfy`) contains the merge and merge sort.

Structure:

- Inner loops that the source writes inline are separate methods here, each with a contract. They keep the source's control flow:
  - the bubble pass: `BubblePass`;
  - the two scans of a Hoare round: `ScanUp` and `ScanDown`;
  - the gapped insertion step: `GapInsert`, with its inner loop `ShiftGreater` and that loop's body `ShiftOne`;
  - the minimum search of selection sort: `FirstMinimum`;
  - the two tail loops of the merge: `CopyRest`.
- The list slicing of merge sort (t.py:192-193) is not a loop. `Slice` models it as the fresh copy that a slice makes.
- Insertion sort and shell sort both use `GapInsert`. Insertion sort's inner loop is the shell sort loop with gap 1.
- The source fixes the partition scheme at `t.py:105`. Its comment at `t.py:103-104` says to edit that call to use Lomuto instead. `QuickSort` takes the scheme as a parameter, and both schemes meet one `Partition` contract.

## Model

| member | source | states |
|---|---|---|
| Ordering.Swapped | t.py:53-57 | the list after an exchange: positions i and j hold each other's old values, every other position is kept, and the elements are the same |
| Ordering.SwapIsIdentity | t.py:54 | an exchange leaves the list unchanged if and only if the two positions coincide or hold equal values, the cases the guard skips |
| Ordering.AdjacentSorted | t.py:140-150 | a list in which every element is at most its right neighbour (1-gap-sorted) is sorted |
| Ordering.SortedUnique | t.py:269-298 | two sorted lists with the same elements are equal, so every sort returns the same list for the same input |
| Ordering.SortedInputUnchanged | t.py:269-298 | a sorted permutation of an already sorted input is that input |
| Ordering.PermutationAtMost | t.py:106 | rearranging a list keeps every upper bound of its elements |
| Ordering.PermutationAbove | t.py:107 | rearranging a list keeps every strict lower bound of its elements |
| Ordering.FramedPermutation | t.py:97-107 | two lists that agree outside a range are permutations of each other if and only if their parts in the range are |
| Ordering.SortedAroundPivot | t.py:105-107 | a sorted part at most the pivot, the pivot, and a sorted part above the pivot make a sorted list |
| QuickSorting.Swap | t.py:53-57 | the new contents are the old ones with positions i and j exchanged, including when the guard skips the writes |
| QuickSorting.HoarePartition | t.py:59-80 | returns p in lo..hi holding the old a[lo]; everything in lo..p-1 is at most it and everything in p+1..hi is above it; nothing outside lo..hi moves; the contents are a permutation |
| QuickSorting.ScanUp | t.py:69-70 | the left scan steps only over elements at most the pivot; it stops at the first element above the pivot or at the end of the whole array, not at the end of the range |
| QuickSorting.ScanDown | t.py:72-73 | the right scan needs no lower bound: with a[lo] at most the pivot, it stops at some j >= lo with a[j] at most the pivot, having stepped only over elements above it |
| QuickSorting.LomutoPartition | t.py:82-94 | returns p in lo..hi holding the old a[hi]; everything in lo..p-1 is at most it and everything in p+1..hi is above it; nothing outside lo..hi moves; the contents are a permutation |
| QuickSorting.Partition | t.py:103-105 | either scheme meets the same partition contract, with the pivot taken from a[lo] (Hoare) or a[hi] (Lomuto) |
| QuickSorting.QuickSort | t.py:97-107 | a range of two or more elements ends sorted and permuted within itself, with everything outside it unchanged; a shorter range (lo >= hi) is left as it is |
| QuickSorting.QuickSortAll | t.py:236 | sorting the range 0..n-1 sorts the whole array, as a permutation, and leaves a sorted array as it was |
| QuickSorting.SortsWhole | t.py:236 | sorting the range of all positions yields a sorted permutation of the whole list |
| QuickSorting.RangeSorted | t.py:99-100 | a range of at most one element, which the recursion leaves alone, is also sorted and permuted within itself |
| QuickSorting.RecursiveCallsFrame | t.py:106-107 | the left call does not touch the pivot or the right part; the right call does not touch the left part or the pivot |
| QuickSorting.QuickSortStep | t.py:105-107 | partitioning and then sorting both sides sorts the whole range, as a permutation, with nothing outside it moved |
| SimpleSorts.BubbleSort | t.py:32-48 | the array ends sorted, as a permutation, and a sorted input is unchanged, including when the early exit is taken |
| SimpleSorts.BubblePass | t.py:37-45 | after one pass the largest element of a[..last+1] is at last and nothing after last moves; the pass reports an exchange exactly when some neighbouring pair of the old a[..last+1] was out of order; if no exchange happened, the array is unchanged and a[..last+1] is sorted |
| SimpleSorts.BubbleStep | t.py:40-45 | one comparison and conditional exchange carries the running maximum from j to j+1 |
| SimpleSorts.BubblePassKeepsOrder | t.py:35-48 | after pass i the last i+1 slots are sorted and at least every element before them |
| SimpleSorts.SortedJoin | t.py:47-48 | a sorted prefix followed by a sorted suffix that is at least every element of the prefix is sorted; this is why the early exit is correct |
| SimpleSorts.InsertionSort | t.py:113-125 | the array ends sorted, as a permutation, and a sorted input is unchanged; each step is a call of `GapInsert` with gap 1, whose contract says which elements move |
| SimpleSorts.GapInsert | t.py:142-150 | returns the slot p where a[i] lands: a position of a[i]'s sub-list at or below i, so p and i leave the same remainder modulo gap; each sub-list element above p up to i is the one a step below it, and that one was strictly greater than a[i]; the element a step below p, if any, is at most a[i]; every other position is unchanged; all pairs gap apart up to i are in order; each sub-list is permuted within itself, and the array is a permutation |
| SimpleSorts.ShiftGreater | t.py:144-148 | the inner loop stops at some j >= -gap, with a[j] at most the anchor when j >= 0; exactly the sub-list elements between the hole j+gap and i have moved up one step, and each was strictly greater than the anchor |
| SimpleSorts.ShiftOne | t.py:147-148 | one shift writes a[j] into a[j+gap] and keeps both loop states, with the hole one step lower |
| GapInsertion.GapInsertStart | t.py:142-144 | when a[i] is taken up, the only pair possibly out of order is the one ending at i |
| GapInsertion.ShiftedStart | t.py:142-144 | when a[i] is taken up, nothing has moved |
| GapInsertion.GapShiftStep | t.py:146-148 | moving an element strictly greater than the anchor gap places right keeps the insertion state, with the hole gap places further left; the list with the anchor in the hole stays a permutation, sub-list by sub-list |
| GapInsertion.ShiftOrder | t.py:146-148 | exchanging the hole with a greater element a step below it moves the one pair possibly out of order a step down the sub-list |
| GapInsertion.ShiftedStep | t.py:146-148 | moving an element strictly greater than the anchor into the hole records it as shifted, and every position off the moved part of the sub-list still holds its original value |
| GapInsertion.GapInsertEnd | t.py:150 | once the loop stops (the element before the hole is at most the anchor, or the hole is in the first gap slots), writing the anchor into the hole orders every pair up to i |
| GapInsertion.ShiftedEnd | t.py:150 | writing the anchor into the hole leaves the shifted elements above it, the element before the hole at most the anchor, and every other position as it was |
| GapInsertion.GapSortedUpToAll | t.py:140 | after the insertion loop reaches the last index, the whole list is gap-sorted |
| GapInsertion.StrideMod | t.py:144-148 | positions reached from i by steps of gap leave the same remainder modulo gap as i |
| GapInsertion.StrideAbove | t.py:146-148 | two different positions of one sub-list are at least gap apart |
| GapInsertion.ColumnUntouched | t.py:147 | a sub-list that meets neither j nor j+gap holds the same elements after changes at those two positions |
| GapInsertion.ColumnSwap | t.py:147 | exchanging the neighbours j and j+gap of one sub-list leaves its elements the same, followed from any position up to j |
| GapInsertion.ColumnShift | t.py:147 | the exchange of the hole and a[j] behind one shift keeps every sub-list a permutation of the original's |
| GapInsertion.ColumnsPermutedTrans | t.py:140-150 | permuting every sub-list twice permutes every sub-list, so a whole round of insertions does |
| SimpleSorts.GapInsertionPass | t.py:140-150 | one shell sort round leaves every element at most the one gap places to its right; each of the gap interleaved sub-lists holds the elements it held before, and the array is a permutation |
| SimpleSorts.Gaps | t.py:133-155 | the gap sequence from g is empty exactly when g is 0, and all its gaps are positive |
| SimpleSorts.GapsEndWithOne | t.py:133-155 | from a positive first gap the gaps strictly decrease and the last is 1 |
| SimpleSorts.NextGap | t.py:155 | after the round with gap g, the rounds still to run are those from g // 2 |
| SimpleSorts.ShellSort | t.py:131-155 | the rounds run for exactly the gaps n//2, n//4, ..., 1; the ghost list of states says that each round leaves the list sorted for its gap, with every sub-list of that gap a permutation of its part of the list before the round, and the last state is the final array; the array ends sorted, as a permutation, and a sorted input is unchanged |
| SimpleSorts.FirstMinimum | t.py:206-210 | returns the index of the first occurrence of the minimum of a[i..], because the comparison is strict |
| SimpleSorts.SelectionSort | t.py:204-213 | the array ends sorted, as a permutation, and a sorted input is unchanged |
| MergeSorting.Merge | t.py:160-182 | the reference merge: its length is the sum of the two lengths, and on equal heads the left list's head goes first |
| MergeSorting.MergeSides | t.py:164-171 | for each merged element its origin (left or right list), with as many entries as the merge |
| MergeSorting.MergeMultiset | t.py:160-182 | the merge holds exactly the elements of both lists |
| MergeSorting.MergeHead | t.py:165-171 | the merge starts with the smaller head, and with the left head on a tie |
| MergeSorting.MergeSorted | t.py:160-182 | the merge of two sorted lists is sorted |
| MergeSorting.MergeSidesSplit | t.py:164-182 | the elements taken from the left list are that list in order, and likewise for the right list |
| MergeSorting.FromA | t.py:165-167 | every element marked as taken from the left list is an element of it |
| MergeSorting.MergeStable | t.py:165 | because ties take from the left, an element of the right list never goes before an equal element of the sorted left list |
| MergeSorting.MergeTakesA | t.py:165-167 | when the left head is at most the right one, or the right list is used up, the rest of the merge starts with the left head |
| MergeSorting.MergeTakesB | t.py:169-171 | when the right head is smaller, or the left list is used up, the rest of the merge starts with the right head |
| MergeSorting.WriteFromA | t.py:166-172 | writing the left head at k keeps "written prefix plus the rest of the merge equals the merge" and leaves the later slots alone |
| MergeSorting.WriteFromB | t.py:170-172 | writing the right head at k keeps "written prefix plus the rest of the merge equals the merge" and leaves the later slots alone |
| MergeSorting.MergeRest | t.py:174-182 | once one list is used up, the rest of the merge is the rest of the other list |
| MergeSorting.CopyRest | t.py:174-182 | a tail loop appends src[from..] to the written prefix and touches nothing else |
| MergeSorting.TailsJoin | t.py:174-182 | copying the left tail and then the right tail completes the merge in the target |
| MergeSorting.MergeInto | t.py:160-182 | the first \|A\|+\|B\| slots of the target end equal to Merge(A, B) and the slots after them are untouched |
| MergeSorting.Slice | t.py:192-193 | each half is a fresh copy of the corresponding slice |
| MergeSorting.MergeSortStep | t.py:195-198 | merging sorted permutations of the two halves gives a sorted permutation of the whole, and leaves a sorted input as it was |
| MergeSorting.MergeSort | t.py:185-198 | the array ends sorted, as a permutation, and a sorted input is unchanged; arrays of at most one element are left alone |

## Left out

- The `time_it` decorator and the manual timing around the recursive sorts (t.py:3, 235-238, 249-252, 275-278, 289-292): clocks and printing are I/O.
- `sys.setrecursionlimit` (t.py:27): it configures the interpreter. The model has no recursion depth limit; `QuickSort` and `MergeSort` terminate by `decreases` on the range length.
- `python_sort_function` (t.py:218-220): it calls the library's `list.sort`, which is not part of this model.
- The `__main__` fixtures (t.py:225-298): they are concrete benchmark data. Their point is that both sorted and unsorted inputs are sorted correctly, and every sort's ensures states that for all inputs.
- Lists are modelled as `array<int>` of unbounded integers, like Python's `int`. The routines are not modelled on other element types that compare with `<` and `<=`.
- `MergeSort`: it has no return value. The source returns the list only in its base case (t.py:188), and every caller ignores that value.
- `MergeSort`: stability of the whole sort is not stated. `MergeStable` states the tie rule of each merge: the `<=` at t.py:165 takes the left half's element first, so an element of the right half never comes before an equal element of the left half. Equal integers cannot be told apart, so for the lists modelled the sorted result is unique (`SortedUnique`), and whole-sort stability would say nothing more.
- `MergeInto`: it reads the two sorted halves as values. In the source they are fresh copies made by slicing, so they never alias the target. The model does not track them as separate mutable objects after the copy.
- `QuickSort`: its requires admits only ranges inside the array (`lo < hi ==> 0 <= lo && hi < a.Length`). In the source a range past the end raises `IndexError`, for example `quick_sort(a, 0, len(a))` at t.py:72 with Hoare or t.py:84 with Lomuto, and a negative index wraps around to the end of the list. These paths are not modelled. Every call in the file passes a valid range (t.py:106-107, 236, 276).
- `HoarePartition`: its requires is `0 <= lo <= hi < a.Length`. Three paths of the source are not modelled. A start index past the end raises `IndexError` at t.py:62, when the pivot is read. An end index past the end, with the start inside, raises `IndexError` at t.py:72. Negative indices wrap around to the end of the list. When `lo > hi` the scan loop does not run (t.py:67); t.py:78 exchanges `a[lo]` and `a[hi]`, and the function returns `hi`. `QuickSort` never calls it so: the guard at t.py:99 returns first, and the call at t.py:105 gets a range of two or more elements inside the array.
- `LomutoPartition`: its requires is `0 <= lo <= hi < a.Length`. Three paths of the source are not modelled. An end index past the end raises `IndexError` at t.py:84, when the pivot is read. Negative indices wrap around to the end of the list. When `lo > hi` the range at t.py:87 is empty; t.py:92 exchanges `a[lo]` and `a[hi]`, which raises `IndexError` in the guard at t.py:54 if `lo` is past the end, and the function returns `lo`. `QuickSort` never calls it so: the guard at t.py:99 returns first, and the call at t.py:105 gets a range of two or more elements inside the array.
- `MergeInto`: its requires is `|A| + |B| <= arr.Length`. A shorter target raises `IndexError` at t.py:166, 170, 175 or 180; that path is not modelled. The only call (t.py:198) passes the list that both halves were sliced from, which has exactly `|A| + |B|` elements.
- `InsertionSort`: stability of the whole sort is not stated. Because the comparison at t.py:121 is strict, each step moves only elements strictly greater than the anchor, and `GapInsert` states this. Equal integers cannot be told apart, so for the lists modelled the sorted result is unique (`SortedUnique`), and whole-sort stability would say nothing more.
- `QuickSort`: the scheme is a parameter instead of a call that is edited by hand (t.py:103-105).
- Running time and the recursion depth on sorted inputs, which the comments at t.py:5-27 discuss, are not modelled.
