# Delete-large-half container with median-of-medians selection

The program keeps an unsorted collection `S` of integers and supports two
operations:

- `insert_value(x)` appends `x`;
- `delete_large_half()` removes the `floor(n/2)` largest elements and keeps
  the `ceil(n/2)` smallest.

To delete, it finds the threshold `t`, the `ceil(n/2)`-th smallest element, with
deterministic median-of-medians selection (`select_kth_deterministic`). It runs
the selection on a copy of `S`. It then rebuilds `S` from:

- every element below `t`, in the original order;
- then just enough copies of `t` to keep exactly `ceil(n/2)` elements.

The Dafny model has three modules.

- `Ranks` (`ranks.dfy`) holds the reference definitions:
  - `Bucket(s, pivot, side)` is the ordered filter for `< pivot`, `== pivot` or `> pivot`.
  - `IsKthSmallest(s, k, v)` means that `k` falls in the block of sorted positions taken by the copies of `v`.
  - `SortSeq(s)` is the sorted copy of `s`, as an insertion sort.
  - The lemmas tie these together. Chief among them is `KthIsSortedAt`: the `k`-th smallest element is `SortSeq(s)[k]`.
- `Selection` (`selection.dfy`) is the selection engine, as in-place methods on an `array<int>`:
  - the group median `MedianOfSmallGroup`;
  - the group medians `MediansOfGroups`;
  - the pivot `ChoosePivot`;
  - the three-way split `Partition3`;
  - the base case `SelectDirectly`;
  - the recursion `SelectKth`.

  Each is proved against the reference definitions. Termination follows from the pivot being an element of the input: then `|L| < n` and `|G| < n`, and `|medians| = (n + 4) / 5 < n` once `n > 50`.
- `Halving` (`halving.dfy`) holds the container:
  - the specification `KeptHalf(s)` of what `delete_large_half` leaves;
  - the class `DeleteLargeHalfDS`, with a `seq<int>` field `S` and the methods `InsertValue` and `DeleteLargeHalf`;
  - the lemmas saying that the kept half:
    - has size `ceil(n/2)`;
    - is a sub-multiset of `S`;
    - holds exactly the `ceil(n/2)` smallest elements;
    - never holds an element larger than a removed one;
  - the worked example from the source's comment.

## Model

| member | source | states |
|---|---|---|
| `Ranks.Bucket` | 20260227work1.cpp:74-78 | The bucket on one side of the pivot is no longer than its input; `BucketMembers` and `BucketMultiset` add that it holds exactly the input's elements on that side, every copy of each. |
| `Ranks.BucketMembers` | 20260227work1.cpp:74-78 | Every element of a bucket comes from the input and lies on the bucket's side of the pivot. |
| `Ranks.BucketMultiset` | 20260227work1.cpp:74-78 | The multiplicity of each value in a bucket is its multiplicity in the input if it lies on that side, and zero otherwise. |
| `Ranks.ThreeWaySplit` | 20260227work1.cpp:69-78 | The buckets below, equal to and above any pivot add up to the input as a multiset and in size. |
| `Ranks.EqualBucketNonEmpty` | 20260227work1.cpp:64-78 | A pivot that occurs in the input puts at least one element in the equal bucket. |
| `Ranks.KthPerm` | 20260227work1.cpp:38-40 | Being the k-th smallest element depends only on the multiset, so reordering the buffer does not change the answer. |
| `Ranks.KthIsElement` | 20260227work1.cpp:64-66 | The k-th smallest element of a sequence is one of its elements. |
| `Ranks.PartitionedAtKth` | 20260227work1.cpp:47-49 | If no element before index k is larger than s[k] and none after it is smaller (the contract of nth_element), then s[k] is the k-th smallest. |
| `Ranks.KthUnique` | 20260227work1.cpp:38-40 | At most one value is the k-th smallest. |
| `Ranks.SortedAtIsKth` | 20260227work1.cpp:38-40 | The element at index k of the sorted copy is the k-th smallest. |
| `Ranks.KthIsSortedAt` | 20260227work1.cpp:38-40 | Conversely, the k-th smallest is the element at index k of the sorted copy, and k is a valid index. |
| `Ranks.SortSeqSorted` | 20260227work1.cpp:32 | The sorted copy is in ascending order. |
| `Ranks.SortSeqPerm` | 20260227work1.cpp:32 | The sorted copy is a permutation of its input. |
| `Ranks.SortedUnique` | 20260227work1.cpp:32 | Two ascending sequences with the same multiset are equal, so a sorted range is the sorted copy of what it held. |
| `Ranks.SliceMultiset` | 20260227work1.cpp:32 | A permutation of a buffer that keeps everything outside [lo, hi) in place permutes [lo, hi) within itself. |
| `Selection.MinIndex` | 20260227work1.cpp:32 | Returns the index of a least element of a[lo..hi]. |
| `Selection.PartialSort` | 20260227work1.cpp:32 | Sorts a[lo..mid] in place with no element of it larger than any element of a[mid..hi], moves nothing outside [lo, hi), and preserves the multiset; this is the contract of std::sort on a range and of std::nth_element. |
| `Selection.MedianOfSmallGroup` | 20260227work1.cpp:31-35 | Sorts a[l..r] in place, touches nothing else, preserves the multiset, and returns a[l + len/2], which is the median of the group as it was before the call. |
| `Selection.SortedMedian` | 20260227work1.cpp:31-35 | The middle element of a range sorted in place is the median of the range's original contents. |
| `Selection.Group` | 20260227work1.cpp:54-57 | The g-th group holds between one and five consecutive elements, from 5g to min(5g + 4, n - 1). |
| `Selection.MedianIsElement` | 20260227work1.cpp:34 | A group median is an element of the group. |
| `Selection.Medians` | 20260227work1.cpp:52-62 | The list of group medians has one entry per group, in group order. |
| `Selection.MediansAreElements` | 20260227work1.cpp:52-62 | Every group median is an element of the input. |
| `Selection.MediansOfGroups` | 20260227work1.cpp:52-62 | Produces (n + 4) / 5 medians, the median of each group of the input in order, and keeps the buffer's multiset. |
| `Selection.Partition3` | 20260227work1.cpp:69-78 | The three buckets are the ordered filters of the buffer below, equal to and above the pivot; together they are the buffer as a multiset, and each element lies on its bucket's side. |
| `Selection.KthInLess` | 20260227work1.cpp:81-83 | If k < size(L), the k-th smallest of L is the k-th smallest of the input. |
| `Selection.KthInGreater` | 20260227work1.cpp:87 | If k >= size(L) + size(E), the (k - size(L) - size(E))-th smallest of G is the k-th smallest of the input. |
| `Selection.RanksOfPartition` | 20260227work1.cpp:69-87 | The rank counts of any value in the input are the sums of its rank counts in the three buckets. |
| `Selection.SelectDirectly` | 20260227work1.cpp:47-50 | The base case returns the k-th smallest element of the input, its index k in sorted order, and keeps the buffer's multiset. |
| `Selection.ChoosePivot` | 20260227work1.cpp:52-66 | The pivot is the median of the group medians of the input and is an element of the input; the buffer keeps its multiset. |
| `Selection.SelectKth` | 20260227work1.cpp:42-88 | For 0 <= k < n, returns the k-th smallest element of the input, equal to the element at index k of the sorted input, and reorders the buffer without changing its multiset. The pivot answers when size(L) <= k < size(L) + size(E). |
| `Selection.CopyToBuffer` | 20260227work1.cpp:112 | A fresh buffer holds exactly the given sequence. |
| `Halving.Need` | 20260227work1.cpp:128-137 | The number of copies of t to keep is at least one and at most the number of copies present, so neither guard on need ever fires. |
| `Halving.KeptHalf` | 20260227work1.cpp:102-145 | The kept half has ceil(n/2) elements. |
| `Halving.KeepSplit` | 20260227work1.cpp:116-142 | The input is what is kept, plus the other copies of t, plus the elements above t, as a multiset. |
| `Halving.KeptHalfSubMultiset` | 20260227work1.cpp:115-144 | Deleting the larger half only removes elements. |
| `Halving.ThresholdSeparates` | 20260227work1.cpp:111-124 | Every kept element is at most the threshold and every removed element at least the threshold. |
| `Halving.KeptHalfDominates` | 20260227work1.cpp:106-107 | Every kept element is at most every removed element. |
| `Halving.KeptHalfIsSmallest` | 20260227work1.cpp:106-109 | As a multiset, the kept half is the first ceil(n/2) elements of the sorted input: exactly the ceil(n/2) smallest. |
| `Halving.SortedPrefix` | 20260227work1.cpp:126-128 | The first k elements of a sorted sequence are those below its k-th element plus enough copies of it. |
| `Halving.KeepIsSortedPrefix` | 20260227work1.cpp:126-142 | Keeping the elements below u[k-1] and k - size(L) copies of it keeps the first k elements of the sorted input. |
| `Halving.SplitByThreshold` | 20260227work1.cpp:116-124 | One pass collects, in order, the elements below t and the copies of t, and drops the rest. |
| `Halving.Rebuild` | 20260227work1.cpp:139-142 | The new contents are all of L followed by the first need elements of E. |
| `Halving.DeleteLargeHalfDS.constructor` | 20260227work1.cpp:92-95 | A new container is empty. |
| `Halving.DeleteLargeHalfDS.InsertValue` | 20260227work1.cpp:97-100 | Appends x to S and changes nothing else in S. |
| `Halving.DeleteLargeHalfDS.DeleteLargeHalf` | 20260227work1.cpp:102-145 | Leaves S equal to KeptHalf of the old S: unchanged when there is at most one element, otherwise of size ceil(n/2), a sub-multiset of the old S, with every kept element at most every removed one. |
| `Halving.FirstDeletion` | 20260227work1.cpp:163-168 | Deleting from [a, b, c] with b < c < a leaves [b, c]. |
| `Halving.SecondDeletion` | 20260227work1.cpp:169-170 | Deleting from [b, c, d] with b < d < c leaves [b, d]. |
| `Halving.ThirdDeletion` | 20260227work1.cpp:171 | Deleting from [b, d] with b < d leaves [b]. |
| `Halving.WorkedExample` | 20260227work1.cpp:163-171 | Insert a, b, c; delete; insert d; delete; delete: with b < d < c < a, only b is left. |
| `Halving.ExampleRun` | 20260227work1.cpp:163-171 | The example input 10, 3, 7, delete, 5, delete, delete leaves S = [3]. |

## Left out

- `main` (stdin command parsing and stdout output) and `print_state` (a debug dump to `cout`) are I/O and are not modelled. The worked example stands in for the sample input.
- Complexity claims are not modelled: worst-case linear selection and the amortized O(m) cost of a sequence of operations. Only the size facts that give termination are proved.
- `std::sort` and `std::nth_element` are modelled by their contracts, not their implementations. `PartialSort`, an in-place selection sort, meets the contract of `std::sort` on a range (`mid == hi`) and a stronger form of the `std::nth_element` contract (the prefix up to k also comes out sorted). The source's final buffer order after `nth_element` is thus one of the orders the library allows, not necessarily the one a given library produces.
- `reserve` calls are capacity hints and are not modelled.
- C++ `int` is modelled as an unbounded integer, so overflow of `n`, `k` or the element values is not modelled.
- SelectKth: requires `0 <= k < n`, as does SelectDirectly. The source indexes `A[k]` without checking, which is undefined outside that range.
- Each `vector` is passed by reference and reordered in place, so it is modelled as an `array<int>`. The fresh vectors `medians`, `L`, `E`, `G` and `tmp` are built as sequences and copied into new arrays (`CopyToBuffer`) before a recursive call that reorders them.
- `S.swap(newS)` is modelled as assigning the rebuilt sequence to the field `S`. The old contents of `newS` are not modelled: the source discards them.
