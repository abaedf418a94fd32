/**
 * Deterministic order-statistic selection (median of medians).
 *
 * SelectKth works on a caller-owned buffer that it may reorder; every
 * recursive call receives a fresh buffer (the group medians, or one bucket of
 * the three-way partition), so no level aliases another.
 */
module Selection {
  import opened Ranks

  /** Inputs of at most this many elements are answered directly. */
  const BaseCaseSize := 50

  /** The size of the groups whose medians are the pivot candidates. */
  const GroupSize := 5

  /** The index of a smallest element of a[lo..hi]. */
  method MinIndex(a: array<int>, lo: int, hi: int) returns (m: int)
    requires 0 <= lo < hi <= a.Length
    ensures lo <= m < hi
    ensures forall q :: lo <= q < hi ==> a[m] <= a[q]
  {
    m := lo;
    var j := lo + 1;
    while j < hi
      invariant lo <= m < j <= hi
      invariant forall q :: lo <= q < j ==> a[m] <= a[q]
    {
      if a[j] < a[m] {
        m := j;
      }
      j := j + 1;
    }
  }

  method Swap(a: array<int>, i: int, j: int)
    requires 0 <= i < a.Length && 0 <= j < a.Length
    modifies a
    ensures a[i] == old(a[j]) && a[j] == old(a[i])
    ensures forall p :: 0 <= p < a.Length && p != i && p != j ==> a[p] == old(a[p])
    ensures multiset(a[..]) == old(multiset(a[..]))
  {
    a[i], a[j] := a[j], a[i];
  }

  /** s[lo..hi] is in ascending order. */
  ghost predicate SortedBetween(s: seq<int>, lo: int, hi: int) {
    forall p, q :: lo <= p < q < hi && 0 <= p && q < |s| ==> s[p] <= s[q]
  }

  /** No element of s[lo..mid] is larger than an element of s[mid..hi]. */
  ghost predicate Dominates(s: seq<int>, lo: int, mid: int, hi: int) {
    forall p, q :: lo <= p < mid <= q < hi && 0 <= p && q < |s| ==> s[p] <= s[q]
  }

  /** s and t differ at most inside [lo, hi). */
  ghost predicate SameOutside(s: seq<int>, t: seq<int>, lo: int, hi: int) {
    |s| == |t| && forall p :: 0 <= p < |s| && !(lo <= p < hi) ==> s[p] == t[p]
  }

  /**
   * Rearranges a[lo..hi] in place so that a[lo..mid] holds, in ascending
   * order, elements none larger than any element of a[mid..hi]; nothing
   * outside [lo, hi) moves. This is the contract of std::partial_sort; with
   * mid == hi it is std::sort of the range, and with lo == 0, mid == k + 1,
   * hi == a.Length it meets the contract of std::nth_element at k.
   */
  method PartialSort(a: array<int>, lo: int, mid: int, hi: int)
    requires 0 <= lo <= mid <= hi <= a.Length
    modifies a
    ensures multiset(a[..]) == old(multiset(a[..]))
    ensures SameOutside(a[..], old(a[..]), lo, hi)
    ensures SortedBetween(a[..], lo, mid)
    ensures Dominates(a[..], lo, mid, hi)
  {
    var i := lo;
    while i < mid
      invariant lo <= i <= mid
      invariant multiset(a[..]) == old(multiset(a[..]))
      invariant forall p :: 0 <= p < a.Length && !(lo <= p < hi) ==> a[p] == old(a[p])
      invariant forall p, q :: lo <= p < q < i ==> a[p] <= a[q]
      invariant forall p, q :: lo <= p < i <= q < hi ==> a[p] <= a[q]
    {
      var m := MinIndex(a, i, hi);
      ghost var before := a[..];
      Swap(a, i, m);
      forall p, q | lo <= p < i + 1 <= q < hi
        ensures a[p] <= a[q]
      {
        assert a[q] == before[q] || a[q] == before[i];
      }
      i := i + 1;
    }
  }

  /**
   * Sorts the group a[l..r] in place and returns its median, the element at
   * offset (r - l + 1) / 2 of the sorted group.
   */
  method MedianOfSmallGroup(a: array<int>, l: int, r: int) returns (med: int)
    requires 0 <= l <= r < a.Length
    modifies a
    ensures multiset(a[..]) == old(multiset(a[..]))
    ensures SameOutside(a[..], old(a[..]), l, r + 1)
    ensures Sorted(a[l..r + 1])
    ensures med == a[l + (r + 1 - l) / 2]
    ensures med == MedianOf(old(a[..])[l..r + 1])
  {
    PartialSort(a, l, r + 1, r + 1);
    med := a[l + (r + 1 - l) / 2];
    SortedMedian(old(a[..]), a[..], l, r + 1, med);
  }

  /**
   * When after is before with [lo, hi) sorted in place, the middle element of
   * that window is the median of the original window.
   */
  lemma {:induction false} SortedMedian(before: seq<int>, after: seq<int>, lo: int, hi: int, med: int)
    requires 0 <= lo < hi <= |before|
    requires multiset(after) == multiset(before)
    requires SameOutside(after, before, lo, hi)
    requires SortedBetween(after, lo, hi)
    requires med == after[lo + (hi - lo) / 2]
    ensures Sorted(after[lo..hi])
    ensures med == MedianOf(before[lo..hi])
  {
    var group, window := after[lo..hi], before[lo..hi];
    assert Sorted(group);
    var sorted := SortSeq(window);
    assert group == sorted by {
      SliceMultiset(before, after, lo, hi);
      SortSeqSorted(window);
      SortSeqPerm(window);
      SortedUnique(group, sorted);
    }
    assert |window| == hi - lo;
    assert MedianOf(window) == sorted[(hi - lo) / 2];
    assert med == group[(hi - lo) / 2];
  }

  /** The inclusive end of the group that starts at i: min(i + 4, n - 1). */
  function GroupEnd(n: int, i: int): int {
    if i + GroupSize - 1 < n - 1 then i + GroupSize - 1 else n - 1
  }

  /** The g-th group of five consecutive elements of s (the last may be shorter). */
  function Group(s: seq<int>, g: nat): (group: seq<int>)
    requires GroupSize * g < |s|
    ensures 1 <= |group| <= GroupSize
  {
    s[GroupSize * g..GroupEnd(|s|, GroupSize * g) + 1]
  }

  /** The median of a non-empty group: the element at index len / 2 of the sorted group. */
  function MedianOf(group: seq<int>): int
    requires |group| >= 1
  {
    SortSeq(group)[|group| / 2]
  }

  lemma {:induction false} MedianIsElement(group: seq<int>)
    requires |group| >= 1
    ensures MedianOf(group) in group
  {
    var sorted := SortSeq(group);
    SortSeqPerm(group);
    assert sorted[|group| / 2] in multiset(sorted);
  }

  function GroupMedian(s: seq<int>, g: nat): int
    requires GroupSize * g < |s|
  {
    MedianOf(Group(s, g))
  }

  /** The medians of the first count groups of s, in group order. */
  function Medians(s: seq<int>, count: nat): (medians: seq<int>)
    requires GroupSize * count < |s| + GroupSize
    ensures |medians| == count
  {
    if count == 0 then [] else Medians(s, count - 1) + [GroupMedian(s, count - 1)]
  }

  /** Every group median is an element of the input. */
  lemma {:induction false} MediansAreElements(s: seq<int>, count: nat)
    requires GroupSize * count < |s| + GroupSize
    ensures forall x :: x in Medians(s, count) ==> x in s
  {
    if count > 0 {
      MediansAreElements(s, count - 1);
      var group := Group(s, count - 1);
      MedianIsElement(group);
      assert group <= s[GroupSize * (count - 1)..];
    }
  }

  /** Sorting the window [mid, hi) after touching only [0, mid) touches only [0, hi2). */
  lemma {:induction false} SameOutsideGrow(s: seq<int>, t: seq<int>, u: seq<int>, mid: int, hi: int, hi2: int)
    requires SameOutside(s, t, mid, hi)
    requires SameOutside(t, u, 0, mid)
    requires mid <= hi <= hi2
    ensures SameOutside(s, u, 0, hi2)
  {
  }

  /**
   * Splits a into consecutive groups of five (the last may be shorter) and
   * returns the median of each group, in group order; each group is sorted
   * in place on the way.
   */
  method MediansOfGroups(a: array<int>) returns (medians: seq<int>)
    modifies a
    ensures multiset(a[..]) == old(multiset(a[..]))
    ensures |medians| == (a.Length + GroupSize - 1) / GroupSize
    ensures medians == Medians(old(a[..]), |medians|)
  {
    ghost var before := a[..];
    var n := a.Length;
    medians := [];
    var i := 0;
    while i < n
      invariant 0 <= i < n + GroupSize && i == GroupSize * |medians|
      invariant multiset(a[..]) == multiset(before)
      invariant SameOutside(a[..], before, 0, i)
      invariant medians == Medians(before, |medians|)
    {
      var l := i;
      var r := GroupEnd(n, i);
      ghost var current := a[..];
      assert current[l..r + 1] == Group(before, |medians|);
      var med := MedianOfSmallGroup(a, l, r);
      assert med == GroupMedian(before, |medians|);
      assert Medians(before, |medians| + 1) == medians + [med];
      SameOutsideGrow(a[..], current, before, l, r + 1, i + GroupSize);
      medians := medians + [med];
      i := i + GroupSize;
    }
  }

  /**
   * One pass over a that splits it, in order, into the elements below,
   * equal to and above pivot.
   */
  method Partition3(a: array<int>, pivot: int) returns (L: seq<int>, E: seq<int>, G: seq<int>)
    ensures L == Bucket(a[..], pivot, Less)
    ensures E == Bucket(a[..], pivot, Equal)
    ensures G == Bucket(a[..], pivot, Greater)
    ensures multiset(L) + multiset(E) + multiset(G) == multiset(a[..])
    ensures |L| + |E| + |G| == a.Length
    ensures forall x :: x in L ==> x < pivot
    ensures forall x :: x in E ==> x == pivot
    ensures forall x :: x in G ==> x > pivot
  {
    L, E, G := [], [], [];
    var i := 0;
    while i < a.Length
      invariant 0 <= i <= a.Length
      invariant L == Bucket(a[..i], pivot, Less)
      invariant E == Bucket(a[..i], pivot, Equal)
      invariant G == Bucket(a[..i], pivot, Greater)
    {
      var x := a[i];
      assert a[..i + 1][..i] == a[..i];
      if x < pivot {
        L := L + [x];
      } else if x > pivot {
        G := G + [x];
      } else {
        E := E + [x];
      }
      i := i + 1;
    }
    assert a[..a.Length] == a[..];
    ThreeWaySplit(a[..], pivot);
    BucketMembers(a[..], pivot, Less);
    BucketMembers(a[..], pivot, Equal);
    BucketMembers(a[..], pivot, Greater);
    assert forall x :: x in L ==> InSide(x, pivot, Less);
    assert forall x :: x in E ==> InSide(x, pivot, Equal);
    assert forall x :: x in G ==> InSide(x, pivot, Greater);
  }

  /** Copies s into a fresh buffer (the copy of a vector). */
  method CopyToBuffer(s: seq<int>) returns (b: array<int>)
    ensures fresh(b)
    ensures b[..] == s
  {
    b := new int[|s|];
    var i := 0;
    while i < |s|
      invariant 0 <= i <= |s|
      invariant b[..i] == s[..i]
    {
      b[i] := s[i];
      i := i + 1;
    }
  }

  /**
   * If k indexes into the bucket below the pivot, the k-th smallest of that
   * bucket is the k-th smallest of the whole input.
   */
  lemma {:induction false} KthInLess(s: seq<int>, pivot: int, k: int, v: int)
    requires IsKthSmallest(Bucket(s, pivot, Less), k, v)
    ensures IsKthSmallest(s, k, v)
  {
    var L, E, G := Bucket(s, pivot, Less), Bucket(s, pivot, Equal), Bucket(s, pivot, Greater);
    KthIsElement(L, k, v);
    BucketMembers(s, pivot, Less);
    BucketMembers(s, pivot, Equal);
    BucketMembers(s, pivot, Greater);
    assert v < pivot;
    RanksOfPartition(s, pivot, v, Less);
    RanksOfPartition(s, pivot, v, Equal);
    assert forall x :: x in E ==> !InSide(x, v, Less) && !InSide(x, v, Equal);
    assert forall x :: x in G ==> !InSide(x, v, Less) && !InSide(x, v, Equal);
    BucketNone(E, v, Less);
    BucketNone(E, v, Equal);
    BucketNone(G, v, Less);
    BucketNone(G, v, Equal);
  }

  /**
   * If k lies past the buckets below and equal to the pivot, the k-th
   * smallest of the whole input is the (k - |L| - |E|)-th smallest of the
   * bucket above the pivot.
   */
  lemma {:induction false} KthInGreater(s: seq<int>, pivot: int, k: int, v: int)
    requires IsKthSmallest(Bucket(s, pivot, Greater),
                           k - |Bucket(s, pivot, Less)| - |Bucket(s, pivot, Equal)|, v)
    ensures IsKthSmallest(s, k, v)
  {
    var L, E, G := Bucket(s, pivot, Less), Bucket(s, pivot, Equal), Bucket(s, pivot, Greater);
    KthIsElement(G, k - |L| - |E|, v);
    BucketMembers(s, pivot, Less);
    BucketMembers(s, pivot, Equal);
    BucketMembers(s, pivot, Greater);
    assert v > pivot;
    RanksOfPartition(s, pivot, v, Less);
    RanksOfPartition(s, pivot, v, Equal);
    assert forall x :: x in L ==> InSide(x, v, Less) && !InSide(x, v, Equal);
    assert forall x :: x in E ==> InSide(x, v, Less) && !InSide(x, v, Equal);
    BucketAll(L, v, Less);
    BucketAll(E, v, Less);
    BucketNone(L, v, Equal);
    BucketNone(E, v, Equal);
  }

  /** The rank of any value in s is the sum of its ranks in the three buckets around pivot. */
  lemma {:induction false} RanksOfPartition(s: seq<int>, pivot: int, v: int, side: Side)
    ensures |Bucket(s, v, side)| ==
            |Bucket(Bucket(s, pivot, Less), v, side)| + |Bucket(Bucket(s, pivot, Equal), v, side)|
            + |Bucket(Bucket(s, pivot, Greater), v, side)|
  {
    var L, E, G := Bucket(s, pivot, Less), Bucket(s, pivot, Equal), Bucket(s, pivot, Greater);
    ThreeWaySplit(s, pivot);
    assert multiset(L + E + G) == multiset(s);
    BucketPerm(s, L + E + G, v, side);
    RanksOfConcat3(L, E, G, v, side);
  }

  /**
   * The base case: rearranges a as std::nth_element at k does, then reads
   * the element at k.
   */
  method SelectDirectly(a: array<int>, k: int) returns (v: int)
    requires 0 <= k < a.Length
    modifies a
    ensures multiset(a[..]) == old(multiset(a[..]))
    ensures IsKthSmallest(old(a[..]), k, v)
    ensures v == SortSeq(old(a[..]))[k]
  {
    PartialSort(a, 0, k + 1, a.Length);
    assert SortedBetween(a[..], 0, k + 1) && Dominates(a[..], 0, k + 1, a.Length);
    PartitionedAtKth(a[..], k);
    v := a[k];
    KthPerm(a[..], old(a[..]), k, v);
    KthIsSortedAt(old(a[..]), k, v);
  }

  /**
   * Returns the k-th smallest element (0-indexed) of a, which it may
   * reorder: the element at index k of the sorted copy of the input.
   */
  method SelectKth(a: array<int>, k: int) returns (v: int)
    requires 0 <= k < a.Length
    modifies a
    ensures multiset(a[..]) == old(multiset(a[..]))
    ensures IsKthSmallest(old(a[..]), k, v)
    ensures v == SortSeq(old(a[..]))[k]
    decreases a.Length, 1
  {
    ghost var input := a[..];
    var n := a.Length;
    if n <= BaseCaseSize {
      v := SelectDirectly(a, k);
      return;
    }

    var pivot := ChoosePivot(a);
    ghost var grouped := a[..];
    EqualBucketNonEmpty(grouped, pivot);

    var L, E, G := Partition3(a, pivot);
    assert L == Bucket(grouped, pivot, Less) && E == Bucket(grouped, pivot, Equal)
      && G == Bucket(grouped, pivot, Greater);
    if k < |L| {
      var less := CopyToBuffer(L);
      v := SelectKth(less, k);
      KthInLess(grouped, pivot, k, v);
    } else if k < |L| + |E| {
      v := pivot;
    } else {
      var greater := CopyToBuffer(G);
      v := SelectKth(greater, k - |L| - |E|);
      KthInGreater(grouped, pivot, k, v);
    }
    assert IsKthSmallest(grouped, k, v);
    assert a[..] == grouped;
    KthPerm(grouped, input, k, v);
    KthIsSortedAt(input, k, v);
  }

  /**
   * The pivot of a large input: the median of the group medians, selected
   * recursively. It is an element of the input, so the bucket equal to it is
   * never empty.
   */
  method ChoosePivot(a: array<int>) returns (pivot: int)
    requires a.Length > BaseCaseSize
    modifies a
    ensures multiset(a[..]) == old(multiset(a[..]))
    ensures pivot == MedianOf(Medians(old(a[..]), (a.Length + GroupSize - 1) / GroupSize))
    ensures pivot in a[..]
    decreases a.Length, 0
  {
    var medians := MediansOfGroups(a);
    ghost var grouped := a[..];
    var mid := |medians| / 2;
    var buffer := CopyToBuffer(medians);
    pivot := SelectKth(buffer, mid);
    assert a[..] == grouped;
    KthIsElement(medians, mid, pivot);
    MediansAreElements(old(a[..]), |medians|);
    assert pivot in multiset(old(a[..]));
  }
}
