/**
 * Order statistics on integer sequences: the reference definitions that the
 * selection engine and the halving container are proved against.
 *
 * The rank of a value v in s is described by two counts: how many elements
 * are strictly below v and how many are equal to v. Value v is the k-th
 * smallest element (0-indexed) exactly when k falls inside the block of
 * positions that the copies of v would occupy in a sorted copy of s.
 */
module Ranks {

  /** The three buckets of a three-way partition around a pivot. */
  datatype Side = Less | Equal | Greater

  predicate InSide(x: int, pivot: int, side: Side) {
    match side
    case Less => x < pivot
    case Equal => x == pivot
    case Greater => x > pivot
  }

  /** The elements of s that lie on the given side of pivot, in their order in s. */
  function Bucket(s: seq<int>, pivot: int, side: Side): (b: seq<int>)
    ensures |b| <= |s|
  {
    if s == [] then []
    else
      var b0 := Bucket(s[..|s| - 1], pivot, side);
      if InSide(s[|s| - 1], pivot, side) then b0 + [s[|s| - 1]] else b0
  }

  /** A bucket holds only elements of s that lie on its side. */
  lemma {:induction false} BucketMembers(s: seq<int>, pivot: int, side: Side)
    ensures forall x :: x in Bucket(s, pivot, side) ==> x in s && InSide(x, pivot, side)
  {
    if s != [] {
      BucketMembers(s[..|s| - 1], pivot, side);
    }
  }

  /** v is the element at sorted position k of s. */
  predicate IsKthSmallest(s: seq<int>, k: int, v: int) {
    |Bucket(s, v, Less)| <= k < |Bucket(s, v, Less)| + |Bucket(s, v, Equal)|
  }

  predicate Sorted(s: seq<int>) {
    forall i, j :: 0 <= i < j < |s| ==> s[i] <= s[j]
  }

  /** Inserts x into the sorted sequence t. */
  function Insert(x: int, t: seq<int>): (r: seq<int>)
    ensures |r| == |t| + 1
  {
    if t == [] || x <= t[0] then [x] + t
    else [t[0]] + Insert(x, t[1..])
  }

  lemma {:induction false} InsertPerm(x: int, t: seq<int>)
    ensures multiset(Insert(x, t)) == multiset(t) + multiset{x}
  {
    if t != [] && x > t[0] {
      InsertPerm(x, t[1..]);
      assert t == [t[0]] + t[1..];
    }
  }

  /** Putting a lower bound of a sorted sequence in front keeps it sorted. */
  lemma {:induction false} ConsSorted(h: int, t: seq<int>)
    requires Sorted(t)
    requires forall y :: y in t ==> h <= y
    ensures Sorted([h] + t)
  {
    var r := [h] + t;
    forall i, j | 0 <= i < j < |r|
      ensures r[i] <= r[j]
    {
      assert r[j] == t[j - 1];
      if i > 0 {
        assert r[i] == t[i - 1];
      } else {
        assert t[j - 1] in t;
      }
    }
  }

  /** Each element of Insert(x, t) is x or an element of t. */
  lemma {:induction false} InsertMembers(x: int, t: seq<int>, y: int)
    requires y in Insert(x, t)
    ensures y == x || y in t
  {
    InsertPerm(x, t);
    assert y in multiset(Insert(x, t));
  }

  lemma {:induction false} InsertSorted(x: int, t: seq<int>)
    requires Sorted(t)
    ensures Sorted(Insert(x, t))
  {
    if t != [] && x > t[0] {
      var r0 := Insert(x, t[1..]);
      assert Sorted(r0) by {
        InsertSorted(x, t[1..]);
      }
      forall y | y in r0
        ensures t[0] <= y
      {
        InsertMembers(x, t[1..], y);
        if y != x {
          var m :| 0 <= m < |t[1..]| && t[1..][m] == y;
          assert t[m + 1] == y;
        }
      }
      ConsSorted(t[0], r0);
    }
  }

  /** The sorted copy of s: the reference that a selection result is compared with. */
  function SortSeq(s: seq<int>): (r: seq<int>)
    ensures |r| == |s|
  {
    if s == [] then []
    else Insert(s[|s| - 1], SortSeq(s[..|s| - 1]))
  }

  lemma {:induction false} SortSeqPerm(s: seq<int>)
    ensures multiset(SortSeq(s)) == multiset(s)
  {
    if s != [] {
      SortSeqPerm(s[..|s| - 1]);
      InsertPerm(s[|s| - 1], SortSeq(s[..|s| - 1]));
      assert s == s[..|s| - 1] + [s[|s| - 1]];
    }
  }

  lemma {:induction false} SortSeqSorted(s: seq<int>)
    ensures Sorted(SortSeq(s))
  {
    if s != [] {
      SortSeqSorted(s[..|s| - 1]);
      InsertSorted(s[|s| - 1], SortSeq(s[..|s| - 1]));
    }
  }

  /** A bucket holds every copy of each value on its side, and nothing else. */
  lemma {:induction false} BucketMultiset(s: seq<int>, pivot: int, side: Side)
    ensures forall x :: multiset(Bucket(s, pivot, side))[x] ==
                        if InSide(x, pivot, side) then multiset(s)[x] else 0
  {
    if s != [] {
      var init, last := s[..|s| - 1], s[|s| - 1];
      assert s == init + [last];
      BucketMultiset(init, pivot, side);
    }
  }

  /** Buckets depend only on the multiset of the input, not on its order. */
  lemma {:induction false} BucketPerm(s: seq<int>, t: seq<int>, pivot: int, side: Side)
    requires multiset(s) == multiset(t)
    ensures multiset(Bucket(s, pivot, side)) == multiset(Bucket(t, pivot, side))
    ensures |Bucket(s, pivot, side)| == |Bucket(t, pivot, side)|
  {
    BucketMultiset(s, pivot, side);
    BucketMultiset(t, pivot, side);
    var ms, mt := multiset(Bucket(s, pivot, side)), multiset(Bucket(t, pivot, side));
    assert forall x :: ms[x] == mt[x];
    assert ms == mt;
    assert |ms| == |mt|;
  }

  lemma {:induction false} BucketConcat(a: seq<int>, b: seq<int>, pivot: int, side: Side)
    ensures Bucket(a + b, pivot, side) == Bucket(a, pivot, side) + Bucket(b, pivot, side)
  {
    if b == [] {
      assert a + b == a;
    } else {
      var init := b[..|b| - 1];
      assert (a + b)[..|a + b| - 1] == a + init;
      BucketConcat(a, init, pivot, side);
    }
  }

  lemma {:induction false} BucketNone(s: seq<int>, pivot: int, side: Side)
    requires forall x :: x in s ==> !InSide(x, pivot, side)
    ensures Bucket(s, pivot, side) == []
  {
    if s != [] {
      BucketNone(s[..|s| - 1], pivot, side);
    }
  }

  lemma {:induction false} BucketAll(s: seq<int>, pivot: int, side: Side)
    requires forall x :: x in s ==> InSide(x, pivot, side)
    ensures Bucket(s, pivot, side) == s
  {
    if s != [] {
      BucketAll(s[..|s| - 1], pivot, side);
      assert s == s[..|s| - 1] + [s[|s| - 1]];
    }
  }

  /** The three-way partition around any pivot is exact: L + E + G is s as a multiset. */
  lemma {:induction false} ThreeWaySplit(s: seq<int>, pivot: int)
    ensures multiset(Bucket(s, pivot, Less)) + multiset(Bucket(s, pivot, Equal))
            + multiset(Bucket(s, pivot, Greater)) == multiset(s)
    ensures |Bucket(s, pivot, Less)| + |Bucket(s, pivot, Equal)| + |Bucket(s, pivot, Greater)| == |s|
  {
    BucketMultiset(s, pivot, Less);
    BucketMultiset(s, pivot, Equal);
    BucketMultiset(s, pivot, Greater);
    var m := multiset(Bucket(s, pivot, Less)) + multiset(Bucket(s, pivot, Equal))
             + multiset(Bucket(s, pivot, Greater));
    assert forall x :: m[x] == multiset(s)[x];
    assert m == multiset(s);
    assert |m| == |multiset(s)|;
  }

  /** A value present in s puts at least one element in the Equal bucket. */
  lemma {:induction false} EqualBucketNonEmpty(s: seq<int>, pivot: int)
    requires pivot in s
    ensures |Bucket(s, pivot, Equal)| >= 1
  {
    BucketMultiset(s, pivot, Equal);
    assert multiset(Bucket(s, pivot, Equal))[pivot] == multiset(s)[pivot] > 0;
  }

  /** Being the k-th smallest depends only on the multiset of the input. */
  lemma {:induction false} KthPerm(s: seq<int>, t: seq<int>, k: int, v: int)
    requires multiset(s) == multiset(t)
    requires IsKthSmallest(s, k, v)
    ensures IsKthSmallest(t, k, v)
  {
    BucketPerm(s, t, v, Less);
    BucketPerm(s, t, v, Equal);
  }

  /** The k-th smallest element is an element of the input. */
  lemma {:induction false} KthIsElement(s: seq<int>, k: int, v: int)
    requires IsKthSmallest(s, k, v)
    ensures v in s
  {
    var e := Bucket(s, v, Equal);
    BucketMembers(s, v, Equal);
    assert e[0] in e;
    assert InSide(e[0], v, Equal);
  }

  /** Ranks in a concatenation of three sequences add up. */
  lemma {:induction false} RanksOfConcat3(a: seq<int>, b: seq<int>, c: seq<int>, v: int, side: Side)
    ensures |Bucket(a + b + c, v, side)| ==
            |Bucket(a, v, side)| + |Bucket(b, v, side)| + |Bucket(c, v, side)|
  {
    BucketConcat(a + b, c, v, side);
    BucketConcat(a, b, v, side);
  }

  /**
   * An element with no larger element before it and no smaller one after it
   * (the postcondition of nth_element) is the k-th smallest.
   */
  lemma {:induction false} PartitionedAtKth(s: seq<int>, k: int)
    requires 0 <= k < |s|
    requires forall i :: 0 <= i < k ==> s[i] <= s[k]
    requires forall j :: k < j < |s| ==> s[k] <= s[j]
    ensures IsKthSmallest(s, k, s[k])
  {
    var v := s[k];
    var before, after := s[..k], s[k + 1..];
    assert s == before + [v] + after;
    RanksOfConcat3(before, [v], after, v, Less);
    RanksOfConcat3(before, [v], after, v, Equal);
    assert forall x :: x in after ==> !InSide(x, v, Less);
    BucketNone(after, v, Less);
    assert forall x :: x in before ==> !InSide(x, v, Greater);
    BucketNone(before, v, Greater);
    ThreeWaySplit(before, v);
    assert |Bucket(before, v, Less)| + |Bucket(before, v, Equal)| == k;
    assert Bucket([v], v, Less) == [];
    assert Bucket([v], v, Equal) == [v];
  }

  /** Every element at most v below w is counted among the elements below w. */
  lemma {:induction false} RankMonotone(s: seq<int>, v: int, w: int)
    requires v < w
    ensures |Bucket(s, v, Less)| + |Bucket(s, v, Equal)| <= |Bucket(s, w, Less)|
  {
    if s != [] {
      RankMonotone(s[..|s| - 1], v, w);
    }
  }

  /** At most one value is the k-th smallest. */
  lemma {:induction false} KthUnique(s: seq<int>, k: int, v: int, w: int)
    requires IsKthSmallest(s, k, v) && IsKthSmallest(s, k, w)
    ensures v == w
  {
    if v < w {
      RankMonotone(s, v, w);
    } else if w < v {
      RankMonotone(s, w, v);
    }
  }

  /** The element at index k of the sorted copy is the k-th smallest. */
  lemma {:induction false} SortedAtIsKth(s: seq<int>, k: int)
    requires 0 <= k < |s|
    ensures IsKthSmallest(s, k, SortSeq(s)[k])
  {
    var t := SortSeq(s);
    SortSeqSorted(s);
    SortSeqPerm(s);
    PartitionedAtKth(t, k);
    KthPerm(t, s, k, t[k]);
  }

  /** The k-th smallest element is the element at index k of the sorted copy. */
  lemma {:induction false} KthIsSortedAt(s: seq<int>, k: int, v: int)
    requires IsKthSmallest(s, k, v)
    ensures 0 <= k < |s|
    ensures v == SortSeq(s)[k]
  {
    ThreeWaySplit(s, v);
    SortedAtIsKth(s, k);
    KthUnique(s, k, v, SortSeq(s)[k]);
  }

  /** The multiset of a non-empty sequence splits into its head and its tail. */
  lemma {:induction false} HeadTail(s: seq<int>)
    requires s != []
    ensures multiset(s) == multiset{s[0]} + multiset(s[1..])
  {
    assert s == [s[0]] + s[1..];
  }

  /** The head of a sorted sequence is at most each of its elements. */
  lemma {:induction false} SortedHeadIsLeast(s: seq<int>, x: int)
    requires Sorted(s)
    requires x in multiset(s)
    ensures s != [] && s[0] <= x
  {
    var j :| 0 <= j < |s| && s[j] == x;
  }

  /** A sorted sequence is determined by its multiset: it is the sorted copy. */
  lemma {:induction false} SortedUnique(a: seq<int>, b: seq<int>)
    requires Sorted(a) && Sorted(b)
    requires multiset(a) == multiset(b)
    ensures a == b
  {
    if a == [] {
      assert |b| == |multiset(b)| == 0;
    } else {
      assert a[0] == b[0] by {
        assert b[0] in multiset(b);
        SortedHeadIsLeast(a, b[0]);
        SortedHeadIsLeast(b, a[0]);
      }
      assert multiset(a[1..]) == multiset(b[1..]) by {
        TailsPerm(a, b);
      }
      assert a[1..] == b[1..] by {
        SortedUnique(a[1..], b[1..]);
      }
      assert a == [a[0]] + a[1..];
      assert b == [b[0]] + b[1..];
    }
  }

  /** Permutations with the same head have permuted tails. */
  lemma {:induction false} TailsPerm(a: seq<int>, b: seq<int>)
    requires a != [] && b != [] && a[0] == b[0]
    requires multiset(a) == multiset(b)
    ensures multiset(a[1..]) == multiset(b[1..])
  {
    HeadTail(a);
    HeadTail(b);
    var ta, tb := multiset(a[1..]), multiset(b[1..]);
    forall x
      ensures ta[x] == tb[x]
    {
      assert multiset(a)[x] == multiset(b)[x];
    }
    assert ta == tb;
  }

  /**
   * Two sequences that agree outside [lo, hi) and are permutations of each
   * other also permute each other inside [lo, hi).
   */
  lemma {:induction false} SliceMultiset(s: seq<int>, t: seq<int>, lo: int, hi: int)
    requires 0 <= lo <= hi <= |s| == |t|
    requires forall p :: 0 <= p < |s| && !(lo <= p < hi) ==> s[p] == t[p]
    requires multiset(s) == multiset(t)
    ensures multiset(s[lo..hi]) == multiset(t[lo..hi])
  {
    assert s == s[..lo] + s[lo..hi] + s[hi..];
    assert t == t[..lo] + t[lo..hi] + t[hi..];
    assert s[..lo] == t[..lo];
    assert s[hi..] == t[hi..];
    assert multiset(s) == multiset(s[..lo]) + multiset(s[lo..hi]) + multiset(s[hi..]);
    assert multiset(t) == multiset(t[..lo]) + multiset(t[lo..hi]) + multiset(t[hi..]);
    forall x
      ensures multiset(s[lo..hi])[x] == multiset(t[lo..hi])[x]
    {
      assert multiset(s)[x] == multiset(t)[x];
      assert multiset(s[..lo])[x] == multiset(t[..lo])[x];
      assert multiset(s[hi..])[x] == multiset(t[hi..])[x];
    }
  }
}
