// The DeleteLargeHalfDS container: an unsorted collection of integers that
// supports appending a value and deleting the larger half of its elements.

module Halving {
  import opened Ranks
  import opened Selection

  /** How many elements delete_large_half keeps out of n: ceil(n / 2). */
  function KeepCount(n: nat): nat {
    (n + 1) / 2
  }

  /** The threshold t: the KeepCount(|s|)-th smallest element of s. */
  function Threshold(s: seq<int>): int
    requires |s| >= 1
  {
    SortSeq(s)[KeepCount(|s|) - 1]
  }

  /**
   * The number of copies of the threshold that are kept besides the elements
   * below it. Its range says that the guards on need in delete_large_half
   * never fire: at least one and at most all of the copies are kept.
   */
  function Need(s: seq<int>): (need: int)
    requires |s| >= 1
    ensures 0 < need <= |Bucket(s, Threshold(s), Equal)|
  {
    SortedAtIsKth(s, KeepCount(|s|) - 1);
    KeepCount(|s|) - |Bucket(s, Threshold(s), Less)|
  }

  /** The elements of s below t in their order, then the first need copies of t. */
  function Keep(s: seq<int>, t: int, need: int): seq<int>
    requires 0 <= need <= |Bucket(s, t, Equal)|
  {
    Bucket(s, t, Less) + Bucket(s, t, Equal)[..need]
  }

  /**
   * What delete_large_half leaves in S: the elements below the threshold in
   * their original order, followed by just enough copies of the threshold.
   */
  function KeptHalf(s: seq<int>): (kept: seq<int>)
    ensures |kept| == KeepCount(|s|)
  {
    if |s| <= 1 then s else Keep(s, Threshold(s), Need(s))
  }

  /** The elements delete_large_half removes from s, as a multiset. */
  ghost function Removed(s: seq<int>): multiset<int> {
    multiset(s) - multiset(KeptHalf(s))
  }

  /** s splits into what Keep keeps, the other copies of t, and the elements above t. */
  lemma {:induction false} KeepSplit(s: seq<int>, t: int, need: int)
    requires 0 <= need <= |Bucket(s, t, Equal)|
    ensures multiset(s) == multiset(Keep(s, t, need))
              + multiset(Bucket(s, t, Equal)[need..]) + multiset(Bucket(s, t, Greater))
  {
    var L, E, G := Bucket(s, t, Less), Bucket(s, t, Equal), Bucket(s, t, Greater);
    ThreeWaySplit(s, t);
    assert E == E[..need] + E[need..];
    assert multiset(E) == multiset(E[..need]) + multiset(E[need..]);
  }

  /** Keep keeps nothing above t. */
  lemma {:induction false} KeepAtMost(s: seq<int>, t: int, need: int, x: int)
    requires 0 <= need <= |Bucket(s, t, Equal)|
    requires x in Keep(s, t, need)
    ensures x <= t
  {
    var L, E := Bucket(s, t, Less), Bucket(s, t, Equal);
    BucketMembers(s, t, Less);
    BucketMembers(s, t, Equal);
    if x !in L {
      assert x in E[..need];
      assert x in E;
    }
  }

  /** Keep drops nothing below t. */
  lemma {:induction false} DroppedAtLeast(s: seq<int>, t: int, need: int, y: int)
    requires 0 <= need <= |Bucket(s, t, Equal)|
    requires y in multiset(s) - multiset(Keep(s, t, need))
    ensures y >= t
  {
    var E, G := Bucket(s, t, Equal), Bucket(s, t, Greater);
    var rest := multiset(E[need..]) + multiset(G);
    assert y in rest by {
      KeepSplit(s, t, need);
      var kept := multiset(Keep(s, t, need));
      assert multiset(s)[y] == kept[y] + rest[y];
    }
    BucketMembers(s, t, Equal);
    BucketMembers(s, t, Greater);
    if y !in G {
      assert y in multiset(E[need..]);
      assert y in E[need..];
      assert y in E;
    }
  }

  /** Deleting the larger half removes elements and never adds one. */
  lemma {:induction false} KeptHalfSubMultiset(s: seq<int>)
    ensures multiset(KeptHalf(s)) <= multiset(s)
  {
    if |s| >= 2 {
      KeepSplit(s, Threshold(s), Need(s));
    }
  }

  /** Every kept element is at most the threshold, and every removed one at least the threshold. */
  lemma {:induction false} ThresholdSeparates(s: seq<int>, x: int, y: int)
    requires |s| >= 2
    ensures x in KeptHalf(s) ==> x <= Threshold(s)
    ensures y in Removed(s) ==> y >= Threshold(s)
  {
    var t, need := Threshold(s), Need(s);
    assert KeptHalf(s) == Keep(s, t, need);
    if x in KeptHalf(s) {
      KeepAtMost(s, t, need, x);
    }
    if y in Removed(s) {
      DroppedAtLeast(s, t, need, y);
    }
  }

  /** Every kept element is at most every removed element: the larger half is what goes. */
  lemma {:induction false} KeptHalfDominates(s: seq<int>, x: int, y: int)
    requires x in KeptHalf(s)
    requires y in Removed(s)
    ensures x <= y
  {
    if |s| >= 2 {
      ThresholdSeparates(s, x, y);
    }
  }

  /**
   * The first k elements of a sorted sequence are the elements below u[k - 1]
   * together with enough copies of u[k - 1].
   */
  lemma {:induction false} SortedPrefix(u: seq<int>, k: int)
    requires Sorted(u)
    requires 0 < k <= |u|
    ensures multiset(u[..k]) == multiset(Bucket(u, u[k - 1], Less))
                                  + multiset(Bucket(u[..k], u[k - 1], Equal))
    ensures |Bucket(u[..k], u[k - 1], Equal)| == k - |Bucket(u, u[k - 1], Less)|
  {
    var t, p, q := u[k - 1], u[..k], u[k..];
    assert u == p + q;
    forall x | x in q
      ensures !InSide(x, t, Less)
    {
      var j :| 0 <= j < |q| && q[j] == x;
      assert u[k + j] == x;
    }
    forall x | x in p
      ensures !InSide(x, t, Greater)
    {
      var j :| 0 <= j < |p| && p[j] == x;
      assert u[j] == x;
    }
    BucketConcat(p, q, t, Less);
    BucketNone(q, t, Less);
    BucketNone(p, t, Greater);
    ThreeWaySplit(p, t);
  }

  /**
   * If u is s sorted and t = u[k - 1], keeping the elements below t and
   * k - |below| copies of t keeps the first k elements of u.
   */
  lemma {:induction false} KeepIsSortedPrefix(s: seq<int>, u: seq<int>, k: int, t: int, need: int)
    requires Sorted(u) && multiset(u) == multiset(s)
    requires 0 < k <= |u| && t == u[k - 1]
    requires 0 <= need <= |Bucket(s, t, Equal)|
    requires need == k - |Bucket(s, t, Less)|
    ensures multiset(Keep(s, t, need)) == multiset(u[..k])
  {
    SortedPrefix(u, k);
    BucketPerm(u, s, t, Less);
    var E := Bucket(s, t, Equal);
    var prefixCopies := Bucket(u[..k], t, Equal);
    assert prefixCopies == E[..need] by {
      BucketMembers(u[..k], t, Equal);
      BucketMembers(s, t, Equal);
      forall i | 0 <= i < need
        ensures prefixCopies[i] == E[i]
      {
        assert prefixCopies[i] in prefixCopies;
        assert E[i] in E;
      }
    }
  }

  /**
   * The kept half holds exactly the ceil(n / 2) smallest elements: as a
   * multiset it is the first KeepCount(|s|) elements of the sorted copy.
   */
  lemma {:induction false} KeptHalfIsSmallest(s: seq<int>)
    ensures multiset(KeptHalf(s)) == multiset(SortSeq(s)[..KeepCount(|s|)])
  {
    if |s| == 1 {
      assert s[..0] == [];
      assert SortSeq(s) == s;
    } else if |s| >= 2 {
      var u, k, t := SortSeq(s), KeepCount(|s|), Threshold(s);
      assert 0 < k <= |u| && t == u[k - 1];
      assert Sorted(u) && multiset(u) == multiset(s) by {
        SortSeqSorted(s);
        SortSeqPerm(s);
      }
      KeepIsSortedPrefix(s, u, k, t, Need(s));
    }
  }

  /**
   * The three deletions of the worked example, for any values ordered like
   * its inputs 10, 3, 7 and then 5 (so b < d < c < a).
   */
  lemma {:induction false} FirstDeletion(a: int, b: int, c: int)
    requires b < c < a
    ensures KeptHalf([a, b, c]) == [b, c]
  {
    var s := [a, b, c];
    assert s[..2] == [a, b] && [a, b][..1] == [a];
    assert SortSeq([a]) == [a];
    assert SortSeq([a, b]) == Insert(b, [a]) == [b, a];
    assert SortSeq(s) == Insert(c, [b, a]) == [b] + Insert(c, [a]) == [b, c, a];
    assert Threshold(s) == c;
    assert Bucket([a, b], c, Less) == Bucket([a], c, Less) + [b] == [b];
    assert Bucket(s, c, Less) == [b];
    assert Bucket([a, b], c, Equal) == Bucket([a], c, Equal) == [];
    assert Bucket(s, c, Equal) == [c];
  }

  lemma {:induction false} SecondDeletion(b: int, c: int, d: int)
    requires b < d < c
    ensures KeptHalf([b, c, d]) == [b, d]
  {
    var s := [b, c, d];
    assert s[..2] == [b, c] && [b, c][..1] == [b];
    assert SortSeq([b]) == [b];
    assert SortSeq([b, c]) == Insert(c, [b]) == [b, c];
    assert SortSeq(s) == Insert(d, [b, c]) == [b] + Insert(d, [c]) == [b, d, c];
    assert Threshold(s) == d;
    assert Bucket([b, c], d, Less) == Bucket([b], d, Less) == [b];
    assert Bucket(s, d, Less) == [b];
    assert Bucket([b, c], d, Equal) == Bucket([b], d, Equal) == [];
    assert Bucket(s, d, Equal) == [d];
  }

  lemma {:induction false} ThirdDeletion(b: int, d: int)
    requires b < d
    ensures KeptHalf([b, d]) == [b]
  {
    var s := [b, d];
    assert s[..1] == [b];
    assert SortSeq([b]) == [b];
    assert SortSeq(s) == Insert(d, [b]) == [b, d];
    assert Threshold(s) == b;
    assert Bucket(s, b, Less) == [];
    assert Bucket(s, b, Equal) == [b];
  }

  /**
   * One pass over s that collects, in order, the elements below t and the
   * copies of t; the elements above t are dropped.
   */
  method SplitByThreshold(s: seq<int>, t: int) returns (L: seq<int>, E: seq<int>)
    ensures L == Bucket(s, t, Less)
    ensures E == Bucket(s, t, Equal)
  {
    L, E := [], [];
    var i := 0;
    while i < |s|
      invariant 0 <= i <= |s|
      invariant L == Bucket(s[..i], t, Less)
      invariant E == Bucket(s[..i], t, Equal)
    {
      var x := s[i];
      assert s[..i + 1][..i] == s[..i];
      if x < t {
        L := L + [x];
      } else if x == t {
        E := E + [x];
      }
      i := i + 1;
    }
    assert s[..|s|] == s;
  }

  /** Builds the new contents: all of L, then the first need elements of E. */
  method Rebuild(L: seq<int>, E: seq<int>, need: int) returns (newS: seq<int>)
    requires 0 <= need <= |E|
    ensures newS == L + E[..need]
  {
    newS := [];
    var j := 0;
    while j < |L|
      invariant 0 <= j <= |L|
      invariant newS == L[..j]
    {
      newS := newS + [L[j]];
      j := j + 1;
    }
    assert L[..|L|] == L;
    j := 0;
    while j < need
      invariant 0 <= j <= need
      invariant newS == L + E[..j]
    {
      newS := newS + [E[j]];
      j := j + 1;
    }
  }

  /** An unsorted collection S of integers with append and delete-larger-half. */
  class DeleteLargeHalfDS {
    var S: seq<int>

    constructor ()
      ensures S == []
    {
      S := [];
    }

    /** Appends x to S. */
    method InsertValue(x: int)
      modifies this
      ensures S == old(S) + [x]
    {
      S := S + [x];
    }

    /**
     * Keeps the ceil(n / 2) smallest elements of S: those below the threshold
     * in their original order, then enough copies of the threshold.
     */
    method DeleteLargeHalf()
      modifies this
      ensures S == KeptHalf(old(S))
      ensures |old(S)| <= 1 ==> S == old(S)
      ensures |S| == KeepCount(|old(S)|)
      ensures multiset(S) <= multiset(old(S))
      ensures forall x, y :: x in S && y in multiset(old(S)) - multiset(S) ==> x <= y
    {
      var s := S;
      var n := |s|;
      if n <= 1 {
        return;
      }
      var k := (n + 1) / 2;
      var kthIndex := k - 1;
      var tmp := CopyToBuffer(s);
      var t := SelectKth(tmp, kthIndex);
      assert t == Threshold(s);
      var L, E := SplitByThreshold(s, t);

      var need := k - |L|;
      assert 0 < need <= |E|;
      if need < 0 {
        need := 0;
      }
      if need > |E| {
        need := |E|;
      }

      var newS := Rebuild(L, E, need);
      assert newS == KeptHalf(s);
      assert multiset(newS) <= multiset(s) by {
        KeptHalfSubMultiset(s);
      }
      forall x, y | x in newS && y in multiset(s) - multiset(newS)
        ensures x <= y
      {
        KeptHalfDominates(s, x, y);
      }
      S := newS;
    }
  }

  /**
   * The worked example: insert a, b and c, delete the larger half, insert d,
   * then delete the larger half twice; with b < d < c < a only b is left.
   */
  method WorkedExample(a: int, b: int, c: int, d: int) returns (final: seq<int>)
    requires b < d < c < a
    ensures final == [b]
  {
    var ds := new DeleteLargeHalfDS();
    ds.InsertValue(a);
    ds.InsertValue(b);
    ds.InsertValue(c);
    assert ds.S == [a, b, c];
    FirstDeletion(a, b, c);
    ds.DeleteLargeHalf();
    ds.InsertValue(d);
    assert ds.S == [b, c, d];
    SecondDeletion(b, c, d);
    ds.DeleteLargeHalf();
    ThirdDeletion(b, d);
    ds.DeleteLargeHalf();
    final := ds.S;
  }

  /** The example input 10, 3, 7, delete, 5, delete, delete leaves S = [3]. */
  method ExampleRun() returns (final: seq<int>)
    ensures final == [3]
  {
    final := WorkedExample(10, 3, 7, 5);
  }
}
