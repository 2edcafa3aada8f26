/** Counting distinct numbers. */
module Pigeonhole {
  /** The numbers below n. */
  ghost function Range(n: nat): (r: set<int>)
    ensures |r| == n && forall i :: i in r <==> 0 <= i < n
  {
    if n == 0 then {} else Range(n - 1) + {n - 1}
  }

  lemma {:induction false} SeqSetSize(s: seq<int>)
    ensures |set x | x in s| <= |s|
  {
    if s == [] {
    } else {
      SeqSetSize(s[1..]);
      assert (set x | x in s) == (set x | x in s[1..]) + {s[0]};
    }
  }

  lemma SubsetSize<T>(s: set<T>, t: set<T>)
    requires s <= t
    ensures |s| <= |t|
  {
    assert t == s + (t - s);
  }

  /** n different nodes are all there are. */
  lemma AllInUse(order: seq<int>, n: nat)
    requires forall i | 0 <= i < n :: i in order
    ensures |order| >= n
  {
    SeqSetSize(order);
    SubsetSize(Range(n), (set x | x in order));
  }

  lemma {:induction false} DistinctSize(s: seq<int>)
    requires forall i, j | 0 <= i < j < |s| :: s[i] != s[j]
    ensures |set x | x in s| == |s|
  {
    if s == [] {
    } else {
      DistinctSize(s[1..]);
      assert (set x | x in s) == (set x | x in s[1..]) + {s[0]};
    }
  }

  lemma SomeSpare(order: seq<int>, k: int, n: nat)
    requires forall j | 0 <= j < |order| :: 0 <= order[j] < n
    requires forall i, j | 0 <= i < j < |order| :: order[i] != order[j]
    requires 0 <= k < n && k !in order
    ensures |order| < n
  {
    DistinctSize(order);
    SubsetSize((set x | x in order), Range(n) - {k});
  }

  lemma AtMost(order: seq<int>, n: nat)
    requires forall j | 0 <= j < |order| :: 0 <= order[j] < n
    requires forall i, j | 0 <= i < j < |order| :: order[i] != order[j]
    ensures |order| <= n
  {
    DistinctSize(order);
    SubsetSize((set x | x in order), Range(n));
  }

  /** Different elements of t that miss one of t's elements are fewer than t's. */
  lemma LongerByOne(s: seq<int>, t: seq<int>, o: int)
    requires forall i, j | 0 <= i < j < |s| :: s[i] != s[j]
    requires forall x | x in s :: x in t
    requires o in t && o !in s
    ensures |s| < |t|
  {
    DistinctSize(s);
    SeqSetSize(t);
    SubsetSize((set x | x in s) + {o}, (set x | x in t));
  }

  lemma DisjointUnionSize<T>(s: set<T>, t: set<T>)
    requires s !! t
    ensures |s + t| == |s| + |t|
  {
  }

  lemma UnionAtMost<T>(s: set<T>, t: set<T>)
    ensures |s + t| <= |s| + |t|
  {
    assert s + t == s + (t - s);
    SubsetSize(t - s, t);
    DisjointUnionSize(s, t - s);
  }
}
