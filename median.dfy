/** The order statistics behind `threshold_filter::is_below_median`: an
    ascending sort (standing for the C library's `qsort` with `comp`), the
    median at index n / 2, and a sort-free characterisation of "below the
    median" by counting. */
module Median {

  predicate SortedAsc(s: seq<int>)
  {
    forall m, n | 0 <= m < n < |s| :: s[m] <= s[n]
  }

  /** Insert x into an ascending sequence. */
  function Insert(x: int, s: seq<int>): (r: seq<int>)
    requires SortedAsc(s)
    ensures SortedAsc(r) && multiset(r) == multiset(s) + multiset{x}
  {
    if s == [] || x <= s[0] then
      [x] + s
    else
      var t := Insert(x, s[1..]);
      ConsSorted(s, x, t);
      [s[0]] + t
  }

  /** The recursive step of Insert: s's head in front of the insertion into
      its tail is still ascending and holds the same elements. */
  lemma ConsSorted(s: seq<int>, x: int, t: seq<int>)
    requires SortedAsc(s) && s != [] && s[0] < x
    requires SortedAsc(t) && multiset(t) == multiset(s[1..]) + multiset{x}
    ensures SortedAsc([s[0]] + t) && multiset([s[0]] + t) == multiset(s) + multiset{x}
  {
    assert s == [s[0]] + s[1..];
    forall n | 0 <= n < |t| ensures s[0] <= t[n] {
      assert t[n] in multiset(t);
    }
  }

  /** An ascending permutation of s. */
  function SortAsc(s: seq<int>): (r: seq<int>)
    ensures SortedAsc(r) && multiset(r) == multiset(s) && |r| == |s|
  {
    if s == [] then
      []
    else
      assert s == [s[0]] + s[1..];
      Insert(s[0], SortAsc(s[1..]))
  }

  /** The head of an ascending sequence is at most each of its elements. */
  lemma HeadIsLeast(s: seq<int>, x: int)
    requires SortedAsc(s) && x in multiset(s)
    ensures s[0] <= x
  {
    assert x in s;
    var n :| 0 <= n < |s| && s[n] == x;
  }

  /** Two non-empty ascending sequences with the same elements have the same
      head, and their tails have the same elements. */
  lemma SameHead(a: seq<int>, b: seq<int>)
    requires SortedAsc(a) && SortedAsc(b) && multiset(a) == multiset(b) && a != []
    ensures b != [] && a[0] == b[0] && multiset(a[1..]) == multiset(b[1..])
  {
    assert |b| == |multiset(b)| == |multiset(a)| == |a|;
    assert a[0] in multiset(a) && b[0] in multiset(b);
    HeadIsLeast(b, a[0]);
    HeadIsLeast(a, b[0]);
    TailElements(a);
    TailElements(b);
  }

  /** The tail of a sequence holds its elements less one copy of the head. */
  lemma TailElements(s: seq<int>)
    requires s != []
    ensures multiset(s[1..]) == multiset(s) - multiset{s[0]}
  {
    assert s == [s[0]] + s[1..];
  }

  /** Two ascending sequences with the same elements are equal: the median
      does not depend on which sorting algorithm produced the order. */
  lemma {:induction false} SortedUnique(a: seq<int>, b: seq<int>)
    requires SortedAsc(a) && SortedAsc(b) && multiset(a) == multiset(b)
    ensures a == b
  {
    if a != [] {
      SameHead(a, b);
      SortedUnique(a[1..], b[1..]);
      assert a == [a[0]] + a[1..];
      assert b == [b[0]] + b[1..];
    } else {
      assert |b| == |multiset(b)| == 0;
    }
  }

  /** The element at index n / 2 of the ascending order (the upper of the two
      middle elements when n is even). */
  function MedianOf(s: seq<int>): int
    requires |s| >= 1
  {
    SortAsc(s)[|s| / 2]
  }

  /** Any ascending permutation of s has the median at index n / 2. */
  lemma MedianOfAnySort(s: seq<int>, t: seq<int>)
    requires |s| >= 1 && SortedAsc(t) && multiset(t) == multiset(s)
    ensures |t| == |s| && t[|s| / 2] == MedianOf(s)
  {
    assert |t| == |multiset(t)|;
    SortedUnique(t, SortAsc(s));
  }

  /** How many elements of s are at most v. */
  function CountAtMost(s: seq<int>, v: int): nat
  {
    if s == [] then 0 else (if s[0] <= v then 1 else 0) + CountAtMost(s[1..], v)
  }

  lemma {:induction false} CountInsert(x: int, s: seq<int>, v: int)
    requires SortedAsc(s)
    ensures CountAtMost(Insert(x, s), v) == CountAtMost(s, v) + (if x <= v then 1 else 0)
  {
    if s == [] || x <= s[0] {
      assert ([x] + s)[1..] == s;
    } else {
      CountInsert(x, s[1..], v);
      assert ([s[0]] + Insert(x, s[1..]))[1..] == Insert(x, s[1..]);
    }
  }

  /** Sorting does not change how many elements are at most v. */
  lemma {:induction false} CountSort(s: seq<int>, v: int)
    ensures CountAtMost(SortAsc(s), v) == CountAtMost(s, v)
  {
    if s != [] {
      CountSort(s[1..], v);
      CountInsert(s[0], SortAsc(s[1..]), v);
    }
  }

  /** Every element at most v: the count is the length. */
  lemma {:induction false} CountAll(s: seq<int>, v: int)
    requires forall n | 0 <= n < |s| :: s[n] <= v
    ensures CountAtMost(s, v) == |s|
  {
    if s != [] {
      CountAll(s[1..], v);
    }
  }

  /** An ascending sequence whose first element exceeds v has nothing at most v. */
  lemma {:induction false} CountNone(t: seq<int>, v: int)
    requires SortedAsc(t) && (t == [] || t[0] > v)
    ensures CountAtMost(t, v) == 0
  {
    if t != [] {
      CountNone(t[1..], v);
    }
  }

  /** In an ascending sequence, v lies below the element at index m exactly
      when at most m elements are at most v. */
  lemma {:induction false} SortedRank(t: seq<int>, m: int, v: int)
    requires SortedAsc(t) && 0 <= m < |t|
    ensures v < t[m] <==> CountAtMost(t, v) <= m
  {
    if t[0] > v {
      CountNone(t, v);
    } else if m > 0 {
      SortedRank(t[1..], m - 1, v);
    }
  }

  /** Below the median exactly when at most n / 2 of the n elements are at
      most v: a definition that needs no sorting. */
  lemma MedianRank(s: seq<int>, v: int)
    requires |s| >= 1
    ensures v < MedianOf(s) <==> CountAtMost(s, v) <= |s| / 2
  {
    SortedRank(SortAsc(s), |s| / 2, v);
    CountSort(s, v);
  }

  /** An element of s is never below the median of s when every element of s
      is at most it; in particular a uniform s, or a single element. */
  lemma NotBelowWhenMaximal(s: seq<int>, v: int)
    requires |s| >= 1 && forall n | 0 <= n < |s| :: s[n] <= v
    ensures !(v < MedianOf(s))
  {
    CountAll(s, v);
    MedianRank(s, v);
  }
}
