/** Sorted lists of integers: what a library sort returns, and what follows from it alone. */
module Sorting {

  function Insert(x: int, s: seq<int>): (r: seq<int>)
    ensures |r| == |s| + 1
  {
    if s == [] || x <= s[0] then [x] + s else [s[0]] + Insert(x, s[1..])
  }

  function Sort(s: seq<int>): (r: seq<int>)
    ensures |r| == |s|
  {
    if s == [] then [] else Insert(s[0], Sort(s[1..]))
  }

  ghost predicate Sorted(s: seq<int>) {
    forall i, j :: 0 <= i <= j < |s| ==> s[i] <= s[j]
  }

  lemma {:induction false} InsertKeeps(x: int, s: seq<int>)
    ensures multiset(Insert(x, s)) == multiset(s) + multiset{x}
    ensures forall y <- Insert(x, s) :: y == x || y in s
  {
    if s != [] && x > s[0] {
      InsertKeeps(x, s[1..]);
      assert s == [s[0]] + s[1..];
    }
  }

  lemma {:induction false} SortedCons(h: int, t: seq<int>)
    requires Sorted(t) && forall y <- t :: h <= y
    ensures Sorted([h] + t)
  {
    var r := [h] + t;
    forall i, j | 0 <= i <= j < |r| ensures r[i] <= r[j] {
      if 0 < i { assert r[i] == t[i - 1]; }
      if 0 < j { assert r[j] == t[j - 1] && t[j - 1] in t; }
    }
  }

  lemma {:induction false} SortedTail(s: seq<int>)
    requires Sorted(s) && s != []
    ensures Sorted(s[1..]) && forall y <- s[1..] :: s[0] <= y
  {
    assert forall k :: 0 <= k < |s| - 1 ==> s[1..][k] == s[k + 1];
  }

  lemma {:induction false} InsertSorts(x: int, s: seq<int>)
    requires Sorted(s)
    ensures Sorted(Insert(x, s))
  {
    if s == [] {
    } else if x <= s[0] {
      SortedTail(s);
      assert s == [s[0]] + s[1..];
      SortedCons(x, s);
    } else {
      SortedTail(s);
      InsertSorts(x, s[1..]);
      InsertKeeps(x, s[1..]);
      SortedCons(s[0], Insert(x, s[1..]));
    }
  }

  lemma {:induction false} SortIsSorted(s: seq<int>)
    ensures Sorted(Sort(s)) && multiset(Sort(s)) == multiset(s)
  {
    if s != [] {
      SortIsSorted(s[1..]);
      InsertKeeps(s[0], Sort(s[1..]));
      InsertSorts(s[0], Sort(s[1..]));
      assert s == [s[0]] + s[1..];
    }
  }

  /** A sorted list is determined by what is in it, so any sort at all returns this one. */
  lemma {:induction false} SortedIsUnique(a: seq<int>, b: seq<int>)
    requires Sorted(a) && Sorted(b) && multiset(a) == multiset(b)
    ensures a == b
    decreases |a|
  {
    SameLength(a, b);
    if a != [] {
      LeastFirst(a, b);
      LeastFirst(b, a);
      TailMultiset(a);
      TailMultiset(b);
      SortedTail(a);
      SortedTail(b);
      SortedIsUnique(a[1..], b[1..]);
    }
  }

  lemma {:induction false} TailMultiset(s: seq<int>)
    requires s != []
    ensures multiset(s[1..]) == multiset(s) - multiset{s[0]} && s == [s[0]] + s[1..]
  {
    assert s == [s[0]] + s[1..];
  }

  lemma {:induction false} SameLength<T>(a: seq<T>, b: seq<T>)
    requires multiset(a) == multiset(b)
    ensures |a| == |b|
  {
    assert |multiset(a)| == |a| && |multiset(b)| == |b|;
  }

  lemma {:induction false} LeastFirst(a: seq<int>, b: seq<int>)
    requires Sorted(a) && a != [] && b != [] && multiset(a) == multiset(b)
    ensures a[0] <= b[0]
  {
    assert b[0] in multiset(a);
    assert b[0] in a;
  }

  lemma {:induction false} SortIgnoresOrder(a: seq<int>, b: seq<int>)
    requires multiset(a) == multiset(b)
    ensures Sort(a) == Sort(b)
  {
    SortIsSorted(a);
    SortIsSorted(b);
    SortedIsUnique(Sort(a), Sort(b));
  }

  // ---------------------------------------------------------------- counting

  /** How many values are at least, or at most, `m`. */
  function CountGe(s: seq<int>, m: int): nat {
    if s == [] then 0 else (if s[0] >= m then 1 else 0) + CountGe(s[1..], m)
  }

  function CountLe(s: seq<int>, m: int): nat {
    if s == [] then 0 else (if s[0] <= m then 1 else 0) + CountLe(s[1..], m)
  }

  lemma {:induction false} InsertCounts(x: int, s: seq<int>, m: int)
    ensures CountGe(Insert(x, s), m) == CountGe(s, m) + (if x >= m then 1 else 0)
    ensures CountLe(Insert(x, s), m) == CountLe(s, m) + (if x <= m then 1 else 0)
  {
    if s == [] || x <= s[0] {
      assert Insert(x, s)[1..] == s;
    } else {
      InsertCounts(x, s[1..], m);
      assert Insert(x, s)[1..] == Insert(x, s[1..]);
    }
  }

  lemma {:induction false} SortCounts(s: seq<int>, m: int)
    ensures CountGe(Sort(s), m) == CountGe(s, m) && CountLe(Sort(s), m) == CountLe(s, m)
  {
    if s != [] {
      SortCounts(s[1..], m);
      InsertCounts(s[0], Sort(s[1..]), m);
    }
  }

  /** In a sorted list everything from `k` on is at least the `k`th, and everything up to `k` at most it. */
  lemma {:induction false} SortedCounts(s: seq<int>, k: nat, m: int)
    requires Sorted(s) && k < |s|
    ensures m <= s[k] ==> CountGe(s, m) >= |s| - k
    ensures m >= s[k] ==> CountLe(s, m) >= k + 1
  {
    if k > 0 {
      SortedCounts(s[1..], k - 1, m);
    } else if |s| > 1 {
      SortedCounts(s[1..], 0, m);
      if m <= s[0] { AllGe(s, m); }
    }
  }

  lemma {:induction false} AllGe(s: seq<int>, m: int)
    requires forall k :: 0 <= k < |s| ==> s[k] >= m
    ensures CountGe(s, m) == |s|
  {
    if s != [] { AllGe(s[1..], m); }
  }
}
