/** The standard library's stable sort, given by a reference definition:
    each element is inserted after the elements whose key is not larger. */
module Sorting {
  import opened Prelude

  function Insert<T>(s: seq<T>, x: T, key: T -> real): (r: seq<T>) {
    if |s| == 0 || key(s[|s| - 1]) <= key(x) then s + [x]
    else Insert(s[..|s| - 1], x, key) + [s[|s| - 1]]
  }

  function SortBy<T>(s: seq<T>, key: T -> real): (r: seq<T>) {
    if |s| == 0 then [] else Insert(SortBy(s[..|s| - 1], key), s[|s| - 1], key)
  }

  ghost predicate Sorted<T>(s: seq<T>, key: T -> real) {
    forall i, j :: 0 <= i < j < |s| ==> key(s[i]) <= key(s[j])
  }

  /** The elements whose key is `k`, in order. */
  ghost function WithKey<T>(s: seq<T>, key: T -> real, k: real): seq<T> {
    if |s| == 0 then []
    else WithKey(s[..|s| - 1], key, k) + if key(s[|s| - 1]) == k then [s[|s| - 1]] else []
  }

  lemma {:induction false} InsertIsSorted<T>(s: seq<T>, x: T, key: T -> real)
    requires Sorted(s, key)
    ensures multiset(Insert(s, x, key)) == multiset(s) + multiset{x}
    ensures |Insert(s, x, key)| == |s| + 1
    ensures Sorted(Insert(s, x, key), key)
  {
    if |s| == 0 || key(s[|s| - 1]) <= key(x) {
    } else {
      var front, last := s[..|s| - 1], s[|s| - 1];
      assert s == front + [last];
      InsertIsSorted(front, x, key);
      var r := Insert(front, x, key);
      forall i | 0 <= i < |r| ensures key(r[i]) <= key(last) {
        assert r[i] in multiset(r);
        assert r[i] in multiset(front) || r[i] == x;
      }
    }
  }

  /** Sorting orders the elements and neither loses nor adds one. */
  lemma {:induction false} SortByIsSorted<T>(s: seq<T>, key: T -> real)
    ensures multiset(SortBy(s, key)) == multiset(s)
    ensures |SortBy(s, key)| == |s|
    ensures Sorted(SortBy(s, key), key)
  {
    if |s| == 0 {
    } else {
      assert s == s[..|s| - 1] + [s[|s| - 1]];
      SortByIsSorted(s[..|s| - 1], key);
      InsertIsSorted(SortBy(s[..|s| - 1], key), s[|s| - 1], key);
    }
  }

  lemma {:induction false} InsertIsStable<T>(s: seq<T>, x: T, key: T -> real, k: real)
    requires Sorted(s, key)
    ensures WithKey(Insert(s, x, key), key, k) ==
            WithKey(s, key, k) + if key(x) == k then [x] else []
  {
    if |s| == 0 || key(s[|s| - 1]) <= key(x) {
      assert (s + [x])[..|s|] == s;
    } else {
      var front, last := s[..|s| - 1], s[|s| - 1];
      InsertIsStable(front, x, key, k);
      assert (Insert(front, x, key) + [last])[..|Insert(front, x, key)|] == Insert(front, x, key);
    }
  }

  /** Elements with equal keys keep their order. */
  lemma {:induction false} SortByIsStable<T>(s: seq<T>, key: T -> real, k: real)
    ensures WithKey(SortBy(s, key), key, k) == WithKey(s, key, k)
  {
    if |s| == 0 {
    } else {
      SortByIsSorted(s[..|s| - 1], key);
      SortByIsStable(s[..|s| - 1], key, k);
      InsertIsStable(SortBy(s[..|s| - 1], key), s[|s| - 1], key, k);
    }
  }

  lemma {:induction false} NoneWithKey<T>(s: seq<T>, key: T -> real, k: real)
    requires forall x :: x in s ==> key(x) != k
    ensures WithKey(s, key, k) == []
  {
    if |s| == 0 {
    } else {
      assert s[|s| - 1] in s;
      NoneWithKey(s[..|s| - 1], key, k);
    }
  }

  lemma {:induction false} FirstWithKey<T>(s: seq<T>, key: T -> real, k: real, i: nat)
    requires i < |s| && key(s[i]) == k && forall j :: 0 <= j < i ==> key(s[j]) != k
    ensures |WithKey(s, key, k)| > 0 && WithKey(s, key, k)[0] == s[i]
  {
    var front := s[..|s| - 1];
    if i == |front| {
      NoneWithKey(front, key, k);
    } else {
      FirstWithKey(front, key, k, i);
    }
  }

  /** The earliest position whose key is least. */
  function FirstLeast<T>(s: seq<T>, key: T -> real): (first: nat)
    requires |s| > 0
    ensures first < |s|
    ensures forall i :: 0 <= i < |s| ==> key(s[first]) <= key(s[i])
    ensures forall i :: 0 <= i < first ==> key(s[first]) < key(s[i])
  {
    if |s| == 1 then 0
    else
      var f := FirstLeast(s[..|s| - 1], key);
      if key(s[f]) <= key(s[|s| - 1]) then f else |s| - 1
  }

  /** The first sorted element is the earliest one with the least key. */
  lemma {:induction false} SortByHead<T>(s: seq<T>, key: T -> real)
    requires |s| > 0
    ensures |SortBy(s, key)| == |s|
    ensures SortBy(s, key)[0] == s[FirstLeast(s, key)]
  {
    SortByIsSorted(s, key);
    var front := s[..|s| - 1];
    if |front| == 0 {
    } else {
      SortByHead(front, key);
      SortByIsSorted(front, key);
      InsertHead(SortBy(front, key), s[|s| - 1], key);
    }
  }

  lemma {:induction false} InsertHead<T>(s: seq<T>, x: T, key: T -> real)
    requires |s| > 0 && Sorted(s, key)
    ensures |Insert(s, x, key)| > 0
    ensures Insert(s, x, key)[0] == if key(s[0]) <= key(x) then s[0] else x
  {
    if key(s[|s| - 1]) > key(x) && |s| > 1 {
      InsertHead(s[..|s| - 1], x, key);
    }
  }

  lemma {:induction false} SameElements<T>(s: seq<T>, r: seq<T>)
    requires multiset(s) == multiset(r)
    ensures forall x :: x in s <==> x in r
  {
    forall x ensures x in s <==> x in r {
      assert x in multiset(s) <==> x in multiset(r);
    }
  }

  /** A rearrangement of distinct elements has distinct elements. */
  lemma {:induction false} DistinctRearranged<T>(s: seq<T>, r: seq<T>)
    requires multiset(s) == multiset(r) && Distinct(s)
    ensures Distinct(r)
  {
    forall i, j | 0 <= i < j < |r| ensures r[i] != r[j] {
      if r[i] == r[j] {
        assert r == r[..i] + [r[i]] + r[i + 1..j] + [r[j]] + r[j + 1..];
        assert multiset(r)[r[i]] >= 2;
        OnlyOnce(s, r[i]);
      }
    }
  }

  lemma {:induction false} OnlyOnce<T>(s: seq<T>, x: T)
    requires Distinct(s)
    ensures multiset(s)[x] <= 1
  {
    if |s| == 0 {
    } else {
      var front, last := s[..|s| - 1], s[|s| - 1];
      assert s == front + [last];
      OnlyOnce(front, x);
      if x == last {
        assert x !in front;
      }
    }
  }
}
