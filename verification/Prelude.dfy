/** Small datatypes and counting facts shared by the other modules. */
module Prelude {

  datatype Option<+T> = None | Some(value: T) {
    function GetOr(default: T): T {
      match this
      case Some(v) => v
      case None => default
    }
  }

  datatype Result<+T, +E> = Ok(value: T) | Err(error: E)

  /** The distance from 1.0 to the next larger double. */
  const F64_EPSILON: real := 1.0 / 4503599627370496.0

  function Max(a: int, b: int): int {
    if a >= b then a else b
  }

  function Min(a: int, b: int): int {
    if a <= b then a else b
  }

  /** The number of elements of `s` that satisfy `p`. */
  function CountIf<T>(s: seq<T>, p: T -> bool): (n: nat)
    ensures n <= |s|
  {
    if |s| == 0 then 0
    else CountIf(s[..|s| - 1], p) + if p(s[|s| - 1]) then 1 else 0
  }

  lemma {:induction false} CountIfUpdate<T>(s: seq<T>, i: nat, x: T, p: T -> bool)
    requires i < |s|
    ensures CountIf(s[i := x], p) ==
            CountIf(s, p) - (if p(s[i]) then 1 else 0) + (if p(x) then 1 else 0)
  {
    var last := |s| - 1;
    if i == last {
      assert s[i := x][..last] == s[..last];
    } else {
      assert s[i := x][..last] == s[..last][i := x];
      CountIfUpdate(s[..last], i, x, p);
    }
  }

  lemma {:induction false} CountIfImplies<T>(s: seq<T>, p: T -> bool, q: T -> bool)
    requires forall i :: 0 <= i < |s| && p(s[i]) ==> q(s[i])
    ensures CountIf(s, p) <= CountIf(s, q)
  {
    if |s| == 0 {
    } else {
      CountIfImplies(s[..|s| - 1], p, q);
    }
  }

  lemma {:induction false} CountIfMissing<T>(s: seq<T>, i: nat, p: T -> bool)
    requires i < |s| && !p(s[i])
    ensures CountIf(s, p) <= |s| - 1
  {
    if i < |s| - 1 {
      CountIfMissing(s[..|s| - 1], i, p);
    }
  }

  lemma {:induction false} CountIfNone<T>(s: seq<T>, p: T -> bool)
    requires forall i :: 0 <= i < |s| ==> !p(s[i])
    ensures CountIf(s, p) == 0
  {
    if |s| == 0 {
    } else {
      CountIfNone(s[..|s| - 1], p);
    }
  }

  lemma {:induction false} SubsetSize<T>(a: set<T>, b: set<T>)
    requires a <= b
    ensures |a| <= |b|
    ensures |a| == |b| ==> a == b
  {
    assert b == a + (b - a);
    assert |b| == |a| + |b - a|;
  }

  /** The position of every element is distinct. */
  ghost predicate Distinct<T>(s: seq<T>) {
    forall i, j :: 0 <= i < j < |s| ==> s[i] != s[j]
  }

  lemma {:induction false} DistinctSize<T>(s: seq<T>)
    requires Distinct(s)
    ensures |set x | x in s| == |s|
  {
    if |s| == 0 {
    } else {
      var front, last := s[..|s| - 1], s[|s| - 1];
      DistinctSize(front);
      assert s == front + [last];
      assert (set x | x in s) == (set x | x in front) + {last};
    }
  }

  predicate OccursAt<T(==)>(s: seq<T>, word: seq<T>, i: nat) {
    i + |word| <= |s| && s[i..i + |word|] == word
  }

  predicate Contains<T(==)>(s: seq<T>, word: seq<T>) {
    exists i: nat :: i <= |s| && OccursAt(s, word, i)
  }

  // ---- Sequences in strictly increasing order ----

  ghost predicate Increasing<T>(s: seq<T>, key: T -> int) {
    forall i, j :: 0 <= i < j < |s| ==> key(s[i]) < key(s[j])
  }

  function Identity(n: nat): int {
    n
  }

  ghost predicate SameMembers<T(!new)>(a: seq<T>, b: seq<T>) {
    forall x :: x in a <==> x in b
  }

  /** The members determine a strictly increasing sequence. */
  lemma {:induction false} IncreasingUnique<T(!new)>(a: seq<T>, b: seq<T>, key: T -> int)
    requires Increasing(a, key) && Increasing(b, key) && SameMembers(a, b)
    ensures a == b
  {
    assert |a| > 0 ==> a[|a| - 1] in b;
    assert |b| > 0 ==> b[|b| - 1] in a;
    hide Increasing, SameMembers;
    if |a| == 0 {
    } else {
      var fa, la, fb, lb := a[..|a| - 1], a[|a| - 1], b[..|b| - 1], b[|b| - 1];
      assert a == fa + [la] && b == fb + [lb];
      SameLast(fa, la, fb, lb, key);
      IncreasingUnique(fa, fb, key);
    }
  }

  lemma {:induction false} SameLast<T(!new)>(fa: seq<T>, la: T, fb: seq<T>, lb: T, key: T -> int)
    requires Increasing(fa + [la], key) && Increasing(fb + [lb], key) && SameMembers(fa + [la], fb + [lb])
    ensures Increasing(fa, key) && Increasing(fb, key) && la == lb && SameMembers(fa, fb)
  {
    LastIsGreatest(fa, la, key);
    LastIsGreatest(fb, lb, key);
    assert la in fb + [lb] && lb in fa + [la];
    hide Increasing;
    forall x ensures x in fa <==> x in fb {
      assert x in fa + [la] <==> x in fa || x == la;
      assert x in fb + [lb] <==> x in fb || x == lb;
    }
  }

  lemma {:induction false} LastIsGreatest<T>(front: seq<T>, last: T, key: T -> int)
    requires Increasing(front + [last], key)
    ensures Increasing(front, key) && forall x :: x in front ==> key(x) < key(last)
  {
    var all := front + [last];
    forall i, j | 0 <= i < j < |front| ensures key(front[i]) < key(front[j]) {
      assert key(all[i]) < key(all[j]);
    }
    forall i | 0 <= i < |front| ensures key(front[i]) < key(last) {
      assert key(all[i]) < key(all[|front|]);
    }
  }

  /** Multiplication under a name, so that a proof by induction can treat the
      products in it as opaque and leave the algebra to small lemmas. */
  function Times(a: real, b: real): real {
    a * b
  }

  lemma {:induction false} PositiveProduct(a: real, b: real)
    requires a > 0.0 && b > 0.0
    ensures Times(a, b) > 0.0
  {
  }

  lemma {:induction false} WeightedOrder(a: real, b: real, w: real)
    requires a <= b && w >= 0.0
    ensures Times(a, w) <= Times(b, w)
  {
    assert (b - a) * w >= 0.0;
    assert (b - a) * w == b * w - a * w;
  }

  lemma {:induction false} TimesIsProduct(a: real, b: real)
    ensures Times(a, b) == a * b
  {
  }

  function Sum(s: seq<real>): real {
    if |s| == 0 then 0.0 else Sum(s[..|s| - 1]) + s[|s| - 1]
  }

  /** The keys of a concurrent or hash map in the order an iterator happens to
      visit them: any order is possible, each key comes exactly once. */
  method Enumerate<K(==), V>(m: map<K, V>) returns (keys: seq<K>)
    ensures Distinct(keys)
    ensures forall k :: k in keys <==> k in m
    ensures |keys| == |m|
  {
    keys := [];
    var rest := m.Keys;
    while rest != {}
      invariant rest <= m.Keys
      invariant Distinct(keys)
      invariant forall k :: k in keys <==> k in m && k !in rest
      invariant |keys| + |rest| == |m|
      decreases rest
    {
      var k :| k in rest;
      keys := keys + [k];
      rest := rest - {k};
    }
  }
}
