/** Least-frequently-used eviction over the shared cache map. */
module Eviction {
  import opened Prelude
  import opened CacheEntries
  import Sorting

  ghost predicate LeastUsed(m: Entries, victim: Key) {
    victim in m && forall k :: k in m ==> m[victim].hitCount <= m[k].hitCount
  }

  /** One eviction pass: the expired entries if there are any, otherwise one
      entry with the fewest hits; which one among equals is not determined. */
  ghost predicate EvictOutcome(m: Entries, now: Time, m': Entries) {
    if Expired(m, now) != {} then m' == m - Expired(m, now)
    else if |m| == 0 then m' == m
    else exists v :: LeastUsed(m, v) && m' == m - {v}
  }

  method EvictLfu(table: CacheMap, now: Time)
    modifies table
    ensures EvictOutcome(old(table.entries), now, table.entries)
  {
    ghost var m := table.entries;
    var expiredKeys := ExpiredKeys(table, now);
    for i := 0 to |expiredKeys|
      invariant table.entries == m - (set k | k in expiredKeys[..i])
    {
      table.Remove(expiredKeys[i]);
    }
    assert expiredKeys[..|expiredKeys|] == expiredKeys;
    if |expiredKeys| > 0 {
      assert expiredKeys[0] in Expired(m, now);
      return;
    }
    var keys := Enumerate(table.entries);
    if |keys| > 0 {
      var victim := keys[0];
      for i := 1 to |keys|
        invariant victim in table.entries
        invariant forall j :: 0 <= j < i ==> table.entries[victim].hitCount <= table.entries[keys[j]].hitCount
      {
        if table.entries[keys[i]].hitCount < table.entries[victim].hitCount {
          victim := keys[i];
        }
      }
      assert LeastUsed(m, victim);
      table.Remove(victim);
    }
  }

  method ExpiredKeys(table: CacheMap, now: Time) returns (expiredKeys: seq<Key>)
    ensures Distinct(expiredKeys)
    ensures (set k | k in expiredKeys) == Expired(table.entries, now)
  {
    var keys := Enumerate(table.entries);
    expiredKeys := [];
    for i := 0 to |keys|
      invariant Distinct(expiredKeys)
      invariant forall k :: k in expiredKeys <==> k in keys[..i] && table.entries[k].IsExpired(now)
    {
      if table.entries[keys[i]].IsExpired(now) {
        expiredKeys := expiredKeys + [keys[i]];
      }
    }
  }

  /** What a batch eviction of `count` promises. With `count` 0 it still takes
      one expired entry when there is one. */
  ghost predicate BatchOutcome(m: Entries, now: Time, count: nat, m': Entries) {
    && Submap(m', m)
    && |m'| == |m| - Min(|m|, if Expired(m, now) != {} then Max(count, 1) else count)
    && ((exists r :: r in m && r !in m' && !m[r].IsExpired(now)) ==> Expired(m', now) == {})
    && (forall r, k :: r in m && r !in m' && !m[r].IsExpired(now) && k in m' && !m[k].IsExpired(now) ==>
          m[r].hitCount <= m[k].hitCount)
  }

  method EvictLfuBatch(table: CacheMap, count: nat, now: Time)
    modifies table
    ensures BatchOutcome(old(table.entries), now, count, table.entries)
  {
    ghost var m := table.entries;
    var expiredKeys := ExpiredKeys(table, now);
    var removed, done := RemoveExpired(table, expiredKeys, count);
    if done {
      OnlyExpiredRemoved(m, now, count, expiredKeys[..removed], table.entries);
      return;
    }
    assert expiredKeys[..removed] == expiredKeys;
    ghost var live := table.entries;
    RemoveLeastUsed(table, count - removed);
    ExpiredThenLeastUsed(m, now, count, expiredKeys, live, table.entries);
  }

  /** The first loop of the batch form; `done` is its early return. */
  method RemoveExpired(table: CacheMap, expiredKeys: seq<Key>, count: nat) returns (removed: nat, done: bool)
    modifies table
    ensures removed <= |expiredKeys|
    ensures table.entries == old(table.entries) - Elements(expiredKeys[..removed])
    ensures done ==> removed == Max(count, 1)
    ensures !done ==> removed == |expiredKeys| && (removed == 0 || removed < count)
  {
    ghost var m := table.entries;
    removed, done := 0, false;
    while removed < |expiredKeys|
      invariant 0 <= removed <= |expiredKeys|
      invariant removed == 0 || removed < count
      invariant table.entries == m - Elements(expiredKeys[..removed])
    {
      RemovedOneMore(m, expiredKeys, removed);
      table.Remove(expiredKeys[removed]);
      removed := removed + 1;
      if removed >= count {
        done := true;
        return;
      }
    }
  }

  ghost function Elements(keys: seq<Key>): set<Key> {
    set k | k in keys
  }

  lemma {:induction false} RemovedOneMore(m: Entries, keys: seq<Key>, n: nat)
    requires n < |keys|
    ensures m - Elements(keys[..n + 1]) == m - Elements(keys[..n]) - {keys[n]}
  {
    assert keys[..n + 1] == keys[..n] + [keys[n]];
    assert Elements(keys[..n + 1]) == Elements(keys[..n]) + {keys[n]};
  }

  lemma {:induction false} OnlyExpiredRemoved(m: Entries, now: Time, count: nat, keys: seq<Key>, m': Entries)
    requires Distinct(keys) && forall k :: k in keys ==> k in Expired(m, now)
    requires |keys| == Max(count, 1) && m' == m - Elements(keys)
    ensures BatchOutcome(m, now, count, m')
  {
    DistinctSize(keys);
    SubsetSize(Elements(keys), m.Keys);
    assert keys[0] in Expired(m, now);
    assert m'.Keys == m.Keys - Elements(keys);
    forall r | r in m && r !in m' ensures m[r].IsExpired(now) {
      assert r in Elements(keys);
    }
  }

  lemma {:induction false} ExpiredThenLeastUsed(m: Entries, now: Time, count: nat, keys: seq<Key>, live: Entries,
                                                m': Entries)
    requires Distinct(keys) && Elements(keys) == Expired(m, now)
    requires |keys| == 0 || |keys| < count
    requires live == m - Elements(keys)
    requires KeepsMostUsed(live, m') && |m'| == |live| - Min(count - |keys|, |live|)
    ensures BatchOutcome(m, now, count, m')
  {
    SizeWithoutExpired(m, now, keys, live);
    LiveIsTheRest(m, now, live);
    NothingExpiredLeft(m, now, live, m');
    hide Expired, Elements, Distinct, KeepsMostUsed;
    LiveAreMostUsed(m, now, live, m');
  }

  lemma {:induction false} LiveAreMostUsed(m: Entries, now: Time, live: Entries, m': Entries)
    requires Submap(live, m) && KeepsMostUsed(live, m')
    requires forall k :: k in live <==> k in m && !m[k].IsExpired(now)
    ensures Submap(m', m)
    ensures forall r, k :: r in m && r !in m' && !m[r].IsExpired(now) && k in m' && !m[k].IsExpired(now) ==>
                             m[r].hitCount <= m[k].hitCount
  {
    forall r, k | r in m && r !in m' && !m[r].IsExpired(now) && k in m' ensures m[r].hitCount <= m[k].hitCount {
      assert r in live && k in live;
    }
  }

  lemma {:induction false} SizeWithoutExpired(m: Entries, now: Time, keys: seq<Key>, live: Entries)
    requires Distinct(keys) && Elements(keys) == Expired(m, now) && live == m - Elements(keys)
    ensures |live| == |m| - |keys|
    ensures Expired(m, now) != {} <==> |keys| > 0
  {
    DistinctSize(keys);
    assert live.Keys == m.Keys - Elements(keys);
    assert m.Keys == live.Keys + Elements(keys);
    if |keys| > 0 {
      assert keys[0] in Elements(keys);
    }
  }

  lemma {:induction false} LiveIsTheRest(m: Entries, now: Time, live: Entries)
    requires live == m - Expired(m, now)
    ensures Submap(live, m)
    ensures forall k :: k in live <==> k in m && !m[k].IsExpired(now)
  {
  }

  lemma {:induction false} NothingExpiredLeft(m: Entries, now: Time, live: Entries, m': Entries)
    requires Submap(live, m) && Submap(m', live) && forall k :: k in live ==> !m[k].IsExpired(now)
    ensures Expired(m', now) == {}
  {
  }

  /** The tail of the batch form: the first `n` entries in hit-count order. */
  method RemoveLeastUsed(table: CacheMap, n: nat)
    modifies table
    ensures KeepsMostUsed(old(table.entries), table.entries)
    ensures |table.entries| == |old(table.entries)| - Min(n, |old(table.entries)|)
  {
    ghost var m := table.entries;
    var entries := HitPairs(table);
    entries := Sorting.SortBy(entries, Hits);
    for i := 0 to Min(n, |entries|)
      invariant FirstRemoved(m, entries, i, table.entries)
    {
      RemoveNext(m, entries, i, table.entries);
      table.Remove(entries[i].0);
    }
    LeastUsedRemoved(m, entries, Min(n, |entries|), table.entries);
  }

  /** `m'` is `m` without the first `n` of the pairs. */
  ghost predicate FirstRemoved(m: Entries, entries: seq<(Key, nat)>, n: nat, m': Entries) {
    && Submap(m', m)
    && |m'| == |m| - n
    && (forall j :: 0 <= j < n && j < |entries| ==> entries[j].0 !in m')
    && (forall j :: n <= j < |entries| ==> entries[j].0 in m')
  }

  lemma {:induction false} RemoveNext(m: Entries, entries: seq<(Key, nat)>, i: nat, m': Entries)
    requires ByHits(m, entries) && i < |entries| && FirstRemoved(m, entries, i, m')
    ensures FirstRemoved(m, entries, i + 1, m' - {entries[i].0})
  {
    hide ByHits;
    OtherKeysDiffer(m, entries, i);
    var key := entries[i].0;
    assert key in m' && (m' - {key}).Keys == m'.Keys - {key};
  }

  lemma {:induction false} OtherKeysDiffer(m: Entries, entries: seq<(Key, nat)>, i: nat)
    requires ByHits(m, entries) && i < |entries|
    ensures forall j :: 0 <= j < |entries| && j != i ==> entries[j].0 != entries[i].0
  {
    forall j | 0 <= j < |entries| && j != i ensures entries[j].0 != entries[i].0 {
      assert j < i || i < j;
    }
  }

  method HitPairs(table: CacheMap) returns (pairs: seq<(Key, nat)>)
    ensures ByHits(table.entries, Sorting.SortBy(pairs, Hits))
  {
    var keys := Enumerate(table.entries);
    pairs := [];
    for i := 0 to |keys|
      invariant |pairs| == i
      invariant forall j :: 0 <= j < i ==> pairs[j] == (keys[j], table.entries[keys[j]].hitCount)
    {
      pairs := pairs + [(keys[i], table.entries[keys[i]].hitCount)];
    }
    PairsListHits(table.entries, keys, pairs);
    ByHitsIsSorted(table.entries, pairs);
  }

  function Hits(e: (Key, nat)): real {
    e.1 as real
  }

  /** The entries of `m` as (key, hits) pairs, fewest hits first. */
  ghost predicate ByHits(m: Entries, entries: seq<(Key, nat)>) {
    && ListsHits(m, entries)
    && (forall i, j :: 0 <= i < j < |entries| ==> entries[i].1 <= entries[j].1)
  }

  /** The pairs list the entries of `m`, each once. */
  ghost predicate ListsHits(m: Entries, pairs: seq<(Key, nat)>) {
    && |pairs| == |m|
    && (forall i, j :: 0 <= i < j < |pairs| ==> pairs[i].0 != pairs[j].0)
    && (forall e :: e in pairs ==> e.0 in m && e.1 == m[e.0].hitCount)
    && (forall k :: k in m ==> (k, m[k].hitCount) in pairs)
  }

  lemma {:induction false} PairsListHits(m: Entries, keys: seq<Key>, pairs: seq<(Key, nat)>)
    requires Distinct(keys) && |keys| == |m| && forall k :: k in keys <==> k in m
    requires |pairs| == |keys|
    requires forall j :: 0 <= j < |keys| ==> pairs[j] == (keys[j], m[keys[j]].hitCount)
    ensures ListsHits(m, pairs)
  {
    forall k | k in m ensures (k, m[k].hitCount) in pairs {
      var i :| 0 <= i < |keys| && keys[i] == k;
      assert pairs[i] == (k, m[k].hitCount);
    }
  }

  lemma {:induction false} RearrangedLists(m: Entries, pairs: seq<(Key, nat)>, entries: seq<(Key, nat)>)
    requires ListsHits(m, pairs) && multiset(entries) == multiset(pairs) && |entries| == |pairs|
    ensures ListsHits(m, entries)
  {
    Sorting.SameElements(pairs, entries);
    Sorting.DistinctRearranged(pairs, entries);
    forall i, j | 0 <= i < j < |entries| ensures entries[i].0 != entries[j].0 {
      assert entries[i] in pairs && entries[j] in pairs;
    }
  }

  lemma {:induction false} ByHitsIsSorted(m: Entries, pairs: seq<(Key, nat)>)
    requires ListsHits(m, pairs)
    ensures ByHits(m, Sorting.SortBy(pairs, Hits))
  {
    hide ListsHits;
    var entries := Sorting.SortBy(pairs, Hits);
    Sorting.SortByIsSorted(pairs, Hits);
    RearrangedLists(m, pairs, entries);
    forall i, j | 0 <= i < j < |entries| ensures entries[i].1 <= entries[j].1 {
      assert Hits(entries[i]) <= Hits(entries[j]);
    }
  }

  lemma {:induction false} LeastUsedRemoved(m: Entries, entries: seq<(Key, nat)>, n: nat, m': Entries)
    requires ByHits(m, entries) && n <= |entries| && FirstRemoved(m, entries, n, m')
    ensures KeepsMostUsed(m, m')
  {
    forall r, k | r in m && r !in m' && k in m' ensures m[r].hitCount <= m[k].hitCount {
      var i :| 0 <= i < |entries| && entries[i] == (r, m[r].hitCount);
      var j :| 0 <= j < |entries| && entries[j] == (k, m[k].hitCount);
    }
  }

  /** Successive eviction passes at the same moment. */
  ghost predicate EvictionRun(now: Time, states: seq<Entries>) {
    |states| > 0 && forall i :: 0 <= i < |states| - 1 ==> EvictOutcome(states[i], now, states[i + 1])
  }

  /** A pass takes something from every non-empty map and changes no survivor. */
  lemma {:induction false} EvictShrinks(m: Entries, now: Time, m': Entries)
    requires EvictOutcome(m, now, m')
    ensures Submap(m', m)
    ensures |m'| <= |m|
    ensures |m| > 0 ==> |m'| < |m|
  {
    SubmapSize(m', m);
  }

  lemma {:induction false} EvictKeepsMostUsed(m: Entries, now: Time, m': Entries)
    requires Expired(m, now) == {} && EvictOutcome(m, now, m')
    ensures KeepsMostUsed(m, m') && |m'| == |m| - Min(1, |m|) && Expired(m', now) == {}
  {
    if |m| > 0 {
      var v :| LeastUsed(m, v) && m' == m - {v};
      assert m'.Keys == m.Keys - {v};
    }
    assert Expired(m', now) <= Expired(m, now);
  }

  lemma {:induction false} RunKeepsMostUsed(now: Time, states: seq<Entries>, i: nat)
    requires EvictionRun(now, states) && i < |states| && Expired(states[0], now) == {}
    ensures KeepsMostUsed(states[0], states[i]) && |states[i]| == |states[0]| - Min(i, |states[0]|)
    ensures Expired(states[i], now) == {}
  {
    if i == 0 {
    } else {
      RunKeepsMostUsed(now, states, i - 1);
      EvictKeepsMostUsed(states[i - 1], now, states[i]);
      KeepsMostUsedTwice(states[0], states[i - 1], states[i]);
    }
  }

  /** With nothing expired the batch form and as many single passes leave the
      same multiset of hit counts, and the same entries when no two counts agree. */
  lemma {:induction false} BatchMatchesRepeatedEviction(now: Time, states: seq<Entries>, n: nat, a: Entries)
    requires EvictionRun(now, states) && |states| == n + 1 && Expired(states[0], now) == {}
    requires BatchOutcome(states[0], now, n, a)
    ensures |a| == |states[n]| && SameHitCounts(a, states[n])
    ensures DistinctHits(states[0]) ==> a == states[n]
  {
    var m := states[0];
    RunKeepsMostUsed(now, states, n);
    forall k | k in m ensures !m[k].IsExpired(now) {
      assert k !in Expired(m, now);
    }
    assert KeepsMostUsed(m, a);
    MostUsedHitCounts(m, a, states[n]);
    if DistinctHits(m) {
      MostUsedUnique(m, a, states[n]);
    }
  }
}
