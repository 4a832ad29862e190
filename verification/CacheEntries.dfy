/** The entries of the exact cache and the shared map that holds them. */
module CacheEntries {
  import opened Contracts
  import Prelude

  /** A cache key is an opaque 64-bit hash. */
  newtype Key = k: int | 0 <= k < 0x1_0000_0000_0000_0000

  /** Milliseconds on the monotonic clock. */
  type Time = nat

  datatype CacheEntry = CacheEntry(response: UnifiedResponse, hitCount: nat, createdAt: Time, ttl: nat) {
    /** Elapsed time saturates at zero, so an entry from the future is fresh. */
    predicate IsExpired(now: Time) {
      now - createdAt > ttl
    }
  }

  type Entries = map<Key, CacheEntry>

  class CacheMap {
    var entries: Entries

    constructor ()
      ensures entries == map[]
    {
      entries := map[];
    }

    method Remove(key: Key)
      modifies this
      ensures entries == old(entries) - {key}
    {
      entries := entries - {key};
    }

    method Insert(key: Key, entry: CacheEntry)
      modifies this
      ensures entries == old(entries)[key := entry]
    {
      entries := entries[key := entry];
    }
  }

  ghost function Expired(m: Entries, now: Time): set<Key> {
    set k | k in m && m[k].IsExpired(now)
  }

  ghost predicate Submap(a: Entries, m: Entries) {
    forall k :: k in a ==> k in m && a[k] == m[k]
  }

  lemma {:induction false} SubmapSize(a: Entries, m: Entries)
    requires Submap(a, m)
    ensures a.Keys <= m.Keys
    ensures |a| <= |m|
    ensures |a| == |m| ==> a == m
  {
    assert a.Keys <= m.Keys;
    assert m.Keys == a.Keys + (m.Keys - a.Keys);
    assert |m.Keys| == |a.Keys| + |m.Keys - a.Keys|;
    if |a| == |m| {
      assert m.Keys - a.Keys == {};
      assert a.Keys == m.Keys;
    }
  }

  /** The entries with at least `h` hits. */
  ghost function AtLeast(m: Entries, h: int): set<Key> {
    set k | k in m && m[k].hitCount >= h
  }

  /** The entries with exactly `h` hits. */
  ghost function WithHits(m: Entries, h: int): set<Key> {
    set k | k in m && m[k].hitCount == h
  }

  /** Both maps hold each hit count equally often: the same multiset of counts. */
  ghost predicate SameHitCounts(a: Entries, b: Entries) {
    forall h: int :: |WithHits(a, h)| == |WithHits(b, h)|
  }

  ghost predicate DistinctHits(m: Entries) {
    forall j, k :: j in m && k in m && j != k ==> m[j].hitCount != m[k].hitCount
  }

  /** `a` is what is left of `m` after taking out only least-used entries. */
  ghost predicate KeepsMostUsed(m: Entries, a: Entries) {
    && Submap(a, m)
    && forall r, k :: r in m && r !in a && k in a ==> m[r].hitCount <= m[k].hitCount
  }

  lemma {:induction false} KeepsMostUsedTwice(m: Entries, mid: Entries, a: Entries)
    requires KeepsMostUsed(m, mid) && KeepsMostUsed(mid, a)
    ensures KeepsMostUsed(m, a)
  {
    forall r, k | r in m && r !in a && k in a ensures m[r].hitCount <= m[k].hitCount {
      assert k in mid && mid[k] == m[k];
      if r in mid {
        assert mid[r] == m[r];
      }
    }
  }

  lemma {:induction false} AtLeastSize(m: Entries, a: Entries, h: int)
    requires KeepsMostUsed(m, a)
    ensures |AtLeast(a, h)| == if |a| <= |AtLeast(m, h)| then |a| else |AtLeast(m, h)|
  {
    SubmapSize(a, m);
    assert AtLeast(a, h) <= AtLeast(m, h) && AtLeast(a, h) <= a.Keys;
    if AtLeast(m, h) <= a.Keys {
      assert AtLeast(a, h) == AtLeast(m, h);
      Prelude.SubsetSize(AtLeast(m, h), a.Keys);
    } else {
      var r :| r in AtLeast(m, h) && r !in a.Keys;
      assert AtLeast(a, h) == a.Keys;
      Prelude.SubsetSize(a.Keys, AtLeast(m, h));
    }
  }

  lemma {:induction false} WithHitsSize(m: Entries, h: int)
    ensures |WithHits(m, h)| == |AtLeast(m, h)| - |AtLeast(m, h + 1)|
  {
    assert AtLeast(m, h) == WithHits(m, h) + AtLeast(m, h + 1);
    assert WithHits(m, h) !! AtLeast(m, h + 1);
  }

  /** However ties are broken, the number of kept entries fixes their hit counts. */
  lemma {:induction false} MostUsedHitCounts(m: Entries, a: Entries, b: Entries)
    requires KeepsMostUsed(m, a) && KeepsMostUsed(m, b) && |a| == |b|
    ensures SameHitCounts(a, b)
  {
    forall h: int ensures |WithHits(a, h)| == |WithHits(b, h)| {
      AtLeastSize(m, a, h);
      AtLeastSize(m, a, h + 1);
      AtLeastSize(m, b, h);
      AtLeastSize(m, b, h + 1);
      WithHitsSize(a, h);
      WithHitsSize(b, h);
    }
  }

  /** Without ties a kept entry is recognised by how many are used at least as much. */
  lemma {:induction false} KeptIffFewAtLeast(m: Entries, a: Entries, k: Key)
    requires KeepsMostUsed(m, a) && DistinctHits(m) && k in m
    ensures k in a <==> |AtLeast(m, m[k].hitCount)| <= |a|
  {
    var above := AtLeast(m, m[k].hitCount);
    if k in a {
      forall j | j in above ensures j in a.Keys {
        if j !in a {
          assert false;
        }
      }
      Prelude.SubsetSize(above, a.Keys);
    } else {
      assert a.Keys <= above - {k};
      Prelude.SubsetSize(a.Keys, above - {k});
    }
  }

  lemma {:induction false} MostUsedUnique(m: Entries, a: Entries, b: Entries)
    requires KeepsMostUsed(m, a) && KeepsMostUsed(m, b) && |a| == |b| && DistinctHits(m)
    ensures a == b
  {
    forall k | k in m ensures k in a <==> k in b {
      KeptIffFewAtLeast(m, a, k);
      KeptIffFewAtLeast(m, b, k);
    }
    assert a.Keys == b.Keys;
  }
}
