/** The exact-match cache: lookup, insertion with a bounded evict loop, and
    the selection of the hottest entries for a dump. */
module ExactCache {
  import opened Prelude
  import opened Contracts
  import opened CacheEntries
  import opened Eviction
  import Sorting

  const EVICT_ATTEMPTS := 5

  /** What the evict loop may leave behind after `attempts` passes already made. */
  ghost predicate RoomMade(m: Entries, capacity: nat, now: Time, attempts: nat, m': Entries)
    decreases EVICT_ATTEMPTS - attempts
  {
    if |m| >= capacity && attempts < EVICT_ATTEMPTS then
      exists mid :: EvictOutcome(m, now, mid) && RoomMade(mid, capacity, now, attempts + 1, m')
    else m' == m
  }

  ghost predicate InsertOutcome(m: Entries, capacity: nat, now: Time, hash: Key, entry: CacheEntry, m': Entries) {
    exists mid :: RoomMade(m, capacity, now, 0, mid) && m' == mid[hash := entry]
  }

  datatype CacheDumpEntry = CacheDumpEntry(hash: Key, response: UnifiedResponse, hitCount: nat, ttlSecs: nat)

  function DumpEntry(hash: Key, e: CacheEntry): CacheDumpEntry {
    CacheDumpEntry(hash, e.response, e.hitCount, e.ttl / 1000)
  }

  /** The dumped entry carries the response, the hit count and the whole seconds of
      the time-to-live. */
  ghost predicate IsDumpOf(d: CacheDumpEntry, e: CacheEntry) {
    && d.response == e.response && d.hitCount == e.hitCount
    && d.ttlSecs * 1000 <= e.ttl < (d.ttlSecs + 1) * 1000
  }

  ghost function Live(m: Entries, now: Time): set<Key> {
    set k | k in m && !m[k].IsExpired(now)
  }

  ghost predicate DistinctHashes(dump: seq<CacheDumpEntry>) {
    forall i, j :: 0 <= i < j < |dump| ==> dump[i].hash != dump[j].hash
  }

  /** `dump` lists `n` of the hottest live entries of `m`, hottest first. */
  ghost predicate TopOutcome(m: Entries, now: Time, n: nat, dump: seq<CacheDumpEntry>) {
    && |dump| == Min(n, |Live(m, now)|)
    && DistinctHashes(dump)
    && HitsDescend(dump)
    && (forall d :: d in dump ==> d.hash in Live(m, now) && d == DumpEntry(d.hash, m[d.hash]))
    && (forall k, d :: k in Live(m, now) && (forall c :: c in dump ==> c.hash != k) && d in dump ==>
          m[k].hitCount <= d.hitCount)
  }

  class ExactCache {
    const table: CacheMap
    const maxEntries: nat
    const defaultTtl: nat

    constructor (maxEntries: nat, defaultTtl: nat)
      ensures fresh(table) && table.entries == map[]
      ensures this.maxEntries == maxEntries && this.defaultTtl == defaultTtl
    {
      table := new CacheMap();
      this.maxEntries := maxEntries;
      this.defaultTtl := defaultTtl;
    }

    method Get(hash: Key, now: Time) returns (r: Option<UnifiedResponse>)
      modifies table
      ensures r.Some? <==> hash in old(table.entries) && !old(table.entries)[hash].IsExpired(now)
      ensures r.Some? ==>
                var e := old(table.entries)[hash];
                && r.value == e.response
                && table.entries == old(table.entries)[hash := e.(hitCount := e.hitCount + 1)]
      ensures r.None? ==> table.entries == old(table.entries) - {hash}
    {
      if hash !in table.entries {
        return None;
      }
      var entry := table.entries[hash];
      if entry.IsExpired(now) {
        table.Remove(hash);
        return None;
      }
      table.Insert(hash, entry.(hitCount := entry.hitCount + 1));
      return Some(entry.response);
    }

    method InsertWithTtl(hash: Key, response: UnifiedResponse, ttl: nat, now: Time)
      modifies table
      ensures InsertOutcome(old(table.entries), maxEntries, now, hash,
                            CacheEntry(response, 0, now, ttl), table.entries)
    {
      EvictUntilBelowCapacity(now);
      table.Insert(hash, CacheEntry(response, 0, now, ttl));
    }

    method InsertWarm(hash: Key, response: UnifiedResponse, hitCount: nat, now: Time)
      modifies table
      ensures InsertOutcome(old(table.entries), maxEntries, now, hash,
                            CacheEntry(response, hitCount, now, defaultTtl), table.entries)
    {
      EvictUntilBelowCapacity(now);
      table.Insert(hash, CacheEntry(response, hitCount, now, defaultTtl));
    }

    /** The loop both insertions begin with. */
    method EvictUntilBelowCapacity(now: Time)
      modifies table
      ensures RoomMade(old(table.entries), maxEntries, now, 0, table.entries)
    {
      var evictAttempts := 0;
      ghost var m := table.entries;
      while |table.entries| >= maxEntries && evictAttempts < EVICT_ATTEMPTS
        invariant evictAttempts <= EVICT_ATTEMPTS
        invariant forall m' :: RoomMade(table.entries, maxEntries, now, evictAttempts, m') ==>
                                 RoomMade(m, maxEntries, now, 0, m')
      {
        EvictLfu(table, now);
        evictAttempts := evictAttempts + 1;
      }
      assert RoomMade(table.entries, maxEntries, now, evictAttempts, table.entries);
    }

    method TopByHitCount(n: nat, now: Time) returns (dump: seq<CacheDumpEntry>)
      ensures TopOutcome(table.entries, now, n, dump)
      ensures forall d :: d in dump ==>
                d.hash in table.entries && IsDumpOf(d, table.entries[d.hash])
    {
      var keys := Enumerate(table.entries);
      var live: seq<CacheDumpEntry> := [];
      for i := 0 to |keys|
        invariant DistinctHashes(live)
        invariant forall d :: d in live ==> d.hash in keys[..i] && d.hash in Live(table.entries, now)
        invariant forall d :: d in live ==> d == DumpEntry(d.hash, table.entries[d.hash])
        invariant forall k :: k in keys[..i] && k in Live(table.entries, now) ==>
                                DumpEntry(k, table.entries[k]) in live
      {
        if !table.entries[keys[i]].IsExpired(now) {
          live := live + [DumpEntry(keys[i], table.entries[keys[i]])];
        }
      }
      dump := Sorting.SortBy(live, ByHitsDescending);
      AllDumped(table.entries, now, live);
      if |dump| > n {
        dump := dump[..n];
      }
      HottestFirst(table.entries, now, n, live, dump);
    }
  }

  function ByHitsDescending(d: CacheDumpEntry): real {
    -(d.hitCount as real)
  }

  /** One dump entry for each live cache entry. */
  ghost predicate DumpsLive(m: Entries, now: Time, live: seq<CacheDumpEntry>) {
    && DistinctHashes(live)
    && (forall d :: d in live ==> d.hash in Live(m, now) && d == DumpEntry(d.hash, m[d.hash]))
    && (forall k :: k in Live(m, now) ==> DumpEntry(k, m[k]) in live)
  }

  lemma {:induction false} AllDumped(m: Entries, now: Time, live: seq<CacheDumpEntry>)
    requires DumpsLive(m, now, live)
    ensures |live| == |Live(m, now)|
    ensures |Sorting.SortBy(live, ByHitsDescending)| == |live|
  {
    var hashes := seq(|live|, i requires 0 <= i < |live| => live[i].hash);
    DistinctSize(hashes);
    forall k | k in Live(m, now) ensures k in hashes {
      var i :| 0 <= i < |live| && live[i] == DumpEntry(k, m[k]);
      assert hashes[i] == k;
    }
    forall h | h in hashes ensures h in Live(m, now) {
      var i :| 0 <= i < |hashes| && hashes[i] == h;
      assert live[i] in live;
    }
    assert (set h | h in hashes) == Live(m, now);
    Sorting.SortByIsSorted(live, ByHitsDescending);
  }

  lemma {:induction false} HottestFirst(m: Entries, now: Time, n: nat, live: seq<CacheDumpEntry>,
                                        dump: seq<CacheDumpEntry>)
    requires DumpsLive(m, now, live) && |live| == |Live(m, now)|
    requires |Sorting.SortBy(live, ByHitsDescending)| == |live|
    requires dump == Sorting.SortBy(live, ByHitsDescending)[..Min(n, |live|)]
    ensures TopOutcome(m, now, n, dump)
  {
    var sorted := Sorting.SortBy(live, ByHitsDescending);
    SortedDump(m, now, live);
    forall d | d in dump ensures d in sorted {}
    forall k, d | k in Live(m, now) && (forall c :: c in dump ==> c.hash != k) && d in dump
      ensures m[k].hitCount <= d.hitCount
    {
      NotDumpedIsColder(m, now, sorted, |dump|, k, d);
    }
  }

  lemma {:induction false} SortedDump(m: Entries, now: Time, live: seq<CacheDumpEntry>)
    requires DumpsLive(m, now, live)
    ensures DumpsLive(m, now, Sorting.SortBy(live, ByHitsDescending))
    ensures HitsDescend(Sorting.SortBy(live, ByHitsDescending))
  {
    hide Sorting.SortBy, HitsDescend, Sorting.Sorted;
    var sorted := Sorting.SortBy(live, ByHitsDescending);
    Sorting.SortByIsSorted(live, ByHitsDescending);
    Sorting.SameElements(live, sorted);
    Sorting.DistinctRearranged(live, sorted);
    SortedHits(sorted);
    forall i, j | 0 <= i < j < |sorted| ensures sorted[i].hash != sorted[j].hash {
      assert sorted[i] in live && sorted[j] in live;
    }
  }

  lemma {:induction false} NotDumpedIsColder(m: Entries, now: Time, sorted: seq<CacheDumpEntry>, n: nat, k: Key,
                                             d: CacheDumpEntry)
    requires DumpsLive(m, now, sorted) && HitsDescend(sorted) && n <= |sorted|
    requires k in Live(m, now) && (forall c :: c in sorted[..n] ==> c.hash != k) && d in sorted[..n]
    ensures m[k].hitCount <= d.hitCount
  {
    var i :| 0 <= i < |sorted| && sorted[i] == DumpEntry(k, m[k]);
    var j :| 0 <= j < n && sorted[j] == d;
    assert forall t :: 0 <= t < n ==> sorted[..n][t] == sorted[t] && sorted[t] in sorted[..n];
  }

  ghost predicate HitsDescend(dump: seq<CacheDumpEntry>) {
    forall i, j :: 0 <= i < j < |dump| ==> dump[i].hitCount >= dump[j].hitCount
  }

  lemma {:induction false} SortedHits(sorted: seq<CacheDumpEntry>)
    requires Sorting.Sorted(sorted, ByHitsDescending)
    ensures HitsDescend(sorted)
  {
    forall i, j | 0 <= i < j < |sorted| ensures sorted[i].hitCount >= sorted[j].hitCount {
      assert ByHitsDescending(sorted[i]) <= ByHitsDescending(sorted[j]);
    }
  }

  // ---- What an insertion does to the number of entries ----

  lemma {:induction false} RoomMadeSize(m: Entries, capacity: nat, now: Time, attempts: nat, m': Entries)
    requires RoomMade(m, capacity, now, attempts, m') && attempts <= EVICT_ATTEMPTS
    ensures Submap(m', m)
    ensures |m'| <= Max(Max(capacity, 1) - 1, |m| - (EVICT_ATTEMPTS - attempts))
    decreases EVICT_ATTEMPTS - attempts
  {
    if |m| >= capacity && attempts < EVICT_ATTEMPTS {
      var mid :| EvictOutcome(m, now, mid) && RoomMade(mid, capacity, now, attempts + 1, m');
      EvictShrinks(m, now, mid);
      RoomMadeSize(mid, capacity, now, attempts + 1, m');
    }
  }

  /** Alone, an insertion never exceeds the capacity (one entry when it is 0),
      and it brings an overfull cache four entries closer to it. */
  lemma {:induction false} InsertRespectsCapacity(m: Entries, capacity: nat, now: Time, hash: Key, entry: CacheEntry,
                                                  m': Entries)
    requires InsertOutcome(m, capacity, now, hash, entry, m')
    ensures |m'| <= Max(Max(capacity, 1), |m| - 4)
    ensures hash in m' && m'[hash] == entry
    ensures forall k :: k in m' && k != hash ==> k in m && m'[k] == m[k]
  {
    var mid :| RoomMade(m, capacity, now, 0, mid) && m' == mid[hash := entry];
    RoomMadeSize(m, capacity, now, 0, mid);
    assert m'.Keys == mid.Keys + {hash};
  }

  /** With room to spare nothing is evicted. */
  lemma {:induction false} InsertBelowCapacity(m: Entries, capacity: nat, now: Time, hash: Key, entry: CacheEntry,
                                               m': Entries)
    requires InsertOutcome(m, capacity, now, hash, entry, m')
    requires |m| < Max(capacity, 1)
    ensures m' == m[hash := entry]
  {
    var room :| RoomMade(m, capacity, now, 0, room) && m' == room[hash := entry];
    if |m| == 0 {
      RoomMadeSize(m, capacity, now, 0, room);
      SubmapSize(room, m);
    }
    assert room == m;
  }

  /** A full cache without expired entries gives up one least-used entry. */
  lemma {:induction false} InsertIntoFull(m: Entries, capacity: nat, now: Time, hash: Key, entry: CacheEntry,
                                          m': Entries)
    requires InsertOutcome(m, capacity, now, hash, entry, m')
    requires |m| == Max(capacity, 1) && Expired(m, now) == {}
    ensures exists v :: LeastUsed(m, v) && m' == (m - {v})[hash := entry]
  {
    var room :| RoomMade(m, capacity, now, 0, room) && m' == room[hash := entry];
    var mid :| EvictOutcome(m, now, mid) && RoomMade(mid, capacity, now, 1, room);
    EvictShrinks(m, now, mid);
    RoomMadeSize(mid, capacity, now, 1, room);
    if capacity == 0 {
      SubmapSize(room, mid);
    }
    assert room == mid;
  }
}
