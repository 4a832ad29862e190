/** Reloading a dump of the hottest entries into a fresh cache. */
module Warming {
  import opened Prelude
  import opened CacheEntries
  import opened Eviction
  import opened ExactCache

  /** A warmed entry starts a new life: it is created now, with the cache's
      default time-to-live; the dumped time-to-live is not used. */
  function WarmedEntry(d: CacheDumpEntry, ttl: nat, now: Time): CacheEntry {
    CacheEntry(d.response, d.hitCount, now, ttl)
  }

  /** `m'` can result from inserting the entries of `dump` into `m` in order,
      the i-th at time `clock[i]`. */
  ghost predicate WarmOutcome(m: Entries, capacity: nat, ttl: nat, dump: seq<CacheDumpEntry>, clock: seq<Time>,
                              m': Entries)
    requires |dump| == |clock|
  {
    if |dump| == 0 then m' == m
    else
      var last := |dump| - 1;
      exists mid ::
        && WarmOutcome(m, capacity, ttl, dump[..last], clock[..last], mid)
        && InsertOutcome(mid, capacity, clock[last], dump[last].hash,
                         WarmedEntry(dump[last], ttl, clock[last]), m')
  }

  lemma {:induction false} OneMoreLoaded(m: Entries, capacity: nat, ttl: nat, dump: seq<CacheDumpEntry>,
                                         clock: seq<Time>, n: nat, mid: Entries, m': Entries)
    requires n < |dump| == |clock|
    requires WarmOutcome(m, capacity, ttl, dump[..n], clock[..n], mid)
    requires InsertOutcome(mid, capacity, clock[n], dump[n].hash, WarmedEntry(dump[n], ttl, clock[n]), m')
    ensures WarmOutcome(m, capacity, ttl, dump[..n + 1], clock[..n + 1], m')
  {
    hide InsertOutcome;
    var d, c := dump[..n + 1], clock[..n + 1];
    assert d[..n] == dump[..n] && d[n] == dump[n];
    assert c[..n] == clock[..n] && c[n] == clock[n];
    assert exists mid ::
        && WarmOutcome(m, capacity, ttl, d[..n], c[..n], mid)
        && InsertOutcome(mid, capacity, c[n], d[n].hash, WarmedEntry(d[n], ttl, c[n]), m');
  }

  class CacheWarmer {
    const maxWarmEntries: nat

    constructor (maxWarmEntries: nat)
      ensures this.maxWarmEntries == maxWarmEntries
    {
      this.maxWarmEntries := maxWarmEntries;
    }

    /** The load loop after decoding; `clock` is the time of each insertion. */
    method Warm(cache: ExactCache, dump: seq<CacheDumpEntry>, clock: seq<Time>) returns (loaded: nat)
      requires |dump| == |clock|
      modifies cache.table
      ensures loaded == Min(maxWarmEntries, |dump|)
      ensures WarmOutcome(old(cache.table.entries), cache.maxEntries, cache.defaultTtl,
                          dump[..loaded], clock[..loaded], cache.table.entries)
    {
      loaded := 0;
      while loaded < |dump| && loaded < maxWarmEntries
        invariant loaded <= Min(maxWarmEntries, |dump|)
        invariant WarmOutcome(old(cache.table.entries), cache.maxEntries, cache.defaultTtl,
                              dump[..loaded], clock[..loaded], cache.table.entries)
      {
        var d := dump[loaded];
        ghost var mid := cache.table.entries;
        cache.InsertWarm(d.hash, d.response, d.hitCount, clock[loaded]);
        OneMoreLoaded(old(cache.table.entries), cache.maxEntries, cache.defaultTtl, dump, clock, loaded,
                      mid, cache.table.entries);
        loaded := loaded + 1;
      }
    }

    /** The entries one dump writes: the hottest `maxWarmEntries`. */
    method Dump(cache: ExactCache, now: Time) returns (dump: seq<CacheDumpEntry>)
      ensures TopOutcome(cache.table.entries, now, maxWarmEntries, dump)
    {
      dump := cache.TopByHitCount(maxWarmEntries, now);
    }
  }

  // ---- What is in a fresh cache after warming ----

  /** `m'` holds the warmed entries of `dump` at the positions below `hot` and
      at position `last`, and no others. */
  ghost predicate HoldsExactly(dump: seq<CacheDumpEntry>, ttl: nat, clock: seq<Time>, hot: nat, last: nat, m': Entries)
    requires |dump| == |clock| && hot <= last < |dump|
  {
    && (forall i :: 0 <= i < |dump| && (i < hot || i == last) ==>
          dump[i].hash in m' && m'[dump[i].hash] == WarmedEntry(dump[i], ttl, clock[i]))
    && (forall k :: k in m' ==> k == dump[last].hash || exists i :: 0 <= i < hot && dump[i].hash == k)
  }

  ghost predicate StrictlyHotter(dump: seq<CacheDumpEntry>) {
    forall i, j :: 0 <= i < j < |dump| ==> dump[i].hitCount > dump[j].hitCount
  }

  /** Time does not run backwards, and the whole load takes at most `ttl`. */
  ghost predicate QuickLoad(clock: seq<Time>, ttl: nat) {
    forall i, j :: 0 <= i < j < |clock| ==> clock[i] <= clock[j] <= clock[i] + ttl
  }

  lemma {:induction false} HoldsExactlySize(dump: seq<CacheDumpEntry>, ttl: nat, clock: seq<Time>, hot: nat,
                                            last: nat, m': Entries)
    requires |dump| == |clock| && hot <= last < |dump| && DistinctHashes(dump)
    requires HoldsExactly(dump, ttl, clock, hot, last, m')
    ensures |m'| == hot + 1
  {
    var hashes := seq(hot + 1, i requires 0 <= i <= hot => if i < hot then dump[i].hash else dump[last].hash);
    DistinctSize(hashes);
    forall k ensures k in m' <==> k in hashes {
      if k in m' && k != dump[last].hash {
        var i :| 0 <= i < hot && dump[i].hash == k;
        assert hashes[i] == k;
      }
      assert hashes[hot] == dump[last].hash;
    }
    assert m'.Keys == set h | h in hashes;
  }

  /** Loading one more entry into a cache that still has room. */
  lemma {:induction false} LoadIntoRoom(dump: seq<CacheDumpEntry>, ttl: nat, clock: seq<Time>, n: nat, mid: Entries,
                                        m': Entries)
    requires |dump| == |clock| == n + 1 && n > 0 && DistinctHashes(dump)
    requires HoldsExactly(dump[..n], ttl, clock[..n], n - 1, n - 1, mid)
    requires m' == mid[dump[n].hash := WarmedEntry(dump[n], ttl, clock[n])]
    ensures HoldsExactly(dump, ttl, clock, n, n, m')
  {
    assert forall i :: 0 <= i < n ==> dump[..n][i] == dump[i] && clock[..n][i] == clock[i];
    forall k | k in m' && k != dump[n].hash ensures exists i :: 0 <= i < n && dump[i].hash == k {
      assert k == dump[n - 1].hash || exists i :: 0 <= i < n - 1 && dump[..n][i].hash == k;
    }
  }

  /** Loading one more entry into a full cache replaces the previous one,
      which is the least used. */
  lemma {:induction false} LoadIntoFull(dump: seq<CacheDumpEntry>, ttl: nat, clock: seq<Time>, n: nat, hot: nat,
                                        mid: Entries, v: Key, m': Entries)
    requires |dump| == |clock| == n + 1 && hot < n && DistinctHashes(dump) && StrictlyHotter(dump)
    requires HoldsExactly(dump[..n], ttl, clock[..n], hot, n - 1, mid)
    requires LeastUsed(mid, v) && m' == (mid - {v})[dump[n].hash := WarmedEntry(dump[n], ttl, clock[n])]
    ensures HoldsExactly(dump, ttl, clock, hot, n, m')
  {
    VictimIsPrevious(dump, ttl, clock, n, hot, mid, v);
    var rest := mid - {v};
    forall i | 0 <= i < hot ensures dump[i].hash in rest && rest[dump[i].hash] == WarmedEntry(dump[i], ttl, clock[i]) {
      assert dump[..n][i] == dump[i] && clock[..n][i] == clock[i];
    }
    forall k | k in rest ensures exists i :: 0 <= i < hot && dump[i].hash == k {
      var i :| 0 <= i < hot && dump[..n][i].hash == k;
      assert dump[i].hash == k;
    }
  }

  lemma {:induction false} VictimIsPrevious(dump: seq<CacheDumpEntry>, ttl: nat, clock: seq<Time>, n: nat, hot: nat,
                                            mid: Entries, v: Key)
    requires |dump| == |clock| == n + 1 && hot < n && StrictlyHotter(dump)
    requires HoldsExactly(dump[..n], ttl, clock[..n], hot, n - 1, mid)
    requires LeastUsed(mid, v)
    ensures v == dump[n - 1].hash
  {
    assert forall i :: 0 <= i < n ==> dump[..n][i] == dump[i];
    assert forall i :: 0 <= i < hot ==> mid[dump[i].hash].hitCount > mid[dump[n - 1].hash].hitCount;
  }

  lemma {:induction false} NothingExpired(dump: seq<CacheDumpEntry>, ttl: nat, clock: seq<Time>, n: nat, hot: nat,
                                          mid: Entries)
    requires |dump| == |clock| == n + 1 && hot < n && QuickLoad(clock, ttl)
    requires HoldsExactly(dump[..n], ttl, clock[..n], hot, n - 1, mid)
    ensures Expired(mid, clock[n]) == {}
  {
    forall k | k in mid ensures !mid[k].IsExpired(clock[n]) {
      if k == dump[..n][n - 1].hash {
        assert mid[k].createdAt == clock[n - 1];
      } else {
        var i :| 0 <= i < hot && dump[..n][i].hash == k;
        assert mid[k].createdAt == clock[i];
      }
    }
  }

  /** How many entries a cache of this capacity can hold. */
  function Places(capacity: nat): nat {
    Max(capacity, 1)
  }

  ghost predicate Warmed(capacity: nat, ttl: nat, dump: seq<CacheDumpEntry>, clock: seq<Time>, m': Entries)
    requires |dump| == |clock| > 0
  {
    && HoldsExactly(dump, ttl, clock, Min(|dump|, Places(capacity)) - 1, |dump| - 1, m')
    && |m'| == Min(|dump|, Places(capacity))
  }

  lemma {:induction false} LoadNext(capacity: nat, ttl: nat, dump: seq<CacheDumpEntry>, clock: seq<Time>, n: nat,
                                    mid: Entries, m': Entries)
    requires |dump| == |clock| == n + 1 && n > 0 && DistinctHashes(dump)
    requires n + 1 > Places(capacity) ==> StrictlyHotter(dump) && QuickLoad(clock, ttl)
    requires Warmed(capacity, ttl, dump[..n], clock[..n], mid)
    requires InsertOutcome(mid, capacity, clock[n], dump[n].hash, WarmedEntry(dump[n], ttl, clock[n]), m')
    ensures Warmed(capacity, ttl, dump, clock, m')
  {
    hide InsertOutcome, HoldsExactly, StrictlyHotter, QuickLoad, DistinctHashes, Expired;
    var entry := WarmedEntry(dump[n], ttl, clock[n]);
    var hot := Min(n + 1, Places(capacity)) - 1;
    if n < Places(capacity) {
      InsertBelowCapacity(mid, capacity, clock[n], dump[n].hash, entry, m');
      LoadIntoRoom(dump, ttl, clock, n, mid, m');
    } else {
      NothingExpired(dump, ttl, clock, n, hot, mid);
      InsertIntoFull(mid, capacity, clock[n], dump[n].hash, entry, m');
      var v :| LeastUsed(mid, v) && m' == (mid - {v})[dump[n].hash := entry];
      LoadIntoFull(dump, ttl, clock, n, hot, mid, v, m');
    }
    HoldsExactlySize(dump, ttl, clock, hot, n, m');
  }

  /** Warming a fresh cache of capacity `c` (1 when configured as 0): the first
      c - 1 entries stay and the remaining place belongs to the last one loaded.
      Beyond the capacity this takes strictly falling hit counts and a load no
      slower than the time-to-live. */
  lemma {:induction false} WarmFreshCache(capacity: nat, ttl: nat, dump: seq<CacheDumpEntry>, clock: seq<Time>,
                                          m': Entries)
    requires |dump| == |clock| > 0 && DistinctHashes(dump)
    requires |dump| > Places(capacity) ==> StrictlyHotter(dump) && QuickLoad(clock, ttl)
    requires WarmOutcome(map[], capacity, ttl, dump, clock, m')
    ensures HoldsExactly(dump, ttl, clock, Min(|dump|, Places(capacity)) - 1, |dump| - 1, m')
    ensures |m'| == Min(|dump|, Places(capacity))
  {
    hide InsertOutcome;
    var n := |dump| - 1;
    var entry := WarmedEntry(dump[n], ttl, clock[n]);
    var mid :| WarmOutcome(map[], capacity, ttl, dump[..n], clock[..n], mid)
            && InsertOutcome(mid, capacity, clock[n], dump[n].hash, entry, m');
    if n == 0 {
      InsertBelowCapacity(mid, capacity, clock[n], dump[n].hash, entry, m');
    } else {
      WarmFreshCache(capacity, ttl, dump[..n], clock[..n], mid);
      LoadNext(capacity, ttl, dump, clock, n, mid, m');
    }
  }

  // ---- Warming with equal hit counts ----

  /** All entries of `dump` as warmed, whether or not they fit. */
  ghost function Loaded(dump: seq<CacheDumpEntry>, ttl: nat, clock: seq<Time>): Entries
    requires |dump| == |clock|
  {
    if |dump| == 0 then map[]
    else
      var n := |dump| - 1;
      Loaded(dump[..n], ttl, clock[..n])[dump[n].hash := WarmedEntry(dump[n], ttl, clock[n])]
  }

  lemma {:induction false} LoadedEntries(dump: seq<CacheDumpEntry>, ttl: nat, clock: seq<Time>, k: Key)
    requires |dump| == |clock| && k in Loaded(dump, ttl, clock)
    ensures exists i :: 0 <= i < |dump| && dump[i].hash == k
                        && Loaded(dump, ttl, clock)[k] == WarmedEntry(dump[i], ttl, clock[i])
  {
    var n := |dump| - 1;
    if k == dump[n].hash {
      assert dump[n].hash == k;
    } else {
      LoadedEntries(dump[..n], ttl, clock[..n], k);
      var i :| 0 <= i < n && dump[..n][i].hash == k
            && Loaded(dump[..n], ttl, clock[..n])[k] == WarmedEntry(dump[..n][i], ttl, clock[..n][i]);
      assert dump[i].hash == k;
    }
  }

  /** The entry loaded last is in the cache, and the others kept are most-used
      ones among those loaded before it. */
  ghost predicate KeepsHottest(dump: seq<CacheDumpEntry>, ttl: nat, clock: seq<Time>, m': Entries)
    requires |dump| == |clock| > 0
  {
    var n := |dump| - 1;
    && dump[n].hash in m' && m'[dump[n].hash] == WarmedEntry(dump[n], ttl, clock[n])
    && KeepsMostUsed(Loaded(dump[..n], ttl, clock[..n]), m' - {dump[n].hash})
  }

  /** The last loaded entry is used least, and no earlier entry has its key. */
  lemma {:induction false} LastIsColdest(dump: seq<CacheDumpEntry>, ttl: nat, clock: seq<Time>)
    requires |dump| == |clock| > 0 && DistinctHashes(dump) && HitsDescend(dump)
    ensures var n := |dump| - 1;
            var earlier := Loaded(dump[..n], ttl, clock[..n]);
            dump[n].hash !in earlier && forall k :: k in earlier ==> earlier[k].hitCount >= dump[n].hitCount
  {
    var n := |dump| - 1;
    var earlier := Loaded(dump[..n], ttl, clock[..n]);
    forall k | k in earlier ensures k != dump[n].hash && earlier[k].hitCount >= dump[n].hitCount {
      LoadedEntries(dump[..n], ttl, clock[..n], k);
      var i :| 0 <= i < n && dump[..n][i].hash == k && earlier[k] == WarmedEntry(dump[..n][i], ttl, clock[..n][i]);
      assert dump[i].hash == k && dump[i].hitCount >= dump[n].hitCount;
    }
  }

  /** Dropping a least-used entry from the coldest one and some most-used others
      leaves most-used ones, whichever of equals is dropped. */
  lemma {:induction false} DropKeepsMostUsed(earlier: Entries, last: Key, entry: CacheEntry, kept: Entries, v: Key)
    requires KeepsMostUsed(earlier, kept) && last !in earlier
    requires forall k :: k in earlier ==> earlier[k].hitCount >= entry.hitCount
    requires LeastUsed(kept[last := entry], v)
    ensures KeepsMostUsed(earlier[last := entry], kept[last := entry] - {v})
  {
    var all, rest := earlier[last := entry], kept[last := entry] - {v};
    var m := kept[last := entry];
    assert m[last] == entry && m[v].hitCount <= m[last].hitCount;
    forall r, k | r in all && r !in rest && k in rest ensures all[r].hitCount <= all[k].hitCount {
      if r != v && r != last {
        assert r in earlier && r !in kept;
        if v != last {
          assert earlier[r].hitCount <= kept[v].hitCount;
        }
      }
    }
  }

  /** Without asking for distinct hit counts: an overfull load leaves, beside the
      entry loaded last, a choice of the hottest earlier entries, so exactly the
      hit counts of the first ones in the dump. */
  lemma {:induction false} WarmWithEqualCounts(capacity: nat, ttl: nat, dump: seq<CacheDumpEntry>, clock: seq<Time>,
                                               m': Entries)
    requires |dump| == |clock| > 0 && DistinctHashes(dump) && HitsDescend(dump) && QuickLoad(clock, ttl)
    requires WarmOutcome(map[], capacity, ttl, dump, clock, m')
    ensures KeepsHottest(dump, ttl, clock, m')
    ensures |m'| == Min(|dump|, Places(capacity))
  {
    var n := |dump| - 1;
    if n == 0 {
      WarmFreshCache(capacity, ttl, dump, clock, m');
      assert (m' - {dump[0].hash}).Keys == m'.Keys - {dump[0].hash};
      OnlyLast(dump, ttl, clock, m');
    } else {
      var mid :| WarmOutcome(map[], capacity, ttl, dump[..n], clock[..n], mid)
              && InsertOutcome(mid, capacity, clock[n], dump[n].hash, WarmedEntry(dump[n], ttl, clock[n]), m');
      WarmWithEqualCounts(capacity, ttl, dump[..n], clock[..n], mid);
      LoadHottest(capacity, ttl, dump, clock, n, mid, m');
    }
  }

  lemma {:induction false} OnlyLast(dump: seq<CacheDumpEntry>, ttl: nat, clock: seq<Time>, m': Entries)
    requires |dump| == |clock| == 1 && HoldsExactly(dump, ttl, clock, 0, 0, m')
    ensures KeepsHottest(dump, ttl, clock, m')
  {
    assert forall k :: k in m' ==> k == dump[0].hash;
  }

  lemma {:induction false} LoadHottest(capacity: nat, ttl: nat, dump: seq<CacheDumpEntry>, clock: seq<Time>, n: nat,
                                       mid: Entries, m': Entries)
    requires |dump| == |clock| == n + 1 && n > 0 && DistinctHashes(dump) && HitsDescend(dump) && QuickLoad(clock, ttl)
    requires KeepsHottest(dump[..n], ttl, clock[..n], mid) && |mid| == Min(n, Places(capacity))
    requires InsertOutcome(mid, capacity, clock[n], dump[n].hash, WarmedEntry(dump[n], ttl, clock[n]), m')
    ensures KeepsHottest(dump, ttl, clock, m') && |m'| == Min(n + 1, Places(capacity))
  {
    hide InsertOutcome, KeepsMostUsed, Expired, Submap, Loaded;
    var entry := WarmedEntry(dump[n], ttl, clock[n]);
    LoadedIsSubmap(dump, ttl, clock, n, mid);
    if n < Places(capacity) {
      InsertBelowCapacity(mid, capacity, clock[n], dump[n].hash, entry, m');
      AllKept(dump[..n], ttl, clock[..n], mid);
      ReplaceLast(dump, ttl, clock, n, mid, m');
    } else {
      NoneExpired(dump, ttl, clock, n, mid);
      InsertIntoFull(mid, capacity, clock[n], dump[n].hash, entry, m');
      var v :| LeastUsed(mid, v) && m' == (mid - {v})[dump[n].hash := entry];
      HottestAfterDrop(dump, ttl, clock, n, mid, v);
      assert (mid - {v}).Keys == mid.Keys - {v};
      ReplaceLast(dump, ttl, clock, n, mid - {v}, m');
    }
  }

  lemma {:induction false} AllKept(dump: seq<CacheDumpEntry>, ttl: nat, clock: seq<Time>, mid: Entries)
    requires |dump| == |clock| == |mid| && DistinctHashes(dump) && Submap(mid, Loaded(dump, ttl, clock))
    ensures KeepsMostUsed(Loaded(dump, ttl, clock), mid)
  {
    LoadedSize(dump, ttl, clock);
    SubmapSize(mid, Loaded(dump, ttl, clock));
  }

  lemma {:induction false} ReplaceLast(dump: seq<CacheDumpEntry>, ttl: nat, clock: seq<Time>, n: nat, kept: Entries,
                                       m': Entries)
    requires |dump| == |clock| == n + 1 && dump[n].hash !in kept
    requires KeepsMostUsed(Loaded(dump[..n], ttl, clock[..n]), kept)
    requires m' == kept[dump[n].hash := WarmedEntry(dump[n], ttl, clock[n])]
    ensures KeepsHottest(dump, ttl, clock, m') && |m'| == |kept| + 1
  {
    hide KeepsMostUsed, Loaded;
    assert m' - {dump[n].hash} == kept;
    assert m'.Keys == kept.Keys + {dump[n].hash};
  }

  lemma {:induction false} HottestAfterDrop(dump: seq<CacheDumpEntry>, ttl: nat, clock: seq<Time>, n: nat,
                                            mid: Entries, v: Key)
    requires |dump| == |clock| == n + 1 && n > 0 && DistinctHashes(dump) && HitsDescend(dump)
    requires KeepsHottest(dump[..n], ttl, clock[..n], mid) && LeastUsed(mid, v)
    ensures KeepsMostUsed(Loaded(dump[..n], ttl, clock[..n]), mid - {v})
  {
    var d, c := dump[..n], clock[..n];
    var last := d[n - 1];
    LastIsColdest(d, ttl, c);
    var kept := mid - {last.hash};
    assert mid == kept[last.hash := WarmedEntry(last, ttl, c[n - 1])];
    DropKeepsMostUsed(Loaded(d[..n - 1], ttl, c[..n - 1]), last.hash, WarmedEntry(last, ttl, c[n - 1]), kept, v);
  }

  lemma {:induction false} LoadedIsSubmap(dump: seq<CacheDumpEntry>, ttl: nat, clock: seq<Time>, n: nat, mid: Entries)
    requires |dump| == |clock| == n + 1 && n > 0 && DistinctHashes(dump)
    requires KeepsHottest(dump[..n], ttl, clock[..n], mid)
    ensures Submap(mid, Loaded(dump[..n], ttl, clock[..n]))
    ensures dump[n].hash !in mid
  {
    var d, c := dump[..n], clock[..n];
    forall k | k in mid
      ensures k in Loaded(d, ttl, c) && mid[k] == Loaded(d, ttl, c)[k] && k != dump[n].hash
    {
      if k != d[n - 1].hash {
        assert k in mid - {d[n - 1].hash};
      }
      LoadedEntries(d, ttl, c, k);
      var i :| 0 <= i < n && d[i].hash == k;
      assert dump[i].hash == k;
    }
  }

  lemma {:induction false} LoadedSize(dump: seq<CacheDumpEntry>, ttl: nat, clock: seq<Time>)
    requires |dump| == |clock| && DistinctHashes(dump)
    ensures |Loaded(dump, ttl, clock)| == |dump|
  {
    if |dump| == 0 {
    } else {
      var n := |dump| - 1;
      LoadedSize(dump[..n], ttl, clock[..n]);
      var earlier := Loaded(dump[..n], ttl, clock[..n]);
      if dump[n].hash in earlier {
        LoadedEntries(dump[..n], ttl, clock[..n], dump[n].hash);
        assert false;
      }
      assert Loaded(dump, ttl, clock).Keys == earlier.Keys + {dump[n].hash};
    }
  }

  lemma {:induction false} NoneExpired(dump: seq<CacheDumpEntry>, ttl: nat, clock: seq<Time>, n: nat, mid: Entries)
    requires |dump| == |clock| == n + 1 && n > 0 && QuickLoad(clock, ttl)
    requires Submap(mid, Loaded(dump[..n], ttl, clock[..n]))
    ensures Expired(mid, clock[n]) == {}
  {
    forall k | k in mid ensures !mid[k].IsExpired(clock[n]) {
      LoadedEntries(dump[..n], ttl, clock[..n], k);
      var i :| 0 <= i < n && dump[..n][i].hash == k && mid[k] == WarmedEntry(dump[..n][i], ttl, clock[..n][i]);
      assert mid[k].createdAt == clock[i];
    }
  }

  lemma {:induction false} FirstAreMostUsed(dump: seq<CacheDumpEntry>, ttl: nat, clock: seq<Time>, c: nat)
    requires |dump| == |clock| && c <= |dump| && DistinctHashes(dump) && HitsDescend(dump)
    ensures KeepsMostUsed(Loaded(dump, ttl, clock), Loaded(dump[..c], ttl, clock[..c]))
  {
    if c == |dump| {
      assert dump[..c] == dump && clock[..c] == clock;
    } else {
      var n := |dump| - 1;
      FirstAreMostUsed(dump[..n], ttl, clock[..n], c);
      assert dump[..n][..c] == dump[..c] && clock[..n][..c] == clock[..c];
      LastIsColdest(dump, ttl, clock);
      var earlier := Loaded(dump[..n], ttl, clock[..n]);
      assert KeepsMostUsed(Loaded(dump, ttl, clock), earlier);
      KeepsMostUsedTwice(Loaded(dump, ttl, clock), earlier, Loaded(dump[..c], ttl, clock[..c]));
    }
  }

  /** After an overfull load, the hit counts beside the last entry's are those of
      the first `c - 1` entries of the dump. */
  lemma {:induction false} WarmedHitCounts(capacity: nat, ttl: nat, dump: seq<CacheDumpEntry>, clock: seq<Time>,
                                           m': Entries)
    requires |dump| == |clock| > Places(capacity)
    requires DistinctHashes(dump) && HitsDescend(dump) && QuickLoad(clock, ttl)
    requires WarmOutcome(map[], capacity, ttl, dump, clock, m')
    ensures var hot := Places(capacity) - 1;
            SameHitCounts(m' - {dump[|dump| - 1].hash}, Loaded(dump[..hot], ttl, clock[..hot]))
  {
    hide WarmOutcome, KeepsMostUsed, Loaded, SameHitCounts;
    var n, hot := |dump| - 1, Places(capacity) - 1;
    WarmWithEqualCounts(capacity, ttl, dump, clock, m');
    var others := m' - {dump[n].hash};
    assert m'.Keys == others.Keys + {dump[n].hash};
    FirstAreMostUsed(dump[..n], ttl, clock[..n], hot);
    assert dump[..n][..hot] == dump[..hot] && clock[..n][..hot] == clock[..hot];
    LoadedSize(dump[..hot], ttl, clock[..hot]);
    MostUsedHitCounts(Loaded(dump[..n], ttl, clock[..n]), others, Loaded(dump[..hot], ttl, clock[..hot]));
  }

  /** Dump, restart, warm: when every live entry is dumped and fits, the fresh
      cache answers exactly the live keys with the same responses and hit counts. */
  lemma {:induction false} DumpThenWarm(m: Entries, now: Time, limit: nat, dump: seq<CacheDumpEntry>, capacity: nat,
                                        ttl: nat, clock: seq<Time>, m': Entries)
    requires TopOutcome(m, now, limit, dump) && |dump| == |clock|
    requires |Live(m, now)| <= limit && |Live(m, now)| <= Places(capacity)
    requires WarmOutcome(map[], capacity, ttl, dump, clock, m')
    ensures m'.Keys == Live(m, now)
    ensures forall k :: k in m' ==> m'[k].response == m[k].response && m'[k].hitCount == m[k].hitCount
    ensures forall k :: k in m' ==> m'[k].ttl == ttl
  {
    if |dump| > 0 {
      WarmFreshCache(capacity, ttl, dump, clock, m');
      forall k | k in m'
        ensures k in Live(m, now)
        ensures m'[k].response == m[k].response && m'[k].hitCount == m[k].hitCount && m'[k].ttl == ttl
      {
        var i :| 0 <= i < |dump| && dump[i].hash == k;
        assert dump[i] in dump;
      }
      SubsetSize(m'.Keys, Live(m, now));
    }
  }

  // ---- Dump, restart, warm: by rank ----

  /** The live entries used at least as much as the one at `k`. */
  ghost function AtLeastAsHot(m: Entries, now: Time, k: Key): set<Key>
    requires k in m
  {
    set j | j in Live(m, now) && m[j].hitCount >= m[k].hitCount
  }

  ghost predicate DistinctLiveHits(m: Entries, now: Time) {
    forall j, k :: j in Live(m, now) && k in Live(m, now) && j != k ==> m[j].hitCount != m[k].hitCount
  }

  /** The dump lists the live entries by rank. */
  lemma {:induction false} RankInDump(m: Entries, now: Time, limit: nat, dump: seq<CacheDumpEntry>, i: nat)
    requires TopOutcome(m, now, limit, dump) && DistinctLiveHits(m, now) && i < |dump|
    ensures dump[i].hash in Live(m, now) && |AtLeastAsHot(m, now, dump[i].hash)| == i + 1
  {
    assert dump[i] in dump;
    var hashes := seq(i + 1, j requires 0 <= j <= i => dump[j].hash);
    DistinctSize(hashes);
    forall k ensures k in hashes <==> k in AtLeastAsHot(m, now, dump[i].hash) {
      if k in hashes {
        var j :| 0 <= j <= i && hashes[j] == k;
        assert dump[j] in dump && dump[j].hitCount >= dump[i].hitCount;
      }
      if k in AtLeastAsHot(m, now, dump[i].hash) {
        HotterComesEarlier(m, now, limit, dump, i, k);
        var j :| 0 <= j <= i && dump[j].hash == k;
        assert hashes[j] == k;
      }
    }
    assert (set k | k in hashes) == AtLeastAsHot(m, now, dump[i].hash);
  }

  lemma {:induction false} HotterComesEarlier(m: Entries, now: Time, limit: nat, dump: seq<CacheDumpEntry>, i: nat,
                                              k: Key)
    requires TopOutcome(m, now, limit, dump) && DistinctLiveHits(m, now) && i < |dump|
    requires k in Live(m, now) && m[k].hitCount >= dump[i].hitCount
    ensures exists j :: 0 <= j <= i && dump[j].hash == k
  {
    assert dump[i] in dump;
    if c :| c in dump && c.hash == k {
      var j :| 0 <= j < |dump| && dump[j] == c;
      DumpIsStrict(m, now, limit, dump);
    } else {
      assert false;
    }
  }

  /** An entry that is not dumped ranks behind all that are. */
  lemma {:induction false} RankOutsideDump(m: Entries, now: Time, limit: nat, dump: seq<CacheDumpEntry>, k: Key)
    requires TopOutcome(m, now, limit, dump)
    requires k in Live(m, now) && forall c :: c in dump ==> c.hash != k
    ensures |AtLeastAsHot(m, now, k)| > |dump|
  {
    var hashes := seq(|dump|, j requires 0 <= j < |dump| => dump[j].hash);
    DistinctSize(hashes);
    var dumped := set h | h in hashes;
    forall h | h in dumped ensures h in AtLeastAsHot(m, now, k) - {k} {
      var j :| 0 <= j < |dump| && hashes[j] == h;
      assert dump[j] in dump;
    }
    SubsetSize(dumped, AtLeastAsHot(m, now, k) - {k});
  }

  lemma {:induction false} DumpIsStrict(m: Entries, now: Time, limit: nat, dump: seq<CacheDumpEntry>)
    requires TopOutcome(m, now, limit, dump) && DistinctLiveHits(m, now)
    ensures StrictlyHotter(dump)
  {
    forall i, j | 0 <= i < j < |dump| ensures dump[i].hitCount > dump[j].hitCount {
      assert dump[i] in dump && dump[j] in dump && dump[i].hash != dump[j].hash;
    }
  }

  /** Whatever the dump's limit and the fresh cache's capacity, when no two live
      entries are used equally often: the fresh cache holds the dumped entries that
      rank below its number of places, and the coldest dumped one, all with the same
      responses and hit counts as before. If the dump fits, that is all of it. */
  lemma {:induction false} DumpThenWarmByRank(m: Entries, now: Time, limit: nat, dump: seq<CacheDumpEntry>,
                                              capacity: nat, ttl: nat, clock: seq<Time>, m': Entries)
    requires TopOutcome(m, now, limit, dump) && |dump| == |clock|
    requires DistinctLiveHits(m, now) && (|dump| > Places(capacity) ==> QuickLoad(clock, ttl))
    requires WarmOutcome(map[], capacity, ttl, dump, clock, m')
    ensures forall k :: k in m' <==>
                          && k in Live(m, now)
                          && var rank, dumped := |AtLeastAsHot(m, now, k)|, Min(limit, |Live(m, now)|);
                             rank <= dumped && (rank < Places(capacity) || rank == dumped)
    ensures forall k :: k in m' ==> m'[k].response == m[k].response && m'[k].hitCount == m[k].hitCount
    ensures |m'| == Min(|dump|, Places(capacity))
  {
    hide AtLeastAsHot, StrictlyHotter, QuickLoad, DistinctLiveHits;
    DumpIsStrict(m, now, limit, dump);
    if |dump| == 0 {
      EverybodyRanks(m, now);
    } else {
      WarmFreshCache(capacity, ttl, dump, clock, m');
      hide WarmOutcome;
      HeldByRank(m, now, limit, dump, capacity, ttl, clock, m');
    }
  }

  lemma {:induction false} EverybodyRanks(m: Entries, now: Time)
    ensures forall k :: k in Live(m, now) ==> |AtLeastAsHot(m, now, k)| > 0
  {
    forall k | k in Live(m, now) ensures |AtLeastAsHot(m, now, k)| > 0 {
      assert k in AtLeastAsHot(m, now, k);
    }
  }

  lemma {:induction false} HeldByRank(m: Entries, now: Time, limit: nat, dump: seq<CacheDumpEntry>, capacity: nat,
                                      ttl: nat, clock: seq<Time>, m': Entries)
    requires TopOutcome(m, now, limit, dump) && DistinctLiveHits(m, now) && |dump| == |clock| > 0
    requires HoldsExactly(dump, ttl, clock, Min(|dump|, Places(capacity)) - 1, |dump| - 1, m')
    ensures forall k :: k in m' ==> k in Live(m, now)
    ensures forall k :: k in m' ==> m'[k].response == m[k].response && m'[k].hitCount == m[k].hitCount
    ensures forall k :: k in Live(m, now) ==>
              var rank := |AtLeastAsHot(m, now, k)|;
              (k in m' <==> rank <= |dump| && (rank < Places(capacity) || rank == |dump|))
  {
    hide AtLeastAsHot, DistinctLiveHits;
    var hot, last := Min(|dump|, Places(capacity)) - 1, |dump| - 1;
    forall k | k in m'
      ensures k in Live(m, now)
      ensures m'[k].response == m[k].response && m'[k].hitCount == m[k].hitCount
      ensures |AtLeastAsHot(m, now, k)| <= hot || |AtLeastAsHot(m, now, k)| == |dump|
    {
      var i :| 0 <= i < |dump| && dump[i].hash == k && (i < hot || i == last);
      assert dump[i] in dump;
      RankInDump(m, now, limit, dump, i);
    }
    forall k | k in Live(m, now) && (|AtLeastAsHot(m, now, k)| <= hot || |AtLeastAsHot(m, now, k)| == |dump|)
      ensures k in m'
    {
      if c :| c in dump && c.hash == k {
        var i :| 0 <= i < |dump| && dump[i] == c;
        RankInDump(m, now, limit, dump, i);
      } else {
        RankOutsideDump(m, now, limit, dump, k);
      }
    }
  }
}
