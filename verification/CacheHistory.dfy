/** What the concurrent cache's lookups return, and what they remove, read off
    the history of a run. */
module CacheHistory {
  import opened Prelude
  import opened Contracts
  import opened CacheEntries
  import opened Eviction
  import opened ExactCache
  import opened CacheConcurrency
  import opened CacheRuns

  // ---- What a lookup returns ----

  /** The event makes an earlier insertion at `hash` void. */
  predicate Voids(e: Event, hash: Key) {
    match e
    case Inserted(h, _) => h == hash
    case Hit(_) => false
    case Removed(key) => key == hash
    case Cleared => true
  }

  /** Event `i` is the latest insertion at `hash`, and nothing has removed it since. */
  ghost predicate LatestInsert(history: seq<Event>, hash: Key, i: nat) {
    && i < |history| && history[i].Inserted? && history[i].hash == hash
    && forall j :: i < j < |history| ==> !Voids(history[j], hash)
  }

  /** The successful lookups of `hash` recorded at position `from` or later. */
  function HitsSince(history: seq<Event>, hash: Key, from: nat): nat {
    if |history| <= from then 0
    else
      var last := |history| - 1;
      HitsSince(history[..last], hash, from) + if history[last] == Hit(hash) then 1 else 0
  }

  ghost predicate Explains(history: seq<Event>, hash: Key, i: nat, e: CacheEntry) {
    && LatestInsert(history, hash, i)
    && e == history[i].entry.(hitCount := history[i].entry.hitCount + HitsSince(history, hash, i + 1))
  }

  /** The map is exactly what the history says it should be. */
  ghost predicate HistoryInvariant(history: seq<Event>, m: Entries) {
    && (forall h :: h in m ==> exists i: nat :: Explains(history, h, i, m[h]))
    && (forall h, i: nat :: LatestInsert(history, h, i) ==> h in m)
  }

  /** How an event changes the map. */
  ghost predicate Effect(m: Entries, e: Event, m': Entries) {
    match e
    case Inserted(h, entry) => m' == m[h := entry]
    case Hit(h) => h in m && m' == m[h := m[h].(hitCount := m[h].hitCount + 1)]
    case Removed(key) => m' == m - {key}
    case Cleared => m' == map[]
  }

  lemma {:induction false} StillExplained(history: seq<Event>, e: Event, hash: Key, i: nat, entry: CacheEntry)
    requires Explains(history, hash, i, entry) && !Voids(e, hash)
    ensures Explains(history + [e], hash, i,
                     entry.(hitCount := entry.hitCount + if e == Hit(hash) then 1 else 0))
  {
    assert (history + [e])[..|history|] == history;
  }

  lemma {:induction false} EffectKeepsHistory(history: seq<Event>, m: Entries, e: Event, m': Entries)
    requires HistoryInvariant(history, m) && Effect(m, e, m')
    ensures HistoryInvariant(history + [e], m')
  {
    forall h | h in m' ensures exists i: nat :: Explains(history + [e], h, i, m'[h]) {
      if e.Inserted? && e.hash == h {
        assert Explains(history + [e], h, |history|, m'[h]);
      } else {
        assert !Voids(e, h);
        var i: nat :| Explains(history, h, i, m[h]);
        StillExplained(history, e, h, i, m[h]);
      }
    }
    forall h, i: nat | LatestInsert(history + [e], h, i) ensures h in m' {
      if i < |history| {
        assert (history + [e])[|history|] == e;
        forall j | i < j < |history| ensures !Voids(history[j], h) {
          assert (history + [e])[j] == history[j];
        }
        assert LatestInsert(history, h, i);
      }
    }
  }

  lemma {:induction false} StepHasEffect(capacity: nat, s: State, a: Action, s': State)
    requires Step(capacity, s, a, s')
    ensures |Records(s, a)| <= 1
    ensures if |Records(s, a)| == 0 then s'.entries == s.entries else Effect(s.entries, Records(s, a)[0], s'.entries)
  {
  }

  lemma {:induction false} StepKeepsHistory(capacity: nat, s: State, a: Action, s': State)
    requires HistoryInvariant(s.history, s.entries) && Step(capacity, s, a, s')
    ensures HistoryInvariant(s'.history, s'.entries)
  {
    StepHasEffect(capacity, s, a, s');
    if |Records(s, a)| == 0 {
      assert s'.history == s.history;
    } else {
      EffectKeepsHistory(s.history, s.entries, Records(s, a)[0], s'.entries);
      assert Records(s, a) == [Records(s, a)[0]];
    }
  }

  lemma {:induction false} RunKeepsHistory(capacity: nat, k: nat, states: seq<State>, actions: seq<Action>, i: nat)
    requires Run(capacity, k, states, actions) && i < |states|
    ensures HistoryInvariant(states[i].history, states[i].entries)
  {
    if i == 0 {
    } else {
      RunKeepsHistory(capacity, k, states, actions, i - 1);
      StepKeepsHistory(capacity, states[i - 1], actions[i - 1], states[i]);
    }
  }

  /** In every interleaving a successful lookup returns the response of the
      latest insertion at its key, which nothing has removed since and whose
      age is within its time-to-live; the entry's hit count is the one it was
      inserted with plus the successful lookups since. */
  lemma {:induction false} LookupReturnsLatestInsert(capacity: nat, k: nat, states: seq<State>, actions: seq<Action>,
                                                     n: nat, hash: Key, response: UnifiedResponse)
    requires Run(capacity, k, states, actions) && n < |actions|
    requires actions[n] == GetHit(hash, response)
    ensures hash in states[n].entries
    ensures exists i: nat ::
              && LatestInsert(states[n].history, hash, i)
              && var entry := states[n].history[i].entry;
                 && response == entry.response
                 && states[n].clock - entry.createdAt <= entry.ttl
                 && states[n].entries[hash].hitCount == entry.hitCount + HitsSince(states[n].history, hash, i + 1)
  {
    RunKeepsHistory(capacity, k, states, actions, n);
    assert Step(capacity, states[n], actions[n], states[n + 1]);
    var i: nat :| Explains(states[n].history, hash, i, states[n].entries[hash]);
  }

  /** A key is absent only when no insertion at it is still standing. */
  lemma {:induction false} AbsentMeansNoStandingInsert(capacity: nat, k: nat, states: seq<State>,
                                                       actions: seq<Action>, n: nat, hash: Key)
    requires Run(capacity, k, states, actions) && n < |states|
    ensures hash !in states[n].entries <==> forall i: nat :: !LatestInsert(states[n].history, hash, i)
  {
    RunKeepsHistory(capacity, k, states, actions, n);
    if hash in states[n].entries {
      var i: nat :| Explains(states[n].history, hash, i, states[n].entries[hash]);
    }
  }

  // ---- What a lookup removes ----

  /** The step puts an entry in at `hash`. */
  predicate InsertsAt(s: State, a: Action, hash: Key) {
    a.Insert? && a.t < |s.threads| && s.threads[a.t].Inserting? && s.threads[a.t].job.hash == hash
  }

  /** The time-to-live of the entry that an insertion puts in. */
  function TtlInserted(s: State, a: Action): nat {
    if a.Insert? && a.t < |s.threads| && s.threads[a.t].Inserting? then s.threads[a.t].job.ttl else 0
  }

  /** Step `i` is an insertion at `hash`, and up to state `n` nothing has
      overwritten or removed it. */
  ghost predicate Standing(states: seq<State>, actions: seq<Action>, hash: Key, i: nat, n: nat) {
    && |states| == |actions| + 1 && i < n < |states|
    && InsertsAt(states[i], actions[i], hash)
    && (forall j :: i < j < n ==> !InsertsAt(states[j], actions[j], hash))
    && (forall j :: i < j <= n ==> hash in states[j].entries)
  }

  /** The entry that step `i` inserted has not outlived its time-to-live in state `n`. */
  ghost predicate StillLive(states: seq<State>, actions: seq<Action>, hash: Key, i: nat, n: nat)
    requires Standing(states, actions, hash, i, n)
  {
    states[n].clock - states[i].clock <= TtlInserted(states[i], actions[i])
  }

  ghost predicate IsLiveAt(s: State, hash: Key) {
    hash in s.entries && !s.entries[hash].IsExpired(s.clock)
  }

  /** Only an insertion at a key changes how long its entry lives. */
  lemma {:induction false} OnlyInsertionsRenew(capacity: nat, s: State, a: Action, s': State, hash: Key)
    requires Step(capacity, s, a, s') && !InsertsAt(s, a, hash) && hash in s'.entries
    ensures hash in s.entries && s.clock <= s'.clock
    ensures s'.entries[hash].createdAt == s.entries[hash].createdAt && s'.entries[hash].ttl == s.entries[hash].ttl
  {
  }

  lemma {:induction false} InsertedEntry(capacity: nat, s: State, a: Action, s': State, hash: Key)
    requires Step(capacity, s, a, s') && InsertsAt(s, a, hash)
    ensures BornAt(s', hash, s.clock, TtlInserted(s, a))
  {
  }

  /** There is an entry at the key with this birth and time-to-live. */
  ghost predicate BornAt(s: State, hash: Key, createdAt: Time, ttl: nat) {
    hash in s.entries && s.entries[hash].createdAt == createdAt && s.entries[hash].ttl == ttl
  }

  lemma {:induction false} BornStays(capacity: nat, s: State, a: Action, s': State, hash: Key, createdAt: Time,
                                     ttl: nat)
    requires Step(capacity, s, a, s') && !InsertsAt(s, a, hash) && hash in s'.entries && BornAt(s, hash, createdAt, ttl)
    ensures BornAt(s', hash, createdAt, ttl)
  {
    OnlyInsertionsRenew(capacity, s, a, s', hash);
  }

  lemma {:induction false} StoodBefore(states: seq<State>, actions: seq<Action>, hash: Key, i: nat, n: nat)
    requires Standing(states, actions, hash, i, n) && n > i + 1
    ensures Standing(states, actions, hash, i, n - 1)
    ensures !InsertsAt(states[n - 1], actions[n - 1], hash) && hash in states[n].entries
  {
  }

  lemma {:induction false} StepOfRun(capacity: nat, k: nat, states: seq<State>, actions: seq<Action>, n: nat)
    requires Run(capacity, k, states, actions) && n < |actions|
    ensures n + 1 < |states| && Step(capacity, states[n], actions[n], states[n + 1])
  {
  }

  lemma {:induction false} StandingEntry(capacity: nat, k: nat, states: seq<State>, actions: seq<Action>, hash: Key,
                                         i: nat, n: nat)
    requires Run(capacity, k, states, actions) && Standing(states, actions, hash, i, n)
    ensures BornAt(states[n], hash, states[i].clock, TtlInserted(states[i], actions[i]))
  {
    hide Step, BornAt, TtlInserted, InsertsAt, Run;
    StepOfRun(capacity, k, states, actions, n - 1);
    if n == i + 1 {
      InsertedEntry(capacity, states[i], actions[i], states[n], hash);
    } else {
      StoodBefore(states, actions, hash, i, n);
      StandingEntry(capacity, k, states, actions, hash, i, n - 1);
      BornStays(capacity, states[n - 1], actions[n - 1], states[n], hash, states[i].clock,
                TtlInserted(states[i], actions[i]));
    }
  }

  /** After step `g` the key was inserted, and that entry stands in state `n`. */
  ghost predicate RenewedSince(states: seq<State>, actions: seq<Action>, hash: Key, g: nat, n: nat) {
    exists i: nat :: g < i && Standing(states, actions, hash, i, n)
  }

  /** From an expired entry on, the key is absent or expired until an insertion at it. */
  lemma {:induction false} DeadUntilInsertion(capacity: nat, k: nat, states: seq<State>, actions: seq<Action>,
                                              hash: Key, g: nat, n: nat)
    requires Run(capacity, k, states, actions) && g < n < |states| && actions[g] == GetExpired(hash)
    ensures IsLiveAt(states[n], hash) ==> RenewedSince(states, actions, hash, g, n)
  {
    assert Step(capacity, states[n - 1], actions[n - 1], states[n]);
    if n == g + 1 {
      ExpiredStays(capacity, states[g], hash, states[n]);
    } else {
      DeadUntilInsertion(capacity, k, states, actions, hash, g, n - 1);
      DeadStep(capacity, states, actions, hash, g, n);
    }
  }

  lemma {:induction false} DeadStep(capacity: nat, states: seq<State>, actions: seq<Action>, hash: Key, g: nat, n: nat)
    requires |states| == |actions| + 1 && g + 1 < n < |states|
    requires Step(capacity, states[n - 1], actions[n - 1], states[n])
    requires IsLiveAt(states[n - 1], hash) ==> RenewedSince(states, actions, hash, g, n - 1)
    ensures IsLiveAt(states[n], hash) ==> RenewedSince(states, actions, hash, g, n)
  {
    hide Step, Standing;
    if InsertsAt(states[n - 1], actions[n - 1], hash) {
      InsertionStands(capacity, states, actions, hash, n);
    } else if IsLiveAt(states[n], hash) {
      OnlyInsertionsRenew(capacity, states[n - 1], actions[n - 1], states[n], hash);
      var i: nat :| g < i && Standing(states, actions, hash, i, n - 1);
      StandsOn(states, actions, hash, i, n);
    }
  }

  lemma {:induction false} ExpiredStays(capacity: nat, s: State, hash: Key, s': State)
    requires Step(capacity, s, GetExpired(hash), s')
    ensures !IsLiveAt(s', hash)
  {
  }

  lemma {:induction false} InsertionStands(capacity: nat, states: seq<State>, actions: seq<Action>, hash: Key, n: nat)
    requires |states| == |actions| + 1 && 0 < n < |states| && InsertsAt(states[n - 1], actions[n - 1], hash)
    requires Step(capacity, states[n - 1], actions[n - 1], states[n])
    ensures Standing(states, actions, hash, n - 1, n)
  {
    assert hash in states[n].entries;
  }

  lemma {:induction false} StandsOn(states: seq<State>, actions: seq<Action>, hash: Key, i: nat, n: nat)
    requires |states| == |actions| + 1 && 0 < n < |states|
    requires Standing(states, actions, hash, i, n - 1)
    requires !InsertsAt(states[n - 1], actions[n - 1], hash) && hash in states[n].entries
    ensures Standing(states, actions, hash, i, n)
  {
  }

  lemma {:induction false} StaleStep(capacity: nat, s: State, a: Action, s': State, hash: Key)
    requires Step(capacity, s, a, s') && hash in s'.stale
    ensures hash in s.stale || a == GetExpired(hash)
  {
  }

  /** Every key about to be removed by a lookup was found expired by one. */
  lemma {:induction false} StaleWasExpired(capacity: nat, k: nat, states: seq<State>, actions: seq<Action>, hash: Key,
                                           n: nat) returns (g: nat)
    requires Run(capacity, k, states, actions) && n < |states| && hash in states[n].stale
    ensures g < n && actions[g] == GetExpired(hash)
  {
    assert n > 0;
    assert Step(capacity, states[n - 1], actions[n - 1], states[n]);
    StaleStep(capacity, states[n - 1], actions[n - 1], states[n], hash);
    hide Step;
    if hash in states[n - 1].stale {
      g := StaleWasExpired(capacity, k, states, actions, hash, n - 1);
    } else {
      g := n - 1;
    }
  }

  /** Between an expired lookup of the key and state `n`, the key was inserted
      anew, and that entry is still standing and live. */
  ghost predicate RenewedSinceExpiry(states: seq<State>, actions: seq<Action>, hash: Key, n: nat) {
    && n < |actions|
    && exists g: nat, i: nat :: g < i < n && actions[g] == GetExpired(hash)
                      && Standing(states, actions, hash, i, n) && StillLive(states, actions, hash, i, n)
  }

  /** A lookup that found its entry expired takes a live entry out if and only if
      the key was inserted anew between an expired lookup and the removal, and
      that entry is still standing and live: it is the one lost. */
  lemma {:induction false} StaleRemovalTakesLive(capacity: nat, k: nat, states: seq<State>, actions: seq<Action>,
                                                 n: nat, hash: Key)
    requires Run(capacity, k, states, actions) && n < |actions| && actions[n] == RemoveStale(hash)
    ensures IsLiveAt(states[n], hash) <==> RenewedSinceExpiry(states, actions, hash, n)
    ensures hash !in states[n + 1].entries
  {
    assert Step(capacity, states[n], actions[n], states[n + 1]);
    hide Step;
    if IsLiveAt(states[n], hash) {
      var g := StaleWasExpired(capacity, k, states, actions, hash, n);
      DeadUntilInsertion(capacity, k, states, actions, hash, g, n);
      var i: nat :| g < i && Standing(states, actions, hash, i, n);
      StandingEntry(capacity, k, states, actions, hash, i, n);
    }
    if RenewedSinceExpiry(states, actions, hash, n) {
      var g: nat, i: nat :| g < i < n && actions[g] == GetExpired(hash)
                            && Standing(states, actions, hash, i, n) && StillLive(states, actions, hash, i, n);
      StandingEntry(capacity, k, states, actions, hash, i, n);
    }
  }

  /** Inserting at the key of the only entry, which is expired, leaves the new entry alone. */
  lemma {:induction false} InsertOverExpired(capacity: nat, now: Time, hash: Key, expired: CacheEntry,
                                             entry: CacheEntry)
    requires expired.IsExpired(now)
    ensures InsertOutcome(map[hash := expired], capacity, now, hash, entry, map[hash := entry])
  {
    var m := map[hash := expired];
    if |m| < capacity {
      NothingToEvict(m, capacity, now, 0);
      assert m[hash := entry] == map[hash := entry];
    } else {
      assert hash in Expired(m, now);
      assert m - Expired(m, now) == map[];
      assert EvictOutcome(m, now, map[]);
      NothingToEvict(map[], capacity, now, 1);
      assert RoomMade(m, capacity, now, 0, map[]);
    }
  }

  /** The only entry has just been found expired by a lookup, and is about to be removed. */
  function ExpiredSeen(k: nat, job: Job): State {
    Resting(map[job.hash := JobEntry(job, 0)], k).(clock := job.ttl + 1, stale := multiset{job.hash})
  }

  lemma {:induction false} ReachExpiredSeen(capacity: nat, k: nat, job: Job)
    requires k > 0
    ensures CanReach(capacity, k, ExpiredSeen(k, job))
  {
    hide CanReach;
    EmptyCache(capacity, k);
    var s := Resting(map[], k);
    NothingToEvict(s.entries, capacity, s.clock, 0);
    var s1 := Resting(map[job.hash := JobEntry(job, 0)], k);
    assert s1 == s.(entries := s1.entries);
    SequentialInsertIsARun(capacity, k, s, 0, job, s1.entries);
    var s2 := s1.(clock := job.ttl + 1);
    Advance(capacity, k, s1, Tick(job.ttl + 1), s2);
    Advance(capacity, k, s2, GetExpired(job.hash), ExpiredSeen(k, job));
  }

  /** It does happen, for every capacity, every number of threads and every key. */
  lemma {:induction false} StaleRemovalCanTakeLive(capacity: nat, k: nat, hash: Key)
    requires k > 0
    ensures exists s, s' :: Reachable(capacity, k, s) && Step(capacity, s, RemoveStale(hash), s')
                            && IsLiveAt(s, hash) && hash !in s'.entries
  {
    hide Reachable, InsertOutcome;
    var job := Job(hash, UnifiedResponse("", "", TokenUsage(0, 0, 0), "", 0, None), 0, 0);
    var s0 := ExpiredSeen(k, job);
    ReachExpiredSeen(capacity, k, job);
    var again := JobEntry(job, s0.clock);
    InsertOverExpired(capacity, s0.clock, hash, JobEntry(job, 0), again);
    SequentialInsertIsARun(capacity, k, s0, 0, job, map[hash := again]);
    var h :| Reachable(capacity, k, s0.(entries := map[hash := again]).(history := h));
    var s := s0.(entries := map[hash := again], history := h);
    var s' := s.(entries := s.entries - {hash}, stale := s.stale - multiset{hash}, history := h + [Removed(hash)]);
    assert Step(capacity, s, RemoveStale(hash), s');
  }
}
