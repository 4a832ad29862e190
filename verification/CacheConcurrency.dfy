/** The exact cache under concurrency: any number of readers, and a fixed pool
    of inserting threads. The length check, the two scans of an eviction pass,
    each removal that a scan asks for, and the map insertion are separate steps
    that interleave in every possible way. */
module CacheConcurrency {
  import opened Prelude
  import opened Contracts
  import opened CacheEntries
  import opened Eviction
  import opened ExactCache

  /** What one insertion was asked to store. */
  datatype Job = Job(hash: Key, response: UnifiedResponse, ttl: nat, hitCount: nat)

  /** Where an inserting thread stands; `attempts` counts its finished eviction
      passes. A pass scans for expired entries and removes them one by one; if it
      finds none it scans for a least-used entry and removes that. What a scan
      has found stays to be removed even if the map changes meanwhile. */
  datatype Pc =
    | Idle
    | Checking(job: Job, attempts: nat)
    | Scanning(job: Job, attempts: nat)
    | Choosing(job: Job, attempts: nat)
    | Removing(job: Job, attempts: nat, todo: set<Key>)
    | Inserting(job: Job)

  datatype Event =
    | Inserted(hash: Key, entry: CacheEntry)
    | Hit(hash: Key)
    | Removed(key: Key)
    | Cleared

  /** `stale` holds the keys that some reader found expired and is about to
      remove: a lookup lets go of the entry before it removes the key. */
  datatype State = State(entries: Entries, clock: Time, threads: seq<Pc>, stale: multiset<Key>, history: seq<Event>)

  datatype Action =
    | Begin(t: nat, job: Job)
    | Check(t: nat)
    | Scan(t: nat)
    | Choose(t: nat, victim: Option<Key>)
    | Remove(t: nat, key: Key)
    | Insert(t: nat)
    | GetHit(hash: Key, response: UnifiedResponse)
    | GetExpired(hash: Key)
    | RemoveStale(hash: Key)
    | Clear
    | Tick(elapsed: nat)

  ghost predicate Init(s: State, k: nat) {
    && s.entries == map[] && s.stale == multiset{} && s.history == []
    && |s.threads| == k && forall t :: 0 <= t < k ==> s.threads[t] == Idle
  }

  /** The event a step leaves in the history, if any. */
  function Records(s: State, a: Action): seq<Event> {
    match a
    case Remove(_, key) => [Removed(key)]
    case Insert(t) =>
      if t < |s.threads| && s.threads[t].Inserting? then
        [Inserted(s.threads[t].job.hash, JobEntry(s.threads[t].job, s.clock))]
      else []
    case GetHit(hash, _) => [Hit(hash)]
    case RemoveStale(hash) => [Removed(hash)]
    case Clear => [Cleared]
    case _ => []
  }

  function JobEntry(job: Job, now: Time): CacheEntry {
    CacheEntry(job.response, job.hitCount, now, job.ttl)
  }

  ghost predicate Step(capacity: nat, s: State, a: Action, s': State) {
    && s'.history == s.history + Records(s, a)
    && Moves(capacity, s, a, s'.(history := s.history))
  }

  ghost predicate Moves(capacity: nat, s: State, a: Action, s': State) {
    match a
    case Begin(t, job) =>
      && t < |s.threads| && s.threads[t].Idle?
      && s' == s.(threads := s.threads[t := Checking(job, 0)])
    case Check(t) =>
      && t < |s.threads| && s.threads[t].Checking?
      && var pc := s.threads[t];
         var full := |s.entries| >= capacity && pc.attempts < EVICT_ATTEMPTS;
         s' == s.(threads := s.threads[t := if full then Scanning(pc.job, pc.attempts) else Inserting(pc.job)])
    case Scan(t) =>
      && t < |s.threads| && s.threads[t].Scanning?
      && var pc := s.threads[t];
         var expired := Expired(s.entries, s.clock);
         s' == s.(threads := s.threads[t := if expired != {} then Removing(pc.job, pc.attempts, expired)
                                            else Choosing(pc.job, pc.attempts)])
    case Choose(t, victim) =>
      && t < |s.threads| && s.threads[t].Choosing?
      && (victim.Some? <==> |s.entries| > 0)
      && (victim.Some? ==> LeastUsed(s.entries, victim.value))
      && var pc := s.threads[t];
         s' == s.(threads := s.threads[t := if victim.Some? then Removing(pc.job, pc.attempts, {victim.value})
                                            else Checking(pc.job, pc.attempts + 1)])
    case Remove(t, key) =>
      && t < |s.threads| && s.threads[t].Removing? && key in s.threads[t].todo
      && s' == s.(entries := s.entries - {key}, threads := s.threads[t := AfterRemoval(s.threads[t], key)])
    case Insert(t) =>
      && t < |s.threads| && s.threads[t].Inserting?
      && var job := s.threads[t].job;
         s' == s.(entries := s.entries[job.hash := JobEntry(job, s.clock)], threads := s.threads[t := Idle])
    case GetHit(hash, response) =>
      && hash in s.entries && !s.entries[hash].IsExpired(s.clock) && response == s.entries[hash].response
      && var e := s.entries[hash];
         s' == s.(entries := s.entries[hash := e.(hitCount := e.hitCount + 1)])
    case GetExpired(hash) =>
      && hash in s.entries && s.entries[hash].IsExpired(s.clock)
      && s' == s.(stale := s.stale + multiset{hash})
    case RemoveStale(hash) =>
      && hash in s.stale
      && s' == s.(entries := s.entries - {hash}, stale := s.stale - multiset{hash})
    case Clear => s' == s.(entries := map[])
    case Tick(elapsed) => s' == s.(clock := s.clock + elapsed)
  }

  /** The pass goes on with the keys that are left, or is over. */
  function AfterRemoval(pc: Pc, key: Key): Pc
    requires pc.Removing?
  {
    if pc.todo - {key} == {} then Checking(pc.job, pc.attempts + 1)
    else pc.(todo := pc.todo - {key})
  }

  /** `states` is a run of the cache with `k` inserting threads. */
  ghost predicate Run(capacity: nat, k: nat, states: seq<State>, actions: seq<Action>) {
    && |states| == |actions| + 1
    && Init(states[0], k)
    && forall i :: 0 <= i < |actions| ==> Step(capacity, states[i], actions[i], states[i + 1])
  }

  // ---- The capacity bound ----

  /** The thread holds the result of a scan and has not removed all of it. */
  predicate HoldsScan(pc: Pc) {
    pc.Removing?
  }

  function ScansHeld(s: State): nat {
    CountIf(s.threads, HoldsScan)
  }

  /** In every state at most as many scans are held as an insertion makes attempts. */
  ghost predicate FewScansHeld(states: seq<State>) {
    forall i :: 0 <= i < |states| ==> ScansHeld(states[i]) <= EVICT_ATTEMPTS
  }

  /** How much of a place a thread has earned, in fractions of `EVICT_ATTEMPTS`: one
      for each finished pass, and one for a pass of which some key has gone,
      whoever removed it. A thread about to insert has earned it all. */
  function Weight(m: Entries, pc: Pc): (w: nat)
    ensures w <= EVICT_ATTEMPTS
  {
    match pc
    case Idle => 0
    case Checking(_, attempts) => Min(attempts, EVICT_ATTEMPTS)
    case Scanning(_, attempts) => Min(attempts, EVICT_ATTEMPTS)
    case Choosing(_, attempts) => Min(attempts, EVICT_ATTEMPTS)
    case Removing(_, attempts, todo) => Min(if todo <= m.Keys then attempts else attempts + 1, EVICT_ATTEMPTS)
    case Inserting(_) => EVICT_ATTEMPTS
  }

  function Load(m: Entries, threads: seq<Pc>): nat {
    if |threads| == 0 then 0 else Load(m, threads[..|threads| - 1]) + Weight(m, threads[|threads| - 1])
  }

  /** The map's size plus the places earned, in the same fractions. */
  ghost predicate Bounded(capacity: nat, s: State) {
    EVICT_ATTEMPTS * |s.entries| + Load(s.entries, s.threads)
    <= EVICT_ATTEMPTS * (Max(capacity, 1) + |s.threads| - 1)
  }

  ghost predicate CapacityInvariant(capacity: nat, k: nat, s: State) {
    |s.threads| == k && Bounded(capacity, s)
  }

  lemma {:induction false} LoadUpdate(m: Entries, threads: seq<Pc>, t: nat, pc: Pc)
    requires t < |threads|
    ensures Load(m, threads[t := pc]) == Load(m, threads) - Weight(m, threads[t]) + Weight(m, pc)
  {
    hide Weight;
    var last := |threads| - 1;
    if t == last {
      assert threads[t := pc][..last] == threads[..last];
    } else {
      assert threads[t := pc][..last] == threads[..last][t := pc];
      LoadUpdate(m, threads[..last], t, pc);
    }
  }

  lemma {:induction false} LoadIsLimited(m: Entries, threads: seq<Pc>)
    ensures Load(m, threads) <= EVICT_ATTEMPTS * |threads|
  {
    hide Weight;
    if |threads| == 0 {
    } else {
      LoadIsLimited(m, threads[..|threads| - 1]);
    }
  }

  /** A key that comes into the map earns nobody anything. */
  lemma {:induction false} LoadAfterGrowth(m: Entries, m': Entries, threads: seq<Pc>)
    requires m.Keys <= m'.Keys
    ensures Load(m', threads) <= Load(m, threads)
  {
    if |threads| == 0 {
    } else {
      LoadAfterGrowth(m, m', threads[..|threads| - 1]);
    }
  }

  /** A key that leaves the map earns each holder of a scan at most one fraction. */
  lemma {:induction false} LoadAfterRemoval(m: Entries, key: Key, threads: seq<Pc>)
    ensures Load(m - {key}, threads) <= Load(m, threads) + CountIf(threads, HoldsScan)
  {
    if |threads| == 0 {
    } else {
      LoadAfterRemoval(m, key, threads[..|threads| - 1]);
    }
  }

  /** With few scans held, a removal pays for what it earns the threads. */
  lemma {:induction false} RemovalKeepsCapacity(capacity: nat, s: State, key: Key)
    requires Bounded(capacity, s) && ScansHeld(s) <= EVICT_ATTEMPTS
    ensures Bounded(capacity, s.(entries := s.entries - {key}))
  {
    hide Load;
    if key in s.entries {
      assert (s.entries - {key}).Keys == s.entries.Keys - {key};
      LoadAfterRemoval(s.entries, key, s.threads);
    } else {
      assert s.entries - {key} == s.entries;
    }
  }

  /** The thread at `t` moves on without earning more. */
  lemma {:induction false} MoveKeepsCapacity(capacity: nat, s: State, t: nat, pc: Pc)
    requires Bounded(capacity, s) && t < |s.threads|
    requires Weight(s.entries, pc) <= Weight(s.entries, s.threads[t])
    ensures Bounded(capacity, s.(threads := s.threads[t := pc]))
  {
    LoadUpdate(s.entries, s.threads, t, pc);
  }

  /** Below the capacity, and in an empty map, the bound holds whatever has been earned. */
  lemma {:induction false} RoomKeepsCapacity(capacity: nat, s: State)
    requires |s.entries| < Max(capacity, 1)
    ensures Bounded(capacity, s)
  {
    LoadIsLimited(s.entries, s.threads);
  }

  lemma {:induction false} RemoveKeepsCapacity(capacity: nat, s: State, t: nat, key: Key, s': State)
    requires Bounded(capacity, s) && ScansHeld(s) <= EVICT_ATTEMPTS && Moves(capacity, s, Remove(t, key), s')
    ensures Bounded(capacity, s')
  {
    RemovalKeepsCapacity(capacity, s, key);
    var mid := s.(entries := s.entries - {key});
    assert key !in mid.entries.Keys;
    MoveKeepsCapacity(capacity, mid, t, AfterRemoval(s.threads[t], key));
  }

  lemma {:induction false} InsertKeepsCapacity(capacity: nat, s: State, t: nat, s': State)
    requires Bounded(capacity, s) && Moves(capacity, s, Insert(t), s')
    ensures Bounded(capacity, s')
  {
    var job := s.threads[t].job;
    assert s'.entries.Keys == s.entries.Keys + {job.hash};
    LoadUpdate(s.entries, s.threads, t, Idle);
    LoadAfterGrowth(s.entries, s'.entries, s'.threads);
  }

  lemma {:induction false} PassKeepsCapacity(capacity: nat, s: State, a: Action, s': State)
    requires Bounded(capacity, s) && Moves(capacity, s, a, s') && (a.Begin? || a.Check? || a.Scan? || a.Choose?)
    ensures Bounded(capacity, s')
  {
    hide Load, Bounded;
    if |s.entries| < Max(capacity, 1) {
      RoomKeepsCapacity(capacity, s');
    } else {
      MoveKeepsCapacity(capacity, s, a.t, s'.threads[a.t]);
    }
  }

  lemma {:induction false} StepKeepsCapacity(capacity: nat, k: nat, s: State, a: Action, s': State)
    requires CapacityInvariant(capacity, k, s) && Step(capacity, s, a, s') && ScansHeld(s) <= EVICT_ATTEMPTS
    ensures CapacityInvariant(capacity, k, s')
  {
    hide Load, Weight, ScansHeld;
    var moved := s'.(history := s.history);
    match a
    case Remove(t, key) => RemoveKeepsCapacity(capacity, s, t, key, moved);
    case Insert(t) => InsertKeepsCapacity(capacity, s, t, moved);
    case GetHit(hash, _) =>
      assert s'.entries.Keys == s.entries.Keys;
      LoadAfterGrowth(s.entries, s'.entries, s.threads);
    case GetExpired(_) =>
    case RemoveStale(hash) => RemovalKeepsCapacity(capacity, s, hash);
    case Clear => RoomKeepsCapacity(capacity, s');
    case Tick(_) =>
    case _ => PassKeepsCapacity(capacity, s, a, moved);
  }

  lemma {:induction false} RunKeepsCapacity(capacity: nat, k: nat, states: seq<State>, actions: seq<Action>, i: nat)
    requires Run(capacity, k, states, actions) && FewScansHeld(states) && i < |states| && k > 0
    ensures CapacityInvariant(capacity, k, states[i])
  {
    if i == 0 {
      RoomKeepsCapacity(capacity, states[0]);
    } else {
      RunKeepsCapacity(capacity, k, states, actions, i - 1);
      StepKeepsCapacity(capacity, k, states[i - 1], actions[i - 1], states[i]);
    }
  }

  /** As long as no more than `EVICT_ATTEMPTS` scans are held at a time, `k` inserting
      threads overshoot the capacity (1 when it is configured as 0) by at most
      `k - 1` entries, for every `k`. */
  lemma {:induction false} CapacityBound(capacity: nat, k: nat, states: seq<State>, actions: seq<Action>, i: nat)
    requires Run(capacity, k, states, actions) && FewScansHeld(states) && i < |states| && k > 0
    ensures |states[i].entries| <= Max(capacity, 1) + k - 1
  {
    RunKeepsCapacity(capacity, k, states, actions, i);
  }

  lemma {:induction false} ThreadCountIsKept(capacity: nat, k: nat, states: seq<State>, actions: seq<Action>, i: nat)
    requires Run(capacity, k, states, actions) && i < |states|
    ensures |states[i].threads| == k
  {
    if i == 0 {
    } else {
      ThreadCountIsKept(capacity, k, states, actions, i - 1);
      assert Step(capacity, states[i - 1], actions[i - 1], states[i]);
    }
  }

  /** Up to five threads, as many as an insertion makes attempts, keep to the bound in every interleaving. */
  lemma {:induction false} FewThreadsKeepBound(capacity: nat, k: nat, states: seq<State>, actions: seq<Action>, i: nat)
    requires Run(capacity, k, states, actions) && i < |states| && 0 < k <= 5
    ensures |states[i].entries| <= Max(capacity, 1) + k - 1
  {
    forall j | 0 <= j < |states| ensures ScansHeld(states[j]) <= EVICT_ATTEMPTS {
      ThreadCountIsKept(capacity, k, states, actions, j);
    }
    CapacityBound(capacity, k, states, actions, i);
  }
}
