/** Runs of the concurrent cache that reach a given state: an insertion nobody
    interrupts, the runs that reach the capacity bound, and those that leave it
    behind when too many threads scan before any of them removes. */
module CacheRuns {
  import opened Prelude
  import opened Contracts
  import opened CacheEntries
  import opened Eviction
  import opened ExactCache
  import opened CacheConcurrency

  /** How many keys there are. */
  const KEY_COUNT: nat := 0x1_0000_0000_0000_0000

  ghost predicate Reachable(capacity: nat, k: nat, s: State) {
    exists states, actions :: Run(capacity, k, states, actions) && states[|actions|] == s
  }

  lemma {:induction false} ReachableStep(capacity: nat, k: nat, s: State, a: Action, s': State)
    requires Reachable(capacity, k, s) && Step(capacity, s, a, s')
    ensures Reachable(capacity, k, s')
  {
    var states, actions :| Run(capacity, k, states, actions) && states[|actions|] == s;
    assert Run(capacity, k, states + [s'], actions + [a]);
  }

  /** Some run leads to the state, whatever history it leaves. */
  ghost predicate CanReach(capacity: nat, k: nat, s: State) {
    exists h :: Reachable(capacity, k, s.(history := h))
  }

  lemma {:induction false} Advance(capacity: nat, k: nat, s: State, a: Action, s': State)
    requires CanReach(capacity, k, s) && Moves(capacity, s, a, s') && s'.history == s.history
    ensures CanReach(capacity, k, s')
  {
    var h :| Reachable(capacity, k, s.(history := h));
    var from := s.(history := h);
    var to := s'.(history := h + Records(from, a));
    assert to.(history := h) == s'.(history := h);
    assert Step(capacity, from, a, to);
    ReachableStep(capacity, k, from, a, to);
    assert s'.(history := to.history) == to;
  }

  // ---- The sequential insertion is one of the runs ----

  /** The thread at `t` has moved on, and the map may have changed. */
  function After(s: State, t: nat, m': Entries, pc: Pc): State
    requires t < |s.threads|
  {
    s.(entries := m', threads := s.threads[t := pc])
  }

  lemma {:induction false} AfterFacts(s: State, t: nat, m': Entries, pc: Pc)
    requires t < |s.threads|
    ensures var s' := After(s, t, m', pc);
            s'.entries == m' && s'.clock == s.clock && |s'.threads| == |s.threads| && s'.threads[t] == pc
  {
  }

  lemma {:induction false} AfterTwice(s: State, t: nat, m1: Entries, pc1: Pc, m2: Entries, pc2: Pc)
    requires t < |s.threads|
    ensures After(After(s, t, m1, pc1), t, m2, pc2) == After(s, t, m2, pc2)
  {
  }

  /** A thread left alone removes all that its scan has found. */
  lemma {:induction false} RemoveAlone(capacity: nat, k: nat, s: State, t: nat)
    requires CanReach(capacity, k, s) && t < |s.threads| && s.threads[t].Removing? && s.threads[t].todo != {}
    ensures var pc := s.threads[t];
            CanReach(capacity, k, After(s, t, s.entries - pc.todo, Checking(pc.job, pc.attempts + 1)))
    decreases s.threads[t].todo
  {
    hide CanReach;
    var pc := s.threads[t];
    var key :| key in pc.todo;
    var s1 := After(s, t, s.entries - {key}, AfterRemoval(pc, key));
    Advance(capacity, k, s, Remove(t, key), s1);
    assert s.entries - {key} - (pc.todo - {key}) == s.entries - pc.todo;
    if pc.todo - {key} != {} {
      RemoveAlone(capacity, k, s1, t);
      assert s1.threads[t := Checking(pc.job, pc.attempts + 1)] == s.threads[t := Checking(pc.job, pc.attempts + 1)];
    } else {
      assert pc.todo == {key};
    }
  }

  /** A pass nobody interrupts has an outcome of the sequential pass, whichever that is. */
  lemma {:induction false} PassAlone(capacity: nat, k: nat, s: State, t: nat, m': Entries)
    requires CanReach(capacity, k, s) && t < |s.threads| && s.threads[t].Scanning?
    requires EvictOutcome(s.entries, s.clock, m')
    ensures CanReach(capacity, k, After(s, t, m', Checking(s.threads[t].job, s.threads[t].attempts + 1)))
  {
    hide CanReach;
    var job, attempts := s.threads[t].job, s.threads[t].attempts;
    var expired := Expired(s.entries, s.clock);
    var chosen := After(s, t, s.entries, Choosing(job, attempts));
    if expired != {} {
      FoundAlone(capacity, k, s, Scan(t), t, expired);
    } else {
      Advance(capacity, k, s, Scan(t), chosen);
      if |s.entries| == 0 {
        Advance(capacity, k, chosen, Choose(t, None), After(chosen, t, m', Checking(job, attempts + 1)));
      } else {
        var v :| LeastUsed(s.entries, v) && m' == s.entries - {v};
        FoundAlone(capacity, k, chosen, Choose(t, Some(v)), t, {v});
      }
      assert chosen.threads[t := Checking(job, attempts + 1)] == s.threads[t := Checking(job, attempts + 1)];
    }
  }

  /** A scan that has found something is followed by its removals. */
  lemma {:induction false} FoundAlone(capacity: nat, k: nat, s: State, a: Action, t: nat, todo: set<Key>)
    requires CanReach(capacity, k, s) && t < |s.threads| && (s.threads[t].Scanning? || s.threads[t].Choosing?)
    requires var pc := s.threads[t];
             Moves(capacity, s, a, After(s, t, s.entries, Removing(pc.job, pc.attempts, todo)))
    requires todo != {}
    ensures var pc := s.threads[t];
            CanReach(capacity, k, After(s, t, s.entries - todo, Checking(pc.job, pc.attempts + 1)))
  {
    hide CanReach, Moves;
    var pc := s.threads[t];
    var found := After(s, t, s.entries, Removing(pc.job, pc.attempts, todo));
    Advance(capacity, k, s, a, found);
    RemoveAlone(capacity, k, found, t);
    assert found.threads[t := Checking(pc.job, pc.attempts + 1)] == s.threads[t := Checking(pc.job, pc.attempts + 1)];
  }

  /** One round of the loop: the check finds the cache full, the pass evicts. */
  lemma {:induction false} RoundAlone(capacity: nat, k: nat, s: State, t: nat, m': Entries)
    requires CanReach(capacity, k, s) && t < |s.threads| && s.threads[t].Checking?
    requires |s.entries| >= capacity && s.threads[t].attempts < EVICT_ATTEMPTS
    requires EvictOutcome(s.entries, s.clock, m')
    ensures CanReach(capacity, k, After(s, t, m', Checking(s.threads[t].job, s.threads[t].attempts + 1)))
  {
    hide CanReach, EvictOutcome;
    var job, attempts := s.threads[t].job, s.threads[t].attempts;
    var s1 := After(s, t, s.entries, Scanning(job, attempts));
    Advance(capacity, k, s, Check(t), s1);
    PassAlone(capacity, k, s1, t, m');
    assert s1.threads[t := Checking(job, attempts + 1)] == s.threads[t := Checking(job, attempts + 1)];
  }

  /** A thread left alone goes through the evict loop as the sequential code does. */
  lemma {:induction false} LoopAlone(capacity: nat, k: nat, s: State, t: nat, m': Entries)
    requires CanReach(capacity, k, s) && t < |s.threads| && s.threads[t].Checking?
    requires s.threads[t].attempts <= EVICT_ATTEMPTS
    requires RoomMade(s.entries, capacity, s.clock, s.threads[t].attempts, m')
    ensures CanReach(capacity, k, After(s, t, m', Inserting(s.threads[t].job)))
    decreases EVICT_ATTEMPTS - s.threads[t].attempts
  {
    hide RoomMade, EvictOutcome, CanReach, Moves, After;
    var job, attempts := s.threads[t].job, s.threads[t].attempts;
    if |s.entries| >= capacity && attempts < EVICT_ATTEMPTS {
      var mid := FirstEviction(s.entries, capacity, s.clock, attempts, m');
      RoundAlone(capacity, k, s, t, mid);
      var s1 := After(s, t, mid, Checking(job, attempts + 1));
      AfterFacts(s, t, mid, Checking(job, attempts + 1));
      LoopAlone(capacity, k, s1, t, m');
      AfterTwice(s, t, mid, Checking(job, attempts + 1), m', Inserting(job));
    } else {
      NoEviction(s.entries, capacity, s.clock, attempts, m');
      LeaveLoop(capacity, k, s, t);
    }
  }

  lemma {:induction false} LeaveLoop(capacity: nat, k: nat, s: State, t: nat)
    requires CanReach(capacity, k, s) && t < |s.threads| && s.threads[t].Checking?
    requires |s.entries| < capacity || s.threads[t].attempts >= EVICT_ATTEMPTS
    ensures CanReach(capacity, k, After(s, t, s.entries, Inserting(s.threads[t].job)))
  {
    hide CanReach;
    Advance(capacity, k, s, Check(t), After(s, t, s.entries, Inserting(s.threads[t].job)));
  }

  lemma {:induction false} FirstEviction(m: Entries, capacity: nat, now: Time, attempts: nat, m': Entries)
    returns (mid: Entries)
    requires RoomMade(m, capacity, now, attempts, m') && |m| >= capacity && attempts < EVICT_ATTEMPTS
    ensures EvictOutcome(m, now, mid) && RoomMade(mid, capacity, now, attempts + 1, m')
  {
    mid :| EvictOutcome(m, now, mid) && RoomMade(mid, capacity, now, attempts + 1, m');
  }

  lemma {:induction false} NoEviction(m: Entries, capacity: nat, now: Time, attempts: nat, m': Entries)
    requires RoomMade(m, capacity, now, attempts, m') && (|m| < capacity || attempts >= EVICT_ATTEMPTS)
    ensures m' == m
  {
  }

  /** An idle thread that nobody interrupts gets past the evict loop. */
  lemma {:induction false} LoopFromIdle(capacity: nat, k: nat, s: State, t: nat, job: Job, m': Entries)
    requires CanReach(capacity, k, s) && t < |s.threads| && s.threads[t].Idle?
    requires RoomMade(s.entries, capacity, s.clock, 0, m')
    ensures CanReach(capacity, k, After(s, t, m', Inserting(job)))
  {
    hide CanReach, RoomMade;
    var s1 := After(s, t, s.entries, Checking(job, 0));
    Advance(capacity, k, s, Begin(t, job), s1);
    LoopAlone(capacity, k, s1, t, m');
    assert s1.threads[t := Inserting(job)] == s.threads[t := Inserting(job)];
  }

  /** Every outcome of the sequential insertion is reached by an idle thread
      whose steps nothing interrupts. */
  lemma {:induction false} SequentialInsertIsARun(capacity: nat, k: nat, s: State, t: nat, job: Job, m': Entries)
    requires CanReach(capacity, k, s) && t < |s.threads| && s.threads[t].Idle?
    requires InsertOutcome(s.entries, capacity, s.clock, job.hash, JobEntry(job, s.clock), m')
    ensures CanReach(capacity, k, s.(entries := m'))
  {
    hide CanReach, RoomMade;
    var mid :| RoomMade(s.entries, capacity, s.clock, 0, mid) && m' == mid[job.hash := JobEntry(job, s.clock)];
    LoopFromIdle(capacity, k, s, t, job, mid);
    Advance(capacity, k, After(s, t, mid, Inserting(job)), Insert(t), s.(entries := m'));
  }

  // ---- The bound is reached ----

  /** Below the capacity, and in an empty map, nothing is removed. */
  lemma {:induction false} NothingToEvict(m: Entries, capacity: nat, now: Time, attempts: nat)
    requires |m| < Max(capacity, 1)
    ensures RoomMade(m, capacity, now, attempts, m)
    decreases EVICT_ATTEMPTS - attempts
  {
    if |m| >= capacity && attempts < EVICT_ATTEMPTS {
      NothingToEvict(m, capacity, now, attempts + 1);
      assert EvictOutcome(m, now, m);
    }
  }

  function NumberedJob(n: nat): Job
    requires n < KEY_COUNT
  {
    Job(n as Key, UnifiedResponse("", "", TokenUsage(0, 0, 0), "", 0, None), 0, 0)
  }

  /** The keys numbered below `n`, all inserted at time 0 and never used. */
  function Numbered(n: nat): Entries
    requires n <= KEY_COUNT
  {
    if n == 0 then map[] else Numbered(n - 1)[(n - 1) as Key := JobEntry(NumberedJob(n - 1), 0)]
  }

  lemma {:induction false} NumberedEntries(n: nat)
    requires n <= KEY_COUNT
    ensures |Numbered(n)| == n
    ensures forall key: Key :: key in Numbered(n) <==> key as int < n
    ensures forall key :: key in Numbered(n) ==> Numbered(n)[key].hitCount == 0 && Numbered(n)[key].createdAt == 0
  {
    if n == 0 {
    } else {
      NumberedEntries(n - 1);
      assert Numbered(n).Keys == Numbered(n - 1).Keys + {(n - 1) as Key};
    }
  }

  /** A state with `k` threads of which the first `crew` stand where `at` says. */
  function Crew(m: Entries, k: nat, crew: nat, at: nat -> Pc): State {
    State(m, 0, seq(k, (t: nat) => if t < crew then at(t) else Idle), multiset{}, [])
  }

  /** The first `n` of the threads are idle, the others stand where `at` says. */
  function IdleFirst(n: nat, at: nat -> Pc): nat -> Pc {
    (t: nat) => if t < n then Idle else at(t)
  }

  /** All threads are idle. */
  function Resting(m: Entries, k: nat): State {
    Crew(m, k, 0, (_: nat) => Idle)
  }

  /** About to insert the keys from `base` on, one each. */
  function AboutToInsert(base: nat): nat -> Pc {
    (t: nat) => if base + t < KEY_COUNT then Inserting(NumberedJob(base + t)) else Idle
  }

  lemma {:induction false} InsertAll(capacity: nat, k: nat, base: nat, crew: nat, n: nat)
    requires n <= crew <= k && base + crew <= KEY_COUNT
    requires CanReach(capacity, k, Crew(Numbered(base + n), k, crew, IdleFirst(n, AboutToInsert(base))))
    ensures CanReach(capacity, k, Resting(Numbered(base + crew), k))
    decreases crew - n
  {
    hide CanReach;
    var s := Crew(Numbered(base + n), k, crew, IdleFirst(n, AboutToInsert(base)));
    if n == crew {
      assert s == Resting(Numbered(base + crew), k);
    } else {
      var s' := Crew(Numbered(base + n + 1), k, crew, IdleFirst(n + 1, AboutToInsert(base)));
      assert s'.threads == s.threads[n := Idle];
      Advance(capacity, k, s, Insert(n), s');
      InsertAll(capacity, k, base, crew, n + 1);
    }
  }

  lemma {:induction false} EmptyCache(capacity: nat, k: nat)
    ensures CanReach(capacity, k, Resting(map[], k))
  {
    var s := Resting(map[], k);
    assert Run(capacity, k, [s], []);
    assert s.(history := []) == s;
  }

  /** With one free place, `n` threads one after the other get past the evict loop. */
  lemma {:induction false} AllPassLoop(capacity: nat, k: nat, base: nat, n: nat)
    requires n <= k && base < Max(capacity, 1) && base + n <= KEY_COUNT
    requires CanReach(capacity, k, Resting(Numbered(base), k))
    ensures CanReach(capacity, k, Crew(Numbered(base), k, n, AboutToInsert(base)))
  {
    hide CanReach;
    var s' := Crew(Numbered(base), k, n, AboutToInsert(base));
    if n == 0 {
      assert s' == Resting(Numbered(base), k);
    } else {
      AllPassLoop(capacity, k, base, n - 1);
      var s := Crew(Numbered(base), k, n - 1, AboutToInsert(base));
      NumberedEntries(base);
      NothingToEvict(Numbered(base), capacity, 0, 0);
      LoopFromIdle(capacity, k, s, n - 1, NumberedJob(base + n - 1), Numbered(base));
      assert s'.threads == s.threads[n - 1 := Inserting(NumberedJob(base + n - 1))];
    }
  }

  /** The crew inserts on top of a cache that is below its capacity. */
  lemma {:induction false} AllInsert(capacity: nat, k: nat, base: nat, crew: nat)
    requires crew <= k && base < Max(capacity, 1) && base + crew <= KEY_COUNT
    requires CanReach(capacity, k, Resting(Numbered(base), k))
    ensures CanReach(capacity, k, Resting(Numbered(base + crew), k))
  {
    hide CanReach;
    AllPassLoop(capacity, k, base, crew);
    assert Crew(Numbered(base), k, crew, AboutToInsert(base))
        == Crew(Numbered(base + 0), k, crew, IdleFirst(0, AboutToInsert(base)));
    InsertAll(capacity, k, base, crew, 0);
  }

  /** One thread alone fills the cache to just below its capacity. */
  lemma {:induction false} FillUp(capacity: nat, k: nat, n: nat)
    requires k > 0 && n < Max(capacity, 1) && n <= KEY_COUNT
    ensures CanReach(capacity, k, Resting(Numbered(n), k))
  {
    if n == 0 {
      EmptyCache(capacity, k);
    } else {
      FillUp(capacity, k, n - 1);
      AllInsert(capacity, k, n - 1, 1);
    }
  }

  lemma {:induction false} Overshoot(capacity: nat, k: nat, crew: nat)
    requires 0 < crew <= k && Max(capacity, 1) - 1 + crew <= KEY_COUNT
    ensures CanReach(capacity, k, Resting(Numbered(Max(capacity, 1) - 1 + crew), k))
  {
    FillUp(capacity, k, Max(capacity, 1) - 1);
    AllInsert(capacity, k, Max(capacity, 1) - 1, crew);
  }

  /** Some reachable state has `n` entries. */
  ghost predicate ReachesSize(capacity: nat, k: nat, n: nat) {
    exists s :: Reachable(capacity, k, s) && |s.entries| == n
  }

  lemma {:induction false} NumberedSize(capacity: nat, k: nat, n: nat)
    requires n <= KEY_COUNT && CanReach(capacity, k, Resting(Numbered(n), k))
    ensures ReachesSize(capacity, k, n)
  {
    NumberedEntries(n);
    var h :| Reachable(capacity, k, Resting(Numbered(n), k).(history := h));
  }

  /** The capacity bound cannot be lowered: some interleaving reaches it. There
      need only be enough different keys. */
  lemma {:induction false} CapacityBoundReached(capacity: nat, k: nat)
    requires k > 0 && Max(capacity, 1) - 1 + k <= KEY_COUNT
    ensures ReachesSize(capacity, k, Max(capacity, 1) + k - 1)
  {
    Overshoot(capacity, k, k);
    NumberedSize(capacity, k, Max(capacity, 1) + k - 1);
  }

  // ---- One thread more than an insertion makes attempts ----

  /** So many threads share every scan result: all of them use up a pass on it,
      but only one removal takes an entry out. */
  const CREW: nat := EVICT_ATTEMPTS + 1

  /** Every thread of the crew stands at the point that `at` shows, with a job of its own. */
  function Staffed(at: Pc, base: nat): nat -> Pc {
    (t: nat) => if at.Idle? || base + t >= KEY_COUNT then Idle else at.(job := NumberedJob(base + t))
  }

  /** The first `n` threads of the crew have gone on from `from` to `to`. */
  function Partly(n: nat, from: Pc, to: Pc, base: nat): nat -> Pc {
    (t: nat) => if t < n then Staffed(to, base)(t) else Staffed(from, base)(t)
  }

  /** With this map, a thread at `from` may go to `to`. */
  ghost predicate MayGo(capacity: nat, m: Entries, from: Pc, to: Pc) {
    match from
    case Idle => to.Checking? && to.attempts == 0
    case Checking(_, attempts) =>
      if |m| >= capacity && attempts < EVICT_ATTEMPTS then to.Scanning? && to.attempts == attempts else to.Inserting?
    case Scanning(_, attempts) => Expired(m, 0) == {} && to.Choosing? && to.attempts == attempts
    case Choosing(_, attempts) =>
      && to.Removing? && to.attempts == attempts
      && exists v :: LeastUsed(m, v) && to.todo == {v}
    case _ => false
  }

  /** One thread goes on; the map stays as it is. */
  lemma {:induction false} GoOn(capacity: nat, k: nat, s: State, t: nat, to: Pc)
    requires CanReach(capacity, k, s) && t < |s.threads| && MayGo(capacity, s.entries, s.threads[t], to)
    requires s.clock == 0 && !to.Idle? && (s.threads[t].Idle? || s.threads[t].job == to.job)
    ensures CanReach(capacity, k, After(s, t, s.entries, to))
  {
    hide CanReach;
    var s' := After(s, t, s.entries, to);
    match s.threads[t]
    case Idle => Advance(capacity, k, s, Begin(t, to.job), s');
    case Checking(_, _) => Advance(capacity, k, s, Check(t), s');
    case Scanning(_, _) => Advance(capacity, k, s, Scan(t), s');
    case Choosing(_, _) =>
      var v :| LeastUsed(s.entries, v) && to.todo == {v};
      assert v in s.entries.Keys;
      Advance(capacity, k, s, Choose(t, Some(v)), s');
  }

  /** The rest of the crew goes on, one thread after the other. */
  lemma {:induction false} CrewGoesOn(capacity: nat, k: nat, m: Entries, from: Pc, to: Pc, base: nat, n: nat)
    requires n <= CREW <= k && base + CREW <= KEY_COUNT && !to.Idle? && MayGo(capacity, m, from, to)
    requires CanReach(capacity, k, Crew(m, k, CREW, Partly(n, from, to, base)))
    ensures CanReach(capacity, k, Crew(m, k, CREW, Staffed(to, base)))
    decreases CREW - n
  {
    hide CanReach;
    var s := Crew(m, k, CREW, Partly(n, from, to, base));
    if n == CREW {
      assert s == Crew(m, k, CREW, Staffed(to, base));
    } else {
      var s' := Crew(m, k, CREW, Partly(n + 1, from, to, base));
      var pc := Staffed(to, base)(n);
      assert s'.threads == s.threads[n := pc];
      GoOn(capacity, k, s, n, pc);
      CrewGoesOn(capacity, k, m, from, to, base, n + 1);
    }
  }

  /** The whole crew goes on. */
  lemma {:induction false} CrewMoves(capacity: nat, k: nat, m: Entries, from: Pc, to: Pc, base: nat)
    requires CREW <= k && base + CREW <= KEY_COUNT && !to.Idle? && MayGo(capacity, m, from, to)
    requires CanReach(capacity, k, Crew(m, k, CREW, Staffed(from, base)))
    ensures CanReach(capacity, k, Crew(m, k, CREW, Staffed(to, base)))
  {
    assert Crew(m, k, CREW, Staffed(from, base)) == Crew(m, k, CREW, Partly(0, from, to, base));
    CrewGoesOn(capacity, k, m, from, to, base, 0);
  }

  /** The rest of the crew removes the same key, which only the first of all finds there. */
  lemma {:induction false} CrewRemoves(capacity: nat, k: nat, m: Entries, held: Pc, victim: Key, base: nat, n: nat)
    requires n <= CREW <= k && base + CREW <= KEY_COUNT && held.Removing? && held.todo == {victim}
    requires var done := Checking(held.job, held.attempts + 1);
             CanReach(capacity, k, Crew(if n == 0 then m else m - {victim}, k, CREW, Partly(n, held, done, base)))
    ensures CanReach(capacity, k,
                     Crew(m - {victim}, k, CREW, Staffed(Checking(held.job, held.attempts + 1), base)))
    decreases CREW - n
  {
    hide CanReach;
    var done := Checking(held.job, held.attempts + 1);
    var s := Crew(if n == 0 then m else m - {victim}, k, CREW, Partly(n, held, done, base));
    if n == CREW {
      assert s == Crew(m - {victim}, k, CREW, Staffed(done, base));
    } else {
      var s' := Crew(m - {victim}, k, CREW, Partly(n + 1, held, done, base));
      assert s.entries - {victim} == m - {victim};
      assert s.threads[n] == Partly(n, held, done, base)(n) == Staffed(held, base)(n);
      assert Staffed(held, base)(n) == Removing(NumberedJob(base + n), held.attempts, {victim});
      assert {victim} - {victim} == {};
      assert s'.threads == s.threads[n := AfterRemoval(s.threads[n], victim)];
      Advance(capacity, k, s, Remove(n, victim), s');
      CrewRemoves(capacity, k, m, held, victim, base, n + 1);
    }
  }

  /** In a numbered map nothing is expired, every entry is least used, and the last can go. */
  lemma {:induction false} NumberedFacts(n: nat)
    requires 0 < n <= KEY_COUNT
    ensures Expired(Numbered(n), 0) == {} && LeastUsed(Numbered(n), (n - 1) as Key)
    ensures Numbered(n) - {(n - 1) as Key} == Numbered(n - 1)
  {
    NumberedEntries(n);
    NumberedEntries(n - 1);
  }

  /** The crew stands at the length check with `attempts` passes made and `n` entries in the map. */
  function AtCheck(k: nat, base: nat, attempts: nat, n: nat): State
    requires base < KEY_COUNT && n <= KEY_COUNT
  {
    Crew(Numbered(n), k, CREW, Staffed(Checking(NumberedJob(base), attempts), base))
  }

  /** All threads of the crew make a pass, with the same victim: one entry goes. */
  lemma {:induction false} CrewPass(capacity: nat, k: nat, base: nat, attempts: nat, n: nat)
    requires CREW <= k && base + CREW <= KEY_COUNT && attempts < EVICT_ATTEMPTS && capacity <= n && 0 < n <= KEY_COUNT
    requires CanReach(capacity, k, AtCheck(k, base, attempts, n))
    ensures CanReach(capacity, k, AtCheck(k, base, attempts + 1, n - 1))
  {
    hide CanReach, LeastUsed, Expired, Numbered;
    var m, job, victim := Numbered(n), NumberedJob(base), (n - 1) as Key;
    NumberedEntries(n);
    NumberedFacts(n);
    CrewMoves(capacity, k, m, Checking(job, attempts), Scanning(job, attempts), base);
    CrewMoves(capacity, k, m, Scanning(job, attempts), Choosing(job, attempts), base);
    var held := Removing(job, attempts, {victim});
    CrewMoves(capacity, k, m, Choosing(job, attempts), held, base);
    assert Crew(m, k, CREW, Staffed(held, base))
        == Crew(m, k, CREW, Partly(0, held, Checking(job, attempts + 1), base));
    CrewRemoves(capacity, k, m, held, victim, base, 0);
  }

  /** All attempts the crew has left. */
  lemma {:induction false} CrewPasses(capacity: nat, k: nat, base: nat, attempts: nat)
    requires CREW <= k && base + CREW <= KEY_COUNT && attempts <= EVICT_ATTEMPTS && capacity <= base + 1
    requires CanReach(capacity, k, AtCheck(k, base, attempts, base + EVICT_ATTEMPTS - attempts))
    ensures CanReach(capacity, k, AtCheck(k, base, EVICT_ATTEMPTS, base))
    decreases EVICT_ATTEMPTS - attempts
  {
    hide CanReach, AtCheck;
    if attempts == EVICT_ATTEMPTS {
    } else {
      CrewPass(capacity, k, base, attempts, base + EVICT_ATTEMPTS - attempts);
      CrewPasses(capacity, k, base, attempts + 1);
    }
  }

  /** Each of the crew makes all its attempts and inserts: five entries go, six come. */
  lemma {:induction false} CrewRound(capacity: nat, k: nat, base: nat)
    requires CREW <= k && base + CREW <= KEY_COUNT && capacity <= base + 1
    requires CanReach(capacity, k, Resting(Numbered(base + EVICT_ATTEMPTS), k))
    ensures CanReach(capacity, k, Resting(Numbered(base + CREW), k))
  {
    hide CanReach, Numbered;
    var m, job := Numbered(base + EVICT_ATTEMPTS), NumberedJob(base);
    assert Resting(m, k) == Crew(m, k, CREW, Staffed(Idle, base));
    CrewMoves(capacity, k, m, Idle, Checking(job, 0), base);
    CrewPasses(capacity, k, base, 0);
    CrewMoves(capacity, k, Numbered(base), Checking(job, EVICT_ATTEMPTS), Inserting(job), base);
    assert Crew(Numbered(base), k, CREW, Staffed(Inserting(job), base))
        == Crew(Numbered(base + 0), k, CREW, IdleFirst(0, AboutToInsert(base)));
    InsertAll(capacity, k, base, CREW, 0);
  }

  lemma {:induction false} GrowTo(capacity: nat, k: nat, n: nat)
    requires CREW <= k && Max(capacity, 1) + EVICT_ATTEMPTS <= n <= KEY_COUNT
    ensures CanReach(capacity, k, Resting(Numbered(n), k))
    decreases n
  {
    if n == Max(capacity, 1) + EVICT_ATTEMPTS {
      Overshoot(capacity, k, CREW);
    } else {
      GrowTo(capacity, k, n - 1);
      CrewRound(capacity, k, n - 1 - EVICT_ATTEMPTS);
    }
  }

  /** With more threads than the five attempts of an insertion there is no bound but
      the number of 64-bit keys. */
  lemma {:induction false} ManyThreadsGrowWithoutBound(capacity: nat, k: nat, n: nat)
    requires k > 5 && Max(capacity, 1) + 5 <= n <= 0x1_0000_0000_0000_0000
    ensures ReachesSize(capacity, k, n)
  {
    GrowTo(capacity, k, n);
    NumberedSize(capacity, k, n);
  }

  ghost predicate KeepsBound(capacity: nat, k: nat) {
    forall s :: Reachable(capacity, k, s) ==> |s.entries| <= Max(capacity, 1) + k - 1
  }

  /** The capacity bound holds in every reachable state if and only if there are no
      more inserting threads than the five attempts an insertion makes. */
  lemma {:induction false} BoundIffFewThreads(capacity: nat, k: nat)
    requires k > 0 && Max(capacity, 1) + k <= KEY_COUNT
    ensures KeepsBound(capacity, k) <==> k <= 5
  {
    if k <= 5 {
      forall s | Reachable(capacity, k, s) ensures |s.entries| <= Max(capacity, 1) + k - 1 {
        var states, actions :| Run(capacity, k, states, actions) && states[|actions|] == s;
        FewThreadsKeepBound(capacity, k, states, actions, |actions|);
      }
    } else {
      ManyThreadsGrowWithoutBound(capacity, k, Max(capacity, 1) + k);
    }
  }
}
