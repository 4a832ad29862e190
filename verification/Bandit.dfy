/** The sliding-window bandit: the last rewards of each model, for a bounded
    number of models. */
module Bandit {
  import opened Prelude

  const MAX_ARMS: nat := 1000
  const COUNTER_MAX: nat := 0xFFFF_FFFF_FFFF_FFFF

  type Arms = map<string, seq<real>>

  /** One recorded reward, and the arm that had to make room for it. */
  datatype Update = Update(model: string, reward: real, evicted: Option<string>)

  function LastOf(s: seq<real>, n: nat): seq<real> {
    if |s| <= n then s else s[|s| - n..]
  }

  ghost predicate LeastObserved(arms: Arms, model: string) {
    model in arms && forall m :: m in arms ==> |arms[model]| <= |arms[m]|
  }

  /** What one update does to the arms: a new model at the limit replaces an arm
      with the fewest observations. */
  ghost predicate UpdateOutcome(arms: Arms, windowSize: nat, u: Update, arms': Arms) {
    && (u.evicted.Some? <==> u.model !in arms && |arms| >= MAX_ARMS)
    && (u.evicted.Some? ==> LeastObserved(arms, u.evicted.value))
    && var kept := if u.evicted.Some? then arms - {u.evicted.value} else arms;
       arms' == kept[u.model := LastOf((if u.model in kept then kept[u.model] else []) + [u.reward], windowSize)]
  }

  class SlidingWindowUcb {
    const windowSize: nat
    var arms: Arms
    var totalObservations: nat
    ghost var history: seq<Update>

    constructor (windowSize: nat)
      ensures this.windowSize == windowSize && arms == map[] && totalObservations == 0 && history == []
    {
      this.windowSize := windowSize;
      arms := map[];
      totalObservations := 0;
      history := [];
    }

    ghost predicate Valid()
      reads this
    {
      FollowsHistory(arms, windowSize, history) && totalObservations == Min(|history|, COUNTER_MAX)
    }

    method RecordReward(model: string, reward: real)
      requires Valid()
      modifies this
      ensures Valid()
      ensures |history| == |old(history)| + 1 && history[..|old(history)|] == old(history)
      ensures history[|old(history)|].model == model && history[|old(history)|].reward == reward
      ensures UpdateOutcome(old(arms), windowSize, history[|old(history)|], arms)
    {
      hide FollowsHistory, LastOf;
      ghost var before := arms;
      ghost var evicted: Option<string> := None;
      if model !in arms && |arms| >= MAX_ARMS {
        var leastUsed := LeastUsedArm();
        evicted := Some(leastUsed);
        arms := arms - {leastUsed};
      }
      var arm := (if model in arms then arms[model] else []) + [reward];
      totalObservations := if totalObservations < COUNTER_MAX then totalObservations + 1 else COUNTER_MAX;
      arm := DropOldest(arm);
      arms := arms[model := arm];
      UpdateFollowsHistory(before, windowSize, history, Update(model, reward, evicted), arms);
      history := history + [Update(model, reward, evicted)];
    }

    /** Pops observations from the front until the window holds the rest. */
    method DropOldest(pushed: seq<real>) returns (arm: seq<real>)
      ensures arm == LastOf(pushed, windowSize)
      ensures |arm| == Min(|pushed|, windowSize)
      ensures forall j :: 0 <= j < |arm| ==> arm[j] == pushed[|pushed| - |arm| + j]
    {
      arm := pushed;
      while |arm| > windowSize
        invariant LastOf(arm, windowSize) == LastOf(pushed, windowSize)
        invariant Min(|pushed|, windowSize) <= |arm| <= |pushed|
        invariant forall j :: 0 <= j < |arm| ==> arm[j] == pushed[|pushed| - |arm| + j]
      {
        arm := arm[1..];
      }
    }

    method LeastUsedArm() returns (model: string)
      requires |arms| > 0
      ensures LeastObserved(arms, model)
    {
      var keys := Enumerate(arms);
      model := keys[0];
      for i := 1 to |keys|
        invariant model in arms
        invariant forall j :: 0 <= j < i ==> |arms[model]| <= |arms[keys[j]]|
      {
        if |arms[keys[i]]| < |arms[model]| {
          model := keys[i];
        }
      }
    }

    function TotalRequests(): nat
      reads this
    {
      totalObservations
    }

    function ArmCount(model: string): nat
      reads this
    {
      if model in arms then |arms[model]| else 0
    }
  }

  /** The exploitation part of a model's score; models without data are neutral. */
  function MeanOf(arms: Arms, model: string): real {
    if model in arms && |arms[model]| > 0 then Sum(arms[model]) / |arms[model]| as real else 0.5
  }

  // ---- The arms as a function of the history ----

  /** The rewards of `model` since its arm was last created. */
  function RewardsSince(history: seq<Update>, model: string): seq<real> {
    if |history| == 0 then []
    else
      var front, u := history[..|history| - 1], history[|history| - 1];
      if u.model == model then RewardsSince(front, model) + [u.reward]
      else if u.evicted == Some(model) then []
      else RewardsSince(front, model)
  }

  /** The model has been rewarded and not been evicted since. */
  predicate HasArm(history: seq<Update>, model: string) {
    |history| > 0 &&
    var front, u := history[..|history| - 1], history[|history| - 1];
    u.model == model || (u.evicted != Some(model) && HasArm(front, model))
  }

  /** Every arm holds exactly the last rewards since it was created, and there
      are never more arms than the limit. */
  ghost predicate FollowsHistory(arms: Arms, windowSize: nat, history: seq<Update>) {
    && |arms| <= MAX_ARMS
    && (forall m :: m in arms <==> HasArm(history, m))
    && (forall m :: m in arms ==> arms[m] == LastOf(RewardsSince(history, m), windowSize))
  }

  lemma {:induction false} NoArmNoRewards(history: seq<Update>, model: string)
    requires !HasArm(history, model)
    ensures RewardsSince(history, model) == []
  {
    if |history| > 0 && history[|history| - 1].evicted != Some(model) {
      NoArmNoRewards(history[..|history| - 1], model);
    }
  }

  /** Cutting to the window before or after a push makes no difference. */
  lemma {:induction false} LastOfPushed(s: seq<real>, n: nat, x: real)
    ensures LastOf(LastOf(s, n) + [x], n) == LastOf(s + [x], n)
  {
  }

  /** The arm of one model after an update. */
  lemma {:induction false} ArmAfterUpdate(arms: Arms, windowSize: nat, history: seq<Update>, u: Update, arms': Arms,
                                          m: string)
    requires FollowsHistory(arms, windowSize, history) && UpdateOutcome(arms, windowSize, u, arms')
    ensures m in arms' <==> HasArm(history + [u], m)
    ensures m in arms' ==> arms'[m] == LastOf(RewardsSince(history + [u], m), windowSize)
  {
    hide LastOf;
    assert (history + [u])[..|history|] == history;
    if m == u.model {
      LastOfPushed(RewardsSince(history, m), windowSize, u.reward);
      if m !in arms {
        NoArmNoRewards(history, m);
      }
    }
  }

  lemma {:induction false} ArmsStayBounded(arms: Arms, windowSize: nat, u: Update, arms': Arms)
    requires |arms| <= MAX_ARMS && UpdateOutcome(arms, windowSize, u, arms')
    ensures |arms'| <= MAX_ARMS
  {
    hide LastOf;
    var kept := if u.evicted.Some? then arms - {u.evicted.value} else arms;
    assert arms'.Keys == kept.Keys + {u.model};
    assert u.evicted.Some? ==> kept.Keys == arms.Keys - {u.evicted.value};
    if u.model in arms {
      assert arms'.Keys == arms.Keys;
    }
  }

  lemma {:induction false} UpdateFollowsHistory(arms: Arms, windowSize: nat, history: seq<Update>, u: Update,
                                                arms': Arms)
    requires FollowsHistory(arms, windowSize, history) && UpdateOutcome(arms, windowSize, u, arms')
    ensures FollowsHistory(arms', windowSize, history + [u])
  {
    hide UpdateOutcome, LastOf, HasArm, RewardsSince;
    ArmsStayBounded(arms, windowSize, u, arms');
    forall m: string
      ensures m in arms' <==> HasArm(history + [u], m)
      ensures m in arms' ==> arms'[m] == LastOf(RewardsSince(history + [u], m), windowSize)
    {
      ArmAfterUpdate(arms, windowSize, history, u, arms', m);
    }
  }

  /** The counts report what the history holds: of a model, the rewards since its
      arm was last created, as far as the window reaches; in all, every update,
      as far as the counter reaches. */
  lemma {:induction false} CountsFollowHistory(bandit: SlidingWindowUcb, model: string)
    requires bandit.Valid()
    ensures bandit.ArmCount(model) == Min(|RewardsSince(bandit.history, model)|, bandit.windowSize)
    ensures bandit.TotalRequests() == Min(|bandit.history|, 18_446_744_073_709_551_615)
  {
    if model !in bandit.arms {
      NoArmNoRewards(bandit.history, model);
    }
  }

  /** Any updates one after the other, from a bandit without arms. */
  ghost predicate UpdateRun(windowSize: nat, states: seq<Arms>, updates: seq<Update>) {
    && |states| == |updates| + 1 && states[0] == map[]
    && forall i :: 0 <= i < |updates| ==> UpdateOutcome(states[i], windowSize, updates[i], states[i + 1])
  }

  lemma {:induction false} EmptyFollowsHistory(windowSize: nat)
    ensures FollowsHistory(map[], windowSize, [])
  {
  }

  lemma {:induction false} RunFollows(windowSize: nat, states: seq<Arms>, updates: seq<Update>, i: nat)
    requires UpdateRun(windowSize, states, updates) && i < |states|
    ensures FollowsHistory(states[i], windowSize, updates[..i])
  {
    hide FollowsHistory, UpdateOutcome;
    if i == 0 {
      EmptyFollowsHistory(windowSize);
      assert updates[..0] == [];
    } else {
      RunFollows(windowSize, states, updates, i - 1);
      UpdateFollowsHistory(states[i - 1], windowSize, updates[..i - 1], updates[i - 1], states[i]);
      assert updates[..i - 1] + [updates[i - 1]] == updates[..i];
    }
  }

  /** After any updates there are at most a thousand arms. A model has one if and
      only if it was rewarded and not evicted since, and its arm holds exactly the
      last rewards since it was last created, in their order. */
  lemma {:induction false} RunFollowsHistory(windowSize: nat, states: seq<Arms>, updates: seq<Update>, i: nat,
                                             m: string)
    requires UpdateRun(windowSize, states, updates) && i < |states|
    ensures |states[i]| <= 1000
    ensures m in states[i] <==> HasArm(updates[..i], m)
    ensures m in states[i] ==>
              var arm, rewards := states[i][m], RewardsSince(updates[..i], m);
              && |arm| == Min(|rewards|, windowSize)
              && forall j :: 0 <= j < |arm| ==> arm[j] == rewards[|rewards| - |arm| + j]
  {
    RunFollows(windowSize, states, updates, i);
  }

  /** An arm has to go exactly when a new model comes to a thousand others, and
      then one with the fewest observations goes; no other arm changes. */
  lemma {:induction false} EvictionAtLimit(arms: Arms, windowSize: nat, u: Update, arms': Arms, m: string)
    requires UpdateOutcome(arms, windowSize, u, arms')
    ensures u.evicted.Some? <==> u.model !in arms && |arms| >= 1000
    ensures u.evicted.Some? ==> LeastObserved(arms, u.evicted.value)
    ensures m != u.model && u.evicted != Some(m) ==>
              (m in arms <==> m in arms') && (m in arms ==> arms'[m] == arms[m])
    ensures u.evicted == Some(m) ==> m !in arms'
  {
  }

  // ---- Mean rewards ----

  /** The mean of an arm is its average; without observations it is neutral. */
  lemma {:induction false} MeanIsAverage(arms: Arms, model: string)
    ensures model in arms && |arms[model]| > 0 ==>
              MeanOf(arms, model) * |arms[model]| as real == Sum(arms[model])
    ensures model !in arms || |arms[model]| == 0 ==> MeanOf(arms, model) == 0.5
  {
  }

  ghost predicate InUnitInterval(rewards: seq<real>) {
    forall i :: 0 <= i < |rewards| ==> 0.0 <= rewards[i] <= 1.0
  }

  lemma {:induction false} SumInRange(rewards: seq<real>)
    requires InUnitInterval(rewards)
    ensures 0.0 <= Sum(rewards) <= |rewards| as real
  {
    if |rewards| == 0 {
    } else {
      SumInRange(rewards[..|rewards| - 1]);
    }
  }

  lemma {:induction false} RewardsComeFromHistory(history: seq<Update>, model: string)
    ensures forall r :: r in RewardsSince(history, model) ==> exists u :: u in history && u.reward == r
  {
    if |history| == 0 {
    } else {
      var front, u := history[..|history| - 1], history[|history| - 1];
      RewardsComeFromHistory(front, model);
      forall r | r in RewardsSince(history, model) ensures exists v :: v in history && v.reward == r {
        if r in RewardsSince(front, model) {
          var v :| v in front && v.reward == r;
          assert v in history;
        } else {
          assert u in history;
        }
      }
    }
  }

  lemma {:induction false} QuotientInRange(sum: real, n: real)
    requires n > 0.0 && 0.0 <= sum <= n
    ensures 0.0 <= sum / n <= 1.0
  {
  }

  /** If every recorded reward lies between 0 and 1, so does every model's mean. */
  lemma {:induction false} MeansStayInUnitInterval(arms: Arms, windowSize: nat, history: seq<Update>, model: string)
    requires FollowsHistory(arms, windowSize, history)
    requires forall u :: u in history ==> 0.0 <= u.reward <= 1.0
    ensures 0.0 <= MeanOf(arms, model) <= 1.0
  {
    if model in arms && |arms[model]| > 0 {
      var arm := arms[model];
      RewardsComeFromHistory(history, model);
      forall i | 0 <= i < |arm| ensures 0.0 <= arm[i] <= 1.0 {
        assert arm[i] in RewardsSince(history, model);
      }
      SumInRange(arm);
      QuotientInRange(Sum(arm), |arm| as real);
    }
  }
}
