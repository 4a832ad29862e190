/** The budget check under concurrency: requests travel through the pipeline in
    any interleaving, the budget manager being one of its layers. */
module BudgetGuard {
  import opened Prelude
  import opened BudgetManager

  /** `layers` layers, the budget manager being number `budgetLayer`; a request
      costs at most `maxCostUsd`. */
  datatype Setup = Setup(config: BudgetManagerConfig, layers: nat, budgetLayer: nat, maxCostUsd: real) {
    ghost predicate Valid() {
      && config.hardLimit && config.monthlyBudgetUsd > 0.0
      && budgetLayer < layers && maxCostUsd >= 0.0
    }
  }

  /** Where the request in a slot stands: about to enter layer `layer` on the
      way in, past all of them, or about to enter layer `layer - 1` on the way out. */
  datatype Pc =
    | Free
    | Incoming(layer: nat, stream: bool)
    | Outgoing(layer: nat)

  /** The budget counter and the slots for requests in flight. */
  datatype State = State(spendMicro: nat, slots: seq<Pc>)

  datatype Action =
    | Arrive(slot: nat, stream: bool)
    | EnterLayer(slot: nat, ok: bool)
    | CallProvider(slot: nat, ok: bool)
    | LeaveLayer(slot: nat, ok: bool)
    | Record(slot: nat, costUsd: real)
    | Respond(slot: nat)
    | Refresh(spendMicro: nat)

  /** There are enough slots for everything in flight, streams included. */
  ghost predicate Init(s: State) {
    s.spendMicro == 0 && forall i :: 0 <= i < |s.slots| ==> s.slots[i] == Free
  }

  /** A refresh from the store replaces the counter; all else moves one request. */
  ghost predicate Step(u: Setup, s: State, a: Action, s': State) {
    if a.Refresh? then s' == s.(spendMicro := a.spendMicro)
    else RequestStep(u, s, a, s')
  }

  ghost predicate RequestStep(u: Setup, s: State, a: Action, s': State)
    requires !a.Refresh?
  {
    && a.slot < |s.slots|
    && var pc := s.slots[a.slot];
       match a
       case Arrive(i, stream) =>
         pc.Free? && s' == s.(slots := s.slots[i := Incoming(0, stream)])
       case EnterLayer(i, ok) =>
         // The budget layer fails exactly when it blocks; any other layer may fail.
         && pc.Incoming? && pc.layer < u.layers
         && (pc.layer == u.budgetLayer ==> (ok <==> !ShouldBlock(s.spendMicro, u.config)))
         && s' == s.(slots := s.slots[i := if ok then Incoming(pc.layer + 1, pc.stream) else Free])
       case CallProvider(i, ok) =>
         // A stream is handed over here: no response hook runs for it.
         && pc.Incoming? && pc.layer == u.layers
         && s' == s.(slots := s.slots[i := if ok && !pc.stream then Outgoing(u.layers) else Free])
       case LeaveLayer(i, ok) =>
         && pc.Outgoing? && 0 < pc.layer && pc.layer - 1 != u.budgetLayer
         && s' == s.(slots := s.slots[i := if ok then Outgoing(pc.layer - 1) else Free])
       case Record(i, costUsd) =>
         && pc.Outgoing? && pc.layer - 1 == u.budgetLayer && 0.0 <= costUsd <= u.maxCostUsd
         && s' == State(AddMicro(s.spendMicro, ToMicro(costUsd)), s.slots[i := Outgoing(pc.layer - 1)])
       case Respond(i) =>
         pc == Outgoing(0) && s' == s.(slots := s.slots[i := Free])
  }

  /** The request is being answered without a stream. */
  predicate IsPlain(pc: Pc) {
    match pc
    case Free => false
    case Incoming(_, stream) => !stream
    case Outgoing(_) => true
  }

  function PlainInFlight(s: State): nat {
    CountIf(s.slots, IsPlain)
  }

  /** A run in which at most `k` requests that are not streams are in flight at
      any moment, any number of streams beside them, and every refresh restores a
      spend below `limitUsd`. */
  ghost predicate Run(u: Setup, k: nat, limitUsd: real, states: seq<State>, actions: seq<Action>) {
    && |states| == |actions| + 1
    && Init(states[0])
    && (forall i :: 0 <= i < |states| ==> PlainInFlight(states[i]) <= k)
    && (forall i :: 0 <= i < |actions| ==> Step(u, states[i], actions[i], states[i + 1]))
    && (forall i :: 0 <= i < |actions| && actions[i].Refresh? ==> SpendUsd(actions[i].spendMicro) < limitUsd)
  }

  /** The request has passed the budget check and its cost is not recorded yet. A
      stream is never charged. */
  predicate Owing(u: Setup, pc: Pc) {
    match pc
    case Free => false
    case Incoming(layer, stream) => layer > u.budgetLayer && !stream
    case Outgoing(layer) => layer > u.budgetLayer
  }

  function Owed(u: Setup, s: State): nat {
    CountIf(s.slots, (pc: Pc) => Owing(u, pc))
  }

  /** What `n` requests cost at most. */
  function AtMost(u: Setup, n: nat): real {
    n as real * u.maxCostUsd
  }

  /** The recorded spend plus what the admitted requests may still add stays
      below the limit plus `k` requests' worth. */
  ghost predicate Invariant(u: Setup, k: nat, limitUsd: real, s: State) {
    SpendUsd(s.spendMicro) + AtMost(u, Owed(u, s)) < limitUsd + AtMost(u, k)
  }

  /** The limit is the budget or more, and the counter cannot wrap before the
      bound is reached. */
  ghost predicate LimitFits(u: Setup, k: nat, limitUsd: real) {
    u.config.monthlyBudgetUsd <= limitUsd && limitUsd + AtMost(u, k) <= SpendUsd(COUNTER_SIZE)
  }

  lemma {:induction false} MoveSlot(u: Setup, s: State, i: nat, pc: Pc)
    requires i < |s.slots|
    ensures Owed(u, s.(slots := s.slots[i := pc])) ==
            Owed(u, s) - (if Owing(u, s.slots[i]) then 1 else 0) + (if Owing(u, pc) then 1 else 0)
  {
    CountIfUpdate(s.slots, i, pc, (p: Pc) => Owing(u, p));
  }

  lemma {:induction false} OwedByPlain(u: Setup, s: State)
    ensures Owed(u, s) <= PlainInFlight(s)
  {
    CountIfImplies(s.slots, (p: Pc) => Owing(u, p), IsPlain);
  }

  lemma {:induction false} AtMostGrows(u: Setup, a: nat, b: nat)
    requires u.Valid() && a <= b
    ensures 0.0 <= AtMost(u, a) <= AtMost(u, b)
  {
    var c, x, y := u.maxCostUsd, a as real, b as real;
    assert x * c >= 0.0;
    assert (y - x) * c >= 0.0;
    assert (y - x) * c == y * c - x * c;
  }

  lemma {:induction false} OneLess(u: Setup, a: nat)
    requires a > 0
    ensures AtMost(u, a - 1) == AtMost(u, a) - u.maxCostUsd
  {
    assert (a as real - 1.0) * u.maxCostUsd == a as real * u.maxCostUsd - u.maxCostUsd;
  }

  /** Fewer requests owing, and no more spent: the invariant stays. */
  lemma {:induction false} InvariantShrinks(u: Setup, k: nat, limitUsd: real, s: State, s': State)
    requires u.Valid() && Invariant(u, k, limitUsd, s)
    requires s'.spendMicro == s.spendMicro && Owed(u, s') <= Owed(u, s)
    ensures Invariant(u, k, limitUsd, s')
  {
    hide AtMost, SpendUsd;
    AtMostGrows(u, Owed(u, s'), Owed(u, s));
  }

  /** From a spend below the limit the invariant holds however much is owed. */
  lemma {:induction false} BelowLimit(u: Setup, k: nat, limitUsd: real, s: State)
    requires u.Valid() && PlainInFlight(s) <= k && SpendUsd(s.spendMicro) < limitUsd
    ensures Invariant(u, k, limitUsd, s)
  {
    hide AtMost, SpendUsd;
    OwedByPlain(u, s);
    AtMostGrows(u, Owed(u, s), k);
  }

  /** Recording a cost turns what one request owed into spend. */
  lemma {:induction false} RecordKeepsInvariant(u: Setup, k: nat, limitUsd: real, s: State, costUsd: real, s': State)
    requires u.Valid() && LimitFits(u, k, limitUsd) && Invariant(u, k, limitUsd, s)
    requires 0.0 <= costUsd <= u.maxCostUsd
    requires s'.spendMicro == AddMicro(s.spendMicro, ToMicro(costUsd))
    requires Owed(u, s) > 0 && Owed(u, s') == Owed(u, s) - 1
    ensures Invariant(u, k, limitUsd, s')
    ensures s'.spendMicro == s.spendMicro + ToMicro(costUsd)
  {
    hide AtMost, SpendUsd;
    var micro := ToMicro(costUsd);
    OneLess(u, Owed(u, s));
    AtMostGrows(u, 0, Owed(u, s'));
    SpendUsdAdds(s.spendMicro, micro);
    TruncatedCost(costUsd);
    SpendUsdOrder(s.spendMicro + micro, COUNTER_SIZE);
  }

  lemma {:induction false} StepKeepsInvariant(u: Setup, k: nat, limitUsd: real, s: State, a: Action, s': State)
    requires u.Valid() && LimitFits(u, k, limitUsd) && Invariant(u, k, limitUsd, s) && Step(u, s, a, s')
    requires PlainInFlight(s') <= k
    requires a.Refresh? ==> SpendUsd(a.spendMicro) < limitUsd
    ensures Invariant(u, k, limitUsd, s')
    ensures !a.Refresh? ==> s'.spendMicro >= s.spendMicro
  {
    if a.Refresh? {
      BelowLimit(u, k, limitUsd, s');
    } else {
      RequestKeepsInvariant(u, k, limitUsd, s, a, s');
    }
  }

  lemma {:induction false} RequestKeepsInvariant(u: Setup, k: nat, limitUsd: real, s: State, a: Action, s': State)
    requires u.Valid() && LimitFits(u, k, limitUsd) && Invariant(u, k, limitUsd, s)
    requires !a.Refresh? && RequestStep(u, s, a, s') && PlainInFlight(s') <= k
    ensures Invariant(u, k, limitUsd, s')
    ensures s'.spendMicro >= s.spendMicro
  {
    MoveSlot(u, s, a.slot, s'.slots[a.slot]);
    var pc := s.slots[a.slot];
    if a.Record? {
      assert Owed(u, s') == Owed(u, s.(slots := s'.slots));
      RecordKeepsInvariant(u, k, limitUsd, s, a.costUsd, s');
    } else if a.EnterLayer? && pc.layer == u.budgetLayer && a.ok {
      RatioMeansSpend(SpendUsd(s.spendMicro), u.config.monthlyBudgetUsd);
      BelowLimit(u, k, limitUsd, s');
    } else {
      InvariantShrinks(u, k, limitUsd, s, s');
    }
  }

  lemma {:induction false} RunKeepsInvariant(u: Setup, k: nat, limitUsd: real, states: seq<State>,
                                             actions: seq<Action>, i: nat)
    requires u.Valid() && LimitFits(u, k, limitUsd) && Run(u, k, limitUsd, states, actions) && i < |states|
    ensures Invariant(u, k, limitUsd, states[i])
  {
    if i == 0 {
      assert SpendUsd(0) == 0.0;
      BelowLimit(u, k, limitUsd, states[0]);
    } else {
      RunKeepsInvariant(u, k, limitUsd, states, actions, i - 1);
      StepKeepsInvariant(u, k, limitUsd, states[i - 1], actions[i - 1], states[i]);
    }
  }

  /** With a hard limit and a positive budget, at most `k` requests in flight that
      are not streams and each costing at most C, the recorded spend stays below
      the limit plus k * C in every reachable state, whatever fails on the way.
      Without refreshes, and with refreshes to less than the budget, the limit
      can be the budget itself. */
  lemma {:induction false} SpendStaysBounded(u: Setup, k: nat, limitUsd: real, states: seq<State>,
                                             actions: seq<Action>, i: nat)
    requires u.Valid() && LimitFits(u, k, limitUsd) && Run(u, k, limitUsd, states, actions) && i < |states|
    ensures SpendUsd(states[i].spendMicro) < limitUsd + k as real * u.maxCostUsd
  {
    RunKeepsInvariant(u, k, limitUsd, states, actions, i);
    AtMostGrows(u, 0, Owed(u, states[i]));
  }

  /** Once the budget is reached no request passes the check, stream or not, until
      a refresh lowers the counter. */
  lemma {:induction false} NoAdmissionAfterExhaustion(u: Setup, k: nat, limitUsd: real, states: seq<State>,
                                                      actions: seq<Action>, i: nat, j: nat, stream: bool)
    requires u.Valid() && LimitFits(u, k, limitUsd) && Run(u, k, limitUsd, states, actions) && i <= j < |actions|
    requires forall t :: i <= t < j ==> !actions[t].Refresh?
    requires SpendUsd(states[i].spendMicro) >= u.config.monthlyBudgetUsd
    requires actions[j].EnterLayer? && actions[j].slot < |states[j].slots|
    requires states[j].slots[actions[j].slot] == Incoming(u.budgetLayer, stream)
    ensures !actions[j].ok
  {
    hide SpendUsd;
    SpendGrows(u, k, limitUsd, states, actions, i, j);
    SpendUsdOrder(states[i].spendMicro, states[j].spendMicro);
    assert Step(u, states[j], actions[j], states[j + 1]);
    RatioMeansSpend(SpendUsd(states[j].spendMicro), u.config.monthlyBudgetUsd);
  }

  lemma {:induction false} SpendGrows(u: Setup, k: nat, limitUsd: real, states: seq<State>, actions: seq<Action>,
                                      i: nat, j: nat)
    requires u.Valid() && LimitFits(u, k, limitUsd) && Run(u, k, limitUsd, states, actions) && i <= j < |states|
    requires forall t :: i <= t < j ==> !actions[t].Refresh?
    ensures states[i].spendMicro <= states[j].spendMicro
  {
    if i == j {
    } else {
      SpendGrows(u, k, limitUsd, states, actions, i, j - 1);
      RunKeepsInvariant(u, k, limitUsd, states, actions, j - 1);
      StepKeepsInvariant(u, k, limitUsd, states[j - 1], actions[j - 1], states[j]);
    }
  }
}
