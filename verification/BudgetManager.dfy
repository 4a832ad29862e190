/** The budget counter in whole micro-dollars, and its recalculation from the
    event store. */
module BudgetManager {
  import opened Prelude
  import opened Contracts
  import opened BillingCalendar
  import opened EventStore

  const MICRO_PER_USD: real := 1_000_000.0

  /** The counter is an unsigned 64-bit number: additions wrap at this value. */
  const COUNTER_SIZE: nat := 0x1_0000_0000_0000_0000

  datatype BudgetManagerConfig = BudgetManagerConfig(
    monthlyBudgetUsd: real,
    warnThreshold: real,
    hardLimit: bool,
    resetDay: nat)

  /** The saturating cast of a dollar amount to whole micro-dollars. */
  function ToMicro(costUsd: real): (micro: nat)
    ensures micro < COUNTER_SIZE
  {
    var whole := (costUsd * MICRO_PER_USD).Floor;
    if whole < 0 then 0 else if whole >= COUNTER_SIZE then COUNTER_SIZE - 1 else whole
  }

  function AddMicro(spend: nat, micro: nat): nat {
    (spend + micro) % COUNTER_SIZE
  }

  function SpendUsd(spend: nat): real {
    spend as real / MICRO_PER_USD
  }

  /** Whether the ratio of spend to budget reaches 1. A budget of zero gives an
      infinite ratio, or none at all when nothing is spent; a negative budget
      never gives a positive one. */
  predicate RatioReachesOne(spend: nat, budget: real) {
    if budget > 0.0 then SpendUsd(spend) / budget >= 1.0
    else budget == 0.0 && spend > 0
  }

  predicate ShouldBlock(spend: nat, config: BudgetManagerConfig) {
    config.hardLimit && RatioReachesOne(spend, config.monthlyBudgetUsd)
  }

  /** The share of the budget that is left, as written into a request for the
      router; a budget of zero gives no finite share. */
  function Remaining(spend: nat, config: BudgetManagerConfig): Option<real> {
    if config.monthlyBudgetUsd == 0.0 then None else Some(1.0 - SpendUsd(spend) / config.monthlyBudgetUsd)
  }

  class BudgetManager {
    const config: BudgetManagerConfig
    const store: InMemoryEventStore
    var currentSpendMicro: nat

    constructor (config: BudgetManagerConfig, store: InMemoryEventStore)
      ensures this.config == config && this.store == store && currentSpendMicro == 0
    {
      this.config := config;
      this.store := store;
      currentSpendMicro := 0;
    }

    method RecordCost(costUsd: real)
      modifies this
      ensures currentSpendMicro == AddMicro(old(currentSpendMicro), ToMicro(costUsd))
    {
      currentSpendMicro := AddMicro(currentSpendMicro, ToMicro(costUsd));
    }

    method OnRequest() returns (admitted: bool, remaining: Option<real>)
      ensures admitted <==> !ShouldBlock(currentSpendMicro, config)
      ensures !config.hardLimit ==> admitted
      ensures config.monthlyBudgetUsd > 0.0 ==>
                (admitted <==> !config.hardLimit || currentSpendMicro as real / 1_000_000.0 < config.monthlyBudgetUsd)
      ensures config.monthlyBudgetUsd == 0.0 ==> (admitted <==> !config.hardLimit || currentSpendMicro == 0)
      ensures config.monthlyBudgetUsd < 0.0 ==> admitted
      ensures remaining == Remaining(currentSpendMicro, config)
      ensures remaining.Some? <==> config.monthlyBudgetUsd != 0.0
      ensures config.monthlyBudgetUsd > 0.0 ==>
                && (remaining.value > 0.0 <==> SpendUsd(currentSpendMicro) < config.monthlyBudgetUsd)
                && (config.hardLimit ==> (admitted <==> remaining.value > 0.0))
      ensures remaining.Some? ==>
                Times(1.0 - remaining.value, config.monthlyBudgetUsd) == SpendUsd(currentSpendMicro)
    {
      remaining := Remaining(currentSpendMicro, config);
      admitted := !ShouldBlock(currentSpendMicro, config);
      if config.monthlyBudgetUsd > 0.0 {
        RatioMeansSpend(SpendUsd(currentSpendMicro), config.monthlyBudgetUsd);
      }
    }

    method RefreshFromStore(today: Date)
      modifies this
      ensures currentSpendMicro == ToMicro(CostSince(store.costEvents, PeriodStartMs(today, config.resetDay)))
    {
      var events := store.AllCostEvents();
      var total := 0.0;
      var periodStartMs := PeriodStartMs(today, config.resetDay);
      for i := 0 to |events|
        invariant total == CostSince(events[..i], periodStartMs)
      {
        assert events[..i + 1][..i] == events[..i];
        if events[i].timestampMs >= periodStartMs {
          total := total + events[i].costUsd;
        }
      }
      assert events[..|events|] == events;
      currentSpendMicro := ToMicro(total);
    }
  }

  /** A cost counts as its whole micro-dollars, a negative one as nothing, and one
      beyond the counter as the counter's largest value; the counter is a 64-bit one. */
  lemma {:induction false} MicroDollars(costUsd: real, spend: nat, micro: nat)
    ensures costUsd < 0.0 ==> ToMicro(costUsd) == 0
    ensures 0.0 <= costUsd < 18_446_744_073_709.551616 ==> ToMicro(costUsd) == (costUsd * 1_000_000.0).Floor
    ensures costUsd >= 18_446_744_073_709.551616 ==> ToMicro(costUsd) == 18_446_744_073_709_551_615
    ensures AddMicro(spend, micro) == (spend + micro) % 18_446_744_073_709_551_616
    ensures SpendUsd(spend) * 1_000_000.0 == spend as real
  {
  }

  lemma {:induction false} RatioMeansSpend(spend: real, budget: real)
    requires budget > 0.0
    ensures spend / budget >= 1.0 <==> spend >= budget
  {
    var q := spend / budget;
    assert q * budget == spend;
    if q >= 1.0 {
      assert (q - 1.0) * budget >= 0.0;
    } else {
      assert (1.0 - q) * budget > 0.0;
    }
  }

  lemma {:induction false} SpendUsdAdds(a: nat, b: nat)
    ensures SpendUsd(a + b) == SpendUsd(a) + SpendUsd(b)
  {
  }

  lemma {:induction false} SpendUsdOrder(a: nat, b: nat)
    ensures a <= b <==> SpendUsd(a) <= SpendUsd(b)
  {
  }

  /** Truncation never rounds a cost up. */
  lemma {:induction false} TruncatedCost(costUsd: real)
    requires costUsd >= 0.0
    ensures SpendUsd(ToMicro(costUsd)) <= costUsd
  {
  }

  lemma {:induction false} WrapOnce(a: nat, b: nat)
    ensures (a % COUNTER_SIZE + b) % COUNTER_SIZE == (a + b) % COUNTER_SIZE
  {
    var k := a / COUNTER_SIZE;
    assert a + b == COUNTER_SIZE * k + (a % COUNTER_SIZE + b);
    AddMultiple(a % COUNTER_SIZE + b, k);
  }

  lemma {:induction false} AddMultiple(a: nat, k: nat)
    ensures (COUNTER_SIZE * k + a) % COUNTER_SIZE == a % COUNTER_SIZE
  {
    QuotientUnique(COUNTER_SIZE * k + a, COUNTER_SIZE, k + a / COUNTER_SIZE, a % COUNTER_SIZE);
  }

  // ---- What truncation costs ----

  /** The whole micro-dollars of each cost, added up. */
  function MicroSum(costs: seq<real>): nat {
    if |costs| == 0 then 0 else MicroSum(costs[..|costs| - 1]) + ToMicro(costs[|costs| - 1])
  }

  /** The counter after recording the costs one by one, starting from zero. */
  function Counter(costs: seq<real>): nat {
    if |costs| == 0 then 0 else AddMicro(Counter(costs[..|costs| - 1]), ToMicro(costs[|costs| - 1]))
  }

  lemma {:induction false} CounterIsWrappedSum(costs: seq<real>)
    ensures Counter(costs) == MicroSum(costs) % COUNTER_SIZE
  {
    if |costs| == 0 {
    } else {
      CounterIsWrappedSum(costs[..|costs| - 1]);
      WrapOnce(MicroSum(costs[..|costs| - 1]), ToMicro(costs[|costs| - 1]));
    }
  }

  ghost predicate NonNegative(costs: seq<real>) {
    forall i :: 0 <= i < |costs| ==> costs[i] >= 0.0
  }

  lemma {:induction false} SumIsNonNegative(costs: seq<real>)
    requires NonNegative(costs)
    ensures Sum(costs) >= 0.0
  {
    if |costs| == 0 {
    } else {
      SumIsNonNegative(costs[..|costs| - 1]);
    }
  }

  lemma {:induction false} TruncationLag(costs: seq<real>)
    requires NonNegative(costs) && Sum(costs) * MICRO_PER_USD < COUNTER_SIZE as real
    ensures MicroSum(costs) as real <= Sum(costs) * MICRO_PER_USD
    ensures |costs| > 0 ==> Sum(costs) * MICRO_PER_USD < (MicroSum(costs) + |costs|) as real
  {
    if |costs| == 0 {
    } else {
      var front, last := costs[..|costs| - 1], costs[|costs| - 1];
      SumIsNonNegative(front);
      TruncationLag(front);
      assert Sum(costs) * MICRO_PER_USD == Sum(front) * MICRO_PER_USD + last * MICRO_PER_USD;
    }
  }

  /** The counter lags the true spend by less than one micro-dollar a request. */
  lemma {:induction false} CounterLag(costs: seq<real>)
    requires |costs| > 0 && NonNegative(costs) && Sum(costs) * MICRO_PER_USD < COUNTER_SIZE as real
    ensures Counter(costs) as real <= Sum(costs) * MICRO_PER_USD < (Counter(costs) + |costs|) as real
  {
    TruncationLag(costs);
    CounterIsWrappedSum(costs);
  }

  /** A refresh from the same costs moves the counter up by less than their number,
      and never down. */
  lemma {:induction false} RefreshAgreesWithCounter(costs: seq<real>)
    requires |costs| > 0 && NonNegative(costs) && Sum(costs) * MICRO_PER_USD < COUNTER_SIZE as real
    ensures Counter(costs) <= ToMicro(Sum(costs)) <= Counter(costs) + |costs| - 1
  {
    CounterLag(costs);
    SumIsNonNegative(costs);
  }

  /** The costs of the events at or after the cutoff, in log order. */
  function CostsSince(events: seq<CostEvent>, cutoff: nat): seq<real> {
    if |events| == 0 then []
    else
      var e := events[|events| - 1];
      CostsSince(events[..|events| - 1], cutoff) + if e.timestampMs >= cutoff then [e.costUsd] else []
  }

  lemma {:induction false} CostsSinceAddUp(events: seq<CostEvent>, cutoff: nat)
    ensures Sum(CostsSince(events, cutoff)) == CostSince(events, cutoff)
  {
    if |events| == 0 {
    } else {
      CostsSinceAddUp(events[..|events| - 1], cutoff);
      var e := events[|events| - 1];
      var front := CostsSince(events[..|events| - 1], cutoff);
      if e.timestampMs >= cutoff {
        assert (front + [e.costUsd])[..|front|] == front;
      } else {
        assert front + [] == front;
      }
    }
  }

  /** For every event log: if the counter has recorded exactly the costs of the
      period, in any order, a refresh from the log moves it up by less than
      their number, and never down. */
  lemma {:induction false} RefreshMatchesRecording(events: seq<CostEvent>, cutoff: nat, recorded: seq<real>)
    requires multiset(recorded) == multiset(CostsSince(events, cutoff)) && |recorded| > 0
    requires NonNegative(CostsSince(events, cutoff))
    requires CostSince(events, cutoff) * MICRO_PER_USD < COUNTER_SIZE as real
    ensures Counter(recorded) <= ToMicro(CostSince(events, cutoff)) <= Counter(recorded) + |recorded| - 1
  {
    var costs := CostsSince(events, cutoff);
    CostsSinceAddUp(events, cutoff);
    OrderDoesNotMatter(recorded, costs);
    assert |multiset(recorded)| == |recorded| && |multiset(costs)| == |costs|;
    RefreshAgreesWithCounter(costs);
  }

  /** The counter does not depend on the order in which the costs were recorded. */
  lemma {:induction false} OrderDoesNotMatter(a: seq<real>, b: seq<real>)
    requires multiset(a) == multiset(b)
    ensures Counter(a) == Counter(b)
  {
    SameSums(a, b);
    CounterIsWrappedSum(a);
    CounterIsWrappedSum(b);
  }

  lemma {:induction false} SameSums(a: seq<real>, b: seq<real>)
    requires multiset(a) == multiset(b)
    ensures MicroSum(a) == MicroSum(b)
  {
    if |a| == 0 {
      assert |multiset(b)| == 0;
    } else {
      var front, last := a[..|a| - 1], a[|a| - 1];
      assert a == front + [last];
      assert last in multiset(b);
      var i :| 0 <= i < |b| && b[i] == last;
      var rest := b[..i] + b[i + 1..];
      assert b == b[..i] + [last] + b[i + 1..];
      assert multiset(rest) == multiset(b) - multiset{last};
      SameSums(front, rest);
      TakeOut(b, i);
    }
  }

  lemma {:induction false} TakeOut(b: seq<real>, i: nat)
    requires i < |b|
    ensures MicroSum(b) == MicroSum(b[..i] + b[i + 1..]) + ToMicro(b[i])
  {
    var n := |b| - 1;
    var rest := b[..i] + b[i + 1..];
    if i == n {
      assert rest == b[..n];
    } else {
      TakeOut(b[..n], i);
      assert rest[..n - 1] == b[..n][..i] + b[..n][i + 1..];
      assert rest[n - 1] == b[n];
    }
  }
}
