/** Choosing a model by weighted cost, latency and quality. */
module CostAuctioneer {
  import opened Prelude
  import opened Bandit
  import Sorting

  const MAX_LATENCY_MS: real := 5000.0

  datatype RawScore = RawScore(modelId: string, cost: real, latencyMs: real, quality: real)

  datatype ContextWeights = ContextWeights(cost: real, latency: real, quality: real)

  datatype CostRouterConfig = CostRouterConfig(
    warmupRequests: Option<nat>,
    epsilon: Option<real>,
    slidingWindowSize: Option<nat>,
    contextWeights: Option<map<string, ContextWeights>>)

  datatype RequestContext = RequestContext(requestType: Option<string>, budgetRemainingRatio: real)

  // ---- Normalisation ----

  function MinOf(values: seq<real>): (m: real)
    requires |values| > 0
    ensures exists i :: 0 <= i < |values| && values[i] == m
    ensures forall i :: 0 <= i < |values| ==> m <= values[i]
  {
    if |values| == 1 then values[0]
    else
      var m, last := MinOf(values[..|values| - 1]), values[|values| - 1];
      assert forall i :: 0 <= i < |values| - 1 ==> values[..|values| - 1][i] == values[i];
      if last < m then last else m
  }

  function MaxOf(values: seq<real>): (m: real)
    requires |values| > 0
    ensures exists i :: 0 <= i < |values| && values[i] == m
    ensures forall i :: 0 <= i < |values| ==> values[i] <= m
  {
    if |values| == 1 then values[0]
    else
      var m, last := MaxOf(values[..|values| - 1]), values[|values| - 1];
      assert forall i :: 0 <= i < |values| - 1 ==> values[..|values| - 1][i] == values[i];
      if last > m then last else m
  }

  function Range(values: seq<real>): (r: real)
    requires |values| > 0
    ensures r >= 0.0
  {
    MaxOf(values) - MinOf(values)
  }

  function Clamp(x: real): real {
    if x < 0.0 then 0.0 else if x > 1.0 then 1.0 else x
  }

  /** Neutral when there is nothing to compare with, else the position between
      the least and the greatest value. */
  function SafeNormalize(value: real, values: seq<real>): (n: real)
    ensures 0.0 <= n <= 1.0
  {
    if |values| <= 1 || Range(values) < F64_EPSILON then 0.5
    else Clamp((value - MinOf(values)) / Range(values))
  }

  lemma {:induction false} NormalizeIsMonotone(a: real, b: real, values: seq<real>)
    requires a <= b
    ensures SafeNormalize(a, values) <= SafeNormalize(b, values)
  {
    if |values| > 1 && Range(values) >= F64_EPSILON {
      QuotientIsMonotone(a - MinOf(values), b - MinOf(values), Range(values));
    }
  }

  lemma {:induction false} QuotientIsMonotone(a: real, b: real, r: real)
    requires a <= b && r > 0.0
    ensures a / r <= b / r
  {
    assert (b - a) / r >= 0.0;
    assert b / r == a / r + (b - a) / r;
  }

  // ---- Scores ----

  function Costs(candidates: seq<RawScore>): (r: seq<real>)
    ensures |r| == |candidates| && forall i :: 0 <= i < |r| ==> r[i] == candidates[i].cost
  {
    seq(|candidates|, i requires 0 <= i < |candidates| => candidates[i].cost)
  }

  function Latencies(candidates: seq<RawScore>): (r: seq<real>)
    ensures |r| == |candidates| && forall i :: 0 <= i < |r| ==> r[i] == candidates[i].latencyMs
  {
    seq(|candidates|, i requires 0 <= i < |candidates| => candidates[i].latencyMs)
  }

  /** Cost counts half as much again when little of the budget is left. */
  function BudgetFactor(context: RequestContext): real {
    if context.budgetRemainingRatio < 0.2 then 1.5 else 1.0
  }

  /** Lower is better. */
  function Combined(s: RawScore, costs: seq<real>, latencies: seq<real>, w: ContextWeights, budgetFactor: real): real {
    Times(Times(SafeNormalize(s.cost, costs), w.cost), budgetFactor)
    + Times(SafeNormalize(s.latencyMs, latencies), w.latency)
    + Times(1.0 - s.quality, w.quality)
  }

  function ScoreOf(candidates: seq<RawScore>, i: nat, w: ContextWeights, budgetFactor: real): real
    requires i < |candidates|
  {
    Combined(candidates[i], Costs(candidates), Latencies(candidates), w, budgetFactor)
  }

  /** `i` is the first candidate with the least score. */
  ghost predicate IsFirstBest(candidates: seq<RawScore>, w: ContextWeights, budgetFactor: real, i: nat) {
    && i < |candidates|
    && (forall j :: 0 <= j < |candidates| ==>
          ScoreOf(candidates, i, w, budgetFactor) <= ScoreOf(candidates, j, w, budgetFactor))
    && (forall j :: 0 <= j < i ==>
          ScoreOf(candidates, i, w, budgetFactor) < ScoreOf(candidates, j, w, budgetFactor))
  }

  function Second(e: (string, real)): real {
    e.1
  }

  class CostAuctioneer {
    const config: CostRouterConfig
    const bandit: SlidingWindowUcb
    const candidates: seq<RawScore>

    constructor (config: CostRouterConfig, candidates: seq<RawScore>)
      ensures this.config == config && this.candidates == candidates
      ensures fresh(bandit) && bandit.Valid() && bandit.history == []
      ensures bandit.windowSize == config.slidingWindowSize.GetOr(500)
    {
      this.config := config;
      this.candidates := candidates;
      bandit := new SlidingWindowUcb(config.slidingWindowSize.GetOr(500));
    }

    function ContextWeightsFor(context: RequestContext): ContextWeights {
      var requestType := context.requestType.GetOr("interactive");
      if config.contextWeights.Some? && requestType in config.contextWeights.value then
        config.contextWeights.value[requestType]
      else ContextWeights(0.2, 0.6, 0.2)
    }

    /** `explore` and `pick` are the two random numbers in [0, 1) a call may draw. */
    method SelectBest(context: RequestContext, explore: real, pick: real) returns (r: Result<string, string>)
      requires 0.0 <= explore < 1.0 && 0.0 <= pick < 1.0
      ensures r.Err? <==> |candidates| == 0
      ensures |candidates| > 0 && bandit.TotalRequests() < config.warmupRequests.GetOr(100) ==>
                r == Ok(candidates[0].modelId)
      ensures |candidates| > 0 && bandit.TotalRequests() >= config.warmupRequests.GetOr(100)
              && explore >= config.epsilon.GetOr(0.1) ==>
                exists i: nat :: IsFirstBest(candidates, ContextWeightsFor(context), BudgetFactor(context), i)
                            && r == Ok(candidates[i].modelId)
      ensures |candidates| > 0 && bandit.TotalRequests() >= config.warmupRequests.GetOr(100)
              && explore < config.epsilon.GetOr(0.1) ==>
                exists i: nat :: i < |candidates| && IsPicked(i, pick, |candidates|)
                                 && r == Ok(candidates[i].modelId)
    {
      hide Combined, IsFirstBest, IsPicked;
      if |candidates| == 0 {
        return Err("No candidate models available");
      }
      if bandit.TotalRequests() < config.warmupRequests.GetOr(100) {
        return Ok(candidates[0].modelId);
      }
      var costs, latencies := Costs(candidates), Latencies(candidates);
      var weights := ContextWeightsFor(context);
      var budgetFactor := BudgetFactor(context);
      var scored: seq<(string, real)> := [];
      for i := 0 to |candidates|
        invariant |scored| == i
        invariant forall j :: 0 <= j < i ==>
                                scored[j] == (candidates[j].modelId, ScoreOf(candidates, j, weights, budgetFactor))
      {
        scored := scored + [(candidates[i].modelId, Combined(candidates[i], costs, latencies, weights, budgetFactor))];
      }
      if explore < config.epsilon.GetOr(0.1) {
        var index := RandomIndex(pick, |scored|);
        return Ok(scored[index].0);
      }
      Sorting.SortByHead(scored, Second);
      LeastScoreIsFirstBest(candidates, weights, budgetFactor, scored);
      ghost var first := Sorting.FirstLeast(scored, Second);
      scored := Sorting.SortBy(scored, Second);
      assert IsFirstBest(candidates, weights, budgetFactor, first) && scored[0].0 == candidates[first].modelId;
      return Ok(scored[0].0);
    }

    /** Lower latency gives a higher reward, between 0 and 1. */
    method OnResponse(model: string, latencyMs: nat)
      requires bandit.Valid()
      modifies bandit
      ensures bandit.Valid()
      ensures |bandit.history| == |old(bandit.history)| + 1
      ensures bandit.history[..|old(bandit.history)|] == old(bandit.history)
      ensures bandit.history[|old(bandit.history)|].model == model
      ensures bandit.history[|old(bandit.history)|].reward == Reward(latencyMs)
    {
      bandit.RecordReward(model, Reward(latencyMs));
    }
  }

  function Reward(latencyMs: nat): (r: real)
    ensures 0.0 <= r <= 1.0
    ensures r == 0.0 <==> latencyMs >= 5000
    ensures r == 1.0 <==> latencyMs == 0
    ensures latencyMs <= 5000 ==> r * 5000.0 == 5000.0 - latencyMs as real
  {
    var ratio := latencyMs as real / MAX_LATENCY_MS;
    1.0 - if ratio <= 1.0 then ratio else 1.0
  }

  /** Of `n` equal parts of the interval from 0 to 1, `pick` lies in part `i`. */
  ghost predicate IsPicked(i: nat, pick: real, n: nat) {
    i as real <= Times(pick, n as real) < i as real + 1.0
  }

  method RandomIndex(pick: real, n: nat) returns (index: nat)
    requires 0.0 <= pick < 1.0 && n > 0
    ensures index < n && IsPicked(index, pick, n)
  {
    IndexInRange(pick, n as real);
    var position := pick * n as real;
    var scaled := position.Floor;
    assert scaled as real <= position < n as real;
    index := Min(scaled, n - 1);
  }

  lemma {:induction false} IndexInRange(pick: real, n: real)
    requires 0.0 <= pick < 1.0 && n > 0.0
    ensures 0.0 <= pick * n < n
  {
    assert (1.0 - pick) * n > 0.0;
  }

  lemma {:induction false} LeastScoreIsFirstBest(candidates: seq<RawScore>, w: ContextWeights, budgetFactor: real,
                                                 scored: seq<(string, real)>)
    requires |scored| == |candidates| > 0
    requires forall j :: 0 <= j < |candidates| ==>
                           scored[j] == (candidates[j].modelId, ScoreOf(candidates, j, w, budgetFactor))
    ensures IsFirstBest(candidates, w, budgetFactor, Sorting.FirstLeast(scored, Second))
  {
    hide ScoreOf;
    var first := Sorting.FirstLeast(scored, Second);
    assert forall i :: 0 <= i < |scored| ==> Second(scored[first]) <= Second(scored[i]);
    assert forall i :: 0 <= i < first ==> Second(scored[first]) < Second(scored[i]);
    assert forall i :: 0 <= i < |scored| ==> Second(scored[i]) == ScoreOf(candidates, i, w, budgetFactor);
  }

  // ---- Properties of the choice ----

  ghost predicate Dominates(a: RawScore, b: RawScore) {
    a.cost <= b.cost && a.latencyMs <= b.latencyMs && a.quality > b.quality
  }

  lemma {:induction false} WeightedStrictOrder(a: real, b: real, w: real)
    requires a < b && w > 0.0
    ensures Times(a, w) < Times(b, w)
  {
    PositiveProduct(b - a, w);
    assert (b - a) * w == b * w - a * w;
  }

  lemma {:induction false} DominatingScoresLess(a: RawScore, b: RawScore, costs: seq<real>, latencies: seq<real>,
                                                w: ContextWeights, budgetFactor: real)
    requires w.cost >= 0.0 && w.latency >= 0.0 && w.quality > 0.0 && budgetFactor > 0.0
    requires Dominates(a, b)
    ensures Combined(a, costs, latencies, w, budgetFactor) < Combined(b, costs, latencies, w, budgetFactor)
  {
    hide SafeNormalize, Times;
    NormalizeIsMonotone(a.cost, b.cost, costs);
    NormalizeIsMonotone(a.latencyMs, b.latencyMs, latencies);
    WeightedOrder(SafeNormalize(a.cost, costs), SafeNormalize(b.cost, costs), w.cost);
    WeightedOrder(Times(SafeNormalize(a.cost, costs), w.cost), Times(SafeNormalize(b.cost, costs), w.cost),
                  budgetFactor);
    WeightedOrder(SafeNormalize(a.latencyMs, latencies), SafeNormalize(b.latencyMs, latencies), w.latency);
    WeightedStrictOrder(1.0 - a.quality, 1.0 - b.quality, w.quality);
  }

  /** The chosen candidate is never one that another matches in cost and latency
      and beats in quality. */
  lemma {:induction false} BestIsNotDominated(candidates: seq<RawScore>, context: RequestContext, w: ContextWeights,
                                              i: nat, j: nat)
    requires w.cost >= 0.0 && w.latency >= 0.0 && w.quality > 0.0
    requires IsFirstBest(candidates, w, BudgetFactor(context), i) && j < |candidates|
    ensures !Dominates(candidates[j], candidates[i])
  {
    hide Combined;
    assert ScoreOf(candidates, i, w, BudgetFactor(context)) <= ScoreOf(candidates, j, w, BudgetFactor(context));
    if Dominates(candidates[j], candidates[i]) {
      DominatingScoresLess(candidates[j], candidates[i], Costs(candidates), Latencies(candidates), w,
                           BudgetFactor(context));
      assert false;
    }
  }

  /** The weights are those configured for the type of the request, which is
      interactive unless it says otherwise, if there are any, and else the defaults. */
  lemma {:induction false} WeightsByRequestType(auctioneer: CostAuctioneer, context: RequestContext)
    ensures var configured := auctioneer.config.contextWeights;
            var requestType := if context.requestType.Some? then context.requestType.value else "interactive";
            auctioneer.ContextWeightsFor(context) ==
            if configured.Some? && requestType in configured.value then configured.value[requestType]
            else ContextWeights(0.2, 0.6, 0.2)
  {
  }

  /** A score is the sum of the normalised cost, the normalised latency and what the
      quality lacks, each by its weight; cost counts half as much again below a fifth
      of the budget. */
  lemma {:induction false} ScoreIsWeightedSum(candidates: seq<RawScore>, i: nat, w: ContextWeights,
                                              context: RequestContext)
    requires i < |candidates|
    ensures var c := candidates[i];
            var cost := Times(SafeNormalize(c.cost, Costs(candidates)), w.cost);
            ScoreOf(candidates, i, w, BudgetFactor(context)) ==
            (if context.budgetRemainingRatio < 0.2 then cost + cost / 2.0 else cost)
            + Times(SafeNormalize(c.latencyMs, Latencies(candidates)), w.latency)
            + Times(1.0 - c.quality, w.quality)
  {
    hide SafeNormalize, Times, Costs, Latencies;
    var cost := Times(SafeNormalize(candidates[i].cost, Costs(candidates)), w.cost);
    TimesIsProduct(cost, 1.0);
    TimesIsProduct(cost, 1.5);
  }

  /** Where a value lies between the least and the greatest; neutral without a
      second value or with a range below the resolution of a double at one. */
  lemma {:induction false} NormalizedPosition(value: real, values: seq<real>)
    ensures |values| <= 1 ==> SafeNormalize(value, values) == 0.5
    ensures |values| > 1 && MaxOf(values) - MinOf(values) < 1.0 / 4503599627370496.0 ==>
              SafeNormalize(value, values) == 0.5
    ensures |values| > 1 && MaxOf(values) - MinOf(values) >= 1.0 / 4503599627370496.0 ==>
              && (value <= MinOf(values) ==> SafeNormalize(value, values) == 0.0)
              && (value >= MaxOf(values) ==> SafeNormalize(value, values) == 1.0)
              && (MinOf(values) <= value <= MaxOf(values) ==>
                    Times(SafeNormalize(value, values), MaxOf(values) - MinOf(values)) == value - MinOf(values))
  {
    if |values| > 1 && Range(values) >= F64_EPSILON {
      Position(value - MinOf(values), Range(values));
    }
  }

  lemma {:induction false} Position(x: real, r: real)
    requires r > 0.0
    ensures x <= 0.0 ==> Clamp(x / r) == 0.0
    ensures x >= r ==> Clamp(x / r) == 1.0
    ensures 0.0 <= x <= r ==> Times(Clamp(x / r), r) == x
  {
    var q := x / r;
    assert q * r == x;
    assert q < 0.0 ==> q * r < 0.0;
    assert q > 0.0 ==> q * r > 0.0;
    assert q > 1.0 ==> (q - 1.0) * r > 0.0;
    assert q < 1.0 ==> (1.0 - q) * r > 0.0;
    assert (q - 1.0) * r == x - r && (1.0 - q) * r == r - x;
    assert 0.0 <= x <= r ==> 0.0 <= q <= 1.0;
  }

  /** Scoring with less than a fifth of the budget left never makes the choice dearer. */
  lemma {:induction false} TightBudgetIsNotDearer(candidates: seq<RawScore>, w: ContextWeights, ample: RequestContext,
                                                  tight: RequestContext, i: nat, j: nat)
    requires w.cost > 0.0 && tight.budgetRemainingRatio < 0.2 <= ample.budgetRemainingRatio
    requires IsFirstBest(candidates, w, BudgetFactor(ample), i) && IsFirstBest(candidates, w, BudgetFactor(tight), j)
    ensures SafeNormalize(candidates[j].cost, Costs(candidates)) <= SafeNormalize(candidates[i].cost, Costs(candidates))
  {
    hide SafeNormalize, Times, Costs, Latencies;
    var costs := Costs(candidates);
    var ci, cj := SafeNormalize(candidates[i].cost, costs), SafeNormalize(candidates[j].cost, costs);
    assert ScoreOf(candidates, i, w, 1.0) <= ScoreOf(candidates, j, w, 1.0);
    assert ScoreOf(candidates, j, w, 1.5) <= ScoreOf(candidates, i, w, 1.5);
    TimesIsProduct(Times(ci, w.cost), 1.0);
    TimesIsProduct(Times(ci, w.cost), 1.5);
    TimesIsProduct(Times(cj, w.cost), 1.0);
    TimesIsProduct(Times(cj, w.cost), 1.5);
    assert Times(cj, w.cost) <= Times(ci, w.cost);
    if ci < cj {
      WeightedStrictOrder(ci, cj, w.cost);
      assert false;
    }
  }

  /** A criterion that alone has weight decides: the cheapest, the fastest or the
      best candidate is chosen. */
  lemma {:induction false} SingleCriterionDecides(candidates: seq<RawScore>, w: ContextWeights,
                                                  context: RequestContext, i: nat, j: nat)
    requires IsFirstBest(candidates, w, BudgetFactor(context), i) && j < |candidates|
    ensures w.cost > 0.0 && w.latency == 0.0 && w.quality == 0.0 && Range(Costs(candidates)) >= F64_EPSILON ==>
              candidates[i].cost <= candidates[j].cost
    ensures w.cost == 0.0 && w.latency > 0.0 && w.quality == 0.0 && Range(Latencies(candidates)) >= F64_EPSILON ==>
              candidates[i].latencyMs <= candidates[j].latencyMs
    ensures w.cost == 0.0 && w.latency == 0.0 && w.quality > 0.0 ==>
              candidates[i].quality >= candidates[j].quality
  {
    hide SafeNormalize, Times, Range;
    var costs, latencies, factor := Costs(candidates), Latencies(candidates), BudgetFactor(context);
    assert ScoreOf(candidates, i, w, factor) <= ScoreOf(candidates, j, w, factor);
    NoWeight(w, candidates[i], costs, latencies, factor);
    NoWeight(w, candidates[j], costs, latencies, factor);
    if w.cost > 0.0 && w.latency == 0.0 && w.quality == 0.0 && Range(costs) >= F64_EPSILON
       && candidates[i].cost > candidates[j].cost {
      NormalizeIsStrict(costs, j, i);
      WeightedStrictOrder(SafeNormalize(costs[j], costs), SafeNormalize(costs[i], costs), w.cost);
      WeightedStrictOrder(Times(SafeNormalize(costs[j], costs), w.cost),
                          Times(SafeNormalize(costs[i], costs), w.cost), factor);
      assert false;
    }
    if w.cost == 0.0 && w.latency > 0.0 && w.quality == 0.0 && Range(latencies) >= F64_EPSILON
       && candidates[i].latencyMs > candidates[j].latencyMs {
      NormalizeIsStrict(latencies, j, i);
      WeightedStrictOrder(SafeNormalize(latencies[j], latencies), SafeNormalize(latencies[i], latencies), w.latency);
      assert false;
    }
    if w.cost == 0.0 && w.latency == 0.0 && w.quality > 0.0 && candidates[i].quality < candidates[j].quality {
      WeightedStrictOrder(1.0 - candidates[j].quality, 1.0 - candidates[i].quality, w.quality);
      assert false;
    }
  }

  lemma {:induction false} NoWeight(w: ContextWeights, s: RawScore, costs: seq<real>, latencies: seq<real>,
                                    factor: real)
    ensures w.cost == 0.0 ==> Times(Times(SafeNormalize(s.cost, costs), w.cost), factor) == 0.0
    ensures w.latency == 0.0 ==> Times(SafeNormalize(s.latencyMs, latencies), w.latency) == 0.0
    ensures w.quality == 0.0 ==> Times(1.0 - s.quality, w.quality) == 0.0
  {
    hide SafeNormalize;
  }

  /** With enough range the values themselves are told apart. */
  lemma {:induction false} NormalizeIsStrict(values: seq<real>, j: nat, i: nat)
    requires j < |values| && i < |values| && values[j] < values[i] && Range(values) >= F64_EPSILON
    ensures SafeNormalize(values[j], values) < SafeNormalize(values[i], values)
  {
    var r := Range(values);
    var low, high := values[j] - MinOf(values), values[i] - MinOf(values);
    assert |values| > 1;
    assert 0.0 <= low < high <= r;
    QuotientInUnit(low, r);
    QuotientInUnit(high, r);
    QuotientIsMonotone(low, high, r);
    assert low / r * r == low && high / r * r == high;
  }

  lemma {:induction false} QuotientInUnit(x: real, r: real)
    requires 0.0 <= x <= r && r > 0.0
    ensures 0.0 <= x / r <= 1.0
  {
  }

  function Affine(a: real, x: real, b: real): real {
    Times(a, x) + b
  }

  /** The same costs in other units: scaled by `a` and moved by `b`. */
  function Rescaled(candidates: seq<RawScore>, a: real, b: real): (r: seq<RawScore>)
    ensures |r| == |candidates|
    ensures forall i :: 0 <= i < |r| ==> r[i] == candidates[i].(cost := Affine(a, candidates[i].cost, b))
  {
    seq(|candidates|, i requires 0 <= i < |candidates| => candidates[i].(cost := Affine(a, candidates[i].cost, b)))
  }

  lemma {:induction false} AffineOrder(a: real, x: real, y: real, b: real)
    requires a > 0.0 && x <= y
    ensures Affine(a, x, b) <= Affine(a, y, b)
  {
    assert a * (y - x) >= 0.0;
    assert a * (y - x) == a * y - a * x;
  }

  lemma {:induction false} RescaledBounds(values: seq<real>, scaled: seq<real>, a: real, b: real)
    requires |values| == |scaled| > 0 && a > 0.0
    requires forall i :: 0 <= i < |values| ==> scaled[i] == Affine(a, values[i], b)
    ensures MinOf(scaled) == Affine(a, MinOf(values), b) && MaxOf(scaled) == Affine(a, MaxOf(values), b)
  {
    hide Affine;
    var i :| 0 <= i < |values| && values[i] == MinOf(values);
    var j :| 0 <= j < |scaled| && scaled[j] == MinOf(scaled);
    var k :| 0 <= k < |values| && values[k] == MaxOf(values);
    var l :| 0 <= l < |scaled| && scaled[l] == MaxOf(scaled);
    assert MinOf(values) <= values[j];
    AffineOrder(a, values[i], values[j], b);
    assert values[l] <= MaxOf(values);
    AffineOrder(a, values[l], values[k], b);
  }

  lemma {:induction false} AffineDifference(a: real, x: real, y: real, b: real)
    ensures Affine(a, x, b) - Affine(a, y, b) == Times(a, x - y)
  {
  }

  lemma {:induction false} ScaledQuotient(a: real, x: real, y: real)
    requires a > 0.0 && y > 0.0
    ensures Times(a, y) > 0.0 && Times(a, x) / Times(a, y) == x / y
  {
    PositiveProduct(a, y);
    var q := x / y;
    assert q * y == x;
    assert a * (q * y) == q * (a * y);
    QuotientOf(q, a * y);
  }

  lemma {:induction false} QuotientOf(q: real, d: real)
    requires d != 0.0
    ensures (q * d) / d == q
  {
  }

  /** Both cost ranges count as distinguishable, or neither does. */
  ghost predicate SameResolution(candidates: seq<RawScore>, a: real) {
    |candidates| <= 1 || (Range(Costs(candidates)) < F64_EPSILON <==> Times(a, Range(Costs(candidates))) < F64_EPSILON)
  }

  lemma {:induction false} RescaledCost(candidates: seq<RawScore>, a: real, b: real, i: nat)
    requires a > 0.0 && i < |candidates| && SameResolution(candidates, a)
    ensures SafeNormalize(Rescaled(candidates, a, b)[i].cost, Costs(Rescaled(candidates, a, b))) ==
            SafeNormalize(candidates[i].cost, Costs(candidates))
  {
    hide Times, Affine, MinOf, MaxOf;
    var costs, scaled := Costs(candidates), Costs(Rescaled(candidates, a, b));
    if |candidates| > 1 {
      RescaledBounds(costs, scaled, a, b);
      AffineDifference(a, MaxOf(costs), MinOf(costs), b);
      AffineDifference(a, candidates[i].cost, MinOf(costs), b);
      if Range(costs) >= F64_EPSILON {
        ScaledQuotient(a, candidates[i].cost - MinOf(costs), Range(costs));
      }
    }
  }

  /** The choice does not depend on the unit or origin of the costs, as long as
      their range stays on the same side of the resolution limit. */
  lemma {:induction false} ChoiceIgnoresCostUnit(candidates: seq<RawScore>, a: real, b: real, w: ContextWeights,
                                                 budgetFactor: real, i: nat)
    requires a > 0.0 && SameResolution(candidates, a)
    ensures IsFirstBest(Rescaled(candidates, a, b), w, budgetFactor, i) <==> IsFirstBest(candidates, w, budgetFactor, i)
  {
    hide Times, Affine, SafeNormalize, SameResolution;
    var scaled := Rescaled(candidates, a, b);
    assert Latencies(scaled) == Latencies(candidates);
    forall j | 0 <= j < |candidates|
      ensures ScoreOf(scaled, j, w, budgetFactor) == ScoreOf(candidates, j, w, budgetFactor)
    {
      RescaledCost(candidates, a, b, j);
    }
  }

  /** After any responses, from the first on, every model's mean reward lies
      between 0 and 1, whichever arms had to make room. */
  lemma {:induction false} LearnedMeansAreNormalized(windowSize: nat, states: seq<Arms>, updates: seq<Update>,
                                                     latencies: seq<nat>, i: nat, model: string)
    requires UpdateRun(windowSize, states, updates) && |latencies| == |updates| && i < |states|
    requires forall j :: 0 <= j < |updates| ==> updates[j].reward == Reward(latencies[j])
    ensures 0.0 <= MeanOf(states[i], model) <= 1.0
  {
    RunFollows(windowSize, states, updates, i);
    forall u | u in updates[..i] ensures 0.0 <= u.reward <= 1.0 {
      var j :| 0 <= j < i && updates[j] == u;
    }
    MeansStayInUnitInterval(states[i], windowSize, updates[..i], model);
  }
}
