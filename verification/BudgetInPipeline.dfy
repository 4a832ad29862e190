/** The budget manager as a layer of the pipeline: what one request does to the
    counter, whatever the other layers and the provider answer. */
module BudgetInPipeline {
  import opened Prelude
  import opened BudgetManager
  import opened Pipeline

  /** What the budget layer needs to know of requests and responses: how a
      request takes note of the share of the budget that is left, and what a
      response costs. */
  datatype Terms<!Req, !Resp> = Terms(note: (Req, Option<real>) -> Req, cost: Resp -> real)

  /** The budget layer; the world of the pipeline is the budget counter. */
  function BudgetLayer<Req, Resp>(config: BudgetManagerConfig, terms: Terms<Req, Resp>): Layer<nat, Req, Resp> {
    Layer("budget-manager",
          (spend, req) => (spend, terms.note(req, Remaining(spend, config)), !ShouldBlock(spend, config)),
          (spend, req, resp) => (AddMicro(spend, ToMicro(terms.cost(resp))), Ok(resp)))
  }

  /** The layer may fail and may rewrite requests and responses, but leaves the counter alone. */
  ghost predicate IsNeutral<Req(!new), Resp(!new)>(layer: Layer<nat, Req, Resp>) {
    && (forall w, req :: layer.onRequest(w, req).0 == w)
    && (forall w, req, resp :: layer.onResponse(w, req, resp).0 == w)
  }

  ghost predicate HasNeutralProviders<Req(!new), Resp(!new), Stream(!new)>(p: Pipeline<nat, Req, Resp, Stream>) {
    forall req, w :: p.find(req).Some? ==>
                       && p.find(req).value.complete(w, req).0 == w
                       && p.find(req).value.completeStream(w, req).0 == w
  }

  /** The layer at `b` is the budget layer, all others are neutral. */
  ghost predicate HasBudgetAt<Req(!new), Resp(!new), Stream(!new)>(
    p: Pipeline<nat, Req, Resp, Stream>, b: nat, config: BudgetManagerConfig, terms: Terms<Req, Resp>)
  {
    && b < |p.layers| && p.layers[b] == BudgetLayer(config, terms)
    && (forall i :: 0 <= i < |p.layers| && i != b ==> IsNeutral(p.layers[i]))
    && HasNeutralProviders(p)
  }

  /** The request as it reaches layer `b`, if every layer from `depth` up to there accepts it. */
  ghost function Reaching<Req(!new), Resp(!new), Stream(!new)>(
    p: Pipeline<nat, Req, Resp, Stream>, b: nat, depth: nat, w: nat, req: Req): Option<Req>
    requires depth <= b < |p.layers|
    decreases b - depth
  {
    if depth == b then Some(req)
    else
      var (w1, req1, ok) := p.layers[depth].onRequest(w, req);
      if ok then Reaching(p, b, depth + 1, w1, req1) else None
  }

  /** The response that comes back to the budget layer: the complete answer of
      everything inside it, if the request reaches the layer and is admitted. */
  ghost function ResponseAt<Req(!new), Resp(!new), Stream(!new)>(
    p: Pipeline<nat, Req, Resp, Stream>, b: nat, config: BudgetManagerConfig, terms: Terms<Req, Resp>,
    depth: nat, w: nat, req: Req): Option<Resp>
    requires depth <= b < |p.layers|
  {
    match Reaching(p, b, depth, w, req)
    case None => None
    case Some(arrived) =>
      if ShouldBlock(w, config) then None
      else
        var (_, _, inner) := Around(p, b + 1, w, terms.note(arrived, Remaining(w, config)));
        if inner.Ok? && inner.value.Complete? then Some(inner.value.response) else None
  }

  /** The counter after being charged once for the response, if there is one. */
  function Charged<Resp>(w: nat, resp: Option<Resp>, cost: Resp -> real): nat {
    if resp.Some? then AddMicro(w, ToMicro(cost(resp.value))) else w
  }

  /** The failure comes from the response hook of a layer before layer `b`. */
  ghost predicate FailsOutside<Req(!new), Resp(!new), Stream(!new)>(
    p: Pipeline<nat, Req, Resp, Stream>, b: nat, r: Result<Output<Resp, Stream>, Failure>)
    requires b < |p.layers|
  {
    r.Err? && exists i :: 0 <= i < b && r.error == ResponseLayer(p.layers[i].name)
  }

  /** From behind the budget layer inwards, nothing touches the counter. */
  lemma {:induction false} InnerRunIsFree<Req(!new), Resp(!new), Stream(!new)>(
    p: Pipeline<nat, Req, Resp, Stream>, b: nat, config: BudgetManagerConfig, terms: Terms<Req, Resp>,
    depth: nat, w: nat, req: Req)
    requires HasBudgetAt(p, b, config, terms) && b < depth <= |p.layers|
    ensures Around(p, depth, w, req).0 == w
    decreases |p.layers| - depth
  {
    if depth == |p.layers| {
    } else {
      var layer := p.layers[depth];
      assert IsNeutral(layer);
      var (w1, req1, ok) := layer.onRequest(w, req);
      if ok {
        InnerRunIsFree(p, b, config, terms, depth + 1, w1, req1);
      }
    }
  }

  /** What a run does to the counter, and when there is a response to charge for:
      always when the run completes, never when it is blocked or ends in a
      stream, and in a failed run only when a layer before the budget layer
      failed on the way out. */
  ghost predicate IsChargedOnce<Req(!new), Resp(!new), Stream(!new)>(
    p: Pipeline<nat, Req, Resp, Stream>, b: nat, config: BudgetManagerConfig, terms: Terms<Req, Resp>,
    depth: nat, w: nat, req: Req)
    requires depth <= b < |p.layers|
  {
    var (w', _, r) := Around(p, depth, w, req);
    var seen := ResponseAt(p, b, config, terms, depth, w, req);
    && w' == Charged(w, seen, terms.cost)
    && (r.Ok? && r.value.Complete? ==> seen.Some?)
    && (r.Ok? && r.value.Streaming? ==> seen.None?)
    && (ShouldBlock(w, config) ==> r.Err? && seen.None?)
    && (r.Err? && seen.Some? ==> FailsOutside(p, b, r))
  }

  /** The run from the budget layer inwards: it is charged for exactly the
      response it returns, and for nothing when it fails. */
  lemma {:induction false} BudgetRun<Req(!new), Resp(!new), Stream(!new)>(
    p: Pipeline<nat, Req, Resp, Stream>, b: nat, config: BudgetManagerConfig, terms: Terms<Req, Resp>,
    w: nat, req: Req)
    requires HasBudgetAt(p, b, config, terms)
    ensures IsChargedOnce(p, b, config, terms, b, w, req)
    ensures var (w', _, r) := Around(p, b, w, req);
            && (r.Ok? && r.value.Complete? ==> w' == AddMicro(w, ToMicro(terms.cost(r.value.response))))
            && (r.Err? || r.value.Streaming? ==> w' == w)
            && (ShouldBlock(w, config) ==> r == Err(RequestLayer("budget-manager")))
  {
    if !ShouldBlock(w, config) {
      InnerRunIsFree(p, b, config, terms, b + 1, w, terms.note(req, Remaining(w, config)));
    }
  }

  /** In a pipeline of any length the counter is charged exactly once for the very
      response that comes back to the budget layer, and not at all without one. */
  lemma {:induction false} RequestIsChargedOnce<Req(!new), Resp(!new), Stream(!new)>(
    p: Pipeline<nat, Req, Resp, Stream>, b: nat, config: BudgetManagerConfig, terms: Terms<Req, Resp>,
    depth: nat, w: nat, req: Req)
    requires HasBudgetAt(p, b, config, terms) && depth <= b
    ensures IsChargedOnce(p, b, config, terms, depth, w, req)
    decreases b - depth
  {
    if depth == b {
      BudgetRun(p, b, config, terms, w, req);
    } else {
      var layer := p.layers[depth];
      assert IsNeutral(layer);
      var (w1, req1, ok) := layer.onRequest(w, req);
      if ok {
        RequestIsChargedOnce(p, b, config, terms, depth + 1, w1, req1);
      }
    }
  }
}
