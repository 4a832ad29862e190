/** In which order a pipeline visits its layers and the provider. */
module PipelineTrace {
  import opened Prelude
  import opened Pipeline

  datatype Visit = Entering(layer: nat) | Calling | Leaving(layer: nat)

  type Log = seq<Visit>

  function TracedLayer<W, Req, Resp>(layer: Layer<W, Req, Resp>, i: nat): Layer<(W, Log), Req, Resp> {
    Layer(layer.name,
          (s: (W, Log), req) =>
            var (w, req1, ok) := layer.onRequest(s.0, req);
            ((w, s.1 + [Entering(i)]), req1, ok),
          (s: (W, Log), req, resp) =>
            var (w, out) := layer.onResponse(s.0, req, resp);
            ((w, s.1 + [Leaving(i)]), out))
  }

  function TracedProvider<W, Req, Resp, Stream>(provider: Provider<W, Req, Resp, Stream>)
    : Provider<(W, Log), Req, Resp, Stream>
  {
    Provider((s: (W, Log), req) => var (w, r) := provider.complete(s.0, req); ((w, s.1 + [Calling]), r),
             (s: (W, Log), req) => var (w, r) := provider.completeStream(s.0, req); ((w, s.1 + [Calling]), r))
  }

  /** The same pipeline, which writes down its visits. */
  function Traced<W, Req, Resp, Stream>(p: Pipeline<W, Req, Resp, Stream>): Pipeline<(W, Log), Req, Resp, Stream> {
    Pipeline(seq(|p.layers|, i requires 0 <= i < |p.layers| => TracedLayer(p.layers[i], i)),
             req => match p.find(req) case None => None case Some(provider) => Some(TracedProvider(provider)),
             p.isStream)
  }

  /** The layers from `from` up to `to`, on the way in. */
  function Inwards(from: nat, to: nat): Log
    requires from <= to
  {
    seq(to - from, i requires 0 <= i < to - from => Entering(from + i))
  }

  /** The layers from `from` down to `to`, on the way out. */
  function Outwards(from: nat, to: nat): Log
    requires to <= from
  {
    seq(from - to, i requires 0 <= i < from - to => Leaving(from - 1 - i))
  }

  /** What is visited from layer `depth` inwards and back, by the result. */
  ghost predicate IsTrace<W, Req, Resp, Stream>(p: Pipeline<W, Req, Resp, Stream>, depth: nat, log: Log,
                                                r: Result<Output<Resp, Stream>, Failure>)
    requires depth <= |p.layers|
  {
    var n := |p.layers|;
    match r
    case Ok(Complete(_)) => log == Inwards(depth, n) + [Calling] + Outwards(n, depth)
    case Ok(Streaming(_)) => log == Inwards(depth, n) + [Calling]
    case Err(NoProvider) => log == Inwards(depth, n)
    case Err(ProviderFailed) => log == Inwards(depth, n) + [Calling]
    case Err(RequestLayer(name)) =>
      exists i :: depth <= i < n && p.layers[i].name == name && log == Inwards(depth, i + 1)
    case Err(ResponseLayer(name)) =>
      exists i :: depth <= i < n && p.layers[i].name == name && log == Inwards(depth, n) + [Calling] + Outwards(n, i)
  }

  lemma {:induction false} TraceFrom<W, Req, Resp, Stream>(p: Pipeline<W, Req, Resp, Stream>, depth: nat, w: W,
                                                           log: Log, req: Req)
    requires depth <= |p.layers|
    ensures var (s, final, r) := Around(Traced(p), depth, (w, log), req);
            && (s.0, final, r) == Around(p, depth, w, req)
            && log <= s.1 && IsTrace(p, depth, s.1[|log|..], r)
    decreases |p.layers| - depth
  {
    var n := |p.layers|;
    if depth == n {
      assert Inwards(depth, n) == [] && Outwards(n, depth) == [];
    } else {
      var (w1, req1, ok) := p.layers[depth].onRequest(w, req);
      var log1 := log + [Entering(depth)];
      if !ok {
        assert log1[|log|..] == Inwards(depth, depth + 1);
      } else {
        TraceFrom(p, depth + 1, w1, log1, req1);
        TraceStep(p, depth, w, log, req);
      }
    }
  }

  /** From a layer that accepts the request. */
  lemma {:induction false} TraceStep<W, Req, Resp, Stream>(p: Pipeline<W, Req, Resp, Stream>, depth: nat, w: W,
                                                           log: Log, req: Req)
    requires depth < |p.layers| && p.layers[depth].onRequest(w, req).2
    requires var (w1, req1, _) := p.layers[depth].onRequest(w, req);
             var (s, final, r) := Around(Traced(p), depth + 1, (w1, log + [Entering(depth)]), req1);
             && (s.0, final, r) == Around(p, depth + 1, w1, req1)
             && log + [Entering(depth)] <= s.1 && IsTrace(p, depth + 1, s.1[|log| + 1..], r)
    ensures var (s, final, r) := Around(Traced(p), depth, (w, log), req);
            && (s.0, final, r) == Around(p, depth, w, req)
            && log <= s.1 && IsTrace(p, depth, s.1[|log|..], r)
  {
    var n := |p.layers|;
    var (w1, req1, _) := p.layers[depth].onRequest(w, req);
    var (s, final, r) := Around(Traced(p), depth + 1, (w1, log + [Entering(depth)]), req1);
    var inner := s.1[|log| + 1..];
    assert s.1[|log|..] == [Entering(depth)] + inner;
    TraceGrows(p, depth, inner, r);
  }

  /** One more layer around: it comes first, and last if its response hook runs. */
  lemma {:induction false} TraceGrows<W, Req, Resp, Stream>(p: Pipeline<W, Req, Resp, Stream>, depth: nat, inner: Log,
                                                            r: Result<Output<Resp, Stream>, Failure>)
    requires depth < |p.layers| && IsTrace(p, depth + 1, inner, r)
    ensures r.Err? || r.value.Streaming? ==> IsTrace(p, depth, [Entering(depth)] + inner, r)
    ensures r.Ok? && r.value.Complete? ==>
              [Entering(depth)] + inner + [Leaving(depth)]
              == Inwards(depth, |p.layers|) + [Calling] + Outwards(|p.layers|, depth)
  {
    var n := |p.layers|;
    forall to | depth + 1 <= to <= n ensures [Entering(depth)] + Inwards(depth + 1, to) == Inwards(depth, to) {}
    assert Outwards(n, depth + 1) + [Leaving(depth)] == Outwards(n, depth);
  }

  /** A pipeline visits its layers in order, then the provider, then its layers in
      reverse order; a failure ends the visits where it happens, a stream ends them
      behind the provider. Writing the visits down changes nothing. */
  lemma {:induction false} VisitsInOrder<W, Req, Resp, Stream>(p: Pipeline<W, Req, Resp, Stream>, w: W, req: Req)
    ensures var (s, final, r) := Around(Traced(p), 0, (w, []), req);
            (s.0, final, r) == Around(p, 0, w, req) && IsTrace(p, 0, s.1, r)
  {
    TraceFrom(p, 0, w, [], req);
    var (s, final, r) := Around(Traced(p), 0, (w, []), req);
    assert s.1[0..] == s.1;
  }

  /** Two layers written out: each sees what the one before it made of the request, and
      of the response on the way out. */
  lemma {:induction false} TwoLayers<W, Req, Resp, Stream>(p: Pipeline<W, Req, Resp, Stream>, w: W, req: Req)
    requires |p.layers| == 2
    ensures var outer, inner := p.layers[0], p.layers[1];
            var (w1, req1, ok1) := outer.onRequest(w, req);
            var (w2, req2, ok2) := inner.onRequest(w1, req1);
            ok1 && ok2 && p.find(req2).Some? && !p.isStream(req2) ==>
              var (w3, answer) := p.find(req2).value.complete(w2, req2);
              answer.Ok? ==>
                var (w4, resp1) := inner.onResponse(w3, req2, answer.value);
                resp1.Ok? ==>
                  var (w5, resp2) := outer.onResponse(w4, req2, resp1.value);
                  Around(p, 0, w, req) ==
                  (w5, req2, if resp2.Ok? then Ok(Complete(resp2.value)) else Err(ResponseLayer(outer.name)))
  {
    var (w1, req1, _) := p.layers[0].onRequest(w, req);
    var (w2, req2, _) := p.layers[1].onRequest(w1, req1);
    var (w3, r) := Call(p, w2, req2);
    assert Around(p, 2, w2, req2) == (w3, req2, r);
    if p.layers[0].onRequest(w, req).2 && p.layers[1].onRequest(w1, req1).2 && r.Ok? && r.value.Complete? {
      var (w4, resp1) := p.layers[1].onResponse(w3, req2, r.value.response);
      assert Around(p, 1, w1, req1) ==
             (w4, req2, if resp1.Ok? then Ok(Complete(resp1.value)) else Err(ResponseLayer(p.layers[1].name)));
    }
  }

  /** Without layers the provider found for the request decides: its answer, its
      stream, or the failure there is. */
  lemma {:induction false} NoLayers<W, Req, Resp, Stream>(p: Pipeline<W, Req, Resp, Stream>, w: W, req: Req)
    requires |p.layers| == 0
    ensures p.find(req).None? ==> Around(p, 0, w, req) == (w, req, Err(NoProvider))
    ensures p.find(req).Some? && p.isStream(req) ==>
              var (w', r) := p.find(req).value.completeStream(w, req);
              Around(p, 0, w, req) == (w', req, if r.Ok? then Ok(Streaming(r.value)) else Err(ProviderFailed))
    ensures p.find(req).Some? && !p.isStream(req) ==>
              var (w', r) := p.find(req).value.complete(w, req);
              Around(p, 0, w, req) == (w', req, if r.Ok? then Ok(Complete(r.value)) else Err(ProviderFailed))
  {
  }
}
