/** The middleware pipeline: every layer sees the request on the way in and,
    in reverse order, the response on the way out. */
module Pipeline {
  import opened Prelude

  datatype Failure =
    | RequestLayer(name: string)
    | NoProvider
    | ProviderFailed
    | ResponseLayer(name: string)

  /** `W` is everything the layers and the provider can change beside the
      request and the response: counters, caches, logs. A failing call may have
      changed it too. A request hook rewrites the request in place, even when it
      fails; its last result says whether it succeeded. */
  datatype Layer<!W, !Req, !Resp> = Layer(
    name: string,
    onRequest: (W, Req) -> (W, Req, bool),
    onResponse: (W, Req, Resp) -> (W, Result<Resp, ()>))

  datatype Provider<!W, !Req, !Resp, !Stream> = Provider(
    complete: (W, Req) -> (W, Result<Resp, ()>),
    completeStream: (W, Req) -> (W, Result<Stream, ()>))

  datatype Output<Resp, Stream> = Complete(response: Resp) | Streaming(chunks: Stream)

  datatype Pipeline<!W, !Req, !Resp, !Stream> = Pipeline(
    layers: seq<Layer<W, Req, Resp>>,
    find: Req -> Option<Provider<W, Req, Resp, Stream>>,
    isStream: Req -> bool)

  /** The provider call between the two passes over the layers. */
  function Call<W, Req, Resp, Stream>(p: Pipeline<W, Req, Resp, Stream>, w: W, req: Req)
    : (W, Result<Output<Resp, Stream>, Failure>)
  {
    match p.find(req)
    case None => (w, Err(NoProvider))
    case Some(provider) =>
      if p.isStream(req) then
        var (w', r) := provider.completeStream(w, req);
        (w', if r.Ok? then Ok(Streaming(r.value)) else Err(ProviderFailed))
      else
        var (w', r) := provider.complete(w, req);
        (w', if r.Ok? then Ok(Complete(r.value)) else Err(ProviderFailed))
  }

  /** What surrounds the provider, from the outermost layer inwards: a layer's
      request hook, then everything inside it, then its response hook, unless
      something inside failed or the answer is a stream. The final request is
      returned too: the response hooks see that one, and so does the caller. */
  function Around<W, Req, Resp, Stream>(p: Pipeline<W, Req, Resp, Stream>, depth: nat, w: W, req: Req)
    : (W, Req, Result<Output<Resp, Stream>, Failure>)
    requires depth <= |p.layers|
    decreases |p.layers| - depth
  {
    if depth == |p.layers| then
      var (w', r) := Call(p, w, req);
      (w', req, r)
    else
      var layer := p.layers[depth];
      var (w1, req1, ok) := layer.onRequest(w, req);
      if !ok then (w1, req1, Err(RequestLayer(layer.name)))
      else
        var (w2, final, inner) := Around(p, depth + 1, w1, req1);
        if inner.Err? || inner.value.Streaming? then (w2, final, inner)
        else
          var (w3, out) := layer.onResponse(w2, final, inner.value.response);
          (w3, final, if out.Ok? then Ok(Complete(out.value)) else Err(ResponseLayer(layer.name)))
  }

  /** The response hooks of the layers below `depth`, innermost first. */
  function Unwind<W, Req, Resp, Stream>(p: Pipeline<W, Req, Resp, Stream>, depth: nat, w: W, req: Req,
                                        r: Result<Output<Resp, Stream>, Failure>)
    : (W, Result<Output<Resp, Stream>, Failure>)
    requires depth <= |p.layers|
  {
    if depth == 0 || r.Err? || r.value.Streaming? then (w, r)
    else
      var layer := p.layers[depth - 1];
      var (w', out) := layer.onResponse(w, req, r.value.response);
      Unwind(p, depth - 1, w', req,
             if out.Ok? then Ok(Complete(out.value)) else Err(ResponseLayer(layer.name)))
  }

  /** Runs the layers forwards, calls the provider, and runs them backwards. */
  method Execute<W, Req, Resp, Stream>(p: Pipeline<W, Req, Resp, Stream>, world: W, request: Req)
    returns (w: W, req: Req, r: Result<Output<Resp, Stream>, Failure>)
    ensures (w, req, r) == Around(p, 0, world, request)
  {
    w, req := world, request;
    for i := 0 to |p.layers|
      invariant Agrees(p, 0, world, request, i, w, req)
    {
      var step := p.layers[i].onRequest(w, req);
      w, req := step.0, step.1;
      if !step.2 {
        r := Err(RequestLayer(p.layers[i].name));
        return;
      }
    }
    var answer := Call(p, w, req);
    w, r := answer.0, answer.1;
    if r.Err? || r.value.Streaming? {
      return;
    }
    ghost var w0, r0 := w, r;
    var i := |p.layers|;
    while i > 0
      invariant 0 <= i <= |p.layers|
      invariant r.Ok? && r.value.Complete?
      invariant Unwind(p, |p.layers|, w0, req, r0) == Unwind(p, i, w, req, r)
    {
      i := i - 1;
      var step := p.layers[i].onResponse(w, req, r.value.response);
      w := step.0;
      if step.1.Err? {
        r := Err(ResponseLayer(p.layers[i].name));
        return;
      }
      r := Ok(Complete(step.1.value));
    }
  }

  /** The whole run from `depth` is the run from `inner` followed by the
      response hooks in between. */
  ghost predicate Agrees<W, Req, Resp, Stream>(p: Pipeline<W, Req, Resp, Stream>, depth: nat, w: W, req: Req,
                                               inner: nat, w': W, req': Req)
    requires depth <= inner <= |p.layers|
  {
    var (wIn, final, r) := Around(p, inner, w', req');
    var (wOut, rOut) := Unwind(p, inner, wIn, final, r);
    Around(p, depth, w, req) == (wOut, final, rOut)
  }
}
