/** The gateway's side of a streaming answer: provider chunks become server-sent
    events (section 9.2.6 of the WHATWG HTML Living Standard) for the client. */
module StreamHandler {
  import opened Prelude
  import opened Contracts

  /** One item of the provider's chunk stream. */
  type Item = Result<StreamChunk, string>

  datatype SseEvent =
    | Chunk(role: Option<string>, content: Option<string>, finishReason: Option<string>, usage: Option<TokenUsage>)
    | StreamError(message: string)
    | Done

  function ChunkEvent(chunk: StreamChunk, first: bool): SseEvent {
    Chunk(if first then Some("assistant") else None,
          if chunk.delta == "" then None else Some(chunk.delta),
          if chunk.finished then Some("stop") else None,
          chunk.usage)
  }

  /** What the client receives, and the completion events that are published. */
  datatype Output = Output(events: seq<SseEvent>, completions: seq<TokenUsage>)

  /** The number of chunks delivered: up to the first finishing one, error or end. */
  function Delivered(items: seq<Item>): (n: nat)
    ensures n <= |items|
    ensures forall i :: 0 <= i < n ==> items[i].Ok?
    ensures forall i :: 0 <= i < n - 1 ==> !items[i].value.finished
    ensures n == |items| || items[n].Err? || (n > 0 && items[n - 1].value.finished)
  {
    if |items| == 0 || items[0].Err? then 0
    else if items[0].value.finished then 1
    else 1 + Delivered(items[1..])
  }

  /** The delivered chunks end with a finishing one. */
  predicate Finishes(items: seq<Item>) {
    var n := Delivered(items);
    n > 0 && items[n - 1].value.finished
  }

  predicate Fails(items: seq<Item>) {
    !Finishes(items) && Delivered(items) < |items|
  }

  function Tail(items: seq<Item>): seq<SseEvent> {
    (if Fails(items) then [StreamError("Stream error: " + items[Delivered(items)].error)] else []) + [Done]
  }

  /** One event for each delivered chunk, an error event if the stream broke, and
      the end marker; a completion if the finishing chunk reports its usage. */
  ghost predicate IsOutput(items: seq<Item>, out: Output) {
    var n := Delivered(items);
    && |out.events| >= n
    && (forall i :: 0 <= i < n ==> out.events[i] == ChunkEvent(items[i].value, i == 0))
    && out.events[n..] == Tail(items)
    && out.completions ==
       if Finishes(items) && items[n - 1].value.usage.Some? then [items[n - 1].value.usage.value] else []
  }

  method HandleStream(items: seq<Item>) returns (out: Output)
    ensures IsOutput(items, out)
  {
    var events: seq<SseEvent> := [];
    var completions: seq<TokenUsage> := [];
    var first := true;
    var polled := 0;
    ghost var error: seq<SseEvent> := [];
    while true
      invariant 0 <= polled <= |items|
      invariant first == (polled == 0)
      invariant |events| == polled && completions == []
      invariant forall i :: 0 <= i < polled ==> items[i].Ok? && !items[i].value.finished
      invariant forall i :: 0 <= i < polled ==> events[i] == ChunkEvent(items[i].value, i == 0)
      decreases |items| - polled
    {
      if polled == |items| {
        DeliveredIs(items, polled);
        break;
      }
      var item := items[polled];
      match item {
        case Ok(chunk) =>
          var response := ChunkEvent(chunk, first);
          first := false;
          if chunk.finished && chunk.usage.Some? {
            completions := completions + [chunk.usage.value];
          }
          events := events + [response];
          polled := polled + 1;
          if chunk.finished {
            DeliveredIs(items, polled);
            break;
          }
        case Err(e) =>
          DeliveredIs(items, polled);
          error := [StreamError("Stream error: " + e)];
          events := events + [StreamError("Stream error: " + e)];
          break;
      }
    }
    out := Output(events + [Done], completions);
    assert out.events[Delivered(items)..] == error + [Done];
  }

  lemma {:induction false} DeliveredIs(items: seq<Item>, n: nat)
    requires n <= |items|
    requires forall i :: 0 <= i < n ==> items[i].Ok?
    requires forall i :: 0 <= i < n - 1 ==> !items[i].value.finished
    requires n == |items| || items[n].Err? || (n > 0 && items[n - 1].value.finished)
    ensures Delivered(items) == n
  {
    if n > 0 && !items[0].value.finished {
      DeliveredIs(items[1..], n - 1);
    } else if n > 1 {
      assert false;
    }
  }

  // ---- What the client sees ----

  function Content(e: SseEvent): string {
    match e
    case Chunk(_, Some(content), _, _) => content
    case _ => ""
  }

  /** The text a client assembles from the events. */
  function ClientText(events: seq<SseEvent>): string {
    if |events| == 0 then "" else Content(events[0]) + ClientText(events[1..])
  }

  /** The deltas up to the first finishing chunk, error or end. */
  function Deltas(items: seq<Item>): string {
    if |items| == 0 || items[0].Err? then ""
    else if items[0].value.finished then items[0].value.delta
    else items[0].value.delta + Deltas(items[1..])
  }

  lemma {:induction false} DeltasAreText(items: seq<Item>, events: seq<SseEvent>, first: bool)
    requires |events| >= Delivered(items)
    requires forall i :: 0 <= i < Delivered(items) ==> events[i] == ChunkEvent(items[i].value, first && i == 0)
    requires events[Delivered(items)..] == Tail(items)
    ensures ClientText(events) == Deltas(items)
  {
    if Delivered(items) == 0 {
      assert events == Tail(items);
      TailIsSilent(items);
    } else {
      assert Content(events[0]) == items[0].value.delta;
      if items[0].value.finished {
        assert events[1..] == Tail(items);
        TailIsSilent(items);
        assert items[0].value.delta + "" == items[0].value.delta;
      } else {
        assert events[1..][Delivered(items[1..])..] == events[Delivered(items)..];
        TailOfRest(items);
        forall i | 0 <= i < Delivered(items[1..])
          ensures events[1..][i] == ChunkEvent(items[1..][i].value, false && i == 0)
        {
          assert events[1..][i] == events[i + 1];
        }
        DeltasAreText(items[1..], events[1..], false);
      }
    }
  }

  lemma {:induction false} TailIsSilent(items: seq<Item>)
    ensures ClientText(Tail(items)) == ""
  {
    assert ClientText([Done]) == Content(Done) + ClientText([]);
    if Fails(items) {
      var e := StreamError(items[Delivered(items)].error);
      assert ([e] + [Done])[1..] == [Done];
      assert ClientText([e] + [Done]) == Content(e) + ClientText([Done]);
    }
  }

  lemma {:induction false} TailOfRest(items: seq<Item>)
    requires |items| > 0 && items[0].Ok? && !items[0].value.finished
    ensures Tail(items[1..]) == Tail(items) && Finishes(items[1..]) == Finishes(items)
  {
  }

  /** The client's text is the concatenation of the provider's deltas. */
  lemma {:induction false} ClientTextIsDeltas(items: seq<Item>, out: Output)
    requires IsOutput(items, out)
    ensures ClientText(out.events) == Deltas(items)
  {
    DeltasAreText(items, out.events, true);
  }

  /** The role is on the first chunk only; only the last chunk before the tail
      can carry a finish reason; the end marker comes exactly once, at the end;
      and there is at most one completion. */
  lemma {:induction false} OutputShape(items: seq<Item>, out: Output)
    requires IsOutput(items, out)
    ensures |out.events| > 0 && |out.completions| <= 1
    ensures forall i :: 0 <= i < |out.events| ==> (out.events[i].Done? <==> i == |out.events| - 1)
    ensures forall i :: 0 <= i < |out.events| && out.events[i].Chunk? ==> (out.events[i].role.Some? <==> i == 0)
    ensures forall i :: 0 <= i < |out.events| && out.events[i].Chunk? && out.events[i].finishReason.Some? ==>
                          i == |out.events| - 2
    ensures forall i :: 0 <= i < |out.events| && out.events[i].StreamError? ==> i == |out.events| - 2
    ensures |out.completions| == 1 <==>
            && |out.events| >= 2 && out.events[|out.events| - 2].Chunk?
            && out.events[|out.events| - 2].finishReason.Some? && out.events[|out.events| - 2].usage.Some?
    ensures |out.completions| == 1 ==> out.events[|out.events| - 2].usage == Some(out.completions[0])
  {
    EventsBehindChunks(items, out);
    TailPositions(items, out);
    hide Tail, Delivered;
  }

  /** The events behind the chunks: an error or none, then the end marker. */
  lemma {:induction false} TailPositions(items: seq<Item>, out: Output)
    requires IsOutput(items, out)
    ensures |out.events| == Delivered(items) + if Fails(items) then 2 else 1
    ensures out.events[|out.events| - 1] == Done
    ensures Fails(items) ==> out.events[|out.events| - 2].StreamError?
  {
    var n := Delivered(items);
    var tail := Tail(items);
    hide Delivered;
    assert out.events == out.events[..n] + tail;
    assert out.events[|out.events| - 1] == tail[|tail| - 1];
    if Fails(items) {
      assert out.events[|out.events| - 2] == tail[|tail| - 2];
    }
  }

  lemma {:induction false} FinishReasonShown(items: seq<Item>, out: Output)
    requires IsOutput(items, out)
    ensures (exists e :: e in out.events && e.Chunk? && e.finishReason.Some?) <==> FinalChunk(items).Some?
  {
    var n := Delivered(items);
    EventsBehindChunks(items, out);
    hide Tail;
    if Finishes(items) {
      assert out.events[n - 1] in out.events && out.events[n - 1].finishReason == Some("stop");
    } else {
      forall i | 0 <= i < n ensures !items[i].value.finished {
        if i == n - 1 {
          assert !items[n - 1].value.finished;
        }
      }
    }
  }

  lemma {:induction false} EventsBehindChunks(items: seq<Item>, out: Output)
    requires IsOutput(items, out)
    ensures forall i :: Delivered(items) <= i < |out.events| ==> !out.events[i].Chunk?
  {
    var n := Delivered(items);
    assert forall e :: e in Tail(items) ==> !e.Chunk?;
    forall i | n <= i < |out.events| ensures !out.events[i].Chunk? {
      assert out.events[i] == out.events[n..][i - n];
    }
  }

  /** The chunk that finishes the answer, if one does. */
  function FinalChunk(items: seq<Item>): Option<StreamChunk> {
    if Finishes(items) then Some(items[Delivered(items) - 1].value) else None
  }

  /** One more chunk in front. */
  lemma {:induction false} PrependChunk(chunk: StreamChunk, rest: seq<Item>)
    ensures Deltas([Ok(chunk)] + rest) == if chunk.finished then chunk.delta else chunk.delta + Deltas(rest)
    ensures FinalChunk([Ok(chunk)] + rest) == if chunk.finished then Some(chunk) else FinalChunk(rest)
  {
    assert ([Ok(chunk)] + rest)[1..] == rest;
  }

  lemma {:induction false} NothingDelivered(items: seq<Item>)
    requires |items| == 0 || items[0].Err?
    ensures Deltas(items) == "" && FinalChunk(items) == None
  {
  }

  /** Each chunk event shows its chunk: the text if there is any, the usage, a finish
      reason for the finishing chunk, and the role on the first one. An error event
      shows the error of the item in its place. */
  lemma {:induction false} EventsMirrorItems(items: seq<Item>, out: Output, i: nat)
    requires IsOutput(items, out) && i < |out.events|
    ensures out.events[i].Chunk? ==>
              && i < |items| && items[i].Ok?
              && var chunk := items[i].value;
                 out.events[i] == Chunk(if i == 0 then Some("assistant") else None,
                                        if chunk.delta == "" then None else Some(chunk.delta),
                                        if chunk.finished then Some("stop") else None,
                                        chunk.usage)
    ensures out.events[i].StreamError? ==>
              i < |items| && items[i].Err? && out.events[i].message == "Stream error: " + items[i].error
  {
    var n := Delivered(items);
    if i >= n {
      assert out.events[i] == out.events[n..][i - n] == Tail(items)[i - n];
    }
  }

  /** With a finishing chunk there is no error event, and its usage is published. */
  lemma {:induction false} FinishedOutput(items: seq<Item>, out: Output)
    requires IsOutput(items, out) && FinalChunk(items).Some?
    ensures out.completions == match FinalChunk(items).value.usage
                               case None => []
                               case Some(usage) => [usage]
    ensures forall event :: event in out.events ==> !event.StreamError?
  {
    NoErrorBehind(items, out);
    hide Delivered, Tail;
    forall i | 0 <= i < |out.events| ensures !out.events[i].StreamError? {
      assert i < Delivered(items) ==> out.events[i].Chunk?;
    }
  }

  lemma {:induction false} NoErrorBehind(items: seq<Item>, out: Output)
    requires IsOutput(items, out) && Finishes(items)
    ensures forall i :: Delivered(items) <= i < |out.events| ==> out.events[i] == Done
  {
    var n := Delivered(items);
    assert out.events[n..] == [Done];
    forall i | n <= i < |out.events| ensures out.events[i] == Done {
      assert out.events[i] == out.events[n..][i - n];
    }
  }

  /** The finishing chunk is the last data chunk the client sees. */
  lemma {:induction false} FinalChunkShown(items: seq<Item>, out: Output)
    requires IsOutput(items, out) && FinalChunk(items).Some?
    ensures |out.events| >= 2 && out.events[|out.events| - 2].Chunk?
    ensures out.events[|out.events| - 2].finishReason == Some("stop")
    ensures Content(out.events[|out.events| - 2]) == FinalChunk(items).value.delta
  {
    hide Delivered;
    var n := Delivered(items);
    assert Tail(items) == [Done];
    assert |out.events| == n + |out.events[n..]|;
  }
}
