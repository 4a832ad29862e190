/** The Anthropic provider's line loop: a state machine over event and data lines. */
module AnthropicStream {
  import opened Prelude
  import opened Contracts
  import opened UnicodeText
  import opened StreamHandler
  import opened UpstreamLines

  /** JSON decoding of the two payloads the loop reads: the text of a content
      delta (none when the payload has no delta), and the output tokens of a
      message delta. */
  datatype Decoders = Decoders(
    contentDelta: string -> Option<Option<string>>,
    messageDelta: string -> Option<Option<nat>>)

  datatype LineKind =
    | Blank
    | EventName(name: string)
    | Emit(chunk: StreamChunk)
    | Stop
    | Ignored

  function MessageUsage(outputTokens: Option<nat>): Option<TokenUsage> {
    match outputTokens
    case None => None
    case Some(n) => Some(TokenUsage(0, n, n))
  }

  /** What a data line means after an event line. */
  function ClassifyData(event: string, data: string, d: Decoders): LineKind {
    if event == "content_block_delta" then
      match d.contentDelta(data)
      case Some(Some(text)) => Emit(StreamChunk(text, false, None))
      case _ => Ignored
    else if event == "message_delta" then
      match d.messageDelta(data)
      case Some(outputTokens) => Emit(StreamChunk("", true, MessageUsage(outputTokens)))
      case None => Ignored
    else if event == "message_stop" then Stop
    else Ignored
  }

  function Classify(line: string, event: string, d: Decoders): LineKind {
    var trimmed := Trim(line);
    if trimmed == "" then Blank
    else
      match StripPrefix(trimmed, "event: ")
      case Some(name) => EventName(name)
      case None =>
        match StripPrefix(trimmed, "data: ")
        case Some(data) => ClassifyData(event, data, d)
        case None => Ignored
  }

  /** The event in force after a line: a blank line ends it. */
  function NextEvent(kind: LineKind, event: string): string {
    match kind
    case Blank => ""
    case EventName(name) => name
    case _ => event
  }

  /** The chunks of a sequence of reads, `event` being in force before it. */
  function Chunks(input: seq<Read>, event: string, d: Decoders): seq<Item> {
    if |input| == 0 then []
    else
      match input[0]
      case ReadError(message) => [Err("Stream read error: " + message)]
      case Line(text) =>
        var kind := Classify(text, event, d);
        if kind.Stop? then []
        else
          (if kind.Emit? then [Ok(kind.chunk)] else []) + Chunks(input[1..], NextEvent(kind, event), d)
  }

  method CompleteStream(input: seq<Read>, d: Decoders) returns (items: seq<Item>)
    ensures items == Chunks(input, "", d)
  {
    hide Classify, NextEvent, Chunks;
    items := [];
    var currentEvent := "";
    var i := 0;
    assert input[0..] == input;
    while i < |input|
      invariant 0 <= i <= |input|
      invariant Chunks(input, "", d) == items + Chunks(input[i..], currentEvent, d)
    {
      NextRead(input, i, currentEvent, d);
      match input[i] {
        case ReadError(message) =>
          items := items + [Err("Stream read error: " + message)];
          return;
        case Line(text) =>
          var kind := OnLine(text, currentEvent, d);
          if kind.Stop? {
            return;
          }
          if kind.Emit? {
            items := items + [Ok(kind.chunk)];
          }
          currentEvent := NextEvent(kind, currentEvent);
      }
      i := i + 1;
    }
    NothingRead(input[i..], currentEvent, d);
  }

  lemma {:induction false} NextRead(input: seq<Read>, i: nat, event: string, d: Decoders)
    requires i < |input|
    ensures match input[i]
            case ReadError(message) => Chunks(input[i..], event, d) == [Err("Stream read error: " + message)]
            case Line(text) =>
              var kind := Classify(text, event, d);
              Chunks(input[i..], event, d) ==
              if kind.Stop? then []
              else
                (if kind.Emit? then [Ok(kind.chunk)] else []) + Chunks(input[i + 1..], NextEvent(kind, event), d)
  {
    assert input[i..][1..] == input[i + 1..];
  }

  lemma {:induction false} NothingRead(input: seq<Read>, event: string, d: Decoders)
    requires |input| == 0
    ensures Chunks(input, event, d) == []
  {
  }

  /** What the loop body makes of one line. */
  method OnLine(text: string, currentEvent: string, d: Decoders) returns (kind: LineKind)
    ensures kind == Classify(text, currentEvent, d)
  {
    var line := Trim(text);
    if line == "" {
      return Blank;
    }
    var name := StripPrefix(line, "event: ");
    if name.Some? {
      return EventName(name.value);
    }
    var payload := StripPrefix(line, "data: ");
    if payload.None? {
      return Ignored;
    }
    if currentEvent == "content_block_delta" {
      var delta := d.contentDelta(payload.value);
      if delta.Some? && delta.value.Some? {
        return Emit(StreamChunk(delta.value.value, false, None));
      }
    } else if currentEvent == "message_delta" {
      var delta := d.messageDelta(payload.value);
      if delta.Some? {
        return Emit(StreamChunk("", true, MessageUsage(delta.value)));
      }
    } else if currentEvent == "message_stop" {
      return Stop;
    }
    return Ignored;
  }

  // ---- From the upstream lines to the client ----

  /** The text of the content deltas up to the first message delta, stop, error or end. */
  function UpstreamText(input: seq<Read>, event: string, d: Decoders): string {
    if |input| == 0 || input[0].ReadError? then ""
    else
      var kind := Classify(input[0].text, event, d);
      if kind.Stop? || (kind.Emit? && kind.chunk.finished) then ""
      else (if kind.Emit? then kind.chunk.delta else "") + UpstreamText(input[1..], NextEvent(kind, event), d)
  }

  /** The usage reported by the first message delta, if one comes before any
      stop, error or end. */
  function FinalUsage(input: seq<Read>, event: string, d: Decoders): Option<Option<TokenUsage>> {
    if |input| == 0 || input[0].ReadError? then None
    else
      var kind := Classify(input[0].text, event, d);
      if kind.Stop? then None
      else if kind.Emit? && kind.chunk.finished then Some(kind.chunk.usage)
      else FinalUsage(input[1..], NextEvent(kind, event), d)
  }

  lemma {:induction false} FinishedHasNoText(line: string, event: string, d: Decoders)
    ensures Classify(line, event, d).Emit? && Classify(line, event, d).chunk.finished ==>
              Classify(line, event, d).chunk.delta == ""
  {
  }

  function UsageOf(chunk: Option<StreamChunk>): Option<Option<TokenUsage>> {
    match chunk
    case None => None
    case Some(c) => Some(c.usage)
  }

  lemma {:induction false} ChunksCarryText(input: seq<Read>, event: string, d: Decoders)
    ensures Deltas(Chunks(input, event, d)) == UpstreamText(input, event, d)
    ensures UsageOf(FinalChunk(Chunks(input, event, d))) == FinalUsage(input, event, d)
  {
    hide Classify, Deltas, FinalChunk, NextEvent;
    if |input| == 0 || input[0].ReadError? || Classify(input[0].text, event, d).Stop? {
      NothingDelivered(Chunks(input, event, d));
    } else {
      var kind := Classify(input[0].text, event, d);
      var next := NextEvent(kind, event);
      ChunksCarryText(input[1..], next, d);
      if kind.Emit? {
        FinishedHasNoText(input[0].text, event, d);
        PrependChunk(kind.chunk, Chunks(input[1..], next, d));
      } else {
        assert Chunks(input, event, d) == [] + Chunks(input[1..], next, d) == Chunks(input[1..], next, d);
        assert UpstreamText(input, event, d) == "" + UpstreamText(input[1..], next, d);
      }
    }
  }

  /** Whatever the upstream sends, the client receives exactly its text, sees a
      finish reason exactly when a message delta arrives, and one completion is
      published exactly when that message delta reports its tokens. */
  lemma {:induction false} ClientReceivesUpstream(input: seq<Read>, d: Decoders, out: Output)
    requires IsOutput(Chunks(input, "", d), out)
    ensures ClientText(out.events) == UpstreamText(input, "", d)
    ensures (exists e :: e in out.events && e.Chunk? && e.finishReason.Some?) <==> FinalUsage(input, "", d).Some?
    ensures out.completions ==
            match FinalUsage(input, "", d)
            case Some(Some(usage)) => [usage]
            case _ => []
  {
    var items := Chunks(input, "", d);
    ClientTextIsDeltas(items, out);
    ChunksCarryText(input, "", d);
    FinishReasonShown(items, out);
  }

  // ---- An answer as the provider writes it ----

  /** JSON encoding of the two payloads. */
  datatype Encoders = Encoders(contentDelta: string -> string, messageDelta: Option<nat> -> string)

  /** Decoding undoes encoding, and an encoded payload can be written on a line. */
  ghost predicate Inverse(e: Encoders, d: Decoders) {
    && (forall text :: IsVisible(e.contentDelta(text)) && d.contentDelta(e.contentDelta(text)) == Some(Some(text)))
    && (forall n :: IsVisible(e.messageDelta(n)) && d.messageDelta(e.messageDelta(n)) == Some(n))
  }

  /** One server-sent event: its name, its data and a blank line, each with a line end. */
  function Wire(event: string, data: string, eol: string): seq<Read> {
    [Line("event: " + event + eol), Line("data: " + data + eol), Line(eol)]
  }

  /** The same event as text. */
  function WireText(event: string, data: string, eol: string): string {
    "event: " + event + eol + ("data: " + data + eol + eol)
  }

  lemma {:induction false} EventLines(event: string, data: string, eol: string, rest: string)
    requires IsVisible(event) && IsVisible(data) && IsLineEnd(eol)
    ensures Lines(WireText(event, data, eol) + rest) == Wire(event, data, eol) + Lines(rest)
  {
    hide Lines, IsLineEnd;
    var name, payload := "event: " + event, "data: " + data;
    var afterData := eol + rest;
    var afterName := payload + eol + afterData;
    assert WireText(event, data, eol) + rest == name + eol + afterName;
    FirstLine(name, eol, afterName);
    FirstLine(payload, eol, afterData);
    FirstLine("", eol, rest);
    assert "" + eol + rest == afterData && "" + eol == eol;
  }

  lemma {:induction false} WireLines(event: string, data: string, eol: string, before: string, d: Decoders)
    requires IsVisible(event) && IsVisible(data) && IsLineEnd(eol)
    ensures Classify("event: " + event + eol, before, d) == EventName(event)
    ensures Classify("data: " + data + eol, event, d) == ClassifyData(event, data, d)
    ensures Classify(eol, event, d) == Blank
  {
    hide ClassifyData;
    assert IsBlank(eol);
    TrimLine("event: " + event, eol);
    TrimLine("data: " + data, eol);
    TrimBlank(eol);
    assert ("event: " + event)[7..] == event;
    assert ("data: " + data)[6..] == data;
    assert ("data: " + data)[0] != "event: "[0];
  }

  lemma {:induction false} EventRead(event: string, data: string, eol: string, rest: seq<Read>, before: string,
                                     d: Decoders)
    requires IsVisible(event) && IsVisible(data) && IsLineEnd(eol)
    ensures Chunks(Wire(event, data, eol) + rest, before, d) ==
            match ClassifyData(event, data, d)
            case Stop => []
            case Emit(chunk) => [Ok(chunk)] + Chunks(rest, "", d)
            case _ => Chunks(rest, "", d)
  {
    hide Classify, ClassifyData, IsVisible;
    WireLines(event, data, eol, before, d);
    var all := Wire(event, data, eol) + rest;
    var kind := ClassifyData(event, data, d);
    DataIsData(event, data, d);
    assert all[1..][1..][1..] == rest;
    assert Chunks(all, before, d) == Chunks(all[1..], event, d);
    if !kind.Stop? {
      assert Chunks(all[1..][1..], event, d) == Chunks(rest, "", d);
    }
  }

  /** Whatever event was in force before, an event on the wire contributes: the text
      of a content delta, or nothing without one; the end and the tokens of a message
      delta; the end of the stream for a stop; nothing if the payload cannot be
      decoded; and nothing for any other event. It leaves no event in force. */
  lemma {:induction false} EventArrives(event: string, data: string, eol: string, rest: seq<Read>, before: string,
                                        d: Decoders)
    requires IsVisible(event) && IsVisible(data) && IsLineEnd(eol)
    ensures event == "content_block_delta" ==>
              Chunks(Wire(event, data, eol) + rest, before, d) ==
              match d.contentDelta(data)
              case Some(Some(text)) => [Ok(StreamChunk(text, false, None))] + Chunks(rest, "", d)
              case Some(None) => Chunks(rest, "", d)
              case None => Chunks(rest, "", d)
    ensures event == "message_delta" ==>
              Chunks(Wire(event, data, eol) + rest, before, d) ==
              match d.messageDelta(data)
              case Some(Some(n)) => [Ok(StreamChunk("", true, Some(TokenUsage(0, n, n))))] + Chunks(rest, "", d)
              case Some(None) => [Ok(StreamChunk("", true, None))] + Chunks(rest, "", d)
              case None => Chunks(rest, "", d)
    ensures event == "message_stop" ==> Chunks(Wire(event, data, eol) + rest, before, d) == []
    ensures event != "content_block_delta" && event != "message_delta" && event != "message_stop" ==>
              Chunks(Wire(event, data, eol) + rest, before, d) == Chunks(rest, "", d)
  {
    hide Chunks, Wire;
    EventRead(event, data, eol, rest, before, d);
  }

  /** A failed read ends the stream with its error. */
  lemma {:induction false} ErrorArrives(message: string, rest: seq<Read>, before: string, d: Decoders)
    ensures Chunks([ReadError(message)] + rest, before, d) == [Err("Stream read error: " + message)]
  {
  }

  /** The line is neither blank nor an event or data line. */
  predicate IsOther(line: string) {
    && IsVisible(line) && !IsWhitespace(line[0])
    && !("event: " <= line) && !("data: " <= line)
  }

  /** Such a line contributes nothing, and the event in force stays in force. */
  lemma {:induction false} OtherLineIsIgnored(line: string, eol: string, rest: seq<Read>, before: string, d: Decoders)
    requires IsOther(line) && IsLineEnd(eol)
    ensures Chunks([Line(line + eol)] + rest, before, d) == Chunks(rest, before, d)
  {
    assert IsBlank(eol);
    TrimLine(line, eol);
    assert ([Line(line + eol)] + rest)[1..] == rest;
  }

  lemma {:induction false} DataIsData(event: string, data: string, d: Decoders)
    ensures !ClassifyData(event, data, d).Blank? && !ClassifyData(event, data, d).EventName?
  {
  }

  /** A part of an answer: a text delta, some other event, or a line of another kind. */
  datatype Piece = Delta(text: string) | Event(name: string, data: string) | Other(line: string)

  /** The piece says nothing to the client: its event has another name, or its
      payload cannot be decoded or holds no delta. */
  ghost predicate IsSilent(piece: Piece, d: Decoders) {
    match piece
    case Delta(_) => false
    case Event(name, data) =>
      && IsVisible(name) && IsVisible(data) && name != "message_stop"
      && (name == "content_block_delta" ==> d.contentDelta(data) == None || d.contentDelta(data) == Some(None))
      && (name == "message_delta" ==> d.messageDelta(data) == None)
    case Other(line) => IsOther(line)
  }

  ghost predicate AllDeltasOrSilent(pieces: seq<Piece>, d: Decoders) {
    forall i :: 0 <= i < |pieces| ==> pieces[i].Delta? || IsSilent(pieces[i], d)
  }

  function PieceText(piece: Piece, e: Encoders, eol: string): string {
    match piece
    case Delta(text) => WireText("content_block_delta", e.contentDelta(text), eol)
    case Event(name, data) => WireText(name, data, eol)
    case Other(line) => line + eol
  }

  /** An answer: its pieces, the message delta with the tokens, the stop, and
      whatever comes behind that. */
  function AnswerText(pieces: seq<Piece>, tokens: Option<nat>, rest: string, e: Encoders, eol: string): string {
    if |pieces| == 0 then
      WireText("message_delta", e.messageDelta(tokens), eol) + (WireText("message_stop", "{}", eol) + rest)
    else PieceText(pieces[0], e, eol) + AnswerText(pieces[1..], tokens, rest, e, eol)
  }

  /** The text of the answer: that of its deltas. */
  function AnswerContent(pieces: seq<Piece>): string {
    if |pieces| == 0 then ""
    else (if pieces[0].Delta? then pieces[0].text else "") + AnswerContent(pieces[1..])
  }

  function AnswerChunks(pieces: seq<Piece>, tokens: Option<nat>): seq<Item> {
    if |pieces| == 0 then
      var usage := if tokens.Some? then Some(TokenUsage(0, tokens.value, tokens.value)) else None;
      [Ok(StreamChunk("", true, usage))]
    else
      (if pieces[0].Delta? then [Ok(StreamChunk(pieces[0].text, false, None))] else [])
      + AnswerChunks(pieces[1..], tokens)
  }

  lemma {:induction false} PieceArrives(piece: Piece, e: Encoders, eol: string, d: Decoders, rest: string)
    requires Inverse(e, d) && IsLineEnd(eol) && (piece.Delta? || IsSilent(piece, d))
    ensures Chunks(Lines(PieceText(piece, e, eol) + rest), "", d) ==
            (if piece.Delta? then [Ok(StreamChunk(piece.text, false, None))] else []) + Chunks(Lines(rest), "", d)
  {
    hide Chunks, Lines, Wire, WireText, IsLineEnd;
    match piece
    case Delta(text) =>
      EventLines("content_block_delta", e.contentDelta(text), eol, rest);
      EventArrives("content_block_delta", e.contentDelta(text), eol, Lines(rest), "", d);
    case Event(name, data) =>
      EventLines(name, data, eol, rest);
      EventArrives(name, data, eol, Lines(rest), "", d);
    case Other(line) =>
      FirstLine(line, eol, rest);
      OtherLineIsIgnored(line, eol, Lines(rest), "", d);
  }

  lemma {:induction false} ChunksOfAnswer(pieces: seq<Piece>, tokens: Option<nat>, rest: string, e: Encoders,
                                          eol: string, d: Decoders)
    requires Inverse(e, d) && IsLineEnd(eol) && AllDeltasOrSilent(pieces, d)
    ensures Chunks(Lines(AnswerText(pieces, tokens, rest, e, eol)), "", d) == AnswerChunks(pieces, tokens)
  {
    hide Chunks, Lines, Wire, WireText, PieceText, IsLineEnd, IsSilent;
    if |pieces| == 0 {
      var stop := WireText("message_stop", "{}", eol) + rest;
      EventLines("message_delta", e.messageDelta(tokens), eol, stop);
      EventLines("message_stop", "{}", eol, rest);
      EventArrives("message_delta", e.messageDelta(tokens), eol, Lines(stop), "", d);
      EventArrives("message_stop", "{}", eol, Lines(rest), "", d);
    } else {
      PieceArrives(pieces[0], e, eol, d, AnswerText(pieces[1..], tokens, rest, e, eol));
      ChunksOfAnswer(pieces[1..], tokens, rest, e, eol, d);
    }
  }

  lemma {:induction false} AnswerCarriesText(pieces: seq<Piece>, tokens: Option<nat>)
    ensures Deltas(AnswerChunks(pieces, tokens)) == AnswerContent(pieces)
    ensures FinalChunk(AnswerChunks(pieces, tokens)) == Some(AnswerChunks([], tokens)[0].value)
  {
    hide Deltas, FinalChunk;
    if |pieces| == 0 {
      var last := AnswerChunks([], tokens)[0].value;
      PrependChunk(last, []);
      assert [Ok(last)] + [] == AnswerChunks(pieces, tokens);
    } else {
      AnswerCarriesText(pieces[1..], tokens);
      if pieces[0].Delta? {
        PrependChunk(StreamChunk(pieces[0].text, false, None), AnswerChunks(pieces[1..], tokens));
      } else {
        assert AnswerChunks(pieces, tokens) == [] + AnswerChunks(pieces[1..], tokens);
        assert [] + AnswerChunks(pieces[1..], tokens) == AnswerChunks(pieces[1..], tokens);
        assert AnswerContent(pieces) == "" + AnswerContent(pieces[1..]);
      }
    }
  }

  /** Round trip: an answer written as one text of server-sent events, with either line
      end and with silent events and lines anywhere in between, split at its newlines,
      read by the provider loop and sent on by the gateway, gives the client exactly
      the text of its deltas, and publishes its tokens if it reports them. */
  lemma {:induction false} AnswerRoundTrip(pieces: seq<Piece>, tokens: Option<nat>, rest: string, e: Encoders,
                                           eol: string, d: Decoders, out: Output)
    requires Inverse(e, d) && IsLineEnd(eol) && AllDeltasOrSilent(pieces, d)
    requires IsOutput(Chunks(Lines(AnswerText(pieces, tokens, rest, e, eol)), "", d), out)
    ensures ClientText(out.events) == AnswerContent(pieces)
    ensures out.completions == match tokens
                               case None => []
                               case Some(n) => [TokenUsage(0, n, n)]
    ensures forall event :: event in out.events ==> !event.StreamError?
  {
    hide Inverse, IsLineEnd, Chunks, AnswerText, IsOutput, FinalChunk, AllDeltasOrSilent;
    var items := AnswerChunks(pieces, tokens);
    ChunksOfAnswer(pieces, tokens, rest, e, eol, d);
    AnswerCarriesText(pieces, tokens);
    ClientTextIsDeltas(items, out);
    FinishedOutput(items, out);
  }
}
