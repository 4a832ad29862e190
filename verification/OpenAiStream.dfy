/** The OpenAI provider's line loop: upstream lines become chunks. */
module OpenAiStream {
  import opened Prelude
  import opened Contracts
  import opened UnicodeText
  import opened StreamHandler
  import opened UpstreamLines

  /** A decoded data payload: the delta of the first choice, and whether that
      choice names a finish reason. */
  datatype Payload = Payload(delta: string, finished: bool)

  /** JSON decoding is a parameter; it fails on what it cannot decode. */
  type Decoder = string -> Option<Payload>

  datatype LineKind = Skip | Terminator | Data(chunk: StreamChunk)

  /** What a line contributes: blank lines, comments and undecodable data nothing. */
  function Classify(line: string, decode: Decoder): LineKind {
    var trimmed := Trim(line);
    if trimmed == "" || ":" <= trimmed then Skip
    else
      match StripPrefix(trimmed, "data: ")
      case None => Skip
      case Some(data) =>
        if data == "[DONE]" then Terminator
        else
          match decode(data)
          case None => Skip
          case Some(p) => Data(StreamChunk(p.delta, p.finished, None))
  }

  /** The chunks of a sequence of reads. */
  function Chunks(input: seq<Read>, decode: Decoder): seq<Item> {
    if |input| == 0 then []
    else
      match input[0]
      case ReadError(message) => [Err("Stream read error: " + message)]
      case Line(text) =>
        match Classify(text, decode)
        case Skip => Chunks(input[1..], decode)
        case Terminator => [Ok(StreamChunk("", true, None))]
        case Data(chunk) => [Ok(chunk)] + Chunks(input[1..], decode)
  }

  method CompleteStream(input: seq<Read>, decode: Decoder) returns (items: seq<Item>)
    ensures items == Chunks(input, decode)
  {
    items := [];
    var i := 0;
    while i < |input|
      invariant 0 <= i <= |input|
      invariant Chunks(input, decode) == items + Chunks(input[i..], decode)
    {
      assert input[i..][1..] == input[i + 1..];
      match input[i] {
        case ReadError(message) =>
          items := items + [Err("Stream read error: " + message)];
          return;
        case Line(text) =>
          var line := Trim(text);
          i := i + 1;
          if line == "" || ":" <= line {
            continue;
          }
          var payload := StripPrefix(line, "data: ");
          if payload.Some? {
            var data := payload.value;
            if data == "[DONE]" {
              items := items + [Ok(StreamChunk("", true, None))];
              return;
            }
            var decoded := decode(data);
            if decoded.Some? {
              items := items + [Ok(StreamChunk(decoded.value.delta, decoded.value.finished, None))];
            }
          }
      }
    }
  }

  // ---- From the upstream lines to the client ----

  /** The text the upstream sends: the deltas of its data lines, up to and with
      the first that names a finish reason, or to the terminator, error or end. */
  function UpstreamText(input: seq<Read>, decode: Decoder): string {
    if |input| == 0 || input[0].ReadError? then ""
    else
      match Classify(input[0].text, decode)
      case Skip => UpstreamText(input[1..], decode)
      case Terminator => ""
      case Data(chunk) => if chunk.finished then chunk.delta else chunk.delta + UpstreamText(input[1..], decode)
  }

  /** The upstream ends properly: a finish reason or the terminator comes before
      any error and before the end. */
  predicate Concludes(input: seq<Read>, decode: Decoder) {
    |input| > 0 && input[0].Line? &&
    match Classify(input[0].text, decode)
    case Skip => Concludes(input[1..], decode)
    case Terminator => true
    case Data(chunk) => chunk.finished || Concludes(input[1..], decode)
  }

  lemma {:induction false} ChunksCarryText(input: seq<Read>, decode: Decoder)
    ensures Deltas(Chunks(input, decode)) == UpstreamText(input, decode)
    ensures FinalChunk(Chunks(input, decode)).Some? <==> Concludes(input, decode)
    ensures FinalChunk(Chunks(input, decode)).Some? ==> FinalChunk(Chunks(input, decode)).value.usage == None
  {
    hide Classify, Deltas, FinalChunk;
    if |input| == 0 || input[0].ReadError? {
      NothingDelivered(Chunks(input, decode));
    } else {
      match Classify(input[0].text, decode)
      case Skip => ChunksCarryText(input[1..], decode);
      case Terminator =>
        PrependChunk(StreamChunk("", true, None), []);
        assert [Ok(StreamChunk("", true, None))] + [] == Chunks(input, decode);
      case Data(chunk) =>
        ChunksCarryText(input[1..], decode);
        PrependChunk(chunk, Chunks(input[1..], decode));
        NoUsage(input[0].text, decode);
    }
  }

  lemma {:induction false} NoUsage(line: string, decode: Decoder)
    ensures Classify(line, decode).Data? ==> Classify(line, decode).chunk.usage == None
  {
  }

  /** Whatever the upstream sends, the client receives exactly its text, sees a
      finish reason exactly when the upstream concludes, and no completion event
      is ever published, because no chunk reports usage. */
  lemma {:induction false} ClientReceivesUpstream(input: seq<Read>, decode: Decoder, out: Output)
    requires IsOutput(Chunks(input, decode), out)
    ensures ClientText(out.events) == UpstreamText(input, decode)
    ensures (exists e :: e in out.events && e.Chunk? && e.finishReason.Some?) <==> Concludes(input, decode)
    ensures out.completions == []
  {
    var items := Chunks(input, decode);
    ClientTextIsDeltas(items, out);
    ChunksCarryText(input, decode);
    FinishReasonShown(items, out);
  }

  // ---- One line ----

  /** The line is neither blank nor a comment nor a data line. */
  predicate IsOther(line: string) {
    IsVisible(line) && !IsWhitespace(line[0]) && line[0] != ':' && !("data: " <= line)
  }

  /** A data line contributes its payload's delta, finished if and only if the payload
      names a finish reason; nothing if it cannot be decoded; the end of the stream
      for the terminator. */
  lemma {:induction false} DataArrives(data: string, eol: string, rest: seq<Read>, decode: Decoder)
    requires IsVisible(data) && IsLineEnd(eol)
    ensures data == "[DONE]" ==>
              Chunks([Line("data: " + data + eol)] + rest, decode) == [Ok(StreamChunk("", true, None))]
    ensures data != "[DONE]" ==>
              Chunks([Line("data: " + data + eol)] + rest, decode) ==
              match decode(data)
              case Some(Payload(delta, true)) => [Ok(StreamChunk(delta, true, None))] + Chunks(rest, decode)
              case Some(Payload(delta, false)) => [Ok(StreamChunk(delta, false, None))] + Chunks(rest, decode)
              case None => Chunks(rest, decode)
  {
    TrimLine("data: " + data, eol);
    assert ("data: " + data)[6..] == data;
    assert ("data: " + data)[0] != ':';
    assert ([Line("data: " + data + eol)] + rest)[1..] == rest;
  }

  /** A failed read ends the stream with its error. */
  lemma {:induction false} ErrorArrives(message: string, rest: seq<Read>, decode: Decoder)
    ensures Chunks([ReadError(message)] + rest, decode) == [Err("Stream read error: " + message)]
  {
  }

  /** Blank lines, comments and lines of another kind contribute nothing. */
  lemma {:induction false} SilentLineIsIgnored(line: string, eol: string, rest: seq<Read>, decode: Decoder)
    requires line == "" || (IsVisible(line) && line[0] == ':') || IsOther(line)
    requires IsLineEnd(eol)
    ensures Chunks([Line(line + eol)] + rest, decode) == Chunks(rest, decode)
  {
    if line == "" {
      TrimBlank(eol);
      assert "" + eol == eol;
    } else {
      TrimLine(line, eol);
    }
    assert ([Line(line + eol)] + rest)[1..] == rest;
  }

  // ---- An answer as the provider writes it ----

  /** A line of an answer: a text delta, an undecodable data line, or a silent line. */
  datatype Piece = Delta(text: string) | Garbled(data: string) | Silent(line: string)

  /** How an answer ends: a delta with a finish reason, or the terminator. */
  datatype Ending = Finish(text: string) | Terminate

  /** Decoding undoes encoding, and an encoded payload can be written on a line. */
  ghost predicate Inverse(encode: Payload -> string, decode: Decoder) {
    forall p :: IsVisible(encode(p)) && encode(p) != "[DONE]" && decode(encode(p)) == Some(p)
  }

  ghost predicate IsWritable(piece: Piece, decode: Decoder) {
    match piece
    case Delta(_) => true
    case Garbled(data) => IsVisible(data) && data != "[DONE]" && decode(data) == None
    case Silent(line) => line == "" || (IsVisible(line) && line[0] == ':') || IsOther(line)
  }

  ghost predicate AllWritable(pieces: seq<Piece>, decode: Decoder) {
    forall i :: 0 <= i < |pieces| ==> IsWritable(pieces[i], decode)
  }

  /** The line without its end. */
  function PieceLine(piece: Piece, encode: Payload -> string): string {
    match piece
    case Delta(text) => "data: " + encode(Payload(text, false))
    case Garbled(data) => "data: " + data
    case Silent(line) => line
  }

  function EndingLine(ending: Ending, encode: Payload -> string): string {
    match ending
    case Finish(text) => "data: " + encode(Payload(text, true))
    case Terminate => "data: [DONE]"
  }

  /** An answer: its lines, its ending, and whatever comes behind that. */
  function AnswerText(pieces: seq<Piece>, ending: Ending, rest: string, encode: Payload -> string,
                      eol: string): string {
    if |pieces| == 0 then EndingLine(ending, encode) + eol + rest
    else PieceLine(pieces[0], encode) + eol + AnswerText(pieces[1..], ending, rest, encode, eol)
  }

  /** The text of the answer: that of its deltas. */
  function AnswerContent(pieces: seq<Piece>, ending: Ending): string {
    if |pieces| == 0 then (if ending.Finish? then ending.text else "")
    else (if pieces[0].Delta? then pieces[0].text else "") + AnswerContent(pieces[1..], ending)
  }

  lemma {:induction false} PieceArrives(piece: Piece, encode: Payload -> string, eol: string, decode: Decoder,
                                        rest: string)
    requires Inverse(encode, decode) && IsLineEnd(eol) && IsWritable(piece, decode)
    ensures Chunks(Lines(PieceLine(piece, encode) + eol + rest), decode) ==
            (if piece.Delta? then [Ok(StreamChunk(piece.text, false, None))] else []) + Chunks(Lines(rest), decode)
  {
    hide Chunks, Lines, IsLineEnd;
    FirstLine(PieceLine(piece, encode), eol, rest);
    match piece
    case Delta(text) => DataArrives(encode(Payload(text, false)), eol, Lines(rest), decode);
    case Garbled(data) => DataArrives(data, eol, Lines(rest), decode);
    case Silent(line) => SilentLineIsIgnored(line, eol, Lines(rest), decode);
  }

  /** After the ending the handler listens no more, whatever still comes. */
  lemma {:induction false} EndingArrives(ending: Ending, encode: Payload -> string, eol: string, decode: Decoder,
                                         rest: string)
    requires Inverse(encode, decode) && IsLineEnd(eol)
    ensures var items := Chunks(Lines(EndingLine(ending, encode) + eol + rest), decode);
            && Deltas(items) == (if ending.Finish? then ending.text else "")
            && FinalChunk(items) == Some(StreamChunk(if ending.Finish? then ending.text else "", true, None))
  {
    hide Chunks, Lines, IsLineEnd, Deltas, FinalChunk;
    FirstLine(EndingLine(ending, encode), eol, rest);
    match ending
    case Finish(text) =>
      DataArrives(encode(Payload(text, true)), eol, Lines(rest), decode);
      PrependChunk(StreamChunk(text, true, None), Chunks(Lines(rest), decode));
    case Terminate =>
      assert "data: [DONE]" == "data: " + "[DONE]";
      DataArrives("[DONE]", eol, Lines(rest), decode);
      PrependChunk(StreamChunk("", true, None), []);
      var last: seq<Item> := [Ok(StreamChunk("", true, None))];
      assert last + [] == last;
  }

  lemma {:induction false} AnswerArrives(pieces: seq<Piece>, ending: Ending, rest: string, encode: Payload -> string,
                                         eol: string, decode: Decoder)
    requires Inverse(encode, decode) && IsLineEnd(eol) && AllWritable(pieces, decode)
    ensures var items := Chunks(Lines(AnswerText(pieces, ending, rest, encode, eol)), decode);
            && Deltas(items) == AnswerContent(pieces, ending)
            && FinalChunk(items) == Some(StreamChunk(if ending.Finish? then ending.text else "", true, None))
  {
    hide Chunks, Lines, IsLineEnd, Deltas, FinalChunk, Inverse, IsWritable, PieceLine, EndingLine;
    if |pieces| == 0 {
      EndingArrives(ending, encode, eol, decode, rest);
    } else {
      var more := AnswerText(pieces[1..], ending, rest, encode, eol);
      AnswerArrives(pieces[1..], ending, rest, encode, eol, decode);
      PieceArrives(pieces[0], encode, eol, decode, more);
      if pieces[0].Delta? {
        PrependChunk(StreamChunk(pieces[0].text, false, None), Chunks(Lines(more), decode));
      } else {
        assert [] + Chunks(Lines(more), decode) == Chunks(Lines(more), decode);
        assert "" + AnswerContent(pieces[1..], ending) == AnswerContent(pieces[1..], ending);
      }
    }
  }

  /** Round trip: an answer written as one text of data lines, with either line end and
      with blank, garbled and other lines anywhere in between, reaches the client with
      exactly the text of its deltas; the last data chunk shows the finish reason and
      the text of the ending; no error is shown and no completion published. */
  lemma {:induction false} AnswerRoundTrip(pieces: seq<Piece>, ending: Ending, rest: string,
                                           encode: Payload -> string, eol: string, decode: Decoder, out: Output)
    requires Inverse(encode, decode) && IsLineEnd(eol) && AllWritable(pieces, decode)
    requires IsOutput(Chunks(Lines(AnswerText(pieces, ending, rest, encode, eol)), decode), out)
    ensures ClientText(out.events) == AnswerContent(pieces, ending)
    ensures |out.events| >= 2 && out.events[|out.events| - 2].Chunk?
    ensures out.events[|out.events| - 2].finishReason == Some("stop")
    ensures Content(out.events[|out.events| - 2]) == if ending.Finish? then ending.text else ""
    ensures out.completions == [] && forall event :: event in out.events ==> !event.StreamError?
  {
    hide Inverse, IsLineEnd, Chunks, AnswerText, IsOutput, FinalChunk, AllWritable;
    var items := Chunks(Lines(AnswerText(pieces, ending, rest, encode, eol)), decode);
    AnswerArrives(pieces, ending, rest, encode, eol, decode);
    ClientTextIsDeltas(items, out);
    FinishedOutput(items, out);
    FinalChunkShown(items, out);
  }
}
