/** Reading an upstream body line by line. */
module UpstreamLines {
  import opened UnicodeText

  /** One read of the upstream body; the end of the sequence is the end of the body. */
  datatype Read = Line(text: string) | ReadError(message: string)

  /** How far the first line reaches: up to and with its newline, or to the end. */
  function LineLength(body: string): (n: nat)
    requires |body| > 0
    ensures 0 < n <= |body|
    ensures forall i :: 0 <= i < n - 1 ==> body[i] != '\n'
    ensures n < |body| ==> body[n - 1] == '\n'
  {
    if body[0] == '\n' || |body| == 1 then 1 else 1 + LineLength(body[1..])
  }

  /** The reads of a body that arrives without error. */
  function Lines(body: string): seq<Read> {
    if |body| == 0 then []
    else
      var n := LineLength(body);
      [Line(body[..n])] + Lines(body[n..])
  }

  function Joined(input: seq<Read>): string {
    if |input| == 0 then ""
    else (if input[0].Line? then input[0].text else "") + Joined(input[1..])
  }

  /** Nothing of the body is lost or changed. */
  lemma {:induction false} LinesAreBody(body: string)
    ensures Joined(Lines(body)) == body
  {
    if |body| == 0 {
    } else {
      var n := LineLength(body);
      LinesAreBody(body[n..]);
      JoinedLine(body[..n], Lines(body[n..]));
      hide Joined;
      assert body == body[..n] + body[n..];
    }
  }

  lemma {:induction false} JoinedLine(text: string, rest: seq<Read>)
    ensures Joined([Line(text)] + rest) == text + Joined(rest)
  {
    assert ([Line(text)] + rest)[1..] == rest;
  }

  ghost predicate IsOneLine(r: Read) {
    r.Line? && |r.text| > 0 && forall i :: 0 <= i < |r.text| - 1 ==> r.text[i] != '\n'
  }

  /** Only the last character of a line can be a newline. */
  lemma {:induction false} LinesAreLines(body: string)
    ensures forall r :: r in Lines(body) ==> IsOneLine(r)
  {
    if |body| == 0 {
    } else {
      var n := LineLength(body);
      LinesAreLines(body[n..]);
      assert IsOneLine(Line(body[..n]));
      hide IsOneLine;
    }
  }

  /** The text fits on a line and does not end in whitespace. */
  predicate IsVisible(s: string) {
    |s| > 0 && !IsWhitespace(s[|s| - 1]) && '\n' !in s
  }

  predicate IsLineEnd(eol: string) {
    eol == "\n" || eol == "\r\n"
  }

  lemma {:induction false} FirstLine(line: string, eol: string, rest: string)
    requires '\n' !in line && IsLineEnd(eol)
    ensures Lines(line + eol + rest) == [Line(line + eol)] + Lines(rest)
  {
    var body := line + eol + rest;
    var n := LineLength(body);
    assert forall i :: 0 <= i < |line| ==> body[i] == line[i] && line[i] in line;
    assert body[|line| + |eol| - 1] == '\n';
    assert n == |line| + |eol|;
    assert body[..n] == line + eol && body[n..] == rest;
  }
}
