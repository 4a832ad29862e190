/** Context validation: a keyword within fifty bytes of a match raises the
    match's confidence. The window around a match is cut out of the text by byte
    position, and a cut inside a character aborts the call. */
module ContextValidation {
  import opened Prelude
  import opened Utf8
  import opened PiiDetector

  const CONTEXT_KEYWORDS: seq<string> := [
    "주민번호",
    "주민등록번호",
    "전화번호",
    "핸드폰",
    "휴대폰",
    "이메일",
    "카드번호",
    "신용카드",
    "계좌번호"
  ]

  /** A slice of a text begins or ends inside a character, or behind its end. */
  datatype Abort = SliceOffBoundary

  function WindowStart(m: PiiMatch): nat {
    Max(m.start - 50, 0)
  }

  function WindowEnd(m: PiiMatch, size: nat): nat {
    Min(m.end + 50, size)
  }

  /** The window around the match begins and ends between characters. */
  ghost predicate WindowFits(text: string, m: PiiMatch) {
    IsBoundary(text, WindowStart(m)) && IsBoundary(text, WindowEnd(m, |Encode(text)|))
  }

  ghost predicate WindowsFit(text: string, matches: seq<PiiMatch>) {
    forall m :: m in matches ==> WindowFits(text, m)
  }

  /** The word lies wholly within fifty bytes of the match. */
  ghost predicate IsNear(bytes: seq<Byte>, m: PiiMatch, word: seq<Byte>) {
    exists i: nat :: OccursAt(bytes, word, i) && i >= m.start - 50 && i + |word| <= m.end + 50
  }

  ghost predicate InContext(bytes: seq<Byte>, m: PiiMatch) {
    exists keyword :: keyword in CONTEXT_KEYWORDS && IsNear(bytes, m, Encode(keyword))
  }

  function Raised(confidence: real): real {
    if confidence + 0.1 <= 1.0 then confidence + 0.1 else 1.0
  }

  /** The match as validation leaves it: only its confidence may change. */
  ghost function Validated(bytes: seq<Byte>, m: PiiMatch): PiiMatch {
    if InContext(bytes, m) then m.(confidence := Raised(m.confidence)) else m
  }

  ghost function ValidatedAll(bytes: seq<Byte>, matches: seq<PiiMatch>): (r: seq<PiiMatch>)
    ensures |r| == |matches| && forall i :: 0 <= i < |r| ==> r[i] == Validated(bytes, matches[i])
  {
    seq(|matches|, i requires 0 <= i < |matches| => Validated(bytes, matches[i]))
  }

  /** Aborts at the first match whose window does not fit. */
  method ValidateContext(text: string, matches: seq<PiiMatch>) returns (r: Result<seq<PiiMatch>, Abort>)
    requires forall m :: m in matches ==> m.start <= m.end <= |Encode(text)|
    ensures r.Ok? <==> WindowsFit(text, matches)
    ensures r.Ok? ==> r.value == ValidatedAll(Encode(text), matches)
  {
    hide Encode, InContext, IsCharBoundary, WindowFits;
    var bytes := Encode(text);
    var validated: seq<PiiMatch> := [];
    for i := 0 to |matches|
      invariant |validated| == i
      invariant forall j :: 0 <= j < i ==> WindowFits(text, matches[j])
      invariant forall j :: 0 <= j < i ==> validated[j] == Validated(bytes, matches[j])
    {
      var m := matches[i];
      WindowTest(text, m);
      var windowStart := Max(m.start - 50, 0);
      var windowEnd := Min(m.end + 50, |bytes|);
      if !IsCharBoundary(bytes, windowStart) || !IsCharBoundary(bytes, windowEnd) {
        assert m in matches;
        return Err(SliceOffBoundary);
      }
      var inContext := HasKeyword(bytes[windowStart..windowEnd]);
      WindowHoldsContext(bytes, m);
      validated := validated + [if inContext then m.(confidence := Raised(m.confidence)) else m];
    }
    return Ok(validated);
  }

  /** The window reaches fifty bytes to both sides, as far as the text goes. */
  lemma {:induction false} WindowReach(text: string, m: PiiMatch)
    ensures WindowFits(text, m) <==>
            && IsBoundary(text, if m.start < 50 then 0 else m.start - 50)
            && IsBoundary(text, if m.end + 50 > |Encode(text)| then |Encode(text)| else m.end + 50)
  {
  }

  lemma {:induction false} WindowTest(text: string, m: PiiMatch)
    ensures WindowFits(text, m) <==>
            && IsCharBoundary(Encode(text), WindowStart(m))
            && IsCharBoundary(Encode(text), WindowEnd(m, |Encode(text)|))
  {
    BoundaryTestIsExact(text, WindowStart(m));
    BoundaryTestIsExact(text, WindowEnd(m, |Encode(text)|));
  }

  ghost predicate MentionsKeyword(window: seq<Byte>) {
    exists keyword :: keyword in CONTEXT_KEYWORDS && Contains(window, Encode(keyword))
  }

  method HasKeyword(window: seq<Byte>) returns (found: bool)
    ensures found <==> MentionsKeyword(window)
  {
    hide Encode, Contains;
    for k := 0 to |CONTEXT_KEYWORDS|
      invariant forall j :: 0 <= j < k ==> !Contains(window, Encode(CONTEXT_KEYWORDS[j]))
    {
      if Contains(window, Encode(CONTEXT_KEYWORDS[k])) {
        assert CONTEXT_KEYWORDS[k] in CONTEXT_KEYWORDS;
        return true;
      }
    }
    return false;
  }

  /** Searching the window is asking for a keyword within fifty bytes. */
  lemma {:induction false} WindowHoldsContext(bytes: seq<Byte>, m: PiiMatch)
    requires m.start <= m.end <= |bytes|
    ensures MentionsKeyword(bytes[WindowStart(m)..WindowEnd(m, |bytes|)]) <==> InContext(bytes, m)
  {
    hide Encode, Contains, IsNear;
    forall keyword: string
      ensures Contains(bytes[WindowStart(m)..WindowEnd(m, |bytes|)], Encode(keyword)) <==>
              IsNear(bytes, m, Encode(keyword))
    {
      WindowHoldsNear(bytes, m, Encode(keyword));
    }
  }

  lemma {:induction false} WindowHoldsNear(bytes: seq<Byte>, m: PiiMatch, word: seq<Byte>)
    requires m.start <= m.end <= |bytes|
    ensures Contains(bytes[WindowStart(m)..WindowEnd(m, |bytes|)], word) <==> IsNear(bytes, m, word)
  {
    var from, to := WindowStart(m), WindowEnd(m, |bytes|);
    if Contains(bytes[from..to], word) {
      var i: nat :| i <= to - from && OccursAt(bytes[from..to], word, i);
      OccursInSlice(bytes, word, from, to, i);
    }
    if IsNear(bytes, m, word) {
      var i: nat :| OccursAt(bytes, word, i) && i >= m.start - 50 && i + |word| <= m.end + 50;
      OccursInSlice(bytes, word, from, to, i - from);
    }
  }

  lemma {:induction false} OccursInSlice(bytes: seq<Byte>, word: seq<Byte>, from: nat, to: nat, i: nat)
    requires from <= to <= |bytes|
    ensures OccursAt(bytes[from..to], word, i) <==> OccursAt(bytes, word, from + i) && from + i + |word| <= to
  {
    if from + i + |word| <= to {
      var window := bytes[from..to];
      var here, there := window[i..i + |word|], bytes[from + i..from + i + |word|];
      assert forall k :: 0 <= k < |word| ==> here[k] == window[i + k] == bytes[from + (i + k)] == there[k];
      assert here == there;
    }
  }

  /** A match gains a tenth of confidence, but never more than certainty, exactly
      when one of the nine Korean keywords is near; nothing else of it changes. */
  lemma {:induction false} RaisedIffKeywordNear(bytes: seq<Byte>, m: PiiMatch)
    ensures Validated(bytes, m).(confidence := m.confidence) == m
    ensures Validated(bytes, m).confidence ==
            if exists keyword :: IsKeyword(keyword) && IsNear(bytes, m, Encode(keyword)) then
              (if m.confidence > 0.9 then 1.0 else m.confidence + 0.1)
            else m.confidence
  {
    hide Encode, IsNear;
    forall keyword ensures keyword in CONTEXT_KEYWORDS <==> IsKeyword(keyword) {}
    hide IsKeyword;
  }

  ghost predicate IsKeyword(s: string) {
    || s == "주민번호" || s == "주민등록번호" || s == "전화번호" || s == "핸드폰" || s == "휴대폰" || s == "이메일"
    || s == "카드번호" || s == "신용카드" || s == "계좌번호"
  }

  // ---- Texts that never abort ----

  /** No match of an ASCII text, and none of a text of at most fifty bytes, has
      a window that does not fit. */
  lemma {:induction false} PlainWindowsFit(text: string, matches: seq<PiiMatch>)
    requires IsAscii(text) || |Encode(text)| <= 50
    requires forall m :: m in matches ==> m.start <= m.end <= |Encode(text)|
    ensures WindowsFit(text, matches)
  {
    forall m | m in matches ensures WindowFits(text, m) {
      WindowTest(text, m);
      if IsAscii(text) {
        EncodeAscii(text);
      }
    }
  }
}
