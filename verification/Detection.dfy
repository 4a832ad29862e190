/** All scanners over one text, in the order the detector runs them. */
module Detection {
  import opened Prelude
  import opened Utf8
  import opened PiiDetector
  import opened EmailScanner
  import opened ContextValidation

  /** The reports of the scanners, one after the other. */
  datatype Reports = Reports(
    ssns: seq<PiiMatch>,
    phones: seq<PiiMatch>,
    emails: seq<PiiMatch>,
    separatedCards: seq<PiiMatch>,
    bareCards: seq<PiiMatch>)
  {
    function BeforeBareCards(): seq<PiiMatch> {
      ssns + phones + emails + separatedCards
    }

    function All(): seq<PiiMatch> {
      BeforeBareCards() + bareCards
    }
  }

  ghost predicate IsDetection(text: string, isAlphanumeric: char -> bool, r: Reports) {
    var bytes := Encode(text);
    && EveryMatch(bytes, SsnAt, |bytes|, r.ssns)
    && LeftmostDisjoint(bytes, PhoneAt, |bytes|, r.phones)
    && (exists ats :: EveryAddress(text, isAlphanumeric, |text|, ats, r.emails))
    && LeftmostDisjoint(bytes, SeparatedCardAt, |bytes|, r.separatedCards)
    && UncoveredRuns(bytes, r.BeforeBareCards(), |bytes|, r.bareCards)
  }

  /** All scanners, each adding to the matches of those before it. */
  method Scan(text: string, isAlphanumeric: char -> bool) returns (matches: seq<PiiMatch>)
    requires IsAlphabet(isAlphanumeric)
    ensures exists r: Reports :: IsDetection(text, isAlphanumeric, r) && matches == r.All()
  {
    hide EveryMatch, LeftmostDisjoint, EveryAddress, UncoveredRuns;
    var bytes := Encode(text);
    var m1 := DetectKoreanSsn(bytes, []);
    var m2 := DetectPhoneNumbers(bytes, m1);
    var m3 := DetectEmails(text, isAlphanumeric, m2);
    var m4 := DetectSeparatedCards(bytes, m3);
    matches := DetectBareCards(bytes, m4);
    ghost var r := Reports(m1, m2[|m1|..], m3[|m2|..], m4[|m3|..], matches[|m4|..]);
    assert m1[0..] == m1;
    assert r.BeforeBareCards() == m4;
    assert IsDetection(text, isAlphanumeric, r) && matches == r.All();
  }

  /** Given the reports, the call succeeds exactly when the window around each of
      them fits, and then only confidences differ from the reports. */
  ghost predicate IsOutcome(text: string, r: Reports, outcome: Result<seq<PiiMatch>, Abort>) {
    && (outcome.Ok? <==> WindowsFit(text, r.All()))
    && (outcome.Ok? ==> outcome.value == ValidatedAll(Encode(text), r.All()))
  }

  method Detect(text: string, isAlphanumeric: char -> bool) returns (outcome: Result<seq<PiiMatch>, Abort>)
    requires IsAlphabet(isAlphanumeric)
    ensures exists r: Reports :: IsDetection(text, isAlphanumeric, r) && IsOutcome(text, r, outcome)
  {
    hide IsDetection, WellPlaced, WindowsFit, ValidatedAll;
    var matches := Scan(text, isAlphanumeric);
    ghost var r: Reports :| IsDetection(text, isAlphanumeric, r) && matches == r.All();
    ReportsAreInRange(text, isAlphanumeric, r);
    outcome := ValidateContext(text, matches);
    assert IsOutcome(text, r, outcome);
  }

  lemma {:induction false} ReportsAreInRange(text: string, isAlphanumeric: char -> bool, r: Reports)
    requires IsDetection(text, isAlphanumeric, r)
    ensures forall m :: m in r.All() ==> m.start < m.end <= |Encode(text)|
  {
    hide IsDetection, Encode;
    forall m | m in r.All() ensures m.start < m.end <= |Encode(text)| {
      DetectionIsWellPlaced(text, isAlphanumeric, r, m);
    }
  }

  // ---- Where matches lie ----

  /** A non-empty span between character boundaries, with the text it denotes. */
  ghost predicate WellPlaced(text: string, m: PiiMatch) {
    && m.start < m.end <= |Encode(text)|
    && m.matchedText == Encode(text)[m.start..m.end]
    && IsBoundary(text, m.start) && IsBoundary(text, m.end)
  }

  lemma {:induction false} AsciiEndsAreBoundaries(text: string, m: PiiMatch)
    requires m.start < m.end <= |Encode(text)| && m.matchedText == Encode(text)[m.start..m.end]
    requires IsDigit(Encode(text)[m.start]) && IsDigit(Encode(text)[m.end - 1])
    ensures WellPlaced(text, m)
  {
    hide Encode, IsBoundary;
    AsciiByteBounds(text, m.start);
    AsciiByteBounds(text, m.end - 1);
  }

  lemma {:induction false} PatternIsWellPlaced(text: string, at: Pattern, m: PiiMatch)
    requires at == SsnAt || at == PhoneAt || at == SeparatedCardAt || at == BareCardAt
    requires at(Encode(text), m.start) == Some(m)
    ensures WellPlaced(text, m)
  {
    hide Encode;
    var bytes := Encode(text);
    DigitsAtEnds(bytes, m.start);
    AsciiEndsAreBoundaries(text, m);
  }

  /** Every byte pattern begins and ends with a digit. */
  lemma {:induction false} DigitsAtEnds(bytes: seq<Byte>, p: nat)
    ensures SsnAt(bytes, p).Some? ==> EndsInDigits(bytes, p, SsnAt(bytes, p).value)
    ensures PhoneAt(bytes, p).Some? ==> EndsInDigits(bytes, p, PhoneAt(bytes, p).value)
    ensures SeparatedCardAt(bytes, p).Some? ==> EndsInDigits(bytes, p, SeparatedCardAt(bytes, p).value)
    ensures BareCardAt(bytes, p).Some? ==> EndsInDigits(bytes, p, BareCardAt(bytes, p).value)
  {
  }

  ghost predicate EndsInDigits(bytes: seq<Byte>, p: nat, m: PiiMatch) {
    && m.start == p < m.end <= |bytes| && m.matchedText == bytes[m.start..m.end]
    && IsDigit(bytes[m.start]) && IsDigit(bytes[m.end - 1])
  }

  lemma {:induction false} EmailIsWellPlaced(text: string, isAlphanumeric: char -> bool, i: nat, m: PiiMatch)
    requires MatchesAddress(text, i, isAlphanumeric, m)
    ensures WellPlaced(text, m)
  {
    var from, to :| AddressAt(text, i, isAlphanumeric, from, to) && IsEmailMatch(text, from, to, m);
    EncodeSlice(text, from, to);
    EncodeSlice(text, to, |text|);
  }

  /** On every text, each reported span lies between character boundaries and
      its text is exactly that slice. */
  lemma {:induction false} DetectionIsWellPlaced(text: string, isAlphanumeric: char -> bool, r: Reports, m: PiiMatch)
    requires IsDetection(text, isAlphanumeric, r) && m in r.All()
    ensures WellPlaced(text, m)
  {
    hide WellPlaced, Encode;
    if m in r.ssns {
      PatternIsWellPlaced(text, SsnAt, m);
    } else if m in r.phones {
      PatternIsWellPlaced(text, PhoneAt, m);
    } else if m in r.emails {
      var ats :| EveryAddress(text, isAlphanumeric, |text|, ats, r.emails);
      var k :| 0 <= k < |r.emails| && r.emails[k] == m;
      EmailIsWellPlaced(text, isAlphanumeric, ats[k], m);
    } else if m in r.separatedCards {
      PatternIsWellPlaced(text, SeparatedCardAt, m);
    } else {
      PatternIsWellPlaced(text, BareCardAt, m);
    }
  }

  // ---- What is found ----

  /** The reports come scanner by scanner: registration numbers, phone numbers, e-mail
      addresses, card numbers in groups, bare card numbers. */
  lemma {:induction false} ReportsByScanner(r: Reports, i: nat)
    requires i < |r.All()|
    ensures var a, b := |r.ssns|, |r.ssns| + |r.phones|;
            var c, d := b + |r.emails|, b + |r.emails| + |r.separatedCards|;
            r.All()[i] == if i < a then r.ssns[i]
                          else if i < b then r.phones[i - a]
                          else if i < c then r.emails[i - b]
                          else if i < d then r.separatedCards[i - c]
                          else r.bareCards[i - d]
  {
  }

  /** Every registration number is reported; every phone number and separated
      card number begins inside a report; every isolated 16-digit run lies
      inside one; and every e-mail address is reported. */
  lemma {:induction false} DetectionIsComplete(text: string, isAlphanumeric: char -> bool, r: Reports, p: nat)
    requires IsDetection(text, isAlphanumeric, r) && p < |Encode(text)|
    ensures SsnAt(Encode(text), p).Some? ==> SsnAt(Encode(text), p).value in r.All()
    ensures PhoneAt(Encode(text), p).Some? ==> Inside(p, r.All())
    ensures SeparatedCardAt(Encode(text), p).Some? ==> Inside(p, r.All())
    ensures BareCardAt(Encode(text), p).Some? ==> exists f :: f in r.All() && f.start <= p && p + 16 <= f.end
  {
    hide Encode, SsnAt, PhoneAt, SeparatedCardAt;
    var bytes := Encode(text);
    if PhoneAt(bytes, p).Some? {
      InsidePart(p, r.phones, r.All());
    }
    if SeparatedCardAt(bytes, p).Some? {
      InsidePart(p, r.separatedCards, r.All());
    }
    if BareCardAt(bytes, p).Some? {
      if Covered(p, p + 16, r.BeforeBareCards()) {
        var f :| f in r.BeforeBareCards() && f.start <= p && f.end >= p + 16;
        assert f in r.All();
      } else {
        assert BareCardAt(bytes, p).value in r.All();
      }
    }
  }

  /** An isolated run of sixteen digits is reported on its own if and only if no
      report of the scanners before spans all of it. */
  lemma {:induction false} BareCardReported(text: string, isAlphanumeric: char -> bool, r: Reports, p: nat)
    requires IsDetection(text, isAlphanumeric, r) && p < |Encode(text)| && BareCardAt(Encode(text), p).Some?
    ensures BareCardAt(Encode(text), p).value in r.bareCards <==>
            !exists f :: f in r.BeforeBareCards() && f.start <= p && p + 16 <= f.end
  {
    hide Encode;
    var m := BareCardAt(Encode(text), p).value;
    assert m.start == p && m.end == p + 16;
  }

  lemma {:induction false} InsidePart(p: nat, part: seq<PiiMatch>, all: seq<PiiMatch>)
    requires Inside(p, part) && forall m :: m in part ==> m in all
    ensures Inside(p, all)
  {
    var m :| m in part && m.start <= p < m.end;
    assert m in all;
  }

  lemma {:induction false} EveryAddressIsFound(text: string, isAlphanumeric: char -> bool, r: Reports, i: nat)
    requires IsDetection(text, isAlphanumeric, r) && i < |text| && HasAddress(text, i, isAlphanumeric)
    ensures exists m :: m in r.All() && MatchesAddress(text, i, isAlphanumeric, m)
  {
    var ats :| EveryAddress(text, isAlphanumeric, |text|, ats, r.emails);
    var k :| 0 <= k < |ats| && ats[k] == i;
    assert r.emails[k] in r.emails;
  }

  /** The e-mail reports are exactly the addresses. */
  lemma {:induction false} EmailsAreAddresses(text: string, isAlphanumeric: char -> bool, r: Reports, m: PiiMatch)
    requires IsDetection(text, isAlphanumeric, r)
    ensures m in r.emails <==> exists i: nat :: i < |text| && MatchesAddress(text, i, isAlphanumeric, m)
  {
    var ats :| EveryAddress(text, isAlphanumeric, |text|, ats, r.emails);
    EmailsByAts(text, isAlphanumeric, ats, r.emails, m);
  }

  lemma {:induction false} EmailsByAts(text: string, isAlphanumeric: char -> bool, ats: seq<nat>,
                                       emails: seq<PiiMatch>, m: PiiMatch)
    requires EveryAddress(text, isAlphanumeric, |text|, ats, emails)
    ensures m in emails <==> exists i: nat :: i < |text| && MatchesAddress(text, i, isAlphanumeric, m)
  {
    hide MatchesAddress, HasAddress;
    if m in emails {
      var k :| 0 <= k < |emails| && emails[k] == m;
      assert MatchesAddress(text, ats[k], isAlphanumeric, m);
    }
    if i: nat :| i < |text| && MatchesAddress(text, i, isAlphanumeric, m) {
      MatchHasAddress(text, isAlphanumeric, i, m);
      var k :| 0 <= k < |ats| && ats[k] == i;
      MatchIsUnique(text, isAlphanumeric, i, emails[k], m);
    }
  }

  lemma {:induction false} MatchHasAddress(text: string, isAlphanumeric: char -> bool, i: nat, m: PiiMatch)
    requires MatchesAddress(text, i, isAlphanumeric, m)
    ensures HasAddress(text, i, isAlphanumeric)
  {
  }

  /** The report of an address is its own bytes. */
  lemma {:induction false} AddressReport(text: string, isAlphanumeric: char -> bool, i: nat, from: nat, to: nat,
                                         m: PiiMatch)
    requires AddressAt(text, i, isAlphanumeric, from, to)
    ensures MatchesAddress(text, i, isAlphanumeric, m) <==>
            m == PiiMatch(Email, |Encode(text[..from])|, |Encode(text[..to])|, Encode(text[from..to]), 0.95)
  {
    hide Encode;
    if MatchesAddress(text, i, isAlphanumeric, m) {
      var from': nat, to': nat :| AddressAt(text, i, isAlphanumeric, from', to') && IsEmailMatch(text, from', to', m);
      AddressRangeUnique(text, i, isAlphanumeric, from, to, from', to');
    }
    if m == PiiMatch(Email, |Encode(text[..from])|, |Encode(text[..to])|, Encode(text[from..to]), 0.95) {
      assert IsEmailMatch(text, from, to, m);
    }
  }

  // ---- The reports are determined by the text ----

  function StartOf(m: PiiMatch): int {
    m.start
  }

  lemma {:induction false} EveryMatchIsUnique(bytes: seq<Byte>, at: Pattern, n: nat, a: seq<PiiMatch>, b: seq<PiiMatch>)
    requires EveryMatch(bytes, at, n, a) && EveryMatch(bytes, at, n, b)
    ensures a == b
  {
    IncreasingUnique(a, b, StartOf);
  }

  lemma {:induction false} UncoveredRunsAreUnique(bytes: seq<Byte>, matches: seq<PiiMatch>, n: nat, a: seq<PiiMatch>,
                                                  b: seq<PiiMatch>)
    requires UncoveredRuns(bytes, matches, n, a) && UncoveredRuns(bytes, matches, n, b)
    ensures a == b
  {
    SameRuns(bytes, matches, n, a, b);
    SameRuns(bytes, matches, n, b, a);
    IncreasingUnique(a, b, StartOf);
  }

  lemma {:induction false} SameRuns(bytes: seq<Byte>, matches: seq<PiiMatch>, n: nat, a: seq<PiiMatch>,
                                    b: seq<PiiMatch>)
    requires UncoveredRuns(bytes, matches, n, a) && UncoveredRuns(bytes, matches, n, b)
    ensures InOrder(a) && forall m :: m in a ==> m in b
  {
    hide Covered;
    forall m | m in a ensures m in b {
      assert BareCardAt(bytes, m.start) == Some(m) && m.start < n && !Covered(m.start, m.end, matches);
      assert m.end == m.start + 16;
    }
  }

  lemma {:induction false} AddressesAreUnique(text: string, isAlphanumeric: char -> bool, ats: seq<nat>,
                                              a: seq<PiiMatch>, ats': seq<nat>, b: seq<PiiMatch>)
    requires EveryAddress(text, isAlphanumeric, |text|, ats, a)
    requires EveryAddress(text, isAlphanumeric, |text|, ats', b)
    ensures a == b
  {
    SameAts(text, isAlphanumeric, ats, a, ats', b);
    SameAts(text, isAlphanumeric, ats', b, ats, a);
    IncreasingUnique(ats, ats', Identity);
    forall k | 0 <= k < |a| ensures a[k] == b[k] {
      MatchIsUnique(text, isAlphanumeric, ats[k], a[k], b[k]);
    }
  }

  lemma {:induction false} SameAts(text: string, isAlphanumeric: char -> bool, ats: seq<nat>, a: seq<PiiMatch>,
                                   ats': seq<nat>, b: seq<PiiMatch>)
    requires EveryAddress(text, isAlphanumeric, |text|, ats, a)
    requires EveryAddress(text, isAlphanumeric, |text|, ats', b)
    ensures Increasing(ats, Identity) && forall i :: i in ats ==> i in ats'
  {
    forall i | i in ats ensures i in ats' {
      var k :| 0 <= k < |ats| && ats[k] == i;
      assert MatchesAddress(text, ats[k], isAlphanumeric, a[k]);
      assert HasAddress(text, i, isAlphanumeric);
    }
  }

  lemma {:induction false} MatchIsUnique(text: string, isAlphanumeric: char -> bool, i: nat, a: PiiMatch, b: PiiMatch)
    requires MatchesAddress(text, i, isAlphanumeric, a) && MatchesAddress(text, i, isAlphanumeric, b)
    ensures a == b
  {
    var from: nat, to: nat :| AddressAt(text, i, isAlphanumeric, from, to) && IsEmailMatch(text, from, to, a);
    var from': nat, to': nat :| AddressAt(text, i, isAlphanumeric, from', to') && IsEmailMatch(text, from', to', b);
    AddressRangeUnique(text, i, isAlphanumeric, from, to, from', to');
  }

  /** A text has only one detection, so whether the call aborts, and what it
      returns otherwise, is decided by the text alone. */
  lemma {:induction false} DetectionIsUnique(text: string, isAlphanumeric: char -> bool, a: Reports, b: Reports)
    requires IsDetection(text, isAlphanumeric, a) && IsDetection(text, isAlphanumeric, b)
    ensures a == b
  {
    hide EveryMatch, LeftmostDisjoint, EveryAddress, UncoveredRuns, Encode;
    var bytes := Encode(text);
    EveryMatchIsUnique(bytes, SsnAt, |bytes|, a.ssns, b.ssns);
    LeftmostDisjointIsUnique(bytes, PhoneAt, |bytes|, a.phones, b.phones);
    var ats :| EveryAddress(text, isAlphanumeric, |text|, ats, a.emails);
    var ats' :| EveryAddress(text, isAlphanumeric, |text|, ats', b.emails);
    AddressesAreUnique(text, isAlphanumeric, ats, a.emails, ats', b.emails);
    LeftmostDisjointIsUnique(bytes, SeparatedCardAt, |bytes|, a.separatedCards, b.separatedCards);
    UncoveredRunsAreUnique(bytes, a.BeforeBareCards(), |bytes|, a.bareCards, b.bareCards);
  }

  // ---- Aborted calls ----

  /** A phone number behind seventeen three-byte characters. */
  const ABORTING_TEXT: string := Repeated('가', 17) + "010-1234-5678"

  function Repeated(c: char, n: nat): string {
    seq(n, _ => c)
  }

  lemma {:induction false} EncodeRepeated(c: char, n: nat)
    requires |EncodeChar(c)| == 3
    ensures |Encode(Repeated(c, n))| == 3 * n
    ensures forall k :: 0 <= k < 3 * n ==> Encode(Repeated(c, n))[k] in EncodeChar(c)
    ensures n > 0 ==> Encode(Repeated(c, n))[..3] == EncodeChar(c)
  {
    hide EncodeChar;
    if n == 0 {
    } else {
      EncodeRepeated(c, n - 1);
      assert Repeated(c, n) == Repeated(c, n - 1) + [c];
      EncodeOneMore(Repeated(c, n - 1), c);
    }
  }

  /** Where a phone number begins, with no digit anywhere before it, a report begins. */
  lemma {:induction false} FirstPhoneIsReported(text: string, isAlphanumeric: char -> bool, r: Reports, p: nat)
    requires IsDetection(text, isAlphanumeric, r) && p < |Encode(text)| && PhoneAt(Encode(text), p).Some?
    requires forall k :: 0 <= k < p ==> !IsDigit(Encode(text)[k])
    ensures PhoneAt(Encode(text), p).value in r.All()
  {
    hide Encode, IsDigit;
    var bytes := Encode(text);
    assert Inside(p, r.phones);
    var m :| m in r.phones && m.start <= p < m.end;
    assert PhoneAt(bytes, m.start) == Some(m);
    StartsWithDigit(bytes, m.start);
    assert m.start == p;
  }

  lemma {:induction false} StartsWithDigit(bytes: seq<Byte>, p: nat)
    ensures PhoneAt(bytes, p).Some? ==> p < |bytes| && IsDigit(bytes[p])
  {
  }

  /** A text on which detection aborts: the window around the phone number
      begins inside the first character. */
  lemma {:induction false} DetectionCanAbort(isAlphanumeric: char -> bool, r: Reports)
    requires IsDetection(ABORTING_TEXT, isAlphanumeric, r)
    ensures !WindowsFit(ABORTING_TEXT, r.All())
  {
    hide IsDetection, EncodeChar;
    var hangul, phone := Repeated('가', 17), "010-1234-5678";
    var bytes := Encode(ABORTING_TEXT);
    HangulBytes();
    EncodeRepeated('가', 17);
    EncodeAscii(phone);
    EncodeAppend(hangul, phone);
    assert bytes == Encode(hangul) + Encode(phone);
    assert forall k :: 0 <= k < 51 ==> bytes[k] in EncodeChar('가');
    assert forall k :: 51 <= k < 64 ==> bytes[k] as int == phone[k - 51] as int;
    PhoneFollows(bytes);
    FirstPhoneIsReported(ABORTING_TEXT, isAlphanumeric, r, 51);
    var m := PhoneAt(bytes, 51).value;
    assert m in r.All() && WindowStart(m) == 1;
    assert bytes[1] == Encode(hangul)[..3][1];
    WindowTest(ABORTING_TEXT, m);
  }

  lemma {:induction false} HangulBytes()
    ensures EncodeChar('가') == [0xEA, 0xB0, 0x80]
  {
  }

  lemma {:induction false} PhoneFollows(bytes: seq<Byte>)
    requires |bytes| == 64
    requires forall k :: 51 <= k < 64 ==> bytes[k] as int == "010-1234-5678"[k - 51] as int
    ensures PhoneAt(bytes, 51) == Some(MatchAt(bytes, PhoneNumber, 51, 13, 0.9))
  {
  }

  /** ASCII texts and texts of at most fifty bytes never abort. */
  lemma {:induction false} PlainTextsAreDetected(text: string, isAlphanumeric: char -> bool, r: Reports)
    requires IsDetection(text, isAlphanumeric, r)
    requires IsAscii(text) || |Encode(text)| <= 50
    ensures WindowsFit(text, r.All())
  {
    hide IsDetection, Encode, IsAscii;
    ReportsAreInRange(text, isAlphanumeric, r);
    PlainWindowsFit(text, r.All());
  }
}
