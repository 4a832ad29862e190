/** Texts on which masking falls short of what one may expect of it. */
module MaskingLimits {
  import opened Prelude
  import opened Utf8
  import opened PiiDetector
  import opened EmailScanner
  import opened ContextValidation
  import opened Detection
  import opened PiiMasker
  import Sorting

  /** One of the byte patterns gives the match. */
  ghost predicate IsByteMatch(bytes: seq<Byte>, m: PiiMatch) {
    || SsnAt(bytes, m.start) == Some(m) || PhoneAt(bytes, m.start) == Some(m)
    || SeparatedCardAt(bytes, m.start) == Some(m) || BareCardAt(bytes, m.start) == Some(m)
  }

  /** Without an '@' all reports come from the byte patterns. */
  lemma {:induction false} OnlyByteMatches(text: string, isAlphanumeric: char -> bool, r: Reports)
    requires IsDetection(text, isAlphanumeric, r) && '@' !in text
    ensures r.emails == []
    ensures forall m :: m in r.All() ==> IsByteMatch(Encode(text), m)
  {
    hide SsnAt, PhoneAt, SeparatedCardAt, BareCardAt, Encode;
    var ats :| EveryAddress(text, isAlphanumeric, |text|, ats, r.emails);
    AddressesHaveAts(text, isAlphanumeric, ats, r.emails);
  }

  lemma {:induction false} AddressesHaveAts(text: string, isAlphanumeric: char -> bool, ats: seq<nat>,
                                            emails: seq<PiiMatch>)
    requires EveryAddress(text, isAlphanumeric, |text|, ats, emails)
    ensures |emails| > 0 ==> '@' in text
  {
    if |emails| > 0 {
      assert MatchesAddress(text, ats[0], isAlphanumeric, emails[0]);
      assert text[ats[0]] == '@';
    }
  }

  // ---- Bytes that stay ----

  /** Two registration numbers that share seven bytes. */
  const OVERLAPPING_TEXT: string := "901234-1234567-1234567"

  lemma {:induction false} FirstNumberEnds(bytes: seq<Byte>, m: PiiMatch)
    requires |bytes| == 22
    requires bytes[0] == 57 && bytes[4] == 51 && bytes[6] == DASH && bytes[14] == DASH
    requires IsByteMatch(bytes, m)
    ensures m.start == 0 ==> m.end == 14
    ensures m.start != 14
  {
  }

  lemma {:induction false} NumbersAreFound(bytes: seq<Byte>)
    requires |bytes| == 22
    requires forall k :: 0 <= k < 22 ==> bytes[k] as int == OVERLAPPING_TEXT[k] as int
    ensures SsnAt(bytes, 0).Some? && SsnAt(bytes, 8).Some?
    ensures bytes[0] == 57 && bytes[4] == 51 && bytes[6] == DASH && bytes[14] == DASH
  {
  }

  /** A span at 8 that only the span from 0 to 14 could cover loses its end. */
  lemma {:induction false} EndStays(matches: seq<PiiMatch>, first: PiiMatch, second: PiiMatch)
    requires NonEmpty(matches) && first in matches && second in matches
    requires first.start == 0 && second.start == 8 && second.end == 22
    requires forall v :: v in matches ==> (v.start == 0 ==> v.end == 14) && v.start != 14
    ensures !EveryByteMasked(matches)
  {
    hide ChosenFrom;
    FirstBytesAreMasked(matches, first);
    var c :| c in ChosenFrom(matches) && c.start <= 0 < c.end;
    ChosenIsReported(matches, c);
    assert !StartsAt(matches, c.end);
    AllMaskedIffOverlapsContinue(matches);
  }

  /** The second number is reported too, but it begins inside the first, so it is
      dropped and its end stays in the text. */
  lemma {:induction false} OverlapLeavesBytes(isAlphanumeric: char -> bool, r: Reports)
    requires IsDetection(OVERLAPPING_TEXT, isAlphanumeric, r)
    ensures !EveryByteMasked(ValidatedAll(Encode(OVERLAPPING_TEXT), r.All()))
  {
    hide IsDetection, SsnAt, IsByteMatch, Encode, InContext, EveryByteMasked;
    var text := OVERLAPPING_TEXT;
    var bytes := Encode(text);
    EncodeAscii(text);
    NumbersAreFound(bytes);
    OnlyByteMatches(text, isAlphanumeric, r);
    DetectionCanBeMasked(text, isAlphanumeric, r);
    var matches := ValidatedAll(bytes, r.All());
    forall v | v in matches ensures (v.start == 0 ==> v.end == 14) && v.start != 14 {
      var i :| 0 <= i < |matches| && matches[i] == v;
      FirstNumberEnds(bytes, r.All()[i]);
    }
    var first := NumberIsValidated(text, isAlphanumeric, r, 0);
    var second := NumberIsValidated(text, isAlphanumeric, r, 8);
    EndStays(matches, first, second);
  }

  lemma {:induction false} NumberIsValidated(text: string, isAlphanumeric: char -> bool, r: Reports, p: nat)
    returns (v: PiiMatch)
    requires IsDetection(text, isAlphanumeric, r) && p < |Encode(text)| && SsnAt(Encode(text), p).Some?
    ensures v in ValidatedAll(Encode(text), r.All()) && v.start == p && v.end == p + 14
  {
    hide IsDetection, SsnAt, Encode, InContext;
    DetectionIsComplete(text, isAlphanumeric, r, p);
    NumberSpan(Encode(text), p);
    var i :| 0 <= i < |r.All()| && r.All()[i] == SsnAt(Encode(text), p).value;
    v := ValidatedAll(Encode(text), r.All())[i];
  }

  lemma {:induction false} NumberSpan(bytes: seq<Byte>, p: nat)
    requires SsnAt(bytes, p).Some?
    ensures SsnAt(bytes, p).value.start == p && SsnAt(bytes, p).value.end == p + 14
  {
  }

  // ---- Masking twice ----

  /** A phone number that touches more digits. */
  const TOUCHING_TEXT: string := "010-1234-56781234567890123456"

  /** The same text once masked. */
  const MASKED_ONCE: string := "***-****-****1234567890123456"

  /** Twenty-nine digits but for the dashes at positions 3 and 8. */
  ghost predicate IsTouching(bytes: seq<Byte>) {
    |bytes| == 29 && forall k :: 0 <= k < 29 ==> if k == 3 || k == 8 then bytes[k] == DASH else IsDigit(bytes[k])
  }

  lemma {:induction false} NoNumberInTouching(bytes: seq<Byte>, p: nat)
    requires IsTouching(bytes)
    ensures SsnAt(bytes, p).None?
  {
    assert !IsDigit(bytes[3]);
    assert p == 2 ==> !Digits(bytes, p, 6);
  }

  lemma {:induction false} PhoneInTouching(bytes: seq<Byte>, p: nat)
    requires IsTouching(bytes)
    ensures LandlineAt(bytes, p) ==> false
    ensures MobileAt(bytes, p) ==> p == 0
  {
  }

  lemma {:induction false} NoSeparatedCardInTouching(bytes: seq<Byte>, p: nat)
    requires IsTouching(bytes)
    ensures SeparatedCardAt(bytes, p).None?
  {
  }

  lemma {:induction false} NoBareCardInTouching(bytes: seq<Byte>, p: nat)
    requires IsTouching(bytes)
    ensures BareCardAt(bytes, p).None?
  {
    if p + 16 <= 29 && p > 9 {
      assert IsDigit(bytes[p - 1]);
    }
  }

  /** In such a text nothing but a mobile number at the start matches. */
  lemma {:induction false} OnlyThePhone(bytes: seq<Byte>, m: PiiMatch)
    requires IsTouching(bytes) && IsByteMatch(bytes, m)
    ensures m.piiType == PhoneNumber && m.start == 0 && m.end == 13
    ensures PhoneAt(bytes, 0) == Some(m)
  {
    hide SsnAt, SeparatedCardAt, BareCardAt, MobileAt, LandlineAt, IsTouching;
    NoNumberInTouching(bytes, m.start);
    PhoneInTouching(bytes, m.start);
    NoSeparatedCardInTouching(bytes, m.start);
    NoBareCardInTouching(bytes, m.start);
  }

  lemma {:induction false} MobileIsPhone(bytes: seq<Byte>, p: nat)
    requires MobileAt(bytes, p)
    ensures PhoneAt(bytes, p).Some?
  {
  }

  lemma {:induction false} TwoAreApart(s: seq<PiiMatch>)
    ensures Disjoint(s) && |s| > 1 ==> s[0].end <= s[1].start
  {
  }

  lemma {:induction false} OnePhoneOnly(bytes: seq<Byte>, r: Reports, m: PiiMatch)
    requires IsTouching(bytes) && m in r.phones && m.start == 0 && m.end == 13
    requires forall x :: x in r.All() ==> x == m
    requires AllMatch(bytes, SsnAt, r.ssns) && AllMatch(bytes, SeparatedCardAt, r.separatedCards)
    requires AllMatch(bytes, BareCardAt, r.bareCards) && Disjoint(r.phones) && r.emails == []
    ensures r.All() == [m]
  {
    hide IsTouching, SsnAt, SeparatedCardAt, BareCardAt, Disjoint;
    NoNumberInTouching(bytes, 0);
    NoSeparatedCardInTouching(bytes, 0);
    NoBareCardInTouching(bytes, 0);
    assert |r.ssns| > 0 ==> r.ssns[0] in r.All();
    assert |r.separatedCards| > 0 ==> r.separatedCards[0] in r.All();
    assert |r.bareCards| > 0 ==> r.bareCards[0] in r.All();
    assert forall i :: 0 <= i < |r.phones| ==> r.phones[i] in r.All();
    TwoAreApart(r.phones);
  }

  /** A text of such bytes that begins with a mobile number. */
  ghost predicate IsTouchingText(text: string) {
    IsTouching(Encode(text)) && MobileAt(Encode(text), 0) && '@' !in text
  }

  lemma {:induction false} OnlyReport(text: string, isAlphanumeric: char -> bool, r: Reports)
    requires IsDetection(text, isAlphanumeric, r) && IsTouchingText(text)
    ensures |r.All()| == 1
    ensures var m := r.All()[0]; m.piiType == PhoneNumber && m.start == 0 && m.end == 13
  {
    hide IsByteMatch, Encode, IsTouching, SsnAt, PhoneAt, SeparatedCardAt, BareCardAt, MobileAt, Covered;
    var bytes := Encode(text);
    OnlyByteMatches(text, isAlphanumeric, r);
    MobileIsPhone(bytes, 0);
    SizeOfTouching(bytes);
    assert Inside(0, r.phones);
    var m :| m in r.phones && m.start <= 0 < m.end;
    OnlyThePhone(bytes, m);
    forall x | x in r.All() ensures x == m {
      OnlyThePhone(bytes, x);
    }
    OnePhoneOnly(bytes, r, m);
  }

  lemma {:induction false} SizeOfTouching(bytes: seq<Byte>)
    requires IsTouching(bytes)
    ensures |bytes| == 29
  {
  }

  lemma {:induction false} PhoneAtStart(bytes: seq<Byte>, m: PiiMatch)
    requires m.piiType == PhoneNumber && m.start == 0 && m.end == 13 <= |bytes|
    ensures ChosenFrom([m]) == [m] && InRange(bytes, [m]) && Disjoint([m])
    ensures Masked(bytes, [m]) == Encode(MaskOf(PhoneNumber)) + bytes[13..]
  {
    OnlyReportIsReplaced(bytes, m);
    hide Encode, Masked;
    assert bytes[..0] + Encode("***-****-****") == Encode("***-****-****");
  }

  /** Masking hides the phone number and keeps the digits behind it. */
  lemma {:induction false} PhoneIsMasked(text: string, once: string, isAlphanumeric: char -> bool, r: Reports)
    requires IsDetection(text, isAlphanumeric, r) && IsTouchingText(text)
    requires Encode(once) == Encode(MaskOf(PhoneNumber)) + Encode(text)[13..]
    ensures IsMasking(text, r, Ok(Encode(once)))
  {
    var bytes := Encode(text);
    SizeOfTouching(bytes);
    hide IsDetection, Encode, InContext, IsTouchingText, WindowsFit, MaskOf;
    PlainTextsAreDetected(text, isAlphanumeric, r);
    OnlyReport(text, isAlphanumeric, r);
    var matches := ValidatedAll(bytes, r.All());
    assert matches == [matches[0]];
    PhoneAtStart(bytes, matches[0]);
  }

  /** A run of sixteen digits behind bytes that are none is taken for a card number. */
  lemma {:induction false} RunIsMasked(text: string, isAlphanumeric: char -> bool, r: Reports, p: nat)
    requires IsDetection(text, isAlphanumeric, r) && '@' !in text
    requires p < |Encode(text)| && BareCardAt(Encode(text), p).Some?
    requires forall k :: 0 <= k < p ==> !IsDigit(Encode(text)[k])
    ensures Inside(p, ChosenFrom(ValidatedAll(Encode(text), r.All())))
  {
    hide IsDetection, Encode, BareCardAt, ChosenFrom, IsByteMatch, ValidatedAll;
    var bytes := Encode(text);
    DetectionIsComplete(text, isAlphanumeric, r, p);
    var f :| f in r.All() && f.start <= p && f.end >= p + 16;
    OnlyByteMatches(text, isAlphanumeric, r);
    StartsWithDigitByte(bytes, f);
    assert f.start == p;
    DetectionCanBeMasked(text, isAlphanumeric, r);
    ReportIsMasked(text, r, f);
  }

  lemma {:induction false} StartsWithDigitByte(bytes: seq<Byte>, m: PiiMatch)
    requires IsByteMatch(bytes, m)
    ensures m.start < |bytes| && IsDigit(bytes[m.start])
  {
  }

  // ---- The two texts ----

  lemma {:induction false} TouchingBytes(bytes: seq<Byte>)
    requires |bytes| == 29 && forall k :: 0 <= k < 29 ==> bytes[k] as int == TOUCHING_TEXT[k] as int
    ensures IsTouching(bytes) && MobileAt(bytes, 0)
  {
  }

  lemma {:induction false} OnceBytes(bytes: seq<Byte>, once: seq<Byte>, mask: seq<Byte>)
    requires |bytes| == 29 && forall k :: 0 <= k < 29 ==> bytes[k] as int == TOUCHING_TEXT[k] as int
    requires |once| == 29 && forall k :: 0 <= k < 29 ==> once[k] as int == MASKED_ONCE[k] as int
    requires |mask| == 13 && forall k :: 0 <= k < 13 ==> mask[k] as int == "***-****-****"[k] as int
    ensures once == mask + bytes[13..]
    ensures forall k :: 0 <= k < 13 ==> !IsDigit(once[k])
    ensures BareCardAt(once, 13).Some?
  {
  }

  lemma {:induction false} TheTexts()
    ensures IsTouchingText(TOUCHING_TEXT)
    ensures Encode(MASKED_ONCE) == Encode(MaskOf(PhoneNumber)) + Encode(TOUCHING_TEXT)[13..]
    ensures '@' !in MASKED_ONCE && |Encode(MASKED_ONCE)| == 29 && BareCardAt(Encode(MASKED_ONCE), 13).Some?
    ensures forall k :: 0 <= k < 13 ==> !IsDigit(Encode(MASKED_ONCE)[k])
  {
    hide Encode, IsTouching, MobileAt, BareCardAt;
    EncodeAscii(TOUCHING_TEXT);
    EncodeAscii(MASKED_ONCE);
    EncodeAscii("***-****-****");
    TouchingBytes(Encode(TOUCHING_TEXT));
    OnceBytes(Encode(TOUCHING_TEXT), Encode(MASKED_ONCE), Encode("***-****-****"));
  }

  lemma {:induction false} MaskedOnce(isAlphanumeric: char -> bool, r: Reports)
    requires IsDetection(TOUCHING_TEXT, isAlphanumeric, r)
    ensures IsMasking(TOUCHING_TEXT, r, Ok(Encode(MASKED_ONCE)))
  {
    hide *;
    TheTexts();
    PhoneIsMasked(TOUCHING_TEXT, MASKED_ONCE, isAlphanumeric, r);
  }

  /** Masking the result again does not leave it alone: the digits are now a run
      of their own, and are taken for a card number. */
  lemma {:induction false} MaskedAgain(isAlphanumeric: char -> bool, r: Reports)
    requires IsDetection(MASKED_ONCE, isAlphanumeric, r)
    ensures Inside(13, ChosenFrom(ValidatedAll(Encode(MASKED_ONCE), r.All())))
  {
    hide *;
    TheTexts();
    RunIsMasked(MASKED_ONCE, isAlphanumeric, r, 13);
  }
}
