/** The PII scanners: index loops with skips over the bytes (or, for e-mail
    addresses, the characters) of a text. */
module PiiDetector {
  import opened Prelude
  import opened Utf8

  datatype PiiType = KoreanSsn | PhoneNumber | Email | CardNumber

  datatype PiiMatch = PiiMatch(piiType: PiiType, start: nat, end: nat, matchedText: seq<Byte>, confidence: real)

  const DASH: Byte := 45
  const SPACE: Byte := 32

  predicate IsDigit(b: Byte) {
    48 <= b <= 57
  }

  /** `n` digits from position `i` on. */
  predicate Digits(bytes: seq<Byte>, i: nat, n: nat) {
    i + n <= |bytes| && forall k :: i <= k < i + n ==> IsDigit(bytes[k])
  }

  // ---- The patterns: the match that begins at a position, if any ----

  type Pattern = (seq<Byte>, nat) -> Option<PiiMatch>

  function MatchAt(bytes: seq<Byte>, t: PiiType, i: nat, n: nat, confidence: real): PiiMatch
    requires i + n <= |bytes|
  {
    PiiMatch(t, i, i + n, bytes[i..i + n], confidence)
  }

  function SsnAt(bytes: seq<Byte>, i: nat): Option<PiiMatch> {
    if i + 14 <= |bytes| && Digits(bytes, i, 6) && bytes[i + 6] == DASH && Digits(bytes, i + 7, 7)
       && 49 <= bytes[i + 7] <= 52
    then Some(MatchAt(bytes, KoreanSsn, i, 14, 0.85))
    else None
  }

  predicate MobileAt(bytes: seq<Byte>, i: nat) {
    && i + 13 <= |bytes|
    && bytes[i] == 48 && bytes[i + 1] == 49 && bytes[i + 2] == 48 && bytes[i + 3] == DASH
    && Digits(bytes, i + 4, 4) && bytes[i + 8] == DASH && Digits(bytes, i + 9, 4)
  }

  predicate LandlineAt(bytes: seq<Byte>, i: nat) {
    && i + 11 <= |bytes|
    && bytes[i] == 48 && IsDigit(bytes[i + 1]) && bytes[i + 2] == DASH
    && Digits(bytes, i + 3, 3) && bytes[i + 6] == DASH && Digits(bytes, i + 7, 4)
  }

  function PhoneAt(bytes: seq<Byte>, i: nat): Option<PiiMatch> {
    if MobileAt(bytes, i) then Some(MatchAt(bytes, PhoneNumber, i, 13, 0.9))
    else if LandlineAt(bytes, i) then Some(MatchAt(bytes, PhoneNumber, i, 11, 0.8))
    else None
  }

  /** Four groups of four digits with `separator` between them. */
  predicate GroupsAt(bytes: seq<Byte>, i: nat, separator: Byte) {
    && i + 19 <= |bytes|
    && Digits(bytes, i, 4) && bytes[i + 4] == separator
    && Digits(bytes, i + 5, 4) && bytes[i + 9] == separator
    && Digits(bytes, i + 10, 4) && bytes[i + 14] == separator
    && Digits(bytes, i + 15, 4)
  }

  /** No digit directly before or after the `n` bytes at `i`. */
  predicate Isolated(bytes: seq<Byte>, i: nat, n: nat) {
    && i + n <= |bytes|
    && (i == 0 || !IsDigit(bytes[i - 1]))
    && (i + n >= |bytes| || !IsDigit(bytes[i + n]))
  }

  function SeparatedCardAt(bytes: seq<Byte>, i: nat): Option<PiiMatch> {
    if GroupsAt(bytes, i, DASH) then Some(MatchAt(bytes, CardNumber, i, 19, 0.9))
    else if GroupsAt(bytes, i, SPACE) && Isolated(bytes, i, 19) then
      Some(MatchAt(bytes, CardNumber, i, 19, 0.85))
    else None
  }

  function BareCardAt(bytes: seq<Byte>, i: nat): Option<PiiMatch> {
    if i + 16 <= |bytes| && Digits(bytes, i, 16) && Isolated(bytes, i, 16) then
      Some(MatchAt(bytes, CardNumber, i, 16, 0.75))
    else None
  }

  // ---- The patterns as templates ----

  /** The byte encodes one of the ASCII characters from `low` to `high`. */
  ghost predicate IsFrom(b: Byte, low: char, high: char) {
    low as int <= b as int <= high as int
  }

  /** In a template `d` stands for a digit, `g` for a digit from 1 to 4, and
      every other character for itself. */
  ghost predicate FitsChar(b: Byte, t: char) {
    if t == 'd' then IsFrom(b, '0', '9')
    else if t == 'g' then IsFrom(b, '1', '4')
    else b as int == t as int
  }

  ghost predicate Fits(bytes: seq<Byte>, i: nat, template: string) {
    i + |template| <= |bytes| && forall k :: 0 <= k < |template| ==> FitsChar(bytes[i + k], template[k])
  }

  /** A template is its first part followed by the rest. */
  lemma {:induction false} FitsParts(bytes: seq<Byte>, i: nat, a: string, b: string)
    ensures Fits(bytes, i, a + b) <==> Fits(bytes, i, a) && Fits(bytes, i + |a|, b)
  {
    if Fits(bytes, i, a + b) {
      forall k | 0 <= k < |a| ensures FitsChar(bytes[i + k], a[k]) {
        assert (a + b)[k] == a[k];
      }
      forall k | 0 <= k < |b| ensures FitsChar(bytes[i + |a| + k], b[k]) {
        assert (a + b)[|a| + k] == b[k];
      }
    }
    if Fits(bytes, i, a) && Fits(bytes, i + |a|, b) {
      forall k | 0 <= k < |a + b| ensures FitsChar(bytes[i + k], (a + b)[k]) {
        if k >= |a| {
          assert FitsChar(bytes[i + |a| + (k - |a|)], b[k - |a|]);
        }
      }
    }
  }

  /** A run of `n` template digits. */
  function DigitTemplate(n: nat): string {
    seq(n, _ => 'd')
  }

  lemma {:induction false} FitsDigits(bytes: seq<Byte>, i: nat, n: nat)
    ensures Fits(bytes, i, DigitTemplate(n)) <==> Digits(bytes, i, n)
  {
    if Fits(bytes, i, DigitTemplate(n)) {
      forall k | i <= k < i + n ensures IsDigit(bytes[k]) {
        assert FitsChar(bytes[i + (k - i)], DigitTemplate(n)[k - i]);
      }
    }
  }

  lemma {:induction false} FitsOne(bytes: seq<Byte>, i: nat, t: char)
    ensures Fits(bytes, i, [t]) <==> i < |bytes| && FitsChar(bytes[i], t)
  {
    assert [t][0] == t;
  }

  lemma {:induction false} FitsRunThen(bytes: seq<Byte>, i: nat, n: nat, t: char, rest: string)
    ensures Fits(bytes, i, DigitTemplate(n) + [t] + rest) <==>
            && Digits(bytes, i, n) && i + n < |bytes| && FitsChar(bytes[i + n], t)
            && Fits(bytes, i + n + 1, rest)
  {
    hide Fits, FitsChar, Digits;
    FitsParts(bytes, i, DigitTemplate(n) + [t], rest);
    FitsParts(bytes, i, DigitTemplate(n), [t]);
    FitsDigits(bytes, i, n);
    FitsOne(bytes, i + n, t);
  }

  /** Neither neighbour of the `n` bytes at `i` is a character from 0 to 9. */
  ghost predicate NoDigitAround(bytes: seq<Byte>, i: nat, n: nat) {
    && (0 < i <= |bytes| ==> !IsFrom(bytes[i - 1], '0', '9'))
    && (i + n < |bytes| ==> !IsFrom(bytes[i + n], '0', '9'))
  }

  /** The scanners look for exactly these templates. Numbers in spaced groups and
      bare card numbers must stand alone as well. */
  lemma {:induction false} PatternsFitTemplates(bytes: seq<Byte>, i: nat)
    ensures SsnAt(bytes, i).Some? <==> Fits(bytes, i, "dddddd-gdddddd")
    ensures PhoneAt(bytes, i).Some? <==> Fits(bytes, i, "010-dddd-dddd") || Fits(bytes, i, "0d-ddd-dddd")
    ensures SeparatedCardAt(bytes, i).Some? <==>
            || Fits(bytes, i, "dddd-dddd-dddd-dddd")
            || (Fits(bytes, i, "dddd dddd dddd dddd") && NoDigitAround(bytes, i, 19))
    ensures BareCardAt(bytes, i).Some? <==> Fits(bytes, i, "dddddddddddddddd") && NoDigitAround(bytes, i, 16)
  {
    hide Fits;
    FormsFitTemplates(bytes, i);
    assert "dddddddddddddddd" == DigitTemplate(16);
    FitsDigits(bytes, i, 16);
  }

  /** A report carries its kind, its length and its confidence by the form it has. */
  lemma {:induction false} ReportsByForm(bytes: seq<Byte>, i: nat)
    ensures SsnAt(bytes, i).Some? ==>
              i + 14 <= |bytes| && SsnAt(bytes, i).value == PiiMatch(KoreanSsn, i, i + 14, bytes[i..i + 14], 0.85)
    ensures Fits(bytes, i, "010-dddd-dddd") ==>
              PhoneAt(bytes, i) == Some(PiiMatch(PhoneNumber, i, i + 13, bytes[i..i + 13], 0.9))
    ensures Fits(bytes, i, "0d-ddd-dddd") ==>
              PhoneAt(bytes, i) == Some(PiiMatch(PhoneNumber, i, i + 11, bytes[i..i + 11], 0.8))
    ensures Fits(bytes, i, "dddd-dddd-dddd-dddd") ==>
              SeparatedCardAt(bytes, i) == Some(PiiMatch(CardNumber, i, i + 19, bytes[i..i + 19], 0.9))
    ensures Fits(bytes, i, "dddd dddd dddd dddd") && NoDigitAround(bytes, i, 19) ==>
              SeparatedCardAt(bytes, i) == Some(PiiMatch(CardNumber, i, i + 19, bytes[i..i + 19], 0.85))
    ensures BareCardAt(bytes, i).Some? ==>
              i + 16 <= |bytes| && BareCardAt(bytes, i).value == PiiMatch(CardNumber, i, i + 16, bytes[i..i + 16], 0.75)
  {
    FitsWithin(bytes, i);
    hide Fits;
    FormsFitTemplates(bytes, i);
  }

  lemma {:induction false} FitsWithin(bytes: seq<Byte>, i: nat)
    ensures Fits(bytes, i, "010-dddd-dddd") ==> i + 13 <= |bytes|
    ensures Fits(bytes, i, "0d-ddd-dddd") ==> i + 11 <= |bytes|
    ensures Fits(bytes, i, "dddd-dddd-dddd-dddd") ==> i + 19 <= |bytes|
    ensures Fits(bytes, i, "dddd dddd dddd dddd") ==> i + 19 <= |bytes|
  {
  }

  lemma {:induction false} FormsFitTemplates(bytes: seq<Byte>, i: nat)
    ensures SsnAt(bytes, i).Some? <==> Fits(bytes, i, "dddddd-gdddddd")
    ensures MobileAt(bytes, i) <==> Fits(bytes, i, "010-dddd-dddd")
    ensures LandlineAt(bytes, i) <==> Fits(bytes, i, "0d-ddd-dddd")
    ensures GroupsAt(bytes, i, DASH) <==> Fits(bytes, i, "dddd-dddd-dddd-dddd")
    ensures GroupsAt(bytes, i, SPACE) <==> Fits(bytes, i, "dddd dddd dddd dddd")
  {
    SsnFits(bytes, i);
    MobileFits(bytes, i);
    LandlineFits(bytes, i);
    GroupsFit(bytes, i, '-');
    GroupsFit(bytes, i, ' ');
    assert "dddd-dddd-dddd-dddd" == GroupTemplate('-');
    assert "dddd dddd dddd dddd" == GroupTemplate(' ');
  }

  lemma {:induction false} SsnFits(bytes: seq<Byte>, i: nat)
    ensures SsnAt(bytes, i).Some? <==> Fits(bytes, i, "dddddd-gdddddd")
  {
    hide Fits;
    assert "dddddd-gdddddd" == DigitTemplate(6) + ['-'] + (DigitTemplate(0) + ['g'] + DigitTemplate(6));
    FitsRunThen(bytes, i, 6, '-', DigitTemplate(0) + ['g'] + DigitTemplate(6));
    FitsRunThen(bytes, i + 7, 0, 'g', DigitTemplate(6));
    FitsDigits(bytes, i + 8, 6);
  }

  lemma {:induction false} MobileFits(bytes: seq<Byte>, i: nat)
    ensures MobileAt(bytes, i) <==> Fits(bytes, i, "010-dddd-dddd")
  {
    hide Fits;
    assert "010-dddd-dddd" == "010-" + (DigitTemplate(4) + ['-'] + DigitTemplate(4));
    FitsParts(bytes, i, "010-", DigitTemplate(4) + ['-'] + DigitTemplate(4));
    FitsCarrier(bytes, i);
    FitsRunThen(bytes, i + 4, 4, '-', DigitTemplate(4));
    FitsDigits(bytes, i + 9, 4);
  }

  lemma {:induction false} FitsCarrier(bytes: seq<Byte>, i: nat)
    ensures Fits(bytes, i, "010-") <==>
            && i + 4 <= |bytes|
            && bytes[i] == 48 && bytes[i + 1] == 49 && bytes[i + 2] == 48 && bytes[i + 3] == DASH
  {
    hide Fits;
    FitsOne(bytes, i, '0');
    FitsOne(bytes, i + 1, '1');
    FitsOne(bytes, i + 2, '0');
    FitsOne(bytes, i + 3, '-');
    FitsParts(bytes, i, ['0'], ['1']);
    FitsParts(bytes, i, ['0'] + ['1'], ['0']);
    FitsParts(bytes, i, ['0'] + ['1'] + ['0'], ['-']);
    assert "010-" == ['0'] + ['1'] + ['0'] + ['-'];
  }

  lemma {:induction false} LandlineFits(bytes: seq<Byte>, i: nat)
    ensures LandlineAt(bytes, i) <==> Fits(bytes, i, "0d-ddd-dddd")
  {
    hide Fits;
    var rest := DigitTemplate(1) + ['-'] + (DigitTemplate(3) + ['-'] + DigitTemplate(4));
    assert "0d-ddd-dddd" == DigitTemplate(0) + ['0'] + rest;
    FitsRunThen(bytes, i, 0, '0', rest);
    FitsRunThen(bytes, i + 1, 1, '-', DigitTemplate(3) + ['-'] + DigitTemplate(4));
    FitsRunThen(bytes, i + 3, 3, '-', DigitTemplate(4));
    FitsDigits(bytes, i + 7, 4);
  }

  function GroupTemplate(separator: char): string {
    DigitTemplate(4) + [separator]
    + (DigitTemplate(4) + [separator] + (DigitTemplate(4) + [separator] + DigitTemplate(4)))
  }

  lemma {:induction false} GroupsFit(bytes: seq<Byte>, i: nat, separator: char)
    requires separator == '-' || separator == ' '
    ensures GroupsAt(bytes, i, separator as int as Byte) <==> Fits(bytes, i, GroupTemplate(separator))
  {
    hide Fits;
    var last := DigitTemplate(4);
    var third := DigitTemplate(4) + [separator] + last;
    FitsRunThen(bytes, i, 4, separator, DigitTemplate(4) + [separator] + third);
    FitsRunThen(bytes, i + 5, 4, separator, third);
    FitsRunThen(bytes, i + 10, 4, separator, last);
    FitsDigits(bytes, i + 15, 4);
  }

  // ---- What a scan reports ----

  ghost predicate InOrder(found: seq<PiiMatch>) {
    forall i, j :: 0 <= i < j < |found| ==> found[i].start < found[j].start
  }

  ghost predicate Disjoint(found: seq<PiiMatch>) {
    forall i, j :: 0 <= i < j < |found| ==> found[i].end <= found[j].start
  }

  ghost predicate Inside(p: int, found: seq<PiiMatch>) {
    exists m :: m in found && m.start <= p < m.end
  }

  ghost predicate AllMatch(bytes: seq<Byte>, at: Pattern, found: seq<PiiMatch>) {
    forall m :: m in found ==> at(bytes, m.start) == Some(m)
  }

  /** The matches at every position before `n`, in order. */
  ghost predicate EveryMatch(bytes: seq<Byte>, at: Pattern, n: nat, found: seq<PiiMatch>) {
    && AllMatch(bytes, at, found) && InOrder(found)
    && (forall m :: m in found ==> m.start < n)
    && (forall p: nat :: p < n && at(bytes, p).Some? ==> at(bytes, p).value in found)
  }

  /** The leftmost disjoint matches: what a scan that jumps behind each match finds. */
  ghost predicate LeftmostDisjoint(bytes: seq<Byte>, at: Pattern, n: nat, found: seq<PiiMatch>) {
    && AllMatch(bytes, at, found) && Disjoint(found)
    && (forall m :: m in found ==> m.start < m.end <= n)
    && (forall p: nat :: p < n && at(bytes, p).Some? ==> Inside(p, found))
  }

  /** A pattern reports non-empty matches that start where it looked. */
  ghost predicate Sound(at: Pattern) {
    forall bytes, p: nat :: at(bytes, p).Some? ==>
                              var m := at(bytes, p).value;
                              && m.start == p < m.end <= |bytes|
                              && m.matchedText == bytes[m.start..m.end]
  }

  lemma {:induction false} PushEvery(bytes: seq<Byte>, at: Pattern, n: nat, found: seq<PiiMatch>)
    requires Sound(at) && EveryMatch(bytes, at, n, found)
    ensures at(bytes, n).Some? ==> EveryMatch(bytes, at, n + 1, found + [at(bytes, n).value])
    ensures at(bytes, n).None? ==> EveryMatch(bytes, at, n + 1, found)
  {
    if at(bytes, n).Some? {
      var m := at(bytes, n).value;
      assert m.start == n;
      forall p: nat | p < n + 1 && at(bytes, p).Some? ensures at(bytes, p).value in found + [m] {
      }
    }
  }

  lemma {:induction false} PushLeftmost(bytes: seq<Byte>, at: Pattern, n: nat, found: seq<PiiMatch>)
    requires Sound(at) && LeftmostDisjoint(bytes, at, n, found)
    ensures at(bytes, n).Some? ==>
              LeftmostDisjoint(bytes, at, at(bytes, n).value.end, found + [at(bytes, n).value])
    ensures at(bytes, n).None? ==> LeftmostDisjoint(bytes, at, n + 1, found)
  {
    if at(bytes, n).Some? {
      var m := at(bytes, n).value;
      assert m.start == n;
      forall p: nat | p < m.end && at(bytes, p).Some? ensures Inside(p, found + [m]) {
        if p < n {
          var f :| f in found && f.start <= p < f.end;
          assert f in found + [m];
        } else {
          assert m in found + [m];
        }
      }
    }
  }

  /** The leftmost disjoint matches of a text are unique. */
  lemma {:induction false} LeftmostDisjointIsUnique(bytes: seq<Byte>, at: Pattern, n: nat, a: seq<PiiMatch>,
                                                    b: seq<PiiMatch>)
    requires LeftmostDisjoint(bytes, at, n, a) && LeftmostDisjoint(bytes, at, n, b)
    ensures a == b
  {
    hide LeftmostDisjoint;
    SamePrefix(bytes, at, n, a, b, |a|);
    SamePrefix(bytes, at, n, b, a, |b|);
    assert a[..|a|] == a && b[..|b|] == b;
  }

  lemma {:induction false} SamePrefix(bytes: seq<Byte>, at: Pattern, n: nat, a: seq<PiiMatch>, b: seq<PiiMatch>, k: nat)
    requires LeftmostDisjoint(bytes, at, n, a) && LeftmostDisjoint(bytes, at, n, b)
    requires k <= |a|
    ensures k <= |b| && a[..k] == b[..k]
  {
    hide LeftmostDisjoint;
    if k == 0 {
    } else {
      SamePrefix(bytes, at, n, a, b, k - 1);
      NextIsSame(bytes, at, n, a, b, k - 1);
      assert a[..k] == a[..k - 1] + [a[k - 1]];
      assert b[..k] == b[..k - 1] + [b[k - 1]];
    }
  }

  lemma {:induction false} LeftmostFacts(bytes: seq<Byte>, at: Pattern, n: nat, a: seq<PiiMatch>, k: nat)
    requires LeftmostDisjoint(bytes, at, n, a) && k < |a|
    ensures Disjoint(a) && a[k].start < a[k].end <= n && at(bytes, a[k].start) == Some(a[k])
  {
    assert a[k] in a;
  }

  lemma {:induction false} CoveringIndex(bytes: seq<Byte>, at: Pattern, n: nat, b: seq<PiiMatch>,
                                         p: nat) returns (j: nat)
    requires LeftmostDisjoint(bytes, at, n, b) && p < n && at(bytes, p).Some?
    ensures j < |b| && b[j].start <= p < b[j].end
  {
    assert Inside(p, b);
    var m :| m in b && m.start <= p < m.end;
    j :| 0 <= j < |b| && b[j] == m;
  }

  lemma {:induction false} PrefixEndsBefore(a: seq<PiiMatch>, b: seq<PiiMatch>, k: nat)
    requires Disjoint(a) && k < |a| && k <= |b| && a[..k] == b[..k]
    ensures forall j :: 0 <= j < k ==> b[j].end <= a[k].start
  {
    forall j | 0 <= j < k ensures b[j].end <= a[k].start {
      assert b[j] == b[..k][j] == a[..k][j] == a[j];
    }
  }

  lemma {:induction false} NoLaterStart(bytes: seq<Byte>, at: Pattern, n: nat, a: seq<PiiMatch>, b: seq<PiiMatch>,
                                        k: nat)
    requires LeftmostDisjoint(bytes, at, n, a) && LeftmostDisjoint(bytes, at, n, b)
    requires k < |a| && k <= |b| && a[..k] == b[..k]
    ensures k < |b| && b[k].start <= a[k].start
  {
    hide LeftmostDisjoint;
    LeftmostFacts(bytes, at, n, a, k);
    var j := CoveringIndex(bytes, at, n, b, a[k].start);
    PrefixEndsBefore(a, b, k);
    LeftmostFacts(bytes, at, n, b, k);
  }

  lemma {:induction false} NextIsSame(bytes: seq<Byte>, at: Pattern, n: nat, a: seq<PiiMatch>, b: seq<PiiMatch>, k: nat)
    requires LeftmostDisjoint(bytes, at, n, a) && LeftmostDisjoint(bytes, at, n, b)
    requires k < |a| && k <= |b| && a[..k] == b[..k]
    ensures k < |b| && a[k] == b[k]
  {
    hide LeftmostDisjoint;
    NoLaterStart(bytes, at, n, a, b, k);
    NoLaterStart(bytes, at, n, b, a, k);
    LeftmostFacts(bytes, at, n, a, k);
    LeftmostFacts(bytes, at, n, b, k);
  }

  lemma {:induction false} PatternsAreSound()
    ensures Sound(SsnAt) && Sound(PhoneAt) && Sound(SeparatedCardAt) && Sound(BareCardAt)
  {
  }

  // ---- The scanners ----

  /** Resident registration numbers: every position is tried. */
  method DetectKoreanSsn(bytes: seq<Byte>, matches: seq<PiiMatch>) returns (out: seq<PiiMatch>)
    ensures matches <= out && EveryMatch(bytes, SsnAt, |bytes|, out[|matches|..])
  {
    PatternsAreSound();
    out := matches;
    ghost var found: seq<PiiMatch> := [];
    var i := 0;
    while i + 14 <= |bytes|
      invariant 0 <= i
      invariant out == matches + found && EveryMatch(bytes, SsnAt, i, found)
    {
      PushEvery(bytes, SsnAt, i, found);
      if i + 13 < |bytes| && Digits(bytes, i, 6) && bytes[i + 6] == DASH && Digits(bytes, i + 7, 7) {
        if bytes[i + 7] >= 49 && bytes[i + 7] <= 52 {
          out := out + [PiiMatch(KoreanSsn, i, i + 14, bytes[i..i + 14], 0.85)];
          found := found + [SsnAt(bytes, i).value];
        }
      }
      i := i + 1;
    }
    assert EveryMatch(bytes, SsnAt, |bytes|, found);
    assert out[|matches|..] == found;
  }

  /** Phone numbers: the scan continues behind each match. */
  method DetectPhoneNumbers(bytes: seq<Byte>, matches: seq<PiiMatch>) returns (out: seq<PiiMatch>)
    ensures matches <= out && LeftmostDisjoint(bytes, PhoneAt, |bytes|, out[|matches|..])
  {
    PatternsAreSound();
    out := matches;
    ghost var found: seq<PiiMatch> := [];
    var i := 0;
    while i < |bytes|
      invariant 0 <= i <= |bytes|
      invariant out == matches + found && LeftmostDisjoint(bytes, PhoneAt, i, found)
    {
      PushLeftmost(bytes, PhoneAt, i, found);
      if MobileAt(bytes, i) {
        out := out + [PiiMatch(PhoneNumber, i, i + 13, bytes[i..i + 13], 0.9)];
        found := found + [PhoneAt(bytes, i).value];
        i := i + 13;
        continue;
      }
      if LandlineAt(bytes, i) {
        out := out + [PiiMatch(PhoneNumber, i, i + 11, bytes[i..i + 11], 0.8)];
        found := found + [PhoneAt(bytes, i).value];
        i := i + 11;
        continue;
      }
      i := i + 1;
    }
    assert out[|matches|..] == found;
  }

  /** Card numbers in four separated groups. */
  method DetectSeparatedCards(bytes: seq<Byte>, matches: seq<PiiMatch>) returns (out: seq<PiiMatch>)
    ensures matches <= out && LeftmostDisjoint(bytes, SeparatedCardAt, |bytes|, out[|matches|..])
  {
    PatternsAreSound();
    out := matches;
    ghost var found: seq<PiiMatch> := [];
    var i := 0;
    while i + 19 <= |bytes|
      invariant 0 <= i <= |bytes|
      invariant out == matches + found && LeftmostDisjoint(bytes, SeparatedCardAt, i, found)
    {
      PushLeftmost(bytes, SeparatedCardAt, i, found);
      if GroupsAt(bytes, i, DASH) {
        out := out + [PiiMatch(CardNumber, i, i + 19, bytes[i..i + 19], 0.9)];
        found := found + [SeparatedCardAt(bytes, i).value];
        i := i + 19;
        continue;
      }
      if GroupsAt(bytes, i, SPACE) {
        var prevOk := i == 0 || !IsDigit(bytes[i - 1]);
        var nextOk := i + 19 >= |bytes| || !IsDigit(bytes[i + 19]);
        if prevOk && nextOk {
          out := out + [PiiMatch(CardNumber, i, i + 19, bytes[i..i + 19], 0.85)];
          found := found + [SeparatedCardAt(bytes, i).value];
          i := i + 19;
          continue;
        }
      }
      i := i + 1;
    }
    assert forall p: nat :: i <= p < |bytes| ==> SeparatedCardAt(bytes, p).None?;
    assert out[|matches|..] == found;
  }

  /** Some match spans the bytes from `start` to `end`. */
  predicate Covered(start: nat, end: nat, matches: seq<PiiMatch>) {
    exists f :: f in matches && f.start <= start && f.end >= end
  }

  /** The isolated 16-digit runs before `n` that no earlier match covers, in order. */
  ghost predicate UncoveredRuns(bytes: seq<Byte>, matches: seq<PiiMatch>, n: nat, found: seq<PiiMatch>) {
    && AllMatch(bytes, BareCardAt, found) && InOrder(found)
    && (forall m :: m in found ==> m.start < n && !Covered(m.start, m.end, matches))
    && (forall p: nat :: p < n && BareCardAt(bytes, p).Some? ==>
          Covered(p, p + 16, matches) || BareCardAt(bytes, p).value in found)
  }

  lemma {:induction false} PushUncovered(bytes: seq<Byte>, matches: seq<PiiMatch>, n: nat, found: seq<PiiMatch>)
    requires UncoveredRuns(bytes, matches, n, found)
    ensures BareCardAt(bytes, n).None? ==> UncoveredRuns(bytes, matches, n + 1, found)
    ensures BareCardAt(bytes, n).Some? ==>
              var m := BareCardAt(bytes, n).value;
              UncoveredRuns(bytes, matches, n + 16, if Covered(n, n + 16, matches) then found else found + [m])
  {
    if BareCardAt(bytes, n).Some? {
      var m := BareCardAt(bytes, n).value;
      forall p: nat | n < p < n + 16 ensures BareCardAt(bytes, p).None? {
        assert IsDigit(bytes[p - 1]);
      }
      forall p: nat | p < n + 16 && BareCardAt(bytes, p).Some?
        ensures Covered(p, p + 16, matches) || BareCardAt(bytes, p).value in found + [m]
      {
        assert p <= n;
      }
    }
  }

  /** No run starts inside another, so one found earlier never covers a later one. */
  lemma {:induction false} RunsDoNotCover(bytes: seq<Byte>, matches: seq<PiiMatch>, n: nat, found: seq<PiiMatch>)
    requires UncoveredRuns(bytes, matches, n, found) && BareCardAt(bytes, n).Some?
    ensures Covered(n, n + 16, matches + found) <==> Covered(n, n + 16, matches)
  {
    forall f | f in found ensures !(f.start <= n && n + 16 <= f.end) {
      assert BareCardAt(bytes, f.start) == Some(f) && f.start < n;
    }
    if Covered(n, n + 16, matches) {
      var f :| f in matches && f.start <= n && f.end >= n + 16;
      assert f in matches + found;
    }
  }

  /** What the scan does at one position keeps the reports complete. */
  lemma {:induction false} NextRun(bytes: seq<Byte>, matches: seq<PiiMatch>, n: nat, found: seq<PiiMatch>)
    requires UncoveredRuns(bytes, matches, n, found)
    ensures BareCardAt(bytes, n).None? ==> UncoveredRuns(bytes, matches, n + 1, found)
    ensures BareCardAt(bytes, n).Some? && Covered(n, n + 16, matches + found) ==>
              UncoveredRuns(bytes, matches, n + 16, found)
    ensures BareCardAt(bytes, n).Some? && !Covered(n, n + 16, matches + found) ==>
              UncoveredRuns(bytes, matches, n + 16, found + [BareCardAt(bytes, n).value])
  {
    hide UncoveredRuns, BareCardAt, Covered;
    PushUncovered(bytes, matches, n, found);
    if BareCardAt(bytes, n).Some? {
      RunsDoNotCover(bytes, matches, n, found);
    }
  }

  /** The test the scan makes at each position. */
  method TestBareCard(bytes: seq<Byte>, j: nat) returns (isolatedRun: bool)
    requires j + 16 <= |bytes|
    ensures isolatedRun <==> BareCardAt(bytes, j).Some?
    ensures isolatedRun ==>
              BareCardAt(bytes, j).value == PiiMatch(CardNumber, j, j + 16, bytes[j..j + 16], 0.75)
  {
    if Digits(bytes, j, 16) {
      var prevOk := j == 0 || !IsDigit(bytes[j - 1]);
      var nextOk := j + 16 >= |bytes| || !IsDigit(bytes[j + 16]);
      return prevOk && nextOk;
    }
    return false;
  }

  lemma {:induction false} NoRunsAtEnd(bytes: seq<Byte>, matches: seq<PiiMatch>, j: nat, found: seq<PiiMatch>)
    requires UncoveredRuns(bytes, matches, j, found) && j <= |bytes| < j + 16
    ensures UncoveredRuns(bytes, matches, |bytes|, found)
  {
    assert forall p: nat :: j <= p < |bytes| ==> BareCardAt(bytes, p).None?;
  }

  /** Card numbers without separators, unless a match already covers them. */
  method DetectBareCards(bytes: seq<Byte>, matches: seq<PiiMatch>) returns (out: seq<PiiMatch>)
    ensures matches <= out && UncoveredRuns(bytes, matches, |bytes|, out[|matches|..])
  {
    assert UncoveredRuns(bytes, matches, 0, []);
    hide UncoveredRuns, BareCardAt, Covered, Digits, Isolated;
    out := matches;
    ghost var found: seq<PiiMatch> := [];
    var j := 0;
    while j + 16 <= |bytes|
      invariant 0 <= j <= |bytes|
      invariant out == matches + found && UncoveredRuns(bytes, matches, j, found)
    {
      NextRun(bytes, matches, j, found);
      var isolatedRun := TestBareCard(bytes, j);
      if isolatedRun {
        var alreadyFound := Covered(j, j + 16, out);
        if !alreadyFound {
          out := out + [PiiMatch(CardNumber, j, j + 16, bytes[j..j + 16], 0.75)];
          found := found + [BareCardAt(bytes, j).value];
        }
        j := j + 16;
        continue;
      }
      j := j + 1;
    }
    NoRunsAtEnd(bytes, matches, j, found);
    assert out[|matches|..] == found;
  }
}
