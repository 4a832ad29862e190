/** The e-mail scanner: it works on characters and converts the character range
    of each address to a byte range. */
module EmailScanner {
  import opened Prelude
  import opened Utf8
  import opened PiiDetector

  /** Unicode's alphanumeric characters, of which '@' is not one. */
  ghost predicate IsAlphabet(isAlphanumeric: char -> bool) {
    !isAlphanumeric('@')
  }

  predicate IsLocalChar(c: char, isAlphanumeric: char -> bool) {
    isAlphanumeric(c) || c == '.' || c == '_' || c == '-' || c == '+'
  }

  predicate IsDomainChar(c: char, isAlphanumeric: char -> bool) {
    isAlphanumeric(c) || c == '.' || c == '-'
  }

  predicate IsAsciiAlphabetic(c: char) {
    'a' <= c <= 'z' || 'A' <= c <= 'Z'
  }

  /** The address around the '@' at `i` reaches from `from` to `to`: as far as
      local characters go to the left and domain characters to the right. */
  ghost predicate AddressRange(chars: string, i: nat, isAlphanumeric: char -> bool, from: nat, to: nat) {
    && from <= i < to <= |chars|
    && (forall k :: from <= k < i ==> IsLocalChar(chars[k], isAlphanumeric))
    && (from > 0 ==> !IsLocalChar(chars[from - 1], isAlphanumeric))
    && (forall k :: i < k < to ==> IsDomainChar(chars[k], isAlphanumeric))
    && (to < |chars| ==> !IsDomainChar(chars[to], isAlphanumeric))
  }

  /** After some dot the rest of the domain is two or more ASCII letters. */
  ghost predicate EndsInTopLevelDomain(chars: string, i: nat, to: nat)
    requires i < to <= |chars|
  {
    exists d :: i < d < to && chars[d] == '.' && to - d >= 3 && forall k :: d < k < to ==> IsAsciiAlphabetic(chars[k])
  }

  /** There is an address around the '@' at `i`, and it is what `from` and `to` delimit. */
  ghost predicate AddressAt(chars: string, i: nat, isAlphanumeric: char -> bool, from: nat, to: nat) {
    && i < |chars| && chars[i] == '@'
    && AddressRange(chars, i, isAlphanumeric, from, to)
    && from < i && EndsInTopLevelDomain(chars, i, to)
  }

  /** The character may stand in the local part, or in the domain, of an address. */
  ghost predicate MayStandIn(c: char, signs: string, isAlphanumeric: char -> bool) {
    isAlphanumeric(c) || c in signs
  }

  /** The code points of the letters from A to Z and from a to z. */
  ghost predicate IsAsciiLetter(c: char) {
    65 <= c as int <= 90 || 97 <= c as int <= 122
  }

  /** An address as one writes it: alphanumeric characters and the signs `._-+`
      before the '@', alphanumeric characters, dots and hyphens behind it, ending in
      a dot and two or more letters, as long as possible on both sides. */
  lemma {:induction false} AddressForm(chars: string, i: nat, isAlphanumeric: char -> bool, from: nat, to: nat)
    ensures AddressAt(chars, i, isAlphanumeric, from, to) <==>
            && from < i < to <= |chars| && chars[i] == '@'
            && (forall k :: from <= k < i ==> MayStandIn(chars[k], "._-+", isAlphanumeric))
            && (from > 0 ==> !MayStandIn(chars[from - 1], "._-+", isAlphanumeric))
            && (forall k :: i < k < to ==> MayStandIn(chars[k], ".-", isAlphanumeric))
            && (to < |chars| ==> !MayStandIn(chars[to], ".-", isAlphanumeric))
            && exists d :: i < d < to - 2 && chars[d] == '.' && forall k :: d < k < to ==> IsAsciiLetter(chars[k])
  {
    forall c: char ensures IsLocalChar(c, isAlphanumeric) <==> MayStandIn(c, "._-+", isAlphanumeric) {}
    forall c: char ensures IsDomainChar(c, isAlphanumeric) <==> MayStandIn(c, ".-", isAlphanumeric) {}
    forall c: char ensures IsAsciiAlphabetic(c) <==> IsAsciiLetter(c) {}
    hide IsLocalChar, IsDomainChar, IsAsciiAlphabetic, MayStandIn, IsAsciiLetter;
  }

  lemma {:induction false} AddressRangeUnique(chars: string, i: nat, isAlphanumeric: char -> bool, from: nat, to: nat,
                                              from': nat, to': nat)
    requires AddressRange(chars, i, isAlphanumeric, from, to) && AddressRange(chars, i, isAlphanumeric, from', to')
    ensures from == from' && to == to'
  {
  }

  /** The match for an address: the byte range of its characters. */
  ghost predicate IsEmailMatch(chars: string, from: nat, to: nat, m: PiiMatch) {
    && from <= to <= |chars|
    && m == PiiMatch(Email, Offset(chars, from), Offset(chars, to), Encode(chars[from..to]), 0.95)
  }

  /** `found` has one match for every address around an '@' before `n`, in the
      order of the '@'s; `ats` are their positions. */
  ghost predicate EveryAddress(chars: string, isAlphanumeric: char -> bool, n: nat, ats: seq<nat>,
                               found: seq<PiiMatch>) {
    && |ats| == |found|
    && (forall j, k :: 0 <= j < k < |ats| ==> ats[j] < ats[k])
    && (forall k :: 0 <= k < |ats| ==> ats[k] < n && MatchesAddress(chars, ats[k], isAlphanumeric, found[k]))
    && (forall i: nat :: i < n && HasAddress(chars, i, isAlphanumeric) ==> i in ats)
  }

  ghost predicate HasAddress(chars: string, i: nat, isAlphanumeric: char -> bool) {
    exists from, to :: AddressAt(chars, i, isAlphanumeric, from, to)
  }

  ghost predicate MatchesAddress(chars: string, i: nat, isAlphanumeric: char -> bool, m: PiiMatch) {
    exists from, to :: AddressAt(chars, i, isAlphanumeric, from, to) && IsEmailMatch(chars, from, to, m)
  }

  /** The byte index of character `k`, if the text has that many. */
  function CharIndex(chars: string, k: nat): Option<nat> {
    if k < |chars| then Some(Offset(chars, k)) else None
  }

  /** Extends the address around the '@' at `i` in both directions. */
  method Delimit(chars: string, i: nat, isAlphanumeric: char -> bool)
    returns (localStart: nat, domainEnd: nat, lastDot: Option<nat>)
    requires i < |chars|
    ensures AddressRange(chars, i, isAlphanumeric, localStart, domainEnd)
    ensures lastDot.None? ==> forall k :: i < k < domainEnd ==> chars[k] != '.'
    ensures lastDot.Some? ==>
              && i < lastDot.value < domainEnd && chars[lastDot.value] == '.'
              && forall k :: lastDot.value < k < domainEnd ==> chars[k] != '.'
  {
    localStart := i;
    while localStart > 0 && IsLocalChar(chars[localStart - 1], isAlphanumeric)
      invariant localStart <= i
      invariant forall k :: localStart <= k < i ==> IsLocalChar(chars[k], isAlphanumeric)
    {
      localStart := localStart - 1;
    }
    domainEnd, lastDot := i + 1, None;
    while domainEnd < |chars| && IsDomainChar(chars[domainEnd], isAlphanumeric)
      invariant i < domainEnd <= |chars|
      invariant forall k :: i < k < domainEnd ==> IsDomainChar(chars[k], isAlphanumeric)
      invariant lastDot.None? ==> forall k :: i < k < domainEnd ==> chars[k] != '.'
      invariant lastDot.Some? ==>
                  && i < lastDot.value < domainEnd && chars[lastDot.value] == '.'
                  && forall k :: lastDot.value < k < domainEnd ==> chars[k] != '.'
    {
      if chars[domainEnd] == '.' {
        lastDot := Some(domainEnd);
      }
      domainEnd := domainEnd + 1;
    }
  }

  predicate HasValidTld(chars: string, lastDot: Option<nat>, domainEnd: nat)
    requires domainEnd <= |chars| && (lastDot.Some? ==> lastDot.value < domainEnd)
  {
    match lastDot
    case None => false
    case Some(d) => domainEnd - (d + 1) >= 2 && forall k :: d + 1 <= k < domainEnd ==> IsAsciiAlphabetic(chars[k])
  }

  method DetectEmails(chars: string, isAlphanumeric: char -> bool, matches: seq<PiiMatch>) returns (out: seq<PiiMatch>)
    requires IsAlphabet(isAlphanumeric)
    ensures matches <= out
    ensures exists ats :: EveryAddress(chars, isAlphanumeric, |chars|, ats, out[|matches|..])
  {
    hide EveryAddress, HasAddress;
    out := matches;
    ghost var ats: seq<nat> := [];
    NoAddressesYet(chars, isAlphanumeric);
    assert out[|matches|..] == [];
    var i := 0;
    while i < |chars|
      invariant 0 <= i <= |chars|
      invariant matches <= out
      invariant EveryAddress(chars, isAlphanumeric, i, ats, out[|matches|..])
    {
      if chars[i] == '@' && i > 0 {
        var localStart, domainEnd, lastDot := Delimit(chars, i, isAlphanumeric);
        var hasValidTld := HasValidTld(chars, lastDot, domainEnd);
        TldIsTopLevelDomain(chars, i, domainEnd, lastDot);
        if localStart < i && domainEnd > i + 1 && hasValidTld {
          var byteStart := CharIndex(chars, localStart).GetOr(0);
          var byteEnd := CharIndex(chars, domainEnd).GetOr(|Encode(chars)|);
          ByteRange(chars, localStart, domainEnd);
          var m := PiiMatch(Email, byteStart, byteEnd, Encode(chars)[byteStart..byteEnd], 0.95);
          PushAddress(chars, isAlphanumeric, i, ats, out[|matches|..], localStart, domainEnd, m);
          assert (out + [m])[|matches|..] == out[|matches|..] + [m];
          out := out + [m];
          ats := ats + [i];
          i := domainEnd;
          continue;
        }
        NoAddress(chars, isAlphanumeric, i, localStart, domainEnd);
      } else {
        NotAnAddress(chars, isAlphanumeric, i);
      }
      SkipPosition(chars, isAlphanumeric, i, ats, out[|matches|..]);
      i := i + 1;
    }
    assert i == |chars|;
    assert EveryAddress(chars, isAlphanumeric, |chars|, ats, out[|matches|..]);
  }

  /** The character range and the computed byte range denote the same text. */
  lemma {:induction false} ByteRange(chars: string, from: nat, to: nat)
    requires from < to <= |chars|
    ensures var byteStart := CharIndex(chars, from).GetOr(0);
            var byteEnd := CharIndex(chars, to).GetOr(|Encode(chars)|);
            && byteStart == Offset(chars, from) < byteEnd == Offset(chars, to) <= |Encode(chars)|
            && Encode(chars)[byteStart..byteEnd] == Encode(chars[from..to])
  {
    EncodeSlice(chars, from, to);
  }

  lemma {:induction false} TldIsTopLevelDomain(chars: string, i: nat, to: nat, lastDot: Option<nat>)
    requires i < to <= |chars|
    requires lastDot.None? ==> forall k :: i < k < to ==> chars[k] != '.'
    requires lastDot.Some? ==>
               && i < lastDot.value < to && chars[lastDot.value] == '.'
               && forall k :: lastDot.value < k < to ==> chars[k] != '.'
    ensures HasValidTld(chars, lastDot, to) <==> EndsInTopLevelDomain(chars, i, to)
  {
    if EndsInTopLevelDomain(chars, i, to) {
      var d :| i < d < to && chars[d] == '.' && to - d >= 3 && forall k :: d < k < to ==> IsAsciiAlphabetic(chars[k]);
      assert lastDot.Some? && d == lastDot.value;
    }
  }

  lemma {:induction false} NoAddress(chars: string, isAlphanumeric: char -> bool, i: nat, from: nat, to: nat)
    requires AddressRange(chars, i, isAlphanumeric, from, to)
    requires from == i || !EndsInTopLevelDomain(chars, i, to)
    ensures !HasAddress(chars, i, isAlphanumeric)
  {
    forall from': nat, to': nat ensures !AddressAt(chars, i, isAlphanumeric, from', to') {
      if AddressAt(chars, i, isAlphanumeric, from', to') {
        AddressRangeUnique(chars, i, isAlphanumeric, from, to, from', to');
        assert false;
      }
    }
  }

  /** A position without an '@', and position 0, have no address. */
  lemma {:induction false} NotAnAddress(chars: string, isAlphanumeric: char -> bool, i: nat)
    requires i < |chars| && (chars[i] != '@' || i == 0)
    ensures !HasAddress(chars, i, isAlphanumeric)
  {
  }

  lemma {:induction false} DomainHasNoAddress(chars: string, isAlphanumeric: char -> bool, i: nat, from: nat, to: nat,
                                              p: nat)
    requires IsAlphabet(isAlphanumeric) && AddressRange(chars, i, isAlphanumeric, from, to) && i < p < to
    ensures !HasAddress(chars, p, isAlphanumeric)
  {
    assert IsDomainChar(chars[p], isAlphanumeric);
  }

  lemma {:induction false} NoAddressesYet(chars: string, isAlphanumeric: char -> bool)
    ensures EveryAddress(chars, isAlphanumeric, 0, [], [])
  {
  }

  lemma {:induction false} SkipPosition(chars: string, isAlphanumeric: char -> bool, i: nat, ats: seq<nat>,
                                        found: seq<PiiMatch>)
    requires EveryAddress(chars, isAlphanumeric, i, ats, found) && !HasAddress(chars, i, isAlphanumeric)
    ensures EveryAddress(chars, isAlphanumeric, i + 1, ats, found)
  {
    hide HasAddress, MatchesAddress;
  }

  lemma {:induction false} PushAddress(chars: string, isAlphanumeric: char -> bool, i: nat, ats: seq<nat>,
                                       found: seq<PiiMatch>, from: nat, to: nat, m: PiiMatch)
    requires IsAlphabet(isAlphanumeric) && EveryAddress(chars, isAlphanumeric, i, ats, found)
    requires AddressAt(chars, i, isAlphanumeric, from, to) && IsEmailMatch(chars, from, to, m)
    ensures EveryAddress(chars, isAlphanumeric, to, ats + [i], found + [m])
  {
    forall p: nat | i < p < to ensures !HasAddress(chars, p, isAlphanumeric) {
      DomainHasNoAddress(chars, isAlphanumeric, i, from, to, p);
    }
    assert MatchesAddress(chars, i, isAlphanumeric, m);
    PushFound(chars, isAlphanumeric, i, ats, found, to, m);
  }

  lemma {:induction false} PushFound(chars: string, isAlphanumeric: char -> bool, i: nat, ats: seq<nat>,
                                     found: seq<PiiMatch>, to: nat, m: PiiMatch)
    requires EveryAddress(chars, isAlphanumeric, i, ats, found) && MatchesAddress(chars, i, isAlphanumeric, m)
    requires i < to && forall p: nat :: i < p < to ==> !HasAddress(chars, p, isAlphanumeric)
    ensures EveryAddress(chars, isAlphanumeric, to, ats + [i], found + [m])
  {
    hide HasAddress, MatchesAddress;
    forall p: nat | p < to && HasAddress(chars, p, isAlphanumeric) ensures p in ats + [i] {
      assert p < i ==> p in ats;
    }
  }
}
