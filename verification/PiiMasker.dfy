/** Replacing the detected spans by masks, left to right. */
module PiiMasker {
  import opened Prelude
  import opened Utf8
  import opened PiiDetector
  import opened EmailScanner
  import opened ContextValidation
  import opened Detection
  import Sorting

  function MaskOf(t: PiiType): string {
    match t
    case KoreanSsn => "******-*******"
    case PhoneNumber => "***-****-****"
    case Email => "****@****.***"
    case CardNumber => "****-****-****-****"
  }

  function ByStart(m: PiiMatch): real {
    m.start as real
  }

  function EndOf(chosen: seq<PiiMatch>): nat {
    if |chosen| == 0 then 0 else chosen[|chosen| - 1].end
  }

  /** The spans that get masked: each in turn, unless it begins before the end
      of the one masked last. */
  function Choose(sorted: seq<PiiMatch>): seq<PiiMatch> {
    if |sorted| == 0 then []
    else
      var chosen, m := Choose(sorted[..|sorted| - 1]), sorted[|sorted| - 1];
      if m.start >= EndOf(chosen) then chosen + [m] else chosen
  }

  ghost predicate InRange(bytes: seq<Byte>, matches: seq<PiiMatch>) {
    forall m :: m in matches ==> m.start <= m.end <= |bytes|
  }

  ghost predicate StartsInRange(bytes: seq<Byte>, matches: seq<PiiMatch>) {
    forall m :: m in matches ==> m.start <= m.end && m.start <= |bytes|
  }

  /** The text up to the end of the last chosen span, each span replaced by its
      mask and every byte between them kept. */
  ghost function Render(bytes: seq<Byte>, chosen: seq<PiiMatch>): seq<Byte>
    requires StartsInRange(bytes, chosen) && Disjoint(chosen)
  {
    if |chosen| == 0 then []
    else
      var front, m := chosen[..|chosen| - 1], chosen[|chosen| - 1];
      FrontEndsBefore(front, m, chosen);
      Render(bytes, front) + bytes[EndOf(front)..m.start] + Encode(MaskOf(m.piiType))
  }

  lemma {:induction false} FrontEndsBefore(front: seq<PiiMatch>, m: PiiMatch, chosen: seq<PiiMatch>)
    requires |chosen| > 0 && front == chosen[..|chosen| - 1] && m == chosen[|chosen| - 1]
    requires Disjoint(chosen)
    ensures Disjoint(front) && EndOf(front) <= m.start
    ensures forall c :: c in front ==> c in chosen
  {
  }

  lemma {:induction false} LastInRange(bytes: seq<Byte>, chosen: seq<PiiMatch>)
    requires InRange(bytes, chosen)
    ensures EndOf(chosen) <= |bytes|
  {
    if |chosen| > 0 {
      assert chosen[|chosen| - 1] in chosen;
    }
  }

  /** The whole text with the chosen spans replaced. */
  ghost function Masked(bytes: seq<Byte>, chosen: seq<PiiMatch>): seq<Byte>
    requires InRange(bytes, chosen) && Disjoint(chosen)
  {
    LastInRange(bytes, chosen);
    Render(bytes, chosen) + bytes[EndOf(chosen)..]
  }

  lemma {:induction false} ChosenAreDisjoint(sorted: seq<PiiMatch>)
    requires forall m :: m in sorted ==> m.start <= m.end
    ensures Disjoint(Choose(sorted))
    ensures forall m :: m in Choose(sorted) ==> m in sorted
    ensures forall m :: m in Choose(sorted) ==> m.end <= EndOf(Choose(sorted))
  {
    if |sorted| == 0 {
    } else {
      ChosenAreDisjoint(sorted[..|sorted| - 1]);
    }
  }

  ghost predicate AreSpans(matches: seq<PiiMatch>) {
    forall m :: m in matches ==> m.start <= m.end
  }

  /** Every span begins and ends between characters of the text. */
  ghost predicate Cuttable(bytes: seq<Byte>, chosen: seq<PiiMatch>) {
    forall c :: c in chosen ==> IsCharBoundary(bytes, c.start) && IsCharBoundary(bytes, c.end)
  }

  /** Aborts at the first slice that does not lie between characters. */
  method ApplyMasks(bytes: seq<Byte>, matches: seq<PiiMatch>) returns (r: Result<seq<Byte>, Abort>)
    requires AreSpans(matches)
    ensures r.Ok? <==> Cuttable(bytes, ChosenFrom(matches))
    ensures r.Ok? ==> InRange(bytes, ChosenFrom(matches)) && Disjoint(ChosenFrom(matches))
                      && r.value == Masked(bytes, ChosenFrom(matches))
  {
    hide ChosenSoFar, Cuttable, IsCharBoundary, InRange, Disjoint, Choose;
    var sorted := Sorting.SortBy(matches, ByStart);
    SortedSpans(matches);
    NothingChosen(bytes);
    if |matches| == 0 {
      AllChosen(bytes, [], 0, []);
      StartIsBoundary(bytes);
      return Ok(bytes);
    }
    var result: seq<Byte> := [];
    var lastEnd: nat := 0;
    for i := 0 to |sorted|
      invariant ChosenSoFar(bytes, sorted[..i], lastEnd, result)
    {
      assert sorted[..i + 1] == sorted[..i] + [sorted[i]];
      assert sorted[i] in sorted;
      ChooseNext(bytes, sorted[..i], sorted[i], lastEnd, result);
      if sorted[i].start >= lastEnd {
        if !IsCharBoundary(bytes, lastEnd) || !IsCharBoundary(bytes, sorted[i].start) {
          ChosenStay(bytes, sorted, i + 1);
          return Err(SliceOffBoundary);
        }
        BoundaryIsInside(bytes, sorted[i].start);
        result := result + bytes[lastEnd..sorted[i].start];
        result := result + Encode(MaskOf(sorted[i].piiType));
        lastEnd := sorted[i].end;
      }
    }
    assert sorted[..|sorted|] == sorted;
    AllChosen(bytes, sorted, lastEnd, result);
    if !IsCharBoundary(bytes, lastEnd) {
      return Err(SliceOffBoundary);
    }
    result := result + bytes[lastEnd..];
    return Ok(result);
  }

  lemma {:induction false} BoundaryIsInside(bytes: seq<Byte>, p: nat)
    requires IsCharBoundary(bytes, p)
    ensures p <= |bytes|
  {
  }

  /** The spans that get masked, out of all reported ones. */
  function ChosenFrom(matches: seq<PiiMatch>): seq<PiiMatch> {
    Choose(Sorting.SortBy(matches, ByStart))
  }

  lemma {:induction false} SortedSpans(matches: seq<PiiMatch>)
    requires AreSpans(matches)
    ensures AreSpans(Sorting.SortBy(matches, ByStart))
    ensures |Sorting.SortBy(matches, ByStart)| == |matches|
  {
    Sorting.SortByIsSorted(matches, ByStart);
    Sorting.SameElements(matches, Sorting.SortBy(matches, ByStart));
  }

  /** The state of the loop: what has been written for the spans seen so far. All
      ends have been used in a slice but that of the span masked last. */
  ghost predicate ChosenSoFar(bytes: seq<Byte>, seen: seq<PiiMatch>, lastEnd: nat, result: seq<Byte>) {
    var chosen := Choose(seen);
    && StartsInRange(bytes, chosen) && Disjoint(chosen)
    && (forall j :: 0 <= j < |chosen| ==> IsCharBoundary(bytes, chosen[j].start))
    && (forall j :: 0 <= j < |chosen| - 1 ==> IsCharBoundary(bytes, chosen[j].end))
    && lastEnd == EndOf(chosen)
    && result == Render(bytes, chosen)
  }

  lemma {:induction false} NothingChosen(bytes: seq<Byte>)
    ensures ChosenSoFar(bytes, [], 0, [])
  {
  }

  lemma {:induction false} AllChosen(bytes: seq<Byte>, sorted: seq<PiiMatch>, lastEnd: nat, result: seq<Byte>)
    requires ChosenSoFar(bytes, sorted, lastEnd, result)
    ensures IsCharBoundary(bytes, lastEnd) <==> Cuttable(bytes, Choose(sorted))
    ensures IsCharBoundary(bytes, lastEnd) ==>
              && InRange(bytes, Choose(sorted)) && Disjoint(Choose(sorted)) && lastEnd <= |bytes|
              && result + bytes[lastEnd..] == Masked(bytes, Choose(sorted))
  {
    hide Render;
    var chosen := Choose(sorted);
    assert |chosen| > 0 ==> chosen[|chosen| - 1] in chosen;
    if IsCharBoundary(bytes, lastEnd) {
      forall c | c in chosen
        ensures IsCharBoundary(bytes, c.start) && IsCharBoundary(bytes, c.end)
      {
        var j :| 0 <= j < |chosen| && chosen[j] == c;
      }
    }
  }

  lemma {:induction false} ChooseNext(bytes: seq<Byte>, seen: seq<PiiMatch>, m: PiiMatch, lastEnd: nat,
                                      result: seq<Byte>)
    requires ChosenSoFar(bytes, seen, lastEnd, result) && m.start <= m.end
    ensures m.start < lastEnd ==> ChosenSoFar(bytes, seen + [m], lastEnd, result)
    ensures m.start >= lastEnd && IsCharBoundary(bytes, lastEnd) && IsCharBoundary(bytes, m.start) ==>
              && m.start <= |bytes|
              && ChosenSoFar(bytes, seen + [m], m.end, result + bytes[lastEnd..m.start] + Encode(MaskOf(m.piiType)))
    ensures m.start >= lastEnd && !(IsCharBoundary(bytes, lastEnd) && IsCharBoundary(bytes, m.start)) ==>
              !Cuttable(bytes, Choose(seen + [m]))
  {
    hide ChosenSoFar, Cuttable, IsCharBoundary;
    if m.start >= lastEnd {
      OneMoreChosen(bytes, seen, m, lastEnd, result);
      if IsCharBoundary(bytes, lastEnd) && IsCharBoundary(bytes, m.start) {
        MaskNext(bytes, seen, m, lastEnd, result);
      } else {
        CannotCut(bytes, seen, m, lastEnd, result);
      }
    } else {
      SkipNext(bytes, seen, m, lastEnd, result);
    }
  }

  lemma {:induction false} SkipNext(bytes: seq<Byte>, seen: seq<PiiMatch>, m: PiiMatch, lastEnd: nat, result: seq<Byte>)
    requires ChosenSoFar(bytes, seen, lastEnd, result) && m.start < lastEnd
    ensures ChosenSoFar(bytes, seen + [m], lastEnd, result)
  {
    assert (seen + [m])[..|seen|] == seen;
    assert Choose(seen + [m]) == Choose(seen);
  }

  lemma {:induction false} OneMoreChosen(bytes: seq<Byte>, seen: seq<PiiMatch>, m: PiiMatch, lastEnd: nat,
                                         result: seq<Byte>)
    requires ChosenSoFar(bytes, seen, lastEnd, result) && m.start >= lastEnd
    ensures Choose(seen + [m]) == Choose(seen) + [m]
  {
    assert (seen + [m])[..|seen|] == seen;
  }

  lemma {:induction false} MaskNext(bytes: seq<Byte>, seen: seq<PiiMatch>, m: PiiMatch, lastEnd: nat, result: seq<Byte>)
    requires ChosenSoFar(bytes, seen, lastEnd, result) && lastEnd <= m.start <= m.end
    requires IsCharBoundary(bytes, lastEnd) && IsCharBoundary(bytes, m.start)
    requires Choose(seen + [m]) == Choose(seen) + [m]
    ensures m.start <= |bytes|
    ensures ChosenSoFar(bytes, seen + [m], m.end, result + bytes[lastEnd..m.start] + Encode(MaskOf(m.piiType)))
  {
    hide Encode, Render, IsCharBoundary, Choose, Disjoint, StartsInRange;
    BoundaryIsInside(bytes, m.start);
    RenderNext(bytes, Choose(seen), m);
  }

  lemma {:induction false} CannotCut(bytes: seq<Byte>, seen: seq<PiiMatch>, m: PiiMatch, lastEnd: nat,
                                     result: seq<Byte>)
    requires ChosenSoFar(bytes, seen, lastEnd, result) && Choose(seen + [m]) == Choose(seen) + [m]
    requires !(IsCharBoundary(bytes, lastEnd) && IsCharBoundary(bytes, m.start))
    ensures !Cuttable(bytes, Choose(seen + [m]))
  {
    hide Encode, Render, IsCharBoundary;
    var chosen := Choose(seen);
    assert m in chosen + [m];
    if |chosen| == 0 {
      StartIsBoundary(bytes);
    } else {
      assert chosen[|chosen| - 1] in chosen + [m];
    }
  }

  lemma {:induction false} StartIsBoundary(bytes: seq<Byte>)
    ensures IsCharBoundary(bytes, 0)
  {
  }

  /** A chosen span stays chosen, so a bad one among the first spans is one among all. */
  lemma {:induction false} ChosenStay(bytes: seq<Byte>, sorted: seq<PiiMatch>, n: nat)
    requires n <= |sorted|
    ensures forall c :: c in Choose(sorted[..n]) ==> c in Choose(sorted)
    ensures !Cuttable(bytes, Choose(sorted[..n])) ==> !Cuttable(bytes, Choose(sorted))
  {
    if n == |sorted| {
      assert sorted[..n] == sorted;
    } else {
      ChosenStay(bytes, sorted[..|sorted| - 1], n);
      assert sorted[..|sorted| - 1][..n] == sorted[..n];
    }
  }

  lemma {:induction false} RenderNext(bytes: seq<Byte>, chosen: seq<PiiMatch>, m: PiiMatch)
    requires StartsInRange(bytes, chosen) && Disjoint(chosen)
    requires EndOf(chosen) <= m.start <= m.end && m.start <= |bytes|
    ensures StartsInRange(bytes, chosen + [m]) && Disjoint(chosen + [m])
    ensures Render(bytes, chosen + [m]) ==
            Render(bytes, chosen) + bytes[EndOf(chosen)..m.start] + Encode(MaskOf(m.piiType))
  {
    hide Encode, MaskOf;
    var all := chosen + [m];
    forall i, j | 0 <= i < j < |all| ensures all[i].end <= all[j].start {
      if j == |chosen| && i < |chosen| - 1 {
        assert chosen[i].end <= chosen[|chosen| - 1].start;
        assert chosen[|chosen| - 1] in chosen;
      }
    }
    assert all[..|chosen|] == chosen;
  }

  // ---- Which spans are masked ----

  ghost predicate NonEmpty(matches: seq<PiiMatch>) {
    forall m :: m in matches ==> m.start < m.end
  }

  lemma {:induction false} EveryStartIsChosen(sorted: seq<PiiMatch>)
    requires Sorting.Sorted(sorted, ByStart) && NonEmpty(sorted)
    ensures forall m :: m in sorted ==> Inside(m.start, Choose(sorted))
  {
    hide Choose, Inside;
    if |sorted| == 0 {
    } else {
      var front, m := sorted[..|sorted| - 1], sorted[|sorted| - 1];
      assert sorted == front + [m];
      EveryStartIsChosen(front);
      LastStartIsChosen(front, m);
      forall x | x in front ensures Inside(x.start, Choose(front + [m])) {
        StillInside(front, m, x.start);
      }
    }
  }

  lemma {:induction false} StillInside(front: seq<PiiMatch>, m: PiiMatch, p: nat)
    requires Inside(p, Choose(front))
    ensures Inside(p, Choose(front + [m]))
  {
    assert (front + [m])[..|front|] == front;
    var c :| c in Choose(front) && c.start <= p < c.end;
    assert c in Choose(front) + [m];
    assert c in Choose(front + [m]);
  }

  lemma {:induction false} ChosenAreReported(sorted: seq<PiiMatch>)
    ensures forall c :: c in Choose(sorted) ==> c in sorted
  {
    if |sorted| == 0 {
    } else {
      ChosenAreReported(sorted[..|sorted| - 1]);
    }
  }

  lemma {:induction false} LastStartIsChosen(front: seq<PiiMatch>, m: PiiMatch)
    requires Sorting.Sorted(front + [m], ByStart) && m.start < m.end
    ensures Inside(m.start, Choose(front + [m]))
  {
    assert (front + [m])[..|front|] == front;
    ChosenAreReported(front);
    var chosen := Choose(front);
    if m.start >= EndOf(chosen) {
      assert m in chosen + [m];
    } else {
      var c := chosen[|chosen| - 1];
      assert c in front;
      var i :| 0 <= i < |front| && front[i] == c;
      assert ByStart((front + [m])[i]) <= ByStart((front + [m])[|front|]);
      assert c in chosen;
    }
  }

  /** The first byte of every reported span is masked, so a span that is not
      masked itself begins inside one that is. */
  lemma {:induction false} FirstBytesAreMasked(matches: seq<PiiMatch>, m: PiiMatch)
    requires NonEmpty(matches) && m in matches
    ensures Inside(m.start, ChosenFrom(matches))
    ensures forall c :: c in ChosenFrom(matches) ==> c in matches
  {
    var sorted := Sorting.SortBy(matches, ByStart);
    Sorting.SortByIsSorted(matches, ByStart);
    Sorting.SameElements(matches, sorted);
    EveryStartIsChosen(sorted);
    ChosenAreReported(sorted);
  }

  ghost predicate PairwiseDisjoint(matches: seq<PiiMatch>) {
    forall i, j :: 0 <= i < j < |matches| ==>
                     matches[i].end <= matches[j].start || matches[j].end <= matches[i].start
  }

  lemma {:induction false} DisjointAreAllChosen(sorted: seq<PiiMatch>)
    requires Disjoint(sorted)
    ensures Choose(sorted) == sorted
  {
    if |sorted| == 0 {
    } else {
      var front, m := sorted[..|sorted| - 1], sorted[|sorted| - 1];
      DisjointAreAllChosen(front);
      FrontEndsBefore(front, m, sorted);
      assert sorted == front + [m];
    }
  }

  /** If no two reported spans overlap, every one of them is masked. */
  lemma {:induction false} DisjointSpansAreAllMasked(matches: seq<PiiMatch>)
    requires NonEmpty(matches) && PairwiseDisjoint(matches)
    ensures multiset(ChosenFrom(matches)) == multiset(matches)
  {
    var sorted := Sorting.SortBy(matches, ByStart);
    Sorting.SortByIsSorted(matches, ByStart);
    Sorting.SameElements(matches, sorted);
    assert Distinct(matches) by {
      forall i, j | 0 <= i < j < |matches| ensures matches[i] != matches[j] {
        assert matches[i] in matches;
      }
    }
    Sorting.DistinctRearranged(matches, sorted);
    forall i, j | 0 <= i < j < |sorted| ensures sorted[i].end <= sorted[j].start {
      assert sorted[i] in matches && sorted[j] in matches;
      assert ByStart(sorted[i]) <= ByStart(sorted[j]);
    }
    DisjointAreAllChosen(sorted);
  }

  // ---- When nothing of a report stays ----

  ghost predicate EveryByteMasked(matches: seq<PiiMatch>) {
    forall m, p :: m in matches && m.start <= p < m.end ==> Inside(p, ChosenFrom(matches))
  }

  /** Where a masked span ends inside a report, another report begins. */
  ghost predicate OverlapsContinue(matches: seq<PiiMatch>) {
    forall c, m :: c in ChosenFrom(matches) && m in matches && m.start < c.end < m.end ==> StartsAt(matches, c.end)
  }

  ghost predicate StartsAt(matches: seq<PiiMatch>, p: int) {
    exists r :: r in matches && r.start == p
  }

  /** Every byte of every report is masked if and only if, wherever a masked span
      ends inside a report, another report begins. */
  lemma {:induction false} AllMaskedIffOverlapsContinue(matches: seq<PiiMatch>)
    requires NonEmpty(matches)
    ensures EveryByteMasked(matches) <==> OverlapsContinue(matches)
  {
    hide ChosenFrom, Inside;
    if OverlapsContinue(matches) {
      forall m, p | m in matches && m.start <= p < m.end ensures Inside(p, ChosenFrom(matches)) {
        ByteIsMasked(matches, m, p);
      }
    }
    if EveryByteMasked(matches) {
      forall c, m | c in ChosenFrom(matches) && m in matches && m.start < c.end < m.end
        ensures StartsAt(matches, c.end)
      {
        assert Inside(c.end, ChosenFrom(matches));
        NextChosenContinues(matches, c);
      }
    }
  }

  lemma {:induction false} ByteIsMasked(matches: seq<PiiMatch>, m: PiiMatch, p: nat)
    requires NonEmpty(matches) && OverlapsContinue(matches) && m in matches && m.start <= p < m.end
    ensures Inside(p, ChosenFrom(matches))
  {
    hide ChosenFrom;
    if p == m.start {
      FirstBytesAreMasked(matches, m);
    } else {
      ByteIsMasked(matches, m, p - 1);
      var c :| c in ChosenFrom(matches) && c.start <= p - 1 < c.end;
      if p == c.end {
        var r :| r in matches && r.start == p;
        FirstBytesAreMasked(matches, r);
      }
    }
  }

  /** If the byte behind a chosen span is masked, the span that masks it begins there. */
  lemma {:induction false} NextChosenContinues(matches: seq<PiiMatch>, c: PiiMatch)
    requires NonEmpty(matches) && c in ChosenFrom(matches) && Inside(c.end, ChosenFrom(matches))
    ensures StartsAt(matches, c.end)
  {
    hide ChosenFrom, Disjoint;
    ChosenFromAreDisjoint(matches);
    var next :| next in ChosenFrom(matches) && next.start <= c.end < next.end;
    ChosenIsReported(matches, c);
    ChosenIsReported(matches, next);
    NothingInBetween(ChosenFrom(matches), c, next);
  }

  lemma {:induction false} ChosenFromAreDisjoint(matches: seq<PiiMatch>)
    requires NonEmpty(matches)
    ensures Disjoint(ChosenFrom(matches))
  {
    var sorted := Sorting.SortBy(matches, ByStart);
    Sorting.SortByIsSorted(matches, ByStart);
    Sorting.SameElements(matches, sorted);
    ChosenAreDisjoint(sorted);
  }

  lemma {:induction false} NothingInBetween(chosen: seq<PiiMatch>, c: PiiMatch, next: PiiMatch)
    requires Disjoint(chosen) && c in chosen && next in chosen
    requires c.start < c.end && next.start <= c.end < next.end
    ensures next.start == c.end
  {
    var i :| 0 <= i < |chosen| && chosen[i] == c;
    var j :| 0 <= j < |chosen| && chosen[j] == next;
  }

  /** In particular everything is masked when no report ends strictly inside another. */
  lemma {:induction false} NestedEndsAreAllMasked(matches: seq<PiiMatch>)
    requires NonEmpty(matches)
    requires forall c, m :: c in matches && m in matches ==> !(m.start < c.end < m.end)
    ensures EveryByteMasked(matches)
  {
    hide ChosenFrom;
    forall c | c in ChosenFrom(matches) ensures c in matches {
      ChosenIsReported(matches, c);
    }
    AllMaskedIffOverlapsContinue(matches);
  }

  lemma {:induction false} ChosenIsReported(matches: seq<PiiMatch>, c: PiiMatch)
    requires c in ChosenFrom(matches)
    ensures c in matches
  {
    var sorted := Sorting.SortBy(matches, ByStart);
    Sorting.SortByIsSorted(matches, ByStart);
    Sorting.SameElements(matches, sorted);
    ChosenAreReported(sorted);
  }

  // ---- Spans with the same start ----

  lemma {:induction false} ChosenIsFirstOfStart(sorted: seq<PiiMatch>, c: PiiMatch)
    requires Sorting.Sorted(sorted, ByStart) && NonEmpty(sorted) && c in Choose(sorted)
    ensures var same := Sorting.WithKey(sorted, ByStart, ByStart(c));
            |same| > 0 && same[0] == c
  {
    if |sorted| == 0 {
    } else {
      var front, m := sorted[..|sorted| - 1], sorted[|sorted| - 1];
      assert sorted == front + [m];
      assert c !in Choose(front) ==> c == m && m.start >= EndOf(Choose(front));
      hide Choose;
      SortedFront(front, m);
      if c in Choose(front) {
        ChosenIsFirstOfStart(front, c);
      } else {
        NewStart(front, m);
      }
    }
  }

  lemma {:induction false} SortedFront(front: seq<PiiMatch>, m: PiiMatch)
    requires Sorting.Sorted(front + [m], ByStart) && NonEmpty(front + [m])
    ensures Sorting.Sorted(front, ByStart) && NonEmpty(front)
  {
    var all := front + [m];
    assert forall i :: 0 <= i < |front| ==> front[i] == all[i];
  }

  /** A span that is chosen after others starts where none before it does. */
  lemma {:induction false} NewStart(front: seq<PiiMatch>, m: PiiMatch)
    requires Sorting.Sorted(front, ByStart) && NonEmpty(front) && m.start >= EndOf(Choose(front))
    ensures Sorting.WithKey(front, ByStart, ByStart(m)) == []
  {
    EveryStartIsChosen(front);
    ChosenAreDisjoint(front);
    forall x | x in front ensures ByStart(x) != ByStart(m) {
      assert Inside(x.start, Choose(front));
    }
    Sorting.NoneWithKey(front, ByStart, ByStart(m));
  }

  /** Of several reports with the same start only the first can be masked: the
      scanner that runs first decides. */
  lemma {:induction false} EarlierReportWins(matches: seq<PiiMatch>, c: PiiMatch, i: nat)
    requires NonEmpty(matches) && c in ChosenFrom(matches)
    requires i < |matches| && matches[i].start == c.start
    requires forall j :: 0 <= j < i ==> matches[j].start != c.start
    ensures c == matches[i]
  {
    hide Choose, Sorting.WithKey, Sorting.SortBy;
    var sorted := Sorting.SortBy(matches, ByStart);
    Sorting.SortByIsSorted(matches, ByStart);
    Sorting.SameElements(matches, sorted);
    ChosenIsFirstOfStart(sorted, c);
    Sorting.SortByIsStable(matches, ByStart, ByStart(c));
    Sorting.FirstWithKey(matches, ByStart, ByStart(c), i);
  }

  // ---- What the masks show ----

  /** A single report is cut out and its kind's mask put in its place. */
  lemma {:induction false} OnlyReportIsReplaced(bytes: seq<Byte>, m: PiiMatch)
    requires m.start < m.end <= |bytes|
    ensures ChosenFrom([m]) == [m] && InRange(bytes, [m]) && Disjoint([m])
    ensures Masked(bytes, [m]) ==
            bytes[..m.start]
            + (match m.piiType
               case KoreanSsn => Encode("******-*******")
               case PhoneNumber => Encode("***-****-****")
               case Email => Encode("****@****.***")
               case CardNumber => Encode("****-****-****-****"))
            + bytes[m.end..]
  {
    SortedAlone(m);
    AloneIsChosen(m);
    hide Encode, Choose, Sorting.SortBy;
    RenderNext(bytes, [], m);
    assert [] + [m] == [m];
    assert Render(bytes, []) == [] && EndOf([]) == 0;
    assert [] + bytes[0..m.start] == bytes[..m.start];
  }

  lemma {:induction false} SortedAlone(m: PiiMatch)
    ensures Sorting.SortBy([m], ByStart) == [m]
  {
    assert [m][..0] == [];
  }

  lemma {:induction false} AloneIsChosen(m: PiiMatch)
    ensures Choose([m]) == [m]
  {
    assert [m][..0] == [];
  }

  /** The mask has the length of the span, shows its dashes in place, and stars
      everything else. */
  ghost predicate KeepsShape(bytes: seq<Byte>, m: PiiMatch)
    requires m.start <= m.end <= |bytes|
  {
    var mask := Encode(MaskOf(m.piiType));
    && |mask| == m.end - m.start
    && forall i :: 0 <= i < |mask| ==> mask[i] == if bytes[m.start + i] == DASH then DASH else STAR
  }

  const STAR: Byte := 42

  /** Registration numbers, mobile numbers and dashed card numbers keep their
      shape under the mask; landline numbers and spaced card numbers do not. */
  lemma {:induction false} MaskKeepsShape(bytes: seq<Byte>, p: nat)
    ensures SsnAt(bytes, p).Some? ==> KeepsShape(bytes, SsnAt(bytes, p).value)
    ensures PhoneAt(bytes, p).Some? ==> (KeepsShape(bytes, PhoneAt(bytes, p).value) <==> MobileAt(bytes, p))
    ensures SeparatedCardAt(bytes, p).Some? ==>
              (KeepsShape(bytes, SeparatedCardAt(bytes, p).value) <==> GroupsAt(bytes, p, DASH))
  {
    hide KeepsShape, GroupsAt, MobileAt, LandlineAt;
    SsnKeepsShape(bytes, p);
    PhoneKeepsShape(bytes, p);
    CardKeepsShape(bytes, p);
  }

  lemma {:induction false} SsnKeepsShape(bytes: seq<Byte>, p: nat)
    ensures SsnAt(bytes, p).Some? ==> KeepsShape(bytes, SsnAt(bytes, p).value)
  {
    hide Encode;
    EncodeAscii(MaskOf(KoreanSsn));
  }

  lemma {:induction false} PhoneKeepsShape(bytes: seq<Byte>, p: nat)
    ensures PhoneAt(bytes, p).Some? ==> (KeepsShape(bytes, PhoneAt(bytes, p).value) <==> MobileAt(bytes, p))
  {
    if MobileAt(bytes, p) {
      MobileKeepsShape(bytes, p);
    } else {
      hide Encode, MobileAt, LandlineAt;
      EncodeAscii(MaskOf(PhoneNumber));
    }
  }

  lemma {:induction false} MobileKeepsShape(bytes: seq<Byte>, p: nat)
    requires MobileAt(bytes, p)
    ensures KeepsShape(bytes, PhoneAt(bytes, p).value)
  {
    PhoneMaskBytes();
    MobileDashes(bytes, p);
    hide Encode;
  }

  lemma {:induction false} PhoneMaskBytes()
    ensures var mask := Encode(MaskOf(PhoneNumber));
            |mask| == 13 && forall i :: 0 <= i < 13 ==> mask[i] == if i == 3 || i == 8 then DASH else STAR
  {
    EncodeAscii("***-****-****");
    hide Encode;
  }

  lemma {:induction false} MobileDashes(bytes: seq<Byte>, p: nat)
    requires MobileAt(bytes, p)
    ensures forall k :: p <= k < p + 13 ==> (bytes[k] == DASH <==> k == p + 3 || k == p + 8)
  {
  }

  lemma {:induction false} CardKeepsShape(bytes: seq<Byte>, p: nat)
    ensures SeparatedCardAt(bytes, p).Some? ==>
              (KeepsShape(bytes, SeparatedCardAt(bytes, p).value) <==> GroupsAt(bytes, p, DASH))
  {
    hide Encode;
    EncodeAscii(MaskOf(CardNumber));
    assert GroupsAt(bytes, p, DASH) ==> !GroupsAt(bytes, p, SPACE);
    if GroupsAt(bytes, p, SPACE) {
      assert Encode(MaskOf(CardNumber))[4] == DASH;
    }
  }

  // ---- What is kept ----

  /** How far the masks up to position `p` move the bytes behind them. */
  ghost function Shift(chosen: seq<PiiMatch>, p: nat): int {
    if |chosen| == 0 then 0
    else
      var m := chosen[|chosen| - 1];
      Shift(chosen[..|chosen| - 1], p)
      + if m.end <= p then |Encode(MaskOf(m.piiType))| - (m.end - m.start) else 0
  }

  lemma {:induction false} RenderLength(bytes: seq<Byte>, chosen: seq<PiiMatch>, p: nat)
    requires InRange(bytes, chosen) && Disjoint(chosen) && EndOf(chosen) <= p
    ensures |Render(bytes, chosen)| == EndOf(chosen) + Shift(chosen, p)
  {
    hide Encode, MaskOf;
    if |chosen| == 0 {
    } else {
      var front, m := chosen[..|chosen| - 1], chosen[|chosen| - 1];
      FrontEndsBefore(front, m, chosen);
      assert m in chosen;
      RenderLength(bytes, front, p);
    }
  }

  /** What the last chosen span adds, as seen from a byte before it. */
  lemma {:induction false} RenderLast(bytes: seq<Byte>, front: seq<PiiMatch>, m: PiiMatch, chosen: seq<PiiMatch>,
                                      p: nat)
    requires |chosen| > 0 && front == chosen[..|chosen| - 1] && m == chosen[|chosen| - 1]
    requires InRange(bytes, chosen) && Disjoint(chosen) && p < m.end
    ensures InRange(bytes, front) && Disjoint(front) && EndOf(front) <= m.start <= m.end <= |bytes|
    ensures Render(bytes, chosen) == Render(bytes, front) + bytes[EndOf(front)..m.start] + Encode(MaskOf(m.piiType))
    ensures Shift(chosen, p) == Shift(front, p)
    ensures forall c :: c in front ==> c in chosen
  {
    hide Encode, MaskOf;
    FrontEndsBefore(front, m, chosen);
    assert m in chosen;
  }

  lemma {:induction false} RenderKeeps(bytes: seq<Byte>, chosen: seq<PiiMatch>, p: nat)
    requires InRange(bytes, chosen) && Disjoint(chosen)
    requires p < EndOf(chosen) && !Inside(p, chosen)
    ensures 0 <= p + Shift(chosen, p) < |Render(bytes, chosen)|
    ensures Render(bytes, chosen)[p + Shift(chosen, p)] == bytes[p]
  {
    hide Encode, MaskOf, Render, Shift;
    var front, m := chosen[..|chosen| - 1], chosen[|chosen| - 1];
    RenderLast(bytes, front, m, chosen, p);
    assert m in chosen && p < m.start;
    if p < EndOf(front) {
      assert !Inside(p, front);
      RenderKeeps(bytes, front, p);
    } else {
      RenderLength(bytes, front, p);
    }
  }

  /** Every byte outside the masked spans is still there, moved only by the
      masks before it. */
  lemma {:induction false} OtherBytesAreKept(bytes: seq<Byte>, chosen: seq<PiiMatch>, p: nat)
    requires InRange(bytes, chosen) && Disjoint(chosen) && p < |bytes| && !Inside(p, chosen)
    ensures 0 <= p + Shift(chosen, p) < |Masked(bytes, chosen)|
    ensures Masked(bytes, chosen)[p + Shift(chosen, p)] == bytes[p]
  {
    hide Encode, MaskOf;
    LastInRange(bytes, chosen);
    if p < EndOf(chosen) {
      RenderKeeps(bytes, chosen, p);
    } else {
      RenderLength(bytes, chosen, p);
      assert bytes[EndOf(chosen)..][p - EndOf(chosen)] == bytes[p];
    }
  }

  // ---- Masking a text ----

  lemma {:induction false} RenderIsText(text: string, chosen: seq<PiiMatch>)
    requires (forall m :: m in chosen ==> WellPlaced(text, m)) && Disjoint(chosen)
    ensures InRange(Encode(text), chosen)
    ensures IsBoundary(text, EndOf(chosen))
    ensures exists s :: Encode(s) == Render(Encode(text), chosen)
  {
    hide Encode, MaskOf;
    if |chosen| == 0 {
      NothingRendered(text, chosen);
    } else {
      var front, m := chosen[..|chosen| - 1], chosen[|chosen| - 1];
      FrontEndsBefore(front, m, chosen);
      RenderIsText(text, front);
      assert m in chosen;
      var s :| Encode(s) == Render(Encode(text), front);
      var gap := GapIsText(text, EndOf(front), m.start);
      EncodeAppend(s, gap);
      EncodeAppend(s + gap, MaskOf(m.piiType));
      assert Encode(s + gap + MaskOf(m.piiType)) == Render(Encode(text), chosen);
    }
  }

  lemma {:induction false} NothingRendered(text: string, chosen: seq<PiiMatch>)
    requires |chosen| == 0
    ensures IsBoundary(text, EndOf(chosen))
    ensures Encode("") == Render(Encode(text), chosen)
  {
    EncodeSlice(text, 0, 0);
  }

  lemma {:induction false} GapIsText(text: string, p: nat, q: nat) returns (gap: string)
    requires IsBoundary(text, p) && IsBoundary(text, q) && p <= q
    ensures q <= |Encode(text)| && Encode(gap) == Encode(text)[p..q]
  {
    var i: nat :| i <= |text| && Offset(text, i) == p;
    var j: nat :| j <= |text| && Offset(text, j) == q;
    if j < i {
      EncodeSlice(text, j, i);
    }
    EncodeSlice(text, j, |text|);
    if i <= j {
      EncodeSlice(text, i, j);
      gap := text[i..j];
    } else {
      assert false;
      gap := "";
    }
  }

  /** Masking spans between character boundaries leaves valid UTF-8. */
  lemma {:induction false} MaskedIsText(text: string, chosen: seq<PiiMatch>)
    requires (forall m :: m in chosen ==> WellPlaced(text, m)) && Disjoint(chosen)
    ensures InRange(Encode(text), chosen)
    ensures exists s :: Encode(s) == Masked(Encode(text), chosen)
  {
    hide Encode;
    RenderIsText(text, chosen);
    var s :| Encode(s) == Render(Encode(text), chosen);
    LastInRange(Encode(text), chosen);
    EndIsBoundary(text);
    var gap := GapIsText(text, EndOf(chosen), |Encode(text)|);
    EncodeAppend(s, gap);
    assert Encode(text)[EndOf(chosen)..|Encode(text)|] == Encode(text)[EndOf(chosen)..];
  }

  lemma {:induction false} EndIsBoundary(text: string)
    ensures IsBoundary(text, |Encode(text)|)
  {
    EncodeSlice(text, 0, |text|);
  }

  /** What masking gives for a detection: it aborts exactly when the detection
      does, and otherwise replaces the spans chosen from the reports. */
  ghost predicate IsMasking(text: string, r: Reports, masked: Result<seq<Byte>, Abort>) {
    var bytes := Encode(text);
    var chosen := ChosenFrom(ValidatedAll(bytes, r.All()));
    && (masked.Ok? <==> WindowsFit(text, r.All()))
    && (masked.Ok? ==> InRange(bytes, chosen) && Disjoint(chosen) && masked.value == Masked(bytes, chosen))
  }

  /** Detects and masks. The call aborts exactly when the window around some
      report does not fit; otherwise the result is again valid UTF-8. */
  method MaskText(text: string, isAlphanumeric: char -> bool) returns (masked: Result<seq<Byte>, Abort>)
    requires IsAlphabet(isAlphanumeric)
    ensures exists r: Reports :: IsDetection(text, isAlphanumeric, r) && IsMasking(text, r, masked)
    ensures masked.Ok? ==> exists s :: Encode(s) == masked.value
    ensures IsAscii(text) || |Encode(text)| <= 50 ==> masked.Ok?
  {
    hide Encode, IsDetection, WindowsFit, Cuttable, IsAscii, Choose, ValidatedAll;
    var outcome := Detect(text, isAlphanumeric);
    ghost var r: Reports :| IsDetection(text, isAlphanumeric, r) && IsOutcome(text, r, outcome);
    DetectionCanBeMasked(text, isAlphanumeric, r);
    if IsAscii(text) || |Encode(text)| <= 50 {
      PlainTextsAreDetected(text, isAlphanumeric, r);
    }
    if outcome.Err? {
      masked := Err(outcome.error);
    } else if |outcome.value| == 0 {
      NothingToMask(text, r);
      masked := Ok(Encode(text));
    } else {
      masked := ApplyMasks(Encode(text), outcome.value);
    }
    assert IsMasking(text, r, masked);
  }

  lemma {:induction false} NothingToMask(text: string, r: Reports)
    requires ValidatedAll(Encode(text), r.All()) == []
    ensures ChosenFrom(ValidatedAll(Encode(text), r.All())) == []
    ensures InRange(Encode(text), []) && Disjoint([]) && Masked(Encode(text), []) == Encode(text)
  {
  }

  lemma {:induction false} ValidatedAreWellPlaced(text: string, isAlphanumeric: char -> bool, r: Reports)
    requires IsDetection(text, isAlphanumeric, r)
    ensures forall m :: m in ValidatedAll(Encode(text), r.All()) ==> WellPlaced(text, m)
  {
    hide IsDetection, Encode, InContext;
    var validated := ValidatedAll(Encode(text), r.All());
    forall m | m in validated ensures WellPlaced(text, m) {
      var i :| 0 <= i < |validated| && validated[i] == m;
      DetectionIsWellPlaced(text, isAlphanumeric, r, r.All()[i]);
    }
  }

  /** A report is masked by its span; what validation does to it does not matter. */
  lemma {:induction false} ReportIsMasked(text: string, r: Reports, m: PiiMatch)
    requires m in r.All() && NonEmpty(ValidatedAll(Encode(text), r.All()))
    ensures Inside(m.start, ChosenFrom(ValidatedAll(Encode(text), r.All())))
  {
    hide Encode, InContext, ChosenFrom;
    var i :| 0 <= i < |r.All()| && r.All()[i] == m;
    var validated := ValidatedAll(Encode(text), r.All());
    assert validated[i] in validated && validated[i].start == m.start;
    FirstBytesAreMasked(validated, validated[i]);
  }

  /** No slice of the masker lies off the character boundaries of the text. */
  lemma {:induction false} DetectionCanBeMasked(text: string, isAlphanumeric: char -> bool, r: Reports)
    requires IsDetection(text, isAlphanumeric, r)
    ensures var matches := ValidatedAll(Encode(text), r.All());
            && NonEmpty(matches) && AreSpans(matches)
            && Cuttable(Encode(text), ChosenFrom(matches))
            && InRange(Encode(text), ChosenFrom(matches)) && Disjoint(ChosenFrom(matches))
            && exists s :: Encode(s) == Masked(Encode(text), ChosenFrom(matches))
  {
    hide IsDetection, Encode, ValidatedAll, IsCharBoundary;
    var matches := ValidatedAll(Encode(text), r.All());
    ValidatedAreWellPlaced(text, isAlphanumeric, r);
    var sorted := Sorting.SortBy(matches, ByStart);
    Sorting.SortByIsSorted(matches, ByStart);
    Sorting.SameElements(matches, sorted);
    ChosenAreDisjoint(sorted);
    var chosen := Choose(sorted);
    MaskedIsText(text, chosen);
    forall c | c in chosen ensures IsCharBoundary(Encode(text), c.start) && IsCharBoundary(Encode(text), c.end) {
      assert WellPlaced(text, c);
      BoundaryTestIsExact(text, c.start);
      BoundaryTestIsExact(text, c.end);
    }
  }

  /** In every text that is masked at all, the first byte of each registration
      number and of each e-mail address is masked. */
  lemma {:induction false} NumbersAndAddressesAreMasked(text: string, isAlphanumeric: char -> bool, r: Reports)
    requires IsDetection(text, isAlphanumeric, r)
    ensures var chosen := ChosenFrom(ValidatedAll(Encode(text), r.All()));
            && (forall p: nat :: p < |Encode(text)| && SsnAt(Encode(text), p).Some? ==> Inside(p, chosen))
            && (forall i: nat, from: nat, to: nat :: AddressAt(text, i, isAlphanumeric, from, to) ==>
                  Inside(Offset(text, from), chosen))
  {
    hide Encode, ChosenFrom, IsDetection, ValidatedAll;
    DetectionCanBeMasked(text, isAlphanumeric, r);
    var chosen := ChosenFrom(ValidatedAll(Encode(text), r.All()));
    forall p: nat | p < |Encode(text)| && SsnAt(Encode(text), p).Some? ensures Inside(p, chosen) {
      DetectionIsComplete(text, isAlphanumeric, r, p);
      ReportIsMasked(text, r, SsnAt(Encode(text), p).value);
    }
    forall i: nat, from: nat, to: nat | AddressAt(text, i, isAlphanumeric, from, to)
      ensures Inside(Offset(text, from), chosen)
    {
      EveryAddressIsFound(text, isAlphanumeric, r, i);
      var m :| m in r.All() && MatchesAddress(text, i, isAlphanumeric, m);
      var from': nat, to': nat :| AddressAt(text, i, isAlphanumeric, from', to') && IsEmailMatch(text, from', to', m);
      AddressRangeUnique(text, i, isAlphanumeric, from, to, from', to');
      ReportIsMasked(text, r, m);
    }
  }
}
