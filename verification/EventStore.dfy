/** The in-memory event store: an append-only cost log and its daily totals. */
module EventStore {
  import opened Prelude
  import opened Contracts
  import Sorting

  const DAY_MS: nat := 86_400_000

  function Day(e: CostEvent): nat {
    e.timestampMs / DAY_MS
  }

  /** The cost of the events at or after the cutoff. */
  function CostSince(events: seq<CostEvent>, cutoff: nat): real {
    if |events| == 0 then 0.0
    else
      var e := events[|events| - 1];
      CostSince(events[..|events| - 1], cutoff) + if e.timestampMs >= cutoff then e.costUsd else 0.0
  }

  /** An event counts from the millisecond of the cutoff on. */
  lemma {:induction false} CutoffIsIncluded(events: seq<CostEvent>, e: CostEvent, cutoff: nat)
    ensures e.timestampMs >= cutoff ==> CostSince(events + [e], cutoff) == CostSince(events, cutoff) + e.costUsd
    ensures e.timestampMs < cutoff ==> CostSince(events + [e], cutoff) == CostSince(events, cutoff)
  {
    assert (events + [e])[..|events|] == events;
  }

  /** The cost of the events of one day at or after the cutoff. */
  ghost function DayCost(events: seq<CostEvent>, cutoff: nat, day: nat): real {
    if |events| == 0 then 0.0
    else
      var e := events[|events| - 1];
      DayCost(events[..|events| - 1], cutoff, day)
      + if e.timestampMs >= cutoff && Day(e) == day then e.costUsd else 0.0
  }

  ghost function ActiveDays(events: seq<CostEvent>, cutoff: nat): set<nat> {
    set e | e in events && e.timestampMs >= cutoff :: Day(e)
  }

  ghost predicate Ascending(days: seq<nat>) {
    forall i, j :: 0 <= i < j < |days| ==> days[i] < days[j]
  }

  /** One total for each day with events, in strictly increasing day order. */
  ghost predicate DailyTotals(events: seq<CostEvent>, cutoff: nat, days: seq<nat>, costs: seq<real>) {
    && Ascending(days) && |costs| == |days|
    && (forall d :: d in days <==> d in ActiveDays(events, cutoff))
    && (forall i :: 0 <= i < |days| ==> costs[i] == DayCost(events, cutoff, days[i]))
  }

  function Cutoff(nowMs: nat, days: nat): nat {
    if nowMs >= days * DAY_MS then nowMs - days * DAY_MS else 0
  }

  class InMemoryEventStore {
    var costEvents: seq<CostEvent>

    constructor ()
      ensures costEvents == []
    {
      costEvents := [];
    }

    method RecordCost(event: CostEvent)
      modifies this
      ensures costEvents == old(costEvents) + [event]
    {
      costEvents := costEvents + [event];
    }

    method DailyCosts(days: nat, nowMs: nat) returns (costs: seq<real>)
      ensures exists active :: DailyTotals(costEvents, Cutoff(nowMs, days), active, costs)
    {
      hide Grouped, DailyTotals, Ascending;
      var cutoff := Cutoff(nowMs, days);
      if |costEvents| == 0 {
        costs := [];
        NoTotals(costEvents, cutoff);
        return;
      }
      NothingGrouped(costEvents, cutoff);
      var daily: map<nat, real> := map[];
      for i := 0 to |costEvents|
        invariant Grouped(costEvents[..i], cutoff, daily)
      {
        var event := costEvents[i];
        GroupOneMore(costEvents[..i], cutoff, daily, event);
        assert costEvents[..i + 1] == costEvents[..i] + [event];
        if event.timestampMs >= cutoff {
          var dayKey := event.timestampMs / DAY_MS;
          daily := daily[dayKey := (if dayKey in daily then daily[dayKey] else 0.0) + event.costUsd];
        }
      }
      assert costEvents[..|costEvents|] == costEvents;
      var keys := Enumerate(daily);
      var daysSorted := Sorting.SortBy(keys, DayOrder);
      SortedDays(daily, keys);
      costs := [];
      for i := 0 to |daysSorted|
        invariant |costs| == i
        invariant forall j :: 0 <= j < i ==> costs[j] == daily[daysSorted[j]]
      {
        costs := costs + [daily[daysSorted[i]]];
      }
      TotalsFromGroups(costEvents, cutoff, daily, daysSorted, costs);
    }

    method AllCostEvents() returns (events: seq<CostEvent>)
      ensures events == costEvents
    {
      events := costEvents;
    }
  }

  function DayOrder(d: nat): real {
    d as real
  }

  /** The map holds exactly the daily totals of `events`. */
  ghost predicate Grouped(events: seq<CostEvent>, cutoff: nat, daily: map<nat, real>) {
    && daily.Keys == ActiveDays(events, cutoff)
    && forall d :: d in daily ==> daily[d] == DayCost(events, cutoff, d)
  }

  lemma {:induction false} NoTotals(events: seq<CostEvent>, cutoff: nat)
    requires |events| == 0
    ensures DailyTotals(events, cutoff, [], [])
  {
  }

  lemma {:induction false} NothingGrouped(events: seq<CostEvent>, cutoff: nat)
    ensures Grouped(events[..0], cutoff, map[])
  {
  }

  lemma {:induction false} TotalsFromGroups(events: seq<CostEvent>, cutoff: nat, daily: map<nat, real>,
                                            days: seq<nat>, costs: seq<real>)
    requires Grouped(events, cutoff, daily) && Ascending(days) && |costs| == |days|
    requires forall d :: d in days <==> d in daily
    requires forall j :: 0 <= j < |days| ==> costs[j] == daily[days[j]]
    ensures DailyTotals(events, cutoff, days, costs)
  {
  }

  lemma {:induction false} GroupOneMore(events: seq<CostEvent>, cutoff: nat, daily: map<nat, real>, e: CostEvent)
    requires Grouped(events, cutoff, daily)
    ensures e.timestampMs < cutoff ==> Grouped(events + [e], cutoff, daily)
    ensures e.timestampMs >= cutoff ==>
              Grouped(events + [e], cutoff,
                      daily[Day(e) := (if Day(e) in daily then daily[Day(e)] else 0.0) + e.costUsd])
  {
    assert (events + [e])[..|events|] == events;
    assert ActiveDays(events + [e], cutoff) ==
           ActiveDays(events, cutoff) + if e.timestampMs >= cutoff then {Day(e)} else {};
    if Day(e) !in daily {
      NoCostOnIdleDay(events, cutoff, Day(e));
    }
  }

  lemma {:induction false} NoCostOnIdleDay(events: seq<CostEvent>, cutoff: nat, day: nat)
    requires day !in ActiveDays(events, cutoff)
    ensures DayCost(events, cutoff, day) == 0.0
  {
    if |events| == 0 {
    } else {
      var front := events[..|events| - 1];
      assert forall e :: e in front ==> e in events;
      NoCostOnIdleDay(front, cutoff, day);
      assert events[|events| - 1] in events;
    }
  }

  lemma {:induction false} SortedDays(daily: map<nat, real>, keys: seq<nat>)
    requires Distinct(keys) && forall k :: k in keys <==> k in daily
    ensures Ascending(Sorting.SortBy(keys, DayOrder))
    ensures forall k :: k in Sorting.SortBy(keys, DayOrder) <==> k in daily
  {
    var sorted := Sorting.SortBy(keys, DayOrder);
    Sorting.SortByIsSorted(keys, DayOrder);
    Sorting.SameElements(keys, sorted);
    Sorting.DistinctRearranged(keys, sorted);
    assert Sorting.Sorted(sorted, DayOrder);
    hide Sorting.SortBy;
    forall i, j | 0 <= i < j < |sorted| ensures sorted[i] < sorted[j] {
      assert DayOrder(sorted[i]) <= DayOrder(sorted[j]);
    }
  }

  // ---- Conservation ----

  ghost function SumOver(events: seq<CostEvent>, cutoff: nat, days: seq<nat>): real {
    if |days| == 0 then 0.0
    else SumOver(events, cutoff, days[..|days| - 1]) + DayCost(events, cutoff, days[|days| - 1])
  }

  /** Adding an event adds its cost to the total over distinct days once, if its day is among them. */
  lemma {:induction false} SumOverOneMore(events: seq<CostEvent>, e: CostEvent, cutoff: nat, days: seq<nat>)
    requires Ascending(days)
    ensures SumOver(events + [e], cutoff, days) ==
            SumOver(events, cutoff, days) + if e.timestampMs >= cutoff && Day(e) in days then e.costUsd else 0.0
  {
    if |days| == 0 {
    } else {
      var front, last := days[..|days| - 1], days[|days| - 1];
      SumOverOneMore(events, e, cutoff, front);
      assert (events + [e])[..|events|] == events;
      assert days == front + [last];
      assert last !in front;
    }
  }

  lemma {:induction false} SumOverNoEvents(cutoff: nat, days: seq<nat>)
    ensures SumOver([], cutoff, days) == 0.0
  {
    if |days| == 0 {
    } else {
      SumOverNoEvents(cutoff, days[..|days| - 1]);
    }
  }

  lemma {:induction false} SumOverActiveDays(events: seq<CostEvent>, cutoff: nat, days: seq<nat>)
    requires Ascending(days) && forall d :: d in ActiveDays(events, cutoff) ==> d in days
    ensures SumOver(events, cutoff, days) == CostSince(events, cutoff)
  {
    if |events| == 0 {
      SumOverNoEvents(cutoff, days);
    } else {
      var front, e := events[..|events| - 1], events[|events| - 1];
      assert events == front + [e];
      assert forall x :: x in front ==> x in events;
      SumOverActiveDays(front, cutoff, days);
      SumOverOneMore(front, e, cutoff, days);
      if e.timestampMs >= cutoff {
        assert Day(e) in ActiveDays(events, cutoff);
      }
    }
  }

  lemma {:induction false} SumOfTotals(events: seq<CostEvent>, cutoff: nat, days: seq<nat>, costs: seq<real>)
    requires |costs| == |days|
    requires forall i :: 0 <= i < |days| ==> costs[i] == DayCost(events, cutoff, days[i])
    ensures Sum(costs) == SumOver(events, cutoff, days)
  {
    if |days| == 0 {
    } else {
      SumOfTotals(events, cutoff, days[..|days| - 1], costs[..|days| - 1]);
    }
  }

  /** The daily totals add up to exactly the cost since the cutoff: no event is
      lost at a day boundary and none is counted twice. */
  lemma {:induction false} DailyTotalsConserveCost(events: seq<CostEvent>, cutoff: nat, days: seq<nat>,
                                                   costs: seq<real>)
    requires DailyTotals(events, cutoff, days, costs)
    ensures Sum(costs) == CostSince(events, cutoff)
  {
    SumOfTotals(events, cutoff, days, costs);
    SumOverActiveDays(events, cutoff, days);
  }

  /** The daily totals are determined by the log and the cutoff alone. */
  lemma {:induction false} DailyTotalsUnique(events: seq<CostEvent>, cutoff: nat, days1: seq<nat>, costs1: seq<real>,
                                             days2: seq<nat>, costs2: seq<real>)
    requires DailyTotals(events, cutoff, days1, costs1) && DailyTotals(events, cutoff, days2, costs2)
    ensures days1 == days2 && costs1 == costs2
  {
    IncreasingUnique(days1, days2, Identity);
  }
}
