/** What a forecast says about the calendar month. The series it is built on is
    the active days of the look-back window, which need not be the days of the month. */
module MonthlyForecast {
  import opened Prelude
  import opened Contracts
  import opened BillingCalendar
  import opened EventStore
  import opened LeastSquares
  import opened CostForecaster

  /** The cost of the events from `from` on and before `to`. */
  function CostBetween(events: seq<CostEvent>, from: nat, to: nat): real {
    if |events| == 0 then 0.0
    else
      var e := events[|events| - 1];
      CostBetween(events[..|events| - 1], from, to) + if from <= e.timestampMs < to then e.costUsd else 0.0
  }

  lemma {:induction false} CostSplits(events: seq<CostEvent>, from: nat, to: nat)
    requires from <= to
    ensures CostSince(events, from) == CostBetween(events, from, to) + CostSince(events, to)
  {
    if |events| == 0 {
    } else {
      CostSplits(events[..|events| - 1], from, to);
    }
  }

  /** The estimate counts everything since the cutoff: beside the projection it is the
      cost since the start of the month, plus what was spent between a cutoff
      before it and that start, or less what was spent before a later cutoff. */
  lemma {:induction false} EstimateAndMonth(events: seq<CostEvent>, cutoff: nat, days: seq<nat>, y: seq<real>,
                                            slope: real, intercept: real, remainingDays: nat, confidence: real,
                                            sqrt: real -> real, monthStart: nat)
    requires DailyTotals(events, cutoff, days, y)
    ensures var f := ForecastFrom(y, slope, intercept, remainingDays, confidence, sqrt);
            f.estimatedMonthlyCost ==
            CostSince(events, monthStart) + Projection(slope, intercept, |y|, remainingDays)
            + if cutoff <= monthStart then CostBetween(events, cutoff, monthStart)
              else -CostBetween(events, monthStart, cutoff)
  {
    DailyTotalsConserveCost(events, cutoff, days, y);
    if cutoff <= monthStart {
      CostSplits(events, cutoff, monthStart);
    } else {
      CostSplits(events, monthStart, cutoff);
    }
  }

  /** Two events share a daily total if and only if they fall on the same date. */
  lemma {:induction false} SameDayIffSameDate(a: CostEvent, b: CostEvent, dateA: Date, dateB: Date)
    requires OnDate(a.timestampMs, dateA) && OnDate(b.timestampMs, dateB)
    ensures Day(a) == Day(b) <==> dateA == dateB
  {
    hide DayNumber;
    DayOnDate(a, dateA);
    DayOnDate(b, dateB);
    DayNumberFollowsCalendar(dateA, dateB);
  }

  lemma {:induction false} DayOnDate(e: CostEvent, d: Date)
    requires OnDate(e.timestampMs, d)
    ensures Day(e) == DayNumber(d) - DayNumber(Date(1970, 1, 1))
  {
    hide DayNumber;
  }

  /** The cutoff lies as many whole days before now as the look-back says, at the same
      time of day, or at the start of 1970 if that is later. */
  lemma {:induction false} CutoffIsDaysBefore(nowMs: nat, days: nat, today: Date, start: Date)
    requires OnDate(nowMs, today) && OnDate(Cutoff(nowMs, days), start)
    ensures nowMs >= days * 86_400_000 ==>
              && DayNumber(start) == DayNumber(today) - days
              && Cutoff(nowMs, days) % 86_400_000 == nowMs % 86_400_000
    ensures nowMs < days * 86_400_000 ==> Cutoff(nowMs, days) == 0
  {
    hide DayNumber;
  }

  // ---- When the series is the month ----

  function EpochDay(d: Date): int {
    DayNumber(d) - DayNumber(UNIX_EPOCH)
  }

  /** The active days are the first `n` days of the month of `today`, each of them. */
  ghost predicate AreMonthDays(days: seq<nat>, today: Date, n: nat) {
    |days| == n && forall i :: 0 <= i < n ==> days[i] == EpochDay(Date(today.year, today.month, i + 1))
  }

  /** The first millisecond of the day `d` of the month of `today`. */
  function DayStartMs(today: Date, d: nat): int {
    EpochDay(Date(today.year, today.month, d)) * DAY_MS
  }

  function MonthStartMs(today: Date): nat {
    Max(DayStartMs(today, 1), 0)
  }

  function MonthEndMs(today: Date): nat {
    Max(DayStartMs(today, LastDayOfMonth(today.year, today.month) + 1), 0)
  }

  lemma {:induction false} DaysOfMonthFollow(today: Date, d: nat)
    ensures EpochDay(Date(today.year, today.month, d)) == EpochDay(Date(today.year, today.month, 1)) + d - 1
  {
  }

  /** An event counts since the cutoff if and only if it falls in the month. */
  lemma {:induction false} SinceCutoffIsInMonth(events: seq<CostEvent>, cutoff: nat, days: seq<nat>, today: Date,
                                                e: CostEvent)
    requires (forall d :: d in days <==> d in ActiveDays(events, cutoff)) && e in events
    requires AreMonthDays(days, today, LastDayOfMonth(today.year, today.month)) && |days| > 0
    requires cutoff <= MonthStartMs(today)
    ensures e.timestampMs >= cutoff <==> MonthStartMs(today) <= e.timestampMs < MonthEndMs(today)
  {
    hide DayNumber;
    var first := EpochDay(Date(today.year, today.month, 1));
    assert days[0] == first;
    DaysOfMonthFollow(today, |days| + 1);
    if e.timestampMs >= cutoff {
      assert Day(e) in ActiveDays(events, cutoff);
      var i :| 0 <= i < |days| && days[i] == Day(e);
      DaysOfMonthFollow(today, i + 1);
    }
  }

  lemma {:induction false} CostOfMonth(events: seq<CostEvent>, all: seq<CostEvent>, cutoff: nat, days: seq<nat>,
                                       today: Date)
    requires (forall d :: d in days <==> d in ActiveDays(all, cutoff)) && forall e :: e in events ==> e in all
    requires AreMonthDays(days, today, LastDayOfMonth(today.year, today.month)) && |days| > 0
    requires cutoff <= MonthStartMs(today)
    ensures CostSince(events, cutoff) == CostBetween(events, MonthStartMs(today), MonthEndMs(today))
  {
    hide AreMonthDays, MonthStartMs, MonthEndMs, ActiveDays;
    if |events| == 0 {
    } else {
      var front, e := events[..|events| - 1], events[|events| - 1];
      assert forall x :: x in front ==> x in events;
      assert e in events;
      CostOfMonth(front, all, cutoff, days, today);
      SinceCutoffIsInMonth(all, cutoff, days, today, e);
    }
  }

  /** Events of later days leave the cost of a day alone. */
  lemma {:induction false} LaterEventsLeaveDay(events: seq<CostEvent>, later: seq<CostEvent>, cutoff: nat, day: nat)
    requires forall e :: e in later ==> Day(e) > day
    ensures DayCost(events + later, cutoff, day) == DayCost(events, cutoff, day)
  {
    if |later| == 0 {
      assert events + later == events;
    } else {
      var front, e := later[..|later| - 1], later[|later| - 1];
      assert e in later;
      assert forall x :: x in front ==> x in later;
      assert (events + later)[..|events + later| - 1] == events + front;
      LaterEventsLeaveDay(events, front, cutoff, day);
    }
  }

  /** The totals up to today are the first ones of the month's. */
  lemma {:induction false} TotalsSoFar(events: seq<CostEvent>, later: seq<CostEvent>, cutoff: nat, today: Date,
                                       days: seq<nat>, y: seq<real>, allDays: seq<nat>, z: seq<real>)
    requires IsValid(today) && forall e :: e in later ==> Day(e) > EpochDay(today)
    requires DailyTotals(events, cutoff, days, y) && DailyTotals(events + later, cutoff, allDays, z)
    requires AreMonthDays(days, today, today.day)
    requires AreMonthDays(allDays, today, LastDayOfMonth(today.year, today.month))
    ensures |y| <= |z| && y == z[..|y|]
  {
    hide DayNumber, DayCost, ActiveDays;
    forall i | 0 <= i < |y| ensures y[i] == z[i] {
      assert days[i] == allDays[i];
      DaysOfMonthFollow(today, i + 1);
      DaysOfMonthFollow(today, today.day);
      LaterEventsLeaveDay(events, later, cutoff, days[i]);
    }
  }

  /** If the active days since the cutoff are exactly the days of this month up to
      today, and the month goes on as it began, every day costing the same amount
      more than the day before and none less than nothing, then the estimate is
      what the month costs in the end. */
  lemma {:induction false} MonthIsForeseen(events: seq<CostEvent>, later: seq<CostEvent>, cutoff: nat, today: Date,
                                           days: seq<nat>, y: seq<real>, allDays: seq<nat>, z: seq<real>,
                                           confidence: real, sqrt: real -> real, f: CostForecast)
    requires IsSquareRoot(sqrt) && IsValid(today) && cutoff <= MonthStartMs(today)
    requires forall e :: e in later ==> Day(e) > EpochDay(today)
    requires DailyTotals(events, cutoff, days, y) && DailyTotals(events + later, cutoff, allDays, z)
    requires AreMonthDays(days, today, today.day)
    requires AreMonthDays(allDays, today, LastDayOfMonth(today.year, today.month))
    requires |y| >= 3 && IsForecast(y, DaysUntilMonthEnd(today), confidence, sqrt, f)
    requires ExactlyLinear(z) && forall i :: |y| <= i < |z| ==> z[i] >= 0.0
    ensures f.estimatedMonthlyCost == f.lowerBound == f.upperBound
            == CostBetween(events + later, MonthStartMs(today), MonthEndMs(today))
  {
    hide DayCost, ActiveDays, MonthStartMs, MonthEndMs, EpochDay, ExactlyLinear, IsForecast, IsSquareRoot;
    TotalsSoFar(events, later, cutoff, today, days, y, allDays, z);
    LinearCostsAreForeseen(y, z, DaysUntilMonthEnd(today), confidence, sqrt, f);
    DailyTotalsConserveCost(events + later, cutoff, allDays, z);
    CostOfMonth(events + later, events + later, cutoff, allDays, today);
  }
}
