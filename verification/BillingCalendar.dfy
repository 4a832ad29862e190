/** Gregorian dates and the start of a billing period. */
module BillingCalendar {
  import opened Prelude

  datatype Date = Date(year: int, month: nat, day: nat)

  predicate IsLeapYear(year: int) {
    year % 4 == 0 && (year % 100 != 0 || year % 400 == 0)
  }

  function LastDayOfMonth(year: int, month: nat): nat {
    match month
    case 1 | 3 | 5 | 7 | 8 | 10 | 12 => 31
    case 4 | 6 | 9 | 11 => 30
    case 2 => if IsLeapYear(year) then 29 else 28
    case _ => 30
  }

  predicate IsValid(d: Date) {
    1 <= d.month <= 12 && 1 <= d.day <= LastDayOfMonth(d.year, d.month)
  }

  /** Thirty days have April, June, September and November; February has
      twenty-eight, or twenty-nine; all the rest have thirty-one. */
  lemma {:induction false} MonthLengths(year: int, month: nat)
    requires 1 <= month <= 12
    ensures month in {4, 6, 9, 11} <==> LastDayOfMonth(year, month) == 30
    ensures month == 2 <==> LastDayOfMonth(year, month) in {28, 29}
    ensures month in {1, 3, 5, 7, 8, 10, 12} <==> LastDayOfMonth(year, month) == 31
  {
  }

  // ---- Day numbers: an independent count of days ----

  /** The days before January 1 of `year`, by the Gregorian leap-year count. */
  function DaysBeforeYear(year: int): int {
    var y := year - 1;
    365 * y + y / 4 - y / 100 + y / 400
  }

  function DaysBeforeMonth(year: int, month: nat): nat {
    if month <= 1 then 0 else DaysBeforeMonth(year, month - 1) + LastDayOfMonth(year, month - 1)
  }

  function DayNumber(d: Date): int {
    DaysBeforeYear(d.year) + DaysBeforeMonth(d.year, d.month) + d.day
  }

  ghost predicate Earlier(a: Date, b: Date) {
    || a.year < b.year
    || (a.year == b.year && (a.month < b.month || (a.month == b.month && a.day < b.day)))
  }

  lemma {:induction false} YearLength(year: int)
    ensures DaysBeforeYear(year + 1) - DaysBeforeYear(year) == if IsLeapYear(year) then 366 else 365
  {
    QuotientStep(year, 4);
    QuotientStep(year, 100);
    QuotientStep(year, 400);
    LeapDivisors(year);
  }

  lemma {:induction false} LeapDivisors(year: int)
    ensures year % 400 == 0 ==> year % 100 == 0
    ensures year % 100 == 0 ==> year % 4 == 0
  {
    if year % 400 == 0 {
      QuotientUnique(year, 100, 4 * (year / 400), 0);
    }
    if year % 100 == 0 {
      QuotientUnique(year, 4, 25 * (year / 100), 0);
    }
  }

  lemma {:induction false} QuotientStep(y: int, k: int)
    requires k > 1
    ensures y / k - (y - 1) / k == if y % k == 0 then 1 else 0
  {
    var q := y / k;
    if y % k == 0 {
      assert y - 1 == k * (q - 1) + (k - 1);
      QuotientUnique(y - 1, k, q - 1, k - 1);
    } else {
      assert y - 1 == k * q + (y % k - 1);
      QuotientUnique(y - 1, k, q, y % k - 1);
    }
  }

  lemma {:induction false} QuotientUnique(y: int, k: int, q: int, r: int)
    requires k > 0 && y == k * q + r && 0 <= r < k
    ensures y / k == q
  {
    var d := y / k - q;
    assert k * d == r - y % k;
    assert d >= 1 ==> k * d >= k;
    assert d <= -1 ==> k * d <= -k;
  }

  lemma {:induction false} MonthsOfYear(year: int)
    ensures DaysBeforeMonth(year, 13) == if IsLeapYear(year) then 366 else 365
  {
    var feb := LastDayOfMonth(year, 2);
    assert DaysBeforeMonth(year, 2) == 31;
    assert DaysBeforeMonth(year, 3) == 31 + feb;
    assert DaysBeforeMonth(year, 5) == 31 + feb + 61;
    assert DaysBeforeMonth(year, 7) == 31 + feb + 122;
    assert DaysBeforeMonth(year, 9) == 31 + feb + 184;
    assert DaysBeforeMonth(year, 11) == 31 + feb + 245;
  }

  lemma {:induction false} MonthsAccumulate(year: int, m: nat, n: nat)
    requires 1 <= m < n <= 13
    ensures DaysBeforeMonth(year, m) + LastDayOfMonth(year, m) <= DaysBeforeMonth(year, n)
  {
    if m + 1 < n {
      MonthsAccumulate(year, m, n - 1);
    }
  }

  lemma {:induction false} YearsAccumulate(y: int, z: int)
    requires y < z
    ensures DaysBeforeYear(y + 1) <= DaysBeforeYear(z)
    decreases z - y
  {
    if y + 1 < z {
      YearsAccumulate(y, z - 1);
      YearLength(z - 1);
    }
  }

  /** Day numbers order valid dates as the calendar does. */
  lemma {:induction false} DayNumberFollowsCalendar(a: Date, b: Date)
    requires IsValid(a) && IsValid(b)
    ensures DayNumber(a) < DayNumber(b) <==> Earlier(a, b)
    ensures DayNumber(a) == DayNumber(b) <==> a == b
  {
    if Earlier(a, b) {
      EarlierIsSmaller(a, b);
    } else if Earlier(b, a) {
      EarlierIsSmaller(b, a);
    }
  }

  lemma {:induction false} EarlierIsSmaller(a: Date, b: Date)
    requires IsValid(a) && IsValid(b) && Earlier(a, b)
    ensures DayNumber(a) < DayNumber(b)
  {
    if a.year < b.year {
      MonthsAccumulate(a.year, a.month, 13);
      MonthsOfYear(a.year);
      YearLength(a.year);
      YearsAccumulate(a.year, b.year);
    } else if a.month < b.month {
      MonthsAccumulate(a.year, a.month, b.month);
    }
  }

  /** The first of a month comes right after the last of the month before, over
      the year boundary too. */
  lemma {:induction false} NextMonth(year: int, month: nat)
    requires 1 <= month <= 12
    ensures var next := if month == 12 then Date(year + 1, 1, 1) else Date(year, month + 1, 1);
            DayNumber(next) == DayNumber(Date(year, month, LastDayOfMonth(year, month))) + 1
  {
    if month == 12 {
      YearLength(year);
      MonthsOfYear(year);
    }
  }

  // ---- Billing periods ----

  function PreviousMonth(month: nat): nat {
    if month == 1 then 12 else Max(month - 1, 0)
  }

  /** The start of the billing period that contains `today`. `resetDay` is an
      unsigned byte; a day the month does not have becomes its last day. */
  function PeriodStart(today: Date, resetDay: nat): Date {
    var year := if today.day < resetDay && today.month == 1 then today.year - 1 else today.year;
    var month := if today.day >= resetDay then today.month else PreviousMonth(today.month);
    if 1 <= resetDay <= LastDayOfMonth(year, month) then Date(year, month, resetDay)
    else Date(year, month, LastDayOfMonth(year, month))
  }

  lemma {:induction false} PeriodStartIsValid(today: Date, resetDay: nat)
    requires IsValid(today)
    ensures IsValid(PeriodStart(today, resetDay))
  {
  }

  /** How far back a period reaches, for every reset day a byte can hold. */
  lemma {:induction false} PeriodStartDistance(today: Date, resetDay: nat)
    requires IsValid(today)
    ensures var back := DayNumber(today) - DayNumber(PeriodStart(today, resetDay));
            && (1 <= resetDay <= 31 ==> 0 <= back <= 30)
            && (resetDay > 31 ==> 1 <= back <= 31)
            && (back >= 0 <==> resetDay >= 1 || today.day == LastDayOfMonth(today.year, today.month))
  {
    if today.day < resetDay {
      PreviousMonthDistance(today, PeriodStart(today, resetDay));
    }
  }

  lemma {:induction false} PreviousMonthDistance(today: Date, start: Date)
    requires IsValid(today) && IsValid(start) && start.month == PreviousMonth(today.month)
    requires start.year == if today.month == 1 then today.year - 1 else today.year
    ensures DayNumber(today) - DayNumber(start) ==
            today.day + LastDayOfMonth(start.year, start.month) - start.day
  {
    NextMonth(start.year, start.month);
  }

  /** The period start never moves backwards as the date advances. */
  lemma {:induction false} PeriodStartIsMonotone(earlier: Date, later: Date, resetDay: nat)
    requires IsValid(earlier) && IsValid(later) && DayNumber(earlier) <= DayNumber(later)
    ensures DayNumber(PeriodStart(earlier, resetDay)) <= DayNumber(PeriodStart(later, resetDay))
  {
    hide DayNumber;
    DayNumberFollowsCalendar(later, earlier);
    PeriodStartIsValid(earlier, resetDay);
    PeriodStartIsValid(later, resetDay);
    StartsInOrder(earlier, later, resetDay);
    DayNumberFollowsCalendar(PeriodStart(later, resetDay), PeriodStart(earlier, resetDay));
  }

  lemma {:induction false} StartsInOrder(earlier: Date, later: Date, resetDay: nat)
    requires IsValid(earlier) && IsValid(later) && !Earlier(later, earlier)
    ensures !Earlier(PeriodStart(later, resetDay), PeriodStart(earlier, resetDay))
  {
  }

  /** A period starts on its own first day exactly when the reset day was not
      clamped to the end of a shorter month. */
  lemma {:induction false} PeriodStartIsFixed(today: Date, resetDay: nat)
    requires IsValid(today)
    ensures var start := PeriodStart(today, resetDay);
            PeriodStart(start, resetDay) == start <==> resetDay <= LastDayOfMonth(start.year, start.month)
  {
  }

  /** The start lies on the reset day, or on the last day of a month without it;
      no date on the reset day itself lies after it up to today. */
  lemma {:induction false} PeriodStartIsLatest(today: Date, date: Date, resetDay: nat)
    requires IsValid(today) && IsValid(date) && resetDay >= 1
    ensures var start := PeriodStart(today, resetDay);
            start.day == Min(resetDay, LastDayOfMonth(start.year, start.month))
    ensures date.day == resetDay && DayNumber(date) <= DayNumber(today) ==>
              DayNumber(date) <= DayNumber(PeriodStart(today, resetDay))
  {
    hide DayNumber;
    if date.day == resetDay && DayNumber(date) <= DayNumber(today) {
      assert PeriodStart(date, resetDay) == date;
      PeriodStartIsMonotone(date, today, resetDay);
    }
  }

  /** With a reset day every month has, the dates from a period's start up to
      today all belong to that one period. */
  lemma {:induction false} DatesSharePeriod(today: Date, date: Date, resetDay: nat)
    requires IsValid(today) && IsValid(date) && 1 <= resetDay <= 28
    requires DayNumber(PeriodStart(today, resetDay)) <= DayNumber(date) <= DayNumber(today)
    ensures PeriodStart(date, resetDay) == PeriodStart(today, resetDay)
  {
    var start := PeriodStart(today, resetDay);
    PeriodStartIsValid(today, resetDay);
    PeriodStartIsValid(date, resetDay);
    PeriodStartIsFixed(today, resetDay);
    PeriodStartIsMonotone(start, date, resetDay);
    PeriodStartIsMonotone(date, today, resetDay);
    DayNumberFollowsCalendar(start, PeriodStart(date, resetDay));
  }

  const UNIX_EPOCH := Date(1970, 1, 1)

  /** Midnight at the period start in milliseconds since the epoch; the signed
      timestamp is reinterpreted as an unsigned 64-bit number. */
  function PeriodStartMs(today: Date, resetDay: nat): nat {
    ((DayNumber(PeriodStart(today, resetDay)) - DayNumber(UNIX_EPOCH)) * 86_400_000) % 0x1_0000_0000_0000_0000
  }

  /** For dates from 1970 on, a timestamp is counted towards the period exactly
      when its day is not before the day of the period start. */
  lemma {:induction false} DaysFromPeriodStart(today: Date, resetDay: nat, timestampMs: nat)
    requires 0 <= DayNumber(PeriodStart(today, resetDay)) - DayNumber(UNIX_EPOCH) < 213_503_982_334
    ensures timestampMs >= PeriodStartMs(today, resetDay) <==>
            DayNumber(UNIX_EPOCH) + timestampMs / 86_400_000 >= DayNumber(PeriodStart(today, resetDay))
  {
    hide DayNumber, PeriodStart;
    var days := DayNumber(PeriodStart(today, resetDay)) - DayNumber(UNIX_EPOCH);
    assert PeriodStartMs(today, resetDay) == days * 86_400_000;
  }

  /** Known period starts: midnight of March 10, 2024, and the start of 1970. */
  lemma {:induction false} KnownPeriodStart()
    ensures PeriodStartMs(Date(2024, 3, 15), 10) == 1_710_028_800_000
    ensures PeriodStartMs(Date(1970, 1, 1), 1) == 0
  {
    assert DaysBeforeMonth(2024, 2) == 31;
    assert DaysBeforeMonth(2024, 3) == 31 + 29;
  }

  // ---- The date of a timestamp ----

  /** The timestamp falls on the date, in milliseconds since the start of 1970. */
  ghost predicate OnDate(timestampMs: nat, d: Date) {
    && IsValid(d)
    && var days := DayNumber(d) - DayNumber(Date(1970, 1, 1));
       days * 86_400_000 <= timestampMs < (days + 1) * 86_400_000
  }

  /** The date `n` days after the first of 1970. */
  lemma {:induction false} DateOfDay(n: nat) returns (d: Date)
    ensures IsValid(d) && DayNumber(d) == DayNumber(Date(1970, 1, 1)) + n
  {
    if n == 0 {
      d := Date(1970, 1, 1);
    } else {
      var before := DateOfDay(n - 1);
      if before.day < LastDayOfMonth(before.year, before.month) {
        d := Date(before.year, before.month, before.day + 1);
      } else {
        NextMonth(before.year, before.month);
        d := if before.month == 12 then Date(before.year + 1, 1, 1) else Date(before.year, before.month + 1, 1);
      }
    }
  }

  /** Every timestamp falls on exactly one date. */
  lemma {:induction false} DateOfTimestamp(timestampMs: nat) returns (d: Date)
    ensures OnDate(timestampMs, d)
    ensures forall other :: OnDate(timestampMs, other) ==> other == d
  {
    d := DateOfDay(timestampMs / 86_400_000);
    hide DayNumber;
    forall other | OnDate(timestampMs, other) ensures other == d {
      DayNumberFollowsCalendar(d, other);
    }
  }

  function DaysUntilMonthEnd(today: Date): nat {
    Max(LastDayOfMonth(today.year, today.month) - today.day, 0)
  }
}
