/** The civil calendar of os/kernel/lardtime.c: dates to ticks and back. */
module Calendar {

  const SECS_PER_DAY: nat := 86400

  datatype Civil = Civil(year: nat, month: nat, day: nat, hour: nat, minute: nat, second: nat)

  predicate Leap(y: nat) {
    (y % 4 == 0 && y % 100 != 0) || y % 400 == 0
  }

  function MonthDays(y: nat, m: nat): (d: nat)
    ensures 1 <= m <= 12 ==> 28 <= d <= 31
  {
    if m < 1 || m > 12 then 0
    else if m == 2 && Leap(y) then 29
    else [31, 28, 31, 30, 31, 30, 31, 31, 30, 31, 30, 31][m - 1]
  }

  function DaysBeforeYear(y: nat): nat {
    y * 365 + y / 4 - y / 100 + y / 400
  }

  function DaysBeforeMonth(y: nat, m: nat): nat {
    if m <= 1 then 0 else DaysBeforeMonth(y, m - 1) + MonthDays(y, m - 1)
  }

  predicate ValidDate(c: Civil) {
    1 <= c.month <= 12 && 1 <= c.day <= MonthDays(c.year, c.month) && c.hour <= 23 && c.minute <= 59 && c.second <= 59
  }

  function DayNumber(c: Civil): nat
    requires c.day >= 1
  {
    DaysBeforeYear(c.year) + DaysBeforeMonth(c.year, c.month) + (c.day - 1)
  }

  /** lardtime_from_civil. */
  function FromCivil(c: Civil): int {
    if !ValidDate(c) then -1
    else DayNumber(c) * SECS_PER_DAY + c.hour * 3600 + c.minute * 60 + c.second
  }

  /** The year that the search settles on. */
  predicate InYear(y: nat, days: nat) {
    DaysBeforeYear(y) <= days < DaysBeforeYear(y + 1)
  }

  /** c is how the day number and the time of day break down; the last month takes
      whatever days are left over. */
  predicate BreaksDown(c: Civil, ticks: nat) {
    var days, rem := ticks / SECS_PER_DAY, ticks % SECS_PER_DAY;
    && InYear(c.year, days)
    && 1 <= c.month <= 12 && c.day >= 1 && (c.month < 12 ==> c.day <= MonthDays(c.year, c.month))
    && DaysBeforeMonth(c.year, c.month) + (c.day - 1) == days - DaysBeforeYear(c.year)
    && c.hour == rem / 3600 && c.minute == rem / 60 % 60 && c.second == rem % 60
  }

  // ---- Years ----

  /** The span reserved for a year is long when the next year is a leap year. */
  lemma YearStep(y: nat)
    ensures DaysBeforeYear(y + 1) == DaysBeforeYear(y) + 365 + if Leap(y + 1) then 1 else 0
  {
    Quotients(y);
    Multiples(y + 1);
  }

  lemma Quotients(y: nat)
    ensures (y + 1) / 4 == y / 4 + (if (y + 1) % 4 == 0 then 1 else 0)
    ensures (y + 1) / 100 == y / 100 + (if (y + 1) % 100 == 0 then 1 else 0)
    ensures (y + 1) / 400 == y / 400 + (if (y + 1) % 400 == 0 then 1 else 0)
  {
  }

  lemma Multiples(y: nat)
    ensures (y % 400 == 0 ==> y % 100 == 0) && (y % 100 == 0 ==> y % 4 == 0)
  {
    if y % 400 == 0 {
      TimesDivides(y, 100, 4 * (y / 400));
    }
    if y % 100 == 0 {
      TimesDivides(y, 4, 25 * (y / 100));
    }
  }

  lemma {:induction false} TimesDivides(y: nat, k: nat, q: nat)
    requires (k == 100 || k == 4) && y == k * q
    ensures y % k == 0
  {
    if k == 100 {
      assert y == 100 * q;
    } else {
      assert y == 4 * q;
    }
  }

  lemma {:induction false} YearsGrow(a: nat, b: nat)
    requires a <= b
    ensures DaysBeforeYear(a) <= DaysBeforeYear(b)
    decreases b
  {
    if a < b {
      YearStep(b - 1);
      YearsGrow(a, b - 1);
    }
  }

  lemma YearIsUnique(a: nat, b: nat, days: nat)
    requires InYear(a, days) && InYear(b, days)
    ensures a == b
  {
    hide DaysBeforeYear;
    if a < b {
      YearsGrow(a + 1, b);
    } else if b < a {
      YearsGrow(b + 1, a);
    }
  }

  /** The search of lardtime_to_civil: up, then down. */
  method FindYear(days: nat) returns (y: nat)
    ensures InYear(y, days)
  {
    hide Leap;
    y := days / 365;
    while DaysBeforeYear(y + 1) <= days
      decreases days - DaysBeforeYear(y)
    {
      YearStep(y);
      y := y + 1;
    }
    while DaysBeforeYear(y) > days
      invariant days < DaysBeforeYear(y + 1)
    {
      YearIsUp(y);
      y := y - 1;
    }
  }

  lemma YearIsUp(y: nat)
    ensures DaysBeforeYear(0) == 0 && y >= 0
  {
  }

  // ---- Months ----

  lemma MonthTable(y: nat)
    ensures var f := if Leap(y) then 1 else 0;
            && DaysBeforeMonth(y, 12) == 334 + f && DaysBeforeMonth(y, 13) == 365 + f
  {
    hide Leap;
    assert DaysBeforeMonth(y, 2) == 31;
    assert DaysBeforeMonth(y, 3) == 59 + if Leap(y) then 1 else 0;
    assert DaysBeforeMonth(y, 4) == 90 + if Leap(y) then 1 else 0;
    assert DaysBeforeMonth(y, 5) == 120 + if Leap(y) then 1 else 0;
    assert DaysBeforeMonth(y, 6) == 151 + if Leap(y) then 1 else 0;
    assert DaysBeforeMonth(y, 7) == 181 + if Leap(y) then 1 else 0;
    assert DaysBeforeMonth(y, 8) == 212 + if Leap(y) then 1 else 0;
    assert DaysBeforeMonth(y, 9) == 243 + if Leap(y) then 1 else 0;
    assert DaysBeforeMonth(y, 10) == 273 + if Leap(y) then 1 else 0;
    assert DaysBeforeMonth(y, 11) == 304 + if Leap(y) then 1 else 0;
  }

  lemma {:induction false} MonthsGrow(y: nat, a: nat, b: nat)
    requires 1 <= a <= b <= 13
    ensures DaysBeforeMonth(y, a) <= DaysBeforeMonth(y, b)
    decreases b
  {
    hide MonthDays;
    if a < b {
      MonthsGrow(y, a, b - 1);
    }
  }

  /** Month and day are determined by the day of the year. */
  lemma MonthIsUnique(y: nat, m: nat, d: nat, n: nat, e: nat)
    requires 1 <= m <= 12 && 1 <= n <= 12 && d >= 1 && e >= 1
    requires (m < 12 ==> d <= MonthDays(y, m)) && (n < 12 ==> e <= MonthDays(y, n))
    requires DaysBeforeMonth(y, m) + d == DaysBeforeMonth(y, n) + e
    ensures m == n && d == e
  {
    hide MonthDays;
    if m < n {
      MonthsGrow(y, m + 1, n);
    } else if n < m {
      MonthsGrow(y, n + 1, m);
    }
  }

  lemma BreakdownIsUnique(a: Civil, b: Civil, ticks: nat)
    requires BreaksDown(a, ticks) && BreaksDown(b, ticks)
    ensures a == b
  {
    YearIsUnique(a.year, b.year, ticks / SECS_PER_DAY);
    hide DaysBeforeYear, DaysBeforeMonth, MonthDays;
    MonthIsUnique(a.year, a.month, a.day, b.month, b.day);
  }

  /** lardtime_to_civil for a time that is not negative. */
  method ToCivil(ticks: nat) returns (c: Civil, yday: nat, wday: nat)
    ensures BreaksDown(c, ticks) && yday == ticks / SECS_PER_DAY - DaysBeforeYear(c.year)
    ensures wday == (ticks / SECS_PER_DAY + 6) % 7
  {
    hide DaysBeforeYear, MonthDays;
    var days, rem := ticks / SECS_PER_DAY, ticks % SECS_PER_DAY;
    var y := FindYear(days);
    var left := days - DaysBeforeYear(y);
    var m := 1;
    while m < 12
      invariant 1 <= m <= 12 && DaysBeforeMonth(y, m) + left == days - DaysBeforeYear(y) && left >= 0
    {
      var dim := MonthDays(y, m);
      if left < dim {
        break;
      }
      left := left - dim;
      m := m + 1;
    }
    c := Civil(y, m, left + 1, rem / 3600, rem / 60 % 60, rem % 60);
    yday, wday := days - DaysBeforeYear(y), (days + 6) % 7;
  }

  /** days_before_month. */
  method CountDaysBefore(y: nat, month: nat) returns (d: nat)
    ensures d == DaysBeforeMonth(y, month)
  {
    d := 0;
    var i := 1;
    while i < month
      invariant 1 <= i && d == DaysBeforeMonth(y, i) && (i <= month || d == DaysBeforeMonth(y, month) == 0)
    {
      d := d + MonthDays(y, i);
      i := i + 1;
    }
  }

  // ---- There and back ----

  /** The one date of a leap year that shares its ticks with the next day. */
  predicate LastOfLeapYear(c: Civil) {
    Leap(c.year) && c.month == 12 && c.day == 31
  }

  /** The day that the calendar does not have: the last of the span of a year
      before a leap year. */
  predicate Surplus(ticks: nat, y: nat) {
    Leap(y + 1) && ticks / SECS_PER_DAY == DaysBeforeYear(y) + 365
  }

  lemma TimeOfDay(days: nat, h: nat, mi: nat, s: nat)
    requires h <= 23 && mi <= 59 && s <= 59
    ensures var t := days * SECS_PER_DAY + h * 3600 + mi * 60 + s;
            && t / SECS_PER_DAY == days && t % SECS_PER_DAY == h * 3600 + mi * 60 + s
            && t % SECS_PER_DAY / 3600 == h && t % SECS_PER_DAY / 60 % 60 == mi && t % SECS_PER_DAY % 60 == s
  {
  }

  lemma DayOfYear(c: Civil)
    requires ValidDate(c)
    ensures var d := DaysBeforeMonth(c.year, c.month) + (c.day - 1);
            && d <= 364 + (if Leap(c.year) then 1 else 0)
            && (d == 365 <==> LastOfLeapYear(c))
  {
    MonthTable(c.year);
    MonthsGrow(c.year, c.month + 1, 13);
    hide Leap;
    if c.month < 12 {
      MonthsGrow(c.year, c.month + 1, 12);
    }
  }

  lemma NeverTwoLeapYears(y: nat)
    ensures !(Leap(y) && Leap(y + 1))
  {
  }

  /** A date comes back from its ticks exactly unless it is 31 December of a leap year. */
  lemma RoundTrip(c: Civil)
    requires ValidDate(c)
    ensures FromCivil(c) >= 0 && (BreaksDown(c, FromCivil(c)) <==> !LastOfLeapYear(c))
  {
    DayOfYear(c);
    YearStep(c.year);
    NeverTwoLeapYears(c.year);
    TimeOfDay(DayNumber(c), c.hour, c.minute, c.second);
    hide DaysBeforeYear, DaysBeforeMonth, Leap;
  }

  /** 31 December of a leap year comes back as the next 1 January. */
  lemma LastDayMoves(c: Civil)
    requires ValidDate(c) && LastOfLeapYear(c)
    ensures BreaksDown(Civil(c.year + 1, 1, 1, c.hour, c.minute, c.second), FromCivil(c))
    ensures FromCivil(c) == FromCivil(Civil(c.year + 1, 1, 1, c.hour, c.minute, c.second))
  {
    DayOfYear(c);
    YearStep(c.year);
    YearStep(c.year + 1);
    NeverTwoLeapYears(c.year);
    TimeOfDay(DayNumber(c), c.hour, c.minute, c.second);
    assert DaysBeforeMonth(c.year + 1, 1) == 0;
    hide DaysBeforeYear, DaysBeforeMonth, Leap;
  }

  lemma ClockParts(rem: nat)
    requires rem < SECS_PER_DAY
    ensures rem == rem / 3600 * 3600 + rem / 60 % 60 * 60 + rem % 60 && rem / 3600 <= 23
  {
  }

  /** The ticks come back exactly unless they fall on the surplus day, which is
      shown as 32 December. */
  lemma TicksRoundTrip(c: Civil, ticks: nat)
    requires BreaksDown(c, ticks)
    ensures FromCivil(c) == ticks <==> !Surplus(ticks, c.year)
    ensures Surplus(ticks, c.year) ==> c.month == 12 && c.day == 32 && FromCivil(c) == -1
  {
    MonthTable(c.year);
    YearStep(c.year);
    NeverTwoLeapYears(c.year);
    var days, rem := ticks / SECS_PER_DAY, ticks % SECS_PER_DAY;
    ClockParts(rem);
    assert MonthDays(c.year, 12) == 31;
    if c.month < 12 {
      MonthsGrow(c.year, c.month + 1, 12);
    }
    hide DaysBeforeYear, DaysBeforeMonth, Leap;
  }
}
