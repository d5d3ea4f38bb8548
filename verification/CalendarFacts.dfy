/** The calendars held to the Gregorian rules and to single dates, and how the count of
    days of os/kernel/lardtime.c differs from the Gregorian one. */
module CalendarFacts {
  import opened Calendar
  import opened Lunar

  // ---- years and months ----

  /** Every fourth year is a leap year, but of the centuries only every fourth. */
  lemma {:induction false} LeapRule(y: nat)
    ensures Leap(4 * y) <==> (y % 25 == 0 ==> y % 100 == 0)
    ensures !Leap(4 * y + 1) && !Leap(4 * y + 2) && !Leap(4 * y + 3)
    ensures !Leap(1900) && Leap(1996) && Leap(2000) && !Leap(2001) && Leap(2024) && !Leap(2100)
  {
    NotFour(y);
    Hundreds(y);
  }

  lemma NotFour(y: nat)
    ensures (4 * y) % 4 == 0 && (4 * y + 1) % 4 == 1 && (4 * y + 2) % 4 == 2 && (4 * y + 3) % 4 == 3
    ensures (4 * y + 1) % 400 != 0 && (4 * y + 2) % 400 != 0 && (4 * y + 3) % 400 != 0
  {
  }

  lemma Hundreds(y: nat)
    ensures (4 * y) % 100 == 0 <==> y % 25 == 0
    ensures (4 * y) % 400 == 0 <==> y % 100 == 0
  {
    assert y == 25 * (y / 25) + y % 25 && y == 100 * (y / 100) + y % 100;
    assert 4 * y == 100 * (y / 25) + 4 * (y % 25) && 4 * y == 400 * (y / 100) + 4 * (y % 100);
  }

  /** Thirty days have April, June, September and November, February has 28 or 29, the
      others 31; there is no other month. */
  lemma {:induction false} MonthLengths(y: nat, m: nat)
    ensures MonthDays(y, m) == if m == 4 || m == 6 || m == 9 || m == 11 then 30
                               else if m == 2 then (if Leap(y) then 29 else 28)
                               else if 1 <= m <= 12 then 31
                               else 0
  {
    hide Leap;
  }

  /** Days before a year, counted year by year. */
  function GregorianDays(y: nat): nat {
    if y == 0 then 0 else GregorianDays(y - 1) + if Leap(y - 1) then 366 else 365
  }

  /** The closed form counts the leap day at the beginning of its year: it is the Gregorian
      count in leap years and one less in all others. */
  lemma {:induction false} DaysBefore(y: nat)
    ensures DaysBeforeYear(y) == GregorianDays(y) - if Leap(y) then 0 else 1
  {
    if y > 0 {
      DaysBefore(y - 1);
      YearStep(y - 1);
    }
  }

  /** The Gregorian number of a date's day; day 0 is 1 January of year 0, a Saturday. */
  function GregorianDay(c: Civil): nat
    requires c.day >= 1
  {
    GregorianDays(c.year) + DaysBeforeMonth(c.year, c.month) + (c.day - 1)
  }

  /** The weekday is counted from the day number with 6 for day 0. It is that of the Gregorian
      calendar exactly in leap years and the day before it in all others. */
  lemma {:induction false} WeekdayBehind(c: Civil)
    requires ValidDate(c)
    ensures var w, g := (FromCivil(c) / 86400 + 6) % 7, (GregorianDay(c) + 6) % 7;
            && (w == g <==> Leap(c.year))
            && (!Leap(c.year) ==> (w + 1) % 7 == g)
  {
    hide FromCivil, Leap, GregorianDay;
    TicksOfDay(c);
    DayCounts(c);
    NextWeekday(DayNumber(c));
  }

  lemma {:induction false} TicksOfDay(c: Civil)
    requires ValidDate(c)
    ensures FromCivil(c) / 86400 == DayNumber(c)
  {
    TimeOfDay(DayNumber(c), c.hour, c.minute, c.second);
    hide DayNumber;
  }

  lemma {:induction false} DayCounts(c: Civil)
    requires ValidDate(c)
    ensures DayNumber(c) == GregorianDay(c) - if Leap(c.year) then 0 else 1
  {
    hide Leap, GregorianDays, DaysBeforeYear, DaysBeforeMonth;
    DaysBefore(c.year);
  }

  lemma NextWeekday(n: nat)
    ensures (n + 6) % 7 != (n + 1 + 6) % 7 && ((n + 6) % 7 + 1) % 7 == (n + 1 + 6) % 7
  {
  }

  /** Four hundred years have 146097 days wherever they begin, and the epoch of Unix time is
      day 719527. */
  lemma {:induction false} FourCenturies(y: nat)
    ensures DaysBeforeYear(y + 400) == DaysBeforeYear(y) + 146097
    ensures FromCivil(Civil(1970, 1, 1, 0, 0, 0)) == 719527 * 86400
  {
    assert (y + 400) / 4 == y / 4 + 100 && (y + 400) / 100 == y / 100 + 4 && (y + 400) / 400 == y / 400 + 1;
    assert DaysBeforeYear(1970) == 719527 && DaysBeforeMonth(1970, 1) == 0;
  }

  /** lardtime_unix_to_ticks: seconds since 1 January 1970 as ticks. */
  function UnixToTicks(seconds: int): int {
    if FromCivil(Civil(1970, 1, 1, 0, 0, 0)) < 0 then 0
    else seconds + FromCivil(Civil(1970, 1, 1, 0, 0, 0))
  }

  /** Seconds from the beginning of 1970 to a date and time of the Gregorian calendar. */
  function UnixSeconds(c: Civil): int
    requires c.day >= 1
  {
    (GregorianDay(c) - 719528) * 86400 + Clock(c)
  }

  function Clock(c: Civil): nat {
    c.hour * 3600 + c.minute * 60 + c.second
  }

  /** Unix time is converted to the right ticks exactly in years that are no leap years; in
      a leap year it comes out a day early. */
  lemma {:induction false} UnixDates(c: Civil)
    requires ValidDate(c)
    ensures UnixToTicks(UnixSeconds(c)) == FromCivil(c) <==> !Leap(c.year)
    ensures Leap(c.year) ==> UnixToTicks(UnixSeconds(c)) == FromCivil(c) - 86400
  {
    hide Leap, GregorianDay, GregorianDays, FromCivil, DayNumber, Clock;
    FourCenturies(0);
    DayCounts(c);
    TicksAre(c);
    SameDay(GregorianDay(c), DayNumber(c), Clock(c));
  }

  lemma SameDay(g: int, d: int, t: int)
    ensures (g - 719528) * 86400 + t + 719527 * 86400 == d * 86400 + t <==> d == g - 1
    ensures d == g ==> (g - 719528) * 86400 + t + 719527 * 86400 == d * 86400 + t - 86400
  {
  }

  lemma TicksAre(c: Civil)
    requires ValidDate(c)
    ensures FromCivil(c) == DayNumber(c) * 86400 + Clock(c)
  {
    hide DayNumber;
  }

  /** The count begins where Unix time does. */
  lemma {:induction false} UnixEpoch(c: Civil)
    requires c.year == 1970 && c.month == 1 && c.day == 1 && Clock(c) == 0
    ensures UnixSeconds(c) == 0
  {
    hide GregorianDays, Leap, Clock;
    DaysTo1970(c.year);
  }

  lemma {:induction false} DaysTo1970(y: nat)
    requires y == 1970
    ensures GregorianDays(y) == 719528
  {
    hide GregorianDays, Leap, DaysBeforeYear;
    DaysBefore(y);
    NotLeap1970(y);
  }

  lemma NotLeap1970(y: nat)
    requires y == 1970
    ensures !Leap(y) && DaysBeforeYear(y) == 719527
  {
  }

  // ---- the lunar year ----

  /** The years with a leap sixth month repeat every 19 years; around 2026 they are 2025,
      2028 and 2031. */
  lemma {:induction false} LeapSixthYears(y: nat)
    ensures HasLeapSixth(y + 19) == HasLeapSixth(y)
    ensures forall k | 2014 <= k < 2033 ::
              HasLeapSixth(k) <==> k in {2014, 2017, 2020, 2022, 2025, 2028, 2031}
  {
    assert (y + 19) % 19 == y % 19;
    assert 2014 % 19 == 0;
  }

  /** Months of 29 and 30 days alternate, but for the last month of a year and the first of
      the next, and for a leap month and the one behind it; the first month of 2026 has 29. */
  lemma {:induction false} LengthsAlternate(s: Month)
    requires ValidMonth(s)
    ensures MonthLength(Next(s)) == MonthLength(s) <==> s.leap || s.month == 12
    ensures MonthLength(ANCHOR) == 29 && ANCHOR == Month(2026, 1, false)
  {
    hide HasLeapSixth;
  }
}
