/** The lunar walk of os/kernel/lardtime.c. */
module Lunar {
  import opened Calendar

  datatype Month = Month(year: nat, month: nat, leap: bool)

  datatype LunarDate = LunarDate(at: Month, day: nat)

  predicate HasLeapSixth(y: nat) {
    var c := y % 19; c == 0 || c == 3 || c == 6 || c == 8 || c == 11 || c == 14 || c == 17
  }

  predicate ValidMonth(s: Month) {
    1 <= s.month <= 12 && (s.leap ==> s.month == 6 && HasLeapSixth(s.year))
  }

  function MonthLength(s: Month): (n: nat)
    ensures n == 29 || n == 30
  {
    if (s.year + s.month + if s.leap then 5 else 0) % 2 == 1 then 29 else 30
  }

  function Next(s: Month): Month {
    if s.leap then Rolled(Month(s.year, s.month + 1, false))
    else if s.month == 6 && HasLeapSixth(s.year) then Month(s.year, 6, true)
    else Rolled(Month(s.year, s.month + 1, false))
  }

  function Rolled(s: Month): Month {
    if s.month > 12 then Month(s.year + 1, 1, false) else s
  }

  function Prev(s: Month): Month {
    if s.leap then Month(s.year, s.month, false)
    else if s.month == 1 then Month(if s.year > 0 then s.year - 1 else s.year, 12, false)
    else if s.month == 7 && HasLeapSixth(s.year) then Month(s.year, 6, true)
    else Month(s.year, if s.month > 0 then s.month - 1 else 0, false)
  }

  const FIRST: Month := Month(0, 1, false)

  lemma PrevOfNext(s: Month)
    requires ValidMonth(s)
    ensures ValidMonth(Next(s)) && Prev(Next(s)) == s
  {
  }

  /** Stepping back is undone by stepping on, except at the very first month. */
  lemma NextOfPrev(s: Month)
    requires ValidMonth(s)
    ensures ValidMonth(Prev(s)) && (Next(Prev(s)) == s <==> s != FIRST)
  {
  }

  // ---- The walk ----

  function WalkOn(s: Month, delta: nat): LunarDate
    decreases delta
  {
    if delta >= MonthLength(s) then WalkOn(Next(s), delta - MonthLength(s)) else LunarDate(s, delta + 1)
  }

  function WalkBack(s: Month, delta: int): LunarDate
    decreases if delta < 0 then -delta else 0
  {
    if delta >= 0 then LunarDate(s, delta + 1) else WalkBack(Prev(s), delta + MonthLength(Prev(s)))
  }

  /** 17 February 2026 begins the first month of the lunar year 2026. */
  const ANCHOR: Month := Month(2026, 1, false)

  function LunarOf(delta: int): LunarDate {
    if delta >= 0 then WalkOn(ANCHOR, delta) else WalkBack(ANCHOR, delta)
  }

  function Tomorrow(d: LunarDate): LunarDate {
    if d.day < MonthLength(d.at) then LunarDate(d.at, d.day + 1) else LunarDate(Next(d.at), 1)
  }

  predicate ValidLunar(d: LunarDate) {
    ValidMonth(d.at) && 1 <= d.day <= MonthLength(d.at)
  }

  lemma {:induction false} WalkOnValid(s: Month, delta: nat)
    requires ValidMonth(s)
    ensures ValidLunar(WalkOn(s, delta))
    decreases delta
  {
    PrevOfNext(s);
    if delta >= MonthLength(s) {
      WalkOnValid(Next(s), delta - MonthLength(s));
    }
  }

  lemma {:induction false} WalkBackValid(s: Month, delta: int)
    requires ValidMonth(s) && delta < MonthLength(s)
    ensures ValidLunar(WalkBack(s, delta))
    decreases if delta < 0 then -delta else 0
  {
    if delta < 0 {
      NextOfPrev(s);
      WalkBackValid(Prev(s), delta + MonthLength(Prev(s)));
    }
  }

  lemma {:induction false} WalkOnDay(s: Month, delta: nat)
    requires ValidMonth(s)
    ensures WalkOn(s, delta + 1) == Tomorrow(WalkOn(s, delta))
    decreases delta
  {
    PrevOfNext(s);
    if delta >= MonthLength(s) {
      WalkOnDay(Next(s), delta - MonthLength(s));
    }
  }

  /** Backward, too, the next day has the next date, exactly unless that is the
      first day of all: from there the walk goes on at the end of the same year. */
  lemma {:induction false} WalkBackDay(s: Month, delta: int)
    requires ValidMonth(s) && delta < 0
    ensures WalkBack(s, delta + 1) == Tomorrow(WalkBack(s, delta)) <==> WalkBack(s, delta + 1) != LunarDate(FIRST, 1)
    decreases -delta
  {
    NextOfPrev(s);
    var p := Prev(s);
    var d := delta + MonthLength(p);
    if d < 0 {
      WalkBackDay(p, d);
    }
  }

  // ---- Where the calendar begins ----

  /** Days from the first day of all to the first day of a month. */
  function Start(s: Month): nat
    requires ValidMonth(s)
    decreases s.year, s.month, s.leap
  {
    if s == FIRST then 0
    else
      NextOfPrev(s);
      Start(Prev(s)) + MonthLength(Prev(s))
  }

  lemma StartOfPrev(s: Month)
    requires ValidMonth(s) && s != FIRST
    ensures ValidMonth(Prev(s)) && Start(s) == Start(Prev(s)) + MonthLength(Prev(s))
  {
    NextOfPrev(s);
  }

  lemma StartOfFirst()
    ensures ValidMonth(FIRST) && Start(FIRST) == 0
  {
  }

  /** A walk that reaches the first day of all goes on from there. */
  lemma {:induction false} WalkBackTo(s: Month, delta: int)
    requires ValidMonth(s) && delta + Start(s) <= 0
    ensures WalkBack(s, delta) == WalkBack(FIRST, delta + Start(s))
    decreases Start(s)
  {
    hide ValidMonth, Prev, Start, MonthLength;
    StartOfFirst();
    if s != FIRST {
      StartOfPrev(s);
      WalkBackTo(Prev(s), delta + MonthLength(Prev(s)));
    }
  }

  lemma {:induction false} WalkBackShort(s: Month, delta: int)
    requires ValidMonth(s) && 0 < delta + Start(s) && delta < MonthLength(s)
    ensures WalkBack(s, delta) != LunarDate(FIRST, 1)
    decreases Start(s)
  {
    hide ValidMonth, Prev, Start, MonthLength;
    StartOfFirst();
    if delta < 0 {
      StartOfPrev(s);
      WalkBackShort(Prev(s), delta + MonthLength(Prev(s)));
    }
  }

  const YEAR_ZERO: nat := 383

  lemma LastOfYearZero()
    ensures var last := Month(0, 12, false);
            ValidMonth(last) && Prev(FIRST) == last && Start(last) + MonthLength(last) == YEAR_ZERO
  {
    hide Start, Elapsed;
    StartOfFirst();
    MonthStart(0, 12);
    YearLength(0);
  }

  /** Behind the first day year 0 repeats itself. */
  lemma {:induction false} FirstDays(delta: int)
    requires delta <= 0
    ensures WalkBack(FIRST, delta) == LunarDate(FIRST, 1) <==> delta % YEAR_ZERO == 0
    decreases -delta
  {
    hide ValidMonth, Prev, Start, MonthLength;
    if delta < 0 {
      LastOfYearZero();
      var last := Month(0, 12, false);
      var d := delta + MonthLength(last);
      if delta + YEAR_ZERO <= 0 {
        WalkBackTo(last, d);
        FirstDays(delta + YEAR_ZERO);
      } else {
        WalkBackShort(last, d);
      }
    }
  }

  /** Days of a year before its month m. */
  function Elapsed(y: nat, m: nat): nat
    requires 1 <= m <= 12
  {
    if m == 1 then 0
    else Elapsed(y, m - 1) + MonthLength(Month(y, m - 1, false))
         + if m == 7 && HasLeapSixth(y) then MonthLength(Month(y, 6, true)) else 0
  }

  lemma {:induction false} MonthStart(y: nat, m: nat)
    requires 1 <= m <= 12
    ensures Start(Month(y, m, false)) == Start(Month(y, 1, false)) + Elapsed(y, m)
  {
    hide HasLeapSixth, MonthLength, Start;
    if m > 1 {
      MonthStart(y, m - 1);
      StartOfPrev(Month(y, m, false));
      if m == 7 && HasLeapSixth(y) {
        StartOfPrev(Month(y, 6, true));
      }
    }
  }

  function YearDays(y: nat): nat {
    354 + if HasLeapSixth(y) then MonthLength(Month(y, 6, true)) else 0
  }

  lemma YearLength(y: nat)
    ensures Elapsed(y, 12) + MonthLength(Month(y, 12, false)) == YearDays(y)
  {
    hide HasLeapSixth;
    assert Elapsed(y, 1) == 0;
    assert Elapsed(y, 3) == Elapsed(y, 1) + 59;
    assert Elapsed(y, 5) == Elapsed(y, 3) + 59;
    assert Elapsed(y, 7) == 177 + if HasLeapSixth(y) then MonthLength(Month(y, 6, true)) else 0;
    assert Elapsed(y, 9) == Elapsed(y, 7) + 59;
    assert Elapsed(y, 11) == Elapsed(y, 9) + 59;
  }

  function DaysTo(y: nat): nat {
    if y == 0 then 0 else DaysTo(y - 1) + YearDays(y - 1)
  }

  lemma {:induction false} YearStart(y: nat)
    ensures Start(Month(y, 1, false)) == DaysTo(y)
  {
    hide YearDays, Elapsed, MonthLength;
    if y > 0 {
      YearStart(y - 1);
      MonthStart(y - 1, 12);
      YearLength(y - 1);
      assert Start(Month(y, 1, false)) == Start(Month(y - 1, 12, false)) + MonthLength(Month(y - 1, 12, false));
    }
  }

  const CYCLE: nat := 38
  const CYCLE_DAYS: nat := 13865

  lemma {:induction false} Mod19(y: nat)
    ensures (y + CYCLE) % 19 == y % 19
  {
    var q, r := y / 19, y % 19;
    assert y + CYCLE == 19 * (q + 2) + r;
  }

  lemma {:induction false} SameParity(n: nat)
    ensures (n + CYCLE) % 2 == n % 2
  {
  }

  lemma {:induction false} YearRepeats(y: nat)
    ensures YearDays(y + CYCLE) == YearDays(y)
  {
    Mod19(y);
    SameParity(y + 11);
  }

  lemma {:induction false} CycleDays(y: nat)
    ensures DaysTo(y + CYCLE) == DaysTo(y) + CYCLE_DAYS
  {
    hide YearDays;
    if y == 0 {
      NoDays();
      FirstCycle();
    } else {
      CycleDays(y - 1);
      YearRepeats(y - 1);
      assert DaysTo(y + CYCLE) == DaysTo(y + CYCLE - 1) + YearDays(y + CYCLE - 1);
    }
  }

  lemma TwoYears(y: nat, days: nat)
    requires YearDays(y) + YearDays(y + 1) == days
    ensures DaysTo(y + 2) == DaysTo(y) + days
  {
    hide YearDays;
    assert DaysTo(y + 2) == DaysTo(y + 1) + YearDays(y + 1);
  }

  lemma NoDays()
    ensures DaysTo(0) == 0
  {
  }

  lemma FirstDozen()
    ensures DaysTo(12) == 4395
  {
    hide DaysTo;
    NoDays();
    TwoYears(0, 737);
    TwoYears(2, 738);
    TwoYears(4, 708);
    TwoYears(6, 737);
    TwoYears(8, 737);
    TwoYears(10, 738);
  }

  lemma SecondDozen()
    ensures DaysTo(24) == 8761
  {
    hide DaysTo;
    FirstDozen();
    TwoYears(12, 708);
    TwoYears(14, 737);
    TwoYears(16, 738);
    TwoYears(18, 738);
    TwoYears(20, 708);
    TwoYears(22, 737);
  }

  lemma FirstCycle()
    ensures DaysTo(CYCLE) == CYCLE_DAYS
  {
    hide DaysTo;
    SecondDozen();
    TwoYears(24, 738);
    TwoYears(26, 738);
    TwoYears(28, 708);
    TwoYears(30, 737);
    TwoYears(32, 738);
    TwoYears(34, 708);
    TwoYears(36, 737);
  }

  lemma {:induction false} Cycles(k: nat)
    ensures DaysTo(12 + CYCLE * k) == 4395 + CYCLE_DAYS * k
  {
    if k == 0 {
      FirstDozen();
    } else {
      Cycles(k - 1);
      CycleDays(12 + CYCLE * (k - 1));
    }
  }

  /** The first day of all lies this many days before the anchor. */
  const BEGINNING: nat := 739240

  lemma AnchorStart()
    ensures ValidMonth(ANCHOR) && Start(ANCHOR) == BEGINNING
  {
    YearStart(2026);
    Cycles(53);
  }

  /** Consecutive days have consecutive lunar dates, on both sides of the anchor,
      exactly unless the next day is the first day of all, 739240 days before the
      anchor, or any number of times 383 days earlier. */
  lemma NextDay(delta: int)
    ensures ValidLunar(LunarOf(delta))
    ensures LunarOf(delta + 1) == Tomorrow(LunarOf(delta))
            <==> delta + 1 + BEGINNING > 0 || (delta + 1 + BEGINNING) % YEAR_ZERO != 0
  {
    hide Tomorrow, WalkBack, WalkOn, Start, MonthLength;
    AnchorStart();
    if delta >= 0 {
      WalkOnValid(ANCHOR, delta);
      WalkOnDay(ANCHOR, delta);
    } else {
      AnchorDay();
      WalkBackValid(ANCHOR, delta);
      WalkBackDay(ANCHOR, delta);
      if delta + 1 + BEGINNING > 0 {
        WalkBackShort(ANCHOR, delta + 1);
      } else {
        WalkBackTo(ANCHOR, delta + 1);
        FirstDays(delta + 1 + BEGINNING);
      }
    }
  }

  lemma AnchorDay()
    ensures WalkBack(ANCHOR, 0) == WalkOn(ANCHOR, 0)
  {
  }

  // ---- The loops ----

  /** The three values the walk updates in place. */
  class Walker {
    var y: nat
    var m: nat
    var leap: bool

    constructor (s: Month)
      ensures At() == s
    {
      y, m, leap := s.year, s.month, s.leap;
    }

    function At(): Month
      reads this
    {
      Month(y, m, leap)
    }

    /** lunar_next. */
    method StepOn()
      modifies this
      ensures At() == Next(old(At()))
    {
      if leap {
        leap := false;
        m := m + 1;
      } else if m == 6 && HasLeapSixth(y) {
        leap := true;
      } else {
        m := m + 1;
      }
      if m > 12 {
        m := 1;
        leap := false;
        y := y + 1;
      }
    }

    /** lunar_prev. */
    method StepBack()
      requires m > 0
      modifies this
      ensures At() == Prev(old(At()))
    {
      if leap {
        leap := false;
        return;
      }
      if m == 1 {
        if y > 0 {
          y := y - 1;
        }
        m := 12;
        return;
      }
      if m == 7 && HasLeapSixth(y) {
        m, leap := 6, true;
        return;
      }
      m := m - 1;
    }
  }

  /** Where C division takes the tick count; invalid dates, at -1, count as day 0. */
  function DayOf(c: Civil): int {
    if FromCivil(c) < 0 then 0 else FromCivil(c) / SECS_PER_DAY
  }

  const ANCHOR_DATE: Civil := Civil(2026, 2, 17, 0, 0, 0)

  /** The first day of all is day 788 of the civil count: a day of year 2. */
  lemma BeginningIsDay788()
    ensures DayOf(ANCHOR_DATE) - BEGINNING == 788
  {
  }

  /** lardtime_lunar_from_civil. */
  method LunarFromCivil(c: Civil) returns (out: LunarDate)
    ensures out == LunarOf(DayOf(c.(hour := 0, minute := 0, second := 0)) - DayOf(ANCHOR_DATE)) && ValidLunar(out)
  {
    var delta := DayOf(c.(hour := 0, minute := 0, second := 0)) - DayOf(ANCHOR_DATE);
    hide HasLeapSixth, DayOf;
    ghost var start := delta;
    var w := new Walker(ANCHOR);
    while delta >= MonthLength(w.At())
      invariant ValidMonth(w.At()) && (start < 0 ==> delta == start && w.At() == ANCHOR)
      invariant start >= 0 ==> delta >= 0 && WalkOn(w.At(), delta) == LunarOf(start)
      decreases delta
    {
      PrevOfNext(w.At());
      delta := delta - MonthLength(w.At());
      w.StepOn();
    }
    while delta < 0
      invariant ValidMonth(w.At()) && delta < MonthLength(w.At())
      invariant start >= 0 ==> delta >= 0 && WalkOn(w.At(), delta) == LunarOf(start)
      invariant start < 0 ==> WalkBack(w.At(), delta) == LunarOf(start)
      decreases -delta
    {
      NextOfPrev(w.At());
      w.StepBack();
      delta := delta + MonthLength(w.At());
    }
    out := LunarDate(w.At(), delta + 1);
  }
}
