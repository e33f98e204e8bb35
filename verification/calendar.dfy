/** Proleptic Gregorian calendar dates and their day numbers.

    The form's date fields hold a calendar day. The model stores them as a day
    number, the count of days since 1970-01-01. This module defines the
    conversion from a civil date. It then proves that the conversion counts
    calendar days: the day after a date gets the next day number. So adding
    `n` to a day number is the same as stepping the calendar forward `n` days,
    which is what `Date.prototype.setDate` does when it rolls a day-of-month
    past the end of the month. */
module Calendar {

  datatype Date = Date(year: int, month: int, day: int)

  predicate IsLeapYear(y: int) {
    y % 4 == 0 && (y % 100 != 0 || y % 400 == 0)
  }

  function DaysInMonth(y: int, m: int): (n: int)
    requires 1 <= m <= 12
    ensures 28 <= n <= 31
    ensures n == 29 <==> m == 2 && IsLeapYear(y)
  {
    if m == 2 then (if IsLeapYear(y) then 29 else 28)
    else if m == 4 || m == 6 || m == 9 || m == 11 then 30
    else 31
  }

  predicate ValidDate(d: Date) {
    1 <= d.month <= 12 && 1 <= d.day <= DaysInMonth(d.year, d.month)
  }

  /** Day number of March 1 of year `y`. Counting years from March puts the
      leap day at the end of the year; 146097 is the number of days in a
      400-year cycle and 719468 the day number of 0000-03-01 counted from
      1970-01-01 in the other direction. */
  function MarchFirst(y: int): int {
    var era := y / 400;
    var yoe := y % 400;
    era * 146097 + yoe * 365 + yoe / 4 - yoe / 100 - 719468
  }

  /** Days from March 1 to the first day of the `mp`-th month counted from
      March (0 = March, ..., 10 = January, 11 = February). */
  function MonthOffset(mp: int): int
    requires 0 <= mp < 12
  {
    (153 * mp + 2) / 5
  }

  /** Days since 1970-01-01 (negative before it). */
  function DayNumber(d: Date): int
    requires 1 <= d.month <= 12
  {
    var y := if d.month <= 2 then d.year - 1 else d.year;
    var mp := if d.month > 2 then d.month - 3 else d.month + 9;
    MarchFirst(y) + MonthOffset(mp) + d.day - 1
  }

  /** The calendar successor of a valid date. */
  function NextDay(d: Date): (r: Date)
    requires ValidDate(d)
    ensures ValidDate(r)
    ensures r.year == d.year || (r.year == d.year + 1 && r.month == 1 && r.day == 1)
  {
    if d.day < DaysInMonth(d.year, d.month) then Date(d.year, d.month, d.day + 1)
    else if d.month < 12 then Date(d.year, d.month + 1, 1)
    else Date(d.year + 1, 1, 1)
  }

  /** The date `n` calendar days after `d`. */
  function AddDays(d: Date, n: nat): (r: Date)
    requires ValidDate(d)
    ensures ValidDate(r)
    decreases n
  {
    if n == 0 then d else AddDays(NextDay(d), n - 1)
  }

  /** Days from March 1 of the first year of a 400-year cycle to March 1 of
      its `yoe`-th year. */
  function CycleDays(yoe: int): int {
    yoe * 365 + yoe / 4 - yoe / 100
  }

  /** Within one 400-year cycle, a year gains a leap day exactly when its
      successor is divisible by 4 but not by 100. */
  lemma CycleDaysStep(yoe: int)
    requires 0 <= yoe < 399
    ensures CycleDays(yoe + 1) - CycleDays(yoe)
            == if (yoe + 1) % 4 == 0 && (yoe + 1) % 100 != 0 then 366 else 365
  {
    var q4, r4 := yoe / 4, yoe % 4;
    var q100, r100 := yoe / 100, yoe % 100;
    if r4 == 3 {
      assert yoe + 1 == 4 * (q4 + 1);
    } else {
      assert yoe + 1 == 4 * q4 + (r4 + 1);
    }
    if r100 == 99 {
      assert yoe + 1 == 100 * (q100 + 1);
      assert yoe + 1 == 4 * (25 * (q100 + 1));
    } else {
      assert yoe + 1 == 100 * q100 + (r100 + 1);
    }
  }

  /** Remainders modulo 4 and 100 can be read off the remainder modulo 400. */
  lemma RemaindersOfCycle(x: int)
    ensures x % 4 == (x % 400) % 4
    ensures x % 100 == (x % 400) % 100
  {
    RemainderOfCycle4(x);
    RemainderOfCycle100(x);
  }

  lemma RemainderOfCycle4(x: int)
    ensures x % 4 == (x % 400) % 4
  {
    var q, r := x / 400, x % 400;
    var s, t := r / 4, r % 4;
    assert r == 4 * s + t;
    assert x == 4 * (100 * q + s) + t;
  }

  lemma RemainderOfCycle100(x: int)
    ensures x % 100 == (x % 400) % 100
  {
    var q, r := x / 400, x % 400;
    var s, t := r / 100, r % 100;
    assert r == 100 * s + t;
    assert x == 100 * (4 * q + s) + t;
  }

  /** Moving from year `y` to `y + 1` either stays in the same 400-year cycle
      or starts the next one. */
  lemma CycleOfNextYear(y: int)
    ensures y % 400 < 399 ==> (y + 1) / 400 == y / 400 && (y + 1) % 400 == y % 400 + 1
    ensures y % 400 == 399 ==> (y + 1) / 400 == y / 400 + 1 && (y + 1) % 400 == 0
  {
    var q := y / 400;
    var r := y % 400;
    assert y + 1 == 400 * q + (r + 1);
    if r == 399 {
      assert y + 1 == 400 * (q + 1) + 0;
    }
  }

  /** From one March 1 to the next there are 366 days when the February in
      between has a leap day, and 365 days otherwise. */
  lemma MarchFirstStep(y: int)
    ensures MarchFirst(y + 1) - MarchFirst(y) == if IsLeapYear(y + 1) then 366 else 365
  {
    CycleOfNextYear(y);
    RemaindersOfCycle(y + 1);
    var era := y / 400;
    var yoe := y % 400;
    if yoe < 399 {
      CycleDaysStep(yoe);
      assert MarchFirst(y) == era * 146097 + CycleDays(yoe) - 719468;
      assert MarchFirst(y + 1) == era * 146097 + CycleDays(yoe + 1) - 719468;
    } else {
      assert CycleDays(399) == 146097 - 366;
      assert MarchFirst(y) == era * 146097 + CycleDays(399) - 719468;
      assert MarchFirst(y + 1) == (era + 1) * 146097 + CycleDays(0) - 719468;
    }
  }

  /** The successor of a date is exactly one day number later. */
  lemma NextDayCountsOneDay(d: Date)
    requires ValidDate(d)
    ensures DayNumber(NextDay(d)) == DayNumber(d) + 1
  {
    if d.day < DaysInMonth(d.year, d.month) {
    } else if d.month == 2 {
      EndOfFebruaryStep(d);
    } else {
      EndOfMonthStep(d);
    }
  }

  /** The last day of February is followed by March 1, one day number later. */
  lemma EndOfFebruaryStep(d: Date)
    requires ValidDate(d) && d.month == 2 && d.day == DaysInMonth(d.year, 2)
    ensures DayNumber(NextDay(d)) == DayNumber(d) + 1
  {
    MarchFirstStep(d.year - 1);
    assert NextDay(d) == Date(d.year, 3, 1);
    assert DayNumber(Date(d.year, 3, 1)) == MarchFirst(d.year);
    assert DayNumber(d) == MarchFirst(d.year - 1) + MonthOffset(11) + d.day - 1;
  }

  /** The last day of any other month is followed by the first of the next
      month, or by January 1, one day number later. */
  lemma EndOfMonthStep(d: Date)
    requires ValidDate(d) && d.month != 2 && d.day == DaysInMonth(d.year, d.month)
    ensures DayNumber(NextDay(d)) == DayNumber(d) + 1
  {
    var y := if d.month <= 2 then d.year - 1 else d.year;
    var mp := if d.month > 2 then d.month - 3 else d.month + 9;
    assert mp != 11;
    assert MonthOffset(mp + 1) - MonthOffset(mp) == d.day by {
      assert MonthOffset(0) == 0 && MonthOffset(1) == 31 && MonthOffset(2) == 61;
      assert MonthOffset(3) == 92 && MonthOffset(4) == 122 && MonthOffset(5) == 153;
      assert MonthOffset(6) == 184 && MonthOffset(7) == 214 && MonthOffset(8) == 245;
      assert MonthOffset(9) == 275 && MonthOffset(10) == 306 && MonthOffset(11) == 337;
    }
    assert DayNumber(NextDay(d)) == MarchFirst(y) + MonthOffset(mp + 1);
  }

  /** Stepping the calendar forward `n` days adds `n` to the day number. */
  lemma {:induction false} AddDaysCountsDays(d: Date, n: nat)
    requires ValidDate(d)
    ensures DayNumber(AddDays(d, n)) == DayNumber(d) + n
    decreases n
  {
    if n > 0 {
      NextDayCountsOneDay(d);
      AddDaysCountsDays(NextDay(d), n - 1);
    }
  }

  /** Day numbers are anchored at 1970-01-01. */
  lemma EpochIsDayZero()
    ensures DayNumber(Date(1970, 1, 1)) == 0
  {
  }
}
