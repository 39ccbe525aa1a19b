/**
 * The static calendar helpers of the date/time class: the Gregorian leap
 * rule, the month-length table, the length of a year and the day-of-week
 * formula of Claus Tondering, together with the day counts since
 * 2000-01-01 that the seconds codec accumulates.
 */
module Calendar {
  import opened Bytes

  /** The Gregorian leap rule: divisible by 4 and not by 100, or divisible by 400. */
  predicate IsLeapYear(year: nat) {
    (year % 4 == 0 && year % 100 != 0) || year % 400 == 0
  }

  /** The month-length table, indexed by month; entry 0 is unused. */
  const DaysPerMonth: seq<nat> := [0, 31, 28, 31, 30, 31, 30, 31, 31, 30, 31, 30, 31]

  /**
   * The number of days of `month` in `year`; February of a leap year has 29.
   * The table is spelled out month by month here; `MonthLengths` shows that
   * it is `DaysPerMonth`.
   */
  function MaxDayPerMonth(year: nat, month: nat): (days: nat)
    requires month <= 12
    ensures month == 2 && IsLeapYear(year) ==> days == 29
    ensures !(month == 2 && IsLeapYear(year)) ==> days == DaysPerMonth[month]
  {
    if month == 2 then (if IsLeapYear(year) then 29 else 28)
    else if month == 4 || month == 6 || month == 9 || month == 11 then 30
    else if month == 0 then 0
    else 31
  }

  /** The number of days of `year`. */
  function DaysForYear(year: nat): (days: nat)
    ensures days == 337 + MaxDayPerMonth(year, 2)
  {
    if IsLeapYear(year) then 366 else 365
  }

  /** The days of the years 2000 .. year-1; zero for every year up to 2000. */
  function DaysBeforeYear(year: nat): nat {
    if year <= 2000 then 0 else DaysOfYears(year - 2000)
  }

  /** The days of the `n` years from 2000 on. */
  function DaysOfYears(n: nat): nat
    decreases n
  {
    if n == 0 then 0 else DaysOfYears(n - 1) + DaysForYear(1999 + n)
  }

  /** One more year adds the days of the year before it. */
  lemma DaysBeforeYearStep(year: nat)
    requires 2000 < year
    ensures DaysBeforeYear(year) == DaysBeforeYear(year - 1) + DaysForYear(year - 1)
  {
    assert DaysOfYears(year - 2000) == DaysOfYears(year - 2001) + DaysForYear(year - 1);
  }

  /** The days of the months 1 .. month-1 of `year`. */
  function DaysBeforeMonth(year: nat, month: nat): nat
    requires month <= 13
    decreases month
  {
    if month <= 1 then 0 else DaysBeforeMonth(year, month - 1) + MaxDayPerMonth(year, month - 1)
  }

  /** One more month adds the days of the month before it. */
  lemma DaysBeforeNextMonth(year: nat, month: nat)
    requires 1 <= month <= 12
    ensures DaysBeforeMonth(year, month + 1) == DaysBeforeMonth(year, month) + MaxDayPerMonth(year, month)
  {
  }

  /**
   * The day of the week (0 = Sunday) by Tondering's formula. Every operand is
   * non-negative for a year from 1 on, so integer division here agrees with
   * the truncating division of the 16-bit original.
   */
  function CalculateDayOfWeek(year: nat, month: nat, day: nat): (r: nat)
    requires 1 <= year && 1 <= month <= 12
    ensures r < 7
  {
    var a := (14 - month) / 12;
    var y := year - a;
    var m := month + 12 * a - 2;
    (day + y + y / 4 - y / 100 + y / 400 + (31 * m) / 12) % 7
  }

  /** February is the only month whose length depends on the year, and it has 29 days exactly in leap years. */
  lemma MonthLengths(year: nat, month: nat)
    requires 1 <= month <= 12
    ensures month == 2 ==> (MaxDayPerMonth(year, month) == 29 <==> IsLeapYear(year))
    ensures month == 2 ==> (MaxDayPerMonth(year, month) == 28 <==> !IsLeapYear(year))
    ensures month != 2 ==> MaxDayPerMonth(year, month) == DaysPerMonth[month] && forall y: nat :: MaxDayPerMonth(y, month) == MaxDayPerMonth(year, month)
    ensures 28 <= MaxDayPerMonth(year, month) <= 31
  {
  }

  /** The century rule: 2000 and 2400 are leap years, 2100 is not. */
  lemma CenturyYears()
    ensures MaxDayPerMonth(2000, 2) == 29 && MaxDayPerMonth(2400, 2) == 29 && MaxDayPerMonth(2100, 2) == 28
  {
  }

  /** The days before each month: the non-leap cumulative table plus the leap day from March on. */
  const CumulativeDays: seq<nat> := [0, 0, 31, 59, 90, 120, 151, 181, 212, 243, 273, 304, 334, 365]

  lemma {:induction false} DaysBeforeMonthClosed(year: nat, month: nat)
    requires month <= 13
    ensures DaysBeforeMonth(year, month) == CumulativeDays[month] + (if month > 2 && IsLeapYear(year) then 1 else 0)
    decreases month
  {
    if month > 1 {
      DaysBeforeMonthClosed(year, month - 1);
    }
  }

  /** The twelve months add up to the length of the year. */
  lemma MonthsFillYear(year: nat)
    ensures DaysBeforeMonth(year, 13) == DaysForYear(year)
  {
    DaysBeforeMonthClosed(year, 13);
  }

  /** Day counts grow with the month. */
  lemma {:induction false} DaysBeforeMonthMonotone(year: nat, m1: nat, m2: nat)
    requires m1 <= m2 <= 13
    ensures DaysBeforeMonth(year, m1) <= DaysBeforeMonth(year, m2)
    ensures 1 <= m1 < m2 ==> DaysBeforeMonth(year, m1) + MaxDayPerMonth(year, m1) <= DaysBeforeMonth(year, m2)
    decreases m2
  {
    if m1 < m2 {
      DaysBeforeMonthMonotone(year, m1, m2 - 1);
    }
  }

  /** Day counts grow with the year, by at least 365 days a year. */
  lemma {:induction false} DaysBeforeYearMonotone(y1: nat, y2: nat)
    requires 2000 <= y1 <= y2
    ensures DaysBeforeYear(y1) + 365 * (y2 - y1) <= DaysBeforeYear(y2)
    ensures y1 < y2 ==> DaysBeforeYear(y1) + DaysForYear(y1) <= DaysBeforeYear(y2)
    decreases y2
  {
    if y1 < y2 {
      DaysBeforeYearMonotone(y1, y2 - 1);
      DaysBeforeYearStep(y2);
    }
  }

  /** The running sum of Tondering's formula: the year plus its leap corrections. */
  function LeapSum(y: nat): nat {
    y + y / 4 - y / 100 + y / 400
  }

  /** `y / k` grows by one exactly when `y` is a multiple of `k`. */
  lemma DivStep(y: nat, k: nat)
    requires 1 <= y && 1 <= k
    ensures y / k - (y - 1) / k == (if y % k == 0 then 1 else 0)
  {
    var q, r := (y - 1) / k, (y - 1) % k;
    assert y - 1 == q * k + r && 0 <= r < k;
    if r == k - 1 {
      assert y == (q + 1) * k;
      DivModUnique(y, k, q + 1, 0);
    } else {
      assert y == q * k + (r + 1);
      DivModUnique(y, k, q, r + 1);
    }
  }

  /** One more year adds one day to the sum, and a leap year adds a second one. */
  lemma LeapSumStep(y: nat)
    requires 1 <= y
    ensures LeapSum(y) == LeapSum(y - 1) + 1 + (if IsLeapYear(y) then 1 else 0)
  {
    DivStep(y, 4);
    DivStep(y, 100);
    DivStep(y, 400);
    MultipleOfMultiple(y, 100, 4);
    MultipleOfMultiple(y, 4, 25);
  }

  /** A multiple of `k * c` is a multiple of `k`. */
  lemma MultipleOfMultiple(y: nat, k: nat, c: nat)
    requires 1 <= k && 1 <= c
    ensures y % (k * c) == 0 ==> y % k == 0
  {
    if y % (k * c) == 0 {
      var q := y / (k * c);
      assert y == q * (k * c);
      assert y == (q * c) * k;
      DivModUnique(y, k, q * c, 0);
    }
  }

  /** The days before `year`, in closed form through `LeapSum`; the multiple of 364 is whole weeks. */
  lemma {:induction false} DaysBeforeYearClosed(year: nat)
    requires 2000 <= year
    ensures DaysBeforeYear(year) == LeapSum(year - 1) - LeapSum(1999) + 364 * (year - 2000)
    decreases year
  {
    if year > 2000 {
      DaysBeforeYearClosed(year - 1);
      DaysBeforeYearStep(year);
      LeapSumStep(year - 1);
    }
  }

  /**
   * Tondering's formula agrees with counting days from 2000-01-01, a
   * Saturday (6): the weekday of a date is its day number plus six, modulo
   * seven.
   */
  lemma DayOfWeekAgrees(year: nat, month: nat, day: nat)
    requires 2000 <= year && 1 <= month <= 12 && 1 <= day
    ensures CalculateDayOfWeek(year, month, day)
         == (DaysBeforeYear(year) + DaysBeforeMonth(year, month) + day - 1 + 6) % 7
  {
    var t := TonderingSum(year, month, day);
    var off := MonthOffset(month);
    var weeks := 52 * (year - 2000) - 355;
    assert DaysBeforeYear(year) + DaysBeforeMonth(year, month) + day - 1 + 6 == t + 7 * weeks + off by {
      DaysBeforeYearClosed(year);
      DaysBeforeMonthClosed(year, month);
      assert LeapSum(1999) == 2483;
      if month > 2 {
        LeapSumStep(year);
      }
    }
    assert off == 7 * (off / 7);
    ShiftByWeeks(t, weeks + off / 7);
  }

  /** The sum inside Tondering's formula, with the year and month shifted so that the year starts in March. */
  function TonderingSum(year: nat, month: nat, day: nat): (t: nat)
    requires 1 <= year && 1 <= month <= 12
    ensures CalculateDayOfWeek(year, month, day) == t % 7
    ensures month <= 2 ==> t == day + LeapSum(year - 1) + (31 * (month + 10)) / 12
    ensures month > 2 ==> t == day + LeapSum(year) + (31 * (month - 2)) / 12
  {
    if month <= 2 then
      assert (14 - month) / 12 == 1;
      day + LeapSum(year - 1) + (31 * (month + 10)) / 12
    else
      assert (14 - month) / 12 == 0;
      day + LeapSum(year) + (31 * (month - 2)) / 12
  }

  /**
   * The difference between the days before `month` and Tondering's month
   * term; it is a whole number of weeks.
   */
  function MonthOffset(month: nat): (off: int)
    requires 1 <= month <= 12
    ensures off % 7 == 0
    ensures month <= 2 ==> off == CumulativeDays[month] + 7 - (31 * (month + 10)) / 12
    ensures month > 2 ==> off == CumulativeDays[month] + 6 - (31 * (month - 2)) / 12
  {
    if month <= 2 then CumulativeDays[month] + 7 - (31 * (month + 10)) / 12
    else CumulativeDays[month] + 6 - (31 * (month - 2)) / 12
  }

  /** Adding whole weeks keeps the weekday. */
  lemma ShiftByWeeks(t: int, w: int)
    ensures (t + 7 * w) % 7 == t % 7
  {
  }
}
