/**
 * The date/time value of the data logger: a Gregorian date from 2000 on and
 * a time of day, with the clamping setters, the field-by-field comparisons
 * and the conversion to and from seconds since 2000-01-01 00:00:00 that
 * the record log stores.
 *
 * The C++ class is a value type (copied, returned by value, never shared),
 * so a datatype models it exactly; its two setters return the updated value.
 */
module DateTimes {
  import opened Bytes
  import opened Calendar

  /** The seven fields, at the widths of the original. `dayOfWeek` counts from Sunday = 0. */
  datatype DateTime = DateTime(year: uint16, month: uint8, day: uint8,
                               hour: uint8, minute: uint8, second: uint8, dayOfWeek: uint8)

  /** The default value: 2000-01-01 00:00:00, a Saturday. */
  const Epoch: DateTime := DateTime(2000, 1, 1, 0, 0, 0, 6)

  /** A date from 2000 on with every field inside its calendar range. */
  predicate IsValid(dt: DateTime) {
    && 2000 <= dt.year
    && 1 <= dt.month <= 12
    && 1 <= dt.day as int <= MaxDayPerMonth(dt.year as nat, dt.month as nat)
    && dt.hour < 24 && dt.minute < 60 && dt.second < 60
  }

  /** Days since 2000-01-01 of the date part. */
  function DayNumber(dt: DateTime): int
    requires dt.month <= 13
  {
    DaysBeforeYear(dt.year as nat) + DaysBeforeMonth(dt.year as nat, dt.month as nat) + dt.day as int - 1
  }

  function TimeOfDay(dt: DateTime): int {
    dt.hour as int * 3600 + dt.minute as int * 60 + dt.second as int
  }

  /** Seconds since 2000-01-01 00:00:00, without the 32-bit truncation of the original. */
  function ToSeconds(dt: DateTime): int
    requires dt.month <= 13
  {
    DayNumber(dt) * 86400 + TimeOfDay(dt)
  }

  /** The stored weekday is the one of the date: 2000-01-01 was a Saturday (6). */
  predicate WeekdayMatches(dt: DateTime)
    requires dt.month <= 13
  {
    dt.dayOfWeek as int == (DayNumber(dt) + 6) % 7
  }

  /** A valid date whose seconds value fits the 32-bit counter. */
  predicate Fits(dt: DateTime) {
    IsValid(dt) && ToSeconds(dt) < 0x1_0000_0000
  }

  // ---------------------------------------------------------------------
  // Setters

  /**
   * `setDate`: force the year into 2000..9999, the month into 1..12 and the
   * day into 1..days of that month, then recompute the weekday.
   */
  function SetDate(dt: DateTime, year: uint16, month: uint16, day: uint16): (r: DateTime)
    ensures 2000 <= r.year <= 9999 && 1 <= r.month <= 12
    ensures 1 <= r.day as int <= MaxDayPerMonth(r.year as nat, r.month as nat)
    ensures 2000 <= year <= 9999 ==> r.year == year
    ensures year < 2000 ==> r.year == 2000
    ensures year > 9999 ==> r.year == 9999
    ensures 1 <= month <= 12 ==> r.month as int == month as int
    ensures month < 1 ==> r.month == 1
    ensures month > 12 ==> r.month == 12
    ensures 1 <= day as int <= MaxDayPerMonth(r.year as nat, r.month as nat) ==> r.day as int == day as int
    ensures day < 1 ==> r.day == 1
    ensures day as int > MaxDayPerMonth(r.year as nat, r.month as nat)
        ==> r.day as int == MaxDayPerMonth(r.year as nat, r.month as nat)
    ensures r.dayOfWeek as int == CalculateDayOfWeek(r.year as nat, r.month as nat, r.day as nat)
    ensures r.hour == dt.hour && r.minute == dt.minute && r.second == dt.second
  {
    var y := if year < 2000 then 2000 else if year > 9999 then 9999 else year;
    var m := if month < 1 then 1 else if month > 12 then 12 else month;
    var maxDay := MaxDayPerMonth(y as nat, m as nat);
    var d := if day < 1 then 1 else if day as int > maxDay then maxDay as uint16 else day;
    dt.(year := y, month := m as uint8, day := d as uint8,
        dayOfWeek := CalculateDayOfWeek(y as nat, m as nat, d as nat) as uint8)
  }

  /** `setTime`: force the hour to at most 23 and the minute and second to at most 59. */
  function SetTime(dt: DateTime, hour: uint8, minute: uint8, second: uint8): (r: DateTime)
    ensures r.hour < 24 && r.minute < 60 && r.second < 60
    ensures hour < 24 ==> r.hour == hour
    ensures minute < 60 ==> r.minute == minute
    ensures second < 60 ==> r.second == second
    ensures hour > 23 ==> r.hour == 23
    ensures minute > 59 ==> r.minute == 59
    ensures second > 59 ==> r.second == 59
    ensures r.year == dt.year && r.month == dt.month && r.day == dt.day && r.dayOfWeek == dt.dayOfWeek
  {
    dt.(hour := if hour > 23 then 23 else hour,
        minute := if minute > 59 then 59 else minute,
        second := if second > 59 then 59 else second)
  }

  /** The value of the range `lo..hi` nearest to `x`. */
  function Clamp(x: int, lo: int, hi: int): (r: int)
    requires lo <= hi
    ensures lo <= r <= hi
    ensures lo <= x <= hi ==> r == x
    ensures x < lo ==> r == lo
    ensures x > hi ==> r == hi
  {
    if x < lo then lo else if x > hi then hi else x
  }

  /**
   * The six-argument constructor: `setDate` then `setTime` (together they
   * assign all seven fields), so every field is its argument clamped into range.
   */
  function Make(year: uint16, month: uint8, day: uint8, hour: uint8, minute: uint8, second: uint8): (r: DateTime)
    ensures IsValid(r) && WeekdayMatches(r)
    ensures r.year as int == Clamp(year as int, 2000, 9999)
    ensures r.month as int == Clamp(month as int, 1, 12)
    ensures r.day as int == Clamp(day as int, 1, MaxDayPerMonth(r.year as nat, r.month as nat))
    ensures r.hour as int == Clamp(hour as int, 0, 23)
    ensures r.minute as int == Clamp(minute as int, 0, 59)
    ensures r.second as int == Clamp(second as int, 0, 59)
  {
    var d := SetDate(Epoch, year, month as uint16, day as uint16);
    var r := SetTime(d, hour, minute, second);
    assert IsValid(r) && WeekdayMatches(r) by {
      SetDateWeekday(Epoch, year, month as uint16, day as uint16);
      assert DayNumber(r) == DayNumber(d);
    }
    assert r.year == d.year && r.month == d.month && r.day == d.day;
    r
  }

  /** February 30 becomes February 29 in a leap year and February 28 in any other. */
  lemma FebruaryThirtiethClamps(dt: DateTime, year: uint16)
    requires 2000 <= year <= 9999
    ensures SetDate(dt, year, 2, 30).day == (if IsLeapYear(year as nat) then 29 else 28)
    ensures SetDate(dt, year, 2, 30).month == 2 && SetDate(dt, year, 2, 30).year == year
  {
    MonthLengths(year as nat, 2);
  }

  /** Whatever the date, `setDate` leaves a weekday that agrees with the seconds codec. */
  lemma SetDateWeekday(dt: DateTime, year: uint16, month: uint16, day: uint16)
    ensures WeekdayMatches(SetDate(dt, year, month, day))
  {
    CalculatedWeekdayMatches(SetDate(dt, year, month, day));
  }

  /** A date from 2000 on whose weekday is the one of Tondering's formula carries the weekday of its day number. */
  lemma CalculatedWeekdayMatches(r: DateTime)
    requires 2000 <= r.year && 1 <= r.month <= 12 && 1 <= r.day
    requires r.dayOfWeek as int == CalculateDayOfWeek(r.year as nat, r.month as nat, r.day as nat)
    ensures WeekdayMatches(r)
  {
    DayOfWeekAgrees(r.year as nat, r.month as nat, r.day as nat);
  }

  /** The default value is second zero of the epoch. */
  lemma EpochIsFirst()
    ensures IsValid(Epoch) && IsFirst(Epoch) && ToSeconds(Epoch) == 0
  {
    assert IsFirst(Epoch);
  }

  /** `isFirst`: the default value, 2000-01-01 00:00:00; for a valid date, second zero of the counter. */
  predicate IsFirst(dt: DateTime)
    ensures IsValid(dt) ==> (IsFirst(dt) <==> ToSeconds(dt) == 0)
  {
    var r := dt.year == 2000 && dt.month == 1 && dt.day == 1 && dt.hour == 0 && dt.minute == 0 && dt.second == 0;
    if IsValid(dt) then FirstIsSecondZero(dt); r else r
  }

  lemma FirstIsSecondZero(dt: DateTime)
    requires IsValid(dt)
    ensures (dt.year == 2000 && dt.month == 1 && dt.day == 1 && dt.hour == 0 && dt.minute == 0 && dt.second == 0)
        <==> ToSeconds(dt) == 0
  {
    DaysBeforeYearMonotone(2000, dt.year as nat);
    DaysBeforeMonthMonotone(dt.year as nat, if dt.month >= 2 then 2 else 1, dt.month as nat);
  }

  // ---------------------------------------------------------------------
  // Comparisons

  /** `operator<`: lexicographic on year, month, day, hour, minute, second. */
  predicate Less(a: DateTime, b: DateTime) {
    if a.year != b.year then a.year < b.year
    else if a.month != b.month then a.month < b.month
    else if a.day != b.day then a.day < b.day
    else if a.hour != b.hour then a.hour < b.hour
    else if a.minute != b.minute then a.minute < b.minute
    else a.second < b.second
  }

  /** `operator>`: the mirror image of `Less`. */
  predicate Greater(a: DateTime, b: DateTime) {
    if a.year != b.year then a.year > b.year
    else if a.month != b.month then a.month > b.month
    else if a.day != b.day then a.day > b.day
    else if a.hour != b.hour then a.hour > b.hour
    else if a.minute != b.minute then a.minute > b.minute
    else a.second > b.second
  }

  /** The six compared fields agree (the weekday is not compared). */
  predicate SameMoment(a: DateTime, b: DateTime) {
    a.year == b.year && a.month == b.month && a.day == b.day
    && a.hour == b.hour && a.minute == b.minute && a.second == b.second
  }

  /** `Less` is a strict order, `Greater` is its converse, and any two values compare one way or are the same moment. */
  lemma StrictOrder(a: DateTime, b: DateTime, c: DateTime)
    ensures !Less(a, a)
    ensures Less(a, b) ==> !Less(b, a)
    ensures Less(a, b) && Less(b, c) ==> Less(a, c)
    ensures Less(a, b) <==> Greater(b, a)
    ensures Less(a, b) || Greater(a, b) || SameMoment(a, b)
  {
  }

  /** A lexicographically earlier valid date has a smaller seconds value. */
  lemma LessSecondsBefore(a: DateTime, b: DateTime)
    requires IsValid(a) && IsValid(b) && Less(a, b)
    ensures ToSeconds(a) < ToSeconds(b)
  {
    var ya, yb := a.year as nat, b.year as nat;
    if a.year != b.year {
      DaysBeforeMonthMonotone(ya, a.month as nat, 13);
      MonthsFillYear(ya);
      DaysBeforeYearMonotone(ya, yb);
      assert DayNumber(a) < DayNumber(b);
    } else if a.month != b.month {
      DaysBeforeMonthMonotone(ya, a.month as nat, b.month as nat);
      assert DayNumber(a) < DayNumber(b);
    }
  }

  /** For valid dates, `operator<` is exactly the order of the seconds values. */
  lemma LessMatchesSeconds(a: DateTime, b: DateTime)
    requires IsValid(a) && IsValid(b)
    ensures Less(a, b) <==> ToSeconds(a) < ToSeconds(b)
    ensures Greater(a, b) <==> ToSeconds(a) > ToSeconds(b)
  {
    StrictOrder(a, b, a);
    if Less(a, b) {
      LessSecondsBefore(a, b);
    } else if Less(b, a) {
      LessSecondsBefore(b, a);
    }
  }

  // ---------------------------------------------------------------------
  // Seconds codec: specification

  /** The year reached by counting `days` whole days forward from January 1 of `year`, and the days left over. */
  function YearFrom(year: nat, days: nat): (r: (nat, nat))
    requires 2000 <= year
    ensures year <= r.0 && r.1 < DaysForYear(r.0)
    ensures DaysBeforeYear(r.0) + r.1 == DaysBeforeYear(year) + days
    ensures 365 * (r.0 - year) <= days
    decreases days
  {
    if days < DaysForYear(year) then (year, days)
    else
      DaysBeforeYearStep(year + 1);
      YearFrom(year + 1, days - DaysForYear(year))
  }

  /** The month reached by counting `days` days forward from the first of `month`, and the days left over. */
  function MonthFrom(year: nat, month: nat, days: nat): (r: (nat, nat))
    requires 1 <= month <= 12 && DaysBeforeMonth(year, month) + days < DaysForYear(year)
    ensures month <= r.0 <= 12 && r.1 < MaxDayPerMonth(year, r.0)
    ensures DaysBeforeMonth(year, r.0) + r.1 == DaysBeforeMonth(year, month) + days
    decreases 12 - month
  {
    if days < MaxDayPerMonth(year, month) then (month, days)
    else
      MonthFitsYear(year, month, days);
      DaysBeforeNextMonth(year, month);
      MonthFrom(year, month + 1, days - MaxDayPerMonth(year, month))
  }

  /**
   * The value `fromSecondsSince2000` returns: every 32-bit count decodes to a
   * valid date with a matching weekday whose seconds value is that count.
   */
  function FromSeconds(s: nat): (r: DateTime)
    requires s < 0x1_0000_0000
    ensures IsValid(r) && WeekdayMatches(r) && ToSeconds(r) == s
    ensures r.year <= 2136
  {
    var days := s / 86400;
    var ym := YearFrom(2000, days);
    var md := (MonthsFillYear(ym.0); MonthFrom(ym.0, 1, ym.1));
    var secondsSinceMidnight := s % 86400;
    var r := DateTime(ym.0 as uint16, md.0 as uint8, (md.1 + 1) as uint8,
                      (secondsSinceMidnight / 3600) as uint8,
                      (secondsSinceMidnight % 3600 / 60) as uint8,
                      (secondsSinceMidnight % 3600 % 60) as uint8,
                      ((days + 6) % 7) as uint8);
    assert DayNumber(r) == days;
    r
  }

  /** A later seconds count decodes to a later date. */
  lemma FromSecondsMonotone(s1: nat, s2: nat)
    requires s1 < s2 < 0x1_0000_0000
    ensures Less(FromSeconds(s1), FromSeconds(s2))
  {
    LessMatchesSeconds(FromSeconds(s1), FromSeconds(s2));
  }

  /** The counting of `YearFrom` has only one outcome. */
  lemma YearFromUnique(year: nat, days: nat, y: nat, rest: nat)
    requires 2000 <= year <= y && rest < DaysForYear(y)
    requires DaysBeforeYear(y) + rest == DaysBeforeYear(year) + days
    ensures YearFrom(year, days) == (y, rest)
  {
    var r := YearFrom(year, days);
    if r.0 < y {
      DaysBeforeYearMonotone(r.0, y);
    } else if y < r.0 {
      DaysBeforeYearMonotone(y, r.0);
    }
  }

  /** The counting of `MonthFrom` has only one outcome. */
  lemma {:induction false} MonthFromUnique(year: nat, month: nat, days: nat, m: nat, rest: nat)
    requires 1 <= month <= m <= 12 && rest < MaxDayPerMonth(year, m)
    requires DaysBeforeMonth(year, month) + days < DaysForYear(year)
    requires DaysBeforeMonth(year, m) + rest == DaysBeforeMonth(year, month) + days
    ensures MonthFrom(year, month, days) == (m, rest)
    decreases 12 - month
  {
    if month < m {
      DaysBeforeMonthMonotone(year, month, m);
      var next := days - MaxDayPerMonth(year, month);
      DaysBeforeNextMonth(year, month);
      MonthFromUnique(year, month + 1, next, m, rest);
      assert MonthFrom(year, month, days) == MonthFrom(year, month + 1, next);
    } else {
      assert days == rest;
    }
  }

  /**
   * Decoding the seconds value of a valid date gives back its six fields; the
   * weekday comes back too when the stored one was that of the date.
   */
  lemma FromSecondsOfToSeconds(dt: DateTime)
    requires Fits(dt)
    ensures SameMoment(FromSeconds(ToSeconds(dt)), dt)
    ensures WeekdayMatches(dt) ==> FromSeconds(ToSeconds(dt)) == dt
  {
    var weekday := (DayNumber(dt) + 6) % 7;
    var matched := dt.(dayOfWeek := weekday as uint8);
    assert ToSeconds(matched) == ToSeconds(dt) by {
      assert DayNumber(matched) == DayNumber(dt) && TimeOfDay(matched) == TimeOfDay(dt);
    }
    MatchedRoundTrip(matched);
    if WeekdayMatches(dt) {
      assert dt.dayOfWeek as int == weekday;
      assert matched == dt;
    }
  }

  /** The round trip for a date whose weekday is that of its day number. */
  lemma MatchedRoundTrip(dt: DateTime)
    requires Fits(dt) && WeekdayMatches(dt)
    ensures FromSeconds(ToSeconds(dt)) == dt
  {
    var s := ToSeconds(dt);
    var y, m := dt.year as nat, dt.month as nat;
    var dayOfYear := DaysBeforeMonth(y, m) + dt.day as int - 1;
    SplitSeconds(s, DayNumber(dt), dt.hour as int, dt.minute as int, dt.second as int);
    assert dayOfYear >= 0 && YearFrom(2000, s / 86400) == (y, dayOfYear)
        && MonthFrom(y, 1, dayOfYear) == (m, dt.day as int - 1) by {
      DayNumberCounts(dt);
    }
    assert dt.dayOfWeek as int == (s / 86400 + 6) % 7;
    FromSecondsFields(s, (y, dayOfYear), (m, dt.day as int - 1), dt);
  }

  /** Counting the day number of a valid date in years and months gives back its year, month and day. */
  lemma DayNumberCounts(dt: DateTime)
    requires IsValid(dt)
    ensures var y, m := dt.year as nat, dt.month as nat;
            var dayOfYear := DaysBeforeMonth(y, m) + dt.day as int - 1;
            && dayOfYear < DaysForYear(y)
            && YearFrom(2000, DayNumber(dt)) == (y, dayOfYear)
            && MonthFrom(y, 1, dayOfYear) == (m, dt.day as int - 1)
  {
    var y, m := dt.year as nat, dt.month as nat;
    var dayOfYear := DaysBeforeMonth(y, m) + dt.day as int - 1;
    DaysBeforeMonthMonotone(y, m, 13);
    MonthsFillYear(y);
    YearFromUnique(2000, DayNumber(dt), y, dayOfYear);
    MonthFromUnique(y, 1, dayOfYear, m, dt.day as int - 1);
  }

  /** Whole days, hours, minutes and seconds are recovered by the divisions of the decoder. */
  lemma SplitSeconds(s: int, days: int, h: int, m: int, sec: int)
    requires 0 <= days && 0 <= h < 24 && 0 <= m < 60 && 0 <= sec < 60
    requires s == days * 86400 + h * 3600 + m * 60 + sec
    ensures s / 86400 == days && s % 86400 / 3600 == h
    ensures s % 86400 % 3600 / 60 == m && s % 86400 % 3600 % 60 == sec
  {
    DivModUnique(s, 86400, days, h * 3600 + m * 60 + sec);
    DivModUnique(h * 3600 + m * 60 + sec, 3600, h, m * 60 + sec);
    DivModUnique(m * 60 + sec, 60, m, sec);
  }

  /**
   * On the dates that fit the counter, equal seconds values mean the same
   * six fields, and the same value outright when both weekdays match.
   */
  lemma ToSecondsInjective(a: DateTime, b: DateTime)
    requires Fits(a) && Fits(b)
    ensures ToSeconds(a) == ToSeconds(b) ==> SameMoment(a, b)
    ensures ToSeconds(a) == ToSeconds(b) && WeekdayMatches(a) && WeekdayMatches(b) ==> a == b
  {
    if ToSeconds(a) == ToSeconds(b) {
      FromSecondsOfToSeconds(a);
      FromSecondsOfToSeconds(b);
    }
  }

  // ---------------------------------------------------------------------
  // Seconds codec: the loops of the original

  /**
   * `toSecondsSince2000`: add up whole years, then whole months, then the
   * days, hours, minutes and seconds, in a `uint32_t` that wraps modulo 2^32.
   * A month beyond 13 would read past the month table.
   */
  method ToSecondsSince2000(dt: DateTime) returns (seconds: uint32)
    requires dt.month <= 13
    ensures seconds as int == ToSeconds(dt) % 0x1_0000_0000
  {
    seconds := 0;
    var year: uint16 := 2000;
    while year < dt.year
      invariant 2000 <= year && (if dt.year < 2000 then year == 2000 else year <= dt.year)
      invariant seconds as int == DaysBeforeYear(year as nat) * 86400 % 0x1_0000_0000
    {
      YearSecondsStep(year as nat, seconds);
      seconds := Wrap32(seconds as int + DaysForYear(year as nat) * 86400);
      year := year + 1;
    }
    var yearSeconds := DaysBeforeYear(dt.year as nat) * 86400;
    var month: uint8 := 1;
    while month < dt.month
      invariant 1 <= month && (if dt.month < 1 then month == 1 else month <= dt.month)
      invariant seconds as int == (yearSeconds + DaysBeforeMonth(dt.year as nat, month as nat) * 86400) % 0x1_0000_0000
    {
      MonthSecondsStep(yearSeconds, dt.year as nat, month as nat, seconds);
      seconds := Wrap32(seconds as int + MaxDayPerMonth(dt.year as nat, month as nat) * 86400);
      month := month + 1;
    }
    // `_day - 1` is cast to `uint32_t`: a day of 0 becomes 2^32 - 1.
    var dayOffset := Wrap32(dt.day as int - 1);
    var dateSeconds := yearSeconds + DaysBeforeMonth(dt.year as nat, dt.month as nat) * 86400;
    TimeOfDaySeconds(dt, dateSeconds, seconds, dayOffset);
    seconds := Wrap32(seconds as int + Wrap32(dayOffset as int * 86400) as int);
    seconds := Wrap32(seconds as int + dt.hour as int * 3600);
    seconds := Wrap32(seconds as int + dt.minute as int * 60);
    seconds := Wrap32(seconds as int + dt.second as int);
  }

  /** One pass of the year loop of `toSecondsSince2000` keeps the running total at the days before `year`. */
  lemma YearSecondsStep(year: nat, seconds: uint32)
    requires 2000 <= year && seconds as int == DaysBeforeYear(year) * 86400 % 0x1_0000_0000
    ensures Wrap32(seconds as int + DaysForYear(year) * 86400) as int == DaysBeforeYear(year + 1) * 86400 % 0x1_0000_0000
  {
    ModAddLeft(DaysBeforeYear(year) * 86400, DaysForYear(year) * 86400, 0x1_0000_0000);
    DaysBeforeYearStep(year + 1);
  }

  /** One pass of the month loop of `toSecondsSince2000` keeps the running total at the days before `month`. */
  lemma MonthSecondsStep(yearSeconds: int, year: nat, month: nat, seconds: uint32)
    requires 1 <= month <= 12
    requires seconds as int == (yearSeconds + DaysBeforeMonth(year, month) * 86400) % 0x1_0000_0000
    ensures Wrap32(seconds as int + MaxDayPerMonth(year, month) * 86400) as int
         == (yearSeconds + DaysBeforeMonth(year, month + 1) * 86400) % 0x1_0000_0000
  {
    ModAddLeft(yearSeconds + DaysBeforeMonth(year, month) * 86400, MaxDayPerMonth(year, month) * 86400, 0x1_0000_0000);
  }

  /** The last four additions of `toSecondsSince2000` complete the seconds value modulo 2^32. */
  lemma TimeOfDaySeconds(dt: DateTime, dateSeconds: int, seconds: uint32, dayOffset: uint32)
    requires dt.month <= 13
    requires dateSeconds == (DaysBeforeYear(dt.year as nat) + DaysBeforeMonth(dt.year as nat, dt.month as nat)) * 86400
    requires seconds as int == dateSeconds % 0x1_0000_0000
    requires dayOffset as int == (dt.day as int - 1) % 0x1_0000_0000
    ensures var withDay := Wrap32(seconds as int + Wrap32(dayOffset as int * 86400) as int);
            var withHour := Wrap32(withDay as int + dt.hour as int * 3600);
            var withMinute := Wrap32(withHour as int + dt.minute as int * 60);
            Wrap32(withMinute as int + dt.second as int) as int == ToSeconds(dt) % 0x1_0000_0000
  {
    WrapChain(dateSeconds, seconds, dt.day as int - 1, dayOffset, dt.hour as int * 3600, dt.minute as int * 60, dt.second as int);
  }

  /** The same four additions on plain numbers: each intermediate truncation leaves the sum modulo 2^32 unchanged. */
  lemma WrapChain(a: int, seconds: uint32, d: int, dayOffset: uint32, h: int, m: int, s: int)
    requires seconds as int == a % 0x1_0000_0000 && dayOffset as int == d % 0x1_0000_0000
    ensures var withDay := Wrap32(seconds as int + Wrap32(dayOffset as int * 86400) as int);
            var withHour := Wrap32(withDay as int + h);
            var withMinute := Wrap32(withHour as int + m);
            Wrap32(withMinute as int + s) as int == (a + d * 86400 + h + m + s) % 0x1_0000_0000
  {
    ModMulLeft(d, 86400, 0x1_0000_0000);
    AddReduced(a, d * 86400, dayOffset as int * 86400);
    ModAddLeft(a + d * 86400, h, 0x1_0000_0000);
    ModAddLeft(a + d * 86400 + h, m, 0x1_0000_0000);
    ModAddLeft(a + d * 86400 + h + m, s, 0x1_0000_0000);
  }

  /** Adding two values that agree modulo 2^32, each already reduced or not, gives the same sum modulo 2^32. */
  lemma AddReduced(a: int, b: int, b': int)
    requires b' % 0x1_0000_0000 == b % 0x1_0000_0000
    ensures (a % 0x1_0000_0000 + b' % 0x1_0000_0000) % 0x1_0000_0000 == (a + b) % 0x1_0000_0000
  {
    ModAddLeft(a, b' % 0x1_0000_0000, 0x1_0000_0000);
    ModAddLeft(b', a, 0x1_0000_0000);
    ModAddLeft(b, a, 0x1_0000_0000);
  }

  /**
   * `fromSecondsSince2000`: split off the time of day, then subtract whole
   * years and whole months while they fit into the remaining days.
   */
  method FromSecondsSince2000(secondsSince2000: uint32) returns (dt: DateTime)
    ensures IsValid(dt) && WeekdayMatches(dt) && ToSeconds(dt) == secondsSince2000 as int
  {
    var s := secondsSince2000 as nat;
    var secondsSinceMidnight := s % 86400;
    var hours := secondsSinceMidnight / 3600;
    secondsSinceMidnight := secondsSinceMidnight % 3600;
    var minutes := secondsSinceMidnight / 60;
    var seconds := secondsSinceMidnight % 60;
    var days := s / 86400;
    var dayOfWeek := (days + 6) % 7;
    var year, dayOfYear := CountYears(days);
    var month, dayOfMonth := CountMonths(year, dayOfYear);
    dt := DateTime(year as uint16, month as uint8, (dayOfMonth + 1) as uint8,
                   hours as uint8, minutes as uint8, seconds as uint8, dayOfWeek as uint8);
    FromSecondsFields(s, (year, dayOfYear), (month, dayOfMonth), dt);
    assert dt == FromSeconds(s);
  }

  /** The year loop of `fromSecondsSince2000`: subtract whole years from 2000 on while they fit. */
  method CountYears(days: nat) returns (year: nat, rest: nat)
    ensures (year, rest) == YearFrom(2000, days)
  {
    year, rest := 2000, days;
    var daysForThisSection := DaysForYear(year);
    while rest >= daysForThisSection
      invariant 2000 <= year && daysForThisSection == DaysForYear(year)
      invariant YearFrom(year, rest) == YearFrom(2000, days)
      decreases rest
    {
      year := year + 1;
      rest := rest - daysForThisSection;
      daysForThisSection := DaysForYear(year);
    }
  }

  /** The month loop of `fromSecondsSince2000`: subtract whole months of `year` while they fit. */
  method CountMonths(year: nat, days: nat) returns (month: nat, rest: nat)
    requires days < DaysForYear(year)
    ensures (month, rest) == MonthFrom(year, 1, days)
  {
    month, rest := 1, days;
    var daysForThisSection := MaxDayPerMonth(year, month);
    while rest >= daysForThisSection
      invariant 1 <= month <= 12 && daysForThisSection == MaxDayPerMonth(year, month)
      invariant DaysBeforeMonth(year, month) + rest == days
      decreases 12 - month
    {
      MonthFitsYear(year, month, rest);
      month := month + 1;
      rest := rest - daysForThisSection;
      daysForThisSection := MaxDayPerMonth(year, month);
    }
    MonthFromUnique(year, 1, days, month, rest);
  }

  /** A whole month that still fits into the rest of the year is not December. */
  lemma MonthFitsYear(year: nat, month: nat, rest: nat)
    requires 1 <= month <= 12 && DaysBeforeMonth(year, month) + rest < DaysForYear(year)
    requires MaxDayPerMonth(year, month) <= rest
    ensures month < 12
  {
    MonthsFillYear(year);
  }

  /** `FromSeconds(s)` is the value assembled from the outcomes of its year and month counting. */
  lemma FromSecondsFields(s: nat, ym: (nat, nat), md: (nat, nat), dt: DateTime)
    requires s < 0x1_0000_0000 && ym == YearFrom(2000, s / 86400)
    requires md == MonthFrom(ym.0, 1, ym.1)
    requires dt.year as int == ym.0 && dt.month as int == md.0 && dt.day as int == md.1 + 1
    requires dt.hour as int == s % 86400 / 3600 && dt.minute as int == s % 86400 % 3600 / 60
    requires dt.second as int == s % 86400 % 3600 % 60 && dt.dayOfWeek as int == (s / 86400 + 6) % 7
    ensures FromSeconds(s) == dt
  {
  }

  // ---------------------------------------------------------------------
  // Arithmetic on date/times

  /** `addSeconds`: the sum is formed in 32-bit unsigned arithmetic and decoded again. */
  method AddSeconds(dt: DateTime, seconds: int) returns (r: DateTime)
    requires -0x8000_0000 <= seconds < 0x8000_0000 && dt.month <= 13
    ensures IsValid(r) && WeekdayMatches(r)
    ensures ToSeconds(r) == (ToSeconds(dt) + seconds) % 0x1_0000_0000
    ensures 0 <= ToSeconds(dt) + seconds < 0x1_0000_0000 ==> ToSeconds(r) == ToSeconds(dt) + seconds
  {
    var s := ToSecondsSince2000(dt);
    var total := Wrap32(s as int + seconds);
    ModAddLeft(ToSeconds(dt), seconds, 0x1_0000_0000);
    r := FromSecondsSince2000(total);
  }

  /** `addDays`: the day count times 86400 is formed in 32-bit unsigned arithmetic too. */
  method AddDays(dt: DateTime, days: int) returns (r: DateTime)
    requires -0x8000_0000 <= days < 0x8000_0000 && dt.month <= 13
    ensures IsValid(r) && WeekdayMatches(r)
    ensures ToSeconds(r) == (ToSeconds(dt) + days * 86400) % 0x1_0000_0000
    ensures 0 <= ToSeconds(dt) + days * 86400 < 0x1_0000_0000 ==> ToSeconds(r) == ToSeconds(dt) + days * 86400
  {
    var s := ToSecondsSince2000(dt);
    var offset := Wrap32(Wrap32(days) as int * 86400);
    var total := Wrap32(s as int + offset as int);
    DayOffset(ToSeconds(dt), days);
    r := FromSecondsSince2000(total);
  }

  /** Reducing the day count and its product with 86400 modulo 2^32 does not change the sum modulo 2^32. */
  lemma DayOffset(t: int, days: int)
    ensures (t % 0x1_0000_0000 + (days % 0x1_0000_0000 * 86400) % 0x1_0000_0000) % 0x1_0000_0000 == (t + days * 86400) % 0x1_0000_0000
  {
    ModMulLeft(days, 86400, 0x1_0000_0000);
    AddReduced(t, days * 86400, days % 0x1_0000_0000 * 86400);
  }

  /** The two's-complement reading of a 32-bit pattern, as `static_cast<int32_t>` gives it. */
  function AsInt32(x: uint32): (r: int)
    ensures -0x8000_0000 <= r < 0x8000_0000 && r % 0x1_0000_0000 == x as int
  {
    if x < 0x8000_0000 then x as int else x as int - 0x1_0000_0000
  }

  /**
   * `secondsTo`: the difference of the two seconds values, each read as a
   * signed 32-bit number. Below 2^31 (years up to 2067) it is the exact
   * difference of the seconds values.
   */
  method SecondsTo(dt: DateTime, other: DateTime) returns (r: int)
    requires dt.month <= 13 && other.month <= 13
    ensures r == AsInt32(Wrap32(ToSeconds(other))) - AsInt32(Wrap32(ToSeconds(dt)))
    ensures 0 <= ToSeconds(dt) < 0x8000_0000 && 0 <= ToSeconds(other) < 0x8000_0000
        ==> r == ToSeconds(other) - ToSeconds(dt)
  {
    var mine := ToSecondsSince2000(dt);
    var theirs := ToSecondsSince2000(other);
    SignedReading(ToSeconds(dt), mine);
    SignedReading(ToSeconds(other), theirs);
    r := AsInt32(theirs) - AsInt32(mine);
  }

  /** A value below 2^31 reads back unchanged through the 32-bit pattern and its signed reading. */
  lemma SignedReading(v: int, x: uint32)
    requires x as int == v % 0x1_0000_0000
    ensures x == Wrap32(v)
    ensures 0 <= v < 0x8000_0000 ==> AsInt32(x) == v
  {
  }

  // ---------------------------------------------------------------------
  // The equality operator as written, and the comparison it was meant to be

  /**
   * `operator==` as written: every field test is `!=` and they are joined by
   * `&&`, so it holds exactly when all six fields differ.
   */
  predicate EqualAsWritten(a: DateTime, b: DateTime)
    ensures EqualAsWritten(a, b) ==> !SameMoment(a, b) && (Less(a, b) || Greater(a, b))
  {
    a.second != b.second && a.minute != b.minute && a.hour != b.hour
    && a.day != b.day && a.month != b.month && a.year != b.year
  }

  /** `operator>=` as written: `>` or the equality above. */
  predicate GreaterOrEqualAsWritten(a: DateTime, b: DateTime) {
    Greater(a, b) || EqualAsWritten(a, b)
  }

  /** `operator<=` as written: `<` or the equality above. */
  predicate LessOrEqualAsWritten(a: DateTime, b: DateTime) {
    Less(a, b) || EqualAsWritten(a, b)
  }

  /** No value equals itself under the equality as written, so `<=` and `>=` fail on equal values. */
  lemma EqualAsWrittenIrreflexive(d: DateTime)
    ensures !EqualAsWritten(d, d) && !LessOrEqualAsWritten(d, d) && !GreaterOrEqualAsWritten(d, d)
  {
  }

  /**
   * At a year change every field differs: 2015-12-31 23:59:59 counts as
   * "at or after" 2016-01-01 00:00:00, one second before that moment.
   */
  lemma GreaterOrEqualAsWrittenFiresEarly(now: DateTime, next: DateTime)
    requires now.year == 2015 && now.month == 12 && now.day == 31
    requires now.hour == 23 && now.minute == 59 && now.second == 59
    requires next.year == 2016 && next.month == 1 && next.day == 1
    requires next.hour == 0 && next.minute == 0 && next.second == 0
    ensures IsValid(now) && IsValid(next)
    ensures GreaterOrEqualAsWritten(now, next) && !AtOrAfter(now, next)
    ensures ToSeconds(next) == ToSeconds(now) + 1
  {
    assert DaysPerMonth[12] == 31;
    MonthLengths(next.year as nat, next.month as nat);
    DaysBeforeYearStep(next.year as nat);
    DaysBeforeMonthClosed(now.year as nat, now.month as nat);
    assert DayNumber(next) == DayNumber(now) + 1;
  }

  /** The intended `operator>=`: later, or the same moment. */
  predicate AtOrAfter(a: DateTime, b: DateTime) {
    Greater(a, b) || SameMoment(a, b)
  }

  /** For valid dates the intended `>=` is exactly the order of the seconds values. */
  lemma AtOrAfterMatchesSeconds(a: DateTime, b: DateTime)
    requires IsValid(a) && IsValid(b)
    ensures AtOrAfter(a, b) <==> ToSeconds(a) >= ToSeconds(b)
    ensures SameMoment(a, b) <==> ToSeconds(a) == ToSeconds(b)
  {
    LessMatchesSeconds(a, b);
    StrictOrder(a, b, a);
  }
}
