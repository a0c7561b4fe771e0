// The JavaScript Date arithmetic the screens rely on, on a local clock with
// no daylight-saving shifts: an instant is a whole number of milliseconds
// from 1970-01-01T00:00 local time, days are counted from that date, and
// the wall-clock fields follow the proleptic Gregorian calendar exactly as
// ECMAScript's Day, MakeDay, YearFromTime, MonthFromTime and DateFromTime
// do.  A Date that holds NaN is the InvalidDate value of a parsed text.

module Calendar {

  const MinuteMs: int := 60000
  const HourMs: int := 3600000
  const DayMs: int := 86400000
  const WeekMs: int := 7 * DayMs

  /** The result of `new Date(text)` for a stored text: an instant, or an Invalid Date. */
  datatype DateValue = At(ms: int) | InvalidDate

  predicate IsLeapYear(y: int) {
    (y % 4 == 0 && y % 100 != 0) || y % 400 == 0
  }

  function DaysInYear(y: int): int {
    if IsLeapYear(y) then 366 else 365
  }

  /** Number of days in month m (0 = January) of year y. */
  function DaysInMonth(y: int, m: int): (n: int)
    requires 0 <= m < 12
    ensures 28 <= n <= 31
  {
    if m == 1 then (if IsLeapYear(y) then 29 else 28)
    else if m == 3 || m == 5 || m == 8 || m == 10 then 30
    else 31
  }

  /** Days of year y that come before the first of month m. */
  function DaysBeforeMonth(y: int, m: int): (n: int)
    requires 0 <= m <= 12
  {
    (if m == 0 then 0 else if m == 1 then 31 else if m == 2 then 59 else if m == 3 then 90
     else if m == 4 then 120 else if m == 5 then 151 else if m == 6 then 181
     else if m == 7 then 212 else if m == 8 then 243 else if m == 9 then 273
     else if m == 10 then 304 else if m == 11 then 334 else 365)
    + (if m >= 2 && IsLeapYear(y) then 1 else 0)
  }

  lemma DaysBeforeMonthStep(y: int, m: int)
    requires 0 <= m < 12
    ensures DaysBeforeMonth(y, m + 1) == DaysBeforeMonth(y, m) + DaysInMonth(y, m)
    ensures DaysBeforeMonth(y, 12) == DaysInYear(y)
  {
  }

  /** ECMAScript DayFromYear: the day number of January 1 of year y. */
  function DayFromYear(y: int): int {
    365 * (y - 1970) + (y - 1969) / 4 - (y - 1901) / 100 + (y - 1601) / 400
  }

  // Adding one to a dividend adds one to the quotient exactly when the new
  // dividend is a multiple of the divisor.

  lemma Div4Step(a: int)
    ensures (a + 1) / 4 == a / 4 + (if (a + 1) % 4 == 0 then 1 else 0)
  {
  }

  lemma Div100Step(a: int)
    ensures (a + 1) / 100 == a / 100 + (if (a + 1) % 100 == 0 then 1 else 0)
  {
  }

  lemma Div400Step(a: int)
    ensures (a + 1) / 400 == a / 400 + (if (a + 1) % 400 == 0 then 1 else 0)
  {
  }

  lemma MultipleOf400(y: int)
    requires y % 400 == 0
    ensures y % 100 == 0
  {
    var k := y / 400;
    assert y == 100 * (4 * k);
  }

  lemma MultipleOf100(y: int)
    requires y % 100 == 0
    ensures y % 4 == 0
  {
    var k := y / 100;
    assert y == 4 * (25 * k);
  }

  /** The leap-day count of a year, as the three divisibility terms of DayFromYear add it up. */
  lemma DaysInYearTerms(y: int)
    ensures DaysInYear(y) == 365 + (if y % 4 == 0 then 1 else 0) - (if y % 100 == 0 then 1 else 0)
                                  + (if y % 400 == 0 then 1 else 0)
  {
    if y % 400 == 0 {
      MultipleOf400(y);
      MultipleOf100(y);
    } else if y % 100 == 0 {
      MultipleOf100(y);
    }
  }

  lemma DayFromYearStep(y: int)
    ensures DayFromYear(y + 1) == DayFromYear(y) + DaysInYear(y)
  {
    Div4Step(y - 1969);
    assert (y - 1968) % 4 == y % 4;
    Div100Step(y - 1901);
    assert (y - 1900) % 100 == y % 100;
    Div400Step(y - 1601);
    assert (y - 1600) % 400 == y % 400;
    DaysInYearTerms(y);
  }

  lemma {:induction false} DayFromYearMonotone(a: int, b: int)
    requires a < b
    ensures DayFromYear(a + 1) <= DayFromYear(b)
    decreases b - a
  {
    DayFromYearStep(b - 1);
    if a + 1 < b {
      DayFromYearMonotone(a, b - 1);
    }
  }

  // The calendar functions below carry no postconditions of their own: their
  // properties are separate lemmas, so that unfolding a date computation
  // inside a larger proof stays cheap.

  /** Each year starts after the one before it. */
  lemma DayFromYearIncreasing()
    ensures forall y :: DayFromYear(y) < DayFromYear(y + 1)
  {
    forall y ensures DayFromYear(y) < DayFromYear(y + 1) {
      DayFromYearStep(y);
    }
  }

  // The year searches are written over any increasing year-start function,
  // so that their proofs never unfold the arithmetic of DayFromYear.

  /** The first year from y upwards whose days reach past day z. */
  function YearUpBy(start: int -> int, y: int, z: int): int
    requires forall x :: start(x) < start(x + 1)
    decreases z - start(y)
  {
    if z < start(y + 1) then y else YearUpBy(start, y + 1, z)
  }

  /** The first year from y downwards whose days start at or before day z. */
  function YearDownBy(start: int -> int, y: int, z: int): int
    requires forall x :: start(x) < start(x + 1)
    decreases start(y + 1) - z
  {
    if start(y) <= z then y else YearDownBy(start, y - 1, z)
  }

  lemma {:induction false} YearUpBounds(start: int -> int, y: int, z: int)
    requires forall x :: start(x) < start(x + 1)
    requires start(y) <= z
    ensures start(YearUpBy(start, y, z)) <= z < start(YearUpBy(start, y, z) + 1)
    decreases z - start(y)
  {
    if z >= start(y + 1) {
      YearUpBounds(start, y + 1, z);
    }
  }

  lemma {:induction false} YearDownBounds(start: int -> int, y: int, z: int)
    requires forall x :: start(x) < start(x + 1)
    requires z < start(y + 1)
    ensures start(YearDownBy(start, y, z)) <= z < start(YearDownBy(start, y, z) + 1)
    decreases start(y + 1) - z
  {
    if start(y) > z {
      YearDownBounds(start, y - 1, z);
    }
  }

  /** ECMAScript YearFromTime, on day numbers: the year whose days include day z. */
  function YearOfDay(z: int): int
  {
    DayFromYearIncreasing();
    if z >= 0 then YearUpBy(DayFromYear, 1970, z) else YearDownBy(DayFromYear, 1969, z)
  }

  lemma YearOfDayBounds(z: int)
    ensures DayFromYear(YearOfDay(z)) <= z < DayFromYear(YearOfDay(z) + 1)
  {
    DayFromYearIncreasing();
    if z >= 0 {
      YearUpBounds(DayFromYear, 1970, z);
    } else {
      YearDownBounds(DayFromYear, 1969, z);
    }
  }

  /** A day belongs to exactly one year. */
  lemma YearOfDayUnique(z: int, y: int)
    requires DayFromYear(y) <= z < DayFromYear(y + 1)
    ensures YearOfDay(z) == y
  {
    YearOfDayBounds(z);
    var r := YearOfDay(z);
    if r < y {
      DayFromYearMonotone(r, y);
    } else if y < r {
      DayFromYearMonotone(y, r);
    }
  }

  /** The first month from m on (0 = January, at most December) whose end lies past day-of-year doy. */
  function MonthFrom(y: int, doy: int, m: int): int
    requires 0 <= m < 12
    decreases 12 - m
  {
    if m == 11 || doy < DaysBeforeMonth(y, m + 1) then m else MonthFrom(y, doy, m + 1)
  }

  lemma {:induction false} MonthFromBounds(y: int, doy: int, m: int)
    requires 0 <= m < 12
    requires DaysBeforeMonth(y, m) <= doy < DaysInYear(y)
    ensures m <= MonthFrom(y, doy, m) < 12
    ensures DaysBeforeMonth(y, MonthFrom(y, doy, m)) <= doy < DaysBeforeMonth(y, MonthFrom(y, doy, m) + 1)
    decreases 12 - m
  {
    if m < 11 && doy >= DaysBeforeMonth(y, m + 1) {
      MonthFromBounds(y, doy, m + 1);
    }
  }

  lemma {:induction false} MonthFromUnique(y: int, doy: int, m: int, target: int)
    requires 0 <= m <= target < 12
    requires DaysBeforeMonth(y, target) <= doy < DaysBeforeMonth(y, target + 1)
    ensures MonthFrom(y, doy, m) == target
    decreases 12 - m
  {
    if m < target {
      assert DaysBeforeMonth(y, m + 1) <= DaysBeforeMonth(y, target);
      MonthFromUnique(y, doy, m + 1, target);
    }
  }

  /** ECMAScript MonthFromTime: the month (0 = January) holding day-of-year doy. */
  function MonthOfYearDay(y: int, doy: int): int
  {
    MonthFrom(y, doy, 0)
  }

  /** A calendar date: month 0..11 as getMonth() gives it, date 1..31 as getDate(). */
  datatype CivilDate = CivilDate(year: int, month: int, date: int)

  predicate ValidCivil(c: CivilDate) {
    0 <= c.month < 12 && 1 <= c.date <= DaysInMonth(c.year, c.month)
  }

  /**
   * ECMAScript MakeDay: the day number of (year, month, date) with JavaScript's
   * overflow rules (month 12 is next January, date 0 is the previous month's last day).
   */
  function MakeDay(year: int, month: int, date: int): int {
    var ym := year + month / 12;
    var mn := month % 12;
    DayFromYear(ym) + DaysBeforeMonth(ym, mn) + date - 1
  }

  lemma MakeDayInYear(y: int, m: int, d: int)
    requires 0 <= m < 12
    ensures MakeDay(y, m, d) == DayFromYear(y) + DaysBeforeMonth(y, m) + d - 1
  {
    assert m / 12 == 0 && m % 12 == m;
  }

  /** The calendar date of day number z. */
  function CivilOfDay(z: int): CivilDate
  {
    var y := YearOfDay(z);
    var doy := z - DayFromYear(y);
    var m := MonthOfYearDay(y, doy);
    CivilDate(y, m, doy - DaysBeforeMonth(y, m) + 1)
  }

  /** The month and date of a day of year y form a valid date of year y that starts doy days into it. */
  lemma MonthDateValid(y: int, doy: int)
    requires 0 <= doy < DaysInYear(y)
    ensures var m := MonthOfYearDay(y, doy);
      ValidCivil(CivilDate(y, m, doy - DaysBeforeMonth(y, m) + 1))
  {
    DaysBeforeMonthStep(y, 11);
    MonthFromBounds(y, doy, 0);
    DaysBeforeMonthStep(y, MonthOfYearDay(y, doy));
  }

  /** A valid date lies within its year, and its day of year leads back to its month. */
  lemma DateMonthOfYearDay(c: CivilDate)
    requires ValidCivil(c)
    ensures 0 <= DaysBeforeMonth(c.year, c.month) + c.date - 1 < DaysInYear(c.year)
    ensures MonthOfYearDay(c.year, DaysBeforeMonth(c.year, c.month) + c.date - 1) == c.month
  {
    DaysBeforeMonthStep(c.year, c.month);
    assert DaysBeforeMonth(c.year, c.month + 1) <= DaysInYear(c.year);
    MonthFromUnique(c.year, DaysBeforeMonth(c.year, c.month) + c.date - 1, 0, c.month);
  }

  /** The date of any day is a valid calendar date, and MakeDay of it is that day. */
  lemma CivilOfDayValid(z: int)
    ensures ValidCivil(CivilOfDay(z))
    ensures MakeDay(CivilOfDay(z).year, CivilOfDay(z).month, CivilOfDay(z).date) == z
  {
    var y := YearOfDay(z);
    var doy := z - DayFromYear(y);
    assert 0 <= doy < DaysInYear(y) by {
      YearOfDayBounds(z);
      DayFromYearStep(y);
    }
    MonthDateValid(y, doy);
    var m := MonthOfYearDay(y, doy);
    var d := doy - DaysBeforeMonth(y, m) + 1;
    assert CivilOfDay(z) == CivilDate(y, m, d);
    MakeDayInYear(y, m, d);
  }

  /** Reading back a valid date built with MakeDay gives its fields. */
  /** The month of a calendar date is one of the twelve. */
  lemma CivilMonthRange(z: int)
    ensures 0 <= CivilOfDay(z).month < 12
  {
    CivilOfDayValid(z);
  }

  lemma CivilOfMakeDay(c: CivilDate)
    requires ValidCivil(c)
    ensures CivilOfDay(MakeDay(c.year, c.month, c.date)) == c
  {
    var doy := DaysBeforeMonth(c.year, c.month) + c.date - 1;
    var z := DayFromYear(c.year) + doy;
    assert MakeDay(c.year, c.month, c.date) == z by {
      MakeDayInYear(c.year, c.month, c.date);
    }
    DateMonthOfYearDay(c);
    var y := YearOfDay(z);
    assert y == c.year by {
      DayFromYearStep(c.year);
      YearOfDayUnique(z, c.year);
    }
    assert z - DayFromYear(y) == doy;
    assert CivilOfDay(z) == CivilDate(y, c.month, doy - DaysBeforeMonth(y, c.month) + 1);
  }

  /** Different days have different calendar dates. */
  lemma CivilOfDayInjective(a: int, b: int)
    requires CivilOfDay(a) == CivilOfDay(b)
    ensures a == b
  {
    CivilOfDayValid(a);
    CivilOfDayValid(b);
  }

  /** Day 0 of the next month is the last day of this one. */
  lemma LastDayOfMonth(y: int, m: int)
    requires 0 <= m < 12
    ensures MakeDay(y, m + 1, 0) == MakeDay(y, m, DaysInMonth(y, m))
  {
    MakeDayInYear(y, m, DaysInMonth(y, m));
    DaysBeforeMonthStep(y, m);
    if m < 11 {
      MakeDayInYear(y, m + 1, 0);
    } else {
      assert MakeDay(y, 12, 0) == DayFromYear(y + 1) - 1;
      DayFromYearStep(y);
    }
  }

  /** The days from the 1st to the last of a month are exactly the days of that month. */
  lemma MonthDays(y: int, m: int, z: int)
    requires 0 <= m < 12
    ensures MakeDay(y, m, 1) <= z <= MakeDay(y, m, DaysInMonth(y, m))
        <==> CivilOfDay(z).year == y && CivilOfDay(z).month == m
  {
    if MakeDay(y, m, 1) <= z <= MakeDay(y, m, DaysInMonth(y, m)) {
      MonthDaysInto(y, m, z);
    }
    if CivilOfDay(z).year == y && CivilOfDay(z).month == m {
      CivilOfDayValid(z);
      MonthDaysFrom(y, m, z, CivilOfDay(z));
    }
  }

  lemma MonthDaysInto(y: int, m: int, z: int)
    requires 0 <= m < 12
    requires MakeDay(y, m, 1) <= z <= MakeDay(y, m, DaysInMonth(y, m))
    ensures CivilOfDay(z).year == y && CivilOfDay(z).month == m
  {
    MakeDayInYear(y, m, 1);
    MakeDayInYear(y, m, DaysInMonth(y, m));
    var d := z - MakeDay(y, m, 1) + 1;
    MakeDayInYear(y, m, d);
    assert z == MakeDay(y, m, d);
    CivilOfMakeDay(CivilDate(y, m, d));
  }

  lemma MonthDaysFrom(y: int, m: int, z: int, c: CivilDate)
    requires 0 <= m < 12
    requires c.year == y && c.month == m && ValidCivil(c) && MakeDay(c.year, c.month, c.date) == z
    ensures MakeDay(y, m, 1) <= z <= MakeDay(y, m, DaysInMonth(y, m))
  {
    MakeDayInYear(y, m, 1);
    MakeDayInYear(y, m, DaysInMonth(y, m));
    MakeDayInYear(y, m, c.date);
  }

  // ---------------------------------------------------------------------
  // Instants.

  /** ECMAScript Day(t): the day number of instant t. */
  function DayOf(t: int): int { t / DayMs }

  /** Minutes since the epoch, rounded down. */
  function MinuteNumber(t: int): int { t / MinuteMs }

  /** MakeDate(MakeDay(y, m, d), MakeTime(h, min, s, ms)) as `new Date(y, m, d, h, min, s, ms)` builds it. */
  function LocalTime(y: int, m: int, d: int, h: int, min: int, s: int, ms: int): int {
    MakeDay(y, m, d) * DayMs + h * HourMs + min * MinuteMs + s * 1000 + ms
  }

  /** The wall-clock fields getFullYear, getMonth, getDate, getHours and getMinutes read. */
  datatype WallClock = WallClock(year: int, month: int, date: int, hours: int, minutes: int)

  function WallClockOf(t: int): WallClock
  {
    var c := CivilOfDay(DayOf(t));
    WallClock(c.year, c.month, c.date, (t / HourMs) % 24, (t / MinuteMs) % 60)
  }

  /** The wall clock of any instant is a valid date with hours in 0..23 and minutes in 0..59. */
  lemma WallClockValid(t: int)
    ensures ValidCivil(CivilDate(WallClockOf(t).year, WallClockOf(t).month, WallClockOf(t).date))
    ensures 0 <= WallClockOf(t).hours < 24 && 0 <= WallClockOf(t).minutes < 60
  {
    CivilOfDayValid(DayOf(t));
  }

  lemma MinuteSplit(t: int)
    ensures MinuteNumber(t) == DayOf(t) * 1440 + ((t / HourMs) % 24) * 60 + (t / MinuteMs) % 60
  {
    var n := t / MinuteMs;
    assert t / HourMs == n / 60;
    assert t / DayMs == n / 1440;
    assert (n / 60) % 24 == (n % 1440) / 60;
  }

  lemma MinuteFields(t: int)
    ensures DayOf(t) == MinuteNumber(t) / 1440
    ensures (t / HourMs) % 24 == (MinuteNumber(t) / 60) % 24
  {
  }

  /** Two instants show the same wall clock exactly when they fall in the same minute. */
  lemma WallClockSameMinute(a: int, b: int)
    ensures WallClockOf(a) == WallClockOf(b) <==> MinuteNumber(a) == MinuteNumber(b)
  {
    if WallClockOf(a) == WallClockOf(b) {
      MinuteSplit(a);
      MinuteSplit(b);
      CivilOfDayInjective(DayOf(a), DayOf(b));
    } else {
      MinuteFields(a);
      MinuteFields(b);
    }
  }

  /** getDay(): 0 is Sunday, 1 Monday, ... (1970-01-01 was a Thursday). */
  function WeekDayOfDay(z: int): (d: int)
    ensures 0 <= d < 7
  {
    (z + 4) % 7
  }

  /** Moving a date by whole days keeps the time of day. */
  lemma AddDaysKeepsTime(t: int, days: int)
    ensures DayOf(t + days * DayMs) == DayOf(t) + days
    ensures (t + days * DayMs) % DayMs == t % DayMs
  {
  }
}
