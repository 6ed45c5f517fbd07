/**
 * The time-value arithmetic of ECMA-262, section 21.4.1 (Day, TimeWithinDay,
 * DaysInYear, DayFromYear, YearFromTime, MonthFromTime, DateFromTime,
 * HourFromTime, MinFromTime, SecFromTime, msFromTime, MakeTime, MakeDay,
 * MakeDate), `Date.UTC` (section 21.4.3.4) and the `getUTC*` getters of Date
 * objects, which the polyfill uses to convert between wall-clock fields and
 * epoch milliseconds. Values are mathematical integers; TimeClip's range of
 * plus or minus 8.64e15 ms is not modelled.
 */
module EcmaTime {
  import opened Js

  const MsPerSecond := 1000
  const MsPerMinute := 60000
  const MsPerHour := 3600000
  const MsPerDay := 86400000

  function DaysInYear(y: int): int
  {
    if y % 4 != 0 then 365
    else if y % 100 != 0 then 366
    else if y % 400 != 0 then 365
    else 366
  }

  function InLeapYear(y: int): int
  {
    if DaysInYear(y) == 366 then 1 else 0
  }

  /** Day number of the first day of year y (day 0 is 1970-01-01). */
  function DayFromYear(y: int): int
  {
    365 * (y - 1970) + (y - 1969) / 4 - (y - 1901) / 100 + (y - 1601) / 400
  }

  /** Consecutive years are DaysInYear apart: the closed form and the leap rule agree. */
  lemma DayFromYearStep(y: int)
    ensures DayFromYear(y + 1) == DayFromYear(y) + DaysInYear(y)
  {
    var d4 := LeapTerm(y, 1969, 4);
    var d100 := LeapTerm(y, 1901, 100);
    var d400 := LeapTerm(y, 1601, 400);
    DivisorsOfCentury(y);
    assert DaysInYear(y) == 365 + d4 - d100 + d400;
  }

  /** A multiple of 400 is a multiple of 100, and a multiple of 100 one of 4. */
  lemma DivisorsOfCentury(y: int)
    ensures y % 400 == 0 ==> y % 100 == 0
    ensures y % 100 == 0 ==> y % 4 == 0
  {
    if y % 400 == 0 {
      DivModUnique(y, 100, 4 * (y / 400), 0);
    }
    if y % 100 == 0 {
      DivModUnique(y, 4, 25 * (y / 100), 0);
    }
  }

  /** How one floor term of DayFromYear changes from year y to year y + 1. */
  lemma LeapTerm(y: int, base: int, n: int) returns (delta: int)
    requires n > 0 && (base - 1) % n == 0
    ensures delta == (y + 1 - base) / n - (y - base) / n
    ensures delta == if y % n == 0 then 1 else 0
  {
    StepOver(y - base, n, base - 2);
    assert y - base + (base - 2) + 1 + 1 == y;
    delta := (y + 1 - base) / n - (y - base) / n;
  }

  /** Floor division by n steps up exactly when the numerator reaches a multiple of n. */
  lemma StepOver(a: int, n: int, shift: int)
    requires n > 0 && (shift + 1) % n == 0
    ensures (a + 1) / n - a / n == if (a + shift + 1 + 1) % n == 0 then 1 else 0
  {
    var q := a / n;
    var r := a % n;
    if r == n - 1 {
      DivModUnique(a + 1, n, q + 1, 0);
    } else {
      DivModUnique(a + 1, n, q, r + 1);
    }
    var k := (shift + 1) / n;
    assert a + shift + 1 + 1 == n * (q + k) + (r + 1);
    if r == n - 1 {
      DivModUnique(a + shift + 2, n, q + k + 1, 0);
    } else {
      DivModUnique(a + shift + 2, n, q + k, r + 1);
    }
  }

  /** Later years start at least 365 days per year later. */
  lemma {:induction false} DayFromYearMono(a: int, b: int)
    requires a <= b
    ensures DayFromYear(a) + 365 * (b - a) <= DayFromYear(b)
    decreases b - a
  {
    if a < b {
      DayFromYearMono(a, b - 1);
      DayFromYearStep(b - 1);
    }
  }

  /** The day within the year on which month m (0-based; 12 is the year's end) begins. */
  function DaysBeforeMonth(m: int, leap: int): int
    requires 0 <= m <= 12
  {
    if m == 0 then 0
    else if m == 1 then 31
    else if m == 2 then 59 + leap
    else if m == 3 then 90 + leap
    else if m == 4 then 120 + leap
    else if m == 5 then 151 + leap
    else if m == 6 then 181 + leap
    else if m == 7 then 212 + leap
    else if m == 8 then 243 + leap
    else if m == 9 then 273 + leap
    else if m == 10 then 304 + leap
    else if m == 11 then 334 + leap
    else 365 + leap
  }

  /** Later months begin later in the year. */
  lemma DaysBeforeMonthMono(a: int, b: int, leap: int)
    requires 0 <= a <= b <= 12 && 0 <= leap <= 1
    ensures DaysBeforeMonth(a, leap) <= DaysBeforeMonth(b, leap)
  {
  }

  /** Search for the year containing day d, starting from year y. */
  function FindYear(d: int, y: int): (r: int)
    ensures DayFromYear(r) <= d < DayFromYear(r) + DaysInYear(r)
    decreases (if d < DayFromYear(y) then 1 else 0),
              (if d < DayFromYear(y) then DayFromYear(y) - d else d - DayFromYear(y))
  {
    DayFromYearStep(y - 1);
    DayFromYearStep(y);
    if d < DayFromYear(y) then FindYear(d, y - 1)
    else if d >= DayFromYear(y) + DaysInYear(y) then FindYear(d, y + 1)
    else y
  }

  /** YearFromTime, on day numbers: the year whose days include day d. */
  function YearFromDay(d: int): (y: int)
    ensures DayFromYear(y) <= d < DayFromYear(y) + DaysInYear(y)
  {
    FindYear(d, 1970 + (d * 400) / 146097)
  }

  /** Only one year contains a given day. */
  lemma YearFromDayUnique(d: int, y: int)
    requires DayFromYear(y) <= d < DayFromYear(y) + DaysInYear(y)
    ensures YearFromDay(d) == y
  {
    var r := YearFromDay(d);
    MonoStrict(r, y);
    MonoStrict(y, r);
  }

  lemma MonoStrict(a: int, b: int)
    ensures a < b ==> DayFromYear(a) + DaysInYear(a) <= DayFromYear(b)
  {
    if a < b {
      DayFromYearStep(a);
      DayFromYearMono(a + 1, b);
    }
  }

  /** MonthFromTime's case analysis on the day within the year. */
  function MonthInYear(w: int, leap: int): (m: int)
    requires 0 <= leap <= 1 && 0 <= w < 365 + leap
    ensures 0 <= m <= 11
    ensures DaysBeforeMonth(m, leap) <= w < DaysBeforeMonth(m + 1, leap)
  {
    if w < 31 then 0
    else if w < 59 + leap then 1
    else if w < 90 + leap then 2
    else if w < 120 + leap then 3
    else if w < 151 + leap then 4
    else if w < 181 + leap then 5
    else if w < 212 + leap then 6
    else if w < 243 + leap then 7
    else if w < 273 + leap then 8
    else if w < 304 + leap then 9
    else if w < 334 + leap then 10
    else 11
  }

  lemma MonthInYearUnique(w: int, leap: int, m: int)
    requires 0 <= leap <= 1 && 0 <= m <= 11
    requires DaysBeforeMonth(m, leap) <= w < DaysBeforeMonth(m + 1, leap)
    ensures MonthInYear(w, leap) == m
  {
  }

  /** The calendar date (year, 0-based month, day of month) of day number d. */
  datatype CivilDay = CivilDay(year: int, month: int, date: int)

  function DayToCivil(d: int): (c: CivilDay)
    ensures 0 <= c.month <= 11
    ensures 1 <= c.date <= DaysBeforeMonth(c.month + 1, InLeapYear(c.year)) - DaysBeforeMonth(c.month, InLeapYear(c.year))
  {
    var y := YearFromDay(d);
    var leap := InLeapYear(y);
    var m := MonthInYear(d - DayFromYear(y), leap);
    CivilDay(y, m, d - DayFromYear(y) - DaysBeforeMonth(m, leap) + 1)
  }

  /** MakeDay inverts DayToCivil: the date found for a day number has that day number. */
  lemma MakeDayOfCivil(d: int)
    ensures var c := DayToCivil(d); MakeDay(c.year, c.month, c.date) == d
  {
    var c := DayToCivil(d);
    assert c.month / 12 == 0 && c.month % 12 == c.month;
  }

  /** MakeDay: the day number of the given date; months outside 0..11 roll into the year. */
  function MakeDay(year: int, month: int, date: int): int
  {
    var ym := year + month / 12;
    var mn := month % 12;
    DayFromYear(ym) + DaysBeforeMonth(mn, InLeapYear(ym)) + date - 1
  }

  /** The date of the w-th day (from 0) of a year: that year, the month containing w, and the day within it. */
  lemma CivilOfOrdinal(year: int, w: int)
    requires 0 <= w < DaysInYear(year)
    ensures var leap := InLeapYear(year);
      0 <= w < 365 + leap
      && DayToCivil(DayFromYear(year) + w) == CivilDay(year, MonthInYear(w, leap), w - DaysBeforeMonth(MonthInYear(w, leap), leap) + 1)
  {
    YearFromDayUnique(DayFromYear(year) + w, year);
  }

  /** The day w (from 0) of a year that falls inside the 1-based month is that month's day w - DaysBeforeMonth + 1. */
  lemma CivilInYear(year: int, month: int, date: int, w: int)
    requires 1 <= month <= 12
    requires DaysBeforeMonth(month - 1, InLeapYear(year)) <= w < DaysBeforeMonth(month, InLeapYear(year))
    requires w == DaysBeforeMonth(month - 1, InLeapYear(year)) + date - 1 && w < DaysInYear(year)
    ensures DayToCivil(DayFromYear(year) + w) == CivilDay(year, month - 1, date)
  {
    CivilOfOrdinal(year, w);
    MonthInYearUnique(w, InLeapYear(year), month - 1);
  }

  /** DayToCivil inverts MakeDay on dates inside their month. */
  lemma CivilOfMakeDay(year: int, month: int, date: int)
    requires 0 <= month <= 11
    requires 1 <= date <= DaysBeforeMonth(month + 1, InLeapYear(year)) - DaysBeforeMonth(month, InLeapYear(year))
    ensures DayToCivil(MakeDay(year, month, date)) == CivilDay(year, month, date)
  {
    var leap := InLeapYear(year);
    var d := MakeDay(year, month, date);
    MakeDayInYear(year, month, date);
    assert DaysBeforeMonth(month + 1, leap) <= 365 + leap by {
      assert DaysInYear(year) == 365 + leap;
    }
    YearFromDayUnique(d, year);
    var w := d - DayFromYear(year);
    MonthInYearUnique(w, leap, month);
    assert DayToCivil(d) == CivilDay(year, MonthInYear(w, leap), w - DaysBeforeMonth(month, leap) + 1);
  }

  /** Within the year, MakeDay counts days from the year's first day. */
  lemma MakeDayInYear(year: int, month: int, date: int)
    requires 0 <= month <= 11
    ensures MakeDay(year, month, date) == DayFromYear(year) + DaysBeforeMonth(month, InLeapYear(year)) + date - 1
  {
    assert month / 12 == 0 && month % 12 == month;
  }

  function MakeTime(hour: int, min: int, sec: int, ms: int): int
  {
    hour * MsPerHour + min * MsPerMinute + sec * MsPerSecond + ms
  }

  function MakeDate(day: int, time: int): int
  {
    day * MsPerDay + time
  }

  /**
   * `Date.UTC(year, month, date, hours, minutes, seconds, ms)`: a year in 0..99
   * is read as 1900 + year, every other field rolls over arithmetically.
   */
  function DateUtc(year: int, month: int, date: int, hours: int, minutes: int, seconds: int, ms: int): int
  {
    var yr := if 0 <= year <= 99 then 1900 + year else year;
    MakeDate(MakeDay(yr, month, date), MakeTime(hours, minutes, seconds, ms))
  }

  /** What the `getUTC*` getters of `new Date(t)` report; `month` is 0-based as getUTCMonth's. */
  datatype UtcFields = UtcFields(year: int, month: int, date: int, hours: int, minutes: int, seconds: int, ms: int)

  predicate ValidUtc(f: UtcFields)
  {
    && 0 <= f.month <= 11
    && 1 <= f.date <= DaysBeforeMonth(f.month + 1, InLeapYear(f.year)) - DaysBeforeMonth(f.month, InLeapYear(f.year))
    && 0 <= f.hours < 24 && 0 <= f.minutes < 60 && 0 <= f.seconds < 60 && 0 <= f.ms < 1000
  }

  function Utc(t: int): (f: UtcFields)
    ensures ValidUtc(f)
  {
    var c := DayToCivil(t / MsPerDay);
    UtcFields(c.year, c.month, c.date, (t / MsPerHour) % 24, (t / MsPerMinute) % 60, (t / MsPerSecond) % 60, t % MsPerSecond)
  }

  /** No month has more than 31 days. */
  lemma DateAtMost31(f: UtcFields)
    requires ValidUtc(f)
    ensures f.date <= 31
  {
  }

  /** WeekDay: 0 for Sunday; day 0 was a Thursday. */
  function WeekDay(d: int): (w: int)
    ensures 0 <= w < 7
  {
    (d + 4) % 7
  }

  lemma NestedDivisions(t: int)
    ensures t / MsPerMinute == (t / MsPerSecond) / 60
    ensures t / MsPerHour == (t / MsPerMinute) / 60
    ensures t / MsPerDay == (t / MsPerHour) / 24
  {
    var s := t / 1000;
    DivModUnique(t, 60000, s / 60, 1000 * (s % 60) + t % 1000);
    var m := t / 60000;
    DivModUnique(t, 3600000, m / 60, 60000 * (m % 60) + t % 60000);
    var h := t / 3600000;
    DivModUnique(t, 86400000, h / 24, 3600000 * (h % 24) + t % 3600000);
  }

  /** A time value is its day and its four clock fields recombined. */
  lemma TimeDecompose(t: int)
    ensures t == MakeDate(t / MsPerDay, MakeTime((t / MsPerHour) % 24, (t / MsPerMinute) % 60, (t / MsPerSecond) % 60, t % MsPerSecond))
  {
    NestedDivisions(t);
  }

  /** Recombining in-range fields and decomposing again gives back the fields. */
  lemma TimeCompose(day: int, h: int, mi: int, s: int, ms: int)
    requires 0 <= h < 24 && 0 <= mi < 60 && 0 <= s < 60 && 0 <= ms < 1000
    ensures var t := MakeDate(day, MakeTime(h, mi, s, ms));
      && t / MsPerDay == day
      && (t / MsPerHour) % 24 == h
      && (t / MsPerMinute) % 60 == mi
      && (t / MsPerSecond) % 60 == s
      && t % MsPerSecond == ms
  {
    var t := MakeDate(day, MakeTime(h, mi, s, ms));
    NestedDivisions(t);
    DivModUnique(t, 1000, 86400 * day + 3600 * h + 60 * mi + s, ms);
    var sec := t / 1000;
    DivModUnique(sec, 60, 1440 * day + 60 * h + mi, s);
    var min := sec / 60;
    DivModUnique(min, 60, 24 * day + h, mi);
    var hr := min / 60;
    DivModUnique(hr, 24, day, h);
  }

  /** `Date.UTC` of the fields `getUTC*` reports is the time value again, outside years 0..99. */
  lemma DateUtcOfUtc(t: int)
    requires !(0 <= Utc(t).year <= 99)
    ensures var f := Utc(t); DateUtc(f.year, f.month, f.date, f.hours, f.minutes, f.seconds, f.ms) == t
  {
    TimeDecompose(t);
    MakeDayOfCivil(t / MsPerDay);
  }

  /** `getUTC*` of `Date.UTC` of valid fields gives the fields back, outside years 0..99. */
  lemma UtcOfDateUtc(f: UtcFields)
    requires ValidUtc(f) && !(0 <= f.year <= 99)
    ensures Utc(DateUtc(f.year, f.month, f.date, f.hours, f.minutes, f.seconds, f.ms)) == f
  {
    var day := MakeDay(f.year, f.month, f.date);
    TimeCompose(day, f.hours, f.minutes, f.seconds, f.ms);
    CivilOfMakeDay(f.year, f.month, f.date);
  }
}
