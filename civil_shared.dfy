/**
 * The field arithmetic of the older `lib/civil` generation. Its `plus` adds
 * a duration to a date-time record and carries every field with while-loops,
 * folding milliseconds and microseconds into a single nanosecond field. Two
 * of its loops differ from `calculate` of the later generation: the hour
 * loop gives back 24 hours only once the hour reaches 60, and a day below 1
 * becomes the previous month's length MINUS the day. Its calendar helpers
 * (isLeapYear, toDayOfWeek, toDayOfYear, fromDayOfYear, toWeekOfYear,
 * fromWeekOfYear) are the same functions as Shared's, which model them.
 */
module CivilShared {

  import opened Js
  import Shared
  import EcmaTime

  /** The DATA record of the civil classes; the day is NaN after an underflow out of January. */
  datatype Civil = Civil(year: int, month: int, day: Num, hour: int, minute: int, second: int, nanosecond: int)

  /** The nine components `plus` reads from a duration, missing ones defaulted to 0; the days may be NaN. */
  datatype Delta = Delta(years: int, months: int, days: Num, hours: int, minutes: int, seconds: int,
                         milliseconds: int, microseconds: int, nanoseconds: int)

  /** The record `{}` that the constructors pass: every field defaulted to 0. */
  const Empty := Civil(0, 0, Fin(0), 0, 0, 0, 0)

  /** The duration without any component. */
  const Zero := Delta(0, 0, Fin(0), 0, 0, 0, 0, 0, 0)

  /** Adding the empty duration field by field changes nothing. */
  lemma SumZero(c: Civil)
    ensures Sum(c, Zero) == c
  {
    assert Zero == Delta(0, 0, Fin(0), 0, 0, 0, 0, 0, 0);
    assert Sum(c, Delta(0, 0, Fin(0), 0, 0, 0, 0, 0, 0)) == c;
  }

  // ---------------------------------------------------------------------------
  // The stages of plus

  /** The fields with the duration added, milliseconds and microseconds folded into the nanoseconds (lines 15..21). */
  function Sum(f: Civil, d: Delta): Civil
  {
    Civil(f.year + d.years, f.month + d.months, Add(f.day, d.days), f.hour + d.hours, f.minute + d.minutes,
          f.second + d.seconds, f.nanosecond + d.milliseconds * 1000000 + d.microseconds * 1000 + d.nanoseconds)
  }

  /**
   * The hour loops: a negative hour wraps into 0..23, and an hour of 60 or
   * more gives back 24 hours at a time until it is below 60, so an hour in
   * 24..59 stays as it is. The second component is the carry into the day.
   */
  function HourCarry(hour: int): (r: (int, int))
    ensures 0 <= r.0 < 60 && 24 * r.1 + r.0 == hour
    ensures 0 <= hour < 60 ==> r == (hour, 0)
    ensures hour < 0 ==> r.0 < 24
  {
    if hour < 0 then (hour % 24, hour / 24)
    else if hour >= 60 then ((hour - 36) % 24 + 36, (hour - 36) / 24)
    else (hour, 0)
  }

  /** The nanosecond, second, minute and hour loops (lines 23..33). */
  function CarryClock(c: Civil): Civil
  {
    var s := c.second + c.nanosecond / Shared.NsPerSecond;
    var mi := c.minute + s / 60;
    var h := HourCarry(c.hour + mi / 60);
    Civil(c.year, c.month, Add(c.day, Fin(h.1)), h.0, mi % 60, s % 60, c.nanosecond % Shared.NsPerSecond)
  }

  /** The hour that the hour loops start from: the summed hour with the minutes' carry. */
  function CarriedHour(c: Civil): int
  {
    c.hour + (c.minute + (c.second + c.nanosecond / Shared.NsPerSecond) / 60) / 60
  }

  /**
   * One pass of the loop for a day below 1 (lines 38..42): the month steps
   * back and the day becomes that month's length minus the day; stepping
   * back from January reads `daysInMonth(year, 0)`, which is `undefined`,
   * so the day is NaN in December of the previous year.
   */
  function BackStep(year: int, month: int, day: int): (r: (int, int, Num))
    requires 1 <= month <= 12
    ensures 1 <= r.1 <= 12 && (r.2.Fin? ==> r.2.v >= 28 - day)
  {
    if month == 1 then (year - 1, 12, NaN) else (year, month - 1, Fin(Shared.Dim(year, month - 1) - day))
  }

  /**
   * The day loops (lines 38..47) for a month already in 1..12: a day below
   * 1 takes one BackStep, and a finite day of at least 1 is then carried
   * forward month by month, which is Shared's NormalizeDay of it. A NaN day
   * makes every comparison false and stays.
   */
  function CivilDays(year: int, month: int, day: Num): (int, int, Num)
    requires 1 <= month <= 12
  {
    if day.Fin? && day.v < 1 then
      var b := BackStep(year, month, day.v);
      if b.2.Fin? then Shared.NormalizeDay(b.0, b.1, b.2.v) else b
    else if day.Fin? then Shared.NormalizeDay(year, month, day.v)
    else (year, month, NaN)
  }

  /** The month loops, the day loops and the month loops again (lines 35..50). */
  function BalanceCivil(c: Civil): Civil
  {
    var date := CivilDays(Shared.WrappedYear(c.year, c.month), Shared.WrappedMonth(c.month), c.day);
    Civil(date.0, date.1, date.2, c.hour, c.minute, c.second, c.nanosecond)
  }

  /** What `plus(fields, duration)` returns. */
  function PlusSpec(f: Civil, d: Delta): Civil
  {
    BalanceCivil(CarryClock(Sum(f, d)))
  }

  // ---------------------------------------------------------------------------
  // The loops

  /** The two hour loops, which also move the day. */
  method CarryHours(hour0: int, day0: Num) returns (hour: int, day: Num)
    ensures hour == HourCarry(hour0).0 && day == Add(day0, Fin(HourCarry(hour0).1))
  {
    hour, day := hour0, day0;
    ghost var k := 0;
    while hour < 0
      invariant hour + 24 * k == hour0 && day == Add(day0, Fin(k))
      invariant hour0 < 0 ==> hour < 24
      invariant hour0 >= 0 ==> k == 0
      decreases -hour
    {
      hour := hour + 24;
      day := Add(day, Fin(-1));
      k := k - 1;
    }
    while hour >= 60
      invariant hour + 24 * k == hour0 && day == Add(day0, Fin(k)) && hour >= 0
      invariant 0 <= hour0 < 60 ==> hour == hour0 && k == 0
      invariant hour0 < 0 ==> hour < 24
      invariant hour0 >= 60 ==> hour >= 36
      decreases hour
    {
      hour := hour - 24;
      day := Add(day, Fin(1));
      k := k + 1;
    }
    if hour0 < 0 {
      DivModUnique(hour0, 24, k, hour);
    } else if hour0 >= 60 {
      DivModUnique(hour0 - 36, 24, k, hour - 36);
    }
  }

  /** The nanosecond, second, minute and hour loops. */
  method CarryClockFields(c: Civil) returns (r: Civil)
    ensures r == CarryClock(c)
  {
    var day, hour, minute, second, nanosecond := c.day, c.hour, c.minute, c.second, c.nanosecond;
    nanosecond, second := Shared.Carry(nanosecond, second, Shared.NsPerSecond);
    second, minute := Shared.Carry(second, minute, 60);
    minute, hour := Shared.Carry(minute, hour, 60);
    hour, day := CarryHours(hour, day);
    r := Civil(c.year, c.month, day, hour, minute, second, nanosecond);
  }

  /** The loop for a day below 1: it makes at most one pass, after which the day is at least 28 or NaN. */
  method DaysBack(year0: int, month0: int, day0: Num) returns (year: int, month: int, day: Num)
    requires 1 <= month0 <= 12
    ensures 1 <= month <= 12
    ensures day0.Fin? && day0.v < 1 ==> (year, month, day) == BackStep(year0, month0, day0.v)
    ensures !(day0.Fin? && day0.v < 1) ==> (year, month, day) == (year0, month0, day0)
  {
    year, month, day := year0, month0, day0;
    ghost var passes := 0;
    while Less(day, Fin(1))
      invariant 1 <= month <= 12 && 0 <= passes <= 1
      invariant passes == 0 ==> (year, month, day) == (year0, month0, day0)
      invariant passes == 1 ==> day0.Fin? && day0.v < 1 && (year, month, day) == BackStep(year0, month0, day0.v)
      decreases 1 - passes
    {
      month := month - 1;
      day := Sub(Shared.DaysInMonth(year, month), day);
      if month < 1 {
        month := 12;
        year := year - 1;
      }
      passes := passes + 1;
    }
  }

  /** The day loops and the final month loops; the forward loop makes no pass over a NaN day. */
  method CarryDays(year0: int, month0: int, day0: Num) returns (year: int, month: int, day: Num)
    requires 1 <= month0 <= 12
    ensures (year, month, day) == CivilDays(year0, month0, day0)
  {
    year, month, day := DaysBack(year0, month0, day0);
    if day.Fin? {
      year, month, day := Shared.NormalizeDays(year, month, day.v);
    }
    year, month := Shared.WrapMonth(year, month);
  }

  /** `plus(fields, duration)`: the sums, then the carry loops in the order `plus` runs them. */
  method Plus(f: Civil, d: Delta) returns (r: Civil)
    ensures r == PlusSpec(f, d)
  {
    var s := Civil(f.year + d.years, f.month + d.months, Add(f.day, d.days), f.hour + d.hours,
                   f.minute + d.minutes, f.second + d.seconds,
                   f.nanosecond + d.milliseconds * 1000000 + d.microseconds * 1000 + d.nanoseconds);
    assert s == Sum(f, d);
    var c := CarryClockFields(s);
    var year, month := Shared.WrapMonth(c.year, c.month);
    var y, m, day := CarryDays(year, month, c.day);
    r := Civil(y, m, day, c.hour, c.minute, c.second, c.nanosecond);
  }

  // ---------------------------------------------------------------------------
  // Properties

  /** The record as Shared's nine fields, with the sub-second part in the nanoseconds. */
  function FieldsOf(c: Civil): Shared.Fields
    requires c.day.Fin?
  {
    Shared.Fields(c.year, c.month, c.day.v, c.hour, c.minute, c.second, 0, 0, c.nanosecond)
  }

  /** The weighted total in nanoseconds since 1970-01-01, the date read as MakeDay does. */
  function Total(c: Civil): int
    requires c.day.Fin?
  {
    Shared.TotalNs(FieldsOf(c))
  }

  /**
   * The clock loops bring the nanoseconds into 0..999999999 and the seconds
   * and minutes into 0..59, the hour into 0..59 (not 0..23), and move
   * nothing but the day: the day-and-time total is kept.
   */
  lemma CarryClockConserves(c: Civil)
    ensures var r := CarryClock(c);
      && 0 <= r.nanosecond < Shared.NsPerSecond && 0 <= r.second < 60 && 0 <= r.minute < 60 && 0 <= r.hour < 60
      && r.year == c.year && r.month == c.month && (r.day.Fin? <==> c.day.Fin?)
      && (c.day.Fin? ==> Shared.DayTimeNs(FieldsOf(r)) == Shared.DayTimeNs(FieldsOf(c)))
  {
    var s := c.second + c.nanosecond / Shared.NsPerSecond;
    var mi := c.minute + s / 60;
    var h := HourCarry(c.hour + mi / 60);
    assert c.nanosecond == Shared.NsPerSecond * (c.nanosecond / Shared.NsPerSecond) + c.nanosecond % Shared.NsPerSecond;
    assert s == 60 * (s / 60) + s % 60;
    assert mi == 60 * (mi / 60) + mi % 60;
  }

  /** The clock in nanoseconds from midnight, the hour allowed past 23. */
  function ClockNs(c: Civil): int
  {
    Shared.TimeNs(c.hour, c.minute, c.second, 0, 0, c.nanosecond)
  }

  /**
   * Whatever the day, the clock loops take whole days out of the clock and
   * nothing else: k days, where k is what they add to the day.
   */
  lemma CarryClockTime(c: Civil) returns (k: int)
    ensures var r := CarryClock(c);
      && 0 <= r.nanosecond < Shared.NsPerSecond && 0 <= r.second < 60 && 0 <= r.minute < 60 && 0 <= r.hour < 60
      && ClockNs(c) == ClockNs(r) + k * Shared.NsPerDay
  {
    var s := c.second + c.nanosecond / Shared.NsPerSecond;
    var mi := c.minute + s / 60;
    var h := HourCarry(c.hour + mi / 60);
    k := h.1;
    assert c.nanosecond == Shared.NsPerSecond * (c.nanosecond / Shared.NsPerSecond) + c.nanosecond % Shared.NsPerSecond;
    assert s == 60 * (s / 60) + s % 60;
    assert mi == 60 * (mi / 60) + mi % 60;
  }

  /**
   * `plus` moves the clock by the duration's clock components, up to whole
   * days, k of them, and leaves it carried.
   */
  lemma PlusClock(f: Civil, d: Delta) returns (k: int)
    ensures var r := PlusSpec(f, d);
      && 0 <= r.nanosecond < Shared.NsPerSecond && 0 <= r.second < 60 && 0 <= r.minute < 60 && 0 <= r.hour < 60
      && ClockNs(f) + Shared.TimeNs(d.hours, d.minutes, d.seconds, d.milliseconds, d.microseconds, d.nanoseconds)
         == ClockNs(r) + k * Shared.NsPerDay
  {
    k := CarryClockTime(Sum(f, d));
    BalanceKeepsClock(CarryClock(Sum(f, d)));
  }

  /** When the field-wise sum needs no clock carry, `plus` keeps the summed clock. */
  lemma PlusKeepsCarried(f: Civil, d: Delta)
    requires var s := Sum(f, d); 0 <= s.hour < 60 && 0 <= s.minute < 60 && 0 <= s.second < 60 && 0 <= s.nanosecond < Shared.NsPerSecond
    ensures var r, s := PlusSpec(f, d), Sum(f, d); r.hour == s.hour && r.minute == s.minute && r.second == s.second && r.nanosecond == s.nanosecond
  {
    PlusOfCarried(f, d, Sum(f, d));
    BalanceKeepsClock(Sum(f, d));
  }

  /** The month and day loops leave the clock alone. */
  lemma BalanceKeepsClock(c: Civil)
    ensures var b := BalanceCivil(c); b.hour == c.hour && b.minute == c.minute && b.second == c.second && b.nanosecond == c.nanosecond
  {
  }

  /**
   * Ranges after `plus`: nanoseconds in 0..999999999, seconds and minutes in
   * 0..59, the hour in 0..59, the month in 1..12, and a finite day within
   * its month.
   */
  lemma PlusRanges(f: Civil, d: Delta)
    ensures Normal(PlusSpec(f, d))
  {
    var c := CarryClock(Sum(f, d));
    CarryClockConserves(Sum(f, d));
    var wy, wm := Shared.WrappedYear(c.year, c.month), Shared.WrappedMonth(c.month);
    if c.day.Fin? && c.day.v < 1 {
      var b := BackStep(wy, wm, c.day.v);
      if b.2.Fin? {
        NormalizeRange(b.0, b.1, b.2.v);
      }
    } else if c.day.Fin? {
      NormalizeRange(wy, wm, c.day.v);
    }
  }

  /** NormalizeDay of a positive day lands inside a month. */
  lemma NormalizeRange(year: int, month: int, day: int)
    requires 1 <= month <= 12 && day >= 1
    ensures var r := Shared.NormalizeDay(year, month, day); r.2.Fin? && 1 <= r.2.v <= Shared.Dim(r.0, r.1)
  {
    var r := Shared.NormalizeDay(year, month, day);
    Shared.LeapAgrees(r.0);
  }

  /** The hour loops keep an hour in 24..59: the hour `plus` returns is 24 or more exactly when the carried hour is in 24..59. */
  lemma PlusKeepsLateHours(f: Civil, d: Delta)
    ensures var h := CarriedHour(Sum(f, d));
      (PlusSpec(f, d).hour >= 24 <==> (24 <= h < 60 || h >= 60))
      && (0 <= h < 60 ==> PlusSpec(f, d).hour == h)
  {
  }

  /**
   * When the carried day is at least 1, `plus` conserves the weighted total:
   * the result is the same instant as the field-wise sum.
   */
  lemma PlusConserves(f: Civil, d: Delta)
    requires Sum(f, d).day.Fin? && CarryClock(Sum(f, d)).day.v >= 1
    ensures PlusSpec(f, d).day.Fin? && Total(PlusSpec(f, d)) == Total(Sum(f, d))
  {
    var s := Sum(f, d);
    var c := CarryClock(s);
    CarryClockConserves(s);
    Shared.TotalOfSameMonth(FieldsOf(c), FieldsOf(s), 0);
    BalanceConserves(c);
  }

  /** The month and forward day loops keep the total of a record whose day is at least 1. */
  lemma BalanceConserves(c: Civil)
    requires c.day.Fin? && c.day.v >= 1
    ensures BalanceCivil(c).day.Fin? && Total(BalanceCivil(c)) == Total(c)
  {
    var y, m, dd := Shared.BalanceDateConserves(c.year, c.month, c.day.v);
    BalanceCivilOf(c, y, m, dd);
    TotalOfShiftedDay(BalanceCivil(c), c, y, m, dd, 0);
  }

  /** A record at another record's time of day, on a date k day numbers later, is k days later in total. */
  lemma TotalOfShiftedDay(b: Civil, c: Civil, y: int, m: int, d: int, k: int)
    requires b.day.Fin? && c.day.Fin?
    requires FieldsOf(b) == Shared.Fields(y, m, d, c.hour, c.minute, c.second, 0, 0, c.nanosecond)
    requires EcmaTime.MakeDay(y, m - 1, d) == EcmaTime.MakeDay(c.year, c.month - 1, c.day.v) + k
    ensures Total(b) == Total(c) + k * Shared.NsPerDay
  {
    TotalOfShiftedFields(b, c, y, m, d, k, c.year, c.month, c.day.v);
  }

  /** The same, with c's date named, so that only integers meet the day arithmetic. */
  lemma TotalOfShiftedFields(b: Civil, c: Civil, y: int, m: int, d: int, k: int, y0: int, m0: int, d0: int)
    requires b.day.Fin? && c.year == y0 && c.month == m0 && c.day == Fin(d0)
    requires FieldsOf(b) == Shared.Fields(y, m, d, c.hour, c.minute, c.second, 0, 0, c.nanosecond)
    requires EcmaTime.MakeDay(y, m - 1, d) == EcmaTime.MakeDay(y0, m0 - 1, d0) + k
    ensures Total(b) == Total(c) + k * Shared.NsPerDay
  {
    var n := EcmaTime.MakeDay(y0, m0 - 1, d0);
    assert FieldsOf(c) == Shared.Fields(y0, m0, d0, c.hour, c.minute, c.second, 0, 0, c.nanosecond);
    Shared.TotalOfDayNumber(y, m, d, c.hour, c.minute, c.second, 0, 0, c.nanosecond, n + k);
    Shared.TotalOfDayNumber(y0, m0, d0, c.hour, c.minute, c.second, 0, 0, c.nanosecond, n);
  }

  /** With a day of at least 1, the balanced record carries Shared's BalanceDate of its date. */
  lemma BalanceCivilOf(c: Civil, y: int, m: int, d: int)
    requires c.day.Fin? && c.day.v >= 1 && Shared.BalanceDate(c.year, c.month, c.day.v) == (y, m, Fin(d))
    ensures BalanceCivil(c).day.Fin? && FieldsOf(BalanceCivil(c)) == Shared.Fields(y, m, d, c.hour, c.minute, c.second, 0, 0, c.nanosecond)
  {
  }

  /** A day of at least 1 balances to a date with the same day number; the clock is untouched. */
  lemma BalanceDayNumber(c: Civil) returns (y: int, m: int, dd: int)
    requires c.day.Fin? && c.day.v >= 1
    ensures BalanceCivil(c) == Civil(y, m, Fin(dd), c.hour, c.minute, c.second, c.nanosecond)
    ensures EcmaTime.MakeDay(y, m - 1, dd) == EcmaTime.MakeDay(c.year, c.month - 1, c.day.v)
  {
    y, m, dd := Shared.BalanceDateConserves(c.year, c.month, c.day.v);
    BalanceCivilOf(c, y, m, dd);
  }

  /** The month and day loops see only the wrapped year and month, the day and the clock. */
  lemma BalanceOfWrapped(a: Civil, b: Civil)
    requires Shared.WrappedYear(a.year, a.month) == Shared.WrappedYear(b.year, b.month)
    requires Shared.WrappedMonth(a.month) == Shared.WrappedMonth(b.month)
    requires a.day == b.day && a.hour == b.hour && a.minute == b.minute && a.second == b.second && a.nanosecond == b.nanosecond
    ensures BalanceCivil(a) == BalanceCivil(b)
  {
  }

  /** A record in the ranges `plus` produces: the clock fields carried and the day inside its month, or NaN. */
  predicate Normal(f: Civil)
  {
    && 1 <= f.month <= 12 && 0 <= f.hour < 60 && 0 <= f.minute < 60 && 0 <= f.second < 60
    && 0 <= f.nanosecond < Shared.NsPerSecond
    && (f.day.Fin? ==> 1 <= f.day.v <= Shared.Dim(f.year, f.month))
  }

  /** `plus` of zero leaves a Normal record as it is. */
  lemma PlusZero(f: Civil)
    requires Normal(f)
    ensures PlusSpec(f, Zero) == f
  {
    assert Sum(f, Zero) == f;
    CarryClockOfNormal(f);
    BalanceOfNormal(f);
  }

  /** The duration a constructor passes for the fields of f: each field as an amount added to the empty record. */
  function DeltaOf(f: Civil): Delta
  {
    Delta(f.year, f.month, f.day, f.hour, f.minute, f.second, 0, 0, f.nanosecond)
  }

  /** Constructing from a Normal record's own fields, as every civil constructor does, gives the record back. */
  lemma RebuildNormal(f: Civil)
    requires Normal(f)
    ensures PlusSpec(Empty, DeltaOf(f)) == f
  {
    assert Sum(Empty, DeltaOf(f)) == f;
    CarryClockOfNormal(f);
    BalanceOfNormal(f);
  }

  /** A destructuring default: the given value, or the current one when the property is omitted. */
  function Given<T>(o: Option<T>, current: T): T
  {
    if o.Some? then o.value else current
  }

  /** The clock loops make no pass over carried fields. */
  lemma CarryClockOfNormal(f: Civil)
    requires 0 <= f.hour < 60 && 0 <= f.minute < 60 && 0 <= f.second < 60 && 0 <= f.nanosecond < Shared.NsPerSecond
    ensures CarryClock(f) == f
  {
    assert f.nanosecond / Shared.NsPerSecond == 0 && f.nanosecond % Shared.NsPerSecond == f.nanosecond;
    assert f.second / 60 == 0 && f.second % 60 == f.second;
    assert f.minute / 60 == 0 && f.minute % 60 == f.minute;
  }

  /** When the field-wise sum needs no clock carry, `plus` only balances it. */
  lemma PlusOfCarried(f: Civil, d: Delta, s: Civil)
    requires Sum(f, d) == s
    requires 0 <= s.hour < 60 && 0 <= s.minute < 60 && 0 <= s.second < 60 && 0 <= s.nanosecond < Shared.NsPerSecond
    ensures PlusSpec(f, d) == BalanceCivil(s)
  {
    CarryClockOfNormal(s);
  }

  /** The month and day loops make no pass over a month in 1..12 and a day inside it. */
  lemma BalanceOfNormal(f: Civil)
    requires 1 <= f.month <= 12 && (f.day.Fin? ==> 1 <= f.day.v <= Shared.Dim(f.year, f.month))
    ensures BalanceCivil(f) == f
  {
    assert Shared.WrappedYear(f.year, f.month) == f.year;
    if f.day.Fin? {
      Shared.NormalizeDayOfValid(f.year, f.month, f.day.v);
    }
  }

  // ---------------------------------------------------------------------------
  // The day underflow

  /** Stepping back out of January gives December of the previous year with a NaN day. */
  lemma PlusUnderflowJanuary(f: Civil, d: Delta)
    requires CarryClock(Sum(f, d)).day.Fin? && CarryClock(Sum(f, d)).day.v < 1
    requires Shared.WrappedMonth(CarryClock(Sum(f, d)).month) == 1
    ensures var c := CarryClock(Sum(f, d));
      PlusSpec(f, d) == Civil(Shared.WrappedYear(c.year, c.month) - 1, 12, NaN, c.hour, c.minute, c.second, c.nanosecond)
  {
  }

  // ---------------------------------------------------------------------------
  // The evidently intended plus

  /** The intended hour carry: the hour wraps into 0..23. */
  function HourCarryIntended(hour: int): (r: (int, int))
    ensures 0 <= r.0 < 24 && 24 * r.1 + r.0 == hour
  {
    (hour % 24, hour / 24)
  }

  /** The clock carries with the hour wrapped at 24. */
  function CarryClockIntended(c: Civil): Civil
  {
    var s := c.second + c.nanosecond / Shared.NsPerSecond;
    var mi := c.minute + s / 60;
    var h := HourCarryIntended(c.hour + mi / 60);
    Civil(c.year, c.month, Add(c.day, Fin(h.1)), h.0, mi % 60, s % 60, c.nanosecond % Shared.NsPerSecond)
  }

  /** The calendar date of a possibly overflowing (year, month, day), as the day number names it. */
  function CivilDate(year: int, month: int, day: int): (r: (int, int, int))
    ensures 1 <= r.1 <= 12 && 1 <= r.2 <= Shared.Dim(r.0, r.1)
  {
    var c := EcmaTime.DayToCivil(EcmaTime.MakeDay(year, month - 1, day));
    Shared.LeapAgrees(c.year);
    (c.year, c.month + 1, c.date)
  }

  /** `plus` as evidently intended: hours wrap at 24 and a day below 1 counts back into the earlier months. */
  function PlusIntended(f: Civil, d: Delta): Civil
  {
    var c := CarryClockIntended(Sum(f, d));
    if c.day.Fin? then
      var date := CivilDate(c.year, c.month, c.day.v);
      Civil(date.0, date.1, Fin(date.2), c.hour, c.minute, c.second, c.nanosecond)
    else Civil(Shared.WrappedYear(c.year, c.month), Shared.WrappedMonth(c.month), NaN, c.hour, c.minute, c.second, c.nanosecond)
  }

  /** The intended clock carries keep the day-and-time total and bring every clock field into range. */
  lemma CarryClockIntendedConserves(c: Civil)
    ensures var r := CarryClockIntended(c);
      && 0 <= r.nanosecond < Shared.NsPerSecond && 0 <= r.second < 60 && 0 <= r.minute < 60 && 0 <= r.hour < 24
      && r.year == c.year && r.month == c.month && (r.day.Fin? <==> c.day.Fin?)
      && (c.day.Fin? ==> Shared.DayTimeNs(FieldsOf(r)) == Shared.DayTimeNs(FieldsOf(c)))
  {
    var s := c.second + c.nanosecond / Shared.NsPerSecond;
    var mi := c.minute + s / 60;
    assert c.nanosecond == Shared.NsPerSecond * (c.nanosecond / Shared.NsPerSecond) + c.nanosecond % Shared.NsPerSecond;
    assert s == 60 * (s / 60) + s % 60;
    assert mi == 60 * (mi / 60) + mi % 60;
  }

  /** The intended `plus` leaves every field in range, the hour below 24, and a NaN day only where the sum had one. */
  lemma PlusIntendedRanges(f: Civil, d: Delta)
    ensures Normal(PlusIntended(f, d)) && PlusIntended(f, d).hour < 24
    ensures PlusIntended(f, d).day.Fin? <==> Sum(f, d).day.Fin?
  {
    CarryClockIntendedConserves(Sum(f, d));
  }

  /** The intended `plus` is the field-wise sum as a point in time: the weighted totals agree. */
  lemma PlusIntendedConserves(f: Civil, d: Delta)
    requires Sum(f, d).day.Fin?
    ensures PlusIntended(f, d).day.Fin? && Total(PlusIntended(f, d)) == Total(Sum(f, d))
  {
    var s := Sum(f, d);
    var c := CarryClockIntended(s);
    CarryClockIntendedConserves(s);
    Shared.TotalOfSameMonth(FieldsOf(c), FieldsOf(s), 0);
    var y, m, dd := CivilDateDayNumber(c.year, c.month, c.day.v);
    IntendedOf(f, d, y, m, dd);
    TotalOfShiftedDay(PlusIntended(f, d), c, y, m, dd, 0);
  }

  /** CivilDate names a date with the same day number. */
  lemma CivilDateDayNumber(year: int, month: int, day: int) returns (y: int, m: int, d: int)
    ensures CivilDate(year, month, day) == (y, m, d)
    ensures EcmaTime.MakeDay(y, m - 1, d) == EcmaTime.MakeDay(year, month - 1, day)
  {
    var n := EcmaTime.MakeDay(year, month - 1, day);
    EcmaTime.MakeDayOfCivil(n);
    var c := EcmaTime.DayToCivil(n);
    y, m, d := c.year, c.month + 1, c.date;
  }

  /** The intended `plus` of a finite sum carries the CivilDate of its carried date. */
  lemma IntendedOf(f: Civil, d: Delta, y: int, m: int, dd: int)
    requires var c := CarryClockIntended(Sum(f, d)); c.day.Fin? && CivilDate(c.year, c.month, c.day.v) == (y, m, dd)
    ensures var c := CarryClockIntended(Sum(f, d)); PlusIntended(f, d) == Civil(y, m, Fin(dd), c.hour, c.minute, c.second, c.nanosecond)
  {
  }

  /** In a common year, adding -2 days to March 1 gives March 1 again as written (intended: February 27). */
  lemma PlusUnderflowExample(year: int)
    requires !Shared.IsLeapYear(year)
    ensures var f := Civil(year, 3, Fin(1), 0, 0, 0, 0);
      PlusSpec(f, Delta(0, 0, Fin(-2), 0, 0, 0, 0, 0, 0)) == f
  {
    var f := Civil(year, 3, Fin(1), 0, 0, 0, 0);
    var s := Civil(year, 3, Fin(-1), 0, 0, 0, 0);
    assert Sum(f, Delta(0, 0, Fin(-2), 0, 0, 0, 0, 0, 0)) == s;
    CarryClockOfNormal(s);
    assert Shared.Dim(year, 2) == 28;
    assert BackStep(year, 3, -1) == (year, 2, Fin(29));
    Shared.NormalizeDayOverflow(year, 2, 29);
  }

  /** Adding one hour at 23:00 gives hour 24 of the same day as written (intended: 00:00 of the next day). */
  lemma PlusLateHourExample(f: Civil)
    requires Normal(f) && f.hour == 23
    ensures PlusSpec(f, Delta(0, 0, Fin(0), 1, 0, 0, 0, 0, 0)) == f.(hour := 24)
  {
    var s := f.(hour := 24);
    assert Sum(f, Delta(0, 0, Fin(0), 1, 0, 0, 0, 0, 0)) == s;
    CarryClockOfNormal(s);
    BalanceOfNormal(s);
  }
}
