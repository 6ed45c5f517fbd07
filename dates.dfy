/**
 * lib/date.mjs: `CivilDate`, a calendar date whose DATA record is computed
 * once by `getDateInfo`, with `with`, `plus`, `minus`, `difference`,
 * `toString`, `fromString`, the ISO parser and `compare`.
 */
module Dates {
  import opened Js
  import Text
  import EcmaTime
  import Shared
  import Durations
  import Iso

  /** The DATA record of a CivilDate. */
  datatype CivilDate = CivilDate(year: int, month: int, day: int, dayOfWeek: int, dayOfYear: int, weekOfYear: int)

  /**
   * `getDateInfo(year, month, day)`: Error for a non-finite year, for a
   * month that is not finite or outside 1..12, and for a day that is not
   * finite or below 1. The upper bound compares the month, not the day, with
   * the month's length, so it never rejects anything; the day of week, day
   * of year and week of year are Shared's.
   */
  function GetDateInfo(year: Num, month: Num, day: Num): (r: Result<CivilDate>)
    ensures r.Ok? <==> year.Fin? && month.Fin? && 1 <= month.v <= 12 && day.Fin? && 1 <= day.v
    ensures r.Throw? ==> r.exc == Error
    ensures r.Ok? ==> r.value.year == year.v && r.value.month == month.v && r.value.day == day.v
    ensures r.Ok? ==> 0 <= r.value.dayOfWeek <= 6 && r.value.dayOfYear >= 1
  {
    if !year.Fin? then Throw(Error)
    else if !month.Fin? || month.v < 1 || month.v > 12 then Throw(Error)
    else if !day.Fin? || day.v < 1 || Less(Shared.DaysInMonth(year.v, month.v), month) then Throw(Error)
    else
      var doy := Shared.DayOfYear(year.v, month.v, day.v);
      var woy := Shared.ToWeekOfYear(year.v, month.v, day.v);
      Ok(CivilDate(year.v, month.v, day.v, Shared.ToDayOfWeek(year.v, month.v, day.v), doy.v, woy.v))
  }

  /** The date getDateInfo would record for valid fields. */
  predicate Recorded(d: CivilDate)
  {
    GetDateInfo(Fin(d.year), Fin(d.month), Fin(d.day)) == Ok(d)
  }

  /** February 31 passes getDateInfo, because its upper bound tests the month. */
  lemma GetDateInfoFebruary31()
    ensures GetDateInfo(Fin(2019), Fin(2), Fin(31)).Ok?
  {
  }

  /**
   * The evidently intended `getDateInfo`: the upper bound compares the day
   * with the month's length. It accepts exactly the real calendar dates, and
   * on those it records what the code as written records.
   */
  function GetDateInfoIntended(year: Num, month: Num, day: Num): (r: Result<CivilDate>)
    ensures r.Ok? <==> year.Fin? && month.Fin? && 1 <= month.v <= 12 && day.Fin? && 1 <= day.v <= Shared.Dim(year.v, month.v)
    ensures r.Throw? ==> r.exc == Error
    ensures r.Ok? ==> r == GetDateInfo(year, month, day)
  {
    if year.Fin? && month.Fin? && 1 <= month.v <= 12 && day.Fin? && day.v > Shared.Dim(year.v, month.v) then Throw(Error)
    else GetDateInfo(year, month, day)
  }

  /** With the day compared, 2019-02-31 is rejected and 2019-02-28 accepted. */
  lemma GetDateInfoIntendedFebruary()
    ensures GetDateInfoIntended(Fin(2019), Fin(2), Fin(31)) == Throw(Error)
    ensures GetDateInfoIntended(Fin(2019), Fin(2), Fin(28)).Ok?
  {
  }

  /** For a valid date the recorded ordinal and week lie in their ISO 8601 ranges and the ordinal reads back. */
  lemma GetDateInfoOfValid(year: int, month: int, day: int)
    requires 1 <= month <= 12 && 1 <= day <= Shared.Dim(year, month)
    ensures var r := GetDateInfo(Fin(year), Fin(month), Fin(day));
      && r.Ok? && 1 <= r.value.dayOfYear <= 365 + Shared.Leap(year)
      && Shared.DateOfDayOfYear(year, r.value.dayOfYear) == Shared.YearMonthDay(year, month, day)
      && 1 <= r.value.weekOfYear <= 53
  {
    Shared.DayOfYearRange(year, month, day);
    Shared.DateOfDayOfYearOfDate(year, month, day);
    Shared.WeekOfYearIso(year, month, day);
  }

  /** `new CivilDate(year, month, day)` */
  function NewCivilDate(year: Num, month: Num, day: Num): Result<CivilDate>
  {
    GetDateInfo(year, month, day)
  }

  /** The properties copyProps reads from a CivilDate: its year, month and day getters. */
  function PropsOf(d: CivilDate): Shared.Props
  {
    map[Shared.Year := Fin(d.year), Shared.Month := Fin(d.month), Shared.Day := Fin(d.day)]
  }

  /** The bag of a date holds its year, month and day. */
  lemma GetOfProps(d: CivilDate)
    ensures Get(PropsOf(d), Shared.Year) == Fin(d.year) && Get(PropsOf(d), Shared.Month) == Fin(d.month)
    ensures Get(PropsOf(d), Shared.Day) == Fin(d.day)
  {
  }

  /** A property of a bag; `undefined` for a missing one, which enters getDateInfo as a non-finite value. */
  function Get(p: Shared.Props, f: Shared.Field): Num
  {
    if f in p then p[f] else NaN
  }

  /** `date.with(dateLike)`: copyProps of the date and the argument, then the constructor. */
  function With(d: CivilDate, dateLike: Shared.Props): Result<CivilDate>
  {
    var m := Shared.Merge([PropsOf(d), dateLike]);
    NewCivilDate(Get(m, Shared.Year), Get(m, Shared.Month), Get(m, Shared.Day))
  }

  /** `with` takes each of year, month and day from the argument when it defines it, and keeps the date's otherwise. */
  lemma WithReplaces(d: CivilDate, dateLike: Shared.Props)
    ensures With(d, dateLike) == NewCivilDate(
      if Shared.Year in dateLike then dateLike[Shared.Year] else Fin(d.year),
      if Shared.Month in dateLike then dateLike[Shared.Month] else Fin(d.month),
      if Shared.Day in dateLike then dateLike[Shared.Day] else Fin(d.day))
  {
    Shared.MergeTwo(PropsOf(d), dateLike);
  }

  /** `with({month: 5})` on 1976-11-18 gives 1976-05-18. */
  lemma WithExample()
    ensures var d := NewCivilDate(Fin(1976), Fin(11), Fin(18));
      d.Ok? && With(d.value, map[Shared.Month := Fin(5)]).Ok?
      && var r := With(d.value, map[Shared.Month := Fin(5)]).value;
        r.year == 1976 && r.month == 5 && r.day == 18
  {
    var d := NewCivilDate(Fin(1976), Fin(11), Fin(18)).value;
    WithReplaces(d, map[Shared.Month := Fin(5)]);
  }

  /** The fields `calculate` destructures from a CivilDate: no time getters, so the time defaults to 0. */
  function DateFields(d: CivilDate): Shared.Fields
  {
    Shared.Fields(d.year, d.month, d.day, 0, 0, 0, 0, 0, 0)
  }

  /** The date as the base of castDuration: its year and month. */
  function BaseOf(d: CivilDate): Durations.Base
  {
    Durations.Base(Fin(d.year), Fin(d.month))
  }

  /** calculate applied to the date's fields and a cast duration, then the constructor. */
  function MoveBy(d: CivilDate, dur: Durations.Duration, negate: bool): Result<CivilDate>
  {
    var r := Shared.CalculateSpec(DateFields(d), Durations.DeltaOf(dur), negate);
    NewCivilDate(Fin(r.year), Fin(r.month), r.day)
  }

  /** `plus` (negate false) and `minus` (negate true): castDuration against the date, calculate, then the constructor. */
  function Move(d: CivilDate, durationLike: Durations.DurationLike, negate: bool): Result<CivilDate>
  {
    var dur :- Durations.CastDurationOf(durationLike, Some(BaseOf(d)));
    MoveBy(d, dur, negate)
  }

  function Plus(d: CivilDate, durationLike: Durations.DurationLike): Result<CivilDate>
  {
    Move(d, durationLike, false)
  }

  function Minus(d: CivilDate, durationLike: Durations.DurationLike): Result<CivilDate>
  {
    Move(d, durationLike, true)
  }

  /** A duration-like object with only years, months and days; the other properties are undefined. */
  function LikeOf(years: Num, months: Num, days: Num): Durations.DurationLike
  {
    Durations.Like(Durations.DurationFields(years, months, days, NaN, NaN, NaN, NaN, NaN, NaN))
  }

  /** A duration-like object with only a number of days. */
  function DaysLike(n: int): Durations.DurationLike
  {
    LikeOf(NaN, NaN, Fin(n))
  }

  /** The date of the polyfill's tests, 1976-11-18, a Thursday, day 323, week 47. */
  const November18 := CivilDate(1976, 11, 18, 4, 323, 47)

  lemma November18Recorded()
    ensures NewCivilDate(Fin(1976), Fin(11), Fin(18)) == Ok(November18)
  {
    Shared.DayOfYearExample();
    Shared.WeekOfYearExample();
  }

  /** The year, month and day of a date result. */
  function YmdOf(r: Result<CivilDate>): Option<Shared.YearMonthDay>
  {
    if r.Ok? then Some(Shared.YearMonthDay(r.value.year, r.value.month, r.value.day)) else None
  }

  /** A valid year, month and day construct a date with those fields. */
  lemma YmdOfNew(year: int, month: int, day: int) returns (r: Result<CivilDate>)
    requires 1 <= month <= 12 && 1 <= day
    ensures r == NewCivilDate(Fin(year), Fin(month), Fin(day)) && YmdOf(r) == Some(Shared.YearMonthDay(year, month, day))
  {
    r := NewCivilDate(Fin(year), Fin(month), Fin(day));
  }

  /** A duration-like object with a finite years or months and no days or time (each undefined, non-finite or 0). */
  predicate YearsMonthsOnly(like: Durations.DurationLike)
  {
    && like.Like? && (like.f.years.Fin? || like.f.months.Fin?)
    && Durations.AbsOr0(like.f.days) == Durations.AbsOr0(like.f.hours) == Durations.AbsOr0(like.f.minutes) == 0
    && Durations.AbsOr0(like.f.seconds) == Durations.AbsOr0(like.f.milliseconds) == 0
    && Durations.AbsOr0(like.f.microseconds) == Durations.AbsOr0(like.f.nanoseconds) == 0
  }

  /** The whole months a duration-like object's years and months make after castDuration's absolute values. */
  function MonthsOf(like: Durations.DurationLike): nat
    requires like.Like?
  {
    12 * Durations.AbsOr0(like.f.years) + Durations.AbsOr0(like.f.months)
  }

  /** With a cast duration that has no time, plus and minus construct the balanced shifted date b. */
  lemma MoveOfDateCast(d: CivilDate, like: Durations.DurationLike, negate: bool, dur: Durations.Duration, dl: Shared.Delta, b: (int, int, Num))
    requires Durations.CastDurationOf(like, Some(BaseOf(d))) == Ok(dur) && dl == Durations.DeltaOf(dur)
    requires dur.hours == dur.minutes == dur.seconds == dur.milliseconds == dur.microseconds == dur.nanoseconds == 0
    requires b == Shared.BalanceDate(d.year + Shared.Signed(negate, dl.years), d.month + Shared.Signed(negate, dl.months),
                                     d.day + Shared.Signed(negate, dl.days))
    ensures Move(d, like, negate) == NewCivilDate(Fin(b.0), Fin(b.1), b.2)
  {
    var r := CalculateOfDate(d, dl, negate);
    assert Move(d, like, negate) == MoveBy(d, dur, negate);
  }

  /** calculate on a date's fields with a delta without time: the balanced shifted date, and no time. */
  lemma CalculateOfDate(d: CivilDate, dl: Shared.Delta, negate: bool) returns (r: Shared.Calculated)
    requires dl.hours == dl.minutes == dl.seconds == dl.milliseconds == dl.microseconds == dl.nanoseconds == 0
    ensures r == Shared.CalculateSpec(DateFields(d), dl, negate)
    ensures r.hour == r.minute == r.second == r.millisecond == r.microsecond == r.nanosecond == 0
    ensures (r.year, r.month, r.day) == Shared.BalanceDate(d.year + Shared.Signed(negate, dl.years), d.month + Shared.Signed(negate, dl.months),
                                                           d.day + Shared.Signed(negate, dl.days))
  {
    r := Shared.CalculateSpec(DateFields(d), dl, negate);
    var g := Shared.Shifted(DateFields(d), dl, negate);
    Shared.CarryTimeOfDate(g);
    assert r == Shared.Balance(g);
    assert (r.year, r.month, r.day) == Shared.BalanceDate(g.year, g.month, g.day);
  }

  /** The month k months after (year, month): its year, and its month in 1..12. */
  function MonthsLater(year: int, month: int, k: int): (r: (int, int))
    ensures 1 <= r.1 <= 12 && 12 * r.0 + r.1 == 12 * year + month + k
  {
    var t := 12 * year + month - 1 + k;
    (t / 12, t % 12 + 1)
  }

  /** The month loops of calculate land on the month reached by counting the shift in whole months. */
  lemma WrappedMonthsLater(year: int, month: int, years: int, months: int, k: int)
    requires k == 12 * years + months
    ensures (Shared.WrappedYear(year + years, month + months), Shared.WrappedMonth(month + months)) == MonthsLater(year, month, k)
  {
    var wy, wm := Shared.WrappedYear(year + years, month + months), Shared.WrappedMonth(month + months);
    var r := MonthsLater(year, month, k);
    DivModUnique(12 * year + month - 1 + k, 12, wy, wm - 1);
    DivModUnique(12 * year + month - 1 + k, 12, r.0, r.1 - 1);
  }

  /**
   * plus and minus of years and months: the date moves by MonthsOf(like)
   * whole months (forward for plus, back for minus; castDuration takes
   * absolute values, so a negative count moves the same way), and the
   * result is the balanced shifted date, whose month is the one reached by
   * counting those months.
   */
  lemma MoveYearsMonths(d: CivilDate, like: Durations.DurationLike, negate: bool) returns (t: (int, int), b: (int, int, Num))
    requires YearsMonthsOnly(like)
    ensures t == MonthsLater(d.year, d.month, Shared.Signed(negate, MonthsOf(like)))
    ensures b == Shared.NormalizeDay(t.0, t.1, d.day)
    ensures Move(d, like, negate) == NewCivilDate(Fin(b.0), Fin(b.1), b.2)
  {
    var ym := Durations.FoldYears(Durations.AbsOr0(like.f.years), Durations.AbsOr0(like.f.months));
    var dl := Shared.Delta(ym.0, ym.1, 0, 0, 0, 0, 0, 0, 0);
    t, b := ShiftByMonths(d.year, d.month, d.day, dl, MonthsOf(like), negate);
    MoveOfYearsMonths(d, like, negate, ym, dl, b);
  }

  lemma MoveOfYearsMonths(d: CivilDate, like: Durations.DurationLike, negate: bool, ym: (int, int), dl: Shared.Delta, b: (int, int, Num))
    requires YearsMonthsOnly(like)
    requires ym == Durations.FoldYears(Durations.AbsOr0(like.f.years), Durations.AbsOr0(like.f.months))
    requires dl == Shared.Delta(ym.0, ym.1, 0, 0, 0, 0, 0, 0, 0)
    requires b == Shared.BalanceDate(d.year + Shared.Signed(negate, dl.years), d.month + Shared.Signed(negate, dl.months),
                                     d.day + Shared.Signed(negate, dl.days))
    ensures Move(d, like, negate) == NewCivilDate(Fin(b.0), Fin(b.1), b.2)
  {
    Durations.CastYearsMonthsOnly(like, Some(BaseOf(d)));
    var dur := Durations.Duration(Some(ym.0), Some(ym.1), 0, 0, 0, 0, 0, 0, 0);
    MoveOfDateCast(d, like, negate, dur, dl, b);
  }

  /** The month and day balancing of a date shifted by a delta of whole months and no days. */
  lemma ShiftByMonths(year: int, month: int, day: int, dl: Shared.Delta, total: int, negate: bool) returns (t: (int, int), b: (int, int, Num))
    requires 12 * dl.years + dl.months == total && dl.days == 0
    ensures t == MonthsLater(year, month, Shared.Signed(negate, total))
    ensures b == Shared.NormalizeDay(t.0, t.1, day)
    ensures b == Shared.BalanceDate(year + Shared.Signed(negate, dl.years), month + Shared.Signed(negate, dl.months),
                                    day + Shared.Signed(negate, dl.days))
  {
    var k := Shared.Signed(negate, total);
    WrappedMonthsLater(year, month, Shared.Signed(negate, dl.years), Shared.Signed(negate, dl.months), k);
    t := MonthsLater(year, month, k);
    assert day + Shared.Signed(negate, dl.days) == day;
    b := Shared.BalanceOfWrapped(year + Shared.Signed(negate, dl.years), month + Shared.Signed(negate, dl.months), day, t.0, t.1);
  }

  /**
   * When the day exists in the month reached, plus and minus of years and
   * months keep the day: 1976-11-18 plus 43 years is 2019-11-18, plus 3
   * months 1977-02-18, and minus 13 months 1975-10-18.
   */
  lemma MoveYearsMonthsKeepsDay(d: CivilDate, like: Durations.DurationLike, negate: bool) returns (t: (int, int))
    requires YearsMonthsOnly(like)
    ensures t == MonthsLater(d.year, d.month, Shared.Signed(negate, MonthsOf(like)))
    ensures 1 <= d.day <= Shared.Dim(t.0, t.1) ==>
      YmdOf(Move(d, like, negate)) == Some(Shared.YearMonthDay(t.0, t.1, d.day))
  {
    var b;
    t, b := MoveYearsMonths(d, like, negate);
    if 1 <= d.day <= Shared.Dim(t.0, t.1) {
      NewInMonth(Move(d, like, negate), t, d.day, b);
    }
  }

  /** The date constructed from a day normalized within its month keeps the year, month and day. */
  lemma NewInMonth(m: Result<CivilDate>, t: (int, int), day: int, b: (int, int, Num))
    requires 1 <= t.1 <= 12 && 1 <= day <= Shared.Dim(t.0, t.1)
    requires b == Shared.NormalizeDay(t.0, t.1, day) && m == NewCivilDate(Fin(b.0), Fin(b.1), b.2)
    ensures YmdOf(m) == Some(Shared.YearMonthDay(t.0, t.1, day))
  {
    Shared.NormalizeDayOfValid(t.0, t.1, day);
    YmdOfBuilt(m, t.0, t.1, day);
  }

  /**
   * When the day does not exist in the month reached, calculate carries
   * the surplus into the following month instead of clamping: 2019-01-31
   * plus one month is 2019-03-03 (the polyfill's own test expects
   * 2019-02-28).
   */
  lemma MoveYearsMonthsOverflows(d: CivilDate, like: Durations.DurationLike, negate: bool) returns (t: (int, int))
    requires YearsMonthsOnly(like)
    ensures t == MonthsLater(d.year, d.month, Shared.Signed(negate, MonthsOf(like)))
    ensures Shared.Dim(t.0, t.1) < d.day <= 31 ==>
      t.1 < 12 && YmdOf(Move(d, like, negate)) == Some(Shared.YearMonthDay(t.0, t.1 + 1, d.day - Shared.Dim(t.0, t.1)))
  {
    var b;
    t, b := MoveYearsMonths(d, like, negate);
    NewPastEnd(Move(d, like, negate), t, d.day, b);
  }

  /** The date constructed from a day of at most 31 normalized past its month's end is in the next month. */
  lemma NewPastEnd(m: Result<CivilDate>, t: (int, int), day: int, b: (int, int, Num))
    requires 1 <= t.1 <= 12
    requires b == Shared.NormalizeDay(t.0, t.1, day) && m == NewCivilDate(Fin(b.0), Fin(b.1), b.2)
    ensures Shared.Dim(t.0, t.1) < day <= 31 ==>
      t.1 < 12 && YmdOf(m) == Some(Shared.YearMonthDay(t.0, t.1 + 1, day - Shared.Dim(t.0, t.1)))
  {
    if Shared.Dim(t.0, t.1) < day <= 31 {
      Shared.NormalizeDayPastEnd(t.0, t.1, day);
      YmdOfBuilt(m, b.0, b.1, b.2.v);
    }
  }

  /** The date constructed from a finite year, a month in 1..12 and a finite positive day has those fields. */
  lemma YmdOfBuilt(m: Result<CivilDate>, year: int, month: int, day: int)
    requires m == NewCivilDate(Fin(year), Fin(month), Fin(day)) && 1 <= month <= 12 && 1 <= day
    ensures YmdOf(m) == Some(Shared.YearMonthDay(year, month, day))
  {
  }

  /** castDuration of a days-only object: the absolute number of days, no years or months. */
  lemma CastDays(n: int, base: Option<Durations.Base>)
    ensures Durations.CastDurationOf(DaysLike(n), base) == Ok(Durations.Duration(None, None, Abs(n), 0, 0, 0, 0, 0, 0))
  {
  }

  /** `plus` is calculate applied to the date's fields with the cast duration, then the constructor. */
  lemma MoveByDays(d: CivilDate, n: int, negate: bool) returns (r: Shared.Calculated)
    ensures r == Shared.CalculateSpec(DateFields(d), Shared.Delta(0, 0, Abs(n), 0, 0, 0, 0, 0, 0), negate)
    ensures r.hour == r.minute == r.second == r.millisecond == r.microsecond == r.nanosecond == 0
    ensures Move(d, DaysLike(n), negate) == NewCivilDate(Fin(r.year), Fin(r.month), r.day)
  {
    CastDays(n, Some(BaseOf(d)));
    r := CalculateOfDate(d, Shared.Delta(0, 0, Abs(n), 0, 0, 0, 0, 0, 0), negate);
  }

  /**
   * Adding (or, with negate, subtracting) n days moves the date by |n| on
   * the day line of ECMAScript's MakeDay whenever the result is a date:
   * 1976-11-18 plus 20 days is 1976-12-08.
   */
  lemma MoveDaysShifts(d: CivilDate, n: int, negate: bool)
    requires Move(d, DaysLike(n), negate).Ok?
    ensures var e := Move(d, DaysLike(n), negate).value;
      EcmaTime.MakeDay(e.year, e.month - 1, e.day) == EcmaTime.MakeDay(d.year, d.month - 1, d.day) + Shared.Signed(negate, Abs(n))
  {
    var r := MoveByDays(d, n, negate);
    var b := CalculateOfDays(d, Abs(n), negate);
    BuiltFrom(Move(d, DaysLike(n), negate), b);
    ShiftedDay(Move(d, DaysLike(n), negate).value, d, Shared.Signed(negate, Abs(n)), b);
  }

  /** calculate with only days: the balanced date that many days on. */
  lemma CalculateOfDays(d: CivilDate, n: int, negate: bool) returns (b: (int, int, Num))
    ensures var r := Shared.CalculateSpec(DateFields(d), Shared.Delta(0, 0, n, 0, 0, 0, 0, 0, 0), negate);
      b == (r.year, r.month, r.day) && b == Shared.BalanceDate(d.year, d.month, d.day + Shared.Signed(negate, n))
  {
    var r := CalculateOfDate(d, Shared.Delta(0, 0, n, 0, 0, 0, 0, 0, 0), negate);
    assert d.year + Shared.Signed(negate, 0) == d.year && d.month + Shared.Signed(negate, 0) == d.month;
    b := (r.year, r.month, r.day);
  }

  /** A date with the fields of the balanced date k days on is k days on the MakeDay line. */
  lemma ShiftedDay(e: CivilDate, d: CivilDate, k: int, b: (int, int, Num))
    requires b == Shared.BalanceDate(d.year, d.month, d.day + k) && b.2.Fin?
    requires e.year == b.0 && e.month == b.1 && e.day == b.2.v
    ensures EcmaTime.MakeDay(e.year, e.month - 1, e.day) == EcmaTime.MakeDay(d.year, d.month - 1, d.day) + k
  {
    Shared.BalanceShift(d.year, d.month, d.day, k, b);
    Shared.MakeDayBridge(e.year, e.month - 1, e.day, b.0, b.1 - 1, b.2.v, EcmaTime.MakeDay(d.year, d.month - 1, d.day) + k);
  }

  /** A date constructed from finite parts has those parts as its fields. */
  lemma BuiltFrom(m: Result<CivilDate>, b: (int, int, Num))
    requires m == NewCivilDate(Fin(b.0), Fin(b.1), b.2) && m.Ok?
    ensures b.2.Fin? && m.value.year == b.0 && m.value.month == b.1 && m.value.day == b.2.v
  {
  }

  /** A constructed date has the fields of the Calculated value it was built from. */
  lemma ConstructedFields(r: Shared.Calculated)
    requires r.hour == r.minute == r.second == r.millisecond == r.microsecond == r.nanosecond == 0
    requires NewCivilDate(Fin(r.year), Fin(r.month), r.day).Ok?
    ensures r.day.Fin? && DateFields(NewCivilDate(Fin(r.year), Fin(r.month), r.day).value) == Shared.FieldsOf(r)
  {
  }

  /**
   * A valid date moved forward by n days and back by n days is the date
   * again, as long as neither step underflows out of January (which makes
   * the day NaN and the constructor throw).
   */
  lemma PlusMinusDays(d: CivilDate, n: int)
    requires Recorded(d) && d.day <= Shared.Dim(d.year, d.month)
    requires Plus(d, DaysLike(n)).Ok? && Minus(Plus(d, DaysLike(n)).value, DaysLike(n)).Ok?
    ensures Minus(Plus(d, DaysLike(n)).value, DaysLike(n)) == Ok(d)
  {
    var delta := Shared.Delta(0, 0, Abs(n), 0, 0, 0, 0, 0, 0);
    var g := MoveByDays(d, n, false);
    ConstructedFields(g);
    var e := Plus(d, DaysLike(n)).value;
    var h := MoveByDays(e, n, true);
    ConstructedFields(h);
    assert DateFields(e) == Shared.FieldsOf(g);
    Shared.CalculateUndo(DateFields(d), delta);
    assert Shared.FieldsOf(h) == DateFields(d);
  }

  // ---------------------------------------------------------------------------
  // difference

  /** The `{ year, month, day }` of `other` after copyProps over the defaults `{ year: 0, month: 1, day: 1 }`. */
  function OtherOf(other: map<Shared.Field, int>): Shared.YearMonthDay
  {
    Shared.YearMonthDay(if Shared.Year in other then other[Shared.Year] else 0,
                        if Shared.Month in other then other[Shared.Month] else 1,
                        if Shared.Day in other then other[Shared.Day] else 1)
  }

  /** `compare(one, two)`: the first of year, month and day that differs decides, by subtraction. */
  function Compare(one: Shared.YearMonthDay, two: Shared.YearMonthDay): (r: int)
    ensures r == 0 <==> one == two
  {
    if one.year != two.year then one.year - two.year
    else if one.month != two.month then one.month - two.month
    else if one.day != two.day then one.day - two.day
    else 0
  }

  /** The lexicographic order `compare` induces. */
  predicate Before(one: Shared.YearMonthDay, two: Shared.YearMonthDay)
  {
    one.year < two.year || (one.year == two.year && (one.month < two.month || (one.month == two.month && one.day < two.day)))
  }

  /** Swapping the operands negates the comparison. */
  lemma CompareAntisymmetric(one: Shared.YearMonthDay, two: Shared.YearMonthDay)
    ensures Compare(two, one) == -Compare(one, two)
  {
  }

  lemma CompareOrders(one: Shared.YearMonthDay, two: Shared.YearMonthDay)
    ensures Compare(one, two) < 0 <==> Before(one, two)
    ensures Compare(one, two) > 0 <==> Before(two, one)
  {
  }

  /** `[a, b].sort(compare)`: the pair in ascending order; an equal pair keeps its order. */
  function SortPair(a: Shared.YearMonthDay, b: Shared.YearMonthDay): (Shared.YearMonthDay, Shared.YearMonthDay)
  {
    if Compare(a, b) > 0 then (b, a) else (a, b)
  }

  /** What difference's four loops leave: the borrowed years, months and days. */
  datatype Borrowed = Borrowed(years: int, months: int, days: Num)

  /**
   * The day borrow: while days < 0, add the length of the cursor month and
   * step the cursor (and months) back. Stepping back from January reads
   * `daysInMonth(year, 0)`, which is undefined, and the days become NaN.
   */
  function BorrowDays(year: int, month: int, days: int, months: int): (r: (Num, int, int))
    ensures r.0.Fin? ==> r.0.v >= 0
    decreases if days < 0 then month else 0
  {
    if days >= 0 then (Fin(days), month, months)
    else
      var n := Shared.DaysInMonth(year, month);
      if n.NaN? then (NaN, month - 1, months - 1)
      else if days + n.v >= 0 then (Fin(days + n.v), month - 1, months - 1)
      else BorrowDays(year, month - 1, days + n.v, months - 1)
  }

  /** A negative day count that one month's length makes up is borrowed in one step. */
  lemma BorrowOnce(year: int, month: int, days: int, months: int)
    requires 1 <= month <= 12 && days < 0 <= days + Shared.Dim(year, month)
    ensures BorrowDays(year, month, days, months) == (Fin(days + Shared.Dim(year, month)), month - 1, months - 1)
  {
  }

  /** The day carry: while days exceed the cursor month's length, subtract it and step the cursor forward. */
  function CarryDays(year: int, month: int, days: int, months: int): (r: (int, int, int))
    ensures r.0 <= days
    decreases 13 - month
  {
    var n := Shared.DaysInMonth(year, month);
    if n.Fin? && days > n.v then CarryDays(year, month + 1, days - n.v, months + 1)
    else (days, month, months)
  }

  /** The two month loops: months brought into 0..12, whole years moved across. */
  function BalanceMonths(years: int, months: int): (r: (int, int))
    ensures 0 <= r.1 <= 12 && 12 * r.0 + r.1 == 12 * years + months
    ensures 0 <= months <= 12 ==> r == (years, months)
  {
    if months < 0 then (years + months / 12, months % 12)
    else if months > 12 then (years + (months - 1) / 12, (months - 1) % 12 + 1)
    else (years, months)
  }

  /** The raw differences after the loops, for dates in ascending order. */
  function DifferenceOf(one: Shared.YearMonthDay, two: Shared.YearMonthDay): Borrowed
  {
    Settle(one.year, two.year - one.year, BorrowDays(one.year, one.month, two.day - one.day, two.month - one.month))
  }

  /** The carry and month loops after the borrow loop b, for a year distance of years. */
  function Settle(year: int, years: int, b: (Num, int, int)): Borrowed
  {
    var c := if b.0.Fin? then CarryDays(year, b.1, b.0.v, b.2) else (0, b.1, b.2);
    var ym := BalanceMonths(years, c.2);
    Borrowed(ym.0, ym.1, if b.0.Fin? then Fin(c.0) else NaN)
  }

  /** `castDuration({ years, months, days }, this)` of the loops' results. */
  function BorrowedLike(b: Borrowed): Durations.DurationLike
  {
    Durations.Like(Durations.DurationFields(Fin(b.years), Fin(b.months), b.days, NaN, NaN, NaN, NaN, NaN, NaN))
  }

  /** `date.difference(other)` */
  function DifferenceSpec(d: CivilDate, other: map<Shared.Field, int>): Result<Durations.Duration>
  {
    var p := SortPair(Shared.YearMonthDay(d.year, d.month, d.day), OtherOf(other));
    Durations.CastDurationOf(BorrowedLike(DifferenceOf(p.0, p.1)), Some(BaseOf(d)))
  }

  /** The sort makes the pair independent of the operands' order, and it puts the later date second. */
  lemma SortPairSymmetric(a: Shared.YearMonthDay, b: Shared.YearMonthDay)
    ensures SortPair(a, b) == SortPair(b, a)
    ensures !Before(SortPair(a, b).1, SortPair(a, b).0)
  {
    CompareAntisymmetric(a, b);
    CompareOrders(a, b);
  }

  /**
   * For valid dates in order, the borrow loops take at most one month's
   * length, the days never become NaN, and the result is a non-negative
   * count of years, months in 0..12 and non-negative days.
   */
  lemma DifferenceOfOrdered(one: Shared.YearMonthDay, two: Shared.YearMonthDay)
    requires 1 <= one.month <= 12 && 1 <= one.day <= Shared.Dim(one.year, one.month)
    requires 1 <= two.month <= 12 && 1 <= two.day
    requires !Before(two, one)
    ensures var r := DifferenceOf(one, two);
      r.days.Fin? && r.days.v >= 0 && 0 <= r.months <= 12 && r.years >= 0
  {
    var days0, months0 := two.day - one.day, two.month - one.month;
    var b := BorrowOrdered(one, two, days0, months0);
    var c := CarryDays(one.year, b.1, b.0.v, b.2);
    CarryDaysCounts(one.year, b.1, b.0.v, b.2);
    BalanceOrdered(two.year - one.year, c.2);
    DifferenceOfSteps(one, two, b, c);
  }

  /** For ordered valid dates the day borrow takes at most one month and leaves a non-negative month distance. */
  lemma BorrowOrdered(one: Shared.YearMonthDay, two: Shared.YearMonthDay, days0: int, months0: int) returns (b: (Num, int, int))
    requires 1 <= one.month <= 12 && 1 <= one.day <= Shared.Dim(one.year, one.month)
    requires 1 <= two.month <= 12 && 1 <= two.day
    requires !Before(two, one)
    requires days0 == two.day - one.day && months0 == two.month - one.month
    ensures b == BorrowDays(one.year, one.month, days0, months0)
    ensures b.0.Fin? && b.0.v >= 0 && 12 * (two.year - one.year) + b.2 >= 0 && two.year >= one.year
  {
    if days0 < 0 {
      BorrowOnce(one.year, one.month, days0, months0);
      b := (Fin(days0 + Shared.Dim(one.year, one.month)), one.month - 1, months0 - 1);
    } else {
      b := (Fin(days0), one.month, months0);
    }
  }

  /** A non-negative distance of years and months balances to non-negative years. */
  lemma BalanceOrdered(years: int, months: int)
    requires years >= 0 && 12 * years + months >= 0
    ensures BalanceMonths(years, months).0 >= 0
  {
  }

  /** DifferenceOf read off the borrow and carry results. */
  lemma DifferenceOfSteps(one: Shared.YearMonthDay, two: Shared.YearMonthDay, b: (Num, int, int), c: (int, int, int))
    requires b == BorrowDays(one.year, one.month, two.day - one.day, two.month - one.month) && b.0.Fin?
    requires c == CarryDays(one.year, b.1, b.0.v, b.2)
    ensures var ym := BalanceMonths(two.year - one.year, c.2);
      DifferenceOf(one, two) == Borrowed(ym.0, ym.1, Fin(c.0))
  {
    DifferenceOfSettle(one, two);
    SettleOf(one.year, two.year - one.year, b, c);
  }

  /** DifferenceOf is Settle of the borrow result. */
  lemma DifferenceOfSettle(one: Shared.YearMonthDay, two: Shared.YearMonthDay)
    ensures DifferenceOf(one, two)
      == Settle(one.year, two.year - one.year, BorrowDays(one.year, one.month, two.day - one.day, two.month - one.month))
  {
  }

  /** Settle of a finite borrow result reads the carry result c and its balanced months. */
  lemma SettleOf(year: int, years: int, b: (Num, int, int), c: (int, int, int))
    requires b.0.Fin? && c == CarryDays(year, b.1, b.0.v, b.2)
    ensures var ym := BalanceMonths(years, c.2); Settle(year, years, b) == Borrowed(ym.0, ym.1, Fin(c.0))
  {
  }

  /** The day carry only adds months, and it leaves a non-negative count of days non-negative. */
  lemma {:induction false} CarryDaysCounts(year: int, month: int, days: int, months: int)
    ensures var r := CarryDays(year, month, days, months); r.2 >= months && (days >= 0 ==> r.0 >= 0)
    decreases 13 - month
  {
    var n := Shared.DaysInMonth(year, month);
    if n.Fin? && days > n.v {
      CarryDaysCounts(year, month + 1, days - n.v, months + 1);
    }
  }

  /** The duration difference returns: defined years and months, months in 0..12, days non-negative, no time. */
  lemma DifferenceProperties(d: CivilDate, other: map<Shared.Field, int>)
    ensures var r := DifferenceSpec(d, other);
      && r.Ok? && r.value.years.Some? && r.value.months.Some?
      && 0 <= r.value.months.value <= 12 && r.value.days >= 0
      && r.value.hours == r.value.minutes == r.value.seconds == 0
      && r.value.milliseconds == r.value.microseconds == r.value.nanoseconds == 0
  {
    var p := SortPair(Shared.YearMonthDay(d.year, d.month, d.day), OtherOf(other));
    CastBorrowed(DifferenceOf(p.0, p.1), BaseOf(d));
  }

  /** castDuration of the loops' results against a base with a finite month: a date-only duration. */
  lemma CastBorrowed(b: Borrowed, base: Durations.Base)
    requires base.month.Fin?
    ensures var r := Durations.CastDurationOf(BorrowedLike(b), Some(base));
      && r.Ok? && r.value.years.Some? && r.value.months.Some?
      && 0 <= r.value.months.value <= 12 && r.value.days >= 0
      && r.value.hours == r.value.minutes == r.value.seconds == 0
      && r.value.milliseconds == r.value.microseconds == r.value.nanoseconds == 0
  {
    var like := BorrowedLike(b);
    Durations.CastDurationProperties(like, Some(base));
    Shared.CarryTimeOfDate(Durations.AbsFields(like.f));
  }

  /** Dates in order whose day difference needs no borrow and no carry: the plain field differences. */
  lemma DifferenceOfWithin(one: Shared.YearMonthDay, two: Shared.YearMonthDay)
    requires 1 <= one.month <= two.month <= 12
    requires 0 <= two.day - one.day <= Shared.Dim(one.year, one.month)
    ensures DifferenceOf(one, two) == Borrowed(two.year - one.year, two.month - one.month, Fin(two.day - one.day))
  {
    assert Shared.DaysInMonth(one.year, one.month) == Fin(Shared.Dim(one.year, one.month));
  }

  /**
   * When the later date's month and day are not before the earlier's, and
   * the day difference fits both the earlier month and the receiver's
   * month, difference is the field-wise difference: 1976-11-18 against
   * 1976-10-05 is 0 years, 1 month and 13 days, and against 2019-11-18 it
   * is 43 years.
   */
  lemma DifferenceWithin(d: CivilDate, other: map<Shared.Field, int>, one: Shared.YearMonthDay, two: Shared.YearMonthDay)
    requires (one, two) == SortPair(Shared.YearMonthDay(d.year, d.month, d.day), OtherOf(other))
    requires 1 <= one.month <= two.month <= 12 && 1 <= d.month <= 12
    requires 0 <= two.day - one.day <= Shared.Dim(one.year, one.month) && two.day - one.day <= Shared.Dim(d.year, d.month)
    ensures DifferenceSpec(d, other)
      == Ok(Durations.Duration(Some(two.year - one.year), Some(two.month - one.month), two.day - one.day, 0, 0, 0, 0, 0, 0))
  {
    SortedPair(Shared.YearMonthDay(d.year, d.month, d.day), OtherOf(other), one, two);
    CastOfWithin(d, one, two);
  }

  /** castDuration of the borrowed fields of an ordered pair that needs no borrow, with days within the receiver's month. */
  lemma CastOfWithin(d: CivilDate, one: Shared.YearMonthDay, two: Shared.YearMonthDay)
    requires one.year <= two.year && 1 <= one.month <= two.month <= 12 && 1 <= d.month <= 12
    requires 0 <= two.day - one.day <= Shared.Dim(one.year, one.month) && two.day - one.day <= Shared.Dim(d.year, d.month)
    ensures Durations.CastDurationOf(BorrowedLike(DifferenceOf(one, two)), Some(BaseOf(d)))
      == Ok(Durations.Duration(Some(two.year - one.year), Some(two.month - one.month), two.day - one.day, 0, 0, 0, 0, 0, 0))
  {
    DifferenceOfWithin(one, two);
    CastWithin(d, two.year - one.year, two.month - one.month, two.day - one.day);
  }

  /** The sorted pair is in order, so its year difference is not negative. */
  lemma SortedPair(a: Shared.YearMonthDay, b: Shared.YearMonthDay, one: Shared.YearMonthDay, two: Shared.YearMonthDay)
    requires (one, two) == SortPair(a, b)
    ensures one.year <= two.year
  {
    SortPairSymmetric(a, b);
  }

  /** castDuration of borrowed years and months that need no fold and days within the receiver's month. */
  lemma CastWithin(d: CivilDate, years: int, months: int, days: int)
    requires 1 <= d.month <= 12 && years >= 0 && 0 <= months <= 12 && 0 <= days <= Shared.Dim(d.year, d.month)
    ensures Durations.CastDurationOf(BorrowedLike(Borrowed(years, months, Fin(days))), Some(BaseOf(d)))
      == Ok(Durations.Duration(Some(years), Some(months), days, 0, 0, 0, 0, 0, 0))
  {
    var like := BorrowedLike(Borrowed(years, months, Fin(days)));
    assert Durations.FoldStopsAt(Fin(d.year), d.month, Durations.AbsOr0(like.f.days));
    Durations.CastDateOnlyWithin(like, Some(BaseOf(d)));
  }

  /** `date.difference(other)`: the sort, the four loops, then castDuration. */
  method Difference(d: CivilDate, other: map<Shared.Field, int>) returns (r: Result<Durations.Duration>)
    ensures r == DifferenceSpec(d, other)
  {
    var p := SortPair(Shared.YearMonthDay(d.year, d.month, d.day), OtherOf(other));
    var one, two := p.0, p.1;
    var days, month, months := BorrowLoop(one.year, one.month, two.day - one.day, two.month - one.month);
    if days.Fin? {
      var n;
      n, month, months := CarryLoop(one.year, month, days.v, months);
      days := Fin(n);
    }
    var years;
    years, months := BalanceLoops(two.year - one.year, months);
    assert Borrowed(years, months, days) == DifferenceOf(one, two);
    r := Durations.CastDuration(BorrowedLike(Borrowed(years, months, days)), Some(BaseOf(d)));
  }

  /** The first loop of difference: `while (days < 0)` borrowing the cursor month's length. */
  method BorrowLoop(year: int, month0: int, days0: int, months0: int) returns (days: Num, month: int, months: int)
    ensures (days, month, months) == BorrowDays(year, month0, days0, months0)
  {
    days, month, months := Fin(days0), month0, months0;
    ghost var b := BorrowDays(year, month0, days0, months0);
    while Less(days, Fin(0))
      invariant days.Fin? && days.v < 0 ==> BorrowDays(year, month, days.v, months) == b
      invariant !(days.Fin? && days.v < 0) ==> b == (days, month, months)
      decreases if days.Fin? && days.v < 0 then (if month >= 1 then month + 1 else 1) else 0
    {
      days := Add(days, Shared.DaysInMonth(year, month));
      month := month - 1;
      months := months - 1;
    }
  }

  /** The second loop of difference: `while (days > daysInMonth(year, month))`. */
  method CarryLoop(year: int, month0: int, days0: int, months0: int) returns (days: int, month: int, months: int)
    ensures (days, month, months) == CarryDays(year, month0, days0, months0)
  {
    days, month, months := days0, month0, months0;
    while Less(Shared.DaysInMonth(year, month), Fin(days))
      invariant CarryDays(year, month, days, months) == CarryDays(year, month0, days0, months0)
      decreases 13 - month
    {
      days := days - Shared.DaysInMonth(year, month).v;
      month := month + 1;
      months := months + 1;
    }
  }

  /** The two month loops of difference: `while (months < 0)` and `while (months > 12)`. */
  method BalanceLoops(years0: int, months0: int) returns (years: int, months: int)
    ensures (years, months) == BalanceMonths(years0, months0)
  {
    years, months := years0, months0;
    while months < 0
      invariant 12 * years + months == 12 * years0 + months0
      invariant months0 < 0 ==> months <= 11
      invariant months0 >= 0 ==> months == months0 && years == years0
      decreases -months
    {
      months := months + 12;
      years := years - 1;
    }
    while months > 12
      invariant 12 * years + months == 12 * years0 + months0 && months >= 0
      invariant months0 < 0 ==> months <= 11
      invariant 0 <= months0 <= 12 ==> months == months0
      invariant months0 > 12 ==> months >= 1
      decreases months
    {
      months := months - 12;
      years := years + 1;
    }
    BalanceMonthsUnique(years0, months0, years, months);
  }

  /** The month balance has one result in 0..12 when the input is negative or above 12, or is the input itself. */
  lemma BalanceMonthsUnique(years0: int, months0: int, years: int, months: int)
    requires 12 * years + months == 12 * years0 + months0
    requires months0 < 0 ==> 0 <= months <= 11
    requires months0 > 12 ==> 1 <= months <= 12
    requires 0 <= months0 <= 12 ==> months == months0
    ensures (years, months) == BalanceMonths(years0, months0)
  {
    var r := BalanceMonths(years0, months0);
    if months0 < 0 {
      DivModUnique(12 * years0 + months0, 12, years, months);
      DivModUnique(12 * years0 + months0, 12, r.0, r.1);
    } else if months0 > 12 {
      DivModUnique(12 * years0 + months0 - 1, 12, years, months - 1);
      DivModUnique(12 * years0 + months0 - 1, 12, r.0, r.1 - 1);
    }
  }

  // ---------------------------------------------------------------------------
  // toString / fromString

  /** `date.toString()`: signed year of at least four digits, then two-digit month and day. */
  function ToString(d: CivilDate): string
  {
    Shared.SignedPad(d.year, 4) + "-" + Shared.Pad(d.month, 2) + "-" + Shared.Pad(d.day, 2)
  }

  /**
   * `parseISO(isoStr)`: the regular expression
   * `^([+-]?\d{4}\d*)-(0[1-9]|1[0-2])-(0[1-9]|[12][0-9]|3[01])$`, Error when
   * it does not match. Its month and day parts have fixed width, so the
   * string ends in "-MM-DD" and everything before is the year.
   */
  function ParseISO(s: string): (r: Result<Shared.YearMonthDay>)
    ensures r.Ok? ==> 1 <= r.value.month <= 12 && 1 <= r.value.day <= 31
    ensures r.Throw? ==> r.exc == Error
  {
    if |s| < 10 then Throw(Error)
    else
      var n := |s|;
      var year := Iso.SignedYear(s[..n - 6]);
      var month := Iso.Digits(s[n - 5..n - 3], 2, 1, 12);
      var day := Iso.Digits(s[n - 2..], 2, 1, 31);
      if s[n - 6] == '-' && s[n - 3] == '-' && year.Some? && month.Some? && day.Some? then
        Ok(Shared.YearMonthDay(year.value, month.value, day.value))
      else Throw(Error)
  }

  /** `CivilDate.fromString(isoString)` */
  function FromString(s: string): Result<CivilDate>
  {
    var ymd :- ParseISO(s);
    NewCivilDate(Fin(ymd.year), Fin(ymd.month), Fin(ymd.day))
  }

  /** A string of the shape `Y-MM-DD` splits at its last two dashes. */
  lemma ParseISOOfParts(y: string, mm: string, dd: string)
    requires |y| >= 4 && |mm| == 2 && |dd| == 2
    ensures var year := Iso.SignedYear(y);
      var month := Iso.Digits(mm, 2, 1, 12);
      var day := Iso.Digits(dd, 2, 1, 31);
      ParseISO(y + "-" + mm + "-" + dd)
        == if year.Some? && month.Some? && day.Some? then Ok(Shared.YearMonthDay(year.value, month.value, day.value))
           else Throw(Error)
  {
    var s := y + "-" + mm + "-" + dd;
    var n := |s|;
    assert s[..n - 6] == y && s[n - 5..n - 3] == mm && s[n - 2..] == dd;
    assert s[n - 6] == '-' && s[n - 3] == '-';
  }

  /** The printed date parses back to its year, month and day, for every year and for days up to 31. */
  lemma ParseOfToString(d: CivilDate)
    requires 1 <= d.month <= 12 && 1 <= d.day <= 31
    ensures ParseISO(ToString(d)) == Ok(Shared.YearMonthDay(d.year, d.month, d.day))
  {
    Iso.Pow10Small();
    Iso.DigitsOfPad(d.month, 2, 1, 12);
    Iso.DigitsOfPad(d.day, 2, 1, 31);
    Iso.SignedYearOfSignedPad(d.year);
    ParseISOOfParts(Shared.SignedPad(d.year, 4), Shared.Pad(d.month, 2), Shared.Pad(d.day, 2));
  }

  /** A constructed date with a day up to 31 survives toString and fromString. */
  lemma FromStringOfToString(d: CivilDate)
    requires Recorded(d) && d.day <= 31
    ensures FromString(ToString(d)) == Ok(d)
  {
    ParseOfToString(d);
  }

  /**
   * A recorded day above 31 (getDateInfo bounds the day by testing the
   * month) does not survive: toString prints it, and parseISO's day part
   * admits no more than 31, so fromString throws.
   */
  lemma FromStringOfToStringDayAbove31(d: CivilDate)
    requires Recorded(d) && d.day > 31
    ensures FromString(ToString(d)) == Throw(Error)
  {
    ParseISODayAbove31(Shared.SignedPad(d.year, 4) + "-" + Shared.Pad(d.month, 2), Shared.Pad(d.day, 2));
  }

  /** Whatever comes before it, a last dash followed by digits worth more than 31 is no date string. */
  lemma ParseISODayAbove31(head: string, dd: string)
    requires |dd| >= 2 && Text.IsDigits(dd) && Text.Value(dd) > 31
    ensures ParseISO(head + "-" + dd) == Throw(Error)
  {
    var s := head + "-" + dd;
    var n := |s|;
    if n >= 10 {
      assert s[n - |dd|..] == dd;
      if |dd| == 2 {
        assert s[n - 2..] == dd;
      } else {
        assert s[n - 3] == dd[|dd| - 3] && Text.IsDigit(dd[|dd| - 3]);
      }
    }
  }

  lemma Value010583()
    ensures Text.IsDigits("010583") && Text.Value("010583") == 10583
  {
    assert "010583"[..5] == "01058" && "01058"[..4] == "0105" && "0105"[..3] == "010";
    assert "010"[..2] == "01" && "01"[..1] == "0" && "0"[..0] == "";
  }

  lemma Value000333()
    ensures Text.IsDigits("000333") && Text.Value("000333") == 333
  {
    assert "000333"[..5] == "00033" && "00033"[..4] == "0003" && "0003"[..3] == "000";
    assert "000"[..2] == "00" && "00"[..1] == "0" && "0"[..0] == "";
  }

  lemma Value2(s: string)
    requires |s| == 2 && Text.IsDigit(s[0]) && Text.IsDigit(s[1])
    ensures Text.IsDigits(s) && Text.Value(s) == 10 * Text.DigitValue(s[0]) + Text.DigitValue(s[1])
  {
    assert Text.IsDigit(s[..1][0]) && s[..1][..0] == [];
    assert Text.Value(s[..1]) == Text.DigitValue(s[0]);
  }

  /** An extended year with a plus sign, from the polyfill's tests. */
  lemma ParsePlusExtendedYear()
    ensures ParseISO("+010583-06-30") == Ok(Shared.YearMonthDay(10583, 6, 30))
  {
    assert Iso.SignedYear("+010583") == Some(10583) by {
      Value010583();
      assert "+010583"[1..] == "010583";
    }
    JuneThirtieth();
    ParseOfFields("+010583", "06", "30", "+010583-06-30", 10583, 6, 30);
  }

  /** A negative extended year, from the polyfill's tests. */
  lemma ParseMinusExtendedYear()
    ensures ParseISO("-000333-06-30") == Ok(Shared.YearMonthDay(-333, 6, 30))
  {
    assert Iso.SignedYear("-000333") == Some(-333) by {
      Value000333();
      assert "-000333"[1..] == "000333";
    }
    JuneThirtieth();
    ParseOfFields("-000333", "06", "30", "-000333-06-30", -333, 6, 30);
  }

  /** The month and day parts of both extended-year examples. */
  lemma JuneThirtieth()
    ensures Iso.Digits("06", 2, 1, 12) == Some(6) && Iso.Digits("30", 2, 1, 31) == Some(30)
  {
    Value2("06");
    Value2("30");
  }

  /** A date string whose three parts each read back parses as those three numbers. */
  lemma ParseOfFields(y: string, mm: string, dd: string, s: string, year: int, month: int, day: int)
    requires |y| >= 4 && |mm| == 2 && |dd| == 2 && s == y + "-" + mm + "-" + dd
    requires Iso.SignedYear(y) == Some(year) && Iso.Digits(mm, 2, 1, 12) == Some(month) && Iso.Digits(dd, 2, 1, 31) == Some(day)
    ensures ParseISO(s) == Ok(Shared.YearMonthDay(year, month, day))
  {
    ParseISOOfParts(y, mm, dd);
  }

  /** A thirteenth month does not match the pattern. */
  lemma ParseRejectsMonth13()
    ensures ParseISO("1976-13-01") == Throw(Error)
  {
    Value2("13");
    ParseISOOfParts("1976", "13", "01");
    assert "1976" + "-" + "13" + "-" + "01" == "1976-13-01";
  }
}
