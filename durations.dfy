/**
 * lib/duration.mjs: the `Duration` value, which cannot be constructed
 * directly, and `castDuration`, which turns a duration-like object into one:
 * absolute values, a carry from nanoseconds up to days, and, against a base
 * date, a fold of surplus days into months and of surplus months into years.
 */
module Durations {
  import opened Js
  import Shared

  /** The DATA record of a Duration; `years`/`months` are undefined unless days were folded against a base. */
  datatype Duration = Duration(years: Option<int>, months: Option<int>, days: int, hours: int, minutes: int,
                               seconds: int, milliseconds: int, microseconds: int, nanoseconds: int)

  /** The nine properties of a duration-like object; NaN stands for any non-finite value, `undefined` included. */
  datatype DurationFields = DurationFields(years: Num, months: Num, days: Num, hours: Num, minutes: Num,
                                           seconds: Num, milliseconds: Num, microseconds: Num, nanoseconds: Num)

  /** What castDuration is handed: an existing Duration instance, or any other object. */
  datatype DurationLike = Instance(d: Duration) | Like(f: DurationFields)

  /** The `{ year, month }` read from the base; NaN again for a non-finite or missing value. */
  datatype Base = Base(year: Num, month: Num)

  /** `new Duration()` always throws. */
  function NewDuration(): (r: Result<Duration>)
    ensures r.Throw? && r.exc == TypeError
  {
    Throw(TypeError)
  }

  /** `Number.isFinite(x) ? Math.abs(x) : 0` */
  function AbsOr0(x: Num): nat
  {
    if x.Fin? then Abs(x.v) else 0
  }

  /** The weighted total, in nanoseconds, of the absolute values of days down to nanoseconds. */
  function InputTotal(f: DurationFields): nat
  {
    AbsOr0(f.days) * Shared.NsPerDay
      + Shared.TimeNs(AbsOr0(f.hours), AbsOr0(f.minutes), AbsOr0(f.seconds),
                      AbsOr0(f.milliseconds), AbsOr0(f.microseconds), AbsOr0(f.nanoseconds))
  }

  /** The components `calculate` destructures from a Duration, undefined years and months defaulting to 0. */
  function DeltaOf(dur: Duration): Shared.Delta
  {
    Shared.Delta(if dur.years.Some? then dur.years.value else 0, if dur.months.Some? then dur.months.value else 0,
                 dur.days, dur.hours, dur.minutes, dur.seconds, dur.milliseconds, dur.microseconds, dur.nanoseconds)
  }

  /** The carried time-of-day components are each below their unit's radix. */
  predicate TimeInRange(d: Duration)
  {
    && 0 <= d.hours < 24 && 0 <= d.minutes < 60 && 0 <= d.seconds < 60
    && 0 <= d.milliseconds < 1000 && 0 <= d.microseconds < 1000 && 0 <= d.nanoseconds < 1000
  }

  function SubDayNs(d: Duration): int
  {
    Shared.TimeNs(d.hours, d.minutes, d.seconds, d.milliseconds, d.microseconds, d.nanoseconds)
  }

  /** `daysInMonth(year, month)`; a non-finite year is never a leap year, so it reads the common-year table. */
  function MonthLength(year: Num, month: int): (r: Num)
    ensures r.Fin? <==> 1 <= month <= 12
    ensures r.Fin? ==> 28 <= r.v <= 31
  {
    var y := if year.Fin? then year.v else 1;
    var n := Shared.DaysInMonth(y, month);
    assert n.Fin? ==> n.v == Shared.Dim(y, month);
    n
  }

  /** The fold's cursor step: the next month, wrapping to January with `year = year && (year + 1)`. */
  function NextMonth(year: Num, month: int): (Num, int)
  {
    if month + 1 > 12 then (if year.Fin? && year.v != 0 then Fin(year.v + 1) else year, 1)
    else (year, month + 1)
  }

  /** The cursor after k steps. */
  function Walk(year: Num, month: int, k: nat): (Num, int)
    decreases k
  {
    if k == 0 then (year, month)
    else var c := NextMonth(year, month); Walk(c.0, c.1, k - 1)
  }

  /** The lengths of the k months the cursor passes over, starting at (year, month). */
  function WalkedDays(year: Num, month: int, k: nat): int
    decreases k
  {
    if k == 0 then 0
    else
      var n := MonthLength(year, month);
      var c := NextMonth(year, month);
      (if n.Fin? then n.v else 0) + WalkedDays(c.0, c.1, k - 1)
  }

  /** Whether the fold stops at the cursor with `days` left: `days > daysInMonth(year, month)` is false. */
  predicate FoldStopsAt(year: Num, month: int, days: int)
  {
    var n := MonthLength(year, month);
    !(n.Fin? && days > n.v)
  }

  /**
   * The fold of days into months: the number of months moved and the days
   * left, stepping the cursor while the days exceed the cursor month's length.
   */
  function Fold(year: Num, month: int, days: int): (r: (nat, int))
    decreases days
  {
    var n := MonthLength(year, month);
    if n.Fin? && days > n.v then
      var c := NextMonth(year, month);
      var rest := Fold(c.0, c.1, days - n.v);
      (rest.0 + 1, rest.1)
    else (0, days)
  }

  /**
   * The days Fold moves are exactly the lengths of the months passed, and
   * the fold stops at a month not shorter than the days left (or at a month
   * number outside 1..12, whose length is undefined).
   */
  lemma {:induction false} FoldProperties(year: Num, month: int, days: int)
    ensures var r := Fold(year, month, days);
      && days == r.1 + WalkedDays(year, month, r.0)
      && (days >= 0 ==> r.1 >= 0)
      && (var c := Walk(year, month, r.0); FoldStopsAt(c.0, c.1, r.1))
    decreases days
  {
    var n := MonthLength(year, month);
    if n.Fin? && days > n.v {
      var c := NextMonth(year, month);
      FoldProperties(c.0, c.1, days - n.v);
    }
  }

  /** The fold stops at the FIRST such month: at every month it passed, the days then left exceeded its length. */
  lemma {:induction false} FoldStopsFirst(year: Num, month: int, days: int, j: nat)
    requires j < Fold(year, month, days).0
    ensures var c := Walk(year, month, j); !FoldStopsAt(c.0, c.1, days - WalkedDays(year, month, j))
    decreases j
  {
    var n := MonthLength(year, month);
    var c := NextMonth(year, month);
    if j > 0 {
      FoldStopsFirst(c.0, c.1, days - n.v, j - 1);
      assert Walk(year, month, j) == Walk(c.0, c.1, j - 1);
      assert WalkedDays(year, month, j) == n.v + WalkedDays(c.0, c.1, j - 1);
    }
  }

  /** A day count that fits the cursor month folds nothing. */
  lemma FoldWithin(year: Num, month: int, days: int)
    requires FoldStopsAt(year, month, days)
    ensures Fold(year, month, days) == (0, days)
  {
  }

  /** castDuration folds only when given a base and a finite years or months. */
  predicate Folds(f: DurationFields, base: Option<Base>)
  {
    base.Some? && (f.months.Fin? || f.years.Fin?)
  }

  /** The absolute values of days down to nanoseconds, as Shared's nine fields with year and month 0. */
  function AbsFields(f: DurationFields): Shared.Fields
  {
    Shared.Fields(0, 0, AbsOr0(f.days), AbsOr0(f.hours), AbsOr0(f.minutes), AbsOr0(f.seconds),
                  AbsOr0(f.milliseconds), AbsOr0(f.microseconds), AbsOr0(f.nanoseconds))
  }

  /**
   * What `castDuration(durationLike, base)` returns. A Duration instance
   * comes back as it is. Otherwise the absolute values carry from
   * nanoseconds up to days exactly as calculate's time carries do (for
   * non-negative values the floored quotients agree). Without a fold years
   * and months are undefined. With a fold, a non-finite base month throws
   * Error; otherwise days are folded into months against the base, and then
   * months above 12 into years.
   */
  function CastDurationOf(like: DurationLike, base: Option<Base>): (r: Result<Duration>)
  {
    if like.Instance? then Ok(like.d)
    else
      var f := like.f;
      var c := Shared.CarryTime(AbsFields(f));
      if !Folds(f, base) then
        Ok(Duration(None, None, c.day, c.hour, c.minute, c.second, c.millisecond, c.microsecond, c.nanosecond))
      else if !base.value.month.Fin? then Throw(Error)
      else
        var fd := Fold(base.value.year, base.value.month.v, c.day);
        var m := AbsOr0(f.months) + fd.0;
        var y := AbsOr0(f.years);
        var ym := FoldYears(y, m);
        Ok(Duration(Some(ym.0), Some(ym.1), fd.1, c.hour, c.minute, c.second, c.millisecond, c.microsecond, c.nanosecond))
  }

  /** Months above 12 folded into years: twelve months at a time, leaving a month count in 1..12. */
  function FoldYears(years: int, months: int): (r: (int, int))
    ensures 12 * r.0 + r.1 == 12 * years + months
    ensures months <= 12 ==> r == (years, months)
    ensures months > 12 ==> 1 <= r.1 <= 12
  {
    if months <= 12 then (years, months) else (years + (months - 1) / 12, (months - 1) % 12 + 1)
  }

  /** `castDuration(durationLike, base)`: the carry chain, then the two fold loops. */
  method CastDuration(like: DurationLike, base: Option<Base>) returns (r: Result<Duration>)
    ensures r == CastDurationOf(like, base)
  {
    if like.Instance? {
      return Ok(like.d);
    }
    var f := like.f;
    var years: Option<int> := if f.years.Fin? then Some(Abs(f.years.v)) else None;
    var months: Option<int> := if f.months.Fin? then Some(Abs(f.months.v)) else None;
    var c := CarryAbsolute(f);
    var days := c.day;
    if base.Some? && (months.Some? || years.Some?) {
      var y := if years.Some? then years.value else 0;
      var m := if months.Some? then months.value else 0;
      var year, month := base.value.year, base.value.month;
      if !month.Fin? {
        return Throw(Error);
      }
      assert y == AbsOr0(f.years) && m == AbsOr0(f.months);
      ghost var m0 := m;
      days, m := FoldDays(year, month.v, days, m);
      ghost var fd := Fold(year, month.v, c.day);
      assert days == fd.1 && m == m0 + fd.0;
      y, m := FoldMonths(y, m);
      years, months := Some(y), Some(m);
      FoldedCast(like, base, c, fd, (y, m));
    } else {
      years, months := None, None;
    }
    r := Ok(Duration(years, months, days, c.hour, c.minute, c.second, c.millisecond, c.microsecond, c.nanosecond));
  }

  lemma FoldedCast(like: DurationLike, base: Option<Base>, c: Shared.Fields, fd: (nat, int), ym: (int, int))
    requires like.Like? && Folds(like.f, base) && base.value.month.Fin?
    requires c == Shared.CarryTime(AbsFields(like.f))
    requires fd == Fold(base.value.year, base.value.month.v, c.day)
    requires ym == FoldYears(AbsOr0(like.f.years), AbsOr0(like.f.months) + fd.0)
    ensures CastDurationOf(like, base)
      == Ok(Duration(Some(ym.0), Some(ym.1), fd.1, c.hour, c.minute, c.second, c.millisecond, c.microsecond, c.nanosecond))
  {
  }

  /** Only years and months: nothing to carry and no day to fold, so castDuration only folds months into years. */
  lemma CastYearsMonthsOnly(like: DurationLike, base: Option<Base>)
    requires like.Like? && Folds(like.f, base) && base.value.month.Fin?
    requires AbsOr0(like.f.days) == AbsOr0(like.f.hours) == AbsOr0(like.f.minutes) == AbsOr0(like.f.seconds) == 0
    requires AbsOr0(like.f.milliseconds) == AbsOr0(like.f.microseconds) == AbsOr0(like.f.nanoseconds) == 0
    ensures var ym := FoldYears(AbsOr0(like.f.years), AbsOr0(like.f.months));
      CastDurationOf(like, base) == Ok(Duration(Some(ym.0), Some(ym.1), 0, 0, 0, 0, 0, 0, 0))
  {
    var g := AbsFields(like.f);
    Shared.CarryTimeOfDate(g);
    FoldWithin(base.value.year, base.value.month.v, 0);
    FoldedCast(like, base, g, (0, 0), FoldYears(AbsOr0(like.f.years), AbsOr0(like.f.months) + 0));
  }

  /** Years, months and days that do not reach past the base month's length: nothing carries or folds but months into years. */
  lemma CastDateOnlyWithin(like: DurationLike, base: Option<Base>)
    requires like.Like? && Folds(like.f, base) && base.value.month.Fin?
    requires FoldStopsAt(base.value.year, base.value.month.v, AbsOr0(like.f.days))
    requires AbsOr0(like.f.hours) == AbsOr0(like.f.minutes) == AbsOr0(like.f.seconds) == 0
    requires AbsOr0(like.f.milliseconds) == AbsOr0(like.f.microseconds) == AbsOr0(like.f.nanoseconds) == 0
    ensures var ym := FoldYears(AbsOr0(like.f.years), AbsOr0(like.f.months));
      CastDurationOf(like, base) == Ok(Duration(Some(ym.0), Some(ym.1), AbsOr0(like.f.days), 0, 0, 0, 0, 0, 0))
  {
    var g := AbsFields(like.f);
    Shared.CarryTimeOfDate(g);
    var n := AbsOr0(like.f.days);
    FoldWithin(base.value.year, base.value.month.v, n);
    FoldedCast(like, base, g, (0, n), FoldYears(AbsOr0(like.f.years), AbsOr0(like.f.months) + 0));
  }

  /**
   * Components already in range: nothing carries, no days fold, and
   * castDuration returns the absolute values with months folded into years.
   */
  lemma CastClockWithin(like: DurationLike, base: Option<Base>)
    requires like.Like? && Folds(like.f, base) && base.value.month.Fin?
    requires FoldStopsAt(base.value.year, base.value.month.v, AbsOr0(like.f.days))
    requires Shared.ClockValid(AbsOr0(like.f.hours), AbsOr0(like.f.minutes), AbsOr0(like.f.seconds),
                               AbsOr0(like.f.milliseconds), AbsOr0(like.f.microseconds), AbsOr0(like.f.nanoseconds))
    ensures var ym := FoldYears(AbsOr0(like.f.years), AbsOr0(like.f.months));
      CastDurationOf(like, base) == Ok(Duration(Some(ym.0), Some(ym.1), AbsOr0(like.f.days),
                                                AbsOr0(like.f.hours), AbsOr0(like.f.minutes), AbsOr0(like.f.seconds),
                                                AbsOr0(like.f.milliseconds), AbsOr0(like.f.microseconds), AbsOr0(like.f.nanoseconds)))
  {
    var g := AbsFields(like.f);
    Shared.CarryTimeOfClock(g);
    var n := AbsOr0(like.f.days);
    FoldWithin(base.value.year, base.value.month.v, n);
    FoldedCast(like, base, g, (0, n), FoldYears(AbsOr0(like.f.years), AbsOr0(like.f.months) + 0));
  }

  /** The carry chain of castDuration over the absolute values, from nanoseconds up to days. */
  method CarryAbsolute(f: DurationFields) returns (c: Shared.Fields)
    ensures c == Shared.CarryTime(AbsFields(f))
  {
    var days := AbsOr0(f.days);
    var hours := AbsOr0(f.hours);
    var minutes := AbsOr0(f.minutes);
    var seconds := AbsOr0(f.seconds);
    var milliseconds := AbsOr0(f.milliseconds);
    var microseconds := AbsOr0(f.microseconds);
    var nanoseconds := AbsOr0(f.nanoseconds);
    microseconds := microseconds + nanoseconds / 1000;
    nanoseconds := nanoseconds % 1000;
    milliseconds := milliseconds + microseconds / 1000;
    microseconds := microseconds % 1000;
    seconds := seconds + milliseconds / 1000;
    milliseconds := milliseconds % 1000;
    minutes := minutes + seconds / 60;
    seconds := seconds % 60;
    hours := hours + minutes / 60;
    minutes := minutes % 60;
    days := days + hours / 24;
    hours := hours % 24;
    c := Shared.Fields(0, 0, days, hours, minutes, seconds, milliseconds, microseconds, nanoseconds);
  }

  /**
   * Every component of a cast duration is non-negative and the time
   * components are within their radix. Without a fold, years and months are
   * undefined even if only one was given, and the days and time keep the
   * weighted total of the absolute inputs. With a fold, the days moved are
   * the lengths of the months walked from the base, months end at most 12,
   * and years * 12 + months grows by exactly the months moved.
   */
  lemma CastDurationProperties(like: DurationLike, base: Option<Base>)
    requires like.Like?
    ensures var r := CastDurationOf(like, base);
      && (r.Throw? <==> Folds(like.f, base) && !base.value.month.Fin?)
      && (r.Throw? ==> r.exc == Error)
      && (r.Ok? ==> TimeInRange(r.value) && r.value.days >= 0)
    ensures var r := CastDurationOf(like, base);
      r.Ok? && !Folds(like.f, base) ==>
        && r.value.years.None? && r.value.months.None?
        && r.value.days * Shared.NsPerDay + SubDayNs(r.value) == InputTotal(like.f)
    ensures var r := CastDurationOf(like, base);
      r.Ok? && Folds(like.f, base) ==>
        var c := Shared.CarryTime(AbsFields(like.f));
        var fd := Fold(base.value.year, base.value.month.v, c.day);
        && c.day * Shared.NsPerDay + SubDayNs(r.value) == InputTotal(like.f)
        && r.value.days + WalkedDays(base.value.year, base.value.month.v, fd.0) == c.day
        && r.value.years.Some? && r.value.months.Some?
        && 0 <= r.value.months.value <= 12
        && 12 * r.value.years.value + r.value.months.value == 12 * AbsOr0(like.f.years) + AbsOr0(like.f.months) + fd.0
  {
    var f := like.f;
    var g := AbsFields(f);
    var c := Shared.CarryTime(g);
    Shared.CarryTimeRange(g);
    Shared.CarryTimeConserves(g);
    assert Shared.DayTimeNs(g) == InputTotal(f);
    var r := CastDurationOf(like, base);
    if r.Ok? && Folds(f, base) {
      var fd := Fold(base.value.year, base.value.month.v, c.day);
      FoldProperties(base.value.year, base.value.month.v, c.day);
      var m := AbsOr0(f.months) + fd.0;
      if m > 12 {
        assert m - 1 == 12 * ((m - 1) / 12) + (m - 1) % 12;
      }
    }
  }

  /** castDuration's time components are those of the carried absolute values, whatever the fold does. */
  lemma CastTimeParts(like: DurationLike, base: Option<Base>, c: Shared.Fields)
    requires like.Like? && c == Shared.CarryTime(AbsFields(like.f))
    ensures var r := CastDurationOf(like, base);
      r.Ok? ==> && r.value.hours == c.hour && r.value.minutes == c.minute && r.value.seconds == c.second
                && r.value.milliseconds == c.millisecond && r.value.microseconds == c.microsecond
                && r.value.nanoseconds == c.nanosecond
  {
  }

  /** castDuration reads a duration-like object only through which of years and months are finite and the absolute values. */
  lemma CastOfSameAbs(f: DurationFields, g: DurationFields, base: Option<Base>)
    requires f.years == g.years && f.months == g.months && f.days == g.days
    requires AbsOr0(f.hours) == AbsOr0(g.hours) && AbsOr0(f.minutes) == AbsOr0(g.minutes) && AbsOr0(f.seconds) == AbsOr0(g.seconds)
    requires AbsOr0(f.milliseconds) == AbsOr0(g.milliseconds) && AbsOr0(f.microseconds) == AbsOr0(g.microseconds)
    requires AbsOr0(f.nanoseconds) == AbsOr0(g.nanoseconds)
    ensures CastDurationOf(Like(f), base) == CastDurationOf(Like(g), base)
  {
    assert AbsFields(f) == AbsFields(g);
  }

  /** castDuration's first while loop: days beyond the current month's length become one more month each. */
  method FoldDays(year0: Num, month0: int, days0: int, months0: int) returns (days: int, months: int)
    ensures (months - months0, days) == Fold(year0, month0, days0)
  {
    var year, month := year0, month0;
    days, months := days0, months0;
    while MonthLength(year, month).Fin? && days > MonthLength(year, month).v
      invariant Fold(year0, month0, days0) == (months - months0 + Fold(year, month, days).0, Fold(year, month, days).1)
      invariant months >= months0
      decreases days
    {
      var n := MonthLength(year, month).v;
      days := days - n;
      months := months + 1;
      month := month + 1;
      if month > 12 {
        month := 1;
        year := if year.Fin? && year.v != 0 then Fin(year.v + 1) else year;
      }
    }
  }

  /** castDuration's second while loop: twelve months at a time become a year. */
  method FoldMonths(years0: int, months0: int) returns (years: int, months: int)
    ensures (years, months) == FoldYears(years0, months0)
  {
    years, months := years0, months0;
    while months > 12
      invariant 12 * years + months == 12 * years0 + months0
      invariant months0 <= 12 ==> months == months0 && years == years0
      invariant months0 > 12 ==> 1 <= months
    {
      months := months - 12;
      years := years + 1;
    }
    if months0 > 12 {
      DivModUnique(months0 - 1, 12, years - years0, months - 1);
    }
  }
}
