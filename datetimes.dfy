/**
 * lib/datetime.mjs: `CivilDateTime`, a date and a wall-clock time whose
 * DATA record is getDateInfo's record with the `calculate` result of the
 * time arguments assigned over it, with `with`, `plus`, `minus`,
 * `difference`, `withZone`, `toString`, `fromString`, the ISO parser and
 * `compare`.
 */
module DateTimes {
  import opened Js
  import Text
  import EcmaTime
  import Shared
  import Durations
  import Dates
  import Times
  import Iso

  /**
   * The DATA record of a CivilDateTime. The day is NaN after a January
   * underflow of the constructor's carry; the day of week, day of year and
   * week of year are getDateInfo's, computed before the carry.
   */
  datatype CivilDateTime = CivilDateTime(year: int, month: int, day: Num, hour: int, minute: int, second: int,
                                         millisecond: int, microsecond: int, nanosecond: int,
                                         dayOfWeek: int, dayOfYear: int, weekOfYear: int)

  /** The nine fields of a date-time with a finite day. */
  function FieldsOf(dt: CivilDateTime): Shared.Fields
    requires dt.day.Fin?
  {
    Shared.Fields(dt.year, dt.month, dt.day.v, dt.hour, dt.minute, dt.second, dt.millisecond, dt.microsecond, dt.nanosecond)
  }

  /** A finite day, and every field within its range. */
  predicate Valid(dt: CivilDateTime)
  {
    dt.day.Fin? && Shared.ValidFields(FieldsOf(dt))
  }

  /** The time getters of a date-time. */
  function TimeOf(dt: CivilDateTime): Times.CivilTime
  {
    Times.CivilTime(dt.hour, dt.minute, dt.second, dt.millisecond, dt.microsecond, dt.nanosecond)
  }

  // ---------------------------------------------------------------------------
  // constructor

  /** `Object.assign(data, calculate(...))`: the calculated fields over getDateInfo's record. */
  function Assign(info: Dates.CivilDate, r: Shared.Calculated): CivilDateTime
  {
    CivilDateTime(r.year, r.month, r.day, r.hour, r.minute, r.second, r.millisecond, r.microsecond, r.nanosecond,
                  info.dayOfWeek, info.dayOfYear, info.weekOfYear)
  }

  /**
   * `new CivilDateTime(year, month, day, hours, ...)`: getDateInfo of the
   * date, then `calculate` of that record (which has no time, so its time
   * defaults to 0) with the six time arguments as a delta.
   */
  function NewCivilDateTime(year: Num, month: Num, day: Num, hours: int, minutes: int, seconds: int,
                            milliseconds: int, microseconds: int, nanoseconds: int): Result<CivilDateTime>
  {
    var info :- Dates.GetDateInfo(year, month, day);
    Ok(Assign(info, Shared.CalculateSpec(Dates.DateFields(info),
                                         Times.ClockDelta(hours, minutes, seconds, milliseconds, microseconds, nanoseconds), false)))
  }

  /**
   * The constructor throws Error exactly when getDateInfo rejects the
   * date, and keeps getDateInfo's day of week, day of year and week of
   * year. Every time field ends within its range and the month in 1..12.
   * The day is NaN, without a throw, exactly on a January underflow of the
   * carry (1976-01-01 with hours -24); otherwise all fields are valid and
   * their weighted total is that of the arguments.
   */
  lemma NewSpec(year: Num, month: Num, day: Num, hours: int, minutes: int, seconds: int,
                milliseconds: int, microseconds: int, nanoseconds: int)
    ensures var r := NewCivilDateTime(year, month, day, hours, minutes, seconds, milliseconds, microseconds, nanoseconds);
      var info := Dates.GetDateInfo(year, month, day);
      && (r.Ok? <==> info.Ok?)
      && (r.Throw? ==> r.exc == Error)
      && (r.Ok? ==>
            && r.value.dayOfWeek == info.value.dayOfWeek && r.value.dayOfYear == info.value.dayOfYear
            && r.value.weekOfYear == info.value.weekOfYear
            && Shared.ClockValid(r.value.hour, r.value.minute, r.value.second, r.value.millisecond, r.value.microsecond, r.value.nanosecond)
            && 1 <= r.value.month <= 12
            && (r.value.day.NaN? <==>
                  Shared.JanuaryUnderflow(Dates.DateFields(info.value), Times.ClockDelta(hours, minutes, seconds, milliseconds, microseconds, nanoseconds), false))
            && (r.value.day.Fin? ==>
                  Valid(r.value)
                  && Shared.TotalNs(FieldsOf(r.value))
                     == Shared.TotalNs(Shared.Fields(year.v, month.v, day.v, hours, minutes, seconds, milliseconds, microseconds, nanoseconds))))
  {
    var info := Dates.GetDateInfo(year, month, day);
    if info.Ok? {
      var f := Dates.DateFields(info.value);
      var dl := Times.ClockDelta(hours, minutes, seconds, milliseconds, microseconds, nanoseconds);
      Shared.CalculateRanges(f, dl, false);
      var c := Shared.CalculateSpec(f, dl, false);
      if c.day.Fin? {
        Shared.CalculateConserves(f, dl, false);
        assert Shared.Shifted(f, dl, false)
          == Shared.Fields(year.v, month.v, day.v, hours, minutes, seconds, milliseconds, microseconds, nanoseconds);
      }
    }
  }

  /** Constructing from valid fields gives a date-time with exactly those fields. */
  lemma NewOfValid(f: Shared.Fields)
    requires Shared.ValidFields(f)
    ensures var r := NewCivilDateTime(Fin(f.year), Fin(f.month), Fin(f.day), f.hour, f.minute, f.second,
                                      f.millisecond, f.microsecond, f.nanosecond);
      r.Ok? && r.value.day.Fin? && FieldsOf(r.value) == f
  {
    var r := NewCivilDateTime(Fin(f.year), Fin(f.month), Fin(f.day), f.hour, f.minute, f.second,
                              f.millisecond, f.microsecond, f.nanosecond);
    NewSpec(Fin(f.year), Fin(f.month), Fin(f.day), f.hour, f.minute, f.second, f.millisecond, f.microsecond, f.nanosecond);
    assert r.Ok?;
    Shared.TotalInjective(FieldsOf(r.value), f);
  }

  /** A date-time as the constructor records it from its own fields. */
  predicate Recorded(dt: CivilDateTime)
  {
    NewCivilDateTime(Fin(dt.year), Fin(dt.month), dt.day, dt.hour, dt.minute, dt.second,
                     dt.millisecond, dt.microsecond, dt.nanosecond) == Ok(dt)
  }

  /** A date-time constructed from valid fields is recorded. */
  lemma NewRecorded(f: Shared.Fields)
    requires Shared.ValidFields(f)
    ensures var r := NewCivilDateTime(Fin(f.year), Fin(f.month), Fin(f.day), f.hour, f.minute, f.second,
                                      f.millisecond, f.microsecond, f.nanosecond);
      r.Ok? && Recorded(r.value) && Valid(r.value) && FieldsOf(r.value) == f
  {
    NewOfValid(f);
  }

  // ---------------------------------------------------------------------------
  // with

  /** The properties copyProps reads from a CivilDateTime: its nine field getters. */
  function PropsOf(dt: CivilDateTime): Shared.Props
  {
    map[Shared.Year := Fin(dt.year), Shared.Month := Fin(dt.month), Shared.Day := dt.day,
        Shared.Hour := Fin(dt.hour), Shared.Minute := Fin(dt.minute), Shared.Second := Fin(dt.second),
        Shared.Millisecond := Fin(dt.millisecond), Shared.Microsecond := Fin(dt.microsecond),
        Shared.Nanosecond := Fin(dt.nanosecond)]
  }

  predicate IsTimeField(f: Shared.Field)
  {
    f != Shared.Year && f != Shared.Month && f != Shared.Day
  }

  /** A property bag whose time properties, where defined, are finite numbers. */
  predicate TimeFinite(p: Shared.Props)
  {
    forall f | f in p && IsTimeField(f) :: p[f].Fin?
  }

  /** The argument's property when it defines it, the date-time's otherwise. */
  function Pick(like: Shared.Props, f: Shared.Field, own: Num): Num
  {
    if f in like then like[f] else own
  }

  /** A time property of the argument when it defines it, the date-time's otherwise. */
  function PickTime(like: Shared.Props, f: Shared.Field, own: int): int
    requires TimeFinite(like) && IsTimeField(f)
  {
    if f in like then like[f].v else own
  }

  /** `dateTime.with(dateTimeLike)`: copyProps of the date-time and the argument, then the constructor. */
  function With(dt: CivilDateTime, like: Shared.Props): Result<CivilDateTime>
    requires TimeFinite(like)
  {
    var m := Shared.Merge([PropsOf(dt), like]);
    Shared.MergeTwo(PropsOf(dt), like);
    NewCivilDateTime(m[Shared.Year], m[Shared.Month], m[Shared.Day], m[Shared.Hour].v, m[Shared.Minute].v,
                     m[Shared.Second].v, m[Shared.Millisecond].v, m[Shared.Microsecond].v, m[Shared.Nanosecond].v)
  }

  /** `with` takes each field from the argument when it defines it, and keeps the date-time's otherwise. */
  lemma WithReplaces(dt: CivilDateTime, like: Shared.Props)
    requires TimeFinite(like)
    ensures With(dt, like) == NewCivilDateTime(
      Pick(like, Shared.Year, Fin(dt.year)), Pick(like, Shared.Month, Fin(dt.month)), Pick(like, Shared.Day, dt.day),
      PickTime(like, Shared.Hour, dt.hour), PickTime(like, Shared.Minute, dt.minute), PickTime(like, Shared.Second, dt.second),
      PickTime(like, Shared.Millisecond, dt.millisecond), PickTime(like, Shared.Microsecond, dt.microsecond),
      PickTime(like, Shared.Nanosecond, dt.nanosecond))
  {
    var m := Shared.Merge([PropsOf(dt), like]);
    Shared.MergeTwo(PropsOf(dt), like);
    assert m[Shared.Year] == Pick(like, Shared.Year, Fin(dt.year));
    assert m[Shared.Month] == Pick(like, Shared.Month, Fin(dt.month));
    assert m[Shared.Day] == Pick(like, Shared.Day, dt.day);
    assert m[Shared.Hour].v == PickTime(like, Shared.Hour, dt.hour);
    assert m[Shared.Minute].v == PickTime(like, Shared.Minute, dt.minute);
    assert m[Shared.Second].v == PickTime(like, Shared.Second, dt.second);
    assert m[Shared.Millisecond].v == PickTime(like, Shared.Millisecond, dt.millisecond);
    assert m[Shared.Microsecond].v == PickTime(like, Shared.Microsecond, dt.microsecond);
    assert m[Shared.Nanosecond].v == PickTime(like, Shared.Nanosecond, dt.nanosecond);
  }

  /** A recorded date-time `with` an empty bag is the same date-time. */
  lemma WithNothing(dt: CivilDateTime)
    requires Recorded(dt)
    ensures With(dt, map[]) == Ok(dt)
  {
    WithReplaces(dt, map[]);
  }

  /**
   * `with({month: 5, second: 15})` on 1976-11-18T15:23:30.123456789 gives
   * 1976-05-18T15:23:15.123456789.
   */
  lemma WithExample(dt: CivilDateTime)
    requires dt.day.Fin? && FieldsOf(dt) == Shared.Fields(1976, 11, 18, 15, 23, 30, 123, 456, 789)
    ensures var r := With(dt, map[Shared.Month := Fin(5), Shared.Second := Fin(15)]);
      r.Ok? && r.value.day.Fin? && FieldsOf(r.value) == Shared.Fields(1976, 5, 18, 15, 23, 15, 123, 456, 789)
  {
    var like := map[Shared.Month := Fin(5), Shared.Second := Fin(15)];
    assert Shared.Month in like && Shared.Second in like && like[Shared.Month] == Fin(5) && like[Shared.Second] == Fin(15);
    assert Shared.Year !in like && Shared.Day !in like && Shared.Hour !in like && Shared.Minute !in like;
    assert Shared.Millisecond !in like && Shared.Microsecond !in like && Shared.Nanosecond !in like;
    WithOfPicks(dt, like, Shared.Fields(1976, 5, 18, 15, 23, 15, 123, 456, 789));
  }

  /** `with` gives the picked fields whenever they are valid. */
  lemma WithOfPicks(dt: CivilDateTime, like: Shared.Props, f: Shared.Fields)
    requires TimeFinite(like) && Shared.ValidFields(f)
    requires Pick(like, Shared.Year, Fin(dt.year)) == Fin(f.year) && Pick(like, Shared.Month, Fin(dt.month)) == Fin(f.month)
    requires Pick(like, Shared.Day, dt.day) == Fin(f.day)
    requires PickTime(like, Shared.Hour, dt.hour) == f.hour && PickTime(like, Shared.Minute, dt.minute) == f.minute
    requires PickTime(like, Shared.Second, dt.second) == f.second
    requires PickTime(like, Shared.Millisecond, dt.millisecond) == f.millisecond
    requires PickTime(like, Shared.Microsecond, dt.microsecond) == f.microsecond
    requires PickTime(like, Shared.Nanosecond, dt.nanosecond) == f.nanosecond
    ensures With(dt, like).Ok? && With(dt, like).value.day.Fin? && FieldsOf(With(dt, like).value) == f
  {
    WithReplaces(dt, like);
    NewOfValid(f);
  }

  // ---------------------------------------------------------------------------
  // plus / minus

  /** The date-time as the base of castDuration: its year and month. */
  function BaseOf(dt: CivilDateTime): Durations.Base
  {
    Durations.Base(Fin(dt.year), Fin(dt.month))
  }

  /**
   * calculate applied to the date-time's fields and a cast duration, then
   * the constructor. A NaN day stays NaN through calculate, and getDateInfo
   * then throws.
   */
  function MoveBy(dt: CivilDateTime, dur: Durations.Duration, negate: bool): Result<CivilDateTime>
  {
    if dt.day.NaN? then Throw(Error)
    else
      var r := Shared.CalculateSpec(FieldsOf(dt), Durations.DeltaOf(dur), negate);
      NewCivilDateTime(Fin(r.year), Fin(r.month), r.day, r.hour, r.minute, r.second, r.millisecond, r.microsecond, r.nanosecond)
  }

  /** `plus` (negate false) and `minus` (negate true): castDuration against the date-time, calculate, the constructor. */
  function Move(dt: CivilDateTime, durationLike: Durations.DurationLike, negate: bool): Result<CivilDateTime>
  {
    var dur :- Durations.CastDurationOf(durationLike, Some(BaseOf(dt)));
    MoveBy(dt, dur, negate)
  }

  function Plus(dt: CivilDateTime, durationLike: Durations.DurationLike): Result<CivilDateTime>
  {
    Move(dt, durationLike, false)
  }

  function Minus(dt: CivilDateTime, durationLike: Durations.DurationLike): Result<CivilDateTime>
  {
    Move(dt, durationLike, true)
  }

  /** The constructor applied to a calculate result: Error for a NaN day, the result's own fields otherwise. */
  lemma NewOfCalculated(r: Shared.Calculated)
    requires 1 <= r.month <= 12 && (r.day.Fin? ==> Shared.ValidFields(Shared.FieldsOf(r)))
    ensures var m := NewCivilDateTime(Fin(r.year), Fin(r.month), r.day, r.hour, r.minute, r.second,
                                      r.millisecond, r.microsecond, r.nanosecond);
      && (m.Ok? <==> r.day.Fin?) && (m.Throw? ==> m.exc == Error)
      && (m.Ok? ==> Valid(m.value) && FieldsOf(m.value) == Shared.FieldsOf(r) && Recorded(m.value))
  {
    if r.day.Fin? {
      var f := Shared.FieldsOf(r);
      NewRecorded(f);
      assert Fin(f.day) == r.day;
    }
  }

  /**
   * Moving by a cast duration throws Error exactly on a NaN day or a
   * January underflow of calculate; otherwise the result is valid, it has
   * calculate's fields, and calculate has kept the weighted total of the
   * shifted fields.
   */
  lemma MoveBySpec(dt: CivilDateTime, dur: Durations.Duration, negate: bool, dl: Shared.Delta)
    requires dl == Durations.DeltaOf(dur)
    ensures var m := MoveBy(dt, dur, negate);
      && (m.Ok? <==> dt.day.Fin? && !Shared.JanuaryUnderflow(FieldsOf(dt), dl, negate))
      && (m.Throw? ==> m.exc == Error)
      && (m.Ok? ==>
            var r := Shared.CalculateSpec(FieldsOf(dt), dl, negate);
            && Valid(m.value) && Recorded(m.value) && r.day.Fin? && FieldsOf(m.value) == Shared.FieldsOf(r)
            && Shared.TotalNs(FieldsOf(m.value)) == Shared.TotalNs(Shared.Shifted(FieldsOf(dt), dl, negate)))
  {
    if dt.day.Fin? {
      var r := Shared.CalculateSpec(FieldsOf(dt), dl, negate);
      Shared.CalculateRanges(FieldsOf(dt), dl, negate);
      NewOfCalculated(r);
      if r.day.Fin? {
        Shared.CalculateConserves(FieldsOf(dt), dl, negate);
      }
    }
  }

  /** Two recorded date-times with the same nine fields are the same date-time. */
  lemma RecordedUnique(a: CivilDateTime, b: CivilDateTime)
    requires Recorded(a) && Recorded(b) && a.day.Fin? && b.day.Fin? && FieldsOf(a) == FieldsOf(b)
    ensures a == b
  {
    assert a.day == b.day;
  }

  /** castDuration without a fold ignores its base: no years, no months, and the input's weighted total. */
  lemma CastWithoutFold(like: Durations.DurationLike, base: Durations.Base) returns (dur: Durations.Duration, dl: Shared.Delta)
    requires like.Like? && !like.f.years.Fin? && !like.f.months.Fin?
    ensures Durations.CastDurationOf(like, Some(base)) == Ok(dur) && dl == Durations.DeltaOf(dur)
    ensures dl.years == 0 && dl.months == 0 && Shared.DeltaNs(dl) == Durations.InputTotal(like.f)
  {
    Durations.CastDurationProperties(like, Some(base));
    dur := Durations.CastDurationOf(like, Some(base)).value;
    dl := Durations.DeltaOf(dur);
  }

  /**
   * Without a finite years or months, plus and minus move the date-time's
   * weighted nanosecond total by the absolute values of days down to
   * nanoseconds, forward or back: 1976-11-18T15:23:30.123456789 plus 20
   * hours is 1976-11-19T11:23:30.123456789. The move goes wrong only by
   * a January underflow, which throws Error.
   */
  lemma MoveTimeShift(dt: CivilDateTime, like: Durations.DurationLike, negate: bool)
    requires dt.day.Fin? && like.Like? && !like.f.years.Fin? && !like.f.months.Fin?
    ensures var m := Move(dt, like, negate);
      && (m.Throw? ==> m.exc == Error)
      && (m.Ok? ==> Valid(m.value) && Recorded(m.value)
                    && Shared.TotalNs(FieldsOf(m.value)) == Shared.TotalNs(FieldsOf(dt)) + Shared.Signed(negate, Durations.InputTotal(like.f)))
  {
    var dur, dl := CastWithoutFold(like, BaseOf(dt));
    MoveBySpec(dt, dur, negate, dl);
    Shared.ShiftedTotal(FieldsOf(dt), dl, negate);
  }

  /**
   * minus undoes plus, without a finite years or months, on a recorded
   * valid date-time, whenever neither step underflows out of January.
   */
  lemma PlusMinus(dt: CivilDateTime, like: Durations.DurationLike)
    requires Valid(dt) && Recorded(dt)
    requires like.Like? && !like.f.years.Fin? && !like.f.months.Fin?
    requires Plus(dt, like).Ok? && Minus(Plus(dt, like).value, like).Ok?
    ensures Minus(Plus(dt, like).value, like) == Ok(dt)
  {
    var dur, dl := CastWithoutFold(like, BaseOf(dt));
    var p := Plus(dt, like).value;
    var dur', dl' := CastWithoutFold(like, BaseOf(p));
    assert dur' == dur;
    MoveBySpec(dt, dur, false, dl);
    MoveBySpec(p, dur, true, dl);
    Shared.CalculateUndo(FieldsOf(dt), dl);
    RecordedUnique(Minus(p, like).value, dt);
  }

  /** The date part of a date-time with a finite day, as a CivilDate. */
  function DateOf(dt: CivilDateTime): Dates.CivilDate
    requires dt.day.Fin?
  {
    Dates.CivilDate(dt.year, dt.month, dt.day.v, dt.dayOfWeek, dt.dayOfYear, dt.weekOfYear)
  }

  /** castDuration of an object without time: a duration without time. */
  lemma CastWithoutTime(like: Durations.DurationLike, base: Option<Durations.Base>)
    requires like.Like?
    requires Durations.AbsOr0(like.f.hours) == Durations.AbsOr0(like.f.minutes) == Durations.AbsOr0(like.f.seconds) == 0
    requires Durations.AbsOr0(like.f.milliseconds) == Durations.AbsOr0(like.f.microseconds) == Durations.AbsOr0(like.f.nanoseconds) == 0
    ensures var r := Durations.CastDurationOf(like, base);
      r.Ok? ==> r.value.hours == r.value.minutes == r.value.seconds == 0
                && r.value.milliseconds == r.value.microseconds == r.value.nanoseconds == 0
  {
    var a := Durations.AbsFields(like.f);
    assert a.hour == a.minute == a.second == a.millisecond == a.microsecond == a.nanosecond == 0;
    Shared.CarryTimeOfDate(a);
    var c := Shared.CarryTime(a);
    assert c.hour == c.minute == c.second == c.millisecond == c.microsecond == c.nanosecond == 0;
    Durations.CastTimeParts(like, base, c);
  }

  /**
   * With a duration-like object that has no time, plus and minus move the
   * date exactly as CivilDate's do and keep the clock: on
   * 1976-11-18T15:23:30.123456789, minus 20 days is 1976-10-29 and minus 13
   * months 1975-10-18, each at 15:23:30.123456789 (see
   * Dates.MoveDaysShifts and Dates.MoveYearsMonthsKeepsDay).
   */
  lemma MoveDateOnly(dt: CivilDateTime, like: Durations.DurationLike, negate: bool)
    requires Valid(dt) && like.Like?
    requires Durations.AbsOr0(like.f.hours) == Durations.AbsOr0(like.f.minutes) == Durations.AbsOr0(like.f.seconds) == 0
    requires Durations.AbsOr0(like.f.milliseconds) == Durations.AbsOr0(like.f.microseconds) == Durations.AbsOr0(like.f.nanoseconds) == 0
    ensures var m := Move(dt, like, negate);
      var d := Dates.Move(DateOf(dt), like, negate);
      && (m.Ok? <==> d.Ok?)
      && (m.Ok? ==> m.value.year == d.value.year && m.value.month == d.value.month && m.value.day == Fin(d.value.day)
                    && TimeOf(m.value) == TimeOf(dt))
  {
    assert Dates.BaseOf(DateOf(dt)) == BaseOf(dt);
    CastWithoutTime(like, Some(BaseOf(dt)));
    var c := Durations.CastDurationOf(like, Some(BaseOf(dt)));
    if c.Ok? {
      var dl := Durations.DeltaOf(c.value);
      MoveDateOnlyBy(dt, c.value, dl, negate);
    }
  }

  /** calculate on the date-time and on its date part, with a delta that has no time: the same date. */
  lemma CalculateAgrees(dt: CivilDateTime, dl: Shared.Delta, negate: bool) returns (r: Shared.Calculated, q: Shared.Calculated)
    requires Valid(dt)
    requires dl.hours == dl.minutes == dl.seconds == dl.milliseconds == dl.microseconds == dl.nanoseconds == 0
    ensures r == Shared.CalculateSpec(FieldsOf(dt), dl, negate) && q == Shared.CalculateSpec(Dates.DateFields(DateOf(dt)), dl, negate)
    ensures r.year == q.year && r.month == q.month && r.day == q.day
    ensures r.hour == dt.hour && r.minute == dt.minute && r.second == dt.second
    ensures r.millisecond == dt.millisecond && r.microsecond == dt.microsecond && r.nanosecond == dt.nanosecond
  {
    var f := FieldsOf(dt);
    var g := Shared.Shifted(f, dl, negate);
    var g' := Shared.Shifted(Dates.DateFields(DateOf(dt)), dl, negate);
    Shared.CarryTimeOfClock(g);
    Shared.CarryTimeOfDate(g');
    assert g'.year == g.year && g'.month == g.month && g'.day == g.day;
    r := Shared.Balance(g);
    q := Shared.Balance(g');
  }

  lemma MoveDateOnlyBy(dt: CivilDateTime, dur: Durations.Duration, dl: Shared.Delta, negate: bool)
    requires Valid(dt) && dl == Durations.DeltaOf(dur)
    requires dur.hours == dur.minutes == dur.seconds == dur.milliseconds == dur.microseconds == dur.nanoseconds == 0
    ensures var m := MoveBy(dt, dur, negate);
      var d := Dates.MoveBy(DateOf(dt), dur, negate);
      && (m.Ok? <==> d.Ok?)
      && (m.Ok? ==> m.value.year == d.value.year && m.value.month == d.value.month && m.value.day == Fin(d.value.day)
                    && TimeOf(m.value) == TimeOf(dt))
  {
    var f := FieldsOf(dt);
    var r, q := CalculateAgrees(dt, dl, negate);
    Shared.CalculateRanges(f, dl, negate);
    NewOfCalculated(r);
    assert MoveBy(dt, dur, negate) == NewCivilDateTime(Fin(r.year), Fin(r.month), r.day, r.hour, r.minute, r.second,
                                                       r.millisecond, r.microsecond, r.nanosecond);
    assert Dates.MoveBy(DateOf(dt), dur, negate) == Dates.NewCivilDate(Fin(q.year), Fin(q.month), q.day);
  }

  // ---------------------------------------------------------------------------
  // getCivilDate / getCivilTime, and CivilTime's withDate

  /** `dateTime.getCivilDate()` */
  function GetCivilDate(dt: CivilDateTime): Result<Dates.CivilDate>
  {
    Dates.NewCivilDate(Fin(dt.year), Fin(dt.month), dt.day)
  }

  /** `dateTime.getCivilTime()` */
  function GetCivilTime(dt: CivilDateTime): Times.CivilTime
  {
    Times.NewCivilTime(dt.hour, dt.minute, dt.second, dt.millisecond, dt.microsecond, dt.nanosecond)
  }

  /** `time.withDate(dateLike)`: the argument's year, month and day with the time's six fields. */
  function WithDate(t: Times.CivilTime, dateLike: Shared.Props): Result<CivilDateTime>
  {
    NewCivilDateTime(Dates.Get(dateLike, Shared.Year), Dates.Get(dateLike, Shared.Month), Dates.Get(dateLike, Shared.Day),
                     t.hour, t.minute, t.second, t.millisecond, t.microsecond, t.nanosecond)
  }

  /**
   * A recorded valid date-time splits into its date and its time, and
   * `withDate` joins them back into the same date-time.
   */
  lemma SplitJoin(dt: CivilDateTime)
    requires Valid(dt) && Recorded(dt)
    ensures GetCivilDate(dt).Ok? && GetCivilDate(dt).value.day == dt.day.v
    ensures GetCivilTime(dt) == TimeOf(dt)
    ensures WithDate(GetCivilTime(dt), Dates.PropsOf(GetCivilDate(dt).value)) == Ok(dt)
  {
    var t := GetCivilTime(dt);
    assert t == TimeOf(dt) by {
      Times.NewOfValid(TimeOf(dt));
    }
    DatePart(dt);
    var d := GetCivilDate(dt).value;
    Dates.GetOfProps(d);
    JoinOf(dt, Dates.PropsOf(d), t);
  }

  /** The date of a valid recorded date-time has its year, month and day. */
  lemma DatePart(dt: CivilDateTime)
    requires Valid(dt) && Recorded(dt)
    ensures var d := GetCivilDate(dt);
      d.Ok? && d.value.year == dt.year && d.value.month == dt.month && Fin(d.value.day) == dt.day
  {
  }

  /** withDate of a recorded date-time's own time and a bag holding its year, month and day is that date-time. */
  lemma JoinOf(dt: CivilDateTime, p: Shared.Props, t: Times.CivilTime)
    requires Recorded(dt) && t == TimeOf(dt)
    requires Dates.Get(p, Shared.Year) == Fin(dt.year) && Dates.Get(p, Shared.Month) == Fin(dt.month)
    requires Dates.Get(p, Shared.Day) == dt.day
    ensures WithDate(t, p) == Ok(dt)
  {
  }

  // ---------------------------------------------------------------------------
  // compare

  /**
   * `compare(one, two)`: the first of the nine fields, from year down to
   * nanosecond, on which the two differ decides, by subtraction.
   */
  function Compare(one: Shared.Fields, two: Shared.Fields): (r: int)
    ensures r == 0 <==> one == two
  {
    if one.year != two.year then one.year - two.year
    else if one.month != two.month then one.month - two.month
    else if one.day != two.day then one.day - two.day
    else if one.hour != two.hour then one.hour - two.hour
    else if one.minute != two.minute then one.minute - two.minute
    else if one.second != two.second then one.second - two.second
    else if one.millisecond != two.millisecond then one.millisecond - two.millisecond
    else if one.microsecond != two.microsecond then one.microsecond - two.microsecond
    else if one.nanosecond != two.nanosecond then one.nanosecond - two.nanosecond
    else 0
  }

  /** The clock fields in lexicographic order. */
  predicate ClockBefore(a: Shared.Fields, b: Shared.Fields)
  {
    a.hour < b.hour || (a.hour == b.hour &&
    (a.minute < b.minute || (a.minute == b.minute &&
    (a.second < b.second || (a.second == b.second &&
    (a.millisecond < b.millisecond || (a.millisecond == b.millisecond &&
    (a.microsecond < b.microsecond || (a.microsecond == b.microsecond && a.nanosecond < b.nanosecond)))))))))
  }

  /** The nine fields in lexicographic order, year first. */
  predicate Before(a: Shared.Fields, b: Shared.Fields)
  {
    a.year < b.year || (a.year == b.year &&
    (a.month < b.month || (a.month == b.month &&
    (a.day < b.day || (a.day == b.day && ClockBefore(a, b))))))
  }

  /** Swapping the operands negates the comparison. */
  lemma CompareAntisymmetric(one: Shared.Fields, two: Shared.Fields)
    ensures Compare(two, one) == -Compare(one, two)
  {
  }

  /** compare is negative exactly for the lexicographic order, and positive exactly for its converse. */
  lemma CompareOrders(one: Shared.Fields, two: Shared.Fields)
    ensures Compare(one, two) < 0 <==> Before(one, two)
    ensures Compare(one, two) > 0 <==> Before(two, one)
  {
  }

  /** On valid clocks the lexicographic order is the order of the time of day. */
  lemma ClockBeforeNs(a: Shared.Fields, b: Shared.Fields)
    requires Shared.ClockValid(a.hour, a.minute, a.second, a.millisecond, a.microsecond, a.nanosecond)
    requires Shared.ClockValid(b.hour, b.minute, b.second, b.millisecond, b.microsecond, b.nanosecond)
    requires ClockBefore(a, b)
    ensures Shared.TimeNs(a.hour, a.minute, a.second, a.millisecond, a.microsecond, a.nanosecond)
          < Shared.TimeNs(b.hour, b.minute, b.second, b.millisecond, b.microsecond, b.nanosecond)
  {
  }

  /** The day number of a date within its year: the year's first day plus the ordinal, below the next year's first day. */
  lemma DayInYear(year: int, month: int, day: int) returns (w: int)
    requires 1 <= month <= 12 && 1 <= day <= Shared.Dim(year, month)
    ensures w == EcmaTime.DaysBeforeMonth(month - 1, Shared.Leap(year)) + day - 1
    ensures EcmaTime.MakeDay(year, month - 1, day) == EcmaTime.DayFromYear(year) + w
    ensures EcmaTime.DaysBeforeMonth(month - 1, Shared.Leap(year)) <= w < EcmaTime.DaysBeforeMonth(month, Shared.Leap(year))
    ensures 0 <= w < EcmaTime.DaysInYear(year)
  {
    Shared.LeapAgrees(year);
    EcmaTime.MakeDayInYear(year, month - 1, day);
    Shared.OrdinalInMonth(year, month, day);
    w := EcmaTime.DaysBeforeMonth(month - 1, Shared.Leap(year)) + day - 1;
  }

  /** For valid dates the lexicographic order of year, month and day is the order of the day numbers. */
  lemma DateBeforeDay(ya: int, ma: int, da: int, yb: int, mb: int, db: int)
    requires 1 <= ma <= 12 && 1 <= da <= Shared.Dim(ya, ma) && 1 <= mb <= 12 && 1 <= db <= Shared.Dim(yb, mb)
    requires ya < yb || (ya == yb && (ma < mb || (ma == mb && da < db)))
    ensures EcmaTime.MakeDay(ya, ma - 1, da) < EcmaTime.MakeDay(yb, mb - 1, db)
  {
    var wa := DayInYear(ya, ma, da);
    var wb := DayInYear(yb, mb, db);
    if ya < yb {
      EcmaTime.MonoStrict(ya, yb);
    } else if ma < mb {
      EcmaTime.DaysBeforeMonthMono(ma, mb - 1, Shared.Leap(ya));
    }
  }

  /**
   * On valid fields compare orders date-times as instants: it is negative,
   * zero or positive exactly as the first's weighted nanosecond total is
   * below, equal to or above the second's.
   */
  lemma CompareTotal(one: Shared.Fields, two: Shared.Fields)
    requires Shared.ValidFields(one) && Shared.ValidFields(two)
    ensures Compare(one, two) < 0 <==> Shared.TotalNs(one) < Shared.TotalNs(two)
    ensures Compare(one, two) == 0 <==> Shared.TotalNs(one) == Shared.TotalNs(two)
    ensures Compare(one, two) > 0 <==> Shared.TotalNs(one) > Shared.TotalNs(two)
  {
    CompareOrders(one, two);
    if Before(one, two) {
      BeforeTotal(one, two);
    } else if Before(two, one) {
      BeforeTotal(two, one);
    } else if Shared.TotalNs(one) == Shared.TotalNs(two) {
      Shared.TotalInjective(one, two);
    }
  }

  lemma BeforeTotal(a: Shared.Fields, b: Shared.Fields)
    requires Shared.ValidFields(a) && Shared.ValidFields(b) && Before(a, b)
    ensures Shared.TotalNs(a) < Shared.TotalNs(b)
  {
    if a.year == b.year && a.month == b.month && a.day == b.day {
      ClockBeforeNs(a, b);
      Shared.TotalOfSameDay(a, b);
    } else {
      DateBeforeFields(a, b);
    }
  }

  lemma DateBeforeFields(a: Shared.Fields, b: Shared.Fields)
    requires Shared.ValidFields(a) && Shared.ValidFields(b)
    requires a.year < b.year || (a.year == b.year && (a.month < b.month || (a.month == b.month && a.day < b.day)))
    ensures Shared.TotalNs(a) < Shared.TotalNs(b)
  {
    DateBeforeDay(a.year, a.month, a.day, b.year, b.month, b.day);
    Shared.TotalOfEarlierDay(a, b);
  }

  // ---------------------------------------------------------------------------
  // difference

  /** The nine fields of `other` after copyProps over the defaults: year 0, month 1, day 1, a zero clock. */
  function OtherOf(other: map<Shared.Field, int>): Shared.Fields
  {
    Shared.Fields(if Shared.Year in other then other[Shared.Year] else 0,
                  if Shared.Month in other then other[Shared.Month] else 1,
                  if Shared.Day in other then other[Shared.Day] else 1,
                  if Shared.Hour in other then other[Shared.Hour] else 0,
                  if Shared.Minute in other then other[Shared.Minute] else 0,
                  if Shared.Second in other then other[Shared.Second] else 0,
                  if Shared.Millisecond in other then other[Shared.Millisecond] else 0,
                  if Shared.Microsecond in other then other[Shared.Microsecond] else 0,
                  if Shared.Nanosecond in other then other[Shared.Nanosecond] else 0)
  }

  /** `[a, b].sort(compare)`: the pair in ascending order; an equal pair keeps its order. */
  function SortPair(a: Shared.Fields, b: Shared.Fields): (Shared.Fields, Shared.Fields)
  {
    if Compare(a, b) > 0 then (b, a) else (a, b)
  }

  /** The sort makes the pair independent of the operands' order, and it puts the later date-time second. */
  lemma SortPairSymmetric(a: Shared.Fields, b: Shared.Fields)
    ensures SortPair(a, b) == SortPair(b, a)
    ensures !Before(SortPair(a, b).1, SortPair(a, b).0)
  {
    CompareAntisymmetric(a, b);
    CompareOrders(a, b);
  }

  /** The nine field-wise differences, later minus earlier. */
  function Sub(one: Shared.Fields, two: Shared.Fields): Shared.Fields
  {
    Shared.Fields(two.year - one.year, two.month - one.month, two.day - one.day, two.hour - one.hour,
                  two.minute - one.minute, two.second - one.second, two.millisecond - one.millisecond,
                  two.microsecond - one.microsecond, two.nanosecond - one.nanosecond)
  }

  /**
   * The second cursor loop, `while (day >= daysInMonth(year, month))`:
   * the cursor steps forward while its day reaches the month's length.
   */
  function CursorForward(year: int, month: int, day: Num): (r: (Num, int))
    decreases 13 - month
  {
    var n := Shared.DaysInMonth(year, month);
    if day.Fin? && n.Fin? && day.v >= n.v then CursorForward(year, month + 1, Fin(day.v - n.v))
    else (day, month)
  }

  /**
   * The month the two cursor loops leave, starting from the earlier
   * date-time's year, month and day: the first loop is the day borrow of
   * the date difference without its month count, the second CursorForward.
   */
  function CursorOf(one: Shared.Fields): int
  {
    var b := Dates.BorrowDays(one.year, one.month, one.day, 0);
    CursorForward(one.year, b.1, b.0).1
  }

  /** The cursor loops with the second written `while (day > daysInMonth(year, month))`. */
  function IntendedCursorOf(one: Shared.Fields): int
  {
    var b := Dates.BorrowDays(one.year, one.month, one.day, 0);
    if b.0.Fin? then Dates.CarryDays(one.year, b.1, b.0.v, 0).1 else b.1
  }

  /**
   * The object difference hands to castDuration, for date-times in
   * ascending order and a given cursor month: the clock differences
   * carried as calculate carries them, the day borrow and carry against
   * months from the cursor, and the month loops.
   */
  function DifferenceAt(one: Shared.Fields, two: Shared.Fields, cursor: int): Durations.DurationFields
  {
    var c := Shared.CarryTime(Sub(one, two));
    var b := Dates.BorrowDays(one.year, cursor, c.day, c.month);
    var k := if b.0.Fin? then Dates.CarryDays(one.year, b.1, b.0.v, b.2) else (0, b.1, b.2);
    var ym := Dates.BalanceMonths(c.year, k.2);
    Durations.DurationFields(Fin(ym.0), Fin(ym.1), if b.0.Fin? then Fin(k.0) else NaN,
                             Fin(c.hour), Fin(c.minute), Fin(c.second),
                             Fin(c.millisecond), Fin(c.microsecond), Fin(c.nanosecond))
  }

  /** `dateTime.difference(other)`, for a date-time with a finite day. */
  function DifferenceSpec(dt: CivilDateTime, other: map<Shared.Field, int>): Result<Durations.Duration>
    requires dt.day.Fin?
  {
    var p := SortPair(FieldsOf(dt), OtherOf(other));
    Durations.CastDurationOf(Durations.Like(DifferenceAt(p.0, p.1, CursorOf(p.0))), Some(BaseOf(dt)))
  }

  /** difference with the intended cursor loop. */
  function DifferenceIntended(dt: CivilDateTime, other: map<Shared.Field, int>): Result<Durations.Duration>
    requires dt.day.Fin?
  {
    var p := SortPair(FieldsOf(dt), OtherOf(other));
    Durations.CastDurationOf(Durations.Like(DifferenceAt(p.0, p.1, IntendedCursorOf(p.0))), Some(BaseOf(dt)))
  }

  /** The later clock minus the earlier, in nanoseconds, counted modulo one day. */
  function ClockDiff(one: Shared.Fields, two: Shared.Fields): int
  {
    (Shared.TimeNs(two.hour, two.minute, two.second, two.millisecond, two.microsecond, two.nanosecond)
     - Shared.TimeNs(one.hour, one.minute, one.second, one.millisecond, one.microsecond, one.nanosecond))
    % Shared.NsPerDay
  }

  /** A time of day that, with whole days, makes up a difference is that difference modulo a day. */
  lemma ModDay(days: int, t: int, dd: int, t0: int, t1: int)
    requires 0 <= t < Shared.NsPerDay && days * Shared.NsPerDay + t == dd * Shared.NsPerDay + t1 - t0
    ensures t == (t1 - t0) % Shared.NsPerDay
  {
    DivModUnique(t1 - t0, Shared.NsPerDay, days - dd, t);
  }

  /**
   * The carried clock differences are a time of day: the later clock minus
   * the earlier one, modulo a day.
   */
  lemma DifferenceClock(one: Shared.Fields, two: Shared.Fields) returns (c: Shared.Fields)
    ensures c == Shared.CarryTime(Sub(one, two))
    ensures Shared.ClockValid(c.hour, c.minute, c.second, c.millisecond, c.microsecond, c.nanosecond)
    ensures Shared.TimeNs(c.hour, c.minute, c.second, c.millisecond, c.microsecond, c.nanosecond) == ClockDiff(one, two)
  {
    var g := Sub(one, two);
    c := Shared.CarryTime(g);
    Shared.CarryTimeRange(g);
    Shared.CarryTimeConserves(g);
    ModDay(c.day, Shared.TimeNs(c.hour, c.minute, c.second, c.millisecond, c.microsecond, c.nanosecond), two.day - one.day,
           Shared.TimeNs(one.hour, one.minute, one.second, one.millisecond, one.microsecond, one.nanosecond),
           Shared.TimeNs(two.hour, two.minute, two.second, two.millisecond, two.microsecond, two.nanosecond));
  }

  /** castDuration of difference's object against a base with a finite month: folded, in range, the clock kept. */
  lemma CastDifference(one: Shared.Fields, two: Shared.Fields, cursor: int, base: Durations.Base)
    returns (c: Shared.Fields, r: Result<Durations.Duration>)
    requires base.month.Fin?
    ensures c == Shared.CarryTime(Sub(one, two))
    ensures r == Durations.CastDurationOf(Durations.Like(DifferenceAt(one, two, cursor)), Some(base))
    ensures && r.Ok? && r.value.years.Some? && r.value.months.Some?
      && 0 <= r.value.months.value <= 12 && r.value.days >= 0
      && r.value.hours == c.hour && r.value.minutes == c.minute && r.value.seconds == c.second
      && r.value.milliseconds == c.millisecond && r.value.microseconds == c.microsecond && r.value.nanoseconds == c.nanosecond
  {
    c := Shared.CarryTime(Sub(one, two));
    Shared.CarryTimeRange(Sub(one, two));
    var like := Durations.Like(DifferenceAt(one, two, cursor));
    Durations.CastDurationProperties(like, Some(base));
    var a := Durations.AbsFields(like.f);
    assert a.hour == c.hour && a.minute == c.minute && a.second == c.second;
    assert a.millisecond == c.millisecond && a.microsecond == c.microsecond && a.nanosecond == c.nanosecond;
    Shared.CarryTimeOfClock(a);
    Durations.CastTimeParts(like, Some(base), a);
    r := Durations.CastDurationOf(like, Some(base));
  }

  /**
   * What difference returns, whatever the operands: defined years and
   * months, months in 0..12, non-negative days, and the clock part of the
   * earlier-to-later difference as a time of day: the two clocks'
   * difference counted modulo one day.
   */
  lemma DifferenceProperties(dt: CivilDateTime, other: map<Shared.Field, int>)
    requires dt.day.Fin?
    ensures var r := DifferenceSpec(dt, other);
      && r.Ok? && r.value.years.Some? && r.value.months.Some?
      && 0 <= r.value.months.value <= 12 && r.value.days >= 0 && Durations.TimeInRange(r.value)
    ensures var r := DifferenceSpec(dt, other);
      var p := SortPair(FieldsOf(dt), OtherOf(other));
      r.Ok? ==> (Durations.SubDayNs(r.value) == ClockDiff(p.0, p.1))
  {
    var p := SortPair(FieldsOf(dt), OtherOf(other));
    var c := DifferenceClock(p.0, p.1);
    var c', r := CastDifference(p.0, p.1, CursorOf(p.0), BaseOf(dt));
    assert DifferenceSpec(dt, other) == r;
    assert Durations.SubDayNs(r.value) == Shared.TimeNs(c.hour, c.minute, c.second, c.millisecond, c.microsecond, c.nanosecond);
  }

  /** A date with its day before the month's end leaves the cursor loops at its own month. */
  lemma CursorOfInside(one: Shared.Fields)
    requires 1 <= one.month <= 12 && 1 <= one.day < Shared.Dim(one.year, one.month)
    ensures CursorOf(one) == one.month
  {
    assert Shared.DaysInMonth(one.year, one.month) == Fin(Shared.Dim(one.year, one.month));
  }

  /** On the last day of a month the second cursor loop steps to the next month number (13 after December). */
  lemma CursorOfMonthEnd(one: Shared.Fields)
    requires 1 <= one.month <= 12 && one.day == Shared.Dim(one.year, one.month)
    ensures CursorOf(one) == one.month + 1
  {
    assert Shared.DaysInMonth(one.year, one.month) == Fin(Shared.Dim(one.year, one.month));
    assert Dates.BorrowDays(one.year, one.month, one.day, 0) == (Fin(one.day), one.month, 0);
    if one.month < 12 {
      assert Shared.DaysInMonth(one.year, one.month + 1) == Fin(Shared.Dim(one.year, one.month + 1));
    }
  }

  /** With the intended cursor loop, every valid date leaves the cursor at its own month. */
  lemma IntendedCursorOfValid(one: Shared.Fields)
    requires 1 <= one.month <= 12 && 1 <= one.day <= Shared.Dim(one.year, one.month)
    ensures IntendedCursorOf(one) == one.month
  {
    assert Shared.DaysInMonth(one.year, one.month) == Fin(Shared.Dim(one.year, one.month));
  }

  /** The loops of difference with nothing to borrow or carry: the plain differences. */
  lemma DifferenceAtWithin(one: Shared.Fields, two: Shared.Fields)
    requires 1 <= one.month <= two.month <= 12
    requires 0 <= two.day - one.day <= Shared.Dim(one.year, one.month)
    requires Shared.ClockValid(two.hour - one.hour, two.minute - one.minute, two.second - one.second,
                               two.millisecond - one.millisecond, two.microsecond - one.microsecond,
                               two.nanosecond - one.nanosecond)
    ensures var g := Sub(one, two);
      DifferenceAt(one, two, one.month)
      == Durations.DurationFields(Fin(g.year), Fin(g.month), Fin(g.day), Fin(g.hour), Fin(g.minute), Fin(g.second),
                                  Fin(g.millisecond), Fin(g.microsecond), Fin(g.nanosecond))
  {
    var g := Sub(one, two);
    Shared.CarryTimeOfClock(g);
    assert Shared.DaysInMonth(one.year, one.month) == Fin(Shared.Dim(one.year, one.month));
    assert Dates.BorrowDays(one.year, one.month, g.day, g.month) == (Fin(g.day), one.month, g.month);
    assert Dates.CarryDays(one.year, one.month, g.day, g.month) == (g.day, one.month, g.month);
  }

  /** The cast of a within-range field-wise difference folds nothing and keeps every field. */
  lemma CastWithinAt(one: Shared.Fields, two: Shared.Fields, base: Durations.Base) returns (r: Result<Durations.Duration>)
    requires 1 <= one.month <= two.month <= 12 && 1 <= one.day < Shared.Dim(one.year, one.month) && one.year <= two.year
    requires 0 <= two.day - one.day <= Shared.Dim(one.year, one.month)
    requires base.month.Fin? && Durations.FoldStopsAt(base.year, base.month.v, two.day - one.day)
    requires Shared.ClockValid(two.hour - one.hour, two.minute - one.minute, two.second - one.second,
                               two.millisecond - one.millisecond, two.microsecond - one.microsecond,
                               two.nanosecond - one.nanosecond)
    ensures r == Durations.CastDurationOf(Durations.Like(DifferenceAt(one, two, one.month)), Some(base))
    ensures r == Ok(Durations.Duration(Some(two.year - one.year), Some(two.month - one.month), two.day - one.day,
                                       two.hour - one.hour, two.minute - one.minute, two.second - one.second,
                                       two.millisecond - one.millisecond, two.microsecond - one.microsecond,
                                       two.nanosecond - one.nanosecond))
  {
    DifferenceAtWithin(one, two);
    var like := Durations.Like(DifferenceAt(one, two, one.month));
    Durations.CastClockWithin(like, Some(base));
    r := Durations.CastDurationOf(like, Some(base));
  }

  /**
   * When the later date-time's month is not before the earlier's, the day
   * difference fits the earlier's month and the receiver's, every clock
   * field of the later is at least the earlier's, and the earlier's day is
   * not its month's last, difference is the field-wise difference. Against
   * 1976-11-18T15:23:30.123456789 the date-time 1976-10-05T15:23:30.123456789
   * is 1 month and 13 days away, and 1976-10-05T15:23:30 is 1 month, 13 days,
   * 123 milliseconds, 456 microseconds and 789 nanoseconds away.
   */
  lemma DifferenceWithin(dt: CivilDateTime, other: map<Shared.Field, int>, one: Shared.Fields, two: Shared.Fields)
    requires Valid(dt) && (one, two) == SortPair(FieldsOf(dt), OtherOf(other))
    requires 1 <= one.month <= two.month <= 12 && 1 <= one.day < Shared.Dim(one.year, one.month)
    requires 0 <= two.day - one.day <= Shared.Dim(one.year, one.month) && two.day - one.day <= Shared.Dim(dt.year, dt.month)
    requires Shared.ClockValid(two.hour - one.hour, two.minute - one.minute, two.second - one.second,
                               two.millisecond - one.millisecond, two.microsecond - one.microsecond,
                               two.nanosecond - one.nanosecond)
    ensures DifferenceSpec(dt, other)
      == Ok(Durations.Duration(Some(two.year - one.year), Some(two.month - one.month), two.day - one.day,
                               two.hour - one.hour, two.minute - one.minute, two.second - one.second,
                               two.millisecond - one.millisecond, two.microsecond - one.microsecond,
                               two.nanosecond - one.nanosecond))
  {
    SortPairSymmetric(FieldsOf(dt), OtherOf(other));
    CursorOfInside(one);
    assert Shared.DaysInMonth(dt.year, dt.month) == Fin(Shared.Dim(dt.year, dt.month));
    var r := CastWithinAt(one, two, BaseOf(dt));
    assert DifferenceSpec(dt, other) == r;
  }

  /** The first of the next month, at the same clock reading. */
  function NextMonthStart(one: Shared.Fields): Shared.Fields
  {
    Shared.Fields(one.year, one.month + 1, 1, one.hour, one.minute, one.second,
                  one.millisecond, one.microsecond, one.nanosecond)
  }

  /** The days the as-written loops count from the last day of a month to the first of the next. */
  function MonthEndGap(year: int, month: int): int
    requires 1 <= month <= 11
  {
    Shared.Dim(year, month + 1) + 1 - Shared.Dim(year, month)
  }

  /** From the last day of a month to the first of the next, with the cursor at the earlier's month: one day. */
  lemma DifferenceAtMonthEnd(one: Shared.Fields)
    requires 1 <= one.month <= 11 && one.day == Shared.Dim(one.year, one.month)
    ensures DifferenceAt(one, NextMonthStart(one), one.month)
      == Durations.DurationFields(Fin(0), Fin(0), Fin(1), Fin(0), Fin(0), Fin(0), Fin(0), Fin(0), Fin(0))
  {
    var g := Sub(one, NextMonthStart(one));
    Shared.CarryTimeOfClock(g);
    var m := one.month;
    Dates.BorrowOnce(one.year, m, g.day, 1);
    if 2 <= m {
      assert Shared.DaysInMonth(one.year, m - 1) == Fin(Shared.Dim(one.year, m - 1));
    }
  }

  /**
   * The same with the cursor one month later: the borrow adds the next
   * month's length, which leaves the next month's length less this one's
   * plus one.
   */
  lemma DifferenceAtNextMonth(one: Shared.Fields)
    requires 2 <= one.month <= 11 && one.day == Shared.Dim(one.year, one.month)
    ensures DifferenceAt(one, NextMonthStart(one), one.month + 1)
      == Durations.DurationFields(Fin(0), Fin(0), Fin(MonthEndGap(one.year, one.month)),
                                  Fin(0), Fin(0), Fin(0), Fin(0), Fin(0), Fin(0))
  {
    var g := Sub(one, NextMonthStart(one));
    Shared.CarryTimeOfClock(g);
    var m := one.month;
    Shared.LongMonth(one.year, m + 1);
    Dates.BorrowOnce(one.year, m + 1, g.day, 1);
    assert Shared.DaysInMonth(one.year, m) == Fin(Shared.Dim(one.year, m));
  }

  /** A cast that takes no time and no folding: a number of days below the receiver's month length. */
  lemma CastDays(days: int, base: Durations.Base) returns (r: Result<Durations.Duration>)
    requires 0 <= days && base.month.Fin? && Durations.FoldStopsAt(base.year, base.month.v, days)
    ensures r == Durations.CastDurationOf(
                   Durations.Like(Durations.DurationFields(Fin(0), Fin(0), Fin(days), Fin(0), Fin(0), Fin(0), Fin(0), Fin(0), Fin(0))),
                   Some(base))
    ensures r == Ok(Durations.Duration(Some(0), Some(0), days, 0, 0, 0, 0, 0, 0))
  {
    var like := Durations.Like(Durations.DurationFields(Fin(0), Fin(0), Fin(days), Fin(0), Fin(0), Fin(0), Fin(0), Fin(0), Fin(0)));
    Durations.CastClockWithin(like, Some(base));
    r := Durations.CastDurationOf(like, Some(base));
  }

  /**
   * As written, the second cursor loop (`day >= daysInMonth`) moves the
   * cursor past a month whose last day the earlier date-time is on, so
   * the borrow for the first of the next month uses the next month's
   * length: from the last of any month from February to November except
   * July (whose next month also has 31 days) to the first of the month
   * after, difference is not one day. MonthEndGap is 0 after a month of 31
   * days, 2 after one of 30, and 3 or 4 after February.
   */
  lemma CursorFinding(dt: CivilDateTime, other: map<Shared.Field, int>)
    requires Valid(dt) && 2 <= dt.month <= 11 && dt.day == Fin(Shared.Dim(dt.year, dt.month))
    requires OtherOf(other) == NextMonthStart(FieldsOf(dt))
    ensures DifferenceSpec(dt, other)
      == Ok(Durations.Duration(Some(0), Some(0), MonthEndGap(dt.year, dt.month),
                               0, 0, 0, 0, 0, 0))
  {
    var one := FieldsOf(dt);
    assert one.year == dt.year && one.month == dt.month;
    var r := CursorFindingAt(one, BaseOf(dt));
    assert DifferenceSpec(dt, other) == r by {
      assert SortPair(one, OtherOf(other)) == (one, NextMonthStart(one));
    }
  }

  /** The cast in CursorFinding, for fields on a month's last day. */
  lemma CursorFindingAt(one: Shared.Fields, base: Durations.Base) returns (r: Result<Durations.Duration>)
    requires 2 <= one.month <= 11 && one.day == Shared.Dim(one.year, one.month)
    requires base.month.Fin?
    ensures r == Durations.CastDurationOf(Durations.Like(DifferenceAt(one, NextMonthStart(one), CursorOf(one))), Some(base))
    ensures r == Ok(Durations.Duration(Some(0), Some(0), MonthEndGap(one.year, one.month),
                                       0, 0, 0, 0, 0, 0))
  {
    var d := MonthEndGap(one.year, one.month);
    assert DifferenceAt(one, NextMonthStart(one), CursorOf(one))
        == Durations.DurationFields(Fin(0), Fin(0), Fin(d), Fin(0), Fin(0), Fin(0), Fin(0), Fin(0), Fin(0)) by {
      CursorOfMonthEnd(one);
      DifferenceAtNextMonth(one);
    }
    assert 0 <= d by {
      Shared.LongMonth(one.year, one.month + 1);
    }
    r := CastDays(d, base);
  }

  /** 1976-10-31T00:00 and 1976-11-01T00:00 are zero days apart as written. */
  lemma CursorFindingExample()
    ensures DifferenceSpec(CivilDateTime(1976, 10, Fin(31), 0, 0, 0, 0, 0, 0, 7, 305, 44),
                           map[Shared.Year := 1976, Shared.Month := 11])
      == Ok(Durations.Duration(Some(0), Some(0), 0, 0, 0, 0, 0, 0, 0))
  {
    var dt := CivilDateTime(1976, 10, Fin(31), 0, 0, 0, 0, 0, 0, 7, 305, 44);
    var other := map[Shared.Year := 1976, Shared.Month := 11];
    assert Shared.DaysInMonth(1976, 10) == Fin(31);
    assert Shared.DaysInMonth(1976, 11) == Fin(30);
    assert Shared.Day !in other && Shared.Hour !in other && Shared.Minute !in other && Shared.Second !in other;
    assert Shared.Millisecond !in other && Shared.Microsecond !in other && Shared.Nanosecond !in other;
    CursorFinding(dt, other);
  }

  /** With the intended cursor loop the last day of January to November and the first of the next month are one day apart. */
  lemma IntendedDay(dt: CivilDateTime, other: map<Shared.Field, int>)
    requires Valid(dt) && 1 <= dt.month <= 11 && dt.day == Fin(Shared.Dim(dt.year, dt.month))
    requires OtherOf(other) == NextMonthStart(FieldsOf(dt))
    ensures DifferenceIntended(dt, other) == Ok(Durations.Duration(Some(0), Some(0), 1, 0, 0, 0, 0, 0, 0))
  {
    var one := FieldsOf(dt);
    assert SortPair(one, OtherOf(other)) == (one, NextMonthStart(one));
    IntendedCursorOfValid(one);
    DifferenceAtMonthEnd(one);
    assert Shared.DaysInMonth(dt.year, dt.month) == Fin(Shared.Dim(dt.year, dt.month));
    var r := CastDays(1, BaseOf(dt));
    assert DifferenceIntended(dt, other) == r;
  }

  /** The second cursor loop of difference, `while (day >= daysInMonth(year, month))`. */
  method CursorLoop(year: int, month0: int, day0: Num) returns (day: Num, month: int)
    ensures (day, month) == CursorForward(year, month0, day0)
  {
    day, month := day0, month0;
    while day.Fin? && Shared.DaysInMonth(year, month).Fin? && day.v >= Shared.DaysInMonth(year, month).v
      invariant CursorForward(year, month, day) == CursorForward(year, month0, day0)
      decreases 13 - month
    {
      day := Fin(day.v - Shared.DaysInMonth(year, month).v);
      month := month + 1;
    }
  }

  /** The six clock borrow loops of difference, nanoseconds up to hours into days. */
  method CarryLoops(g: Shared.Fields) returns (c: Shared.Fields)
    ensures c == Shared.CarryTime(g)
  {
    var days, hours, minutes, seconds := g.day, g.hour, g.minute, g.second;
    var milliseconds, microseconds, nanoseconds := g.millisecond, g.microsecond, g.nanosecond;
    nanoseconds, microseconds := Shared.Carry(nanoseconds, microseconds, 1000);
    microseconds, milliseconds := Shared.Carry(microseconds, milliseconds, 1000);
    milliseconds, seconds := Shared.Carry(milliseconds, seconds, 1000);
    seconds, minutes := Shared.Carry(seconds, minutes, 60);
    minutes, hours := Shared.Carry(minutes, hours, 60);
    hours, days := Shared.Carry(hours, days, 24);
    c := Shared.Fields(g.year, g.month, days, hours, minutes, seconds, milliseconds, microseconds, nanoseconds);
  }

  /** The loops of difference for date-times in ascending order: the object handed to castDuration. */
  method DifferenceLoops(one: Shared.Fields, two: Shared.Fields) returns (f: Durations.DurationFields)
    ensures f == DifferenceAt(one, two, CursorOf(one))
  {
    var c := CarryLoops(Sub(one, two));
    var day, month, unused := Dates.BorrowLoop(one.year, one.month, one.day, 0);
    day, month := CursorLoop(one.year, month, day);
    var days, months;
    days, month, months := Dates.BorrowLoop(one.year, month, c.day, c.month);
    if days.Fin? {
      var n;
      n, month, months := Dates.CarryLoop(one.year, month, days.v, months);
      days := Fin(n);
    }
    var years;
    years, months := Dates.BalanceLoops(c.year, months);
    f := Durations.DurationFields(Fin(years), Fin(months), days, Fin(c.hour), Fin(c.minute), Fin(c.second),
                                  Fin(c.millisecond), Fin(c.microsecond), Fin(c.nanosecond));
  }

  /**
   * `dateTime.difference(other)`: copyProps over the defaults, the sort,
   * the loops, then castDuration against the receiver.
   */
  method Difference(dt: CivilDateTime, other: map<Shared.Field, int>) returns (r: Result<Durations.Duration>)
    requires dt.day.Fin?
    ensures r == DifferenceSpec(dt, other)
  {
    var p := SortPair(FieldsOf(dt), OtherOf(other));
    var f := DifferenceLoops(p.0, p.1);
    r := Durations.CastDuration(Durations.Like(f), Some(BaseOf(dt)));
  }

  // ---------------------------------------------------------------------------
  // withZone

  /** The symbols a caller may pass: the two the ZonedDateTime prototype carries, or any other. */
  datatype Symbol = EarlierSymbol | LaterSymbol | OtherSymbol

  /** The filter argument by its `typeof`: a string, a symbol, or anything else (including none). */
  datatype Filter = ByOffset(offset: string) | BySymbol(symbol: Symbol) | NoFilter

  /**
   * The selection of withZone over the candidate instants. The string case
   * compares `zoned.offsetString`, which a ZonedDateTime does not have, so it
   * never matches; the symbol case compares with `ZonedDateTime.EARLIER` and
   * `ZonedDateTime.LATER`, which are set on the prototype and so are
   * undefined on the class, so no case matches. Only the default case picks
   * a candidate, the first; an empty pick throws Error.
   */
  function Select(candidates: seq<Shared.EpochParts>, filter: Filter): (r: Result<Shared.EpochParts>)
    ensures r.Ok? <==> filter.NoFilter? && |candidates| > 0
    ensures r.Throw? ==> r.exc == Error
  {
    match filter
    case ByOffset(_) => Throw(Error)
    case BySymbol(_) => Throw(Error)
    case NoFilter => if |candidates| > 0 then Ok(candidates[0]) else Throw(Error)
  }

  /**
   * `dateTime.withZone(zone, filter)`: the instant of the ZonedDateTime it
   * returns, chosen among possibleTimestamps of the date-time's fields
   * (see Shared.PossibleTimestamps for the oracle and the offsets).
   */
  function WithZone(dt: CivilDateTime, offsets: seq<int>, zone: int -> Shared.WallClock, filter: Filter): Result<Shared.EpochParts>
    requires dt.day.Fin?
  {
    Select(Shared.PossibleTimestamps(FieldsOf(dt), offsets, zone), filter)
  }

  /**
   * Without a filter, withZone succeeds exactly when some candidate offset's
   * instant shows the date-time's wall clock, and the instant it returns
   * shows it, carries the date-time's sub-millisecond part and is the
   * latest such instant when the offsets ascend.
   */
  lemma WithZoneDefault(dt: CivilDateTime, offsets: seq<int>, zone: int -> Shared.WallClock)
    requires dt.day.Fin?
    ensures var e := Shared.EpochMSNS(FieldsOf(dt));
      WithZone(dt, offsets, zone, NoFilter).Ok?
      <==> exists o :: o in offsets && zone(e.ms - o) == Shared.WallOf(FieldsOf(dt))
    ensures var r := WithZone(dt, offsets, zone, NoFilter);
      r.Ok? ==> zone(r.value.ms) == Shared.WallOf(FieldsOf(dt)) && r.value.ns == dt.microsecond * 1000 + dt.nanosecond
    ensures var r := WithZone(dt, offsets, zone, NoFilter);
      r.Ok? && (forall i, j :: 0 <= i < j < |offsets| ==> offsets[i] < offsets[j]) ==>
      forall p :: p in Shared.PossibleTimestamps(FieldsOf(dt), offsets, zone) ==> p.ms <= r.value.ms
  {
    var c := Shared.PossibleTimestamps(FieldsOf(dt), offsets, zone);
    Shared.PossibleTimestampsNonEmpty(FieldsOf(dt), offsets, zone);
    if |c| > 0 {
      assert c[0] in c;
      if forall i, j :: 0 <= i < j < |offsets| ==> offsets[i] < offsets[j] {
        Shared.PossibleTimestampsFirstLatest(FieldsOf(dt), offsets, zone);
      }
    }
  }

  /** The first candidate whose offset string is `offset`, if any. */
  function FindOffset(candidates: seq<Shared.EpochParts>, offsetOf: Shared.EpochParts -> string, offset: string): (r: Option<nat>)
    ensures r.Some? ==> r.value < |candidates| && offsetOf(candidates[r.value]) == offset
    ensures r.Some? ==> forall i :: 0 <= i < r.value ==> offsetOf(candidates[i]) != offset
    ensures r.None? ==> forall i :: 0 <= i < |candidates| ==> offsetOf(candidates[i]) != offset
  {
    if candidates == [] then None
    else if offsetOf(candidates[0]) == offset then Some(0)
    else match FindOffset(candidates[1..], offsetOf, offset)
      case None => None
      case Some(k) => Some(k + 1)
  }

  /**
   * The selection withZone evidently intends: a string picks the first
   * candidate whose ZonedDateTime offset (`offsetOf`) is that string,
   * EARLIER the first candidate, LATER the last, and no filter the first.
   */
  function SelectIntended(candidates: seq<Shared.EpochParts>, offsetOf: Shared.EpochParts -> string, filter: Filter): Result<Shared.EpochParts>
  {
    match filter
    case ByOffset(s) =>
      (match FindOffset(candidates, offsetOf, s)
       case Some(i) => Ok(candidates[i])
       case None => Throw(Error))
    case BySymbol(EarlierSymbol) => if |candidates| > 0 then Ok(candidates[0]) else Throw(Error)
    case BySymbol(LaterSymbol) => if |candidates| > 0 then Ok(candidates[|candidates| - 1]) else Throw(Error)
    case BySymbol(OtherSymbol) => Throw(Error)
    case NoFilter => if |candidates| > 0 then Ok(candidates[0]) else Throw(Error)
  }

  /**
   * With an offset string the intended selection succeeds exactly when some
   * candidate has that offset, and then returns the first such candidate.
   */
  lemma SelectIntendedByOffset(candidates: seq<Shared.EpochParts>, offsetOf: Shared.EpochParts -> string, s: string)
    ensures var r := SelectIntended(candidates, offsetOf, ByOffset(s));
      && (r.Ok? <==> exists i :: 0 <= i < |candidates| && offsetOf(candidates[i]) == s)
      && (r.Ok? ==> exists i :: 0 <= i < |candidates| && candidates[i] == r.value && offsetOf(r.value) == s
                              && forall j :: 0 <= j < i ==> offsetOf(candidates[j]) != s)
      && (r.Throw? ==> r.exc == Error)
  {
    var f := FindOffset(candidates, offsetOf, s);
    if f.Some? {
      assert candidates[f.value] == SelectIntended(candidates, offsetOf, ByOffset(s)).value;
    }
  }

  /** EARLIER and LATER pick the ends of the candidate list, which with ascending offsets are the latest and the earliest instants. */
  lemma SelectIntendedEnds(candidates: seq<Shared.EpochParts>, offsetOf: Shared.EpochParts -> string)
    requires |candidates| > 0 && Shared.Descending(candidates)
    ensures SelectIntended(candidates, offsetOf, BySymbol(EarlierSymbol)).Ok?
    ensures SelectIntended(candidates, offsetOf, BySymbol(LaterSymbol)).Ok?
    ensures forall p :: p in candidates ==>
      SelectIntended(candidates, offsetOf, BySymbol(LaterSymbol)).value.ms <= p.ms
      <= SelectIntended(candidates, offsetOf, BySymbol(EarlierSymbol)).value.ms
  {
    forall p | p in candidates
      ensures candidates[|candidates| - 1].ms <= p.ms <= candidates[0].ms
    {
      var k :| 0 <= k < |candidates| && candidates[k] == p;
    }
  }

  /**
   * As written, a string filter throws even when a candidate carries
   * exactly that offset, where the intended selection returns it; so do
   * the EARLIER and LATER symbols.
   */
  lemma SelectFinding(candidates: seq<Shared.EpochParts>, offsetOf: Shared.EpochParts -> string)
    requires |candidates| > 0
    ensures Select(candidates, ByOffset(offsetOf(candidates[0]))) == Throw(Error)
    ensures SelectIntended(candidates, offsetOf, ByOffset(offsetOf(candidates[0]))) == Ok(candidates[0])
    ensures Select(candidates, BySymbol(EarlierSymbol)) == Throw(Error)
    ensures Select(candidates, BySymbol(LaterSymbol)) == Throw(Error)
    ensures SelectIntended(candidates, offsetOf, BySymbol(EarlierSymbol)) == Ok(candidates[0])
    ensures SelectIntended(candidates, offsetOf, BySymbol(LaterSymbol)) == Ok(candidates[|candidates| - 1])
  {
  }

  // ---------------------------------------------------------------------------
  // toString / fromString

  /** `dateTime.toString()`: the date as date.toString prints it (a NaN day as "NaN"), 'T', then the time with nine fraction digits. */
  function ToString(dt: CivilDateTime): string
  {
    Shared.SignedPad(dt.year, 4) + "-" + Shared.Pad(dt.month, 2) + "-" + Shared.PadNum(dt.day, 2) + "T" + Times.ToString(TimeOf(dt))
  }

  /** The index of the first 'T'. */
  function FindT(s: string): (r: Option<nat>)
    ensures r.Some? ==> r.value < |s| && s[r.value] == 'T' && 'T' !in s[..r.value]
    ensures r.None? ==> 'T' !in s
  {
    if s == [] then None
    else if s[0] == 'T' then Some(0)
    else match FindT(s[1..])
      case None => None
      case Some(k) =>
        assert s[..k + 1] == [s[0]] + s[1..][..k];
        Some(k + 1)
  }

  /**
   * `parseISO(isoString)`: the date expression of date.mjs, 'T', then the
   * time expression of time.mjs, anchored at both ends; Error when it does
   * not match. Neither part can contain a 'T', so the string splits at its
   * first one.
   */
  function ParseISO(s: string): (r: Result<Shared.Fields>)
    ensures r.Ok? ==> 1 <= r.value.month <= 12 && 1 <= r.value.day <= 31
    ensures r.Ok? ==> Shared.ClockValid(r.value.hour, r.value.minute, r.value.second,
                                        r.value.millisecond, r.value.microsecond, r.value.nanosecond)
    ensures r.Throw? ==> r.exc == Error
  {
    match FindT(s)
    case None => Throw(Error)
    case Some(i) => Join(Dates.ParseISO(s[..i]), Times.ParseISO(s[i + 1..]))
  }

  /** The groups of both halves as one record, or the first half's error. */
  function Join(date: Result<Shared.YearMonthDay>, time: Result<Times.CivilTime>): Result<Shared.Fields>
  {
    var d :- date;
    var t :- time;
    Ok(Shared.Fields(d.year, d.month, d.day, t.hour, t.minute, t.second, t.millisecond, t.microsecond, t.nanosecond))
  }

  /** A date text without 'T', a 'T', then a time text: each half goes to its own parser. */
  lemma ParseISOOfParts(a: string, b: string)
    requires 'T' !in a
    ensures ParseISO(a + "T" + b) == Join(Dates.ParseISO(a), Times.ParseISO(b))
  {
    FindTOf(a, b);
    var s := a + "T" + b;
    assert s[..|a|] == a && s[|a| + 1..] == b;
  }

  /** `CivilDateTime.fromString(isoStr)`: parseISO, then the constructor. */
  function FromString(s: string): Result<CivilDateTime>
  {
    var f :- ParseISO(s);
    NewCivilDateTime(Fin(f.year), Fin(f.month), Fin(f.day), f.hour, f.minute, f.second,
                     f.millisecond, f.microsecond, f.nanosecond)
  }

  /** A text without 'T', a 'T', then anything: the first 'T' is the one in the middle. */
  lemma FindTOf(a: string, b: string)
    requires 'T' !in a
    ensures FindT(a + "T" + b) == Some(|a|)
  {
    var s := a + "T" + b;
    assert s[|a|] == 'T' && s[..|a|] == a;
  }

  /** The printed date of a date-time with a finite day is date.toString's text. */
  lemma DateTextOf(dt: CivilDateTime)
    requires dt.day.Fin?
    ensures ToString(dt) == Dates.ToString(DateOf(dt)) + "T" + Times.ToString(TimeOf(dt))
  {
  }

  /** date.toString's text is a sign, digits and dashes, with no 'T'. */
  lemma NoTInDate(d: Dates.CivilDate)
    ensures 'T' !in Dates.ToString(d)
  {
    var y, m, dd := Shared.SignedPad(d.year, 4), Shared.Pad(d.month, 2), Shared.Pad(d.day, 2);
    Iso.NotInDigits(Shared.Pad(d.year, 4), 'T');
    Iso.NotInDigits(m, 'T');
    Iso.NotInDigits(dd, 'T');
    assert 'T' !in y;
    assert Dates.ToString(d) == y + "-" + m + "-" + dd;
  }

  /** toString prints what parseISO reads back as the nine fields, for every valid date-time. */
  lemma ParseOfToString(dt: CivilDateTime)
    requires Valid(dt)
    ensures ParseISO(ToString(dt)) == Ok(FieldsOf(dt))
  {
    DateTextOf(dt);
    NoTInDate(DateOf(dt));
    ParseISOOfParts(Dates.ToString(DateOf(dt)), Times.ToString(TimeOf(dt)));
    Dates.ParseOfToString(DateOf(dt));
    Times.ParseOfToString(TimeOf(dt));
  }

  /** fromString inverts toString on every valid date-time the constructor produced. */
  lemma FromStringOfToString(dt: CivilDateTime)
    requires Valid(dt) && Recorded(dt)
    ensures FromString(ToString(dt)) == Ok(dt)
  {
    ParseOfToString(dt);
  }
}
