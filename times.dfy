/**
 * lib/time.mjs: `CivilTime`, a wall-clock time whose DATA record is a
 * `calculate` result, with `with`, `plus`, `minus`, `difference`,
 * `toString`, `fromString`, the ISO parser and `compare`.
 */
module Times {
  import opened Js
  import Text
  import Shared
  import Durations
  import Iso

  /**
   * The six getters of a CivilTime. Its DATA record also holds the year,
   * month and day `calculate` carried into, but nothing reads them.
   */
  datatype CivilTime = CivilTime(hour: int, minute: int, second: int, millisecond: int, microsecond: int, nanosecond: int)

  /** Every field within its unit's range. */
  predicate Valid(t: CivilTime)
  {
    Shared.ClockValid(t.hour, t.minute, t.second, t.millisecond, t.microsecond, t.nanosecond)
  }

  /** The time of day in nanoseconds. */
  function DayNs(t: CivilTime): int
  {
    Shared.TimeNs(t.hour, t.minute, t.second, t.millisecond, t.microsecond, t.nanosecond)
  }

  /** A valid time lies within one day, and its time of day determines it. */
  lemma DayNsInjective(a: CivilTime, b: CivilTime)
    requires Valid(a) && Valid(b) && DayNs(a) == DayNs(b)
    ensures a == b
  {
    Shared.ClockInjective(a.hour, a.minute, a.second, a.millisecond, a.microsecond, a.nanosecond,
                          b.hour, b.minute, b.second, b.millisecond, b.microsecond, b.nanosecond);
  }

  lemma DayNsRange(t: CivilTime)
    requires Valid(t)
    ensures 0 <= DayNs(t) < Shared.NsPerDay
  {
  }

  // ---------------------------------------------------------------------------
  // constructor

  /** The time fields of a `calculate` result. */
  function TimeOf(r: Shared.Calculated): CivilTime
  {
    CivilTime(r.hour, r.minute, r.second, r.millisecond, r.microsecond, r.nanosecond)
  }

  /** What `calculate` destructures from `{}`: every field defaults to 0. */
  const NoFields := Shared.Fields(0, 0, 0, 0, 0, 0, 0, 0, 0)

  /** The delta the constructor hands `calculate`: its six arguments as hours down to nanoseconds. */
  function ClockDelta(hours: int, minutes: int, seconds: int, milliseconds: int, microseconds: int, nanoseconds: int): Shared.Delta
  {
    Shared.Delta(0, 0, 0, hours, minutes, seconds, milliseconds, microseconds, nanoseconds)
  }

  /** `new CivilTime(hours, minutes, seconds, milliseconds, microseconds, nanoseconds)`: `calculate({}, {...})`. */
  function NewCivilTime(hours: int, minutes: int, seconds: int, milliseconds: int, microseconds: int, nanoseconds: int): CivilTime
  {
    TimeOf(Shared.CalculateSpec(NoFields, ClockDelta(hours, minutes, seconds, milliseconds, microseconds, nanoseconds), false))
  }

  /**
   * The constructor reduces its arguments' weighted total modulo one day:
   * the hour wraps at 24, and the carry goes into the date fields nobody
   * reads.
   */
  lemma NewCivilTimeSpec(hours: int, minutes: int, seconds: int, milliseconds: int, microseconds: int, nanoseconds: int)
    ensures var t := NewCivilTime(hours, minutes, seconds, milliseconds, microseconds, nanoseconds);
      Valid(t) && DayNs(t) == Shared.TimeNs(hours, minutes, seconds, milliseconds, microseconds, nanoseconds) % Shared.NsPerDay
  {
    var u := Shared.CalculateTimeOfDay(NoFields, ClockDelta(hours, minutes, seconds, milliseconds, microseconds, nanoseconds), false);
  }

  /** Constructing a valid time from its own fields gives it back. */
  lemma NewOfValid(t: CivilTime)
    requires Valid(t)
    ensures NewCivilTime(t.hour, t.minute, t.second, t.millisecond, t.microsecond, t.nanosecond) == t
  {
    NewCivilTimeSpec(t.hour, t.minute, t.second, t.millisecond, t.microsecond, t.nanosecond);
    var r := NewCivilTime(t.hour, t.minute, t.second, t.millisecond, t.microsecond, t.nanosecond);
    DivModUnique(DayNs(t), Shared.NsPerDay, 0, DayNs(t));
    DayNsInjective(r, t);
  }

  // ---------------------------------------------------------------------------
  // with

  /** The properties copyProps reads from a CivilTime: its six getters. */
  function PropsOf(t: CivilTime): Shared.Props
  {
    map[Shared.Hour := Fin(t.hour), Shared.Minute := Fin(t.minute), Shared.Second := Fin(t.second),
        Shared.Millisecond := Fin(t.millisecond), Shared.Microsecond := Fin(t.microsecond),
        Shared.Nanosecond := Fin(t.nanosecond)]
  }

  /** A property bag whose defined properties are all finite numbers. */
  predicate Finite(p: Shared.Props)
  {
    forall f | f in p :: p[f].Fin?
  }

  /** A field of a merged bag that defines it with a finite value. */
  function Value(p: Shared.Props, f: Shared.Field): int
    requires f in p && p[f].Fin?
  {
    p[f].v
  }

  /** `time.with(timeLike)`: copyProps of the time and the argument, then the constructor. */
  function With(t: CivilTime, timeLike: Shared.Props): CivilTime
    requires Finite(timeLike)
  {
    var m := Shared.Merge([PropsOf(t), timeLike]);
    Shared.MergeTwo(PropsOf(t), timeLike);
    NewCivilTime(Value(m, Shared.Hour), Value(m, Shared.Minute), Value(m, Shared.Second),
                 Value(m, Shared.Millisecond), Value(m, Shared.Microsecond), Value(m, Shared.Nanosecond))
  }

  /** The argument's property when it defines it, the time's otherwise. */
  function Pick(timeLike: Shared.Props, f: Shared.Field, own: int): int
    requires Finite(timeLike)
  {
    if f in timeLike then timeLike[f].v else own
  }

  /**
   * `with` takes each field from the argument when it defines it and keeps
   * the time's otherwise, then normalizes: `with({minute: 8, nanosecond: 3})`
   * on 15:23:30.123456789 gives 15:08:30.123456003.
   */
  lemma WithReplaces(t: CivilTime, timeLike: Shared.Props)
    requires Finite(timeLike)
    ensures With(t, timeLike) == NewCivilTime(
      Pick(timeLike, Shared.Hour, t.hour), Pick(timeLike, Shared.Minute, t.minute), Pick(timeLike, Shared.Second, t.second),
      Pick(timeLike, Shared.Millisecond, t.millisecond), Pick(timeLike, Shared.Microsecond, t.microsecond),
      Pick(timeLike, Shared.Nanosecond, t.nanosecond))
  {
    Shared.MergeTwo(PropsOf(t), timeLike);
  }

  /** A valid time `with` an empty bag, or with its own fields, is the same time. */
  lemma WithNothing(t: CivilTime)
    requires Valid(t)
    ensures With(t, map[]) == t
  {
    WithReplaces(t, map[]);
    NewOfValid(t);
  }

  // ---------------------------------------------------------------------------
  // plus / minus

  /** The fields `calculate` destructures from a CivilTime: no date getters, so the date defaults to 0. */
  function TimeFields(t: CivilTime): Shared.Fields
  {
    Shared.Fields(0, 0, 0, t.hour, t.minute, t.second, t.millisecond, t.microsecond, t.nanosecond)
  }

  /** calculate applied to the time's fields and a duration, then the constructor. */
  function MoveBy(t: CivilTime, dur: Durations.Duration, negate: bool): CivilTime
  {
    var r := Shared.CalculateSpec(TimeFields(t), Durations.DeltaOf(dur), negate);
    NewCivilTime(r.hour, r.minute, r.second, r.millisecond, r.microsecond, r.nanosecond)
  }

  /** `plus` (negate false) and `minus` (negate true): castDuration without a base, calculate, the constructor. */
  function Move(t: CivilTime, durationLike: Durations.DurationLike, negate: bool): Result<CivilTime>
  {
    var dur :- Durations.CastDurationOf(durationLike, None);
    Ok(MoveBy(t, dur, negate))
  }

  function Plus(t: CivilTime, durationLike: Durations.DurationLike): Result<CivilTime>
  {
    Move(t, durationLike, false)
  }

  function Minus(t: CivilTime, durationLike: Durations.DurationLike): Result<CivilTime>
  {
    Move(t, durationLike, true)
  }

  /**
   * The nanoseconds a duration-like object moves a clock by, counted modulo
   * a day: a Duration's own time components, or else the weighted total of
   * the absolute values of days down to nanoseconds.
   */
  function ShiftNs(durationLike: Durations.DurationLike): int
  {
    match durationLike
    case Instance(d) => Durations.SubDayNs(d)
    case Like(f) => Durations.InputTotal(f)
  }

  /** A time of day moved by x nanoseconds forwards (or backwards when negate holds), wrapped around midnight. */
  function Wrap(a: int, negate: bool, x: int): int
  {
    (a + Shared.Signed(negate, x)) % Shared.NsPerDay
  }

  /** Adding a multiple of a day does not change a time of day. */
  lemma ModDays(a: int, b: int, k: int, shift: int, negate: bool)
    requires shift == b + k * Shared.NsPerDay
    ensures Wrap(a, negate, shift) == Wrap(a, negate, b)
  {
    var x := a + Shared.Signed(negate, b);
    var k' := if negate then -k else k;
    assert a + Shared.Signed(negate, shift) == x + k' * Shared.NsPerDay;
    DivModUnique(x + k' * Shared.NsPerDay, Shared.NsPerDay, x / Shared.NsPerDay + k', x % Shared.NsPerDay);
  }

  /**
   * `plus` and `minus` never throw, and they move the time of day by the
   * duration modulo one day, wrapping around midnight: on
   * 15:23:30.123456789, plus 16 hours gives 07:23:30.123456789, minus 16
   * hours 23:23:30.123456789, plus 300 ns …457089 and minus 800 ns …455989.
   */
  lemma MoveSpec(t: CivilTime, durationLike: Durations.DurationLike, negate: bool) returns (m: CivilTime)
    ensures Move(t, durationLike, negate) == Ok(m)
    ensures Valid(m) && DayNs(m) == Wrap(DayNs(t), negate, ShiftNs(durationLike))
  {
    var dur, k := CastWithoutBase(durationLike);
    MoveBySpec(t, dur, negate);
    ModDays(DayNs(t), Durations.SubDayNs(dur), k, ShiftNs(durationLike), negate);
    m := MoveBy(t, dur, negate);
  }

  /** Without a base castDuration never throws, and it keeps the shift modulo whole days. */
  lemma CastWithoutBase(durationLike: Durations.DurationLike) returns (dur: Durations.Duration, k: int)
    ensures Durations.CastDurationOf(durationLike, None) == Ok(dur)
    ensures ShiftNs(durationLike) == Durations.SubDayNs(dur) + k * Shared.NsPerDay
  {
    if durationLike.Like? {
      Durations.CastDurationProperties(durationLike, None);
    }
    dur := Durations.CastDurationOf(durationLike, None).value;
    k := if durationLike.Like? then dur.days else 0;
  }

  /** The clock `calculate` leaves: valid, and the sum of the two times of day modulo one day. */
  lemma ClockOf(f: Shared.Fields, d: Shared.Delta, negate: bool, a: int, b: int) returns (c: CivilTime)
    requires a == Shared.TimeNs(f.hour, f.minute, f.second, f.millisecond, f.microsecond, f.nanosecond)
    requires b == Shared.TimeNs(d.hours, d.minutes, d.seconds, d.milliseconds, d.microseconds, d.nanoseconds)
    ensures c == TimeOf(Shared.CalculateSpec(f, d, negate))
    ensures Valid(c) && DayNs(c) == Wrap(a, negate, b)
  {
    var u := Shared.CalculateTimeOfDay(f, d, negate);
    c := TimeOf(Shared.CalculateSpec(f, d, negate));
  }

  /** calculate followed by the constructor moves the time of day by the duration's time components. */
  lemma MoveBySpec(t: CivilTime, dur: Durations.Duration, negate: bool)
    ensures Valid(MoveBy(t, dur, negate))
    ensures DayNs(MoveBy(t, dur, negate)) == Wrap(DayNs(t), negate, Durations.SubDayNs(dur))
  {
    var c := ClockOf(TimeFields(t), Durations.DeltaOf(dur), negate, DayNs(t), Durations.SubDayNs(dur));
    NewOfValid(c);
  }

  /** Going back by a shift undoes going forward by it, modulo one day. */
  lemma ModUndo(a: int, x: int, b: int, negate: bool)
    requires 0 <= a < Shared.NsPerDay
    requires b == Wrap(a, negate, x)
    ensures Wrap(b, !negate, x) == a
  {
    var q := (a + Shared.Signed(negate, x)) / Shared.NsPerDay;
    assert b + Shared.Signed(!negate, x) == a - q * Shared.NsPerDay;
    DivModUnique(b + Shared.Signed(!negate, x), Shared.NsPerDay, -q, a);
  }

  /** Moving back by what was added restores every valid time. */
  lemma MoveUndo(t: CivilTime, durationLike: Durations.DurationLike, negate: bool)
    requires Valid(t)
    ensures Move(t, durationLike, negate).Ok?
    ensures Move(Move(t, durationLike, negate).value, durationLike, !negate) == Ok(t)
  {
    var p := MoveSpec(t, durationLike, negate);
    var m := MoveSpec(p, durationLike, !negate);
    Restores(t, p, m, ShiftNs(durationLike), negate);
  }

  /** A valid time moved by a shift and back is itself again. */
  lemma Restores(t: CivilTime, p: CivilTime, m: CivilTime, x: int, negate: bool)
    requires Valid(t) && Valid(m)
    requires DayNs(p) == Wrap(DayNs(t), negate, x)
    requires DayNs(m) == Wrap(DayNs(p), !negate, x)
    ensures m == t
  {
    ModUndo(DayNs(t), x, DayNs(p), negate);
    DayNsInjective(m, t);
  }

  /** `minus` undoes `plus` on every valid time, for every duration-like argument. */
  lemma PlusMinus(t: CivilTime, durationLike: Durations.DurationLike)
    requires Valid(t)
    ensures Plus(t, durationLike).Ok? && Minus(Plus(t, durationLike).value, durationLike) == Ok(t)
  {
    MoveUndo(t, durationLike, false);
  }

  /** `plus` undoes `minus` likewise. */
  lemma MinusPlus(t: CivilTime, durationLike: Durations.DurationLike)
    requires Valid(t)
    ensures Minus(t, durationLike).Ok? && Plus(Minus(t, durationLike).value, durationLike) == Ok(t)
  {
    MoveUndo(t, durationLike, true);
  }

  // ---------------------------------------------------------------------------
  // compare

  /**
   * `compare(one, two)`: the first of hour down to nanosecond that differs
   * decides, as two's value minus one's, so a later `two` compares above.
   */
  function Compare(one: CivilTime, two: CivilTime): (r: int)
    ensures r == 0 <==> one == two
  {
    if one.hour != two.hour then two.hour - one.hour
    else if one.minute != two.minute then two.minute - one.minute
    else if one.second != two.second then two.second - one.second
    else if one.millisecond != two.millisecond then two.millisecond - one.millisecond
    else if one.microsecond != two.microsecond then two.microsecond - one.microsecond
    else if one.nanosecond != two.nanosecond then two.nanosecond - one.nanosecond
    else 0
  }

  /** Swapping the operands negates the comparison. */
  lemma CompareAntisymmetric(one: CivilTime, two: CivilTime)
    ensures Compare(two, one) == -Compare(one, two)
  {
  }

  /** On valid times the comparison is positive exactly when two is later in the day: a descending order. */
  lemma CompareDescending(one: CivilTime, two: CivilTime)
    requires Valid(one) && Valid(two)
    ensures Compare(one, two) > 0 <==> DayNs(one) < DayNs(two)
    ensures Compare(one, two) < 0 <==> DayNs(two) < DayNs(one)
  {
    if Compare(one, two) > 0 {
      EarlierByCompare(one, two);
    } else if Compare(one, two) < 0 {
      CompareAntisymmetric(one, two);
      EarlierByCompare(two, one);
    }
  }

  /** The first field that differs decides the time of day, because every lower field is within range. */
  lemma EarlierByCompare(one: CivilTime, two: CivilTime)
    requires Valid(one) && Valid(two) && Compare(one, two) > 0
    ensures DayNs(one) < DayNs(two)
  {
  }

  /**
   * `[a, b].sort(compare)`: a stays first unless compare puts it after b;
   * with the descending compare the later time comes first.
   */
  function SortPair(a: CivilTime, b: CivilTime): (CivilTime, CivilTime)
  {
    if Compare(a, b) > 0 then (b, a) else (a, b)
  }

  /** The sorted pair does not depend on the operands' order, and for valid times its first is the later one. */
  lemma SortPairSymmetric(a: CivilTime, b: CivilTime)
    ensures SortPair(a, b) == SortPair(b, a)
    ensures Valid(a) && Valid(b) ==> DayNs(SortPair(a, b).1) <= DayNs(SortPair(a, b).0)
  {
    CompareAntisymmetric(a, b);
    if Valid(a) && Valid(b) {
      CompareDescending(a, b);
    }
  }

  // ---------------------------------------------------------------------------
  // difference

  /** A property of `other` after copyProps over the all-zero defaults. */
  function Get(other: map<Shared.Field, int>, f: Shared.Field): int
  {
    if f in other then other[f] else 0
  }

  /** The `{ hour, …, nanosecond }` of `other` after copyProps over `{ hour: 0, …, nanosecond: 0 }`. */
  function OtherOf(other: map<Shared.Field, int>): CivilTime
  {
    CivilTime(Get(other, Shared.Hour), Get(other, Shared.Minute), Get(other, Shared.Second),
              Get(other, Shared.Millisecond), Get(other, Shared.Microsecond), Get(other, Shared.Nanosecond))
  }

  /** A CivilTime passed as `other`: its six getters. */
  function FieldsOf(t: CivilTime): map<Shared.Field, int>
  {
    map[Shared.Hour := t.hour, Shared.Minute := t.minute, Shared.Second := t.second,
        Shared.Millisecond := t.millisecond, Shared.Microsecond := t.microsecond, Shared.Nanosecond := t.nanosecond]
  }

  lemma OtherOfFields(t: CivilTime)
    ensures OtherOf(FieldsOf(t)) == t
  {
  }

  /** The six field-by-field differences two − one. */
  function Sub(one: CivilTime, two: CivilTime): CivilTime
  {
    CivilTime(two.hour - one.hour, two.minute - one.minute, two.second - one.second,
              two.millisecond - one.millisecond, two.microsecond - one.microsecond, two.nanosecond - one.nanosecond)
  }

  /**
   * The five pairs of borrow loops: each unit below the hour brought into
   * its range, the carry moved one unit up; the hours are left unbounded.
   */
  function Borrow(x: CivilTime): CivilTime
  {
    var us := x.microsecond + x.nanosecond / 1000;
    var ms := x.millisecond + us / 1000;
    var sec := x.second + ms / 1000;
    var min := x.minute + sec / 60;
    CivilTime(x.hour + min / 60, min % 60, sec % 60, ms % 1000, us % 1000, x.nanosecond % 1000)
  }

  /** The time of day of the fields below the hour. */
  function BelowHour(x: CivilTime): int
  {
    Shared.TimeNs(0, x.minute, x.second, x.millisecond, x.microsecond, x.nanosecond)
  }

  /**
   * The borrows keep the weighted total and put every unit below the hour
   * in range, so the hours are the total's floor in whole hours and the rest
   * its remainder.
   */
  lemma BorrowSpec(x: CivilTime)
    ensures var b := Borrow(x);
      && 0 <= b.minute < 60 && 0 <= b.second < 60
      && 0 <= b.millisecond < 1000 && 0 <= b.microsecond < 1000 && 0 <= b.nanosecond < 1000
      && b.hour == DayNs(x) / Shared.NsPerHour && BelowHour(b) == DayNs(x) % Shared.NsPerHour
      && DayNs(x) == b.hour * Shared.NsPerHour + BelowHour(b) && 0 <= BelowHour(b) < Shared.NsPerHour
  {
    var b := Borrow(x);
    var us := x.microsecond + x.nanosecond / 1000;
    var ms := x.millisecond + us / 1000;
    var sec := x.second + ms / 1000;
    var min := x.minute + sec / 60;
    assert x.nanosecond == 1000 * (x.nanosecond / 1000) + b.nanosecond;
    assert us == 1000 * (us / 1000) + b.microsecond;
    assert ms == 1000 * (ms / 1000) + b.millisecond;
    assert sec == 60 * (sec / 60) + b.second;
    assert min == 60 * (min / 60) + b.minute;
    assert DayNs(b) == DayNs(x);
    assert 0 <= BelowHour(b) < Shared.NsPerHour;
    assert DayNs(b) == b.hour * Shared.NsPerHour + BelowHour(b);
    DivModUnique(DayNs(x), Shared.NsPerHour, b.hour, BelowHour(b));
  }

  /** The field differences of two times are their times of day subtracted. */
  lemma SubDayNs(one: CivilTime, two: CivilTime)
    ensures DayNs(Sub(one, two)) == DayNs(two) - DayNs(one)
  {
  }

  /** `castDuration({ hours, minutes, seconds, milliseconds, microseconds, nanoseconds })` of the loops' results. */
  function DiffLike(b: CivilTime): Durations.DurationLike
  {
    Durations.Like(Durations.DurationFields(NaN, NaN, NaN, Fin(b.hour), Fin(b.minute), Fin(b.second),
                                            Fin(b.millisecond), Fin(b.microsecond), Fin(b.nanosecond)))
  }

  /** The loops applied to two − one, then castDuration without a base. */
  function DifferenceOf(one: CivilTime, two: CivilTime): Result<Durations.Duration>
  {
    Durations.CastDurationOf(DiffLike(Borrow(Sub(one, two))), None)
  }

  /** `time.difference(other)`: the descending sort, then the loops on second − first. */
  function DifferenceSpec(t: CivilTime, other: map<Shared.Field, int>): Result<Durations.Duration>
  {
    var p := SortPair(t, OtherOf(other));
    DifferenceOf(p.0, p.1)
  }

  /** The nanoseconds a duration with no years or months stands for. */
  function Total(d: Durations.Duration): int
  {
    d.days * Shared.NsPerDay + Durations.SubDayNs(d)
  }

  /** What castDuration adds up for the loops' results: the magnitude of the hours and the in-range rest. */
  lemma DiffLikeTotal(b: CivilTime)
    requires 0 <= b.minute && 0 <= b.second && 0 <= b.millisecond && 0 <= b.microsecond && 0 <= b.nanosecond
    ensures Durations.InputTotal(DiffLike(b).f) == Abs(b.hour) * Shared.NsPerHour + BelowHour(b)
  {
  }

  /**
   * For any pair, the loops and the cast give the absolute floor q of
   * (two − one) in whole hours, plus the non-negative remainder r.
   */
  lemma DifferenceOfTotal(one: CivilTime, two: CivilTime) returns (dur: Durations.Duration, q: int, r: int)
    ensures DifferenceOf(one, two) == Ok(dur)
    ensures dur.years.None? && dur.months.None? && Durations.TimeInRange(dur) && dur.days >= 0
    ensures DayNs(two) - DayNs(one) == q * Shared.NsPerHour + r && 0 <= r < Shared.NsPerHour
    ensures Total(dur) == Abs(q) * Shared.NsPerHour + r
  {
    var x := Sub(one, two);
    var b := Borrow(x);
    BorrowSpec(x);
    SubDayNs(one, two);
    DiffLikeTotal(b);
    var like := DiffLike(b);
    Durations.CastDurationProperties(like, None);
    dur := Durations.CastDurationOf(like, None).value;
    q, r := b.hour, BelowHour(b);
  }

  /** Splitting −n into whole hours q and a remainder r: the hours' magnitude exceeds n by r. */
  lemma NegativeSplit(n: int, q: int, r: int, total: int)
    requires n >= 0 && -n == q * Shared.NsPerHour + r && 0 <= r < Shared.NsPerHour
    requires total == Abs(q) * Shared.NsPerHour + r
    ensures total == n + 2 * ((-n) % Shared.NsPerHour)
  {
    assert q <= 0;
    DivModUnique(-n, Shared.NsPerHour, q, r);
  }

  /** The gap between two times of day. */
  function Gap(a: CivilTime, b: CivilTime): int
  {
    Abs(DayNs(a) - DayNs(b))
  }

  /**
   * For valid operands the result never throws and has no years or months,
   * and it stands for the gap n plus twice (−n) mod one hour: the sort puts
   * the later time first, so the borrowed remainder is counted again when
   * castDuration takes the negative hours' magnitude.
   */
  lemma DifferenceTotal(t: CivilTime, other: map<Shared.Field, int>) returns (dur: Durations.Duration)
    requires Valid(t) && Valid(OtherOf(other))
    ensures dur.years.None? && dur.months.None? && Durations.TimeInRange(dur) && dur.days >= 0
    ensures Total(dur) == Gap(t, OtherOf(other)) + 2 * ((-Gap(t, OtherOf(other))) % Shared.NsPerHour)
    ensures DifferenceSpec(t, other) == Ok(dur)
  {
    var p := SortPair(t, OtherOf(other));
    SortPairSymmetric(t, OtherOf(other));
    var q, r;
    dur, q, r := DifferenceOfTotal(p.0, p.1);
    SortedGap(t, OtherOf(other));
    NegativeSplit(Gap(t, OtherOf(other)), q, r, Total(dur));
  }

  /** The sorted pair's first minus its second is the gap. */
  lemma SortedGap(a: CivilTime, b: CivilTime)
    requires Valid(a) && Valid(b)
    ensures DayNs(SortPair(a, b).0) - DayNs(SortPair(a, b).1) == Gap(a, b)
    ensures 0 <= Gap(a, b) < Shared.NsPerDay
  {
    DayNsRange(a);
    DayNsRange(b);
    SortPairSymmetric(a, b);
  }

  /** `difference` does not depend on which operand is the receiver. */
  lemma DifferenceSymmetric(a: CivilTime, b: CivilTime)
    ensures DifferenceSpec(a, FieldsOf(b)) == DifferenceSpec(b, FieldsOf(a))
  {
    OtherOfFields(a);
    OtherOfFields(b);
    SortPairSymmetric(a, b);
  }

  /** A duration in range is determined by what it stands for, when that is below a day. */
  lemma ClockOfTotal(dur: Durations.Duration, c: CivilTime)
    requires Durations.TimeInRange(dur) && Valid(c) && Total(dur) == DayNs(c)
    ensures dur.days == 0 && dur.hours == c.hour && dur.minutes == c.minute && dur.seconds == c.second
    ensures dur.milliseconds == c.millisecond && dur.microseconds == c.microsecond && dur.nanoseconds == c.nanosecond
  {
    DivModUnique(DayNs(c), Shared.NsPerDay, dur.days, Durations.SubDayNs(dur));
    DivModUnique(DayNs(c), Shared.NsPerDay, 0, DayNs(c));
    Shared.ClockInjective(dur.hours, dur.minutes, dur.seconds, dur.milliseconds, dur.microseconds, dur.nanoseconds,
                          c.hour, c.minute, c.second, c.millisecond, c.microsecond, c.nanosecond);
  }

  /** Times a whole number of hours apart differ by exactly those hours. */
  lemma DifferenceWholeHours(t: CivilTime, other: map<Shared.Field, int>)
    requires Valid(t) && Valid(OtherOf(other)) && Gap(t, OtherOf(other)) % Shared.NsPerHour == 0
    ensures DifferenceSpec(t, other)
      == Ok(Durations.Duration(None, None, 0, Gap(t, OtherOf(other)) / Shared.NsPerHour, 0, 0, 0, 0, 0))
  {
    var dur := DifferenceTotal(t, other);
    var c := WholeHoursClock(Gap(t, OtherOf(other)), Total(dur));
    ClockOfTotal(dur, c);
  }

  /** For a gap of whole hours below a day, the (−n) mod one hour term vanishes and the total is a clock reading. */
  lemma WholeHoursClock(n: int, total: int) returns (c: CivilTime)
    requires 0 <= n < Shared.NsPerDay && n % Shared.NsPerHour == 0
    requires total == n + 2 * ((-n) % Shared.NsPerHour)
    ensures c == CivilTime(n / Shared.NsPerHour, 0, 0, 0, 0, 0) && Valid(c) && total == DayNs(c)
  {
    DivModUnique(-n, Shared.NsPerHour, -(n / Shared.NsPerHour), 0);
    c := CivilTime(n / Shared.NsPerHour, 0, 0, 0, 0, 0);
  }

  /** The receiver of the polyfill's difference tests, 15:23:30.123456789. */
  const Afternoon := CivilTime(15, 23, 30, 123, 456, 789)

  /** One hour earlier than Afternoon gives exactly one hour. */
  lemma DifferenceOneHour()
    ensures DifferenceSpec(Afternoon, FieldsOf(CivilTime(14, 23, 30, 123, 456, 789)))
      == Ok(Durations.Duration(None, None, 0, 1, 0, 0, 0, 0, 0))
  {
    OtherOfFields(CivilTime(14, 23, 30, 123, 456, 789));
    DifferenceWholeHours(Afternoon, FieldsOf(CivilTime(14, 23, 30, 123, 456, 789)));
  }

  /**
   * 13:30:30.123456789 is 1h53m before Afternoon, but the code's result is
   * 2h7m: hours 13 − 15 = −2 and minutes 30 − 23 = 7 need no borrow, and
   * castDuration reads the −2 as 2.
   */
  lemma DifferenceAsWritten()
    ensures DifferenceSpec(Afternoon, FieldsOf(CivilTime(13, 30, 30, 123, 456, 789)))
      == Ok(Durations.Duration(None, None, 0, 2, 7, 0, 0, 0, 0))
  {
    var o := CivilTime(13, 30, 30, 123, 456, 789);
    OtherOfFields(o);
    var dur := DifferenceTotal(Afternoon, FieldsOf(o));
    assert Gap(Afternoon, o) == 113 * Shared.NsPerMinute;
    DivModUnique(-113 * Shared.NsPerMinute, Shared.NsPerHour, -2, 7 * Shared.NsPerMinute);
    ClockOfTotal(dur, CivilTime(2, 7, 0, 0, 0, 0));
  }

  /** The evidently intended difference: the pair sorted ascending, so the loops subtract the earlier time from the later. */
  function DifferenceIntended(t: CivilTime, other: map<Shared.Field, int>): Result<Durations.Duration>
  {
    var p := SortPair(t, OtherOf(other));
    DifferenceOf(p.1, p.0)
  }

  /** With the ascending order the result is exactly the gap between two valid times. */
  lemma DifferenceIntendedSpec(t: CivilTime, other: map<Shared.Field, int>) returns (dur: Durations.Duration)
    requires Valid(t) && Valid(OtherOf(other))
    ensures dur.years.None? && dur.months.None? && Durations.TimeInRange(dur)
    ensures dur.days == 0 && Durations.SubDayNs(dur) == Gap(t, OtherOf(other))
    ensures DifferenceIntended(t, other) == Ok(dur)
  {
    var p := SortPair(t, OtherOf(other));
    var q, r;
    dur, q, r := DifferenceOfTotal(p.1, p.0);
    SortedGap(t, OtherOf(other));
    WithinDay(dur, Gap(t, OtherOf(other)), q, r);
  }

  /** A non-negative split below a day: the duration is that many nanoseconds, with no days. */
  lemma WithinDay(dur: Durations.Duration, n: int, q: int, r: int)
    requires 0 <= n < Shared.NsPerDay && n == q * Shared.NsPerHour + r && 0 <= r < Shared.NsPerHour
    requires Durations.TimeInRange(dur) && Total(dur) == Abs(q) * Shared.NsPerHour + r
    ensures dur.days == 0 && Durations.SubDayNs(dur) == n
  {
    assert q >= 0;
    DivModUnique(n, Shared.NsPerDay, dur.days, Durations.SubDayNs(dur));
    DivModUnique(n, Shared.NsPerDay, 0, n);
  }

  /** The intended difference of the second test's operands: 1h53m. */
  lemma DifferenceIntendedExample()
    ensures DifferenceIntended(Afternoon, FieldsOf(CivilTime(13, 30, 30, 123, 456, 789)))
      == Ok(Durations.Duration(None, None, 0, 1, 53, 0, 0, 0, 0))
  {
    var o := CivilTime(13, 30, 30, 123, 456, 789);
    OtherOfFields(o);
    var dur := DifferenceIntendedSpec(Afternoon, FieldsOf(o));
    ClockOfTotal(dur, CivilTime(1, 53, 0, 0, 0, 0));
  }

  /** The five pairs of borrow loops of difference. */
  method BorrowLoops(x: CivilTime) returns (b: CivilTime)
    ensures b == Borrow(x)
  {
    var hours, minutes, seconds := x.hour, x.minute, x.second;
    var milliseconds, microseconds, nanoseconds := x.millisecond, x.microsecond, x.nanosecond;
    nanoseconds, microseconds := Shared.Carry(nanoseconds, microseconds, 1000);
    microseconds, milliseconds := Shared.Carry(microseconds, milliseconds, 1000);
    milliseconds, seconds := Shared.Carry(milliseconds, seconds, 1000);
    seconds, minutes := Shared.Carry(seconds, minutes, 60);
    minutes, hours := Shared.Carry(minutes, hours, 60);
    b := CivilTime(hours, minutes, seconds, milliseconds, microseconds, nanoseconds);
  }

  /** `time.difference(other)`: copyProps over zeros, the sort, the loops, then castDuration. */
  method Difference(t: CivilTime, other: map<Shared.Field, int>) returns (r: Result<Durations.Duration>)
    ensures r == DifferenceSpec(t, other)
  {
    var p := SortPair(t, OtherOf(other));
    var one, two := p.0, p.1;
    var b := BorrowLoops(Sub(one, two));
    r := Durations.CastDuration(DiffLike(b), None);
  }

  // ---------------------------------------------------------------------------
  // toString / fromString

  /** `` `000${x}`.slice(-3) ``: the last three characters of the number's text after three zeros. */
  function Sub3(x: int): string
  {
    Shared.SliceLast("000" + Text.IntToString(x), 3)
  }

  /** `time.toString()`: `HH:MM:SS.fffffffff`. */
  function ToString(t: CivilTime): string
  {
    Shared.Pad(t.hour, 2) + ":" + Shared.Pad(t.minute, 2) + ":" + Shared.Pad(t.second, 2) + "."
      + Sub3(t.millisecond) + Sub3(t.microsecond) + Sub3(t.nanosecond)
  }

  /** For a field in 0..999 the slice is the three-digit zero-padded form. */
  lemma Sub3OfValid(x: int)
    requires 0 <= x < 1000
    ensures Sub3(x) == Shared.Pad(x, 3)
  {
    Iso.Pow10Small();
    Text.DecimalShort(x, 3);
    assert "000" == Text.Zeros(3);
  }

  /** The optional `(?::([0-5][0-9]))` group: its two digits, or "" when the text does not start with ':'. */
  function SplitSeconds(rest: string): (string, string)
  {
    if |rest| >= 3 && rest[0] == ':' then (rest[1..3], rest[3..]) else ("", rest)
  }

  /** The seconds group is absent, or two digits 00..59. */
  predicate SecondsOk(sec: string)
  {
    sec == "" || Iso.Digits(sec, 2, 0, 59).Some?
  }

  /** The optional `(?:\.(\d{3}|\d{6}|\d{9}))` group at the end: its digits, "" when absent. */
  function Fraction(tail: string): Option<string>
  {
    if tail == "" then Some("")
    else if tail[0] == '.' && Text.IsDigits(tail[1..]) && (|tail| == 4 || |tail| == 7 || |tail| == 10) then Some(tail[1..])
    else None
  }

  /** `` +`00${match[3] || ''}`.slice(-2) ``: zero when the group is absent. */
  function SecondOf(sec: string): (v: int)
    requires SecondsOk(sec)
    ensures 0 <= v < 60
    ensures sec == "" ==> v == 0
    ensures sec != "" ==> v == Text.Value(sec)
  {
    if sec == "" then
      Text.ZerosValue(2);
      assert "00" + sec == Text.Zeros(2);
      Text.Value(Shared.SliceLast("00" + sec, 2))
    else
      assert Shared.SliceLast("00" + sec, 2) == sec;
      Text.Value(Shared.SliceLast("00" + sec, 2))
  }

  /** `` +`${match[4] || ''}000000000`.slice(0, 9) ``: the fraction right-padded with zeros to nine digits. */
  function SubsOf(frac: string): (v: nat)
    requires Text.IsDigits(frac)
    ensures v < 1000000000
  {
    Text.ValueAppend(frac, "000000000");
    assert Text.IsDigits((frac + "000000000")[..9]);
    Text.ValueBound((frac + "000000000")[..9]);
    Iso.Pow10Small();
    Text.Value((frac + "000000000")[..9])
  }

  /**
   * `parseISO(isoStr)`: the regular expression
   * `^([01][0-9]|2[0-3]):([0-5][0-9])(?::([0-5][0-9]))?(?:\.(\d{3}|\d{6}|\d{9}))?$`,
   * Error when it does not match. Hours and minutes have fixed width, so
   * the string splits after its second and fifth characters.
   */
  function ParseISO(s: string): (r: Result<CivilTime>)
    ensures r.Ok? ==> Valid(r.value)
    ensures r.Throw? ==> r.exc == Error
  {
    if |s| < 5 || s[2] != ':' then Throw(Error) else ParseFields(s[..2], s[3..5], s[5..])
  }

  /** The groups after `HH:MM`; the nine fraction digits split into milliseconds, microseconds and nanoseconds. */
  function ParseFields(hh: string, mm: string, rest: string): (r: Result<CivilTime>)
    ensures r.Ok? ==> Valid(r.value)
    ensures r.Throw? ==> r.exc == Error
  {
    var hour := Iso.Digits(hh, 2, 0, 23);
    var minute := Iso.Digits(mm, 2, 0, 59);
    var split := SplitSeconds(rest);
    var frac := Fraction(split.1);
    if hour.Some? && minute.Some? && SecondsOk(split.0) && frac.Some? then
      var subs := SubsOf(frac.value);
      Ok(CivilTime(hour.value, minute.value, SecondOf(split.0), subs / 1000000 % 1000, subs / 1000 % 1000, subs % 1000))
    else Throw(Error)
  }

  /** `CivilTime.fromString(timeString)`: parseISO, then the constructor. */
  function FromString(s: string): Result<CivilTime>
  {
    var p :- ParseISO(s);
    Ok(NewCivilTime(p.hour, p.minute, p.second, p.millisecond, p.microsecond, p.nanosecond))
  }

  /** A string `HH:MM` followed by anything splits after its fifth character. */
  lemma ParseISOOfParts(hh: string, mm: string, rest: string)
    requires |hh| == 2 && |mm| == 2
    ensures ParseISO(hh + ":" + mm + rest) == ParseFields(hh, mm, rest)
  {
    var s := hh + ":" + mm + rest;
    assert s[..2] == hh && s[2] == ':' && s[3..5] == mm && s[5..] == rest;
  }

  /** A seconds group of two characters, then the rest. */
  lemma SplitSecondsOf(ss: string, tail: string)
    requires |ss| == 2
    ensures SplitSeconds(":" + ss + tail) == (ss, tail)
  {
    var rest := ":" + ss + tail;
    assert rest[1..3] == ss && rest[3..] == tail;
  }

  /** A dot and three, six or nine digits is a fraction group. */
  lemma FractionOf(frac: string)
    requires Text.IsDigits(frac) && (|frac| == 3 || |frac| == 6 || |frac| == 9)
    ensures Fraction("." + frac) == Some(frac)
  {
    assert ("." + frac)[1..] == frac;
  }

  lemma Assoc(a: string, b: string, c: string)
    ensures a + b + c == a + (b + c)
  {
  }

  /** The fields of a full `HH:MM:SS.f` string. */
  lemma ParseFull(hh: string, mm: string, ss: string, frac: string)
    requires Iso.Digits(hh, 2, 0, 23).Some? && Iso.Digits(mm, 2, 0, 59).Some? && Iso.Digits(ss, 2, 0, 59).Some?
    requires Text.IsDigits(frac) && (|frac| == 3 || |frac| == 6 || |frac| == 9)
    ensures var subs := SubsOf(frac);
      ParseISO(hh + ":" + mm + ":" + ss + "." + frac)
        == Ok(CivilTime(Text.Value(hh), Text.Value(mm), Text.Value(ss), subs / 1000000 % 1000, subs / 1000 % 1000, subs % 1000))
  {
    var tail := "." + frac;
    var rest := ":" + ss + tail;
    SplitSecondsOf(ss, tail);
    FractionOf(frac);
    var front := hh + ":" + mm;
    Assoc(front, ":", ss);
    Assoc(front, ":" + ss, ".");
    Assoc(front, ":" + ss + ".", frac);
    Assoc(":" + ss, ".", frac);
    ParseISOOfParts(hh, mm, rest);
    assert ParseFields(hh, mm, rest) == Ok(CivilTime(Text.Value(hh), Text.Value(mm), SecondOf(ss),
      SubsOf(frac) / 1000000 % 1000, SubsOf(frac) / 1000 % 1000, SubsOf(frac) % 1000));
  }

  /** The fields of a short `HH:MM` string. */
  lemma ParseShort(hh: string, mm: string)
    requires Iso.Digits(hh, 2, 0, 23).Some? && Iso.Digits(mm, 2, 0, 59).Some?
    ensures ParseISO(hh + ":" + mm) == Ok(CivilTime(Text.Value(hh), Text.Value(mm), 0, 0, 0, 0))
  {
    assert hh + ":" + mm + "" == hh + ":" + mm;
    assert SplitSeconds("") == ("", "");
    SubsOfNone();
    ParseISOOfParts(hh, mm, "");
  }

  /** No fraction reads as zero. */
  lemma SubsOfNone()
    ensures SubsOf("") == 0
  {
    assert ("" + "000000000")[..9] == Text.Zeros(9);
    Text.ZerosValue(9);
  }

  /** Nine fraction digits are read as they are. */
  lemma SubsOfNine(frac: string)
    requires Text.IsDigits(frac) && |frac| == 9
    ensures SubsOf(frac) == Text.Value(frac)
  {
    assert (frac + "000000000")[..9] == frac;
  }

  /** Three fraction digits are read as thousandths of a second. */
  lemma SubsOfThree(frac: string)
    requires Text.IsDigits(frac) && |frac| == 3
    ensures SubsOf(frac) == Text.Value(frac) * 1000000
  {
    var z := Text.Zeros(6);
    assert (frac + "000000000")[..9] == frac + z;
    Text.ZerosValue(6);
    Text.ValueAppend(frac, z);
    Iso.Pow10Small();
  }

  /** Three three-digit groups read as one nine-digit number. */
  lemma ValueOfGroups(a: string, b: string, c: string)
    requires Text.IsDigits(a) && Text.IsDigits(b) && Text.IsDigits(c) && |b| == 3 && |c| == 3
    ensures Text.IsDigits(a + b + c)
    ensures Text.Value(a + b + c) == Text.Value(a) * 1000000 + Text.Value(b) * 1000 + Text.Value(c)
  {
    Iso.Pow10Small();
    Text.ValueAppend(a, b);
    Text.ValueAppend(a + b, c);
  }

  /** The three divisions of parseISO take a nine-digit number apart into its groups. */
  lemma SplitSubs(subs: int, ms: int, us: int, ns: int)
    requires 0 <= ms < 1000 && 0 <= us < 1000 && 0 <= ns < 1000
    requires subs == ms * 1000000 + us * 1000 + ns
    ensures subs / 1000000 % 1000 == ms && subs / 1000 % 1000 == us && subs % 1000 == ns
  {
    DivModUnique(subs, 1000000, ms, us * 1000 + ns);
    DivModUnique(ms, 1000, 0, ms);
    DivModUnique(subs, 1000, ms * 1000 + us, ns);
    DivModUnique(ms * 1000 + us, 1000, ms, us);
  }

  /** `toString` prints what `parseISO` reads back, for every valid time. */
  lemma ParseOfToString(t: CivilTime)
    requires Valid(t)
    ensures ParseISO(ToString(t)) == Ok(t)
  {
    Iso.Pow10Small();
    Iso.DigitsOfPad(t.hour, 2, 0, 23);
    Iso.DigitsOfPad(t.minute, 2, 0, 59);
    Iso.DigitsOfPad(t.second, 2, 0, 59);
    Sub3OfValid(t.millisecond);
    Sub3OfValid(t.microsecond);
    Sub3OfValid(t.nanosecond);
    Iso.PadWidth(t.millisecond, 3);
    Iso.PadWidth(t.microsecond, 3);
    Iso.PadWidth(t.nanosecond, 3);
    var a, b, c := Shared.Pad(t.millisecond, 3), Shared.Pad(t.microsecond, 3), Shared.Pad(t.nanosecond, 3);
    ValueOfGroups(a, b, c);
    SubsOfNine(a + b + c);
    SplitSubs(SubsOf(a + b + c), t.millisecond, t.microsecond, t.nanosecond);
    ParseFull(Shared.Pad(t.hour, 2), Shared.Pad(t.minute, 2), Shared.Pad(t.second, 2), a + b + c);
    var front := Shared.Pad(t.hour, 2) + ":" + Shared.Pad(t.minute, 2) + ":" + Shared.Pad(t.second, 2) + ".";
    Assoc(front, a, b);
    Assoc(front, a + b, c);
  }

  /** fromString inverts toString on every valid time. */
  lemma FromStringOfToString(t: CivilTime)
    requires Valid(t)
    ensures FromString(ToString(t)) == Ok(t)
  {
    ParseOfToString(t);
    NewOfValid(t);
  }

  /** Without a seconds group and a fraction, parseISO defaults both to zero. */
  lemma ParseHoursMinutes(h: int, m: int)
    requires 0 <= h < 24 && 0 <= m < 60
    ensures ParseISO(Shared.Pad(h, 2) + ":" + Shared.Pad(m, 2)) == Ok(CivilTime(h, m, 0, 0, 0, 0))
  {
    Iso.Pow10Small();
    Iso.DigitsOfPad(h, 2, 0, 23);
    Iso.DigitsOfPad(m, 2, 0, 59);
    ParseShort(Shared.Pad(h, 2), Shared.Pad(m, 2));
  }

  /** A three-digit fraction is right-padded to nine digits, so it gives the milliseconds alone. */
  lemma ParseMilliseconds(h: int, m: int, sec: int, ms: int)
    requires 0 <= h < 24 && 0 <= m < 60 && 0 <= sec < 60 && 0 <= ms < 1000
    ensures ParseISO(Shared.Pad(h, 2) + ":" + Shared.Pad(m, 2) + ":" + Shared.Pad(sec, 2) + "." + Shared.Pad(ms, 3))
      == Ok(CivilTime(h, m, sec, ms, 0, 0))
  {
    Iso.Pow10Small();
    Iso.DigitsOfPad(h, 2, 0, 23);
    Iso.DigitsOfPad(m, 2, 0, 59);
    Iso.DigitsOfPad(sec, 2, 0, 59);
    Iso.PadWidth(ms, 3);
    SubsOfThree(Shared.Pad(ms, 3));
    SplitSubs(SubsOf(Shared.Pad(ms, 3)), ms, 0, 0);
    ParseFull(Shared.Pad(h, 2), Shared.Pad(m, 2), Shared.Pad(sec, 2), Shared.Pad(ms, 3));
  }
}
