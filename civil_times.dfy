/**
 * `CivilTime` of the lib/civil generation: the DATA record that the civil
 * `plus` builds from the empty record and the six clock amounts, its
 * getters, `plus`, `with` and its one string form. The record keeps the
 * date fields `plus` produces from the empty record, which no member of
 * the class reads; every property here is about the clock. Since the civil
 * hour loop gives back 24 hours only from hour 60 on, a time's hour is in
 * 0..59 rather than 0..23.
 */
module CivilTimes {

  import opened Js
  import Shared
  import Iso
  import Text
  import opened CivilShared

  /**
   * A CivilTime: the hour, minute, second and nanosecond fields of the record
   * its constructor stores. The record's date fields are what `plus` makes
   * of the empty record's zero year, month and day; no member of the class
   * reads them, and the clock `plus` computes does not depend on them
   * (ClockOfPlus), so the model keeps the clock alone, as `toCivilTime` of
   * a CivilDateTime does.
   */
  datatype Time = Time(hour: int, minute: int, second: int, nanosecond: int)

  /** The clock fields of a civil record. */
  function ClockOf(c: Civil): Time
  {
    Time(c.hour, c.minute, c.second, c.nanosecond)
  }

  /** The clock as a record with zero date fields, for `plus` to read. */
  function Record(t: Time): Civil
  {
    Civil(0, 0, Fin(0), t.hour, t.minute, t.second, t.nanosecond)
  }

  /** The clock `plus` returns is the clock loops' result on the summed clock: the date loops leave it alone. */
  lemma ClockOfPlus(f: Civil, d: Delta)
    ensures ClockOf(PlusSpec(f, d)) == ClockOf(CarryClock(Sum(f, d)))
  {
    BalanceKeepsClock(CarryClock(Sum(f, d)));
  }

  /** The clock of `plus` depends on the record's clock only, not on its date. */
  lemma PlusClockOfClock(f: Civil, g: Civil, d: Delta)
    requires ClockOf(f) == ClockOf(g)
    ensures ClockOf(PlusSpec(f, d)) == ClockOf(PlusSpec(g, d))
  {
    ClockOfPlus(f, d);
    ClockOfPlus(g, d);
    CarryClockOfClock(Sum(f, d), Sum(g, d));
  }

  /** The clock loops read the clock fields only. */
  lemma CarryClockOfClock(a: Civil, b: Civil)
    requires ClockOf(a) == ClockOf(b)
    ensures ClockOf(CarryClock(a)) == ClockOf(CarryClock(b))
  {
  }

  /** `(milliseconds * 1E6) + (microseconds * 1E3) + nanoseconds`, the sub-second amounts as one nanosecond count. */
  function SubsecondNs(milliseconds: int, microseconds: int, nanoseconds: int): int
  {
    milliseconds * 1000000 + microseconds * 1000 + nanoseconds
  }

  /**
   * `new CivilTime(hours, minutes, seconds, milliseconds, microseconds,
   * nanoseconds)`: the clock of `plus({}, { hours, minutes, … })`, which
   * NewIsPlus states; a missing amount is 0.
   */
  function New(hours: int, minutes: int, seconds: int, milliseconds: int, microseconds: int, nanoseconds: int): Time
  {
    ClockOf(CarryClock(Civil(0, 0, Fin(0), hours, minutes, seconds, SubsecondNs(milliseconds, microseconds, nanoseconds))))
  }

  /** The empty record's fields, stated once so that proofs need not evaluate the constant. */
  lemma EmptyFields()
    ensures Empty == Civil(0, 0, Fin(0), 0, 0, 0, 0)
  {
  }

  /** The empty record plus the six clock amounts, before any loop runs. */
  lemma SumOfEmpty(hours: int, minutes: int, seconds: int, milliseconds: int, microseconds: int, nanoseconds: int)
    ensures Sum(Empty, Delta(0, 0, Fin(0), hours, minutes, seconds, milliseconds, microseconds, nanoseconds))
      == Civil(0, 0, Fin(0), hours, minutes, seconds, SubsecondNs(milliseconds, microseconds, nanoseconds))
  {
    EmptyFields();
    SumOfZeroRecord(hours, minutes, seconds, milliseconds, microseconds, nanoseconds);
  }

  lemma SumOfZeroRecord(hours: int, minutes: int, seconds: int, milliseconds: int, microseconds: int, nanoseconds: int)
    ensures Sum(Civil(0, 0, Fin(0), 0, 0, 0, 0), Delta(0, 0, Fin(0), hours, minutes, seconds, milliseconds, microseconds, nanoseconds))
      == Civil(0, 0, Fin(0), hours, minutes, seconds, SubsecondNs(milliseconds, microseconds, nanoseconds))
  {
  }

  /** The constructor's clock is the clock of the civil `plus` of the empty record and the six amounts. */
  lemma NewIsPlus(hours: int, minutes: int, seconds: int, milliseconds: int, microseconds: int, nanoseconds: int)
    ensures New(hours, minutes, seconds, milliseconds, microseconds, nanoseconds)
      == ClockOf(PlusSpec(Empty, Delta(0, 0, Fin(0), hours, minutes, seconds, milliseconds, microseconds, nanoseconds)))
  {
    SumOfEmpty(hours, minutes, seconds, milliseconds, microseconds, nanoseconds);
    ClockOfPlus(Empty, Delta(0, 0, Fin(0), hours, minutes, seconds, milliseconds, microseconds, nanoseconds));
  }

  /** A clock in the ranges the civil `plus` leaves: the hour in 0..59, the rest carried. */
  predicate Clocked(t: Time)
  {
    0 <= t.hour < 60 && 0 <= t.minute < 60 && 0 <= t.second < 60 && 0 <= t.nanosecond < Shared.NsPerSecond
  }

  /** Reading the clock back from its record. */
  lemma RecordClock(t: Time)
    ensures ClockOf(Record(t)) == t
  {
  }

  /** The clock in nanoseconds from midnight. */
  function Nanos(t: Time): int
  {
    ClockNs(Record(t))
  }

  /** The constructor's clock is carried and is the amounts taken together, less k whole days. */
  lemma NewClock(hours: int, minutes: int, seconds: int, milliseconds: int, microseconds: int, nanoseconds: int) returns (k: int)
    ensures Clocked(New(hours, minutes, seconds, milliseconds, microseconds, nanoseconds))
    ensures Shared.TimeNs(hours, minutes, seconds, milliseconds, microseconds, nanoseconds)
      == Nanos(New(hours, minutes, seconds, milliseconds, microseconds, nanoseconds)) + k * Shared.NsPerDay
  {
    var s := Civil(0, 0, Fin(0), hours, minutes, seconds, SubsecondNs(milliseconds, microseconds, nanoseconds));
    k := CarryClockTime(s);
    assert ClockNs(s) == Shared.TimeNs(hours, minutes, seconds, milliseconds, microseconds, nanoseconds);
    assert ClockNs(CarryClock(s)) == Nanos(New(hours, minutes, seconds, milliseconds, microseconds, nanoseconds));
  }

  /** The clock loops leave the clock of a carried record as it is. */
  lemma CarriedClock(c: Civil)
    requires 0 <= c.hour < 60 && 0 <= c.minute < 60 && 0 <= c.second < 60 && 0 <= c.nanosecond < Shared.NsPerSecond
    ensures ClockOf(CarryClock(c)) == ClockOf(c)
  {
    CarryClockOfNormal(c);
  }

  /**
   * Amounts already in range are kept, the sub-second ones folded into the
   * nanosecond field; an hour in 24..59 stays too.
   */
  lemma NewKeeps(hours: int, minutes: int, seconds: int, milliseconds: int, microseconds: int, nanoseconds: int)
    requires 0 <= hours < 60 && 0 <= minutes < 60 && 0 <= seconds < 60
    requires 0 <= milliseconds < 1000 && 0 <= microseconds < 1000 && 0 <= nanoseconds < 1000
    ensures New(hours, minutes, seconds, milliseconds, microseconds, nanoseconds)
      == Time(hours, minutes, seconds, SubsecondNs(milliseconds, microseconds, nanoseconds))
  {
    CarriedClock(Civil(0, 0, Fin(0), hours, minutes, seconds, SubsecondNs(milliseconds, microseconds, nanoseconds)));
  }

  /** A carried clock given as hour, minute, second and nanosecond, as `plus` and `fromTimeString` pass it, is kept. */
  lemma NewOfClock(hours: int, minutes: int, seconds: int, nanoseconds: int)
    requires 0 <= hours < 60 && 0 <= minutes < 60 && 0 <= seconds < 60 && 0 <= nanoseconds < Shared.NsPerSecond
    ensures New(hours, minutes, seconds, 0, 0, nanoseconds) == Time(hours, minutes, seconds, nanoseconds)
  {
    var n := SubsecondNs(0, 0, nanoseconds);
    assert n == nanoseconds;
    CarriedClock(Civil(0, 0, Fin(0), hours, minutes, seconds, n));
  }

  // ---------------------------------------------------------------------------
  // Getters

  function Hour(t: Time): int { t.hour }
  function Minute(t: Time): int { t.minute }
  function Second(t: Time): int { t.second }

  /** `Math.floor(nanosecond / 1e6)` */
  function Millisecond(t: Time): int
  {
    t.nanosecond / Shared.NsPerMillisecond
  }

  /** `Math.floor(nanosecond / 1e3) % 1e3`, the remainder with the dividend's sign. */
  function Microsecond(t: Time): int
  {
    Rem(t.nanosecond / 1000, 1000)
  }

  /** `nanosecond % 1e3` */
  function Nanosecond(t: Time): int
  {
    Rem(t.nanosecond, 1000)
  }

  /** The three sub-second getters split the nanosecond field into parts of 0..999 that recombine to it. */
  lemma Subseconds(t: Time)
    requires Clocked(t)
    ensures 0 <= Millisecond(t) < 1000 && 0 <= Microsecond(t) < 1000 && 0 <= Nanosecond(t) < 1000
    ensures Millisecond(t) * 1000000 + Microsecond(t) * 1000 + Nanosecond(t) == t.nanosecond
  {
    SplitNanos(t.nanosecond);
  }

  lemma SplitNanos(n: int)
    requires 0 <= n < Shared.NsPerSecond
    ensures 0 <= n / 1000000 < 1000 && 0 <= Rem(n / 1000, 1000) < 1000 && 0 <= Rem(n, 1000) < 1000
    ensures n / 1000000 * 1000000 + Rem(n / 1000, 1000) * 1000 + Rem(n, 1000) == n
  {
    QuotOfNonNegative(n / 1000, 1000);
    QuotOfNonNegative(n, 1000);
    assert n == 1000 * (n / 1000) + n % 1000;
    assert n / 1000 == 1000 * (n / 1000 / 1000) + n / 1000 % 1000;
    assert n / 1000 / 1000 == n / 1000000;
  }

  /** Sub-second amounts of 0..999 come back from the getters unchanged. */
  lemma SplitOfParts(ms: int, us: int, ns: int)
    requires 0 <= ms < 1000 && 0 <= us < 1000 && 0 <= ns < 1000
    ensures var n := ms * 1000000 + us * 1000 + ns;
      n / 1000000 == ms && Rem(n / 1000, 1000) == us && Rem(n, 1000) == ns
  {
    var n := ms * 1000000 + us * 1000 + ns;
    DivModUnique(n, 1000, ms * 1000 + us, ns);
    DivModUnique(ms * 1000 + us, 1000, ms, us);
    DivModUnique(n, 1000000, ms, us * 1000 + ns);
    QuotOfNonNegative(n / 1000, 1000);
    QuotOfNonNegative(n, 1000);
  }

  /** Amounts in range come back from the six getters of the time constructed from them. */
  lemma GettersOfNew(hours: int, minutes: int, seconds: int, milliseconds: int, microseconds: int, nanoseconds: int)
    requires 0 <= hours < 60 && 0 <= minutes < 60 && 0 <= seconds < 60
    requires 0 <= milliseconds < 1000 && 0 <= microseconds < 1000 && 0 <= nanoseconds < 1000
    ensures var t := New(hours, minutes, seconds, milliseconds, microseconds, nanoseconds);
      && Hour(t) == hours && Minute(t) == minutes && Second(t) == seconds
      && Millisecond(t) == milliseconds && Microsecond(t) == microseconds && Nanosecond(t) == nanoseconds
  {
    NewKeeps(hours, minutes, seconds, milliseconds, microseconds, nanoseconds);
    GettersOfClock(New(hours, minutes, seconds, milliseconds, microseconds, nanoseconds),
                   hours, minutes, seconds, milliseconds, microseconds, nanoseconds);
  }

  lemma GettersOfClock(t: Time, hours: int, minutes: int, seconds: int, milliseconds: int, microseconds: int, nanoseconds: int)
    requires 0 <= milliseconds < 1000 && 0 <= microseconds < 1000 && 0 <= nanoseconds < 1000
    requires t == Time(hours, minutes, seconds, SubsecondNs(milliseconds, microseconds, nanoseconds))
    ensures && Hour(t) == hours && Minute(t) == minutes && Second(t) == seconds
            && Millisecond(t) == milliseconds && Microsecond(t) == microseconds && Nanosecond(t) == nanoseconds
  {
    SplitOfParts(milliseconds, microseconds, nanoseconds);
  }

  // ---------------------------------------------------------------------------
  // plus and with

  /**
   * `time.plus(duration)`: the civil `plus` of the record, then the
   * constructor on its hour, minute, second and nanosecond; by ClockOfPlus
   * only the clock loops matter.
   */
  function Plus(t: Time, dur: Delta): Time
  {
    var r := ClockOf(CarryClock(Sum(Record(t), dur)));
    New(r.hour, r.minute, r.second, 0, 0, r.nanosecond)
  }

  /**
   * The sum's clock is carried and is the time's clock moved by the
   * duration's clock components, less k whole days.
   */
  lemma PlusMoves(t: Time, dur: Delta) returns (k: int)
    ensures Clocked(Plus(t, dur))
    ensures Nanos(t) + Shared.TimeNs(dur.hours, dur.minutes, dur.seconds, dur.milliseconds, dur.microseconds, dur.nanoseconds)
      == Nanos(Plus(t, dur)) + k * Shared.NsPerDay
  {
    var s := Sum(Record(t), dur);
    k := CarryClockTime(s);
    var r := ClockOf(CarryClock(s));
    NewOfClock(r.hour, r.minute, r.second, r.nanosecond);
    assert ClockNs(CarryClock(s)) == Nanos(r);
  }

  /** A duration whose field-wise sum leaves a carried clock as it is does not move it. */
  lemma PlusOfUnmoved(t: Time, dur: Delta)
    requires Clocked(t) && Sum(Record(t), dur) == Record(t)
    ensures Plus(t, dur) == t
  {
    var r := ClockOf(CarryClock(Sum(Record(t), dur)));
    CarriedClock(Record(t));
    RecordClock(t);
    assert r == t;
    NewOfClock(r.hour, r.minute, r.second, r.nanosecond);
  }

  /** Adding nothing keeps a carried clock. */
  lemma PlusZeroTime(t: Time)
    requires Clocked(t)
    ensures Plus(t, Zero) == t
  {
    SumZero(Record(t));
    PlusOfUnmoved(t, Zero);
  }

  /**
   * The hour is not wrapped at midnight: while the hour sum stays below 60
   * and no lower field carries, adding hours only adds to the hour, so 23:00
   * plus one hour is 24:00.
   */
  lemma PlusHours(t: Time, hours: int)
    requires Clocked(t) && 0 <= t.hour + hours < 60
    ensures Plus(t, Delta(0, 0, Fin(0), hours, 0, 0, 0, 0, 0)) == Time(t.hour + hours, t.minute, t.second, t.nanosecond)
  {
    var s := Sum(Record(t), Delta(0, 0, Fin(0), hours, 0, 0, 0, 0, 0));
    assert ClockOf(s) == Time(t.hour + hours, t.minute, t.second, t.nanosecond);
    CarryClockOfNormal(s);
    NewOfClock(t.hour + hours, t.minute, t.second, t.nanosecond);
  }

  /**
   * `time.with({ hour, minute, second, millisecond, microsecond,
   * nanosecond })`: each omitted property defaults to the time's own getter,
   * then the constructor.
   */
  function With(t: Time, hour: Option<int>, minute: Option<int>, second: Option<int>,
                millisecond: Option<int>, microsecond: Option<int>, nanosecond: Option<int>): Time
  {
    New(Given(hour, Hour(t)), Given(minute, Minute(t)), Given(second, Second(t)),
        Given(millisecond, Millisecond(t)), Given(microsecond, Microsecond(t)), Given(nanosecond, Nanosecond(t)))
  }

  /** A value given in range, or none. */
  predicate InRange(o: Option<int>, bound: int)
  {
    o.Some? ==> 0 <= o.value < bound
  }

  /**
   * On a carried clock, `with` replaces exactly the given fields when they
   * are in range, and every getter of the result is the given value or the
   * time's own.
   */
  lemma WithReplaces(t: Time, hour: Option<int>, minute: Option<int>, second: Option<int>,
                     millisecond: Option<int>, microsecond: Option<int>, nanosecond: Option<int>)
    requires Clocked(t)
    requires InRange(hour, 60) && InRange(minute, 60) && InRange(second, 60)
    requires InRange(millisecond, 1000) && InRange(microsecond, 1000) && InRange(nanosecond, 1000)
    ensures var w := With(t, hour, minute, second, millisecond, microsecond, nanosecond);
      && Hour(w) == Given(hour, Hour(t)) && Minute(w) == Given(minute, Minute(t)) && Second(w) == Given(second, Second(t))
      && Millisecond(w) == Given(millisecond, Millisecond(t)) && Microsecond(w) == Given(microsecond, Microsecond(t))
      && Nanosecond(w) == Given(nanosecond, Nanosecond(t))
  {
    Subseconds(t);
    GettersOfNew(Given(hour, Hour(t)), Given(minute, Minute(t)), Given(second, Second(t)),
                 Given(millisecond, Millisecond(t)), Given(microsecond, Microsecond(t)), Given(nanosecond, Nanosecond(t)));
  }

  /** `with({})` keeps a carried clock. */
  lemma WithNothing(t: Time)
    requires Clocked(t)
    ensures With(t, None, None, None, None, None, None) == t
  {
    Subseconds(t);
    NewKeeps(Hour(t), Minute(t), Second(t), Millisecond(t), Microsecond(t), Nanosecond(t));
  }

  /**
   * `withDate(date)`, `CivilTime.fromDateTime(datetime)` and
   * `CivilTime.fromZonedDateTime(zoned)` each begin with `typeCheck`, which
   * lib/civil/time.mjs does not import, so every call throws a
   * ReferenceError; the record withDate would build is that of a
   * CivilDateTime.
   */
  function WithDate(t: Time, date: Civil): (r: Result<Civil>)
    ensures r.Throw? && r.exc == ReferenceError
  {
    Throw(ReferenceError)
  }

  function FromDateTime(datetime: Civil): (r: Result<Time>)
    ensures r.Throw? && r.exc == ReferenceError
  {
    Throw(ReferenceError)
  }

  function FromZonedDateTime(ms: int, ns: int, offset: string): (r: Result<Time>)
    ensures r.Throw? && r.exc == ReferenceError
  {
    Throw(ReferenceError)
  }

  // ---------------------------------------------------------------------------
  // Strings

  /** `^(\d{2}):(\d{2}):(\d{2})\.(\d{9})$`, the template of `toTimeString`. */
  const TimePattern := Iso.Field(2, Iso.Lit(':', Iso.Field(2, Iso.Lit(':', Iso.Field(2, Iso.Lit('.', Iso.Field(9, Iso.End)))))))

  /** `toTimeString()`: the hour, minute and second padded to 2 digits, the whole nanosecond field to 9. */
  function ToTimeString(t: Time): string
  {
    Iso.Format(TimePattern, [Fin(t.hour), Fin(t.minute), Fin(t.second), Fin(t.nanosecond)])
  }

  /**
   * `CivilTime.fromTimeString(string)`: Error unless the pattern matches,
   * then the constructor on the hour, minute, second and nanoseconds.
   */
  function FromTimeString(s: string): (r: Result<Time>)
    ensures r.Throw? <==> Iso.Match(TimePattern, s).None?
    ensures r.Throw? ==> r.exc == Error
  {
    var m := Iso.Match(TimePattern, s);
    if m.None? then Throw(Error) else Ok(New(m.value[0].v, m.value[1].v, m.value[2].v, 0, 0, m.value[3].v))
  }

  /** `toString()` is `toTimeString()`. */
  function ToString(t: Time): string
  {
    ToTimeString(t)
  }

  /** `CivilTime.fromString(string)` is `fromTimeString`. */
  function FromString(s: string): Result<Time>
  {
    FromTimeString(s)
  }

  /** Only the clock is printed. */
  lemma ToTimeStringOfClock(t: Time, hours: int, minutes: int, seconds: int, nanoseconds: int)
    requires t == Time(hours, minutes, seconds, nanoseconds)
    ensures ToTimeString(t) == Iso.Format(TimePattern, [Fin(hours), Fin(minutes), Fin(seconds), Fin(nanoseconds)])
  {
  }

  /** A carried clock prints as a string that matches back to it. */
  lemma TimeFits(hours: int, minutes: int, seconds: int, nanoseconds: int)
    requires 0 <= hours < 60 && 0 <= minutes < 60 && 0 <= seconds < 60 && 0 <= nanoseconds < Shared.NsPerSecond
    ensures var vals := [Fin(hours), Fin(minutes), Fin(seconds), Fin(nanoseconds)];
      Iso.Match(TimePattern, Iso.Format(TimePattern, vals)) == Some(vals)
  {
    Iso.Pow10Small();
    assert Iso.Widths(TimePattern) == [2, 2, 2, 9];
    assert Iso.Fits(TimePattern, [Fin(hours), Fin(minutes), Fin(seconds), Fin(nanoseconds)]);
    Iso.MatchOfFormat(TimePattern, [Fin(hours), Fin(minutes), Fin(seconds), Fin(nanoseconds)]);
  }

  /** A string that matches gives the time the constructor makes of its four numbers. */
  lemma FromTimeStringOfMatch(s: string, hours: int, minutes: int, seconds: int, nanoseconds: int)
    requires Iso.Match(TimePattern, s) == Some([Fin(hours), Fin(minutes), Fin(seconds), Fin(nanoseconds)])
    ensures FromTimeString(s) == Ok(New(hours, minutes, seconds, 0, 0, nanoseconds))
  {
  }

  /** `fromTimeString(toTimeString(t))` has the clock of t, for every carried clock. */
  lemma FromTimeStringOfToTimeString(t: Time)
    requires Clocked(t)
    ensures FromTimeString(ToTimeString(t)).Ok?
    ensures FromTimeString(ToTimeString(t)).value == t
  {
    var h, m, s, n := t.hour, t.minute, t.second, t.nanosecond;
    TimeFits(h, m, s, n);
    FromTimeStringOfMatch(ToTimeString(t), h, m, s, n);
    NewOfClock(h, m, s, n);
  }

  /** A matching string whose hour, minute and second are below 60 is exactly what the parsed time prints. */
  lemma ToTimeStringOfFromTimeString(s: string)
    requires Iso.Match(TimePattern, s).Some?
    requires var v := Iso.Match(TimePattern, s).value; v[0].v < 60 && v[1].v < 60 && v[2].v < 60
    ensures FromTimeString(s).Ok? && ToTimeString(FromTimeString(s).value) == s
  {
    var h, m, sec, n := TimeParts(s);
    FromTimeStringOfMatch(s, h, m, sec, n);
    NewOfClock(h, m, sec, n);
    var t := FromTimeString(s).value;
    ToTimeStringOfClock(t, h, m, sec, n);
    Iso.FormatOfMatch(TimePattern, s);
  }

  /** The four numbers a matching time string gives; the fraction has nine digits. */
  lemma TimeParts(s: string) returns (hours: nat, minutes: nat, seconds: nat, nanoseconds: nat)
    requires Iso.Match(TimePattern, s).Some?
    ensures Iso.Match(TimePattern, s) == Some([Fin(hours), Fin(minutes), Fin(seconds), Fin(nanoseconds)])
    ensures nanoseconds < Shared.NsPerSecond
  {
    var v := Iso.Match(TimePattern, s).value;
    assert Iso.Widths(TimePattern) == [2, 2, 2, 9];
    Iso.MatchBound(TimePattern, s);
    Iso.Pow10Small();
    hours, minutes, seconds, nanoseconds := v[0].v, v[1].v, v[2].v, v[3].v;
    assert v == [Fin(hours), Fin(minutes), Fin(seconds), Fin(nanoseconds)];
  }

  /** `fromString(toString(t))` has the clock of t. */
  lemma FromStringOfToString(t: Time)
    requires Clocked(t)
    ensures FromString(ToString(t)) == Ok(t)
  {
    FromTimeStringOfToTimeString(t);
  }

  // ---------------------------------------------------------------------------
  // Examples

  /** `new CivilTime(15, 23, 30, 123, 456, 789)` has those six getters. */
  lemma ConstructorExample()
    ensures var t := New(15, 23, 30, 123, 456, 789);
      && Hour(t) == 15 && Minute(t) == 23 && Second(t) == 30
      && Millisecond(t) == 123 && Microsecond(t) == 456 && Nanosecond(t) == 789
  {
    GettersOfNew(15, 23, 30, 123, 456, 789);
  }

  /** It prints as '15:23:30.123456789'. */
  lemma ToStringExample()
    ensures ToString(New(15, 23, 30, 123, 456, 789)) == "15:23:30.123456789"
  {
    NewKeeps(15, 23, 30, 123, 456, 789);
    ToTimeStringOfClock(New(15, 23, 30, 123, 456, 789), 15, 23, 30, 123456789);
    PrintedExample();
  }

  lemma PrintedExample()
    ensures Iso.Format(TimePattern, [Fin(15), Fin(23), Fin(30), Fin(123456789)]) == "15:23:30.123456789"
  {
    PadClockExamples();
    PadNanosecondExample();
    PrintedOf(15, 23, 30, 123456789, "15", "23", "30", "123456789");
    TimeTextExample();
  }

  /** The time string is the four padded fields with their separators. */
  lemma FormatOfClock(hours: int, minutes: int, seconds: int, nanoseconds: int)
    ensures Iso.Format(TimePattern, [Fin(hours), Fin(minutes), Fin(seconds), Fin(nanoseconds)])
      == Shared.Pad(hours, 2) + (":" + (Shared.Pad(minutes, 2) + (":" + (Shared.Pad(seconds, 2) + ("." + (Shared.Pad(nanoseconds, 9) + ""))))))
  {
    var p3 := Iso.Lit('.', Iso.Field(9, Iso.End));
    var p2 := Iso.Lit(':', Iso.Field(2, p3));
    var p1 := Iso.Lit(':', Iso.Field(2, p2));
    var vals := [Fin(hours), Fin(minutes), Fin(seconds), Fin(nanoseconds)];
    TimePatternIs(p1, p2, p3);
    assert vals[1..][1..] == vals[2..] && vals[2..][1..] == vals[3..] && vals[3..][1..] == [];
    FormatStep(p3, '.', 9, Iso.End, vals[3..]);
    FormatStep(p2, ':', 2, p3, vals[2..]);
    FormatStep(p1, ':', 2, p2, vals[1..]);
    FormatHead(Iso.Field(2, p1), 2, p1, vals);
  }

  lemma TimePatternIs(p1: Iso.Pattern, p2: Iso.Pattern, p3: Iso.Pattern)
    requires p3 == Iso.Lit('.', Iso.Field(9, Iso.End))
    requires p2 == Iso.Lit(':', Iso.Field(2, p3))
    requires p1 == Iso.Lit(':', Iso.Field(2, p2))
    ensures TimePattern == Iso.Field(2, p1)
  {
  }

  lemma FormatStep(p: Iso.Pattern, c: char, w: nat, rest: Iso.Pattern, vals: seq<Num>)
    requires p == Iso.Lit(c, Iso.Field(w, rest)) && |vals| == 1 + |Iso.Widths(rest)|
    ensures Iso.Format(p, vals) == [c] + (Shared.PadNum(vals[0], w) + Iso.Format(rest, vals[1..]))
  {
  }

  lemma FormatHead(p: Iso.Pattern, w: nat, rest: Iso.Pattern, vals: seq<Num>)
    requires p == Iso.Field(w, rest) && |vals| == 1 + |Iso.Widths(rest)|
    ensures Iso.Format(p, vals) == Shared.PadNum(vals[0], w) + Iso.Format(rest, vals[1..])
  {
  }

  lemma PrintedOf(hours: int, minutes: int, seconds: int, nanoseconds: int, h: string, m: string, s: string, n: string)
    requires Shared.Pad(hours, 2) == h && Shared.Pad(minutes, 2) == m && Shared.Pad(seconds, 2) == s
    requires Shared.Pad(nanoseconds, 9) == n
    ensures Iso.Format(TimePattern, [Fin(hours), Fin(minutes), Fin(seconds), Fin(nanoseconds)]) == h + (":" + (m + (":" + (s + ("." + (n + ""))))))
  {
    FormatOfClock(hours, minutes, seconds, nanoseconds);
  }

  lemma TimeTextExample()
    ensures "15" + (":" + ("23" + (":" + ("30" + ("." + ("123456789" + "")))))) == "15:23:30.123456789"
  {
  }

  lemma PadClockExamples()
    ensures Shared.Pad(15, 2) == "15" && Shared.Pad(23, 2) == "23" && Shared.Pad(30, 2) == "30"
  {
    assert Text.Decimal(15) == "15" && Text.Decimal(23) == "23" && Text.Decimal(30) == "30";
  }

  lemma PadNanosecondExample()
    ensures Shared.Pad(123456789, 9) == "123456789"
  {
    assert Text.Decimal(1) == "1";
    assert Text.Decimal(12) == "12";
    assert Text.Decimal(123) == "123";
    assert Text.Decimal(1234) == "1234";
    assert Text.Decimal(12345) == "12345";
    assert Text.Decimal(123456) == "123456";
    assert Text.Decimal(1234567) == "1234567";
    assert Text.Decimal(12345678) == "12345678";
    assert Text.Decimal(123456789) == "123456789";
  }

  /** Sixteen hours after 15:23:30.123456789 is hour 31 of the same record: the hour carries only from 60 on. */
  lemma PlusSixteenHoursExample()
    ensures Plus(New(15, 23, 30, 123, 456, 789), Delta(0, 0, Fin(0), 16, 0, 0, 0, 0, 0)) == Time(31, 23, 30, 123456789)
  {
    NewKeeps(15, 23, 30, 123, 456, 789);
    PlusHours(New(15, 23, 30, 123, 456, 789), 16);
  }
}
