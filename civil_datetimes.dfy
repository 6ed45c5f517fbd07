/**
 * `CivilDateTime` of the lib/civil generation: the record the civil `plus`
 * builds from the empty record, its getters, `plus`, `with`, the choice
 * among a zone's candidates in `withZone`, and the date-time, week and
 * ordinal string forms with `fromString` trying them in turn.
 */
module CivilDateTimes {

  import opened Js
  import Shared
  import Iso
  import Text
  import EcmaTime
  import opened CivilShared
  import CivilTimes
  import CivilDates
  import Utils
  import Zoned

  /** A CivilDateTime: the record its constructor stores. */
  datatype DateTime = DateTime(data: Civil)

  /**
   * `new CivilDateTime(years, months, days, hours, minutes, seconds,
   * milliseconds, microseconds, nanoseconds)`: `plus` of the empty record
   * and all nine amounts; an omitted amount is 0.
   */
  function New(years: int, months: int, days: Num, hours: int, minutes: int, seconds: int,
               milliseconds: int, microseconds: int, nanoseconds: int): DateTime
  {
    DateTime(PlusSpec(Empty, Delta(years, months, days, hours, minutes, seconds, milliseconds, microseconds, nanoseconds)))
  }

  /** The day number of a date-time with a finite day. */
  function DayNumber(dt: DateTime): int
    requires dt.data.day.Fin?
  {
    EcmaTime.MakeDay(dt.data.year, dt.data.month - 1, dt.data.day.v)
  }

  /** Every constructed record is in the ranges `plus` produces. */
  lemma NewNormal(years: int, months: int, days: Num, hours: int, minutes: int, seconds: int,
                  milliseconds: int, microseconds: int, nanoseconds: int)
    ensures Normal(New(years, months, days, hours, minutes, seconds, milliseconds, microseconds, nanoseconds).data)
  {
    PlusRanges(Empty, Delta(years, months, days, hours, minutes, seconds, milliseconds, microseconds, nanoseconds));
  }

  /** Constructing from a record's own fields, the sub-second part as nanoseconds, gives the same date-time. */
  lemma NewOfNormal(dt: DateTime)
    requires Normal(dt.data)
    ensures var f := dt.data; New(f.year, f.month, f.day, f.hour, f.minute, f.second, 0, 0, f.nanosecond) == dt
  {
    RebuildNormal(dt.data);
  }

  /**
   * The constructor keeps the instant its amounts add up to: when the day
   * that the clock carries reach is at least 1, the record's weighted total
   * is that of the plain field-wise sum.
   */
  lemma NewConserves(years: int, months: int, days: int, hours: int, minutes: int, seconds: int,
                     milliseconds: int, microseconds: int, nanoseconds: int)
    requires var s := Civil(years, months, Fin(days), hours, minutes, seconds,
                            CivilTimes.SubsecondNs(milliseconds, microseconds, nanoseconds));
      CarryClock(s).day.v >= 1
    ensures var r := New(years, months, Fin(days), hours, minutes, seconds, milliseconds, microseconds, nanoseconds).data;
      && r.day.Fin?
      && Total(r) == Total(Civil(years, months, Fin(days), hours, minutes, seconds,
                                 CivilTimes.SubsecondNs(milliseconds, microseconds, nanoseconds)))
  {
    var dur := Delta(years, months, Fin(days), hours, minutes, seconds, milliseconds, microseconds, nanoseconds);
    SumOfEmpty(years, months, Fin(days), hours, minutes, seconds, milliseconds, microseconds, nanoseconds);
    PlusConserves(Empty, dur);
  }

  /** The field-wise sum the constructor starts from: the amounts themselves, the sub-second ones folded. */
  lemma SumOfEmpty(years: int, months: int, days: Num, hours: int, minutes: int, seconds: int,
                   milliseconds: int, microseconds: int, nanoseconds: int)
    ensures Sum(Empty, Delta(years, months, days, hours, minutes, seconds, milliseconds, microseconds, nanoseconds))
         == Civil(years, months, days, hours, minutes, seconds, CivilTimes.SubsecondNs(milliseconds, microseconds, nanoseconds))
  {
    CivilTimes.EmptyFields();
  }

  /** Only the folded sub-second total reaches the record: amounts with the same total construct the same date-time. */
  lemma NewOfSubseconds(years: int, months: int, days: Num, hours: int, minutes: int, seconds: int,
                        milliseconds: int, microseconds: int, nanoseconds: int, n: int)
    requires CivilTimes.SubsecondNs(milliseconds, microseconds, nanoseconds) == n
    ensures New(years, months, days, hours, minutes, seconds, milliseconds, microseconds, nanoseconds)
         == New(years, months, days, hours, minutes, seconds, 0, 0, n)
  {
    SumOfEmpty(years, months, days, hours, minutes, seconds, milliseconds, microseconds, nanoseconds);
    SumOfEmpty(years, months, days, hours, minutes, seconds, 0, 0, n);
  }

  // ---------------------------------------------------------------------------
  // Getters

  /** The clock part of the record, which the sub-second getters share with CivilTime. */
  function Clock(dt: DateTime): CivilTimes.Time
  {
    CivilTimes.ClockOf(dt.data)
  }

  /** `Math.floor(nanosecond / 1e6)` */
  function Millisecond(dt: DateTime): int
  {
    CivilTimes.Millisecond(Clock(dt))
  }

  /** `Math.floor(nanosecond / 1e3) % 1e3` */
  function Microsecond(dt: DateTime): int
  {
    CivilTimes.Microsecond(Clock(dt))
  }

  /** `nanosecond % 1e3` */
  function Nanosecond(dt: DateTime): int
  {
    CivilTimes.Nanosecond(Clock(dt))
  }

  /** The three sub-second getters are 0..999 and recombine to the stored nanosecond field. */
  lemma SubsecondsOf(dt: DateTime)
    requires Normal(dt.data)
    ensures 0 <= Millisecond(dt) < 1000 && 0 <= Microsecond(dt) < 1000 && 0 <= Nanosecond(dt) < 1000
    ensures CivilTimes.SubsecondNs(Millisecond(dt), Microsecond(dt), Nanosecond(dt)) == dt.data.nanosecond
  {
    CivilTimes.Subseconds(Clock(dt));
  }

  /** `toDayOfWeek(year, month, day) || 7`: Zeller's 0 for Sunday becomes 7, and so does the NaN of a NaN day. */
  function DayOfWeek(dt: DateTime): int
  {
    if dt.data.day.Fin? then Shared.IsoWeekday(dt.data.year, dt.data.month, dt.data.day.v) else 7
  }

  /** `dayOfYear`, NaN when the day is NaN. */
  function DayOfYear(dt: DateTime): Num
  {
    if dt.data.day.Fin? then Shared.DayOfYear(dt.data.year, dt.data.month, dt.data.day.v) else NaN
  }

  /** `weekOfYear`, NaN when the day is NaN. */
  function WeekOfYear(dt: DateTime): Num
  {
    if dt.data.day.Fin? then Shared.ToWeekOfYear(dt.data.year, dt.data.month, dt.data.day.v) else NaN
  }

  /** The weekday is 1..7 with Monday 1 and Sunday 7: the ISO weekday of ECMA-262's WeekDay of the day number. */
  lemma DayOfWeekOf(dt: DateTime)
    requires Normal(dt.data)
    ensures 1 <= DayOfWeek(dt) <= 7
    ensures dt.data.day.Fin? ==> DayOfWeek(dt) == 1 + (EcmaTime.WeekDay(DayNumber(dt)) + 6) % 7
  {
    if dt.data.day.Fin? {
      var n := DayNumber(dt);
      DayNumberOf(dt, dt.data.year, dt.data.month, dt.data.day.v);
      IsoWeekdayAt(dt.data.year, dt.data.month, dt.data.day.v, n);
    }
  }

  /** The ISO weekday of a date from ECMA-262's WeekDay of its day number. */
  lemma IsoWeekdayAt(year: int, month: int, day: int, n: int)
    requires 1 <= month <= 12 && n == EcmaTime.MakeDay(year, month - 1, day)
    ensures Shared.IsoWeekday(year, month, day) == 1 + (EcmaTime.WeekDay(n) + 6) % 7
  {
    Shared.DayOfWeekIsWeekDay(year, month, day);
    IsoWeekdayOf(Shared.ToDayOfWeek(year, month, day), EcmaTime.WeekDay(n));
  }

  /** Zeller's weekday d, with Sunday 0 made 7, is 1 + (d + 6) % 7. */
  lemma IsoWeekdayOf(d: int, w: int)
    requires 0 <= d <= 6 && d == w
    ensures (if d == 0 then 7 else d) == 1 + (w + 6) % 7
  {
  }

  /** The ordinal is 1..days-in-year, and `fromDayOfYear` of it is the date again. */
  lemma DayOfYearOf(dt: DateTime)
    requires Normal(dt.data) && dt.data.day.Fin?
    ensures DayOfYear(dt).Fin? && 1 <= DayOfYear(dt).v <= 365 + Shared.Leap(dt.data.year)
    ensures Shared.DateOfDayOfYear(dt.data.year, DayOfYear(dt).v) == Shared.YearMonthDay(dt.data.year, dt.data.month, dt.data.day.v)
  {
    Shared.DayOfYearRange(dt.data.year, dt.data.month, dt.data.day.v);
    Shared.DateOfDayOfYearOfDate(dt.data.year, dt.data.month, dt.data.day.v);
  }

  /** The week number is 1..53, and NaN exactly when the day is. */
  lemma WeekOfYearOf(dt: DateTime)
    requires Normal(dt.data)
    ensures WeekOfYear(dt).Fin? <==> dt.data.day.Fin?
    ensures WeekOfYear(dt).Fin? ==> 1 <= WeekOfYear(dt).v <= 53
  {
    if dt.data.day.Fin? {
      Shared.WeekOfYearIso(dt.data.year, dt.data.month, dt.data.day.v);
    }
  }

  // ---------------------------------------------------------------------------
  // plus and with

  /**
   * `dateTime.plus(duration)`: the civil `plus` of the record and the
   * duration, then the constructor on its fields, the sub-second part
   * passed as nanoseconds.
   */
  function Plus(dt: DateTime, dur: Delta): DateTime
  {
    var r := PlusSpec(dt.data, dur);
    New(r.year, r.month, r.day, r.hour, r.minute, r.second, 0, 0, r.nanosecond)
  }

  /** The constructor finds nothing left to normalize: `plus` of a date-time is the civil `plus` of its record. */
  lemma PlusIsCivilPlus(dt: DateTime, dur: Delta)
    ensures Plus(dt, dur) == DateTime(PlusSpec(dt.data, dur))
  {
    PlusRanges(dt.data, dur);
    NewOfNormal(DateTime(PlusSpec(dt.data, dur)));
  }

  /** Adding the empty duration gives a constructed date-time back. */
  lemma PlusZeroDateTime(dt: DateTime)
    requires Normal(dt.data)
    ensures Plus(dt, Zero) == dt
  {
    PlusIsCivilPlus(dt, Zero);
    PlusZero(dt.data);
  }

  /**
   * `plus` moves the clock by the duration's clock amounts up to k whole
   * days, and when the carried day is at least 1 the result is the same
   * instant as the field-wise sum.
   */
  lemma PlusMoves(dt: DateTime, dur: Delta) returns (k: int)
    ensures var r := Plus(dt, dur).data;
      ClockNs(dt.data) + Shared.TimeNs(dur.hours, dur.minutes, dur.seconds, dur.milliseconds, dur.microseconds, dur.nanoseconds)
      == ClockNs(r) + k * Shared.NsPerDay
    ensures Sum(dt.data, dur).day.Fin? && CarryClock(Sum(dt.data, dur)).day.v >= 1 ==>
      Plus(dt, dur).data.day.Fin? && Total(Plus(dt, dur).data) == Total(Sum(dt.data, dur))
  {
    PlusIsCivilPlus(dt, dur);
    k := PlusClock(dt.data, dur);
    if Sum(dt.data, dur).day.Fin? && CarryClock(Sum(dt.data, dur)).day.v >= 1 {
      PlusConserves(dt.data, dur);
    }
  }

  /**
   * `dateTime.with(fields)`: each omitted field defaults to the current
   * value, the sub-second ones to the three getters, and the constructor
   * normalizes the result.
   */
  function With(dt: DateTime, year: Option<int>, month: Option<int>, day: Option<Num>, hour: Option<int>,
                minute: Option<int>, second: Option<int>, millisecond: Option<int>, microsecond: Option<int>,
                nanosecond: Option<int>): DateTime
  {
    var f := dt.data;
    New(Given(year, f.year), Given(month, f.month), Given(day, f.day), Given(hour, f.hour), Given(minute, f.minute),
        Given(second, f.second), Given(millisecond, Millisecond(dt)), Given(microsecond, Microsecond(dt)),
        Given(nanosecond, Nanosecond(dt)))
  }

  /** With nothing given, `with` returns a constructed date-time unchanged. */
  lemma WithNothing(dt: DateTime)
    requires Normal(dt.data)
    ensures With(dt, None, None, None, None, None, None, None, None, None) == dt
  {
    var f := dt.data;
    SubsecondsOf(dt);
    NewOfSubseconds(f.year, f.month, f.day, f.hour, f.minute, f.second, Millisecond(dt), Microsecond(dt), Nanosecond(dt), f.nanosecond);
    NewOfNormal(dt);
  }

  /** Every field given and in range: the record holds exactly those fields, the sub-second ones folded. */
  lemma WithValid(dt: DateTime, year: int, month: int, day: int, hour: int, minute: int, second: int,
                  millisecond: int, microsecond: int, nanosecond: int)
    requires 1 <= month <= 12 && 1 <= day <= Shared.Dim(year, month)
    requires 0 <= hour < 60 && 0 <= minute < 60 && 0 <= second < 60
    requires 0 <= millisecond < 1000 && 0 <= microsecond < 1000 && 0 <= nanosecond < 1000
    ensures With(dt, Some(year), Some(month), Some(Fin(day)), Some(hour), Some(minute), Some(second),
                 Some(millisecond), Some(microsecond), Some(nanosecond)).data
         == Civil(year, month, Fin(day), hour, minute, second, CivilTimes.SubsecondNs(millisecond, microsecond, nanosecond))
  {
    var n := CivilTimes.SubsecondNs(millisecond, microsecond, nanosecond);
    NewOfSubseconds(year, month, Fin(day), hour, minute, second, millisecond, microsecond, nanosecond, n);
    NewOfNormal(DateTime(Civil(year, month, Fin(day), hour, minute, second, n)));
  }

  /** `toCivilDate()`: `new CivilDateTime(year, month, day)`, a date-time with the clock at midnight. */
  function ToCivilDate(dt: DateTime): DateTime
  {
    New(dt.data.year, dt.data.month, dt.data.day, 0, 0, 0, 0, 0, 0)
  }

  /** A constructed date-time's date at midnight, the date fields unchanged. */
  lemma ToCivilDateOf(dt: DateTime)
    requires Normal(dt.data)
    ensures ToCivilDate(dt) == DateTime(Civil(dt.data.year, dt.data.month, dt.data.day, 0, 0, 0, 0))
  {
    NewOfNormal(DateTime(Civil(dt.data.year, dt.data.month, dt.data.day, 0, 0, 0, 0)));
  }

  /**
   * `toCivilTime()` creates an object from `CivilTime.prototype`, a name
   * this file never imports, so every call throws a ReferenceError.
   */
  function ToCivilTime(dt: DateTime): Result<CivilTimes.Time>
  {
    Throw(ReferenceError)
  }

  /**
   * `CivilDate.prototype.withTime(time)` (modelled here, beside the
   * constructor it calls): a TypeError unless handed a CivilTime (None
   * stands for any other argument, the default `{}` among them), then
   * `new CivilDateTime` of the date's fields and the time's six getters.
   */
  function WithTime(d: CivilDates.Date, time: Option<CivilTimes.Time>): (r: Result<DateTime>)
    ensures r.Throw? <==> time.None?
    ensures r.Throw? ==> r.exc == TypeError
  {
    var checked :- Utils.TypeCheck(if time.Some? then Utils.Object(Some("CivilTime")) else Utils.Falsy, "CivilTime");
    var t := time.value;
    Ok(New(d.data.year, d.data.month, d.data.day, t.hour, t.minute, t.second,
           CivilTimes.Millisecond(t), CivilTimes.Microsecond(t), CivilTimes.Nanosecond(t)))
  }

  /** A constructed date with a carried clock: the date-time of that date and that clock, every field kept. */
  lemma WithTimeOf(d: CivilDates.Date, t: CivilTimes.Time)
    requires CivilDates.Constructed(d) && CivilTimes.Clocked(t)
    ensures WithTime(d, Some(t)) == Ok(DateTime(Civil(d.data.year, d.data.month, d.data.day, t.hour, t.minute, t.second, t.nanosecond)))
  {
    CivilTimes.Subseconds(t);
    var f := d.data;
    NewOfSubseconds(f.year, f.month, f.day, t.hour, t.minute, t.second,
                    CivilTimes.Millisecond(t), CivilTimes.Microsecond(t), CivilTimes.Nanosecond(t), t.nanosecond);
    NewOfNormal(DateTime(Civil(f.year, f.month, f.day, t.hour, t.minute, t.second, t.nanosecond)));
  }

  // ---------------------------------------------------------------------------
  // fromZonedDateTime

  /**
   * The constructor call of `fromZonedDateTime`, as written: getInstantInfo's
   * nanoseconds below the second go in the seventh argument, the milliseconds.
   */
  function FromInstantInfo(info: Utils.InstantInfo): DateTime
  {
    New(info.year, info.month, Fin(info.day), info.hour, info.minute, info.second, info.nanosecond, 0, 0)
  }

  /**
   * `CivilDateTime.fromZonedDateTime(zoned)`: a TypeError unless handed a
   * ZonedDateTime, then the record getInstantInfo reads at the instant's
   * milliseconds ms and nanoseconds ns. It passes `zoned.offsetString`, a
   * property a ZonedDateTime does not have, so the zone is undefined and
   * the host's own zone is read.
   */
  function FromZonedDateTime(zoned: Utils.Operand, ms: int, ns: int, zones: Zoned.Zones, host: Zoned.ZoneOracle): Result<DateTime>
  {
    var checked :- Utils.TypeCheck(zoned, "ZonedDateTime");
    var info :- Utils.GetInstantInfo(ms, ns, None, zones, host);
    Ok(FromInstantInfo(info))
  }

  /** fromZonedDateTime succeeds exactly for a ZonedDateTime and reads the host zone's wall clock. */
  lemma FromZonedDateTimeSpec(zoned: Utils.Operand, ms: int, ns: int, zones: Zoned.Zones, host: Zoned.ZoneOracle)
    ensures var r := FromZonedDateTime(zoned, ms, ns, zones, host);
      && (r.Ok? <==> zoned == Utils.Object(Some("ZonedDateTime")))
      && (r.Throw? ==> r.exc == TypeError)
      && (r.Ok? ==> r.value == FromInstantInfo(Utils.InfoOf(host.wall(ms), ms, ns, None)))
  {
    assert Utils.CreateFormatter(None, zones, host) == Ok(Utils.IntlFormatter(host));
  }

  /** A record whose wall clock and sub-second part are in range, as a civil record. */
  function InfoCivil(info: Utils.InstantInfo): Civil
  {
    Civil(info.year, info.month, Fin(info.day), info.hour, info.minute, info.second, info.nanosecond)
  }

  /**
   * As written, n nanoseconds below the second become n milliseconds: for
   * 0 < n < 1000 (an instant at a whole millisecond plus n nanoseconds) and a
   * wall clock in range, the result shows n * 10^6 nanoseconds instead of n.
   */
  lemma FromInstantInfoScales(info: Utils.InstantInfo)
    requires Normal(InfoCivil(info)) && 0 < info.nanosecond < 1000
    ensures FromInstantInfo(info).data == InfoCivil(info).(nanosecond := info.nanosecond * 1000000)
    ensures FromInstantInfo(info).data.nanosecond != info.nanosecond
  {
    var c := InfoCivil(info).(nanosecond := info.nanosecond * 1000000);
    NewOfSubseconds(info.year, info.month, Fin(info.day), info.hour, info.minute, info.second,
                    info.nanosecond, 0, 0, info.nanosecond * 1000000);
    NewOfNormal(DateTime(c));
  }

  /** The constructor call with the nanoseconds in the nanoseconds argument. */
  function FromInstantInfoIntended(info: Utils.InstantInfo): (dt: DateTime)
    ensures Normal(InfoCivil(info)) ==> dt.data == InfoCivil(info)
  {
    InfoRebuilds(info);
    New(info.year, info.month, Fin(info.day), info.hour, info.minute, info.second, 0, 0, info.nanosecond)
  }

  lemma InfoRebuilds(info: Utils.InstantInfo)
    ensures Normal(InfoCivil(info)) ==>
      New(info.year, info.month, Fin(info.day), info.hour, info.minute, info.second, 0, 0, info.nanosecond).data == InfoCivil(info)
  {
    if Normal(InfoCivil(info)) {
      NewOfNormal(DateTime(InfoCivil(info)));
    }
  }

  // ---------------------------------------------------------------------------
  // withZone

  /**
   * One of the zone's candidates for the record's wall-clock time: the
   * instant `possibleTimestamps` found, and that instant's offset as
   * `offsetString` and `offsetSeconds` read it. The candidates come from the
   * Intl lookup, which is not part of this model, in the order it gives.
   */
  datatype Candidate = Candidate(milliseconds: int, nanoseconds: int, offsetString: string, offsetSeconds: int)

  /** `withZone`'s second argument, by its `typeof`: a string, a number, a function or anything else. */
  datatype Filter =
    | ByOffsetString(s: string)
    | ByOffsetSeconds(n: Num)
    | ByPredicate(p: (Candidate, nat) -> bool)
    | Other

  /** Whether the filter picks the candidate at index i: strict equality of the offset string or seconds, or the predicate's verdict. */
  predicate Selects(filter: Filter, c: Candidate, i: nat)
  {
    match filter
    case ByOffsetString(s) => c.offsetString == s
    case ByOffsetSeconds(n) => n == Fin(c.offsetSeconds)
    case ByPredicate(p) => p(c, i)
    case Other => i == 0
  }

  /** `find` from index i: the first index at or after i whose candidate the filter picks. */
  function FindFrom(cands: seq<Candidate>, filter: Filter, i: nat): (r: Option<nat>)
    requires i <= |cands|
    ensures r.Some? ==> i <= r.value < |cands| && Selects(filter, cands[r.value], r.value)
    ensures r.Some? ==> forall k :: i <= k < r.value ==> !Selects(filter, cands[k], k)
    ensures r.None? ==> forall k :: i <= k < |cands| ==> !Selects(filter, cands[k], k)
    decreases |cands| - i
  {
    if i == |cands| then None
    else if Selects(filter, cands[i], i) then Some(i)
    else FindFrom(cands, filter, i + 1)
  }

  /**
   * `dateTime.withZone(zone, filter)` over the zone's candidates: a string,
   * number or function filter is `find` over them, anything else is
   * `shift()`, the first candidate; nothing found throws an Error.
   */
  function WithZone(cands: seq<Candidate>, filter: Filter): (r: Result<Candidate>)
    ensures r.Throw? ==> r.exc == Error
  {
    if filter.Other? then
      (if |cands| > 0 then Ok(cands[0]) else Throw(Error))
    else
      var i := FindFrom(cands, filter, 0);
      if i.Some? then Ok(cands[i.value]) else Throw(Error)
  }

  /**
   * `withZone` returns the first candidate the filter picks, and throws
   * exactly when it picks none; with no filter that is the first candidate,
   * and no candidates always throw.
   */
  lemma WithZoneFirst(cands: seq<Candidate>, filter: Filter)
    ensures WithZone(cands, filter).Ok? <==> exists i :: 0 <= i < |cands| && Selects(filter, cands[i], i)
    ensures WithZone(cands, filter).Ok? ==>
      exists i :: 0 <= i < |cands| && WithZone(cands, filter).value == cands[i] && Selects(filter, cands[i], i)
        && forall k :: 0 <= k < i ==> !Selects(filter, cands[k], k)
  {
    var r := FindFrom(cands, filter, 0);
    if filter.Other? {
      if |cands| > 0 {
        assert Selects(filter, cands[0], 0);
      }
    } else if r.Some? {
      assert Selects(filter, cands[r.value], r.value);
    }
  }

  /** A number filter picks by offset seconds, so NaN picks nothing and `withZone(zone, NaN)` always throws. */
  lemma WithZoneNaN(cands: seq<Candidate>)
    ensures WithZone(cands, ByOffsetSeconds(NaN)) == Throw(Error)
  {
  }


  // ---------------------------------------------------------------------------
  // Strings

  /** `T(\d{2}):(\d{2}):(\d{2})\.(\d{9})$`, the clock part every pattern ends with. */
  const ClockTail :=
    Iso.Lit('T', Iso.Field(2, Iso.Lit(':', Iso.Field(2, Iso.Lit(':', Iso.Field(2, Iso.Lit('.', Iso.Field(9, Iso.End))))))))

  /** `-(\d{2})-(\d{2})` and the clock, the date-time pattern after the year. */
  const DateTimeTail := Iso.Lit('-', Iso.Field(2, Iso.Lit('-', Iso.Field(2, ClockTail))))

  /** `^(\d{4})-(\d{2})-(\d{2})T(\d{2}):(\d{2}):(\d{2})\.(\d{9})$` */
  const DateTimePattern := Iso.Field(4, DateTimeTail)

  /** `-W(\d{2})-(\d{1})` and the clock, the week pattern after the year. */
  const WeekTail := Iso.Lit('-', Iso.Lit('W', Iso.Field(2, Iso.Lit('-', Iso.Field(1, ClockTail)))))

  /** `^(\d{4})-W(\d{2})-(\d{1})T(\d{2}):(\d{2}):(\d{2})\.(\d{9})$` */
  const WeekPattern := Iso.Field(4, WeekTail)

  /** `-(\d{3})` and the clock, the ordinal pattern after the year. */
  const OrdinalTail := Iso.Lit('-', Iso.Field(3, ClockTail))

  /** `^(\d{4})-(\d{3})T(\d{2}):(\d{2}):(\d{2})\.(\d{9})$` */
  const OrdinalPattern := Iso.Field(4, OrdinalTail)

  /** The group widths and total widths of the three patterns. */
  lemma Shapes()
    ensures Iso.Widths(DateTimePattern) == [4, 2, 2, 2, 2, 2, 9] && Iso.Width(DateTimePattern) == 29
    ensures Iso.Widths(WeekPattern) == [4, 2, 1, 2, 2, 2, 9] && Iso.Width(WeekPattern) == 29
    ensures Iso.Widths(OrdinalPattern) == [4, 3, 2, 2, 2, 9] && Iso.Width(OrdinalPattern) == 27
  {
    assert Iso.Widths(ClockTail) == [2, 2, 2, 9] && Iso.Width(ClockTail) == 19;
    assert Iso.Widths(DateTimeTail) == [2, 2, 2, 2, 2, 9] && Iso.Width(DateTimeTail) == 25;
    assert Iso.Widths(Iso.Field(1, ClockTail)) == [1, 2, 2, 2, 9] && Iso.Width(Iso.Field(1, ClockTail)) == 20;
    assert Iso.Widths(WeekTail) == [2, 1, 2, 2, 2, 9] && Iso.Width(WeekTail) == 25;
    assert Iso.Widths(OrdinalTail) == [3, 2, 2, 2, 9] && Iso.Width(OrdinalTail) == 23;
  }

  /** The values the date-time template prints, in order. */
  function Values(dt: DateTime): seq<Num>
  {
    var f := dt.data;
    [Fin(f.year), Fin(f.month), f.day, Fin(f.hour), Fin(f.minute), Fin(f.second), Fin(f.nanosecond)]
  }

  /** `toDateTimeString()`: the signed year, then the rest of the template with the nanosecond field in 9 digits. */
  function ToDateTimeString(dt: DateTime): string
  {
    Shared.SignedPad(dt.data.year, 4) + Iso.Format(DateTimeTail, Values(dt)[1..])
  }

  /** `toString()` is `toDateTimeString()`. */
  function ToString(dt: DateTime): string
  {
    ToDateTimeString(dt)
  }

  /**
   * `CivilDateTime.fromDateTimeString(string)`: Error unless the pattern
   * matches, then the constructor on the seven numbers, the last as
   * nanoseconds.
   */
  function FromDateTimeString(s: string): (r: Result<DateTime>)
    ensures r.Throw? <==> Iso.Match(DateTimePattern, s).None?
    ensures r.Throw? ==> r.exc == Error
  {
    Shapes();
    var m := Iso.Match(DateTimePattern, s);
    if m.None? then Throw(Error)
    else
      var v := m.value;
      Ok(New(v[0].v, v[1].v, v[2], v[3].v, v[4].v, v[5].v, 0, 0, v[6].v))
  }

  /** For a year of at least 0 the signed year is the template's first group. */
  lemma DateTimeStringFormat(dt: DateTime)
    requires 0 <= dt.data.year
    ensures ToDateTimeString(dt) == Iso.Format(DateTimePattern, Values(dt))
  {
  }

  /** Seven values in their groups' ranges print as a date-time string that matches back to them. */
  lemma DateTimeValuesFit(vals: seq<Num>)
    requires |vals| == 7 && forall i :: 0 <= i < 7 ==> vals[i].Fin? && 0 <= vals[i].v
    requires vals[0].v <= 9999 && vals[1].v < 100 && vals[2].v < 100 && vals[3].v < 100 && vals[4].v < 100
    requires vals[5].v < 100 && vals[6].v < Shared.NsPerSecond
    ensures |Iso.Widths(DateTimePattern)| == 7 && Iso.Match(DateTimePattern, Iso.Format(DateTimePattern, vals)) == Some(vals)
  {
    Shapes();
    FitsOf(DateTimePattern, [4, 2, 2, 2, 2, 2, 9], vals);
    Iso.MatchOfFormat(DateTimePattern, vals);
  }

  /** Values below ten to their groups' widths fit a pattern whose widths are 1, 2, 3, 4 or 9. */
  lemma FitsOf(p: Iso.Pattern, ws: seq<nat>, vals: seq<Num>)
    requires Iso.Widths(p) == ws && |vals| == |ws|
    requires forall i :: 0 <= i < |ws| ==> ws[i] in {1, 2, 3, 4, 9} && vals[i].Fin? && 0 <= vals[i].v < Bound(ws[i])
    ensures Iso.Fits(p, vals)
  {
    Iso.Pow10Small();
    assert Text.Pow10(1) == 10;
  }

  /** Ten to the width, for the widths the patterns use. */
  function Bound(w: nat): int
  {
    if w == 1 then 10 else if w == 2 then 100 else if w == 3 then 1000 else if w == 4 then 10000 else 1000000000
  }

  /** The values of a constructed date-time of a year 0..9999 with a finite day print as the template and match back. */
  lemma DateTimeFits(dt: DateTime)
    requires Normal(dt.data) && dt.data.day.Fin? && 0 <= dt.data.year <= 9999
    ensures Iso.Match(DateTimePattern, Iso.Format(DateTimePattern, Values(dt))) == Some(Values(dt))
  {
    DateTimeValuesFit(Values(dt));
  }

  /** A string that matches gives the date-time the constructor makes of its numbers. */
  lemma FromDateTimeStringOfMatch(s: string, vals: seq<Num>)
    requires Iso.Match(DateTimePattern, s) == Some(vals)
    ensures |vals| == 7
    ensures FromDateTimeString(s) == Ok(New(vals[0].v, vals[1].v, vals[2], vals[3].v, vals[4].v, vals[5].v, 0, 0, vals[6].v))
  {
    Shapes();
  }

  /** `fromDateTimeString(toDateTimeString(x))` is x for every constructed x of a year 0..9999 with a finite day. */
  lemma FromDateTimeStringOfToDateTimeString(dt: DateTime)
    requires Normal(dt.data) && dt.data.day.Fin? && 0 <= dt.data.year <= 9999
    ensures FromDateTimeString(ToDateTimeString(dt)) == Ok(dt)
  {
    DateTimeStringFormat(dt);
    DateTimeFits(dt);
    FromDateTimeStringOfMatch(ToDateTimeString(dt), Values(dt));
    NewOfNormal(dt);
  }

  /** The numbers of a matching date-time string: finite, non-negative, the fraction below a second, and printing as the string. */
  lemma DateTimeMatched(s: string) returns (v: seq<Num>)
    requires Iso.Match(DateTimePattern, s).Some?
    ensures Iso.Match(DateTimePattern, s) == Some(v) && |v| == 7
    ensures forall i :: 0 <= i < 7 ==> v[i].Fin? && 0 <= v[i].v
    ensures v[6].v < Shared.NsPerSecond && Iso.Format(DateTimePattern, v) == s
  {
    v := Iso.Match(DateTimePattern, s).value;
    Shapes();
    Iso.Pow10Small();
    Iso.MatchBound(DateTimePattern, s);
    Iso.FormatOfMatch(DateTimePattern, s);
  }

  /** A matching string whose fields are in range is exactly what the parsed date-time prints. */
  lemma ToDateTimeStringOfFromDateTimeString(s: string)
    requires Iso.Match(DateTimePattern, s).Some?
    requires var v := Iso.Match(DateTimePattern, s).value;
      && 1 <= v[1].v <= 12 && 1 <= v[2].v <= Shared.Dim(v[0].v, v[1].v)
      && v[3].v < 60 && v[4].v < 60 && v[5].v < 60
    ensures FromDateTimeString(s).Ok? && ToDateTimeString(FromDateTimeString(s).value) == s
  {
    var v := DateTimeMatched(s);
    var dt := DateTime(Civil(v[0].v, v[1].v, v[2], v[3].v, v[4].v, v[5].v, v[6].v));
    assert Values(dt) == v;
    FromDateTimeStringOfMatch(s, v);
    NewOfNormal(dt);
    DateTimeStringFormat(dt);
  }

  /**
   * The week-numbering year `toWeekDateTimeString` prints: one more for a
   * January date in week 52 or 53, one less for a December date in week 1.
   * ISO 8601 moves such dates the other way.
   */
  function WeekYear(dt: DateTime): int
  {
    var w := WeekOfYear(dt);
    if dt.data.month == 1 && w.Fin? && w.v > 51 then dt.data.year + 1
    else if dt.data.month == 12 && w == Fin(1) then dt.data.year - 1
    else dt.data.year
  }

  /** The values after the year that the week template prints. */
  function WeekValues(dt: DateTime): seq<Num>
  {
    var f := dt.data;
    [WeekOfYear(dt), Fin(DayOfWeek(dt)), Fin(f.hour), Fin(f.minute), Fin(f.second), Fin(f.nanosecond)]
  }

  /** `toWeekDateTimeString()`: the signed week year, `W`, the week in 2 digits, the weekday in 1, and the clock. */
  function ToWeekDateTimeString(dt: DateTime): string
  {
    Shared.SignedPad(WeekYear(dt), 4) + Iso.Format(WeekTail, WeekValues(dt))
  }

  /**
   * January 1, 2021, a Friday of a common year, gets week 52, and the week
   * string carries it into 2022; ISO 8601 puts it in week 53 of 2020.
   */
  lemma WeekYearExample()
    ensures WeekOfYear(DateTime(Civil(2021, 1, Fin(1), 0, 0, 0, 0))) == Fin(52)
    ensures WeekYear(DateTime(Civil(2021, 1, Fin(1), 0, 0, 0, 0))) == 2022
  {
    assert Shared.DayOfYear(2021, 1, 1) == Fin(1);
    assert Shared.ToDayOfWeek(2021, 1, 1) == 5;
  }

  /** The evidently intended week year: a January date in week 52 or 53 belongs to the previous year, a December date in week 1 to the next. */
  function WeekYearIntended(dt: DateTime): int
  {
    var w := WeekOfYear(dt);
    if dt.data.month == 1 && w.Fin? && w.v > 51 then dt.data.year - 1
    else if dt.data.month == 12 && w == Fin(1) then dt.data.year + 1
    else dt.data.year
  }

  /**
   * For every real calendar date the intended week year is the year of the
   * Thursday of its Monday-to-Sunday week, as ISO 8601 numbers week years,
   * and the week year as written lies the same distance on the other side.
   */
  lemma WeekYearIntendedIso(dt: DateTime)
    requires 1 <= dt.data.month <= 12 && dt.data.day.Fin? && 1 <= dt.data.day.v <= Shared.Dim(dt.data.year, dt.data.month)
    ensures var f := dt.data;
      var t := Shared.ThursdayOrdinal(f.year, f.month, f.day.v);
      WeekYearIntended(dt) == f.year + (if t < 1 then -1 else if t > 365 + Shared.Leap(f.year) then 1 else 0)
    ensures WeekYear(dt) - dt.data.year == dt.data.year - WeekYearIntended(dt)
  {
    var f := dt.data;
    Shared.WeekOfYearIso(f.year, f.month, f.day.v);
    Shared.DayOfYearRange(f.year, f.month, f.day.v);
    DayOfYearBounds(f.year, f.month, f.day.v);
  }

  /** January ordinals are at most 31 and December ordinals at least 335: the Thursday of a mid-year week stays in the year. */
  lemma DayOfYearBounds(year: int, month: int, day: int)
    requires 1 <= month <= 12 && 1 <= day <= Shared.Dim(year, month)
    ensures var doy := Shared.DayOfYear(year, month, day);
      && doy.Fin?
      && (month == 1 ==> doy.v == day)
      && (month > 1 ==> doy.v >= 32)
      && (month < 12 ==> doy.v <= 334 + Shared.Leap(year))
      && (month == 12 ==> doy.v >= 335 + Shared.Leap(year))
  {
    Shared.DayOfYearRange(year, month, day);
  }

  /** January 1, 2021, which the week string puts in 2022, belongs to week year 2020. */
  lemma WeekYearIntendedExample()
    ensures WeekYearIntended(DateTime(Civil(2021, 1, Fin(1), 0, 0, 0, 0))) == 2020
  {
    WeekYearExample();
  }

  /** Seven values in the week groups' ranges print as a week string that matches back to them. */
  lemma WeekValuesFit(vals: seq<Num>)
    requires |vals| == 7 && forall i :: 0 <= i < 7 ==> vals[i].Fin? && 0 <= vals[i].v
    requires vals[0].v <= 9999 && vals[1].v < 100 && vals[2].v < 10 && vals[3].v < 100 && vals[4].v < 100
    requires vals[5].v < 100 && vals[6].v < Shared.NsPerSecond
    ensures |Iso.Widths(WeekPattern)| == 7 && Iso.Match(WeekPattern, Iso.Format(WeekPattern, vals)) == Some(vals)
  {
    Shapes();
    FitsOf(WeekPattern, [4, 2, 1, 2, 2, 2, 9], vals);
    Iso.MatchOfFormat(WeekPattern, vals);
  }

  /**
   * The week string of a constructed date-time with a finite day whose week
   * year is 0..9999 matches the week pattern, which reads back the week
   * year, the week, the weekday and the clock.
   */
  lemma WeekDateTimeStringFields(dt: DateTime)
    requires Normal(dt.data) && dt.data.day.Fin? && 0 <= WeekYear(dt) <= 9999
    ensures Iso.Match(WeekPattern, ToWeekDateTimeString(dt)) == Some([Fin(WeekYear(dt))] + WeekValues(dt))
  {
    var vals := [Fin(WeekYear(dt))] + WeekValues(dt);
    WeekOfYearOf(dt);
    WeekValuesFit(vals);
    WeekStringFormat(dt);
  }

  /** For a week year of at least 0 the signed year is the week template's first group. */
  lemma WeekStringFormat(dt: DateTime)
    requires 0 <= WeekYear(dt)
    ensures |Iso.Widths(WeekPattern)| == 7
    ensures ToWeekDateTimeString(dt) == Iso.Format(WeekPattern, [Fin(WeekYear(dt))] + WeekValues(dt))
  {
    Shapes();
    var vals := [Fin(WeekYear(dt))] + WeekValues(dt);
    assert vals[1..] == WeekValues(dt);
  }

  /**
   * `CivilDateTime.fromWeekDateTimeString(string)`: Error unless the
   * pattern matches; `fromWeekOfYear` of the first three numbers, then the
   * constructor with the clock.
   */
  function FromWeekDateTimeString(s: string): (r: Result<DateTime>)
    ensures r.Throw? <==> Iso.Match(WeekPattern, s).None?
    ensures r.Throw? ==> r.exc == Error
  {
    Shapes();
    var m := Iso.Match(WeekPattern, s);
    if m.None? then Throw(Error)
    else
      var v := m.value;
      var w := Shared.DateOfWeek(v[0].v, v[1].v, v[2].v);
      Ok(New(w.year, w.month, Fin(w.day), v[3].v, v[4].v, v[5].v, 0, 0, v[6].v))
  }

  /** The numbers of a matching week string, finite and non-negative, with the fraction below a second. */
  lemma WeekMatched(s: string) returns (v: seq<Num>)
    requires Iso.Match(WeekPattern, s).Some?
    ensures Iso.Match(WeekPattern, s) == Some(v) && |v| == 7
    ensures forall i :: 0 <= i < 7 ==> v[i].Fin? && 0 <= v[i].v
    ensures v[3].v < 100 && v[4].v < 100 && v[5].v < 100 && v[6].v < Shared.NsPerSecond
  {
    v := Iso.Match(WeekPattern, s).value;
    Shapes();
    Iso.Pow10Small();
    Iso.MatchBound(WeekPattern, s);
  }

  /** A string that matches the week pattern gives the constructor's date-time of `fromWeekOfYear` and the clock. */
  lemma FromWeekOfMatch(s: string, v: seq<Num>, year: int, month: int, day: int)
    requires Iso.Match(WeekPattern, s) == Some(v) && |v| == 7
    requires Shared.DateOfWeek(v[0].v, v[1].v, v[2].v) == Shared.YearMonthDay(year, month, day)
    ensures FromWeekDateTimeString(s) == Ok(New(year, month, Fin(day), v[3].v, v[4].v, v[5].v, 0, 0, v[6].v))
  {
  }

  /**
   * A matching week string always gives a constructed date-time with a
   * finite day; when its clock is in range, that is the day WeekDateOrdinal
   * days into the year, whatever the week and weekday, at the matched clock.
   */
  lemma FromWeekDateTimeStringValid(s: string) returns (v: seq<Num>)
    requires Iso.Match(WeekPattern, s).Some?
    ensures Iso.Match(WeekPattern, s) == Some(v) && |v| == 7
    ensures var r := FromWeekDateTimeString(s);
      && r.Ok? && Normal(r.value.data) && r.value.data.day.Fin?
      && (v[3].v < 60 && v[4].v < 60 && v[5].v < 60 ==>
            && DayNumber(r.value) == EcmaTime.DayFromYear(v[0].v) + Shared.WeekDateOrdinal(v[0].v, v[1].v, v[2].v) - 1
            && CivilTimes.ClockOf(r.value.data) == CivilTimes.Time(v[3].v, v[4].v, v[5].v, v[6].v))
  {
    v := WeekMatched(s);
    var year, month, day := WeekDate(v[0].v, v[1].v, v[2].v);
    FromWeekOfMatch(s, v, year, month, day);
    WeekDateAt(year, month, day, v[3].v, v[4].v, v[5].v, v[6].v);
    if v[3].v < 60 && v[4].v < 60 && v[5].v < 60 {
      DayNumberOf(FromWeekDateTimeString(s).value, year, month, day);
    }
  }

  /** `fromWeekOfYear` of a year, week and weekday as plain numbers: a valid date WeekDateOrdinal days into the year. */
  lemma WeekDate(y: int, week: int, weekday: int) returns (year: int, month: int, day: int)
    ensures Shared.DateOfWeek(y, week, weekday) == Shared.YearMonthDay(year, month, day)
    ensures 1 <= month <= 12 && 1 <= day <= Shared.Dim(year, month)
    ensures EcmaTime.MakeDay(year, month - 1, day) == EcmaTime.DayFromYear(y) + Shared.WeekDateOrdinal(y, week, weekday) - 1
  {
    var w := Shared.DateOfWeek(y, week, weekday);
    Shared.DateOfWeekValid(y, week, weekday);
    year, month, day := w.year, w.month, w.day;
  }

  /** The day number of a date-time with the given date fields. */
  lemma DayNumberOf(dt: DateTime, year: int, month: int, day: int)
    requires dt.data.year == year && dt.data.month == month && dt.data.day == Fin(day)
    ensures DayNumber(dt) == EcmaTime.MakeDay(year, month - 1, day)
  {
  }

  /** A valid date with a clock of two-digit amounts and a fraction below a second constructs a date-time with a finite day, the same one when the clock is in range. */
  lemma WeekDateAt(year: int, month: int, day: int, hour: int, minute: int, second: int, nanosecond: int)
    requires 1 <= month <= 12 && 1 <= day <= Shared.Dim(year, month)
    requires 0 <= hour < 100 && 0 <= minute < 100 && 0 <= second < 100 && 0 <= nanosecond < Shared.NsPerSecond
    ensures var r := New(year, month, Fin(day), hour, minute, second, 0, 0, nanosecond);
      && Normal(r.data) && r.data.day.Fin?
      && (hour < 60 && minute < 60 && second < 60 ==> r == DateTime(Civil(year, month, Fin(day), hour, minute, second, nanosecond)))
  {
    NewNormal(year, month, Fin(day), hour, minute, second, 0, 0, nanosecond);
    if hour < 60 && minute < 60 && second < 60 {
      NewOfNormal(DateTime(Civil(year, month, Fin(day), hour, minute, second, nanosecond)));
    } else {
      NewDayNumber(year, month, day, hour, minute, second, nanosecond);
    }
  }

  /** A valid date with a clock of non-negative amounts keeps a finite day. */
  lemma NewDayNumber(year: int, month: int, day: int, hour: int, minute: int, second: int, nanosecond: int)
    requires 1 <= month <= 12 && 1 <= day <= Shared.Dim(year, month)
    requires 0 <= hour && 0 <= minute && 0 <= second && 0 <= nanosecond
    ensures New(year, month, Fin(day), hour, minute, second, 0, 0, nanosecond).data.day.Fin?
  {
    var c := Civil(year, month, Fin(day), hour, minute, second, nanosecond);
    SumOfEmpty(year, month, Fin(day), hour, minute, second, 0, 0, nanosecond);
    assert CivilTimes.SubsecondNs(0, 0, nanosecond) == nanosecond;
    CarryDayForward(c);
    BalanceForward(CarryClock(c));
  }

  /** The clock loops add a non-negative number of days to a clock of non-negative amounts. */
  lemma CarryDayForward(c: Civil)
    requires c.day.Fin? && c.day.v >= 1
    requires c.hour >= 0 && c.minute >= 0 && c.second >= 0 && c.nanosecond >= 0
    ensures CarryClock(c).day.Fin? && CarryClock(c).day.v >= 1
  {
  }

  /** The date loops keep a finite day of at least 1 finite. */
  lemma BalanceForward(c: Civil)
    requires c.day.Fin? && c.day.v >= 1
    ensures BalanceCivil(c).day.Fin?
  {
    BalanceConserves(c);
  }

  /** The values after the year that the ordinal template prints. */
  function OrdinalValues(dt: DateTime): seq<Num>
  {
    var f := dt.data;
    [DayOfYear(dt), Fin(f.hour), Fin(f.minute), Fin(f.second), Fin(f.nanosecond)]
  }

  /** `toOrdinalDateTimeString()`: the signed year, the day of the year in 3 digits, and the clock. */
  function ToOrdinalDateTimeString(dt: DateTime): string
  {
    Shared.SignedPad(dt.data.year, 4) + Iso.Format(OrdinalTail, OrdinalValues(dt))
  }

  /**
   * `CivilDateTime.fromOrdinalDateTimeString(string)`: Error unless the
   * pattern matches; `fromDayOfYear` of the first two numbers, then the
   * constructor with the clock.
   */
  function FromOrdinalDateTimeString(s: string): (r: Result<DateTime>)
    ensures r.Throw? <==> Iso.Match(OrdinalPattern, s).None?
    ensures r.Throw? ==> r.exc == Error
  {
    Shapes();
    var m := Iso.Match(OrdinalPattern, s);
    if m.None? then Throw(Error)
    else
      var v := m.value;
      var d := Shared.DateOfDayOfYear(v[0].v, v[1].v);
      Ok(New(d.year, d.month, Fin(d.day), v[2].v, v[3].v, v[4].v, 0, 0, v[5].v))
  }

  /** Six values in the ordinal groups' ranges print as an ordinal string that matches back to them. */
  lemma OrdinalValuesFit(vals: seq<Num>)
    requires |vals| == 6 && forall i :: 0 <= i < 6 ==> vals[i].Fin? && 0 <= vals[i].v
    requires vals[0].v <= 9999 && vals[1].v < 1000 && vals[2].v < 100 && vals[3].v < 100 && vals[4].v < 100
    requires vals[5].v < Shared.NsPerSecond
    ensures |Iso.Widths(OrdinalPattern)| == 6 && Iso.Match(OrdinalPattern, Iso.Format(OrdinalPattern, vals)) == Some(vals)
  {
    Shapes();
    FitsOf(OrdinalPattern, [4, 3, 2, 2, 2, 9], vals);
    Iso.MatchOfFormat(OrdinalPattern, vals);
  }

  /** The ordinal string of a constructed date-time of a year 0..9999 with a finite day matches back to the year, ordinal and clock. */
  lemma OrdinalFits(dt: DateTime)
    requires Normal(dt.data) && dt.data.day.Fin? && 0 <= dt.data.year <= 9999
    ensures Iso.Match(OrdinalPattern, ToOrdinalDateTimeString(dt)) == Some([Fin(dt.data.year)] + OrdinalValues(dt))
  {
    var vals := [Fin(dt.data.year)] + OrdinalValues(dt);
    DayOfYearOf(dt);
    OrdinalValuesFit(vals);
    assert vals[1..] == OrdinalValues(dt);
  }

  /** A string that matches the ordinal pattern gives the constructor's date-time of `fromDayOfYear` and the clock. */
  lemma FromOrdinalOfMatch(s: string, vals: seq<Num>)
    requires Iso.Match(OrdinalPattern, s) == Some(vals)
    ensures |vals| == 6
    ensures var d := Shared.DateOfDayOfYear(vals[0].v, vals[1].v);
      FromOrdinalDateTimeString(s) == Ok(New(d.year, d.month, Fin(d.day), vals[2].v, vals[3].v, vals[4].v, 0, 0, vals[5].v))
  {
    Shapes();
  }

  /** `fromOrdinalDateTimeString(toOrdinalDateTimeString(x))` is x for every constructed x of a year 0..9999 with a finite day. */
  lemma FromOrdinalOfToOrdinal(dt: DateTime)
    requires Normal(dt.data) && dt.data.day.Fin? && 0 <= dt.data.year <= 9999
    ensures FromOrdinalDateTimeString(ToOrdinalDateTimeString(dt)) == Ok(dt)
  {
    OrdinalFits(dt);
    DayOfYearOf(dt);
    FromOrdinalOfMatch(ToOrdinalDateTimeString(dt), [Fin(dt.data.year)] + OrdinalValues(dt));
    NewOfNormal(dt);
  }

  /**
   * `CivilDateTime.fromString(string)`: the date-time string, then the week
   * string, then the ordinal string; Error when all three throw.
   */
  function FromString(s: string): Result<DateTime>
  {
    CivilDates.OrElse(FromDateTimeString(s),
      CivilDates.OrElse(FromWeekDateTimeString(s), CivilDates.OrElse(FromOrdinalDateTimeString(s), Throw(Error))))
  }

  /** Position 5 of a date-time string is a month digit, of a week string the `W`. */
  lemma FifthCharacter(s: string)
    ensures Iso.Match(DateTimePattern, s).Some? ==> |s| == 29 && Text.IsDigit(s[5])
    ensures Iso.Match(WeekPattern, s).Some? ==> |s| == 29 && s[5] == 'W'
    ensures Iso.Match(OrdinalPattern, s).Some? ==> |s| == 27
  {
    Shapes();
    if Iso.Match(DateTimePattern, s).Some? {
      assert Iso.Match(DateTimeTail, s[4..]).Some?;
      assert s[4..][1..] == s[5..];
      assert Iso.Match(Iso.Field(2, Iso.Lit('-', Iso.Field(2, ClockTail))), s[5..]).Some?;
      assert Text.IsDigits(s[5..][..2]);
      assert s[5..][..2][0] == s[5];
    }
    if Iso.Match(WeekPattern, s).Some? {
      assert Iso.Match(WeekTail, s[4..]).Some?;
      assert s[4..][1..] == s[5..];
    }
  }

  /**
   * The three grammars are pairwise disjoint, so `fromString` gives the one
   * parse that succeeds, and throws an Error when none does.
   */
  lemma FromStringOneGrammar(s: string)
    ensures !(Iso.Match(DateTimePattern, s).Some? && Iso.Match(WeekPattern, s).Some?)
    ensures !(Iso.Match(DateTimePattern, s).Some? && Iso.Match(OrdinalPattern, s).Some?)
    ensures !(Iso.Match(WeekPattern, s).Some? && Iso.Match(OrdinalPattern, s).Some?)
    ensures Iso.Match(DateTimePattern, s).Some? ==> FromString(s) == FromDateTimeString(s)
    ensures Iso.Match(WeekPattern, s).Some? ==> FromString(s) == FromWeekDateTimeString(s)
    ensures Iso.Match(OrdinalPattern, s).Some? ==> FromString(s) == FromOrdinalDateTimeString(s)
    ensures FromString(s).Throw? <==>
      Iso.Match(DateTimePattern, s).None? && Iso.Match(WeekPattern, s).None? && Iso.Match(OrdinalPattern, s).None?
    ensures FromString(s).Throw? ==> FromString(s).exc == Error
  {
    FifthCharacter(s);
  }
}
