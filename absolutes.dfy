/**
 * lib/absolute.mjs: an instant as a BigInt count of nanoseconds since 1970
 * together with the time zone it is viewed in. The wall-clock getters and
 * the offset are the zone's getDateTimeFor and getOffsetFor at that count;
 * plus and minus move the count by a cast duration's weighted total, and
 * difference splits the distance into days down to nanoseconds.
 */
module Absolutes {
  import opened Js
  import Text
  import EcmaTime
  import Shared
  import Durations
  import TimeZones
  import Zoned
  import Instants

  /** The DATA (epoch nanoseconds) and TZ of an Absolute. */
  datatype Absolute = Absolute(ns: int, zone: TimeZones.TimeZone)

  /**
   * `new Absolute(epochNanoseconds, timeZone)`: a TypeError unless the count
   * is a BigInt (checked first), then the zone `TimeZone.for` builds.
   */
  function New(epoch: Instants.Arg, timeZone: string, zones: Zoned.Zones): (r: Result<Absolute>)
    ensures epoch.NotBigInt? ==> r == Throw(TypeError)
    ensures epoch.BigInt? ==> (r.Ok? <==> TimeZones.For(timeZone, zones).Ok?)
    ensures epoch.BigInt? && r.Throw? ==> r.exc == RangeError
    ensures r.Ok? ==> GetEpochNanoseconds(r.value) == epoch.n && TimeZones.For(timeZone, zones) == Ok(r.value.zone)
  {
    if epoch.NotBigInt? then Throw(TypeError)
    else
      var zone :- TimeZones.For(timeZone, zones);
      Ok(Absolute(epoch.n, zone))
  }

  /** A zone that `TimeZone.for` rebuilds from its own name, as `new Absolute(nanos, this.timeZone)` does. */
  ghost predicate Named(z: TimeZones.TimeZone, zones: Zoned.Zones)
  {
    TimeZones.For(TimeZones.Name(z), zones) == Ok(z)
  }

  /** An offset zone below 100 hours, and an Intl zone under its resolved name, are rebuilt from their names. */
  lemma NamedOfFor(name: string, zones: Zoned.Zones, z: TimeZones.TimeZone)
    requires TimeZones.For(name, zones) == Ok(z)
    requires z.OffsetZone? ==> Abs(z.offset) < 100 * 3600000
    requires z.IanaZone? ==> !TimeZones.IsOffset(TimeZones.Name(z)) && zones(TimeZones.Name(z)) == zones(name)
    ensures Named(z, zones)
  {
    TimeZones.ForOfName(name, zones, z);
  }

  // The epoch getters: BigInt quotients, which round toward zero

  /** `getEpochSeconds()`: the whole seconds of the count, rounded toward zero. */
  function GetEpochSeconds(a: Absolute): (r: int)
    ensures Abs(r) == Abs(a.ns) / 1000000000
    ensures (r > 0 ==> a.ns > 0) && (r < 0 ==> a.ns < 0)
  {
    QuotRem(a.ns, 1000000000);
    Quot(a.ns, 1000000000)
  }

  /** `getEpochMilliseconds()`: the whole milliseconds of the count, rounded toward zero. */
  function GetEpochMilliseconds(a: Absolute): (r: int)
    ensures Abs(r) == Abs(a.ns) / 1000000
    ensures (r > 0 ==> a.ns > 0) && (r < 0 ==> a.ns < 0)
  {
    QuotRem(a.ns, 1000000);
    Quot(a.ns, 1000000)
  }

  /** `getEpochMicroseconds()`: the whole microseconds of the count, rounded toward zero. */
  function GetEpochMicroseconds(a: Absolute): (r: int)
    ensures Abs(r) == Abs(a.ns) / 1000
    ensures (r > 0 ==> a.ns > 0) && (r < 0 ==> a.ns < 0)
  {
    QuotRem(a.ns, 1000);
    Quot(a.ns, 1000)
  }

  function GetEpochNanoseconds(a: Absolute): int
  {
    a.ns
  }

  // The static factories

  /** A value handed to `BigInt(x)`: a BigInt, or a number (NaN for any non-finite one). */
  datatype Numeric = BigIntValue(n: int) | NumberValue(x: Num)

  /** `BigInt(x)`: a BigInt as it is, an integral number converted, and a RangeError for NaN. */
  function ToBigInt(v: Numeric): (r: Result<int>)
    ensures r.Throw? <==> v.NumberValue? && v.x.NaN?
    ensures r.Throw? ==> r.exc == RangeError
    ensures r.Ok? && v.BigIntValue? ==> r.value == v.n
    ensures r.Ok? && v.NumberValue? ==> r.value == v.x.v
  {
    if v.BigIntValue? then Ok(v.n)
    else if v.x.NaN? then Throw(RangeError)
    else Ok(v.x.v)
  }

  /** `Absolute.fromEpochSeconds(s, tz)`: `getEpochSeconds` reads the seconds back. */
  function FromEpochSeconds(seconds: Numeric, timeZone: string, zones: Zoned.Zones): (r: Result<Absolute>)
    ensures r.Ok? <==> ToBigInt(seconds).Ok? && TimeZones.For(timeZone, zones).Ok?
    ensures r.Throw? ==> r.exc == RangeError
    ensures r.Ok? ==> r.value.ns == ToBigInt(seconds).value * 1000000000
    ensures r.Ok? ==> GetEpochSeconds(r.value) == ToBigInt(seconds).value
  {
    var n :- ToBigInt(seconds);
    Instants.QuotOfMultiple(n, 1000000000);
    New(Instants.BigInt(n * 1000000000), timeZone, zones)
  }

  /** `Absolute.fromEpochMilliseconds(ms, tz)`: `getEpochMilliseconds` reads the milliseconds back. */
  function FromEpochMilliseconds(milliseconds: Numeric, timeZone: string, zones: Zoned.Zones): (r: Result<Absolute>)
    ensures r.Ok? <==> ToBigInt(milliseconds).Ok? && TimeZones.For(timeZone, zones).Ok?
    ensures r.Throw? ==> r.exc == RangeError
    ensures r.Ok? ==> r.value.ns == ToBigInt(milliseconds).value * 1000000
    ensures r.Ok? ==> GetEpochMilliseconds(r.value) == ToBigInt(milliseconds).value
  {
    var n :- ToBigInt(milliseconds);
    Instants.QuotOfMultiple(n, 1000000);
    New(Instants.BigInt(n * 1000000), timeZone, zones)
  }

  /** `Absolute.fromEpochMicroseconds(us, tz)`: `getEpochMicroseconds` reads the microseconds back. */
  function FromEpochMicroseconds(microseconds: Numeric, timeZone: string, zones: Zoned.Zones): (r: Result<Absolute>)
    ensures r.Ok? <==> ToBigInt(microseconds).Ok? && TimeZones.For(timeZone, zones).Ok?
    ensures r.Throw? ==> r.exc == RangeError
    ensures r.Ok? ==> r.value.ns == ToBigInt(microseconds).value * 1000
    ensures r.Ok? ==> GetEpochMicroseconds(r.value) == ToBigInt(microseconds).value
  {
    var n :- ToBigInt(microseconds);
    Instants.QuotOfMultiple(n, 1000);
    New(Instants.BigInt(n * 1000), timeZone, zones)
  }

  /** `Absolute.fromEpochNanoseconds(ns, tz)`: `getEpochNanoseconds` reads the count back. */
  function FromEpochNanoseconds(nanoseconds: Numeric, timeZone: string, zones: Zoned.Zones): (r: Result<Absolute>)
    ensures r.Ok? <==> ToBigInt(nanoseconds).Ok? && TimeZones.For(timeZone, zones).Ok?
    ensures r.Throw? ==> r.exc == RangeError
    ensures r.Ok? ==> GetEpochNanoseconds(r.value) == ToBigInt(nanoseconds).value
  {
    var n :- ToBigInt(nanoseconds);
    New(Instants.BigInt(n), timeZone, zones)
  }

  /** Coarser factories agree with finer ones on the scaled count. */
  lemma FromEpochScales(n: int, timeZone: string, zones: Zoned.Zones)
    ensures FromEpochSeconds(NumberValue(Fin(n)), timeZone, zones)
         == FromEpochMilliseconds(BigIntValue(n * 1000), timeZone, zones)
    ensures FromEpochMilliseconds(NumberValue(Fin(n)), timeZone, zones)
         == FromEpochMicroseconds(BigIntValue(n * 1000), timeZone, zones)
    ensures FromEpochMicroseconds(BigIntValue(n), timeZone, zones)
         == FromEpochNanoseconds(BigIntValue(n * 1000), timeZone, zones)
  {
    assert n * 1000000000 == (n * 1000) * 1000000;
    assert n * 1000000 == (n * 1000) * 1000;
  }

  // The zone views

  /** `getDateTime()`: the zone's getDateTimeFor at the count; the wall-clock getters read its fields. */
  function DateTimeFor(a: Absolute): (f: Shared.Fields)
    ensures Abs(f.microsecond) < 1000 && Abs(f.nanosecond) < 1000
    ensures a.zone.IanaZone? ==> 0 <= f.microsecond < 1000 && 0 <= f.nanosecond < 1000
    ensures a.zone.IanaZone? || a.ns >= a.zone.offset * 1000000 ==> f.microsecond >= 0 && f.nanosecond >= 0
  {
    match a.zone
    case OffsetZone(_, offset) =>
      var t := a.ns - offset * 1000000;
      QuotRem(t, 1000);
      QuotRem(Quot(t, 1000), 1000);
      TimeZones.OffsetDateTimeFor(offset, a.ns)
    case IanaZone(o) => TimeZones.IanaDateTimeFor(o, a.ns)
  }

  /**
   * In an offset zone the wall clock names the instant again: the zone's
   * getAbsoluteFor of `getDateTime()` is exactly this count, unless the
   * shifted UTC year is one of 0..99, which `Date.UTC` moves to the 1900s.
   */
  lemma AbsoluteOfDateTime(a: Absolute, t: int, q: int)
    requires a.zone.OffsetZone? && t == a.ns - a.zone.offset * 1000000 && q == Quot(t, 1000000)
    requires !(0 <= EcmaTime.Utc(q).year <= 99)
    ensures TimeZones.OffsetAbsoluteFor(a.zone.offset, DateTimeFor(a)) == [a.ns]
  {
    TimeZones.OffsetAbsoluteOfDateTime(a.zone.offset, a.ns, t, q);
  }

  /** The `offset` getter: the zone's getOffsetFor, which for an offset zone is its name. */
  function OffsetFor(a: Absolute): (r: string)
    ensures a.zone.OffsetZone? ==> r == TimeZones.Name(a.zone)
    ensures a.zone.IanaZone? ==> |r| == 6 && r[3] == ':'
  {
    match a.zone
    case OffsetZone(name, _) => name
    case IanaZone(o) => TimeZones.IanaOffsetFor(o, a.ns)
  }

  /**
   * `toString()`: the DateTime's text (`text`, the unseen DateTime's
   * toString), then "Z" in the zone named UTC, the offset alone where it is
   * the zone's name, and otherwise the offset and the bracketed name.
   */
  function ToString(a: Absolute, text: Shared.Fields -> string): (r: string)
    ensures var date, name := text(DateTimeFor(a)), TimeZones.Name(a.zone);
      && |date| <= |r| && r[..|date|] == date
      && (name == "UTC" ==> r[|date|..] == "Z")
      && (name != "UTC" && name == OffsetFor(a) ==> r[|date|..] == name)
      && (name != "UTC" && name != OffsetFor(a) ==> r[|date|..] == OffsetFor(a) + "[" + name + "]")
  {
    var date := text(DateTimeFor(a));
    var name := TimeZones.Name(a.zone);
    var offset := OffsetFor(a);
    if "UTC" == name then date + "Z"
    else if name == offset then date + offset
    else date + offset + "[" + name + "]"
  }

  /**
   * The text ends in "Z" exactly in the zone named UTC: an offset zone's
   * canonical name ends in a digit and a bracketed name in "]".
   */
  lemma ToStringEndsInZ(a: Absolute, text: Shared.Fields -> string)
    requires a.zone.OffsetZone? ==> a.zone.name == Shared.MakeOffsetString(-a.zone.offset)
    ensures var r := ToString(a, text);
      |r| > 0 && (r[|r| - 1] == 'Z' <==> TimeZones.Name(a.zone) == "UTC")
  {
    var r := ToString(a, text);
    var date, name := text(DateTimeFor(a)), TimeZones.Name(a.zone);
    if name != "UTC" {
      var offset := OffsetFor(a);
      if name == offset {
        assert |offset| == 6 && r == date + offset;
        assert Text.IsDigits(offset[4..]) && offset[4..][1] == offset[5];
        assert r[|r| - 1] == offset[5];
      } else {
        assert r[|r| - 1] == ']';
      }
    }
  }

  /** An offset zone prints its offset once, without a bracketed name. */
  lemma ToStringInOffsetZone(a: Absolute, text: Shared.Fields -> string)
    requires a.zone.OffsetZone? && a.zone.name != "UTC"
    ensures ToString(a, text) == text(DateTimeFor(a)) + a.zone.name
  {
  }

  /** `withZone(tz)`: the same count in the zone `TimeZone.for` builds from the name. */
  function WithZone(a: Absolute, tz: string, zones: Zoned.Zones): (r: Result<Absolute>)
    ensures r.Ok? <==> TimeZones.For(tz, zones).Ok?
    ensures r.Throw? ==> r.exc == RangeError
    ensures r.Ok? ==> r.value.ns == a.ns && Ok(r.value.zone) == TimeZones.For(tz, zones)
  {
    var zone :- TimeZones.For(tz, zones);
    Ok(Absolute(a.ns, zone))
  }

  /** Only the last of two zone changes matters, and a change back restores the zone. */
  lemma WithZoneTwice(a: Absolute, x: string, y: string, zones: Zoned.Zones)
    requires WithZone(a, x, zones).Ok?
    ensures WithZone(WithZone(a, x, zones).value, y, zones) == WithZone(a, y, zones)
    ensures Named(a.zone, zones) ==> WithZone(WithZone(a, x, zones).value, TimeZones.Name(a.zone), zones) == Ok(a)
  {
  }

  // compare

  /** `Absolute.compare(one, two)`: the count of two minus that of one. */
  function Compare(one: Absolute, two: Absolute): (r: int)
    ensures r > 0 <==> one.ns < two.ns
    ensures r == 0 <==> one.ns == two.ns
    ensures r + one.ns == two.ns
  {
    two.ns - one.ns
  }

  /** Swapping the arguments negates the comparison, and its sign is transitive. */
  lemma CompareOrder(a: Absolute, b: Absolute, c: Absolute)
    ensures Compare(a, b) == -Compare(b, a)
    ensures Compare(a, b) >= 0 && Compare(b, c) >= 0 ==> Compare(a, c) >= 0
    ensures Compare(a, b) + Compare(b, c) == Compare(a, c)
  {
  }

  // difference

  /** The components `difference` computes from the distance, as the duration-like `{ days, hours, … }`. */
  function Components(diff: nat): Durations.DurationFields
  {
    Durations.DurationFields(NaN, NaN, Fin(diff / 86400000000000), Fin(diff / 3600000000000 % 24),
                             Fin(diff / 60000000000 % 60), Fin(diff / 1000000000 % 60),
                             Fin(diff / 1000000 % 1000), Fin(diff / 1000 % 1000), Fin(diff % 1000))
  }

  /** The components are a clock reading and recombine to the distance. */
  lemma ComponentsRecombine(diff: nat)
    ensures var c := Components(diff);
      && Shared.ClockValid(c.hours.v, c.minutes.v, c.seconds.v, c.milliseconds.v, c.microseconds.v, c.nanoseconds.v)
      && c.days.v * Shared.NsPerDay
         + Shared.TimeNs(c.hours.v, c.minutes.v, c.seconds.v, c.milliseconds.v, c.microseconds.v, c.nanoseconds.v)
         == diff
  {
    var n1 := diff / 1000;
    var n2 := n1 / 1000;
    var n3 := n2 / 1000;
    var n4 := n3 / 60;
    var n5 := n4 / 60;
    var n6 := n5 / 24;
    var r0, r1, r2, r3, r4, r5 := diff % 1000, n1 % 1000, n2 % 1000, n3 % 60, n4 % 60, n5 % 24;
    assert diff == 1000 * n1 + r0 && n1 == 1000 * n2 + r1 && n2 == 1000 * n3 + r2;
    assert n3 == 60 * n4 + r3 && n4 == 60 * n5 + r4 && n5 == 24 * n6 + r5;
    DivModUnique(diff, 1000000, n2, 1000 * r1 + r0);
    DivModUnique(diff, 1000000000, n3, 1000000 * r2 + 1000 * r1 + r0);
    DivModUnique(diff, 60000000000, n4, 1000000000 * r3 + 1000000 * r2 + 1000 * r1 + r0);
    DivModUnique(diff, 3600000000000, n5, 60000000000 * r4 + 1000000000 * r3 + 1000000 * r2 + 1000 * r1 + r0);
    DivModUnique(diff, 86400000000000, n6,
                 3600000000000 * r5 + 60000000000 * r4 + 1000000000 * r3 + 1000000 * r2 + 1000 * r1 + r0);
  }

  /**
   * `difference(other)`: the distance between the two counts as a duration
   * with undefined years and months, whole days and a clock reading that
   * add up to exactly that distance, whichever instant comes first.
   */
  function Difference(a: Absolute, other: Absolute): (r: Result<Durations.Duration>)
    ensures r.Ok? && r.value.years.None? && r.value.months.None?
    ensures Durations.TimeInRange(r.value) && r.value.days >= 0
    ensures r.value.days * Shared.NsPerDay + Durations.SubDayNs(r.value) == Abs(other.ns - a.ns)
  {
    var one := if a.ns <= other.ns then a.ns else other.ns;
    var two := if a.ns <= other.ns then other.ns else a.ns;
    var diff: nat := two - one;
    var like := Durations.Like(Components(diff));
    ComponentsRecombine(diff);
    Shared.CarryTimeOfClock(Durations.AbsFields(like.f));
    Durations.CastDurationProperties(like, None);
    Durations.CastDurationOf(like, None)
  }

  // plus and minus

  /** The seven `nanos += BigInt(duration.x || 0) * unit` steps: days down to nanoseconds in nanoseconds. */
  function Weighted(d: Durations.Duration): (w: int)
    ensures w == d.days * Shared.NsPerDay + Durations.SubDayNs(d)
  {
    d.nanoseconds + d.microseconds * 1000 + d.milliseconds * 1000000 + d.seconds * 1000000000
      + d.minutes * 60000000000 + d.hours * 3600000000000 + d.days * 86400000000000
  }

  /** `duration.years + duration.months` is truthy: both defined and not summing to zero. */
  predicate Calendar(d: Durations.Duration)
  {
    d.years.Some? && d.months.Some? && d.years.value + d.months.value != 0
  }

  /**
   * The shared body of plus and minus on a cast duration: move the count by
   * the weighted total; keep this Absolute when the count does not change,
   * otherwise `new Absolute(nanos, this.timeZone)`, which rebuilds the zone
   * from its name; and with calendar years or months reach `balance`, which
   * is not defined in the module, a ReferenceError.
   */
  function Move(a: Absolute, d: Durations.Duration, negate: bool, zones: Zoned.Zones): (r: Result<Absolute>)
    ensures r.Ok? ==> !Calendar(d) && r.value.ns == a.ns + Shared.Signed(negate, Weighted(d))
    ensures r.Ok? && Named(a.zone, zones) ==> r.value.zone == a.zone
    ensures Named(a.zone, zones) ==> (r.Throw? <==> Calendar(d))
    ensures r.Throw? ==> r.exc == ReferenceError || r.exc == RangeError
    ensures r.Throw? && r.exc == RangeError ==> TimeZones.For(TimeZones.Name(a.zone), zones).Throw?
  {
    var nanos := a.ns + Shared.Signed(negate, Weighted(d));
    var inter :- if a.ns == nanos then Ok(a) else New(Instants.BigInt(nanos), TimeZones.Name(a.zone), zones);
    if !Calendar(d) then Ok(inter) else Throw(ReferenceError)
  }

  /** `plus(duration)`: castDuration without a base, then the count moved forward. */
  function Plus(a: Absolute, duration: Durations.DurationLike, zones: Zoned.Zones): (r: Result<Absolute>)
    ensures var d := Durations.CastDurationOf(duration, None);
      d.Ok? && (r.Ok? ==> r.value.ns == a.ns + Weighted(d.value))
    ensures Named(a.zone, zones) ==> (r.Throw? <==> Calendar(Durations.CastDurationOf(duration, None).value))
    ensures r.Ok? && Named(a.zone, zones) ==> r.value.zone == a.zone
  {
    CastNeverThrows(duration);
    var d := Durations.CastDurationOf(duration, None).value;
    Move(a, d, false, zones)
  }

  /** `minus(duration)`: castDuration without a base, then the count moved backward. */
  function Minus(a: Absolute, duration: Durations.DurationLike, zones: Zoned.Zones): (r: Result<Absolute>)
    ensures var d := Durations.CastDurationOf(duration, None);
      d.Ok? && (r.Ok? ==> r.value.ns == a.ns - Weighted(d.value))
    ensures Named(a.zone, zones) ==> (r.Throw? <==> Calendar(Durations.CastDurationOf(duration, None).value))
    ensures r.Ok? && Named(a.zone, zones) ==> r.value.zone == a.zone
  {
    CastNeverThrows(duration);
    var d := Durations.CastDurationOf(duration, None).value;
    Move(a, d, true, zones)
  }

  /** Without a base castDuration never throws. */
  lemma CastNeverThrows(duration: Durations.DurationLike)
    ensures Durations.CastDurationOf(duration, None).Ok?
  {
  }

  /**
   * A duration-like object moves the count by the weighted total of the
   * absolute values of its days down to nanoseconds, whatever their signs:
   * `plus({ hours: -1 })` moves one hour forward. Its years and months never
   * reach the calendar path, since castDuration leaves them undefined.
   */
  lemma PlusOfLike(a: Absolute, f: Durations.DurationFields, zones: Zoned.Zones)
    ensures var d := Durations.CastDurationOf(Durations.Like(f), None);
      d.Ok? && !Calendar(d.value) && Weighted(d.value) == Durations.InputTotal(f)
    ensures Plus(a, Durations.Like(f), zones).Ok? ==> Plus(a, Durations.Like(f), zones).value.ns == a.ns + Durations.InputTotal(f)
    ensures Minus(a, Durations.Like(f), zones).Ok? ==> Minus(a, Durations.Like(f), zones).value.ns == a.ns - Durations.InputTotal(f)
  {
    Durations.CastDurationProperties(Durations.Like(f), None);
  }

  /** minus undoes plus, and plus undoes minus, in a zone rebuilt from its name. */
  lemma MinusUndoesPlus(a: Absolute, duration: Durations.DurationLike, zones: Zoned.Zones)
    requires Named(a.zone, zones)
    requires !Calendar(Durations.CastDurationOf(duration, None).value)
    ensures Plus(a, duration, zones).Ok? && Minus(Plus(a, duration, zones).value, duration, zones) == Ok(a)
    ensures Minus(a, duration, zones).Ok? && Plus(Minus(a, duration, zones).value, duration, zones) == Ok(a)
  {
    CastNeverThrows(duration);
    var d := Durations.CastDurationOf(duration, None).value;
    MoveBack(a, d, false, zones);
    MoveBack(a, d, true, zones);
  }

  /** A move and the opposite move by the same duration return to the same Absolute. */
  lemma MoveBack(a: Absolute, d: Durations.Duration, negate: bool, zones: Zoned.Zones)
    requires Named(a.zone, zones) && !Calendar(d)
    ensures Move(a, d, negate, zones).Ok? && Move(Move(a, d, negate, zones).value, d, !negate, zones) == Ok(a)
  {
    var n := a.ns + Shared.Signed(negate, Weighted(d));
    MoveTo(a, d, negate, n, zones);
    MoveTo(Absolute(n, a.zone), d, !negate, a.ns, zones);
  }

  /** In a zone rebuilt from its name, a move without calendar units lands on the moved count in the same zone. */
  lemma MoveTo(a: Absolute, d: Durations.Duration, negate: bool, n: int, zones: Zoned.Zones)
    requires Named(a.zone, zones) && !Calendar(d) && n == a.ns + Shared.Signed(negate, Weighted(d))
    ensures Move(a, d, negate, zones) == Ok(Absolute(n, a.zone))
  {
  }

  /**
   * The difference carries the earlier instant to the later one: a plus
   * a.difference(b) is b, and b minus the same duration is a, each in its
   * own zone.
   */
  lemma PlusDifference(a: Absolute, b: Absolute, zones: Zoned.Zones)
    requires a.ns <= b.ns
    ensures Named(a.zone, zones) ==> Plus(a, Durations.Instance(Difference(a, b).value), zones) == Ok(Absolute(b.ns, a.zone))
    ensures Named(b.zone, zones) ==> Minus(b, Durations.Instance(Difference(a, b).value), zones) == Ok(Absolute(a.ns, b.zone))
  {
    var d := Difference(a, b).value;
    MoveBetween(a, b, d, zones);
  }

  lemma MoveBetween(a: Absolute, b: Absolute, d: Durations.Duration, zones: Zoned.Zones)
    requires Weighted(d) == b.ns - a.ns && !Calendar(d)
    ensures Named(a.zone, zones) ==> Plus(a, Durations.Instance(d), zones) == Ok(Absolute(b.ns, a.zone))
    ensures Named(b.zone, zones) ==> Minus(b, Durations.Instance(d), zones) == Ok(Absolute(a.ns, b.zone))
  {
    if Named(a.zone, zones) {
      MoveTo(a, d, false, b.ns, zones);
    }
    if Named(b.zone, zones) {
      MoveTo(b, d, true, a.ns, zones);
    }
  }
}
