/**
 * lib/offset.mjs: `OffsetDateTime`, an instant together with a fixed UTC
 * offset. Its DATA record is getOffsetInfo's: the UTC getters of a `Date`
 * at the instant's milliseconds plus the offset, the sub-millisecond parts
 * of the instant's nanoseconds, and the offset re-rendered by
 * makeOffsetString. `with`, `plus` and `minus` compute new local fields,
 * turn them back into an instant by subtracting the offset, and construct
 * a fresh OffsetDateTime with the same offset string.
 */
module Offsets {
  import opened Js
  import Text
  import EcmaTime
  import Shared
  import Durations
  import DateTimes
  import Dates
  import Times
  import Iso

  /**
   * The `{ ms, ns }` DATA of an instant as this file reads it: epoch
   * milliseconds, NaN when a `Date.UTC` upstream was handed a NaN, and the
   * nanoseconds below the millisecond.
   */
  datatype InstantData = InstantData(ms: Num, ns: int)

  /** What the constructor is handed: an Instant, or anything else. */
  datatype Arg = InstantArg(data: InstantData) | OtherArg

  /**
   * The `getUTC*` getters of `new Date(t)` (the month 1-based) and the day
   * of week, day of year and week of year of that date; an Invalid Date
   * when t is NaN, whose getters are all NaN.
   */
  datatype Local = Local(year: int, month: int, day: int, hour: int, minute: int, second: int, millisecond: int,
                         dayOfWeek: int, dayOfYear: int, weekOfYear: int)
                 | InvalidDate

  /** The DATA record of an OffsetDateTime. */
  datatype OffsetDateTime = OffsetDateTime(instant: InstantData, local: Local, microsecond: int, nanosecond: int,
                                           offset: string, offsetMilliSeconds: int)

  /** The getters of `new Date(t)` together with Shared's day of week, day of year and week of year. */
  function LocalOf(t: Num): (l: Local)
    ensures l.InvalidDate? <==> t.NaN?
  {
    if t.NaN? then InvalidDate else DateOfUtc(EcmaTime.Utc(t.v))
  }

  /** The local fields of valid UTC getters, the month made 1-based. */
  function DateOfUtc(u: EcmaTime.UtcFields): Local
    requires EcmaTime.ValidUtc(u)
  {
    var year, month, day := u.year, u.month + 1, u.date;
    Local(year, month, day, u.hours, u.minutes, u.seconds, u.ms, Shared.ToDayOfWeek(year, month, day),
          Shared.DayOfYear(year, month, day).v, Shared.ToWeekOfYear(year, month, day).v)
  }

  /**
   * `getOffsetInfo(ms, ns, offset)`: parseOffsetString of the offset (which
   * throws Error when it does not match), the UTC getters at ms plus that
   * offset, `Math.floor(ns / 1e3)` microseconds and `Math.floor(ns % 1e3)`
   * nanoseconds (`%` keeps the sign of ns), and the offset printed again.
   */
  function GetOffsetInfo(data: InstantData, offset: string): Result<OffsetDateTime>
  {
    var offsetMs :- Shared.ParseOffsetString(offset);
    Ok(OffsetDateTime(data, LocalOf(Add(data.ms, Fin(offsetMs))), data.ns / 1000, Rem(data.ns, 1000),
                      Shared.MakeOffsetString(offsetMs), offsetMs))
  }

  /** `new OffsetDateTime(instant, offsetString)`: Error unless handed an Instant, then getOffsetInfo. */
  function NewOffsetDateTime(instant: Arg, offsetString: string): Result<OffsetDateTime>
  {
    if !instant.InstantArg? then Throw(Error) else GetOffsetInfo(instant.data, offsetString)
  }

  /** The nine fields of an OffsetDateTime with a valid date. */
  function FieldsOf(o: OffsetDateTime): Shared.Fields
    requires o.local.Local?
  {
    Shared.Fields(o.local.year, o.local.month, o.local.day, o.local.hour, o.local.minute, o.local.second,
                  o.local.millisecond, o.microsecond, o.nanosecond)
  }

  /** Every field in its range. */
  predicate Valid(o: OffsetDateTime)
  {
    o.local.Local? && Shared.ValidFields(FieldsOf(o))
  }

  /** An OffsetDateTime as the constructor records it from its own instant and offset. */
  predicate Recorded(o: OffsetDateTime)
  {
    GetOffsetInfo(o.instant, o.offset) == Ok(o)
  }

  /**
   * The constructor throws Error for anything but an Instant and for an
   * offset string that does not match; otherwise it keeps the instant,
   * records parseOffsetString's milliseconds and makeOffsetString of them,
   * and its local fields are the UTC decomposition of the instant's
   * milliseconds plus the offset: an Invalid Date exactly when those are
   * NaN, and otherwise valid fields (for nanoseconds in 0..999999, which it
   * splits into microseconds and nanoseconds) whose `Date.UTC` is that
   * sum again, outside the years 0..99.
   */
  lemma NewSpec(instant: Arg, s: string)
    ensures var r := NewOffsetDateTime(instant, s);
      && (r.Ok? <==> instant.InstantArg? && Shared.OffsetMatch(s).Some?)
      && (r.Throw? ==> r.exc == Error)
      && (r.Ok? ==>
            var off := Shared.ParseOffsetString(s).value;
            && r.value.instant == instant.data
            && r.value.offsetMilliSeconds == off && r.value.offset == Shared.MakeOffsetString(off)
            && (r.value.local.InvalidDate? <==> instant.data.ms.NaN?))
    ensures var r := NewOffsetDateTime(instant, s);
      r.Ok? && instant.data.ms.Fin? ==> LocalRecord(r.value, instant.data.ms.v + Shared.ParseOffsetString(s).value)
  {
    if NewOffsetDateTime(instant, s).Ok? && instant.data.ms.Fin? {
      NewLocal(instant, s);
    }
  }

  lemma NewLocal(instant: Arg, s: string)
    requires NewOffsetDateTime(instant, s).Ok? && instant.data.ms.Fin?
    ensures LocalRecord(NewOffsetDateTime(instant, s).value, instant.data.ms.v + Shared.ParseOffsetString(s).value)
  {
    var o := NewOffsetDateTime(instant, s).value;
    LocalAt(o, Shared.ParseOffsetString(s).value, instant.data.ms.v + Shared.ParseOffsetString(s).value);
    FiniteInfo(o, instant.data.ms.v + Shared.ParseOffsetString(s).value);
  }

  /** Adding an offset to finite milliseconds: the local fields at the sum. */
  lemma LocalOfSum(ms: Num, off: int)
    requires ms.Fin?
    ensures Add(ms, Fin(off)) == Fin(ms.v + off)
    ensures LocalOf(Add(ms, Fin(off))) == LocalOf(Fin(ms.v + off))
  {
    assert Add(ms, Fin(off)) == Fin(ms.v + off);
  }

  /**
   * The local fields of an OffsetDateTime at the time value t: a valid date
   * whose UTC getters are those of t, with in-range ordinals; for
   * nanoseconds in 0..999999 valid fields that split them into microseconds
   * and nanoseconds; and outside the years 0..99 fields whose `Date.UTC`
   * is t again.
   */
  predicate LocalRecord(o: OffsetDateTime, t: int)
  {
    var l := o.local;
    && l.Local?
    && EcmaTime.Utc(t) == EcmaTime.UtcFields(l.year, l.month - 1, l.day, l.hour, l.minute, l.second, l.millisecond)
    && 0 <= l.dayOfWeek <= 6 && 1 <= l.dayOfYear <= 366
    && (0 <= o.instant.ns < 1000000 ==> Valid(o) && o.microsecond * 1000 + o.nanosecond == o.instant.ns)
    && (!(0 <= l.year <= 99) ==> Shared.EpochMSNS(FieldsOf(o)).ms == t)
  }

  /** getOffsetInfo's record at finite milliseconds, by the local fields at their sum t with the offset. */
  lemma FiniteInfo(o: OffsetDateTime, t: int)
    requires o.local == LocalOf(Fin(t))
    requires o.microsecond == o.instant.ns / 1000 && o.nanosecond == Rem(o.instant.ns, 1000)
    ensures LocalRecord(o, t)
  {
    LocalSpec(t);
    SubMilliseconds(o.instant.ns);
    FiniteEpoch(o, t);
  }

  /** The local fields getOffsetInfo writes at finite milliseconds are those at their sum with the offset. */
  lemma LocalAt(o: OffsetDateTime, off: int, t: int)
    requires o.instant.ms.Fin? && o.local == LocalOf(Add(o.instant.ms, Fin(off))) && t == o.instant.ms.v + off
    ensures o.local == LocalOf(Fin(t))
  {
    assert Add(o.instant.ms, Fin(off)) == Fin(t);
  }

  lemma FiniteEpoch(o: OffsetDateTime, t: int)
    requires o.local == LocalOf(Fin(t))
    ensures o.local.Local? && (!(0 <= o.local.year <= 99) ==> Shared.EpochMSNS(FieldsOf(o)).ms == t)
  {
    LocalSpec(t);
    if !(0 <= o.local.year <= 99) {
      EpochOfUtc(FieldsOf(o), t);
    }
  }

  /** Fields that are the UTC decomposition of t, outside the years 0..99, have t as their epoch milliseconds. */
  lemma EpochOfUtc(f: Shared.Fields, t: int)
    requires !(0 <= f.year <= 99)
    requires EcmaTime.Utc(t) == EcmaTime.UtcFields(f.year, f.month - 1, f.day, f.hour, f.minute, f.second, f.millisecond)
    ensures Shared.EpochMSNS(f).ms == t
  {
    EcmaTime.DateUtcOfUtc(t);
  }

  /** `Math.floor(ns / 1e3)` and `Math.floor(ns % 1e3)` split nanoseconds in 0..999999 into two parts below 1000. */
  lemma SubMilliseconds(ns: int)
    ensures 0 <= ns < 1000000 ==> 0 <= ns / 1000 < 1000 && 0 <= Rem(ns, 1000) < 1000 && (ns / 1000) * 1000 + Rem(ns, 1000) == ns
  {
    if 0 <= ns < 1000000 {
      DivModUnique(ns, 1000, ns / 1000, ns % 1000);
      assert Rem(ns, 1000) == ns % 1000;
    }
  }

  /** The local date at a finite time value is a valid date with Shared's ordinals. */
  lemma LocalSpec(t: int)
    ensures var l := LocalOf(Fin(t));
      && l.Local?
      && EcmaTime.Utc(t) == EcmaTime.UtcFields(l.year, l.month - 1, l.day, l.hour, l.minute, l.second, l.millisecond)
      && 1 <= l.month <= 12 && 1 <= l.day <= Shared.Dim(l.year, l.month)
      && 0 <= l.dayOfWeek <= 6 && 1 <= l.dayOfYear <= 366
  {
    DateOfUtcSpec(EcmaTime.Utc(t));
  }

  lemma DateOfUtcSpec(u: EcmaTime.UtcFields)
    requires EcmaTime.ValidUtc(u)
    ensures var l := DateOfUtc(u);
      && l.Local?
      && u == EcmaTime.UtcFields(l.year, l.month - 1, l.day, l.hour, l.minute, l.second, l.millisecond)
      && 1 <= l.month <= 12 && 1 <= l.day <= Shared.Dim(l.year, l.month)
      && 0 <= l.dayOfWeek <= 6 && 1 <= l.dayOfYear <= 366
  {
    Shared.LeapAgrees(u.year);
    Shared.DayOfYearRange(u.year, u.month + 1, u.date);
  }

  /**
   * A constructed OffsetDateTime is recorded whenever the offset's minutes
   * are below 60: makeOffsetString then prints an offset parseOffsetString
   * reads back as the same milliseconds.
   */
  lemma NewRecorded(data: InstantData, s: string)
    requires Shared.OffsetMatch(s).Some? && Text.Value(Shared.OffsetMatch(s).value.minutes) < 60
    ensures var r := NewOffsetDateTime(InstantArg(data), s);
      r.Ok? && Recorded(r.value) && r.value.offset == Shared.CanonicalOffset(Shared.OffsetMatch(s).value)
  {
    var off := Shared.ParseOffsetString(s).value;
    Shared.MakeOfParseOffsetString(s);
    BelowHundredHours(s);
    Shared.ParseOfMakeOffsetString(off);
  }

  lemma BelowHundredHours(s: string)
    requires Shared.OffsetMatch(s).Some? && Text.Value(Shared.OffsetMatch(s).value.minutes) < 60
    ensures Shared.ParseOffsetString(s).Ok?
    ensures var off := Shared.ParseOffsetString(s).value; off % 60000 == 0 && Abs(off) < 100 * 3600000
  {
    var g := Shared.OffsetMatch(s).value;
    Text.ValueBound(g.hours);
    Iso.Pow10Small();
    var k := Text.Value(g.hours) * 60 + Text.Value(g.minutes);
    assert k < 6000;
  }

  /** A recorded OffsetDateTime's offset string parses to its offset in milliseconds. */
  lemma RecordedOffset(o: OffsetDateTime)
    requires Recorded(o)
    ensures Shared.ParseOffsetString(o.offset) == Ok(o.offsetMilliSeconds)
    ensures o.offset == Shared.MakeOffsetString(o.offsetMilliSeconds)
  {
  }

  /**
   * An offset whose minutes exceed 59 is printed with its whole hours
   * wrapped to two digits: '+99:99', 6039 minutes, is recorded as
   * '+00:39', a different offset.
   */
  lemma WrappedOffsetExample(data: InstantData)
    ensures var r := NewOffsetDateTime(InstantArg(data), "+99:99");
      r.Ok? && r.value.offsetMilliSeconds == 6039 * 60000 && r.value.offset == "+00:39"
      && Shared.ParseOffsetString(r.value.offset) == Ok(39 * 60000)
  {
    ParseWrapped();
    MakeWrapped();
    ParseOfWrapped();
  }

  lemma ParseWrapped()
    ensures Shared.ParseOffsetString("+99:99") == Ok(6039 * 60000)
  {
    Shared.MatchOfSignedColon('+', "99", "99");
    assert ['+'] + "99" + ":" + "99" == "+99:99";
    Shared.TwoDigitsSpelled(99);
    assert Text.Value("99") == 99;
  }

  lemma MakeWrapped()
    ensures Shared.MakeOffsetString(6039 * 60000) == "+00:39"
  {
    var sign, hours, minutes := Shared.MakeOffsetStringParts(6039 * 60000);
    assert hours == 100 && minutes == 39 by {
      DivModUnique(6039 * 60000, 60000, 6039, 0);
      DivModUnique(6039, 60, 100, 39);
    }
    assert Shared.TwoDigits(100) == "00" by {
      var d := Text.Decimal(100);
      assert d == Text.Decimal(10) + [Text.DigitChar(0)];
      assert Text.Decimal(10) == Text.Decimal(1) + [Text.DigitChar(0)];
      assert d[|d| - 2..] == [Text.DigitChar(0), Text.DigitChar(0)];
      assert Shared.SliceLast("00" + d, 2) == d[|d| - 2..];
    }
    Shared.TwoDigitsSpelled(39);
  }

  lemma ParseOfWrapped()
    ensures Shared.ParseOffsetString("+00:39") == Ok(39 * 60000)
  {
    Shared.MatchOfSignedColon('+', "00", "39");
    assert ['+'] + "00" + ":" + "39" == "+00:39";
    Shared.TwoDigitsSpelled(39);
    Shared.TwoDigitsSpelled(0);
    assert Text.Value("39") == 39 && Text.Value("00") == 0;
  }

  // ---------------------------------------------------------------------------
  // with

  /** A field getter of an OffsetDateTime: NaN on an Invalid Date, except for the two sub-millisecond ones. */
  function Getter(o: OffsetDateTime, f: Shared.Field): Num
  {
    if f == Shared.Microsecond then Fin(o.microsecond)
    else if f == Shared.Nanosecond then Fin(o.nanosecond)
    else match o.local
      case InvalidDate => NaN
      case Local(year, month, day, hour, minute, second, millisecond, _, _, _) =>
        Fin(match f
            case Year => year case Month => month case Day => day case Hour => hour
            case Minute => minute case Second => second case _ => millisecond)
  }

  /** The nine fields copyProps copies. */
  const FieldSet: set<Shared.Field> := {Shared.Year, Shared.Month, Shared.Day, Shared.Hour, Shared.Minute, Shared.Second,
                                        Shared.Millisecond, Shared.Microsecond, Shared.Nanosecond}

  /** The properties copyProps reads from an OffsetDateTime: its nine field getters. */
  function PropsOf(o: OffsetDateTime): Shared.Props
  {
    map f | f in FieldSet :: Getter(o, f)
  }

  /** copyProps of an OffsetDateTime and a property bag defines every field, the bag's value winning. */
  lemma Merged(o: OffsetDateTime, like: Shared.Props)
    ensures Shared.Merge([PropsOf(o), like]) == PropsOf(o) + like
    ensures forall f: Shared.Field :: f in PropsOf(o) + like
  {
    Shared.MergeTwo(PropsOf(o), like);
    forall f: Shared.Field
      ensures f in FieldSet
    {
      match f
      case Year => case Month => case Day => case Hour => case Minute => case Second =>
      case Millisecond => case Microsecond => case Nanosecond =>
    }
  }

  /** A property bag whose microsecond and nanosecond, where defined, are finite. */
  predicate SubFinite(p: Shared.Props)
  {
    (Shared.Microsecond in p ==> p[Shared.Microsecond].Fin?) && (Shared.Nanosecond in p ==> p[Shared.Nanosecond].Fin?)
  }

  /** `Date.UTC` of possibly NaN fields: NaN as soon as one of them is. */
  function DateUtcNum(year: Num, month: Num, day: Num, hour: Num, minute: Num, second: Num, millisecond: Num): (r: Num)
    ensures r.Fin? <==> year.Fin? && month.Fin? && day.Fin? && hour.Fin? && minute.Fin? && second.Fin? && millisecond.Fin?
  {
    if year.Fin? && month.Fin? && day.Fin? && hour.Fin? && minute.Fin? && second.Fin? && millisecond.Fin? then
      Fin(EcmaTime.DateUtc(year.v, month.v - 1, day.v, hour.v, minute.v, second.v, millisecond.v))
    else NaN
  }

  /**
   * The instant that `with`, `plus` and `minus` build: `epochMSNS` of the
   * new local fields, the milliseconds less the offset.
   */
  function Shift(epoch: Num, ns: int, offsetMs: int): InstantData
  {
    InstantData(Add(epoch, Fin(-offsetMs)), ns)
  }

  /** The instant `with` builds: copyProps of the OffsetDateTime and the argument, epochMSNS, the milliseconds less the offset. */
  function WithData(o: OffsetDateTime, like: Shared.Props): InstantData
    requires SubFinite(like)
  {
    var m := Shared.Merge([PropsOf(o), like]);
    Merged(o, like);
    var ms := DateUtcNum(m[Shared.Year], m[Shared.Month], m[Shared.Day], m[Shared.Hour], m[Shared.Minute],
                         m[Shared.Second], m[Shared.Millisecond]);
    Shift(ms, m[Shared.Microsecond].v * 1000 + m[Shared.Nanosecond].v, o.offsetMilliSeconds)
  }

  /** `offsetDateTime.with(dateTimeLike)`: the constructor at WithData with the same offset string. */
  function With(o: OffsetDateTime, like: Shared.Props): Result<OffsetDateTime>
    requires SubFinite(like)
  {
    NewOffsetDateTime(InstantArg(WithData(o, like)), o.offset)
  }

  /** The argument's property when it defines it, the OffsetDateTime's own getter otherwise. */
  function Pick(like: Shared.Props, o: OffsetDateTime, f: Shared.Field): Num
  {
    if f in like then like[f] else Getter(o, f)
  }

  /** `with` takes each field from the argument when it defines it, and the OffsetDateTime's getter otherwise. */
  lemma WithReplaces(o: OffsetDateTime, like: Shared.Props)
    requires SubFinite(like)
    ensures WithData(o, like) == Shift(
      DateUtcNum(Pick(like, o, Shared.Year), Pick(like, o, Shared.Month), Pick(like, o, Shared.Day), Pick(like, o, Shared.Hour),
                 Pick(like, o, Shared.Minute), Pick(like, o, Shared.Second), Pick(like, o, Shared.Millisecond)),
      Pick(like, o, Shared.Microsecond).v * 1000 + Pick(like, o, Shared.Nanosecond).v, o.offsetMilliSeconds)
  {
    Merged(o, like);
    PickAt(o, like, Shared.Year);
    PickAt(o, like, Shared.Month);
    PickAt(o, like, Shared.Day);
    PickAt(o, like, Shared.Hour);
    PickAt(o, like, Shared.Minute);
    PickAt(o, like, Shared.Second);
    PickAt(o, like, Shared.Millisecond);
    PickAt(o, like, Shared.Microsecond);
    PickAt(o, like, Shared.Nanosecond);
  }

  lemma PickAt(o: OffsetDateTime, like: Shared.Props, g: Shared.Field)
    ensures (PropsOf(o) + like)[g] == Pick(like, o, g)
  {
    match g
    case Year => case Month => case Day => case Hour => case Minute => case Second =>
    case Millisecond => case Microsecond => case Nanosecond =>
  }

  /** Every property the bag defines is a finite number. */
  predicate AllFinite(p: Shared.Props)
  {
    forall f | f in p :: p[f].Fin?
  }

  /** The fields `with` hands epochMSNS when every property is finite. */
  function WithFields(o: OffsetDateTime, like: Shared.Props): Shared.Fields
    requires o.local.Local? && AllFinite(like)
  {
    Shared.Fields(Pick(like, o, Shared.Year).v, Pick(like, o, Shared.Month).v, Pick(like, o, Shared.Day).v,
                  Pick(like, o, Shared.Hour).v, Pick(like, o, Shared.Minute).v, Pick(like, o, Shared.Second).v,
                  Pick(like, o, Shared.Millisecond).v, Pick(like, o, Shared.Microsecond).v, Pick(like, o, Shared.Nanosecond).v)
  }

  /** The instant `with` builds from finite properties: epochMSNS of the picked fields, less the offset. */
  lemma WithInstant(o: OffsetDateTime, like: Shared.Props)
    requires o.local.Local? && AllFinite(like)
    ensures var e := Shared.EpochMSNS(WithFields(o, like));
      WithData(o, like) == InstantData(Fin(e.ms - o.offsetMilliSeconds), e.ns)
  {
    WithReplaces(o, like);
    PicksFinite(o, like);
    ShiftOfFinite(Pick(like, o, Shared.Year), Pick(like, o, Shared.Month), Pick(like, o, Shared.Day), Pick(like, o, Shared.Hour),
                  Pick(like, o, Shared.Minute), Pick(like, o, Shared.Second), Pick(like, o, Shared.Millisecond),
                  Pick(like, o, Shared.Microsecond), Pick(like, o, Shared.Nanosecond), o.offsetMilliSeconds, WithData(o, like));
  }

  /** The instant built from finite fields is their epochMSNS less the offset. */
  lemma ShiftOfFinite(year: Num, month: Num, day: Num, hour: Num, minute: Num, second: Num, millisecond: Num,
                      microsecond: Num, nanosecond: Num, off: int, data: InstantData)
    requires year.Fin? && month.Fin? && day.Fin? && hour.Fin? && minute.Fin? && second.Fin? && millisecond.Fin?
    requires microsecond.Fin? && nanosecond.Fin?
    requires data == Shift(DateUtcNum(year, month, day, hour, minute, second, millisecond), microsecond.v * 1000 + nanosecond.v, off)
    ensures var e := Shared.EpochMSNS(Shared.Fields(year.v, month.v, day.v, hour.v, minute.v, second.v, millisecond.v,
                                                    microsecond.v, nanosecond.v));
      data == InstantData(Fin(e.ms - off), e.ns)
  {
  }

  lemma PicksFinite(o: OffsetDateTime, like: Shared.Props)
    requires o.local.Local? && AllFinite(like)
    ensures Pick(like, o, Shared.Year).Fin? && Pick(like, o, Shared.Month).Fin? && Pick(like, o, Shared.Day).Fin?
    ensures Pick(like, o, Shared.Hour).Fin? && Pick(like, o, Shared.Minute).Fin? && Pick(like, o, Shared.Second).Fin?
    ensures Pick(like, o, Shared.Millisecond).Fin? && Pick(like, o, Shared.Microsecond).Fin? && Pick(like, o, Shared.Nanosecond).Fin?
  {
  }

  /**
   * On a recorded OffsetDateTime, `with` of finite properties that make
   * valid fields outside the years 0..99 keeps the offset string and the
   * offset, and its local fields are exactly the picked fields: ms is
   * reduced by the offset before getOffsetInfo adds it back.
   */
  lemma WithSpec(o: OffsetDateTime, like: Shared.Props)
    requires Recorded(o) && o.local.Local? && AllFinite(like)
    requires Shared.ValidFields(WithFields(o, like)) && !(0 <= WithFields(o, like).year <= 99)
    ensures var r := With(o, like);
      && r.Ok? && Recorded(r.value) && Valid(r.value)
      && r.value.offset == o.offset && r.value.offsetMilliSeconds == o.offsetMilliSeconds
      && FieldsOf(r.value) == WithFields(o, like)
  {
    WithInstant(o, like);
    LocalFieldsOf(o, WithFields(o, like), WithData(o, like));
  }

  /**
   * Constructing at `epochMSNS(f)` less a recorded offset, with the same
   * offset string, gives an OffsetDateTime whose local fields are f, for
   * valid fields outside the years 0..99.
   */
  lemma LocalFieldsOf(o: OffsetDateTime, f: Shared.Fields, data: InstantData)
    requires Recorded(o) && Shared.ValidFields(f) && !(0 <= f.year <= 99)
    requires data == InstantData(Fin(Shared.EpochMSNS(f).ms - o.offsetMilliSeconds), Shared.EpochMSNS(f).ns)
    ensures var r := NewOffsetDateTime(InstantArg(data), o.offset);
      && r.Ok? && Recorded(r.value) && Valid(r.value)
      && r.value.offset == o.offset && r.value.offsetMilliSeconds == o.offsetMilliSeconds
      && FieldsOf(r.value) == f
  {
    RecordedAt(o, data);
    RecordedOffset(o);
    LocalFieldsAt(o.offset, o.offsetMilliSeconds, f, data);
  }

  /** At epochMSNS of valid fields outside the years 0..99 less an offset, the constructor's local fields are those fields. */
  lemma LocalFieldsAt(offset: string, off: int, f: Shared.Fields, data: InstantData)
    requires Shared.ParseOffsetString(offset) == Ok(off) && Shared.ValidFields(f) && !(0 <= f.year <= 99)
    requires data == InstantData(Fin(Shared.EpochMSNS(f).ms - off), Shared.EpochMSNS(f).ns)
    ensures var r := NewOffsetDateTime(InstantArg(data), offset);
      r.Ok? && Valid(r.value) && FieldsOf(r.value) == f
  {
    var e := Shared.EpochMSNS(f);
    OffsetInfoAt(data, offset, off);
    LocalOfEpoch(f, data.ms.v + off, e.ns);
  }

  /** The OffsetDateTime at finite milliseconds and an offset text in canonical form, with its local fields l. */
  lemma OffsetInfoWith(data: InstantData, offset: string, off: int, l: Local)
    requires Shared.ParseOffsetString(offset) == Ok(off) && offset == Shared.MakeOffsetString(off) && data.ms.Fin?
    requires l == LocalOf(Fin(data.ms.v + off))
    ensures NewOffsetDateTime(InstantArg(data), offset) == Ok(OffsetDateTime(data, l, data.ns / 1000, Rem(data.ns, 1000), offset, off))
  {
    OffsetInfoAt(data, offset, off);
  }

  /** The OffsetDateTime at finite milliseconds and an offset text that parses. */
  lemma OffsetInfoAt(data: InstantData, offset: string, off: int)
    requires Shared.ParseOffsetString(offset) == Ok(off) && data.ms.Fin?
    ensures NewOffsetDateTime(InstantArg(data), offset)
      == Ok(OffsetDateTime(data, LocalOf(Fin(data.ms.v + off)), data.ns / 1000, Rem(data.ns, 1000),
                           Shared.MakeOffsetString(off), off))
  {
    assert Add(data.ms, Fin(off)) == Fin(data.ms.v + off);
  }

  /** Constructing with a recorded offset string, at any instant, records the same offset again. */
  lemma RecordedAt(o: OffsetDateTime, data: InstantData)
    requires Recorded(o)
    ensures var r := NewOffsetDateTime(InstantArg(data), o.offset);
      && r.Ok? && Recorded(r.value)
      && r.value == OffsetDateTime(data, LocalOf(Add(data.ms, Fin(o.offsetMilliSeconds))), data.ns / 1000, Rem(data.ns, 1000),
                                   o.offset, o.offsetMilliSeconds)
  {
    RecordedOffset(o);
  }

  /** The local fields at epochMSNS of valid fields outside the years 0..99 are those fields. */
  lemma LocalOfEpoch(f: Shared.Fields, t: int, ns: int)
    requires Shared.ValidFields(f) && !(0 <= f.year <= 99)
    requires t == Shared.EpochMSNS(f).ms && ns == Shared.EpochMSNS(f).ns
    ensures var l := LocalOf(Fin(t));
      && l.Local? && l.year == f.year && l.month == f.month && l.day == f.day && l.hour == f.hour
      && l.minute == f.minute && l.second == f.second && l.millisecond == f.millisecond
      && ns / 1000 == f.microsecond && Rem(ns, 1000) == f.nanosecond
  {
    Shared.EpochMSNSRoundTrip(f);
    LocalSpec(t);
    SubMilliseconds(ns);
  }

  /** A NaN among the date and clock properties down to milliseconds gives an Invalid Date, with the offset kept. */
  lemma WithNaN(o: OffsetDateTime, like: Shared.Props, f: Shared.Field)
    requires Recorded(o) && SubFinite(like) && f in like && like[f].NaN?
    ensures var r := With(o, like);
      r.Ok? && r.value.local.InvalidDate? && r.value.offset == o.offset && r.value.offsetMilliSeconds == o.offsetMilliSeconds
  {
    Merged(o, like);
    RecordedOffset(o);
  }

  // ---------------------------------------------------------------------------
  // plus / minus

  /** The OffsetDateTime as the base of castDuration: its year and month getters. */
  function BaseOf(o: OffsetDateTime): Durations.Base
  {
    match o.local
    case InvalidDate => Durations.Base(NaN, NaN)
    case Local(year, month, _, _, _, _, _, _, _, _) => Durations.Base(Fin(year), Fin(month))
  }

  /**
   * What calculate reads from an OffsetDateTime: its fields, and on an
   * Invalid Date zeros for the NaN ones (whose results are NaN again and
   * never read; the microseconds and nanoseconds carry among themselves).
   */
  function CalculateInput(o: OffsetDateTime): Shared.Fields
  {
    if o.local.Local? then FieldsOf(o) else Shared.Fields(0, 0, 0, 0, 0, 0, 0, o.microsecond, o.nanosecond)
  }

  /**
   * The instant `plus` and `minus` build: calculate of the OffsetDateTime
   * and a cast duration, epochMSNS of the result, the milliseconds less the
   * offset. A NaN day after a January underflow makes the milliseconds NaN.
   */
  function MoveData(o: OffsetDateTime, dur: Durations.Duration, negate: bool): InstantData
  {
    var r := Shared.CalculateSpec(CalculateInput(o), Durations.DeltaOf(dur), negate);
    var ms := if o.local.InvalidDate? then NaN
              else DateUtcNum(Fin(r.year), Fin(r.month), r.day, Fin(r.hour), Fin(r.minute), Fin(r.second), Fin(r.millisecond));
    Shift(ms, r.microsecond * 1000 + r.nanosecond, o.offsetMilliSeconds)
  }

  /** The constructor at MoveData with the same offset string. */
  function MoveBy(o: OffsetDateTime, dur: Durations.Duration, negate: bool): Result<OffsetDateTime>
  {
    NewOffsetDateTime(InstantArg(MoveData(o, dur, negate)), o.offset)
  }

  /** `plus` (negate false) and `minus` (negate true): castDuration against the OffsetDateTime, then MoveBy. */
  function Move(o: OffsetDateTime, durationLike: Durations.DurationLike, negate: bool): Result<OffsetDateTime>
  {
    var dur :- Durations.CastDurationOf(durationLike, Some(BaseOf(o)));
    MoveBy(o, dur, negate)
  }

  function Plus(o: OffsetDateTime, durationLike: Durations.DurationLike): Result<OffsetDateTime>
  {
    Move(o, durationLike, false)
  }

  function Minus(o: OffsetDateTime, durationLike: Durations.DurationLike): Result<OffsetDateTime>
  {
    Move(o, durationLike, true)
  }

  /**
   * Moving a recorded valid OffsetDateTime never throws and keeps the
   * offset string and the offset. The result is an Invalid Date exactly on
   * a January underflow of calculate; otherwise, outside the years 0..99,
   * its local fields are calculate's.
   */
  lemma MoveBySpec(o: OffsetDateTime, dur: Durations.Duration, negate: bool, dl: Shared.Delta)
    requires Recorded(o) && Valid(o) && dl == Durations.DeltaOf(dur)
    ensures var m := MoveBy(o, dur, negate);
      var r := Shared.CalculateSpec(FieldsOf(o), dl, negate);
      && m.Ok? && Recorded(m.value) && m.value.offset == o.offset && m.value.offsetMilliSeconds == o.offsetMilliSeconds
      && (m.value.local.InvalidDate? <==> Shared.JanuaryUnderflow(FieldsOf(o), dl, negate))
      && (r.day.Fin? && !(0 <= r.year <= 99) ==> Valid(m.value) && FieldsOf(m.value) == Shared.FieldsOf(r))
  {
    var r := Shared.CalculateSpec(FieldsOf(o), dl, negate);
    var data := MoveData(o, dur, negate);
    MoveDataOf(o, dur, negate, dl, r);
    RecordedAt(o, data);
    Shared.CalculateRanges(FieldsOf(o), dl, negate);
    RecordedOffset(o);
    MoveByFields(o, r, data);
  }

  /** With a finite day outside the years 0..99 the moved local fields are calculate's. */
  lemma MoveByFields(o: OffsetDateTime, r: Shared.Calculated, data: InstantData)
    requires Shared.ParseOffsetString(o.offset) == Ok(o.offsetMilliSeconds)
    requires data == Shift(DateUtcNum(Fin(r.year), Fin(r.month), r.day, Fin(r.hour), Fin(r.minute),
                                      Fin(r.second), Fin(r.millisecond)),
                           r.microsecond * 1000 + r.nanosecond, o.offsetMilliSeconds)
    requires r.day.Fin? && !(0 <= r.year <= 99) ==> Shared.ValidFields(Shared.FieldsOf(r))
    ensures r.day.Fin? && !(0 <= r.year <= 99) ==>
      var m := NewOffsetDateTime(InstantArg(data), o.offset);
      m.Ok? && Valid(m.value) && FieldsOf(m.value) == Shared.FieldsOf(r)
  {
    if r.day.Fin? && !(0 <= r.year <= 99) {
      ShiftOfCalculated(r, o.offsetMilliSeconds, data);
      LocalFieldsAt(o.offset, o.offsetMilliSeconds, Shared.FieldsOf(r), data);
    }
  }

  /** The instant plus and minus build from a date-time with a valid date, by calculate's result r. */
  lemma MoveDataOf(o: OffsetDateTime, dur: Durations.Duration, negate: bool, dl: Shared.Delta, r: Shared.Calculated)
    requires o.local.Local? && dl == Durations.DeltaOf(dur) && r == Shared.CalculateSpec(FieldsOf(o), dl, negate)
    ensures MoveData(o, dur, negate) == Shift(DateUtcNum(Fin(r.year), Fin(r.month), r.day, Fin(r.hour), Fin(r.minute),
                                                         Fin(r.second), Fin(r.millisecond)),
                                              r.microsecond * 1000 + r.nanosecond, o.offsetMilliSeconds)
  {
  }

  /** With a finite day, that instant is epochMSNS of calculate's fields less the offset. */
  lemma ShiftOfCalculated(r: Shared.Calculated, off: int, data: InstantData)
    requires r.day.Fin?
    requires data == Shift(DateUtcNum(Fin(r.year), Fin(r.month), r.day, Fin(r.hour), Fin(r.minute), Fin(r.second), Fin(r.millisecond)),
                           r.microsecond * 1000 + r.nanosecond, off)
    ensures data == InstantData(Fin(Shared.EpochMSNS(Shared.FieldsOf(r)).ms - off), Shared.EpochMSNS(Shared.FieldsOf(r)).ns)
  {
  }

  // ---------------------------------------------------------------------------
  // toString / fromString

  /** The date part of toString: year, month and day zero-padded by `pad`, which prints the year's magnitude. */
  function DateText(o: OffsetDateTime): string
  {
    Shared.PadNum(Getter(o, Shared.Year), 4) + "-" + Shared.PadNum(Getter(o, Shared.Month), 2) + "-"
      + Shared.PadNum(Getter(o, Shared.Day), 2)
  }

  /** The clock part of toString. */
  function TimeText(o: OffsetDateTime): string
  {
    Shared.PadNum(Getter(o, Shared.Hour), 2) + ":" + Shared.PadNum(Getter(o, Shared.Minute), 2) + ":"
      + Shared.PadNum(Getter(o, Shared.Second), 2)
  }

  /** The nine fraction digits of toString. */
  function SubsText(o: OffsetDateTime): string
  {
    Shared.PadNum(Getter(o, Shared.Millisecond), 3) + Shared.Pad(o.microsecond, 3) + Shared.Pad(o.nanosecond, 3)
  }

  /**
   * `offsetDateTime.toString()`: date, 'T', clock, '.', nine fraction digits
   * and the offset string. An Invalid Date prints "NaN" (zero-filled to the
   * width) for each of its date and clock fields.
   */
  function ToString(o: OffsetDateTime): string
  {
    DateText(o) + "T" + TimeText(o) + "." + SubsText(o) + o.offset
  }

  /** Nine fields as toString prints them: the year's magnitude to four digits, the rest to two or three. */
  function FieldsText(f: Shared.Fields): string
  {
    Shared.Pad(f.year, 4) + "-" + Shared.Pad(f.month, 2) + "-" + Shared.Pad(f.day, 2) + "T"
      + (Shared.Pad(f.hour, 2) + ":" + Shared.Pad(f.minute, 2) + ":" + Shared.Pad(f.second, 2)) + "."
      + (Shared.Pad(f.millisecond, 3) + Shared.Pad(f.microsecond, 3) + Shared.Pad(f.nanosecond, 3))
  }

  /** toString of an OffsetDateTime with a valid date is the text of its fields followed by its offset. */
  lemma ToStringOfFields(o: OffsetDateTime)
    requires o.local.Local?
    ensures ToString(o) == FieldsText(FieldsOf(o)) + o.offset
  {
    GettersOf(o);
    var l := o.local;
    PadFins(Getter(o, Shared.Year), Getter(o, Shared.Month), Getter(o, Shared.Day), l.year, l.month, l.day);
    PadFins(Getter(o, Shared.Hour), Getter(o, Shared.Minute), Getter(o, Shared.Second), l.hour, l.minute, l.second);
    assert Shared.PadNum(Getter(o, Shared.Millisecond), 3) == Shared.Pad(l.millisecond, 3);
  }

  lemma PadFins(an: Num, bn: Num, cn: Num, a: int, b: int, c: int)
    requires an == Fin(a) && bn == Fin(b) && cn == Fin(c)
    ensures Shared.PadNum(an, 4) == Shared.Pad(a, 4) && Shared.PadNum(an, 2) == Shared.Pad(a, 2)
    ensures Shared.PadNum(bn, 2) == Shared.Pad(b, 2) && Shared.PadNum(cn, 2) == Shared.Pad(c, 2)
  {
  }

  /**
   * fromString then toString gives the parsed fields printed in full (nine
   * fraction digits, seconds when they were left out) and the offset in
   * makeOffsetString's spelling: '1976-11-18T15:23+01:00' prints as
   * '1976-11-18T15:23:00.000000000+01:00'.
   */
  lemma ToStringOfFromString(s: string, f: Shared.Fields, off: string)
    requires ParseOffsetISO(s) == Ok((f, off)) && Shared.ValidFields(f) && !(0 <= f.year <= 99)
    requires Text.Value(Shared.OffsetMatch(off).value.minutes) < 60
    ensures FromString(s).Ok? && ToString(FromString(s).value) == FieldsText(f) + Shared.CanonicalOffset(Shared.OffsetMatch(off).value)
  {
    FromStringSpec(s, f, off);
    ToStringOfFields(FromString(s).value);
  }

  /** The date of an OffsetDateTime with a valid date, with the given year, as date.mjs prints dates. */
  function DateOf(o: OffsetDateTime, year: int): Dates.CivilDate
    requires o.local.Local?
  {
    Dates.CivilDate(year, o.local.month, o.local.day, o.local.dayOfWeek, o.local.dayOfYear, o.local.weekOfYear)
  }

  /** The clock of an OffsetDateTime with a valid date, as time.mjs holds it. */
  function TimeOf(o: OffsetDateTime): Times.CivilTime
    requires o.local.Local?
  {
    Times.CivilTime(o.local.hour, o.local.minute, o.local.second, o.local.millisecond, o.microsecond, o.nanosecond)
  }

  /**
   * On a valid OffsetDateTime, toString prints the unsigned year, the text
   * date.toString gives for it, 'T', time.toString's text and the offset.
   */
  lemma TextOfValid(o: OffsetDateTime)
    requires Valid(o)
    ensures ToString(o) == Dates.ToString(DateOf(o, Abs(o.local.year))) + "T" + Times.ToString(TimeOf(o)) + o.offset
  {
    DateTextOfValid(o);
    TimeTextOfValid(o);
    Concat(DateText(o), TimeText(o), SubsText(o), o.offset);
  }

  lemma DateTextOfValid(o: OffsetDateTime)
    requires Valid(o)
    ensures DateText(o) == Dates.ToString(DateOf(o, Abs(o.local.year)))
  {
    GettersOf(o);
    DatePieces(Getter(o, Shared.Year), Getter(o, Shared.Month), Getter(o, Shared.Day), o.local.year, o.local.month, o.local.day);
  }

  /** On a valid date the getters are the local fields. */
  lemma GettersOf(o: OffsetDateTime)
    requires o.local.Local?
    ensures Getter(o, Shared.Year) == Fin(o.local.year) && Getter(o, Shared.Month) == Fin(o.local.month)
    ensures Getter(o, Shared.Day) == Fin(o.local.day) && Getter(o, Shared.Hour) == Fin(o.local.hour)
    ensures Getter(o, Shared.Minute) == Fin(o.local.minute) && Getter(o, Shared.Second) == Fin(o.local.second)
    ensures Getter(o, Shared.Millisecond) == Fin(o.local.millisecond)
  {
  }

  lemma DatePieces(yn: Num, mn: Num, dn: Num, y: int, m: int, d: int)
    requires yn == Fin(y) && mn == Fin(m) && dn == Fin(d)
    ensures Shared.PadNum(yn, 4) + "-" + Shared.PadNum(mn, 2) + "-" + Shared.PadNum(dn, 2)
      == Shared.SignedPad(Abs(y), 4) + "-" + Shared.Pad(m, 2) + "-" + Shared.Pad(d, 2)
  {
    assert Shared.Pad(Abs(y), 4) == Shared.Pad(y, 4);
  }

  lemma TimePieces(hn: Num, mn: Num, sn: Num, msn: Num, h: int, m: int, sec: int, ms: int, us: int, ns: int)
    requires hn == Fin(h) && mn == Fin(m) && sn == Fin(sec) && msn == Fin(ms)
    requires 0 <= ms < 1000 && 0 <= us < 1000 && 0 <= ns < 1000
    ensures Shared.PadNum(hn, 2) + ":" + Shared.PadNum(mn, 2) + ":" + Shared.PadNum(sn, 2) + "."
      + (Shared.PadNum(msn, 3) + Shared.Pad(us, 3) + Shared.Pad(ns, 3))
      == Shared.Pad(h, 2) + ":" + Shared.Pad(m, 2) + ":" + Shared.Pad(sec, 2) + "." + Times.Sub3(ms) + Times.Sub3(us) + Times.Sub3(ns)
  {
    Times.Sub3OfValid(ms);
    Times.Sub3OfValid(us);
    Times.Sub3OfValid(ns);
    var head := Shared.Pad(h, 2) + ":" + Shared.Pad(m, 2) + ":" + Shared.Pad(sec, 2) + ".";
    Times.Assoc(head + Shared.Pad(ms, 3), Shared.Pad(us, 3), Shared.Pad(ns, 3));
    Times.Assoc(head, Shared.Pad(ms, 3), Shared.Pad(us, 3) + Shared.Pad(ns, 3));
    Times.Assoc(head, Shared.Pad(ms, 3) + Shared.Pad(us, 3), Shared.Pad(ns, 3));
  }

  lemma TimeTextOfValid(o: OffsetDateTime)
    requires Valid(o)
    ensures TimeText(o) + "." + SubsText(o) == Times.ToString(TimeOf(o))
  {
    GettersOf(o);
    TimePieces(Getter(o, Shared.Hour), Getter(o, Shared.Minute), Getter(o, Shared.Second), Getter(o, Shared.Millisecond),
               o.local.hour, o.local.minute, o.local.second, o.local.millisecond, o.microsecond, o.nanosecond);
  }

  lemma Concat(d: string, t: string, subs: string, off: string)
    ensures d + "T" + t + "." + subs + off == d + "T" + (t + "." + subs) + off
  {
    Times.Assoc(d + "T", t + ".", subs);
    Times.Assoc(d + "T", t, ".");
  }

  /**
   * The offset at the end of the ISO pattern: a sign, two digits, an
   * optional colon and two digits. The two forms differ at the fifth
   * character from the end (a digit in the long form, the sign in the
   * short one), so at most one of them fits and the split is the
   * pattern's.
   */
  function SplitOffset(s: string): (r: Option<(string, string)>)
    ensures r.Some? ==> r.value.0 + r.value.1 == s && Shared.OffsetMatch(r.value.1).Some?
    ensures r.Some? ==> (|r.value.1| == 5 || |r.value.1| == 6) && Shared.IsSign(r.value.1[0])
  {
    var n := |s|;
    if n >= 6 && Shared.IsSign(s[n - 6]) && Text.IsDigits(s[n - 5..n - 3]) && s[n - 3] == ':' && Text.IsDigits(s[n - 2..]) then
      var off := s[n - 6..];
      assert off[1..][..2] == s[n - 5..n - 3] && off[1..][3..] == s[n - 2..] && off[1..][2] == ':';
      assert !Text.IsDigits(off[1..]) by {
        assert !Text.IsDigit(off[1..][2]);
      }
      assert s[..n - 6] + off == s;
      Some((s[..n - 6], off))
    else if n >= 5 && Shared.IsSign(s[n - 5]) && Text.IsDigits(s[n - 4..]) then
      var off := s[n - 5..];
      assert off[1..] == s[n - 4..];
      assert s[..n - 5] + off == s;
      Some((s[..n - 5], off))
    else None
  }

  /** A text followed by a six-character offset such as makeOffsetString prints splits back into the two. */
  lemma SplitOfPrinted(h: string, off: string)
    requires |off| == 6 && Shared.IsSign(off[0]) && Text.IsDigits(off[1..3]) && off[3] == ':' && Text.IsDigits(off[4..])
    ensures SplitOffset(h + off) == Some((h, off))
  {
    var s := h + off;
    var n := |s|;
    assert s[n - 6..] == off && s[..n - 6] == h;
    assert s[n - 5..n - 3] == off[1..3] && s[n - 2..] == off[4..];
  }

  /**
   * `parseOffsetISO(isoString)`: the date-time pattern of datetime.mjs
   * followed by an offset, anchored at both ends; Error when it does not
   * match. The fields come as datetime.mjs's parseISO reads them, with the
   * offset text as written.
   */
  function ParseOffsetISO(s: string): (r: Result<(Shared.Fields, string)>)
    ensures r.Throw? ==> r.exc == Error
    ensures r.Ok? ==> Shared.OffsetMatch(r.value.1).Some?
  {
    match SplitOffset(s)
    case None => Throw(Error)
    case Some((h, off)) =>
      var f :- DateTimes.ParseISO(h);
      Ok((f, off))
  }

  /**
   * `OffsetDateTime.fromString(isoString)`: parseOffsetISO, epochMSNS of the
   * fields less parseOffsetString of the offset (which cannot throw on an
   * offset the pattern matched), then the constructor with the offset text
   * as written.
   */
  function FromString(s: string): Result<OffsetDateTime>
  {
    var p :- ParseOffsetISO(s);
    NewOffsetDateTime(InstantArg(InstantOf(p.0, p.1)), p.1)
  }

  /** epochMSNS of the fields, the milliseconds less the offset. */
  function InstantOf(f: Shared.Fields, offset: string): InstantData
    requires Shared.ParseOffsetString(offset).Ok?
  {
    var e := Shared.EpochMSNS(f);
    InstantData(Fin(e.ms - Shared.ParseOffsetString(offset).value), e.ns)
  }

  /** A recorded OffsetDateTime's offset is six characters whose minutes are below 60. */
  lemma RecordedShape(o: OffsetDateTime)
    requires Recorded(o)
    ensures |o.offset| == 6 && Shared.IsSign(o.offset[0]) && Text.IsDigits(o.offset[1..3]) && o.offset[3] == ':'
    ensures Text.IsDigits(o.offset[4..])
    ensures Shared.OffsetMatch(o.offset).Some? && Text.Value(Shared.OffsetMatch(o.offset).value.minutes) < 60
  {
    RecordedOffset(o);
    var sign, hours, minutes := Shared.MakeOffsetStringParts(o.offsetMilliSeconds);
    Shared.MatchOfSignedColon(sign, Shared.TwoDigits(hours), Shared.TwoDigits(minutes));
    Shared.TwoDigitsOfSmall(minutes);
  }

  /** The fields with the year replaced. */
  function WithYear(f: Shared.Fields, year: int): Shared.Fields
  {
    f.(year := year)
  }

  /** toString of a valid recorded OffsetDateTime parses back as its fields with the year's magnitude, and its offset. */
  lemma ParseOfToString(o: OffsetDateTime)
    requires Valid(o) && Recorded(o)
    ensures ParseOffsetISO(ToString(o)) == Ok((WithYear(FieldsOf(o), Abs(o.local.year)), o.offset))
  {
    TextOfValid(o);
    ParseOfText(o, Abs(o.local.year));
  }

  /** The date text of any year, 'T', the clock text and the offset of a valid recorded OffsetDateTime parse back. */
  lemma ParseOfText(o: OffsetDateTime, year: int)
    requires Valid(o) && Recorded(o)
    ensures ParseOffsetISO(Dates.ToString(DateOf(o, year)) + "T" + Times.ToString(TimeOf(o)) + o.offset)
      == Ok((WithYear(FieldsOf(o), year), o.offset))
  {
    var d, t := DateOf(o, year), TimeOf(o);
    RecordedShape(o);
    SplitOfPrinted(Dates.ToString(d) + "T" + Times.ToString(t), o.offset);
    DateTimes.NoTInDate(d);
    DateTimes.ParseISOOfParts(Dates.ToString(d), Times.ToString(t));
    Dates.ParseOfToString(d);
    Times.ParseOfToString(t);
  }

  /**
   * fromString of a text that parses to valid fields outside the years
   * 0..99 and an offset whose minutes are below 60 is recorded, has those
   * local fields, and keeps the offset in makeOffsetString's spelling.
   */
  lemma FromStringSpec(s: string, f: Shared.Fields, off: string)
    requires ParseOffsetISO(s) == Ok((f, off)) && Shared.ValidFields(f) && !(0 <= f.year <= 99)
    requires Text.Value(Shared.OffsetMatch(off).value.minutes) < 60
    ensures var r := FromString(s);
      && r.Ok? && Recorded(r.value) && Valid(r.value) && FieldsOf(r.value) == f
      && r.value.offset == Shared.CanonicalOffset(Shared.OffsetMatch(off).value)
  {
    var e := Shared.EpochMSNS(f);
    var offMs := Shared.ParseOffsetString(off).value;
    var data := InstantOf(f, off);
    NewRecorded(data, off);
    assert Add(data.ms, Fin(offMs)) == Fin(e.ms);
    LocalOfEpoch(f, e.ms, e.ns);
  }

  /** A recorded valid OffsetDateTime outside the years 0..99 holds epochMSNS of its fields less its offset. */
  lemma InstantOfRecorded(o: OffsetDateTime)
    requires Valid(o) && Recorded(o) && !(0 <= o.local.year <= 99)
    ensures Shared.ParseOffsetString(o.offset).Ok? && o.instant == InstantOf(FieldsOf(o), o.offset)
  {
    RecordedOffset(o);
    RecordedParts(o);
    var t := o.instant.ms.v + o.offsetMilliSeconds;
    LocalAt(o, o.offsetMilliSeconds, t);
    InstantOfLocal(o, t, o.offsetMilliSeconds);
  }

  /** What getOffsetInfo records, read off a recorded OffsetDateTime. */
  lemma RecordedParts(o: OffsetDateTime)
    requires Recorded(o)
    ensures o.local == LocalOf(Add(o.instant.ms, Fin(o.offsetMilliSeconds)))
    ensures o.local.Local? ==> o.instant.ms.Fin?
    ensures o.microsecond == o.instant.ns / 1000 && o.nanosecond == Rem(o.instant.ns, 1000)
  {
  }

  lemma InstantOfLocal(o: OffsetDateTime, t: int, off: int)
    requires Shared.ParseOffsetString(o.offset) == Ok(off) && Valid(o) && !(0 <= o.local.year <= 99)
    requires o.instant.ms.Fin? && t == o.instant.ms.v + off && o.local == LocalOf(Fin(t))
    requires o.microsecond == o.instant.ns / 1000 && o.nanosecond == Rem(o.instant.ns, 1000)
    ensures o.instant == InstantOf(FieldsOf(o), o.offset)
  {
    FiniteInfo(o, t);
    SubUnits(o.instant.ns);
    var f := FieldsOf(o);
    assert Shared.EpochMSNS(f).ms == t;
    assert Shared.EpochMSNS(f).ns == o.instant.ns;
    InstantOfParts(f, o.offset, off, o.instant);
  }

  lemma InstantOfParts(f: Shared.Fields, offset: string, off: int, data: InstantData)
    requires Shared.ParseOffsetString(offset) == Ok(off) && data.ms.Fin?
    requires Shared.EpochMSNS(f).ms == data.ms.v + off && Shared.EpochMSNS(f).ns == data.ns
    ensures data == InstantOf(f, offset)
  {
  }

  /** The microsecond and nanosecond parts are both in 0..999 only for nanoseconds in 0..999999. */
  lemma SubUnits(ns: int)
    requires 0 <= ns / 1000 < 1000 && 0 <= Rem(ns, 1000) < 1000
    ensures 0 <= ns < 1000000
  {
  }

  /** fromString inverts toString on every valid recorded OffsetDateTime from the year 100 on. */
  lemma FromStringOfToString(o: OffsetDateTime)
    requires Valid(o) && Recorded(o) && o.local.year >= 100
    ensures FromString(ToString(o)) == Ok(o)
  {
    ParseOfToString(o);
    assert WithYear(FieldsOf(o), Abs(o.local.year)) == FieldsOf(o);
    InstantOfRecorded(o);
  }

  /**
   * toString drops the sign of a negative year (`pad` prints the magnitude),
   * so fromString reads the year back negated: the OffsetDateTime at
   * -001000-01-01T00:00+00:00 prints as 1000-01-01T00:00:00.000000000+00:00.
   */
  lemma ToStringDropsSign(o: OffsetDateTime)
    requires Valid(o) && Recorded(o) && o.local.year <= -100
    ensures var r := FromString(ToString(o));
      && r.Ok? && Valid(r.value) && FieldsOf(r.value) == WithYear(FieldsOf(o), -o.local.year)
      && r.value != o
  {
    PrintedNegated(o);
    FromStringSpec(ToString(o), WithYear(FieldsOf(o), -o.local.year), o.offset);
  }

  /** What toString of a negative year parses back as. */
  lemma PrintedNegated(o: OffsetDateTime)
    requires Valid(o) && Recorded(o) && o.local.year <= -100
    ensures var f := WithYear(FieldsOf(o), -o.local.year);
      && ParseOffsetISO(ToString(o)) == Ok((f, o.offset)) && Shared.ValidFields(f) && !(0 <= f.year <= 99)
      && Text.Value(Shared.OffsetMatch(o.offset).value.minutes) < 60
  {
    var f := WithYear(FieldsOf(o), -o.local.year);
    ParseOfToString(o);
    assert f == WithYear(FieldsOf(o), Abs(o.local.year));
    NegatedYearValid(FieldsOf(o), -o.local.year, f);
    RecordedShape(o);
  }

  /** Negating the year keeps valid fields valid: a year and its negation are leap years together. */
  lemma NegatedYearValid(f: Shared.Fields, year: int, g: Shared.Fields)
    requires Shared.ValidFields(f) && year == -f.year && g == WithYear(f, year)
    ensures Shared.ValidFields(g)
  {
    NegatedMultiple(f.year, 4);
    NegatedMultiple(f.year, 100);
    NegatedMultiple(f.year, 400);
    assert Shared.Leap(-f.year) == Shared.Leap(f.year);
  }

  lemma NegatedMultiple(y: int, d: int)
    requires d > 0
    ensures (-y) % d == 0 <==> y % d == 0
  {
    if y % d == 0 {
      DivModUnique(-y, d, -(y / d), 0);
    }
    if (-y) % d == 0 {
      DivModUnique(y, d, -((-y) / d), 0);
    }
  }

  /** toString as evidently intended: the year through `signedpad`, as date.mjs and datetime.mjs print it. */
  function ToStringIntended(o: OffsetDateTime): string
  {
    DateTextIntended(o) + "T" + TimeText(o) + "." + SubsText(o) + o.offset
  }

  /** The date part with the year's sign. */
  function DateTextIntended(o: OffsetDateTime): string
  {
    var year := Getter(o, Shared.Year);
    (if year.Fin? then Shared.SignedPad(year.v, 4) else Shared.PadNum(year, 4)) + "-" + Shared.PadNum(Getter(o, Shared.Month), 2)
      + "-" + Shared.PadNum(Getter(o, Shared.Day), 2)
  }

  /** With the sign printed, fromString inverts toString on every valid recorded OffsetDateTime outside the years 0..99. */
  lemma FromStringOfToStringIntended(o: OffsetDateTime)
    requires Valid(o) && Recorded(o) && !(0 <= o.local.year <= 99)
    ensures FromString(ToStringIntended(o)) == Ok(o)
  {
    TextOfValidIntended(o);
    ParseOfText(o, o.local.year);
    assert WithYear(FieldsOf(o), o.local.year) == FieldsOf(o);
    InstantOfRecorded(o);
  }

  lemma TextOfValidIntended(o: OffsetDateTime)
    requires Valid(o)
    ensures ToStringIntended(o) == Dates.ToString(DateOf(o, o.local.year)) + "T" + Times.ToString(TimeOf(o)) + o.offset
  {
    GettersOf(o);
    assert DateTextIntended(o) == Dates.ToString(DateOf(o, o.local.year));
    TimeTextOfValid(o);
    Concat(DateTextIntended(o), TimeText(o), SubsText(o), o.offset);
  }
}
