/**
 * lib/zoned.mjs: `ZonedDateTime`, an instant seen in a named time zone.
 * Its DATA record is getZonedInfo's: the wall clock an `Intl.DateTimeFormat`
 * for the zone shows at the instant, the instant's millisecond and
 * sub-millisecond parts, the zone name the formatter resolved, and the
 * offset as the wall clock read as UTC minus the instant. The formatter is
 * a parameter of the model (a `ZoneOracle`); everything around it is
 * modelled as written.
 */
module Zoned {
  import opened Js
  import Text
  import EcmaTime
  import Shared
  import Offsets
  import DateTimes
  import Dates
  import Times

  /**
   * What an `Intl.DateTimeFormat` built for one zone tells: the year, month
   * (1-based), day, hour, minute and second parts formatToParts shows at an
   * epoch millisecond, and the zone name resolvedOptions() reports.
   */
  datatype ZoneOracle = ZoneOracle(wall: int -> Shared.WallClock, name: string)

  /** Building the formatter for a zone name: None when Intl rejects the name (a RangeError). */
  type Zones = string -> Option<ZoneOracle>

  /** The DATA record of a ZonedDateTime. */
  datatype ZonedDateTime = ZonedDateTime(instant: Offsets.InstantData,
                                         year: int, month: int, day: int, hour: int, minute: int, second: int,
                                         millisecond: int, microsecond: int, nanosecond: int,
                                         timeZone: string, offsetMilliSeconds: int, offset: string,
                                         dayOfWeek: int, dayOfYear: Num, weekOfYear: Num)

  /**
   * `Date.UTC` of a wall clock and a millisecond, less the epoch
   * milliseconds: the offset getZonedInfo records.
   */
  function OffsetAt(w: Shared.WallClock, millisecond: int, ms: int): int
  {
    EcmaTime.DateUtc(w.year, w.month - 1, w.day, w.hour, w.minute, w.second, millisecond) - ms
  }

  /** The offset getZonedInfo computes for the zone at epoch milliseconds ms. */
  function ZoneOffset(zone: ZoneOracle, ms: int): int
  {
    OffsetAt(zone.wall(ms), Rem(ms, 1000), ms)
  }

  /**
   * `getZonedInfo(ms, ns, timeZone)` at finite milliseconds: the formatter's
   * wall clock at ms, `ms % 1e3` as the millisecond (JavaScript's `%`, so
   * negative before 1970), `Math.floor(ns / 1e3)` and `Math.floor(ns % 1e3)`
   * below it, the resolved zone name, the offset with its makeOffsetString
   * text, and Shared's day of week, day of year and week of year.
   */
  function GetZonedInfo(ms: int, ns: int, zone: ZoneOracle): ZonedDateTime
  {
    var w := zone.wall(ms);
    var millisecond := Rem(ms, 1000);
    var off := ZoneOffset(zone, ms);
    ZonedDateTime(Offsets.InstantData(Fin(ms), ns), w.year, w.month, w.day, w.hour, w.minute, w.second,
                  millisecond, ns / 1000, Rem(ns, 1000), zone.name, off, Shared.MakeOffsetString(off),
                  Shared.ToDayOfWeek(w.year, w.month, w.day), Shared.DayOfYear(w.year, w.month, w.day),
                  Shared.ToWeekOfYear(w.year, w.month, w.day))
  }

  /**
   * `new ZonedDateTime(instant, ianaZone)`: Error unless handed an Instant;
   * a RangeError when Intl rejects the zone name or when formatToParts is
   * handed the Invalid Date of NaN milliseconds; otherwise getZonedInfo.
   */
  function NewZonedDateTime(instant: Offsets.Arg, ianaZone: string, zones: Zones): Result<ZonedDateTime>
  {
    if !instant.InstantArg? then Throw(Error)
    else match zones(ianaZone)
      case None => Throw(RangeError)
      case Some(zone) =>
        if instant.data.ms.NaN? then Throw(RangeError)
        else Ok(GetZonedInfo(instant.data.ms.v, instant.data.ns, zone))
  }

  /** The nine fields of a ZonedDateTime. */
  function FieldsOf(z: ZonedDateTime): Shared.Fields
  {
    Shared.Fields(z.year, z.month, z.day, z.hour, z.minute, z.second, z.millisecond, z.microsecond, z.nanosecond)
  }

  /** Every field in its range. */
  predicate Valid(z: ZonedDateTime)
  {
    Shared.ValidFields(FieldsOf(z))
  }

  /** A ZonedDateTime as the constructor records it from its own instant and zone name. */
  predicate Recorded(z: ZonedDateTime, zones: Zones)
  {
    NewZonedDateTime(Offsets.InstantArg(z.instant), z.timeZone, zones) == Ok(z)
  }

  /**
   * What a recorded ZonedDateTime holds: finite milliseconds, the
   * sub-millisecond split of its nanoseconds, an offset for which its fields'
   * epochMSNS milliseconds are the instant's plus the offset, and that
   * offset's makeOffsetString text.
   */
  lemma RecordedSpec(z: ZonedDateTime, zones: Zones)
    requires Recorded(z, zones)
    ensures z.instant.ms.Fin? && zones(z.timeZone).Some?
    ensures z.microsecond == z.instant.ns / 1000 && z.nanosecond == Rem(z.instant.ns, 1000)
    ensures Shared.EpochMSNS(FieldsOf(z)).ms == z.instant.ms.v + z.offsetMilliSeconds
    ensures z.offset == Shared.MakeOffsetString(z.offsetMilliSeconds)
  {
    var zone := zones(z.timeZone).value;
    var w := zone.wall(z.instant.ms.v);
    assert z == GetZonedInfo(z.instant.ms.v, z.instant.ns, zone);
    assert z.offsetMilliSeconds == OffsetAt(w, z.millisecond, z.instant.ms.v);
  }

  /**
   * The constructor throws Error exactly for a non-Instant and a RangeError
   * for an unknown zone or NaN milliseconds. Otherwise it keeps the
   * instant, takes the wall clock and zone name from the zone's formatter,
   * splits the nanoseconds (in 0..999999) into microseconds and
   * nanoseconds that recombine to them, and records an offset for which
   * the wall clock at the instant's millisecond, read as UTC, is the
   * instant plus the offset.
   */
  lemma NewSpec(instant: Offsets.Arg, ianaZone: string, zones: Zones)
    ensures var r := NewZonedDateTime(instant, ianaZone, zones);
      && (r.Ok? <==> instant.InstantArg? && zones(ianaZone).Some? && instant.data.ms.Fin?)
      && (r.Throw? ==> (r.exc == Error <==> !instant.InstantArg?))
      && (r.Throw? ==> r.exc == Error || r.exc == RangeError)
      && (r.Ok? ==>
            var z, zone, ms := r.value, zones(ianaZone).value, instant.data.ms.v;
            && z.instant == instant.data && z.timeZone == zone.name
            && Shared.WallOf(FieldsOf(z)) == zone.wall(ms)
            && z.millisecond == Rem(ms, 1000) && -1000 < z.millisecond < 1000
            && (0 <= instant.data.ns < 1000000 ==>
                  0 <= z.microsecond < 1000 && 0 <= z.nanosecond < 1000
                  && z.microsecond * 1000 + z.nanosecond == instant.data.ns)
            && Shared.EpochMSNS(FieldsOf(z)).ms == ms + z.offsetMilliSeconds
            && z.offset == Shared.MakeOffsetString(z.offsetMilliSeconds)
            && 0 <= z.dayOfWeek <= 6)
  {
    var r := NewZonedDateTime(instant, ianaZone, zones);
    if r.Ok? {
      Offsets.SubMilliseconds(instant.data.ns);
    }
  }

  // ---------------------------------------------------------------------------
  // toString

  /** The date part of toString: `signedpad` of the year, `pad` of month and day. */
  function DateText(z: ZonedDateTime): string
  {
    Shared.SignedPad(z.year, 4) + "-" + Shared.Pad(z.month, 2) + "-" + Shared.Pad(z.day, 2)
  }

  /** The clock part of toString. */
  function TimeText(z: ZonedDateTime): string
  {
    Shared.Pad(z.hour, 2) + ":" + Shared.Pad(z.minute, 2) + ":" + Shared.Pad(z.second, 2)
  }

  /** The nine fraction digits of toString (`pad` prints the magnitude of each part). */
  function SubsText(z: ZonedDateTime): string
  {
    Shared.Pad(z.millisecond, 3) + Shared.Pad(z.microsecond, 3) + Shared.Pad(z.nanosecond, 3)
  }

  /** `zonedDateTime.toString()`: date 'T' clock '.' fraction, the offset, and the zone name in brackets. */
  function ToString(z: ZonedDateTime): string
  {
    DateText(z) + "T" + TimeText(z) + "." + SubsText(z) + z.offset + "[" + z.timeZone + "]"
  }

  /** The date of a ZonedDateTime as date.mjs prints dates. */
  function DateOf(z: ZonedDateTime): Dates.CivilDate
  {
    Dates.CivilDate(z.year, z.month, z.day, z.dayOfWeek, 0, 0)
  }

  /** The clock of a ZonedDateTime as time.mjs holds it. */
  function TimeOf(z: ZonedDateTime): Times.CivilTime
  {
    Times.CivilTime(z.hour, z.minute, z.second, z.millisecond, z.microsecond, z.nanosecond)
  }

  /**
   * On a valid ZonedDateTime toString is the signed date date.toString
   * prints, 'T', the clock with nine fraction digits time.toString prints,
   * the offset, '[', the zone name and ']'.
   */
  lemma TextOfValid(z: ZonedDateTime)
    requires Valid(z)
    ensures ToString(z) == Dates.ToString(DateOf(z)) + "T" + Times.ToString(TimeOf(z)) + z.offset + "[" + z.timeZone + "]"
  {
    Times.Sub3OfValid(z.millisecond);
    Times.Sub3OfValid(z.microsecond);
    Times.Sub3OfValid(z.nanosecond);
    assert Times.ToString(TimeOf(z)) == TimeText(z) + "." + Times.Sub3(z.millisecond) + Times.Sub3(z.microsecond) + Times.Sub3(z.nanosecond);
    assert Dates.ToString(DateOf(z)) == DateText(z);
    Layout(DateText(z), TimeText(z), Shared.Pad(z.millisecond, 3), Shared.Pad(z.microsecond, 3), Shared.Pad(z.nanosecond, 3),
           z.offset, z.timeZone);
  }

  lemma Layout(d: string, t: string, a: string, b: string, c: string, off: string, tz: string)
    ensures d + "T" + t + "." + (a + b + c) + off + "[" + tz + "]" == d + "T" + (t + "." + a + b + c) + off + "[" + tz + "]"
  {
  }

  // ---------------------------------------------------------------------------
  // parseZonedISO / fromString

  /** A character of `[\w_\/]`: an ASCII letter or digit, '_' or '/'. */
  predicate ZoneChar(c: char)
  {
    'A' <= c <= 'Z' || 'a' <= c <= 'z' || '0' <= c <= '9' || c == '_' || c == '/'
  }

  /** A zone name the pattern accepts: one or more such characters. */
  predicate IsZoneName(name: string)
  {
    |name| > 0 && forall i :: 0 <= i < |name| ==> ZoneChar(name[i])
  }

  /** Where the longest run of zone-name characters at the end of s begins. */
  function NameStart(s: string): (k: nat)
    ensures k <= |s|
    ensures forall i :: k <= i < |s| ==> ZoneChar(s[i])
    ensures k > 0 ==> !ZoneChar(s[k - 1])
  {
    if |s| == 0 || !ZoneChar(s[|s| - 1]) then |s| else NameStart(s[..|s| - 1])
  }

  /**
   * The `\[([\w_\/]+)\]$` end of the pattern: s ends in ']' and the zone
   * name before it is the longest run of name characters, which must be
   * non-empty and preceded by '['. The text before the '[' comes back with
   * the name.
   */
  function ZoneSplit(s: string): (r: Option<(string, string)>)
    ensures r.Some? ==> s == r.value.0 + "[" + r.value.1 + "]" && IsZoneName(r.value.1)
  {
    if |s| < 2 || s[|s| - 1] != ']' then None
    else
      var body := s[..|s| - 1];
      var k := NameStart(body);
      if k == |body| || k == 0 || body[k - 1] != '[' then None
      else
        assert body[..k - 1] + "[" + body[k..] == body by {
          assert body[..k - 1] + [body[k - 1]] == body[..k];
        }
        assert body + "]" == s;
        Some((body[..k - 1], body[k..]))
  }

  /** The name characters run back exactly to the '[' before a zone name. */
  lemma {:induction false} NameStartOf(h: string, name: string)
    requires forall i :: 0 <= i < |name| ==> ZoneChar(name[i])
    ensures NameStart(h + "[" + name) == |h| + 1
    decreases |name|
  {
    var s := h + "[" + name;
    if |name| == 0 {
      assert s[|s| - 1] == '[';
    } else {
      var n := name[..|name| - 1];
      assert s[..|s| - 1] == h + "[" + n;
      assert s[|s| - 1] == name[|name| - 1];
      NameStartOf(h, n);
    }
  }

  /** A text followed by a bracketed zone name splits back into the two. */
  lemma ZoneSplitOf(h: string, name: string)
    requires IsZoneName(name)
    ensures ZoneSplit(h + "[" + name + "]") == Some((h, name))
  {
    var s := h + "[" + name + "]";
    var body := s[..|s| - 1];
    assert body == h + "[" + name;
    NameStartOf(h, name);
    assert body[|h|] == '[';
    assert body[..|h|] == h && body[|h| + 1..] == name;
  }

  /**
   * `parseZonedISO(isoString)`: the date-time pattern of datetime.mjs, an
   * offset `[+-]\d{2}:?\d{2}` and a bracketed zone name, anchored at both
   * ends; Error when it does not match. A text that parses ends in the
   * offset and the bracketed name, and what comes before them parses as a
   * date-time to the fields.
   */
  function ParseZonedISO(s: string): (r: Result<(Shared.Fields, string, string)>)
    ensures r.Throw? ==> r.exc == Error
    ensures r.Ok? ==> ZonedText(s, r.value.0, r.value.1, r.value.2)
  {
    match ZoneSplit(s)
    case None => Throw(Error)
    case Some((head, name)) =>
      match Offsets.SplitOffset(head)
      case None => Throw(Error)
      case Some((h, off)) =>
        var f :- DateTimes.ParseISO(h);
        Regroup(s, head, h, off, name, f);
        Ok((f, off, name))
  }

  /**
   * s ends in the offset off and the bracketed zone name, and what comes
   * before them parses as a date-time to f.
   */
  predicate ZonedText(s: string, f: Shared.Fields, off: string, name: string)
  {
    var n := |off| + |name| + 2;
    && Shared.OffsetMatch(off).Some? && IsZoneName(name)
    && n <= |s| && s[|s| - n..] == off + "[" + name + "]"
    && DateTimes.ParseISO(s[..|s| - n]) == Ok(f)
  }

  lemma Regroup(s: string, head: string, h: string, off: string, name: string, f: Shared.Fields)
    requires s == head + "[" + name + "]" && head == h + off
    requires Shared.OffsetMatch(off).Some? && IsZoneName(name) && DateTimes.ParseISO(h) == Ok(f)
    ensures ZonedText(s, f, off, name)
  {
    RegroupText(s, head, h, off, name);
  }

  lemma RegroupText(s: string, head: string, h: string, off: string, name: string)
    requires s == head + "[" + name + "]" && head == h + off
    ensures var n := |off| + |name| + 2;
      n <= |s| && s[|s| - n..] == off + "[" + name + "]" && s[..|s| - n] == h
  {
    var tail := off + "[" + name + "]";
    assert s == h + tail;
  }

  /** A date-time text, an offset the pattern splits off, and a bracketed zone name parse back as the three. */
  lemma ParseOfParts(h: string, off: string, name: string, f: Shared.Fields)
    requires Offsets.SplitOffset(h + off) == Some((h, off)) && IsZoneName(name)
    requires DateTimes.ParseISO(h) == Ok(f)
    ensures ParseZonedISO(h + off + "[" + name + "]") == Ok((f, off, name))
  {
    ZoneSplitOf(h + off, name);
  }

  /** The offset the parsed offset text stands for. */
  function ParsedOffset(off: string): int
    requires Shared.OffsetMatch(off).Some?
  {
    Shared.ParseOffsetString(off).value
  }

  /**
   * `ZonedDateTime.fromString(isoString)`: parseZonedISO; epochMSNS of the
   * fields with parseOffsetString of the offset subtracted from the
   * milliseconds; the constructor with the zone name as written; and Error
   * when the zone's offset at that instant does not print as the parsed one.
   */
  function FromString(s: string, zones: Zones): Result<ZonedDateTime>
  {
    var p :- ParseZonedISO(s);
    FromParsed(p, zones)
  }

  /** What fromString does with parseZonedISO's fields, offset text and zone name. */
  function FromParsed(p: (Shared.Fields, string, string), zones: Zones): Result<ZonedDateTime>
    requires Shared.OffsetMatch(p.1).Some?
  {
    var zoned :- NewZonedDateTime(Offsets.InstantArg(Offsets.InstantOf(p.0, p.1)), p.2, zones);
    if zoned.offset != Shared.MakeOffsetString(ParsedOffset(p.1)) then Throw(Error) else Ok(zoned)
  }

  /**
   * fromString after a successful parse: it succeeds exactly when the zone
   * name is known and the zone's offset at the instant (the fields' epochMSNS
   * less the parsed offset) prints as makeOffsetString of the parsed offset;
   * it throws a RangeError for an unknown zone and Error for a mismatched
   * offset. The instant is that epochMSNS less the parsed offset.
   */
  lemma FromParsedSpec(p: (Shared.Fields, string, string), zones: Zones)
    requires Shared.OffsetMatch(p.1).Some?
    ensures var off := ParsedOffset(p.1);
      var e := Shared.EpochMSNS(p.0);
      var r := FromParsed(p, zones);
      && (r.Ok? <==> zones(p.2).Some? && Shared.MakeOffsetString(ZoneOffset(zones(p.2).value, e.ms - off)) == Shared.MakeOffsetString(off))
      && (r.Throw? ==> (r.exc == RangeError <==> zones(p.2).None?) && (r.exc == Error <==> zones(p.2).Some?))
      && (r.Ok? ==> r.value.instant == Offsets.InstantData(Fin(e.ms - off), e.ns)
                    && r.value.offset == Shared.MakeOffsetString(off) && r.value.timeZone == zones(p.2).value.name)
  {
    var data := Offsets.InstantOf(p.0, p.1);
    var c := NewZonedDateTime(Offsets.InstantArg(data), p.2, zones);
    FromParsedOf(p, zones, data, c);
    ConstructedAt(data, p.2, zones, c);
  }

  /** FromParsed as the outcome of the constructor at the parsed instant and the offset check. */
  lemma FromParsedOf(p: (Shared.Fields, string, string), zones: Zones, data: Offsets.InstantData, c: Result<ZonedDateTime>)
    requires Shared.OffsetMatch(p.1).Some?
    requires data == Offsets.InstantOf(p.0, p.1) && c == NewZonedDateTime(Offsets.InstantArg(data), p.2, zones)
    ensures data == Offsets.InstantData(Fin(Shared.EpochMSNS(p.0).ms - ParsedOffset(p.1)), Shared.EpochMSNS(p.0).ns)
    ensures FromParsed(p, zones)
      == if c.Throw? then Throw(c.exc) else if c.value.offset != Shared.MakeOffsetString(ParsedOffset(p.1)) then Throw(Error) else c
  {
  }

  /** The constructor at finite milliseconds: a RangeError for an unknown zone, otherwise getZonedInfo. */
  lemma ConstructedAt(data: Offsets.InstantData, name: string, zones: Zones, c: Result<ZonedDateTime>)
    requires data.ms.Fin? && c == NewZonedDateTime(Offsets.InstantArg(data), name, zones)
    ensures c.Ok? <==> zones(name).Some?
    ensures c.Throw? ==> c.exc == RangeError
    ensures c.Ok? ==> c.value == GetZonedInfo(data.ms.v, data.ns, zones(name).value)
    ensures c.Ok? ==> c.value.instant == data && c.value.timeZone == zones(name).value.name
    ensures c.Ok? ==> c.value.offset == Shared.MakeOffsetString(ZoneOffset(zones(name).value, data.ms.v))
  {
  }

  /** A text that fails to parse is rejected with Error before any zone is consulted. */
  lemma FromStringRejects(s: string, zones: Zones)
    requires ParseZonedISO(s).Throw?
    ensures FromString(s, zones) == Throw(Error)
  {
  }

  /** The printed offset of a recorded ZonedDateTime with a whole-minute offset below 100 hours parses back to it. */
  lemma OffsetOfRecorded(z: ZonedDateTime, zones: Zones)
    requires Recorded(z, zones)
    requires z.offsetMilliSeconds % 60000 == 0 && Abs(z.offsetMilliSeconds) < 100 * 3600000
    ensures Shared.OffsetMatch(z.offset).Some? && ParsedOffset(z.offset) == z.offsetMilliSeconds
    ensures |z.offset| == 6 && Shared.IsSign(z.offset[0]) && Text.IsDigits(z.offset[1..3]) && z.offset[3] == ':'
    ensures Text.IsDigits(z.offset[4..])
  {
    RecordedSpec(z, zones);
    Shared.ParseOfMakeOffsetString(z.offsetMilliSeconds);
  }

  /**
   * toString of a valid recorded ZonedDateTime whose zone name the pattern
   * accepts parses back as its fields, its offset and its zone name.
   */
  lemma ParseOfToString(z: ZonedDateTime, zones: Zones)
    requires Valid(z) && Recorded(z, zones) && IsZoneName(z.timeZone)
    requires z.offsetMilliSeconds % 60000 == 0 && Abs(z.offsetMilliSeconds) < 100 * 3600000
    ensures ParseZonedISO(ToString(z)) == Ok((FieldsOf(z), z.offset, z.timeZone))
  {
    var d, t := DateOf(z), TimeOf(z);
    var h := Dates.ToString(d) + "T" + Times.ToString(t);
    TextOfValid(z);
    OffsetOfRecorded(z, zones);
    Offsets.SplitOfPrinted(h, z.offset);
    DateTimes.NoTInDate(d);
    DateTimes.ParseISOOfParts(Dates.ToString(d), Times.ToString(t));
    Dates.ParseOfToString(d);
    Times.ParseOfToString(t);
    ParseOfParts(h, z.offset, z.timeZone, FieldsOf(z));
  }

  /**
   * fromString inverts toString on every valid recorded ZonedDateTime
   * whose zone name the pattern accepts and whose offset is whole minutes
   * below 100 hours: the instant comes back as epochMSNS of the fields less
   * the offset, the zone gives the same record, and the offset check passes.
   */
  lemma FromStringOfToString(z: ZonedDateTime, zones: Zones)
    requires Valid(z) && Recorded(z, zones) && IsZoneName(z.timeZone)
    requires z.offsetMilliSeconds % 60000 == 0 && Abs(z.offsetMilliSeconds) < 100 * 3600000
    ensures FromString(ToString(z), zones) == Ok(z)
  {
    ParseOfToString(z, zones);
    OffsetOfRecorded(z, zones);
    InstantOfRecorded(z, zones);
  }

  /** A valid recorded ZonedDateTime holds epochMSNS of its fields less its offset. */
  lemma InstantOfRecorded(z: ZonedDateTime, zones: Zones)
    requires Valid(z) && Recorded(z, zones)
    requires Shared.OffsetMatch(z.offset).Some? && ParsedOffset(z.offset) == z.offsetMilliSeconds
    ensures z.instant == Offsets.InstantOf(FieldsOf(z), z.offset)
  {
    RecordedSpec(z, zones);
    Offsets.SubUnits(z.instant.ns);
  }

  // ---------------------------------------------------------------------------
  // getOffsetDateTime and OffsetDateTime.withZone

  /** `zonedDateTime.getOffsetDateTime()`: an OffsetDateTime at the same instant with the same offset text. */
  function GetOffsetDateTime(z: ZonedDateTime): Result<Offsets.OffsetDateTime>
  {
    Offsets.NewOffsetDateTime(Offsets.InstantArg(z.instant), z.offset)
  }

  /**
   * A valid recorded ZonedDateTime whose offset is whole minutes below 100
   * hours, outside the years 0..99, gives an OffsetDateTime with the same
   * offset and the same nine fields: the zone's wall clock is the UTC
   * decomposition of the instant plus the offset.
   */
  lemma OffsetDateTimeOf(z: ZonedDateTime, zones: Zones)
    requires Valid(z) && Recorded(z, zones) && !(0 <= z.year <= 99)
    requires z.offsetMilliSeconds % 60000 == 0 && Abs(z.offsetMilliSeconds) < 100 * 3600000
    ensures var r := GetOffsetDateTime(z);
      && r.Ok? && r.value.offset == z.offset && r.value.offsetMilliSeconds == z.offsetMilliSeconds
      && r.value.instant == z.instant && Offsets.Valid(r.value) && Offsets.FieldsOf(r.value) == FieldsOf(z)
  {
    RecordedSpec(z, zones);
    OffsetOfRecorded(z, zones);
    var f := FieldsOf(z);
    Offsets.SubUnits(z.instant.ns);
    var t := z.instant.ms.v + z.offsetMilliSeconds;
    Offsets.LocalOfEpoch(f, t, Shared.EpochMSNS(f).ns);
    var l := Offsets.LocalOf(Fin(t));
    Offsets.OffsetInfoWith(z.instant, z.offset, z.offsetMilliSeconds, l);
    FieldsOfLocal(Offsets.OffsetDateTime(z.instant, l, z.instant.ns / 1000, Rem(z.instant.ns, 1000), z.offset, z.offsetMilliSeconds), z);
  }

  /** An OffsetDateTime whose local fields and sub-millisecond fields are a ZonedDateTime's has its fields. */
  lemma FieldsOfLocal(o: Offsets.OffsetDateTime, z: ZonedDateTime)
    requires o.local.Local? && o.local.year == z.year && o.local.month == z.month && o.local.day == z.day
    requires o.local.hour == z.hour && o.local.minute == z.minute && o.local.second == z.second
    requires o.local.millisecond == z.millisecond && o.microsecond == z.microsecond && o.nanosecond == z.nanosecond
    ensures Offsets.FieldsOf(o) == FieldsOf(z) && (Valid(z) ==> Offsets.Valid(o))
  {}

  /**
   * `offsetDateTime.withZone(ianaZone)`: a ZonedDateTime at the same
   * instant, and Error when its offset is not the OffsetDateTime's.
   */
  function OffsetWithZone(o: Offsets.OffsetDateTime, ianaZone: string, zones: Zones): Result<ZonedDateTime>
  {
    var zoned :- NewZonedDateTime(Offsets.InstantArg(o.instant), ianaZone, zones);
    if zoned.offset != o.offset then Throw(Error) else Ok(zoned)
  }

  /**
   * withZone succeeds exactly when the constructor does and the zone's
   * offset text at the instant is the OffsetDateTime's; the result keeps
   * the instant and the offset.
   */
  lemma OffsetWithZoneSpec(o: Offsets.OffsetDateTime, ianaZone: string, zones: Zones)
    ensures var r := OffsetWithZone(o, ianaZone, zones);
      var c := NewZonedDateTime(Offsets.InstantArg(o.instant), ianaZone, zones);
      && (r.Ok? <==> c.Ok? && c.value.offset == o.offset)
      && (c.Ok? && c.value.offset != o.offset ==> r == Throw(Error))
      && (r.Ok? ==> r.value.instant == o.instant && r.value.offset == o.offset && r == c)
  {
  }

  // ---------------------------------------------------------------------------
  // Fixed-offset zones and the millisecond before 1970

  /** The wall clock of UTC getters, the month made 1-based. */
  function WallOfUtc(u: EcmaTime.UtcFields): Shared.WallClock
  {
    Shared.WallClock(u.year, u.month + 1, u.date, u.hours, u.minutes, u.seconds)
  }

  /** A zone whose wall clock is always the UTC wall clock k milliseconds later (an `Etc/GMT` style zone). */
  function FixedZone(k: int, name: string): ZoneOracle
  {
    ZoneOracle(t => UtcWall(t + k), name)
  }

  /** The UTC wall clock at t. */
  function UtcWall(t: int): Shared.WallClock
  {
    WallOfUtc(EcmaTime.Utc(t))
  }

  /** `Date.UTC` is linear in its millisecond argument. */
  lemma DateUtcShift(year: int, month: int, date: int, h: int, m: int, sec: int, a: int, b: int)
    ensures EcmaTime.DateUtc(year, month, date, h, m, sec, a) == EcmaTime.DateUtc(year, month, date, h, m, sec, b) + a - b
  {
  }

  /**
   * getZonedInfo's offset for a zone k whole seconds ahead of UTC: k from
   * 1970 on and at whole seconds, but k - 1000 at every other instant
   * before 1970, where `ms % 1e3` is negative while the wall clock's second
   * has already been rounded down (outside the years 0..99).
   */
  lemma FixedZoneOffset(k: int, ms: int, t: int, name: string)
    requires k % 1000 == 0 && t == ms + k && !(0 <= EcmaTime.Utc(t).year <= 99)
    ensures ZoneOffset(FixedZone(k, name), ms) == if ms >= 0 || ms % 1000 == 0 then k else k - 1000
  {
    var u := FixedWall(k, ms, t);
    assert FixedZone(k, name).wall(ms) == UtcWall(t);
    RemOf(ms);
    OffsetOfWall(u, t, Rem(ms, 1000), ms);
  }

  /** The UTC getters at ms + k, whose millisecond is that of ms when k is whole seconds. */
  lemma FixedWall(k: int, ms: int, t: int) returns (u: EcmaTime.UtcFields)
    requires k % 1000 == 0 && t == ms + k && !(0 <= EcmaTime.Utc(t).year <= 99)
    ensures u == EcmaTime.Utc(t) && u.ms == ms % 1000
    ensures EcmaTime.DateUtc(u.year, u.month, u.date, u.hours, u.minutes, u.seconds, u.ms) == t
  {
    u := EcmaTime.Utc(t);
    EcmaTime.DateUtcOfUtc(t);
    UtcMillis(t);
    ModShift(ms, k);
  }

  lemma UtcMillis(t: int)
    ensures EcmaTime.Utc(t).ms == t % 1000
  {
  }

  lemma ModShift(a: int, k: int)
    requires k % 1000 == 0
    ensures (a + k) % 1000 == a % 1000
  {
    DivModUnique(a + k, 1000, a / 1000 + k / 1000, a % 1000);
  }

  /** JavaScript's `a % 1000` against the never-negative remainder. */
  lemma RemOf(a: int)
    ensures Rem(a, 1000) == if a >= 0 || a % 1000 == 0 then a % 1000 else a % 1000 - 1000
  {
    if a < 0 {
      if a % 1000 == 0 {
        DivModUnique(-a, 1000, -(a / 1000), 0);
      } else {
        DivModUnique(-a, 1000, -(a / 1000) - 1, 1000 - a % 1000);
      }
    }
  }

  /** The offset of a wall clock read from UTC getters at t, with the millisecond x in place of theirs. */
  lemma OffsetOfWall(u: EcmaTime.UtcFields, t: int, x: int, ms: int)
    requires EcmaTime.DateUtc(u.year, u.month, u.date, u.hours, u.minutes, u.seconds, u.ms) == t
    ensures OffsetAt(WallOfUtc(u), x, ms) == t - ms + x - u.ms
  {
    DateUtcShift(u.year, u.month, u.date, u.hours, u.minutes, u.seconds, x, u.ms);
  }

  /**
   * In UTC, one millisecond before 1970 is recorded with the offset
   * -1000 ms, printed "-00:00", and the millisecond -1, printed "001".
   */
  lemma UtcBeforeEpoch()
    ensures var z := GetZonedInfo(-1, 0, FixedZone(0, "UTC"));
      && z.offsetMilliSeconds == -1000 && z.offset == "-00:00" && Shared.MakeOffsetString(0) == "+00:00"
      && z.millisecond == -1 && z.year == 1969
  {
    UtcBeforeEpochParts();
    Shared.MakeOffsetStringSubMinuteExample();
    Shared.MakeOffsetStringZeroExample();
  }

  /** The numbers behind UtcBeforeEpoch, and the offset text as makeOffsetString of the offset. */
  lemma UtcBeforeEpochParts()
    ensures var z := GetZonedInfo(-1, 0, FixedZone(0, "UTC"));
      && z.offsetMilliSeconds == -1000 && z.offset == Shared.MakeOffsetString(z.offsetMilliSeconds)
      && z.millisecond == -1 && z.year == 1969
  {
    var zone := FixedZone(0, "UTC");
    YearBeforeEpoch();
    FixedZoneOffset(0, -1, -1, "UTC");
    assert zone.wall(-1) == UtcWall(-1);
    assert zone.wall(-1).year == 1969;
    assert ZoneOffset(zone, -1) == -1000;
  }

  /** The millisecond before 1970 falls in 1969. */
  lemma YearBeforeEpoch()
    ensures EcmaTime.Utc(-1).year == 1969
  {
    EcmaTime.YearFromDayUnique(-1, 1969);
  }

  /**
   * So withZone('UTC') of an OffsetDateTime at "+00:00" throws for every
   * instant before 1970 that is not a whole second (outside the years
   * 0..99): the zone's offset prints "-00:00".
   */
  lemma WithZoneUtcBeforeEpoch(o: Offsets.OffsetDateTime, zones: Zones)
    requires o.offset == "+00:00" && o.instant.ms.Fin? && o.instant.ms.v < 0 && o.instant.ms.v % 1000 != 0
    requires !(0 <= EcmaTime.Utc(o.instant.ms.v).year <= 99)
    requires zones("UTC") == Some(FixedZone(0, "UTC"))
    ensures OffsetWithZone(o, "UTC", zones) == Throw(Error)
  {
    FixedZoneOffset(0, o.instant.ms.v, o.instant.ms.v, "UTC");
    var c := NewZonedDateTime(Offsets.InstantArg(o.instant), "UTC", zones);
    ConstructedAt(o.instant, "UTC", zones, c);
    assert c.value.offset[0] == '-';
  }

  /** The offset with the millisecond read as `((ms % 1e3) + 1e3) % 1e3`, never negative. */
  function ZoneOffsetIntended(zone: ZoneOracle, ms: int): int
  {
    OffsetAt(zone.wall(ms), ms % 1000, ms)
  }

  /** With a non-negative millisecond a zone k whole seconds ahead of UTC has offset k at every instant. */
  lemma FixedZoneOffsetIntended(k: int, ms: int, t: int, name: string)
    requires k % 1000 == 0 && t == ms + k && !(0 <= EcmaTime.Utc(t).year <= 99)
    ensures ZoneOffsetIntended(FixedZone(k, name), ms) == k
  {
    var u := FixedWall(k, ms, t);
    assert FixedZone(k, name).wall(ms) == UtcWall(t);
    OffsetOfWall(u, t, ms % 1000, ms);
  }

  /**
   * withZone of a recorded valid OffsetDateTime into the fixed zone of its
   * own offset, from 1970 on and outside the years 0..99, succeeds and
   * shows the same nine fields.
   */
  lemma OffsetWithZoneFixed(o: Offsets.OffsetDateTime, name: string, zones: Zones, tz: string)
    requires Offsets.Recorded(o) && Offsets.Valid(o) && !(0 <= o.local.year <= 99)
    requires o.instant.ms.Fin? && o.instant.ms.v >= 0
    requires zones(name) == Some(FixedZone(o.offsetMilliSeconds, tz))
    ensures var r := OffsetWithZone(o, name, zones);
      r.Ok? && r.value.offset == o.offset && r.value.offsetMilliSeconds == o.offsetMilliSeconds
      && FieldsOf(r.value) == Offsets.FieldsOf(o)
  {
    var ms, k := o.instant.ms.v, o.offsetMilliSeconds;
    var t := ms + k;
    Offsets.RecordedOffset(o);
    WholeSeconds(k);
    Offsets.RecordedParts(o);
    Offsets.LocalAt(o, k, t);
    Offsets.FiniteInfo(o, t);
    ZonedAtFixed(k, ms, t, o.instant.ns, tz);
    var c := NewZonedDateTime(Offsets.InstantArg(o.instant), name, zones);
    ConstructedAt(o.instant, name, zones, c);
  }

  lemma WholeSeconds(k: int)
    requires k % 60000 == 0
    ensures k % 1000 == 0
  {
    DivModUnique(k, 1000, (k / 60000) * 60, 0);
  }

  /** getZonedInfo in a zone k whole seconds ahead of UTC, from 1970 on: the UTC getters at ms + k and the offset k. */
  lemma ZonedAtFixed(k: int, ms: int, t: int, ns: int, tz: string)
    requires k % 1000 == 0 && t == ms + k && ms >= 0 && !(0 <= EcmaTime.Utc(t).year <= 99)
    ensures var z, u := GetZonedInfo(ms, ns, FixedZone(k, tz)), EcmaTime.Utc(t);
      && z.offsetMilliSeconds == k && z.offset == Shared.MakeOffsetString(k)
      && z.year == u.year && z.month == u.month + 1 && z.day == u.date && z.hour == u.hours && z.minute == u.minutes
      && z.second == u.seconds && z.millisecond == u.ms && z.microsecond == ns / 1000 && z.nanosecond == Rem(ns, 1000)
  {
    FixedZoneOffset(k, ms, t, tz);
    var u := FixedWall(k, ms, t);
    assert FixedZone(k, tz).wall(ms) == UtcWall(t);
  }
}
