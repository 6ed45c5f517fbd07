/**
 * lib/timezone.mjs: time zones of the newer generation. An OffsetZone is a
 * fixed offset; an IanaZone reads wall clocks from `Intl.DateTimeFormat`,
 * here the zone oracle of the Zoned module. Instants are their epoch
 * nanoseconds (the DATA of lib/absolute.mjs); the `DateTime` the zones
 * build is the nine-field record Shared.Fields.
 */
module TimeZones {
  import opened Js
  import Text
  import EcmaTime
  import Shared
  import Zoned
  import Utils

  /**
   * The zones `TimeZone.for` builds: a fixed-offset zone with its canonical
   * name and its OFFSET slot, or an Intl zone. getDateTimeFor subtracts
   * OFFSET and getAbsoluteFor adds it, so OFFSET is the offset's negation,
   * milliseconds west of UTC, for the zone to keep the time its name says.
   */
  datatype TimeZone = OffsetZone(name: string, offset: int) | IanaZone(oracle: Zoned.ZoneOracle)

  /** The `name` getter. */
  function Name(z: TimeZone): string
  {
    if z.OffsetZone? then z.name else z.oracle.name
  }

  /** `new TimeZone()`, and likewise `new OffsetZone()` and `new IanaZone()`, always throw. */
  function NewTimeZone(): (r: Result<TimeZone>)
    ensures r.Throw? && r.exc == TypeError
  {
    Throw(TypeError)
  }

  /** `isOffset(name)`: the name is an offset string `[+-]?HH:?MM`. */
  predicate IsOffset(name: string)
  {
    Shared.OffsetMatch(name).Some?
  }

  /**
   * `TimeZone.for(name)`: an OffsetZone for an offset string, named by the
   * canonical form of its offset, with the integer OFFSET its arithmetic
   * needs (see OffsetDateTimeForOfName for the name string `OffsetZone.for`
   * stores there); otherwise the Intl zone of that name, whose
   * construction throws a RangeError for a name Intl rejects.
   */
  function For(name: string, zones: Zoned.Zones): (r: Result<TimeZone>)
    ensures r.Ok? && r.value.OffsetZone? <==> IsOffset(name)
    ensures r.Ok? && r.value.OffsetZone? ==> Shared.ParseOffsetString(name) == Ok(-r.value.offset)
    ensures r.Ok? && r.value.OffsetZone? ==> Name(r.value) == Shared.MakeOffsetString(-r.value.offset)
    ensures r.Ok? && r.value.IanaZone? ==> zones(name) == Some(r.value.oracle)
    ensures r.Throw? <==> !IsOffset(name) && zones(name).None?
    ensures r.Throw? ==> r.exc == RangeError
  {
    if IsOffset(name) then
      var offset := Shared.ParseOffsetString(name).value;
      Ok(OffsetZone(Shared.MakeOffsetString(offset), -offset))
    else
      match zones(name)
      case None => Throw(RangeError)
      case Some(o) => Ok(IanaZone(o))
  }

  /**
   * A zone built by `TimeZone.for` is found again under its own name: an
   * offset below 100 hours, or an Intl zone whose resolved name Intl
   * resolves to the same zone and which is not itself offset-shaped.
   */
  lemma ForOfName(name: string, zones: Zoned.Zones, z: TimeZone)
    requires For(name, zones) == Ok(z)
    requires z.OffsetZone? ==> Abs(z.offset) < 100 * 3600000
    requires z.IanaZone? ==> !IsOffset(Name(z)) && zones(Name(z)) == zones(name)
    ensures For(Name(z), zones) == Ok(z)
  {
    if z.OffsetZone? {
      var ms := -z.offset;
      assert Shared.ParseOffsetString(name) == Ok(ms);
      ForOfMadeOffset(ms, zones);
      assert z == OffsetZone(Shared.MakeOffsetString(ms), -ms);
    } else {
      assert zones(Name(z)) == Some(z.oracle);
    }
  }

  /** `TimeZone.for` of a printed whole-minute offset under 100 hours is the offset zone of that offset. */
  lemma ForOfMadeOffset(ms: int, zones: Zoned.Zones)
    requires ms % 60000 == 0 && Abs(ms) < 100 * 3600000
    ensures For(Shared.MakeOffsetString(ms), zones) == Ok(OffsetZone(Shared.MakeOffsetString(ms), -ms))
  {
    var n := Shared.MakeOffsetString(ms);
    Shared.ParseOfMakeOffsetString(ms);
    assert IsOffset(n);
  }

  /**
   * An offset zone keeps the time its name says: getDateTimeFor reads the
   * UTC clock at the instant moved forward by the parsed offset, the shift
   * getOffsetInfo of lib/offset.mjs applies.
   */
  lemma ForAgreesWithName(name: string, zones: Zoned.Zones, p: int, ns: int)
    requires Shared.ParseOffsetString(name) == Ok(p)
    ensures For(name, zones).Ok? && For(name, zones).value.OffsetZone?
    ensures OffsetDateTimeFor(For(name, zones).value.offset, ns) == UtcClock(ns + p * 1000000)
  {
    ShiftedClock(For(name, zones).value.offset, p, ns);
  }

  /** With OFFSET the negated offset p, getDateTimeFor is the UTC clock p·10^6 nanoseconds later. */
  lemma ShiftedClock(offset: int, p: int, ns: int)
    requires offset == -p
    ensures OffsetDateTimeFor(offset, ns) == UtcClock(ns + p * 1000000)
  {
  }

  // OffsetZone

  /** Nested truncating quotients: `(n / 1000n) / 1000n` is `n / 1000000n`. */
  lemma QuotNested(n: int)
    ensures Quot(Quot(n, 1000), 1000) == Quot(n, 1000000)
  {
    var a := Abs(n);
    DivModUnique(a, 1000000, (a / 1000) / 1000, 1000 * ((a / 1000) % 1000) + a % 1000);
  }

  /** The truncating quotients and remainders of n by 1000 and 10^6 recombine to n. */
  lemma Recombine(n: int)
    ensures Quot(n, 1000000) * 1000000 + Rem(Quot(n, 1000), 1000) * 1000 + Rem(n, 1000) == n
  {
    QuotRem(n, 1000);
    QuotRem(Quot(n, 1000), 1000);
    QuotNested(n);
  }

  /**
   * OffsetZone `getDateTimeFor`: the UTC getters at the whole milliseconds
   * of ns - OFFSET·10^6, rounded toward zero, with the microseconds and
   * nanoseconds as truncating BigInt remainders.
   */
  function OffsetDateTimeFor(offset: int, ns: int): (f: Shared.Fields)
    ensures var t := ns - offset * 1000000;
      f.microsecond == Rem(Quot(t, 1000), 1000) && f.nanosecond == Rem(t, 1000)
  {
    UtcClock(ns - offset * 1000000)
  }

  /** What the UTC getters show at epoch nanoseconds t, with t's microseconds and nanoseconds. */
  function UtcClock(t: int): (f: Shared.Fields)
    ensures f.microsecond == Rem(Quot(t, 1000), 1000) && f.nanosecond == Rem(t, 1000)
  {
    FieldsOfUtc(EcmaTime.Utc(Quot(t, 1000000)), Rem(Quot(t, 1000), 1000), Rem(t, 1000))
  }

  /** The DateTime of UTC getters and a microsecond and nanosecond. */
  function FieldsOfUtc(u: EcmaTime.UtcFields, microsecond: int, nanosecond: int): Shared.Fields
  {
    Shared.Fields(u.year, u.month + 1, u.date, u.hours, u.minutes, u.seconds, u.ms, microsecond, nanosecond)
  }

  /** OffsetZone `getAbsoluteFor`: one instant, `Date.UTC` of the fields plus OFFSET, with the sub-milliseconds. */
  function OffsetAbsoluteFor(offset: int, f: Shared.Fields): (r: seq<int>)
    ensures |r| == 1
  {
    [(Base(f) + offset) * 1000000 + SubMillis(f)]
  }

  /**
   * getAbsoluteFor undoes getDateTimeFor in an OffsetZone, before 1970 as
   * well as after, as long as the UTC year of the shifted instant is not
   * one of the years 0..99 that `Date.UTC` moves to the 1900s.
   */
  lemma OffsetAbsoluteOfDateTime(offset: int, ns: int, t: int, q: int)
    requires t == ns - offset * 1000000 && q == Quot(t, 1000000) && !(0 <= EcmaTime.Utc(q).year <= 99)
    ensures OffsetAbsoluteFor(offset, OffsetDateTimeFor(offset, ns)) == [ns]
  {
    var a, b := Rem(Quot(t, 1000), 1000), Rem(t, 1000);
    var f := FieldsOfUtc(EcmaTime.Utc(q), a, b);
    assert OffsetDateTimeFor(offset, ns) == f;
    BaseOfUtc(q, a, b);
    Recombine(t);
    Regroup(offset, f, q, a, b, t, ns);
  }

  lemma BaseOfUtc(q: int, a: int, b: int)
    requires !(0 <= EcmaTime.Utc(q).year <= 99)
    ensures Base(FieldsOfUtc(EcmaTime.Utc(q), a, b)) == q
  {
    EcmaTime.DateUtcOfUtc(q);
  }

  lemma Regroup(offset: int, f: Shared.Fields, q: int, a: int, b: int, t: int, ns: int)
    requires Base(f) == q && f.microsecond == a && f.nanosecond == b
    requires q * 1000000 + a * 1000 + b == t && t == ns - offset * 1000000
    ensures OffsetAbsoluteFor(offset, f) == [ns]
  {
  }

  /** OffsetZone `getOffsetFor`: the zone's name. */
  function OffsetOffsetFor(z: TimeZone): (r: string)
    requires z.OffsetZone?
    ensures r == Name(z)
  {
    z.name
  }

  /** OffsetZone `getOffsetsInYear`: `[this.offset]`, a zone having no `offset` property, so `[undefined]`. */
  function OffsetOffsetsInYear(year: int): (r: seq<Option<string>>)
    ensures |r| == 1 && r[0].None?
  {
    [None]
  }

  /** OffsetZone `getTransitionsInYear`: no transitions. */
  function OffsetTransitionsInYear(year: int): (r: seq<int>)
    ensures |r| == 0
  {
    []
  }

  // OffsetZone as written: OFFSET holds the name string

  /**
   * `BigInt(s)` on the strings OffsetZone hands it: an offset name of the
   * form `[+-]?HH:?MM`, or the decimal text of a time value with such a
   * name appended. None of them has white space or a radix prefix, and on
   * them decimal digits, possibly after one sign, convert (the empty
   * string to 0n) and any other string is a SyntaxError.
   */
  function BigIntOfString(s: string): (r: Result<int>)
    ensures r.Throw? ==> r.exc == SyntaxError
    ensures Text.IsDigits(s) ==> r == Ok(Text.Value(s))
    ensures r.Ok? && !Text.IsDigits(s) ==> 2 <= |s| && Shared.IsSign(s[0]) && Text.IsDigits(s[1..])
    ensures 2 <= |s| && Shared.IsSign(s[0]) && Text.IsDigits(s[1..]) ==>
      r == Ok(if s[0] == '-' then -(Text.Value(s[1..]) as int) else Text.Value(s[1..]))
  {
    if Text.IsDigits(s) then Ok(Text.Value(s))
    else if 2 <= |s| && Shared.IsSign(s[0]) && Text.IsDigits(s[1..]) then
      var v: int := Text.Value(s[1..]);
      Ok(if s[0] == '-' then -v else v)
    else Throw(SyntaxError)
  }

  /** A string with a character other than a digit past its first one is no BigInt. */
  lemma BigIntOfStringRejects(s: string, i: int)
    requires 1 <= i < |s| && !Text.IsDigit(s[i])
    ensures BigIntOfString(s) == Throw(SyntaxError)
  {
    assert !Text.IsDigits(s);
    assert s[1..][i - 1] == s[i];
  }

  /**
   * OffsetZone `getDateTimeFor` as written: `OffsetZone.for(name)` stores
   * the name string itself in OFFSET, so the shift starts with
   * `BigInt(name)`.
   */
  function OffsetDateTimeForOfName(name: string, ns: int): (r: Result<Shared.Fields>)
    ensures r.Throw? ==> r.exc == SyntaxError
    ensures r.Ok? <==> BigIntOfString(name).Ok?
    ensures r.Ok? ==> r.value == OffsetDateTimeFor(BigIntOfString(name).value, ns)
  {
    var offset :- BigIntOfString(name);
    Ok(OffsetDateTimeFor(offset, ns))
  }

  /**
   * OffsetZone `getAbsoluteFor` as written: `Date.UTC(...) + this[OFFSET]`
   * appends the name to the decimal text of the milliseconds, and
   * `BigInt` of that string follows.
   */
  function OffsetAbsoluteForOfName(name: string, f: Shared.Fields): (r: Result<seq<int>>)
    ensures r.Throw? ==> r.exc == SyntaxError
    ensures r.Ok? ==> |r.value| == 1
  {
    var ms :- BigIntOfString(Text.IntToString(Base(f)) + name);
    Ok([ms * 1000000 + SubMillis(f)])
  }

  /**
   * Every offset name with a colon, such as "+01:00", makes getDateTimeFor
   * throw; every one with a colon or a sign makes getAbsoluteFor throw,
   * the sign or colon landing inside the concatenated digits.
   */
  lemma OffsetOfNameThrows(name: string, ns: int, f: Shared.Fields)
    requires IsOffset(name)
    ensures ':' in name ==> OffsetDateTimeForOfName(name, ns) == Throw(SyntaxError)
    ensures ':' in name || Shared.IsSign(name[0]) ==> OffsetAbsoluteForOfName(name, f) == Throw(SyntaxError)
  {
    var b := Base(f);
    var u := Text.IntToString(b);
    assert 1 <= |u|;
    var s := u + name;
    if ':' in name {
      var i :| 0 <= i < |name| && name[i] == ':';
      assert i >= 1 && !Text.IsDigit(name[i]);
      BigIntOfStringRejects(name, i);
      assert s[|u| + i] == ':';
      BigIntOfStringRejects(s, |u| + i);
    } else if Shared.IsSign(name[0]) {
      assert s[|u|] == name[0];
      BigIntOfStringRejects(s, |u|);
    }
  }

  /**
   * A colonless signed name does convert, but as the four-digit number
   * HHMM: "+0100" reads as 100, so the zone that should run an hour ahead
   * of UTC runs 100 milliseconds behind it, where the integer OFFSET of
   * `TimeZone.for` is -3600000 (ColonlessOffsetSlot).
   */
  lemma ColonlessOffsetAsWritten(sign: char, hh: string, mm: string, ns: int)
    requires Shared.IsSign(sign) && |hh| == 2 && |mm| == 2 && Text.IsDigits(hh) && Text.IsDigits(mm)
    ensures var k: int := 100 * Text.Value(hh) + Text.Value(mm);
      OffsetDateTimeForOfName([sign] + hh + mm, ns) == Ok(OffsetDateTimeFor(if sign == '-' then -k else k, ns))
  {
    var name := [sign] + hh + mm;
    assert name[1..] == hh + mm;
    assert !Text.IsDigit(name[0]);
    ColonlessBigInt(name, sign, hh, mm);
  }

  /** The OFFSET `TimeZone.for` gives the same colonless name: the offset in milliseconds, negated. */
  lemma ColonlessOffsetSlot(sign: char, hh: string, mm: string, zones: Zoned.Zones)
    requires Shared.IsSign(sign) && |hh| == 2 && |mm| == 2 && Text.IsDigits(hh) && Text.IsDigits(mm)
    ensures var k: int := (60 * Text.Value(hh) + Text.Value(mm)) * 60000;
      && For([sign] + hh + mm, zones).Ok?
      && For([sign] + hh + mm, zones).value.offset == (if sign == '-' then k else -k)
  {
    var name := [sign] + hh + mm;
    assert name[1..] == hh + mm;
    ColonlessParsed(name, sign, hh, mm);
    var p := Shared.ParseOffsetString(name).value;
    assert p == Shared.OffsetOfGroups(Shared.OffsetGroups([sign], hh, mm));
  }

  lemma ColonlessBigInt(name: string, sign: char, hh: string, mm: string)
    requires Shared.IsSign(sign) && |hh| == 2 && |mm| == 2 && Text.IsDigits(hh) && Text.IsDigits(mm)
    requires name == [sign] + hh + mm && name[1..] == hh + mm && !Text.IsDigit(name[0])
    ensures var k: int := 100 * Text.Value(hh) + Text.Value(mm);
      BigIntOfString(name) == Ok(if sign == '-' then -k else k)
  {
    Text.ValueAppend(hh, mm);
    assert Text.Pow10(2) == 100;
  }

  lemma ColonlessParsed(name: string, sign: char, hh: string, mm: string)
    requires Shared.IsSign(sign) && |hh| == 2 && |mm| == 2 && Text.IsDigits(hh) && Text.IsDigits(mm)
    requires name == [sign] + hh + mm && name[1..] == hh + mm
    ensures Shared.OffsetMatch(name) == Some(Shared.OffsetGroups([sign], hh, mm))
  {
    var rest := name[1..];
    Text.ValueAppend(hh, mm);
    assert rest[..2] == hh && rest[2..] == mm;
  }

  // The name OffsetZone.for stores, as written

  /**
   * The NAME `OffsetZone.for` stores as written: `offsetString` applied to
   * the name string itself, so that its comparison and `Math.abs` read the
   * string as a number. NaN fails `< 0`, which gives a '+', and prints as
   * "NaN", whose last two characters are "aN". `For` names the zone by the
   * offset it parses instead (OffsetZoneNameWithColon, OffsetZoneNameColonless).
   */
  function OffsetZoneNameAsWritten(name: string): (r: string)
    ensures |r| == 6 && r[3] == ':'
  {
    match Utils.StringToNumber(name)
      case NaN => "+aN:aN"
      case Fin(v) => Shared.MakeOffsetString(v)
  }

  /**
   * An offset name with a colon is no number, so as written every such
   * zone is named "+aN:aN", whatever its sign, hours and minutes; `For`
   * names it by its offset (see NaNNameLookup for what `TimeZone.for`
   * makes of "+aN:aN").
   */
  lemma OffsetZoneNameWithColon(sign: string, hh: string, mm: string, zones: Zoned.Zones)
    requires sign == "" || sign == "+" || sign == "-"
    requires |hh| == 2 && |mm| == 2 && Text.IsDigits(hh) && Text.IsDigits(mm)
    ensures var name := sign + hh + ":" + mm;
      && IsOffset(name)
      && OffsetZoneNameAsWritten(name) == "+aN:aN"
      && For(name, zones).Ok? && Name(For(name, zones).value) == Shared.MakeOffsetString(Shared.ParseOffsetString(name).value)
  {
    var name := sign + hh + ":" + mm;
    assert IsOffset(name) by {
      var rest := if sign == "" then name else name[1..];
      assert rest == hh + ":" + mm && rest[..2] == hh && rest[3..] == mm;
    }
    ColonNameIsNaN(sign, hh, mm, name);
  }

  /**
   * "+aN:aN" is not itself an offset name ('a' is no digit), so
   * `TimeZone.for` of it is an Intl lookup: a RangeError unless Intl
   * knows the name.
   */
  lemma NaNNameLookup(name: string, zones: Zoned.Zones)
    requires name == "+aN:aN"
    ensures !IsOffset(name)
    ensures For(name, zones).Ok? ==> For(name, zones).value.IanaZone?
    ensures For(name, zones).Throw? <==> zones(name).None?
  {
    var rest := name[1..];
    assert rest == "aN:aN" && !Text.IsDigit(rest[0]);
    assert !Text.IsDigits(rest[..2]) by { assert rest[..2][0] == 'a'; }
  }

  /** Sign, hours, a colon and minutes make no StringNumericLiteral: the colon ends the digits. */
  lemma ColonNameIsNaN(sign: string, hh: string, mm: string, name: string)
    requires sign == "" || sign == "+" || sign == "-"
    requires |hh| == 2 && |mm| == 2 && Text.IsDigits(hh) && Text.IsDigits(mm)
    requires name == sign + hh + ":" + mm
    ensures Utils.StringToNumber(name) == NaN
  {
    var u := hh + ":" + mm;
    assert name == sign + u;
    assert name[|name| - 1] == mm[1] && Text.IsDigit(mm[1]);
    assert name[0] == (if sign == "" then hh[0] else sign[0]);
    Utils.TrimUnpadded(name);
    UnsignedColon(hh, mm, u);
    SignedNotLiteral(sign, u, name);
  }

  /** A sign or nothing before text that is no unsigned literal and has no radix prefix makes no literal. */
  lemma SignedNotLiteral(sign: string, u: string, name: string)
    requires sign == "" || sign == "+" || sign == "-"
    requires |u| >= 2 && Text.IsDigit(u[0]) && Text.IsDigit(u[1]) && Utils.UnsignedDecimal(u) == Utils.NotLiteral
    requires name == sign + u
    ensures Utils.LiteralOf(name) == Utils.NotLiteral
  {
    if sign == "" {
      assert name == u;
      DigitsNotLiteral(u);
    } else {
      assert name[0] == sign[0] && name[1..] == u;
      SignNotLiteral(name, u);
    }
  }

  /** Unsigned: a leading digit is no sign, and a digit second is no radix letter. */
  lemma DigitsNotLiteral(u: string)
    requires |u| >= 2 && Text.IsDigit(u[0]) && Text.IsDigit(u[1]) && Utils.UnsignedDecimal(u) == Utils.NotLiteral
    ensures Utils.LiteralOf(u) == Utils.NotLiteral
  {
    assert Utils.RadixOf(u[1]) == 0;
    assert u[0] != '-' && u[0] != '+';
  }

  /** Signed: the sign is no `0`, and the rest is read as the unsigned decimal. */
  lemma SignNotLiteral(name: string, u: string)
    requires |name| >= 3 && (name[0] == '+' || name[0] == '-') && name[1..] == u
    requires Utils.UnsignedDecimal(u) == Utils.NotLiteral
    ensures Utils.LiteralOf(name) == Utils.NotLiteral
  {
  }

  /** Two digits and a colon: a digit run that no fraction or exponent follows. */
  lemma UnsignedColon(hh: string, mm: string, u: string)
    requires |hh| == 2 && |mm| == 2 && Text.IsDigits(hh) && Text.IsDigits(mm)
    requires u == hh + ":" + mm
    ensures Utils.UnsignedDecimal(u) == Utils.NotLiteral && Text.IsDigit(u[0]) && Text.IsDigit(u[1])
  {
    assert u[2..][0] == ':' && Utils.DigitRun(u[2..]) == 0;
    assert u[1..][1..] == u[2..] && Text.IsDigit(u[1..][0]);
    assert Utils.DigitRun(u[1..]) == 1;
    assert Text.IsDigit(u[0]) && Utils.DigitRun(u) == 2;
    assert u != "Infinity";
    assert Utils.ExponentOf(u[2..]).None?;
  }

  /**
   * A colonless offset name reads as the four-digit number HHMM, less than
   * a minute of milliseconds, so as written its zone is named "+00:00", or
   * "-00:00" when a '-' comes before a non-zero HHMM; `For` names it by its
   * offset of HH hours and MM minutes.
   */
  lemma OffsetZoneNameColonless(sign: string, hh: string, mm: string, zones: Zoned.Zones)
    requires sign == "" || sign == "+" || sign == "-"
    requires |hh| == 2 && |mm| == 2 && Text.IsDigits(hh) && Text.IsDigits(mm)
    ensures var name := sign + hh + mm;
      && IsOffset(name)
      && OffsetZoneNameAsWritten(name) == (if sign == "-" && Text.Value(hh + mm) > 0 then "-00:00" else "+00:00")
      && For(name, zones).Ok? && Name(For(name, zones).value) == Shared.MakeOffsetString(Shared.ParseOffsetString(name).value)
  {
    var name := sign + hh + mm;
    assert IsOffset(name) by {
      var rest := if sign == "" then name else name[1..];
      assert rest == hh + mm && rest[..2] == hh && rest[2..] == mm;
    }
    var k := ColonlessNumber(sign, hh, mm, name);
    Shared.MakeOffsetStringSubMinute(k);
  }

  /** A colonless name is the number HHMM, with its sign, below a minute of milliseconds. */
  lemma ColonlessNumber(sign: string, hh: string, mm: string, name: string) returns (k: int)
    requires sign == "" || sign == "+" || sign == "-"
    requires |hh| == 2 && |mm| == 2 && Text.IsDigits(hh) && Text.IsDigits(mm)
    requires name == sign + hh + mm
    ensures Utils.StringToNumber(name) == Fin(k)
    ensures -60000 < k < 60000 && (k < 0 <==> sign == "-" && Text.Value(hh + mm) > 0)
  {
    var d := hh + mm;
    assert name == sign + d;
    Text.ValueAppend(hh, mm);
    Text.ValueBound(hh);
    Text.ValueBound(mm);
    assert Text.Pow10(2) == 100;
    assert Text.Value(d) < 10000;
    if sign == "" {
      assert name == d;
      k := Text.Value(d);
    } else {
      Utils.SignedDigits(sign[0], d);
      assert [sign[0]] + d == name;
      k := if sign == "-" then -(Text.Value(d) as int) else Text.Value(d);
    }
  }


  /** The name of `TimeZone.for('+01:00')`: "+aN:aN" as written, "+01:00" by `For`. */
  lemma OffsetZoneNameExample(zones: Zoned.Zones)
    ensures OffsetZoneNameAsWritten("+01:00") == "+aN:aN"
    ensures For("+01:00", zones).Ok? && Name(For("+01:00", zones).value) == "+01:00"
  {
    OneHourName("+01:00", zones);
  }

  /** The names of `TimeZone.for('+0100')` and `TimeZone.for('-0100')` as written: no more than the sign survives. */
  lemma OffsetZoneNameColonlessExample(zones: Zoned.Zones)
    ensures OffsetZoneNameAsWritten("+0100") == "+00:00"
    ensures OffsetZoneNameAsWritten("-0100") == "-00:00"
  {
    Shared.SmallValues();
    assert "+" + "01" + "00" == "+0100" && "-" + "01" + "00" == "-0100";
    OneHundredName("+", "01", "00", zones);
    OneHundredName("-", "01", "00", zones);
  }

  lemma OneHourName(name: string, zones: Zoned.Zones)
    requires name == "+01:00"
    ensures OffsetZoneNameAsWritten(name) == "+aN:aN"
    ensures For(name, zones).Ok? && Name(For(name, zones).value) == "+01:00"
  {
    Shared.SmallValues();
    assert name == "+" + "01" + ":" + "00";
    OffsetZoneNameWithColon("+", "01", "00", zones);
    Shared.ParsePlusExample();
    Shared.MakeOffsetStringPlusExample();
  }

  lemma OneHundredName(sign: string, hh: string, mm: string, zones: Zoned.Zones)
    requires sign == "+" || sign == "-"
    requires |hh| == 2 && |mm| == 2 && Text.IsDigits(hh) && Text.IsDigits(mm)
    requires Text.Value(hh) == 1 && Text.Value(mm) == 0
    ensures OffsetZoneNameAsWritten(sign + hh + mm) == (if sign == "-" then "-00:00" else "+00:00")
  {
    Text.ValueAppend(hh, mm);
    assert Text.Pow10(2) == 100 && Text.Value(hh + mm) == 100;
    OffsetZoneNameColonless(sign, hh, mm, zones);
  }

  // IanaZone: timeparts and the instants of a wall clock

  /** What `timeparts(ms)` returns: the oracle's wall clock, the millisecond it reconstructs, and the offset. */
  datatype Parts = Parts(wall: Shared.WallClock, millisecond: int, offsetMilliseconds: int, offset: string)

  /** `(ms < 0) ? (1000 + ms % 1000) : (ms % 1000)`, which is 1000 at a whole second before 1970. */
  function PartsMillisecond(ms: int): (m: int)
    ensures 0 <= m <= 1000
    ensures m == 1000 <==> ms < 0 && ms % 1000 == 0
    ensures m < 1000 ==> m == ms % 1000
  {
    Zoned.RemOf(ms);
    if ms < 0 then 1000 + Rem(ms, 1000) else Rem(ms, 1000)
  }

  /** `timeparts(ms)`: the offset is `Date.UTC` of the wall clock with that millisecond, minus ms. */
  function Timeparts(o: Zoned.ZoneOracle, ms: int): (p: Parts)
    ensures p.wall == o.wall(ms) && p.offset == Shared.MakeOffsetString(p.offsetMilliseconds)
    ensures p.offsetMilliseconds == Zoned.OffsetAt(o.wall(ms), PartsMillisecond(ms), ms)
  {
    var millisecond := PartsMillisecond(ms);
    var off := Zoned.OffsetAt(o.wall(ms), millisecond, ms);
    Parts(o.wall(ms), millisecond, off, Shared.MakeOffsetString(off))
  }

  /**
   * IanaZone `getDateTimeFor`: the wall clock and millisecond of timeparts at
   * the truncated milliseconds, and the absolute values of the truncating
   * remainders as the microsecond and nanosecond.
   */
  function IanaDateTimeFor(o: Zoned.ZoneOracle, ns: int): (f: Shared.Fields)
    ensures 0 <= f.microsecond < 1000 && 0 <= f.nanosecond < 1000 && 0 <= f.millisecond <= 1000
    ensures f.microsecond == Abs(Quot(ns, 1000)) % 1000 && f.nanosecond == Abs(ns) % 1000
  {
    var ms := Quot(ns, 1000000);
    QuotRem(ns, 1000);
    QuotRem(Quot(ns, 1000), 1000);
    var microsecond := if ns < 0 then Abs(Rem(Quot(ns, 1000), 1000)) else Rem(Quot(ns, 1000), 1000);
    var nanosecond := if ns < 0 then Abs(Rem(ns, 1000)) else Rem(ns, 1000);
    var p := Timeparts(o, ms);
    Shared.Fields(p.wall.year, p.wall.month, p.wall.day, p.wall.hour, p.wall.minute, p.wall.second,
                  p.millisecond, microsecond, nanosecond)
  }

  /**
   * Before 1970 the fraction is the millisecond counted forward from the
   * second and the microseconds and nanoseconds counted backward: at
   * -217175010123456789 ns it reads .877456789, where the instant lies
   * 0.876543211 s into its second.
   */
  lemma IanaFractionExample(o: Zoned.ZoneOracle)
    ensures var f := IanaDateTimeFor(o, -217175010123456789);
      f.millisecond == 877 && f.microsecond == 456 && f.nanosecond == 789
  {
    assert Quot(-217175010123456789, 1000000) == -217175010123;
    assert PartsMillisecond(-217175010123) == 877;
  }

  /** IanaZone `getOffsetFor`: the offset string timeparts computes at the truncated milliseconds. */
  function IanaOffsetFor(o: Zoned.ZoneOracle, ns: int): (r: string)
    ensures r == Shared.MakeOffsetString(Timeparts(o, Quot(ns, 1000000)).offsetMilliseconds)
  {
    Timeparts(o, Quot(ns, 1000000)).offset
  }

  // IanaZone getAbsoluteFor: candidate offsets, verify against the oracle, sort

  /** The offsets timeparts finds at the probe instants, one per probe. */
  function ProbeValues(o: Zoned.ZoneOracle, probes: seq<int>): (r: seq<int>)
    ensures |r| == |probes|
    ensures forall i :: 0 <= i < |probes| ==> r[i] == Timeparts(o, probes[i]).offsetMilliseconds
  {
    seq(|probes|, i requires 0 <= i < |probes| => Timeparts(o, probes[i]).offsetMilliseconds)
  }

  /** The elements of xs in the order they are first seen, each once: `Array.from` of a `Set` filled from xs. */
  function FirstSeen(xs: seq<int>): (r: seq<int>)
    ensures |r| <= |xs|
    ensures forall x :: x in r <==> x in xs
    ensures Distinct(r)
  {
    if xs == [] then []
    else
      var r := FirstSeen(xs[..|xs| - 1]);
      var x := xs[|xs| - 1];
      assert xs == xs[..|xs| - 1] + [x];
      if x in r then r else r + [x]
  }

  predicate Distinct(xs: seq<int>)
  {
    forall i, j :: 0 <= i < j < |xs| ==> xs[i] != xs[j]
  }

  /**
   * `offsets.call(this, year)`: timeparts at each probe, collected into a
   * `Set`. The probes are the epoch milliseconds of the host-local
   * `Date(year, 0, 2, 9)` moved through the twelve months, which depend on
   * the host's zone and are given.
   */
  method ProbeOffsets(o: Zoned.ZoneOracle, probes: seq<int>) returns (res: seq<int>)
    ensures res == FirstSeen(ProbeValues(o, probes))
  {
    res := AddAll(ProbeValues(o, probes));
  }

  /** `res.add(x)` for each x in turn, then `Array.from(res)`. */
  method AddAll(xs: seq<int>) returns (res: seq<int>)
    ensures res == FirstSeen(xs)
  {
    res := [];
    var i := 0;
    while i < |xs|
      invariant 0 <= i <= |xs|
      invariant res == FirstSeen(xs[..i])
    {
      assert xs[..i + 1] == xs[..i] + [xs[i]];
      FirstSeenSnoc(xs[..i], xs[i]);
      if xs[i] !in res {
        res := res + [xs[i]];
      }
      i := i + 1;
    }
    assert xs[..i] == xs;
  }

  lemma FirstSeenSnoc(xs: seq<int>, x: int)
    ensures FirstSeen(xs + [x]) == if x in FirstSeen(xs) then FirstSeen(xs) else FirstSeen(xs) + [x]
  {
    assert (xs + [x])[..|xs|] == xs;
  }

  /** The instant a candidate offset proposes: `BigInt(base - offset) * 1000000n` plus the sub-millisecond part. */
  function CandidateNs(base: int, sub: int, off: int): int
  {
    (base - off) * 1000000 + sub
  }

  /** Some offset proposes the instant x and the zone's wall clock there shows w. */
  predicate Proposes(o: Zoned.ZoneOracle, w: Shared.WallClock, base: int, sub: int, offs: seq<int>, x: int)
  {
    exists off :: off in offs && o.wall(base - off) == w && x == CandidateNs(base, sub, off)
  }

  /** The candidates whose wall clock in the zone reads the requested fields, in the order of the offsets. */
  function Candidates(o: Zoned.ZoneOracle, w: Shared.WallClock, base: int, sub: int, offs: seq<int>): (r: seq<int>)
    ensures |r| <= |offs|
    ensures forall x :: x in r ==> Proposes(o, w, base, sub, offs, x)
  {
    if offs == [] then []
    else
      var rest := Candidates(o, w, base, sub, offs[1..]);
      assert forall x :: x in rest ==> Proposes(o, w, base, sub, offs, x) by {
        forall x | x in rest
          ensures Proposes(o, w, base, sub, offs, x)
        {
          assert Proposes(o, w, base, sub, offs[1..], x);
          var off :| off in offs[1..] && o.wall(base - off) == w && x == CandidateNs(base, sub, off);
          assert off in offs;
        }
      }
      if o.wall(base - offs[0]) == w then [CandidateNs(base, sub, offs[0])] + rest else rest
  }

  /** Every offset whose instant shows the requested wall clock contributes that instant. */
  lemma {:induction false} CandidatesComplete(o: Zoned.ZoneOracle, w: Shared.WallClock, base: int, sub: int, offs: seq<int>, off: int)
    requires off in offs && o.wall(base - off) == w
    ensures CandidateNs(base, sub, off) in Candidates(o, w, base, sub, offs)
  {
    if offs[0] != off {
      CandidatesComplete(o, w, base, sub, offs[1..], off);
    }
  }

  /** Distinct offsets propose distinct instants. */
  lemma {:induction false} CandidatesDistinct(o: Zoned.ZoneOracle, w: Shared.WallClock, base: int, sub: int, offs: seq<int>)
    requires Distinct(offs)
    ensures Distinct(Candidates(o, w, base, sub, offs))
  {
    if offs != [] {
      var rest := offs[1..];
      assert Distinct(rest) by {
        forall i, j | 0 <= i < j < |rest|
          ensures rest[i] != rest[j]
        {
          assert rest[i] == offs[i + 1] && rest[j] == offs[j + 1];
        }
      }
      CandidatesDistinct(o, w, base, sub, rest);
      var tail := Candidates(o, w, base, sub, rest);
      if o.wall(base - offs[0]) == w {
        var h := CandidateNs(base, sub, offs[0]);
        forall y | y in tail
          ensures y != h
        {
          var off :| off in rest && o.wall(base - off) == w && y == CandidateNs(base, sub, off);
          var k :| 0 <= k < |rest| && rest[k] == off;
          assert offs[k + 1] == off && off != offs[0];
        }
        var r := [h] + tail;
        forall i, j | 0 <= i < j < |r|
          ensures r[i] != r[j]
        {
          assert r[j] == tail[j - 1];
          if i > 0 {
            assert r[i] == tail[i - 1];
          } else {
            assert tail[j - 1] in tail;
          }
        }
      }
    }
  }

  predicate Ascending(xs: seq<int>)
  {
    forall i, j :: 0 <= i < j < |xs| ==> xs[i] <= xs[j]
  }

  /** Insertion of x into an ascending sequence. */
  function Insert(x: int, s: seq<int>): (r: seq<int>)
    requires Ascending(s)
    ensures Ascending(r) && multiset(r) == multiset(s) + multiset{x}
  {
    if s == [] || x <= s[0] then
      LeastOfAscendingAll(x, s);
      ConsAscending(x, s);
      [x] + s
    else
      var rest := Insert(x, s[1..]);
      assert s == [s[0]] + s[1..];
      LeastOfAscending(s);
      LeastOfInserted(s[0], x, s[1..], rest);
      ConsAscending(s[0], rest);
      [s[0]] + rest
  }

  /** The first element of an ascending sequence is at most every element. */
  lemma LeastOfAscending(s: seq<int>)
    requires Ascending(s) && s != []
    ensures forall y :: y in s[1..] ==> s[0] <= y
    ensures Ascending(s[1..])
  {
    forall y | y in s[1..]
      ensures s[0] <= y
    {
      var k :| 0 <= k < |s[1..]| && s[1..][k] == y;
      assert s[k + 1] == y;
    }
  }

  /** An element at most the first of an ascending sequence is at most all of it. */
  lemma LeastOfAscendingAll(x: int, s: seq<int>)
    requires Ascending(s) && (s == [] || x <= s[0])
    ensures forall y :: y in s ==> x <= y
  {
    forall y | y in s
      ensures x <= y
    {
      var k :| 0 <= k < |s| && s[k] == y;
      assert s[0] <= s[k];
    }
  }

  lemma LeastOfInserted(h: int, x: int, t: seq<int>, rest: seq<int>)
    requires h < x && (forall y :: y in t ==> h <= y) && multiset(rest) == multiset(t) + multiset{x}
    ensures forall y :: y in rest ==> h <= y
  {
    forall y | y in rest
      ensures h <= y
    {
      assert y in multiset(rest);
      if y != x {
        assert y in multiset(t);
        assert y in t;
      }
    }
  }

  /** A least element before an ascending sequence keeps it ascending. */
  lemma ConsAscending(x: int, s: seq<int>)
    requires Ascending(s) && forall y :: y in s ==> x <= y
    ensures Ascending([x] + s)
  {
    var r := [x] + s;
    forall i, j | 0 <= i < j < |r|
      ensures r[i] <= r[j]
    {
      assert r[j] == s[j - 1] && s[j - 1] in s;
      if i > 0 {
        assert r[i] == s[i - 1];
      }
    }
  }

  /** The ascending sort `sort((a, b) => Number(a - b))` of the instants, as an insertion sort. */
  function SortAscending(s: seq<int>): (r: seq<int>)
    ensures Ascending(r) && multiset(r) == multiset(s)
  {
    if s == [] then []
    else
      assert s == [s[0]] + s[1..];
      Insert(s[0], SortAscending(s[1..]))
  }

  /** Sorting distinct instants orders them strictly. */
  lemma {:induction false} SortStrict(s: seq<int>)
    requires Distinct(s)
    ensures Distinct(SortAscending(s))
  {
    var r := SortAscending(s);
    forall i, j | 0 <= i < j < |r|
      ensures r[i] != r[j]
    {
      if r[i] == r[j] {
        OccursTwice(r, i, j);
        MultipleOccurrence(s, r[i]);
      }
    }
  }

  /** A value at two positions occurs at least twice in the multiset. */
  lemma OccursTwice(r: seq<int>, i: int, j: int)
    requires 0 <= i < j < |r| && r[i] == r[j]
    ensures multiset(r)[r[i]] >= 2
  {
    assert r == r[..j] + r[j..];
    assert r[i] in r[..j] && r[j] in r[j..];
    assert multiset(r) == multiset(r[..j]) + multiset(r[j..]);
  }

  /** In a duplicate-free sequence no element occurs twice. */
  lemma {:induction false} MultipleOccurrence(s: seq<int>, x: int)
    requires Distinct(s)
    ensures multiset(s)[x] <= 1
  {
    if s != [] {
      var rest := s[1..];
      assert s == [s[0]] + rest;
      assert Distinct(rest) by {
        forall i, j | 0 <= i < j < |rest|
          ensures rest[i] != rest[j]
        {
          assert rest[i] == s[i + 1] && rest[j] == s[j + 1];
        }
      }
      MultipleOccurrence(rest, x);
      if s[0] == x {
        forall i | 0 <= i < |rest|
          ensures rest[i] != x
        {
          assert rest[i] == s[i + 1];
        }
      }
    }
  }

  /** The sub-millisecond part `BigInt(microsecond) * 1000n + BigInt(nanosecond)`. */
  function SubMillis(f: Shared.Fields): int
  {
    f.microsecond * 1000 + f.nanosecond
  }

  /** `Date.UTC` of the requested fields: the wall clock read as if it were UTC. */
  function Base(f: Shared.Fields): int
  {
    EcmaTime.DateUtc(f.year, f.month - 1, f.day, f.hour, f.minute, f.second, f.millisecond)
  }

  /**
   * IanaZone `getAbsoluteFor` over given candidate offsets: each offset
   * proposes `Date.UTC(fields) - offset`, the proposals whose wall clock in
   * the zone shows the fields are kept, and the instants are sorted
   * ascending.
   */
  function AbsoluteFor(o: Zoned.ZoneOracle, f: Shared.Fields, offs: seq<int>): (r: seq<int>)
    ensures Ascending(r) && |r| <= |offs|
    ensures forall x :: x in r ==> Proposes(o, Shared.WallOf(f), Base(f), SubMillis(f), offs, x)
  {
    var c := Candidates(o, Shared.WallOf(f), Base(f), SubMillis(f), offs);
    var r := SortAscending(c);
    assert forall x :: x in r ==> x in c by {
      forall x | x in r
        ensures x in c
      {
        assert x in multiset(r);
      }
    }
    r
  }

  /** Every candidate offset whose instant shows the fields contributes that instant. */
  lemma AbsoluteForComplete(o: Zoned.ZoneOracle, f: Shared.Fields, offs: seq<int>, off: int)
    requires off in offs && o.wall(Base(f) - off) == Shared.WallOf(f)
    ensures CandidateNs(Base(f), SubMillis(f), off) in AbsoluteFor(o, f, offs)
  {
    CandidatesComplete(o, Shared.WallOf(f), Base(f), SubMillis(f), offs, off);
    var x := CandidateNs(Base(f), SubMillis(f), off);
    assert x in multiset(SortAscending(Candidates(o, Shared.WallOf(f), Base(f), SubMillis(f), offs)));
  }

  /** With distinct offsets the instants are strictly ascending. */
  lemma AbsoluteForStrict(o: Zoned.ZoneOracle, f: Shared.Fields, offs: seq<int>)
    requires Distinct(offs)
    ensures Distinct(AbsoluteFor(o, f, offs))
  {
    CandidatesDistinct(o, Shared.WallOf(f), Base(f), SubMillis(f), offs);
    SortStrict(Candidates(o, Shared.WallOf(f), Base(f), SubMillis(f), offs));
  }

  /** Two strictly ascending sequences with the same elements are equal. */
  lemma {:induction false} SortedUnique(a: seq<int>, b: seq<int>)
    requires Ascending(a) && Distinct(a) && Ascending(b) && Distinct(b)
    requires forall x :: x in a <==> x in b
    ensures a == b
  {
    assert a != [] ==> a[0] in a && a[0] in b;
    assert b != [] ==> b[0] in b && b[0] in a;
    if a != [] && b != [] {
      assert a[0] == b[0] by {
        assert a[0] in a && b[0] in b;
        var i :| 0 <= i < |b| && b[i] == a[0];
        var j :| 0 <= j < |a| && a[j] == b[0];
        assert b[0] <= b[i] && a[0] <= a[j];
      }
      var a', b' := a[1..], b[1..];
      TailsAlike(a, b);
      TailSorted(a);
      TailSorted(b);
      SortedUnique(a', b');
      assert a == [a[0]] + a' && b == [b[0]] + b';
    }
  }

  lemma TailSorted(a: seq<int>)
    requires a != [] && Ascending(a) && Distinct(a)
    ensures Ascending(a[1..]) && Distinct(a[1..])
  {
    forall i, j | 0 <= i < j < |a[1..]|
      ensures a[1..][i] <= a[1..][j] && a[1..][i] != a[1..][j]
    {
      assert a[1..][i] == a[i + 1] && a[1..][j] == a[j + 1];
    }
  }

  /** Behind a common least element, the rests have the same elements too. */
  lemma TailsAlike(a: seq<int>, b: seq<int>)
    requires a != [] && b != [] && a[0] == b[0] && Distinct(a) && Distinct(b)
    requires forall x :: x in a <==> x in b
    ensures forall x :: x in a[1..] <==> x in b[1..]
  {
    forall x
      ensures x in a[1..] ==> x in b[1..]
    {
      if x in a[1..] {
        FromTail(a, b, x);
      }
    }
    forall x
      ensures x in b[1..] ==> x in a[1..]
    {
      if x in b[1..] {
        FromTail(b, a, x);
      }
    }
  }

  lemma FromTail(a: seq<int>, b: seq<int>, x: int)
    requires a != [] && b != [] && a[0] == b[0] && Distinct(a) && x in a[1..] && x in b
    ensures x in b[1..]
  {
    var k :| 0 <= k < |a[1..]| && a[1..][k] == x;
    assert a[k + 1] == x && x != a[0];
    var m :| 0 <= m < |b| && b[m] == x;
    assert m != 0;
    assert b[1..][m - 1] == x;
  }

  /**
   * The order of the candidate offsets does not matter: the lexicographic
   * `sort()` that getAbsoluteFor applies to them before proposing the instants
   * leaves the result as it is.
   */
  lemma AbsoluteForOrderFree(o: Zoned.ZoneOracle, f: Shared.Fields, offs: seq<int>, offs': seq<int>)
    requires Distinct(offs) && Distinct(offs') && forall x :: x in offs <==> x in offs'
    ensures AbsoluteFor(o, f, offs) == AbsoluteFor(o, f, offs')
  {
    var a, b := AbsoluteFor(o, f, offs), AbsoluteFor(o, f, offs');
    AbsoluteForStrict(o, f, offs);
    AbsoluteForStrict(o, f, offs');
    forall x
      ensures x in a <==> x in b
    {
      if x in a {
        var off :| off in offs && o.wall(Base(f) - off) == Shared.WallOf(f) && x == CandidateNs(Base(f), SubMillis(f), off);
        AbsoluteForComplete(o, f, offs', off);
      }
      if x in b {
        var off :| off in offs' && o.wall(Base(f) - off) == Shared.WallOf(f) && x == CandidateNs(Base(f), SubMillis(f), off);
        AbsoluteForComplete(o, f, offs, off);
      }
    }
    SortedUnique(a, b);
  }

  /** IanaZone `getAbsoluteFor(datetime)`, with the offsets of the probes of its year. */
  function GetAbsoluteFor(o: Zoned.ZoneOracle, f: Shared.Fields, probes: seq<int>): (r: seq<int>)
    ensures Ascending(r) && Distinct(r)
    ensures |r| <= |FirstSeen(ProbeValues(o, probes))| <= |probes|
    ensures forall x :: x in r ==> Proposes(o, Shared.WallOf(f), Base(f), SubMillis(f), ProbeValues(o, probes), x)
  {
    var offs := FirstSeen(ProbeValues(o, probes));
    AbsoluteForStrict(o, f, offs);
    AbsoluteFor(o, f, offs)
  }

  /** An instant is found exactly when some probe's offset proposes it and its wall clock shows the fields. */
  lemma GetAbsoluteForExact(o: Zoned.ZoneOracle, f: Shared.Fields, probes: seq<int>, off: int)
    requires off in ProbeValues(o, probes) && o.wall(Base(f) - off) == Shared.WallOf(f)
    ensures CandidateNs(Base(f), SubMillis(f), off) in GetAbsoluteFor(o, f, probes)
  {
    AbsoluteForComplete(o, f, FirstSeen(ProbeValues(o, probes)), off);
  }

  /** IanaZone `getOffsetsInYear`: the offset strings of the distinct probe offsets. */
  function IanaOffsetsInYear(o: Zoned.ZoneOracle, probes: seq<int>): (r: seq<string>)
    ensures var offs := FirstSeen(ProbeValues(o, probes));
      |r| == |offs| && forall i :: 0 <= i < |r| ==> r[i] == Shared.MakeOffsetString(offs[i])
  {
    var offs := FirstSeen(ProbeValues(o, probes));
    seq(|offs|, i requires 0 <= i < |offs| => Shared.MakeOffsetString(offs[i]))
  }

  // bisect and getTransitionsInYear

  /**
   * `bisect(getState, left, right, lstate, rstate)`: halve [left, right]
   * at `Math.ceil((left + right) / 2)`, moved below right when it reaches
   * it, keeping the half whose ends have different states; an interval of
   * width below 2 gives right, and a middle in neither state an Error.
   */
  function Bisect(state: int -> string, left: int, right: int, lstate: string, rstate: string): (r: Result<int>)
    ensures r.Throw? ==> r.exc == Error
    ensures r.Ok? && left < right ==> left < r.value <= right
    decreases right - left
  {
    if right - left < 2 then Ok(right)
    else
      var ceil := (left + right + 1) / 2;
      var middle := if ceil == right then ceil - 1 else ceil;
      var mstate := state(middle);
      if mstate == lstate then Bisect(state, middle, right, mstate, rstate)
      else if mstate == rstate then Bisect(state, left, middle, lstate, mstate)
      else Throw(Error)
  }

  /** A bisection that succeeds ends on a change of state: r in rstate, r - 1 in lstate. */
  lemma {:induction false} BisectFindsChange(state: int -> string, left: int, right: int, lstate: string, rstate: string)
    requires left < right && state(left) == lstate && state(right) == rstate
    ensures var r := Bisect(state, left, right, lstate, rstate);
      r.Ok? ==> state(r.value) == rstate && state(r.value - 1) == lstate
    decreases right - left
  {
    if right - left >= 2 {
      var ceil := (left + right + 1) / 2;
      var middle := if ceil == right then ceil - 1 else ceil;
      if state(middle) == lstate {
        BisectFindsChange(state, middle, right, lstate, rstate);
      } else if state(middle) == rstate {
        BisectFindsChange(state, left, middle, lstate, rstate);
      }
    }
  }

  /** Over a single step from lstate to rstate at c, the bisection succeeds and finds c. */
  lemma {:induction false} BisectFindsStep(state: int -> string, left: int, right: int, lstate: string, rstate: string, c: int)
    requires left < c <= right && lstate != rstate
    requires forall x :: left <= x <= right ==> state(x) == if x < c then lstate else rstate
    ensures Bisect(state, left, right, lstate, rstate) == Ok(c)
    decreases right - left
  {
    if right - left >= 2 {
      var ceil := (left + right + 1) / 2;
      var middle := if ceil == right then ceil - 1 else ceil;
      if middle < c {
        BisectFindsStep(state, middle, right, lstate, rstate, c);
      } else {
        BisectFindsStep(state, left, middle, lstate, rstate, c);
      }
    }
  }

  /** `TRANSSEGMENTS`. */
  const TransSegments := 27

  /** The entries pushed onto the result: `trans.push(new Absolute(...), this.name)` pushes an instant and then the name. */
  datatype Entry = At(ns: int) | ZoneName(name: string)

  /** The probe points: 27 steps of `length / 27n` from start, then the end, each in whole milliseconds. */
  function Points(start: int, end: int): (p: seq<int>)
    ensures |p| == TransSegments + 1 && p[0] == Quot(start, 1000000) && p[TransSegments] == Quot(end, 1000000)
  {
    var step := Quot(end - start, TransSegments);
    seq(TransSegments, i => Quot(start + i * step, 1000000)) + [Quot(end, 1000000)]
  }

  /** Truncating division by 10^6 is monotone. */
  lemma QuotMonotone(a: int, b: int)
    requires a <= b
    ensures Quot(a, 1000000) <= Quot(b, 1000000)
  {
    if a >= 0 {
      assert a / 1000000 <= b / 1000000;
    } else if b <= 0 {
      assert (-b) / 1000000 <= (-a) / 1000000;
    } else {
      assert (-a) / 1000000 >= 0 && b / 1000000 >= 0;
    }
  }

  lemma MulMonotone(d: int, x: int, y: int)
    requires d >= 0 && x <= y
    ensures x * d <= y * d
  {
    assert y * d - x * d == (y - x) * d;
  }

  /** When the year ends no earlier than it starts, the probe points ascend. */
  lemma PointsAscending(start: int, end: int)
    requires start <= end
    ensures Ascending(Points(start, end))
  {
    var p := Points(start, end);
    var step := Quot(end - start, TransSegments);
    QuotOfNonNegative(end - start, TransSegments);
    assert 0 <= step && TransSegments * step <= end - start;
    forall i, j | 0 <= i < j < |p|
      ensures p[i] <= p[j]
    {
      MulMonotone(step, i, TransSegments);
      if j < TransSegments {
        MulMonotone(step, i, j);
        assert p[i] == Quot(start + i * step, 1000000) && p[j] == Quot(start + j * step, 1000000);
        QuotMonotone(start + i * step, start + j * step);
      } else {
        assert p[i] == Quot(start + i * step, 1000000);
        QuotMonotone(start + i * step, end);
      }
    }
  }

  /** `getOffset(value)`: the offset string timeparts gives at epoch milliseconds value. */
  function OffsetState(o: Zoned.ZoneOracle): int -> string
  {
    x => Timeparts(o, x).offset
  }

  /**
   * The entries the `forEach` has pushed after visiting the first n probe
   * points: for each adjacent pair whose offsets differ, the instant bisect
   * finds and the zone name; a bisection that throws ends the call.
   */
  function Transitions(state: int -> string, name: string, points: seq<int>, n: nat): Result<seq<Entry>>
    requires n <= |points|
  {
    if n <= 1 then Ok([])
    else
      var prev :- Transitions(state, name, points, n - 1);
      var left, right := points[n - 2], points[n - 1];
      if state(left) != state(right) then
        var ms :- Bisect(state, left, right, state(left), state(right));
        Ok(prev + [At(ms * 1000000), ZoneName(name)])
      else Ok(prev)
  }

  /** Once a bisection has thrown, the later pairs are not visited. */
  lemma {:induction false} TransitionsThrowStays(state: int -> string, name: string, points: seq<int>, n: nat, m: nat)
    requires n <= m <= |points| && Transitions(state, name, points, n).Throw?
    ensures Transitions(state, name, points, m) == Transitions(state, name, points, n)
    decreases m
  {
    if m > n {
      TransitionsThrowStays(state, name, points, n, m - 1);
    }
  }

  /**
   * The shape of the result: instants at even positions, each followed by
   * the zone name; each instant a whole millisecond in (lo, hi] at which the
   * state changes; the instants strictly ascending.
   */
  predicate TransitionList(state: int -> string, name: string, r: seq<Entry>, lo: int, hi: int)
  {
    && |r| % 2 == 0
    && (forall i :: 0 <= i < |r| ==> (r[i].At? <==> i % 2 == 0) && (i % 2 == 1 ==> r[i] == ZoneName(name)))
    && (forall i :: 0 <= i < |r| && r[i].At? ==> IsTransition(state, r[i].ns, lo, hi))
    && forall i, j :: 0 <= i < j < |r| && r[i].At? && r[j].At? ==> r[i].ns < r[j].ns
  }

  /** ns is a whole millisecond ms in (lo, hi] whose state differs from that of ms - 1. */
  predicate IsTransition(state: int -> string, ns: int, lo: int, hi: int)
  {
    ns % 1000000 == 0 && lo < ns / 1000000 <= hi && state(ns / 1000000) != state(ns / 1000000 - 1)
  }

  /**
   * Over ascending probe points, every instant found is a change of the
   * oracle's offset after the first point and no later than the n-th,
   * in ascending order, each followed by the zone name.
   */
  lemma {:induction false} TransitionsAscend(state: int -> string, name: string, points: seq<int>, n: nat)
    requires 1 <= n <= |points| && Ascending(points)
    ensures var r := Transitions(state, name, points, n);
      r.Ok? ==> TransitionList(state, name, r.value, points[0], points[n - 1])
    ensures Transitions(state, name, points, n).Throw? ==> Transitions(state, name, points, n).exc == Error
  {
    if n > 1 {
      TransitionsAscend(state, name, points, n - 1);
      var left, right := points[n - 2], points[n - 1];
      var pr := Transitions(state, name, points, n - 1);
      if pr.Ok? && state(left) != state(right) {
        var b := Bisect(state, left, right, state(left), state(right));
        if b.Ok? {
          assert left != right;
          assert points[0] <= left && left < right;
          BisectFindsChange(state, left, right, state(left), state(right));
          Extend(state, name, pr.value, b.value, points[0], left, right);
        }
      }
    }
  }

  lemma Extend(state: int -> string, name: string, prev: seq<Entry>, ms: int, lo: int, mid: int, hi: int)
    requires TransitionList(state, name, prev, lo, mid) && lo <= mid < ms <= hi && state(ms) != state(ms - 1)
    ensures TransitionList(state, name, prev + [At(ms * 1000000), ZoneName(name)], lo, hi)
  {
    var r := prev + [At(ms * 1000000), ZoneName(name)];
    assert (ms * 1000000) / 1000000 == ms && (ms * 1000000) % 1000000 == 0;
    forall i | 0 <= i < |prev| && prev[i].At?
      ensures prev[i].ns < ms * 1000000
    {
      assert IsTransition(state, prev[i].ns, lo, mid);
      var q := prev[i].ns / 1000000;
      assert prev[i].ns == q * 1000000;
      MulMonotone(1000000, q, ms - 1);
    }
    forall i | 0 <= i < |r|
      ensures (r[i].At? <==> i % 2 == 0) && (i % 2 == 1 ==> r[i] == ZoneName(name))
      ensures r[i].At? ==> IsTransition(state, r[i].ns, lo, hi)
    {
      if i < |prev| {
        assert r[i] == prev[i];
      }
    }
  }

  /** The first and last instants of the year: `new DateTime(year, 1, 1, 0, 0)` and the last nanosecond of 31 December. */
  function YearStart(year: int): Shared.Fields
  {
    Shared.Fields(year, 1, 1, 0, 0, 0, 0, 0, 0)
  }

  function YearEnd(year: int): Shared.Fields
  {
    Shared.Fields(year, 12, 31, 23, 59, 59, 999, 999, 999)
  }

  /**
   * What IanaZone `getTransitionsInYear(year)` returns: a TypeError when the
   * first or last instant of the year cannot be found (the `shift()` or
   * `pop()` of an empty list is undefined), otherwise the transitions over
   * the probe points between them.
   */
  function TransitionsInYearSpec(o: Zoned.ZoneOracle, year: int, probes: seq<int>): Result<seq<Entry>>
  {
    var offs := FirstSeen(ProbeValues(o, probes));
    TransitionsBetween(o, AbsoluteFor(o, YearStart(year), offs), AbsoluteFor(o, YearEnd(year), offs))
  }

  function TransitionsBetween(o: Zoned.ZoneOracle, starts: seq<int>, ends: seq<int>): Result<seq<Entry>>
  {
    if starts == [] || ends == [] then Throw(TypeError)
    else Transitions(OffsetState(o), o.name, Points(starts[0], ends[|ends| - 1]), TransSegments + 1)
  }

  /** IanaZone `getTransitionsInYear(year)`, the `forEach` over the probe points as a loop. */
  method TransitionsInYear(o: Zoned.ZoneOracle, year: int, probes: seq<int>) returns (r: Result<seq<Entry>>)
    ensures r == TransitionsInYearSpec(o, year, probes)
  {
    var offs := ProbeOffsets(o, probes);
    var starts := AbsoluteFor(o, YearStart(year), offs);
    var ends := AbsoluteFor(o, YearEnd(year), offs);
    r := TransitionsOver(o, starts, ends);
  }

  /** The part of `getTransitionsInYear` after the two `getAbsoluteFor` calls. */
  method TransitionsOver(o: Zoned.ZoneOracle, starts: seq<int>, ends: seq<int>) returns (r: Result<seq<Entry>>)
    ensures r == TransitionsBetween(o, starts, ends)
  {
    if starts == [] || ends == [] {
      return Throw(TypeError);
    }
    r := Visit(OffsetState(o), o.name, Points(starts[0], ends[|ends| - 1]));
  }

  /** The `points.forEach(...)` loop: bisect each adjacent pair whose states differ. */
  method Visit(state: int -> string, name: string, points: seq<int>) returns (r: Result<seq<Entry>>)
    requires |points| >= 1
    ensures r == Transitions(state, name, points, |points|)
  {
    var trans: seq<Entry> := [];
    var idx := 1;
    while idx < |points|
      invariant 1 <= idx <= |points|
      invariant Transitions(state, name, points, idx) == Ok(trans)
    {
      var left := points[idx - 1];
      var right := points[idx];
      var offset := state(right);
      if state(left) != offset {
        var epochMillis := Bisect(state, left, right, state(left), offset);
        if epochMillis.Throw? {
          assert Transitions(state, name, points, idx + 1) == Throw(epochMillis.exc);
          TransitionsThrowStays(state, name, points, idx + 1, |points|);
          return Throw(epochMillis.exc);
        }
        trans := trans + [At(epochMillis.value * 1000000), ZoneName(name)];
      }
      idx := idx + 1;
    }
    return Ok(trans);
  }

  /**
   * When the first instant of the year precedes its last, the transitions
   * are changes of offset within the probe range, ascending, each followed
   * by the zone name; the call fails only with the Error of a bisection.
   */
  lemma TransitionsBetweenSound(o: Zoned.ZoneOracle, starts: seq<int>, ends: seq<int>)
    requires starts != [] && ends != [] && starts[0] <= ends[|ends| - 1]
    ensures var r := TransitionsBetween(o, starts, ends);
      (r.Ok? ==> TransitionList(OffsetState(o), o.name, r.value, Quot(starts[0], 1000000), Quot(ends[|ends| - 1], 1000000)))
      && (r.Throw? ==> r.exc == Error)
  {
    var points := Points(starts[0], ends[|ends| - 1]);
    PointsAscending(starts[0], ends[|ends| - 1]);
    TransitionsAscend(OffsetState(o), o.name, points, TransSegments + 1);
  }

  // A zone a whole number of seconds from UTC, before and after 1970

  /** The requested fields name a real UTC instant outside the years 0..99. */
  predicate ValidFields(f: Shared.Fields)
  {
    EcmaTime.ValidUtc(UtcOf(f)) && !(0 <= f.year <= 99)
  }

  function UtcOf(f: Shared.Fields): EcmaTime.UtcFields
  {
    EcmaTime.UtcFields(f.year, f.month - 1, f.day, f.hour, f.minute, f.second, f.millisecond)
  }

  /** Probes whose instants k milliseconds later lie outside the years 0..99. */
  predicate ProbesOutside99(k: int, probes: seq<int>)
  {
    forall i :: 0 <= i < |probes| ==> !(0 <= EcmaTime.Utc(probes[i] + k).year <= 99)
  }

  /**
   * timeparts in a zone k whole seconds ahead of UTC: offset k, except at
   * a whole second before 1970, where the millisecond 1000 makes it k + 1000.
   */
  lemma FixedTimeparts(k: int, name: string, ms: int, t: int)
    requires k % 1000 == 0 && t == ms + k && !(0 <= EcmaTime.Utc(t).year <= 99)
    ensures Timeparts(Zoned.FixedZone(k, name), ms).offsetMilliseconds == if ms < 0 && ms % 1000 == 0 then k + 1000 else k
  {
    var u := Zoned.FixedWall(k, ms, t);
    assert Zoned.FixedZone(k, name).wall(ms) == Zoned.UtcWall(t);
    Zoned.OffsetOfWall(u, t, PartsMillisecond(ms), ms);
  }

  /** The probe offsets in a zone k whole seconds ahead of UTC. */
  lemma FixedProbeValues(k: int, name: string, probes: seq<int>)
    requires k % 1000 == 0 && ProbesOutside99(k, probes)
    ensures forall i :: 0 <= i < |probes| ==>
      ProbeValues(Zoned.FixedZone(k, name), probes)[i] == if probes[i] < 0 && probes[i] % 1000 == 0 then k + 1000 else k
  {
    forall i | 0 <= i < |probes|
      ensures ProbeValues(Zoned.FixedZone(k, name), probes)[i] == if probes[i] < 0 && probes[i] % 1000 == 0 then k + 1000 else k
    {
      FixedProbeValue(k, name, probes, i);
    }
  }

  lemma FixedProbeValue(k: int, name: string, probes: seq<int>, i: int)
    requires k % 1000 == 0 && 0 <= i < |probes| && !(0 <= EcmaTime.Utc(probes[i] + k).year <= 99)
    ensures ProbeValues(Zoned.FixedZone(k, name), probes)[i] == if probes[i] < 0 && probes[i] % 1000 == 0 then k + 1000 else k
  {
    FixedTimeparts(k, name, probes[i], probes[i] + k);
  }

  /** With the intended millisecond every probe offset in that zone is k. */
  lemma FixedProbeValuesIntended(k: int, name: string, probes: seq<int>)
    requires k % 1000 == 0 && ProbesOutside99(k, probes)
    ensures forall i :: 0 <= i < |probes| ==> ProbeValuesIntended(Zoned.FixedZone(k, name), probes)[i] == k
  {
    forall i | 0 <= i < |probes|
      ensures ProbeValuesIntended(Zoned.FixedZone(k, name), probes)[i] == k
    {
      FixedProbeValueIntended(k, name, probes, i);
    }
  }

  lemma FixedProbeValueIntended(k: int, name: string, probes: seq<int>, i: int)
    requires k % 1000 == 0 && 0 <= i < |probes| && !(0 <= EcmaTime.Utc(probes[i] + k).year <= 99)
    ensures ProbeValuesIntended(Zoned.FixedZone(k, name), probes)[i] == k
  {
    Zoned.FixedZoneOffsetIntended(k, probes[i], probes[i] + k, name);
  }

  /** A single candidate offset. */
  lemma CandidatesSingle(o: Zoned.ZoneOracle, w: Shared.WallClock, base: int, sub: int, off: int)
    ensures Candidates(o, w, base, sub, [off]) == if o.wall(base - off) == w then [CandidateNs(base, sub, off)] else []
  {
    assert [off][1..] == [];
  }

  /** The offsets of probes that all give the same value v. */
  lemma FirstSeenConstant(xs: seq<int>, v: int)
    requires |xs| > 0 && forall i :: 0 <= i < |xs| ==> xs[i] == v
    ensures FirstSeen(xs) == [v]
  {
    var r := FirstSeen(xs);
    assert xs[0] in xs;
    forall x | x in r
      ensures x == v
    {
      var i :| 0 <= i < |xs| && xs[i] == x;
    }
  }

  /** The fields' own instant shows them again on the UTC wall clock, once shifted by the zone's offset. */
  lemma WallOfBase(k: int, name: string, f: Shared.Fields, t: int)
    requires ValidFields(f) && t + k == Base(f)
    ensures Zoned.FixedZone(k, name).wall(t) == Shared.WallOf(f)
  {
    UtcWallOfBase(f, t + k);
    FixedZoneWall(k, name, t);
  }

  /** The wall clock of the fixed zone at t is the UTC wall clock at t + k. */
  lemma FixedZoneWall(k: int, name: string, t: int)
    ensures Zoned.FixedZone(k, name).wall(t) == Zoned.UtcWall(t + k)
  {
    var o := Zoned.FixedZone(k, name);
    assert o == Zoned.ZoneOracle(o.wall, name);
  }

  lemma UtcWallOfBase(f: Shared.Fields, b: int)
    requires ValidFields(f) && b == Base(f)
    ensures Zoned.UtcWall(b) == Shared.WallOf(f)
  {
    EcmaTime.UtcOfDateUtc(UtcOf(f));
  }

  /** One second earlier the wall clock shows another second. */
  lemma WallOfBaseEarlier(k: int, name: string, f: Shared.Fields, t: int)
    requires ValidFields(f) && t + k + 1000 == Base(f)
    ensures Zoned.FixedZone(k, name).wall(t) != Shared.WallOf(f)
  {
    SecondBefore(Base(f), t + k);
    EcmaTime.UtcOfDateUtc(UtcOf(f));
    FixedZoneWall(k, name, t);
  }

  lemma SecondBefore(b: int, c: int)
    requires c + 1000 == b
    ensures EcmaTime.Utc(c).seconds != EcmaTime.Utc(b).seconds
  {
    UtcSeconds(b);
    UtcSeconds(c);
    SecondsDiffer(b, c, b / 1000);
  }

  lemma SecondsDiffer(b: int, c: int, q: int)
    requires q == b / 1000 && c + 1000 == b
    ensures (c / 1000) % 60 != q % 60
  {
    assert c / 1000 == q - 1;
  }

  lemma UtcSeconds(t: int)
    ensures EcmaTime.Utc(t).seconds == (t / 1000) % 60
  {
  }

  /**
   * Away from whole seconds before 1970, getAbsoluteFor in a zone k whole
   * seconds ahead of UTC finds exactly the instant `Date.UTC(fields) - k`.
   */
  lemma FixedAbsoluteFor(k: int, name: string, f: Shared.Fields, probes: seq<int>)
    requires k % 1000 == 0 && ValidFields(f) && |probes| > 0 && ProbesOutside99(k, probes)
    requires forall i :: 0 <= i < |probes| ==> !(probes[i] < 0 && probes[i] % 1000 == 0)
    ensures GetAbsoluteFor(Zoned.FixedZone(k, name), f, probes) == [CandidateNs(Base(f), SubMillis(f), k)]
  {
    var o := Zoned.FixedZone(k, name);
    assert FirstSeen(ProbeValues(o, probes)) == [k] by {
      assert forall i :: 0 <= i < |probes| ==> ProbeValues(o, probes)[i] == k by {
        FixedProbeValues(k, name, probes);
      }
      FirstSeenConstant(ProbeValues(o, probes), k);
    }
    SingleCandidate(k, name, f);
  }

  /**
   * When every probe is a whole second before 1970, as the probes of any
   * year before 1970 are, getAbsoluteFor finds nothing: each probe's offset
   * is one second too large, and the proposed instant shows the second
   * before the requested one. In UTC no wall clock before 1970 has an
   * instant.
   */
  lemma FixedAbsoluteForBeforeEpoch(k: int, name: string, f: Shared.Fields, probes: seq<int>)
    requires k % 1000 == 0 && ValidFields(f) && |probes| > 0 && ProbesOutside99(k, probes)
    requires forall i :: 0 <= i < |probes| ==> probes[i] < 0 && probes[i] % 1000 == 0
    ensures GetAbsoluteFor(Zoned.FixedZone(k, name), f, probes) == []
  {
    FixedOffsetsBeforeEpoch(k, name, probes);
    NoCandidateBeforeEpoch(k, name, f);
  }

  /** Every probe on a whole second before 1970 gives the one offset k + 1000. */
  lemma FixedOffsetsBeforeEpoch(k: int, name: string, probes: seq<int>)
    requires k % 1000 == 0 && |probes| > 0 && ProbesOutside99(k, probes)
    requires forall i :: 0 <= i < |probes| ==> probes[i] < 0 && probes[i] % 1000 == 0
    ensures FirstSeen(ProbeValues(Zoned.FixedZone(k, name), probes)) == [k + 1000]
  {
    var o := Zoned.FixedZone(k, name);
    assert forall i :: 0 <= i < |probes| ==> ProbeValues(o, probes)[i] == k + 1000 by {
      FixedProbeValues(k, name, probes);
    }
    FirstSeenConstant(ProbeValues(o, probes), k + 1000);
  }

  /** The offset k + 1000 proposes nothing. */
  lemma NoCandidateBeforeEpoch(k: int, name: string, f: Shared.Fields)
    requires ValidFields(f)
    ensures AbsoluteFor(Zoned.FixedZone(k, name), f, [k + 1000]) == []
  {
    var o := Zoned.FixedZone(k, name);
    WallOfBaseEarlier(k, name, f, Base(f) - (k + 1000));
    CandidatesSingle(o, Shared.WallOf(f), Base(f), SubMillis(f), k + 1000);
  }

  /** The offsets of the probes with the millisecond `ms % 1000` taken as the non-negative remainder. */
  function ProbeValuesIntended(o: Zoned.ZoneOracle, probes: seq<int>): (r: seq<int>)
    ensures |r| == |probes|
    ensures forall i :: 0 <= i < |probes| ==> r[i] == Zoned.ZoneOffsetIntended(o, probes[i])
  {
    seq(|probes|, i requires 0 <= i < |probes| => Zoned.ZoneOffsetIntended(o, probes[i]))
  }

  /** getAbsoluteFor with the offsets of the intended millisecond. */
  function GetAbsoluteForIntended(o: Zoned.ZoneOracle, f: Shared.Fields, probes: seq<int>): (r: seq<int>)
    ensures Ascending(r) && Distinct(r)
    ensures forall x :: x in r ==> Proposes(o, Shared.WallOf(f), Base(f), SubMillis(f), FirstSeen(ProbeValuesIntended(o, probes)), x)
  {
    var offs := FirstSeen(ProbeValuesIntended(o, probes));
    AbsoluteForStrict(o, f, offs);
    AbsoluteFor(o, f, offs)
  }

  /** With the intended millisecond a zone k whole seconds ahead of UTC finds `Date.UTC(fields) - k` before 1970 too. */
  lemma FixedAbsoluteForIntended(k: int, name: string, f: Shared.Fields, probes: seq<int>)
    requires k % 1000 == 0 && ValidFields(f) && |probes| > 0 && ProbesOutside99(k, probes)
    ensures GetAbsoluteForIntended(Zoned.FixedZone(k, name), f, probes) == [CandidateNs(Base(f), SubMillis(f), k)]
  {
    var o := Zoned.FixedZone(k, name);
    assert FirstSeen(ProbeValuesIntended(o, probes)) == [k] by {
      FixedProbeValuesIntended(k, name, probes);
      FirstSeenConstant(ProbeValuesIntended(o, probes), k);
    }
    SingleCandidate(k, name, f);
  }

  /** The one offset k proposes the one instant. */
  lemma SingleCandidate(k: int, name: string, f: Shared.Fields)
    requires ValidFields(f)
    ensures AbsoluteFor(Zoned.FixedZone(k, name), f, [k]) == [CandidateNs(Base(f), SubMillis(f), k)]
  {
    var o := Zoned.FixedZone(k, name);
    assert Candidates(o, Shared.WallOf(f), Base(f), SubMillis(f), [k]) == [CandidateNs(Base(f), SubMillis(f), k)] by {
      WallOfBase(k, name, f, Base(f) - k);
      CandidatesSingle(o, Shared.WallOf(f), Base(f), SubMillis(f), k);
    }
    var x := CandidateNs(Base(f), SubMillis(f), k);
    assert SortAscending([x]) == Insert(x, SortAscending([]));
  }

}
