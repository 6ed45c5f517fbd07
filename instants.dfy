/**
 * lib/instant.mjs: an instant kept as whole milliseconds since 1970 plus a
 * sub-millisecond nanosecond count, built from a BigInt number of
 * nanoseconds, printed through `Date.prototype.toISOString` with six more
 * fraction digits and read back from exactly that layout.
 */
module Instants {
  import opened Js
  import Text
  import EcmaTime
  import Shared
  import Iso
  import Utils

  /** The argument of `new Instant(n)` and of `fromMicroseconds`: a BigInt, or a value of any other type. */
  datatype Arg = BigInt(n: int) | NotBigInt

  /** The DATA record: milliseconds since 1970 and the nanoseconds beyond them. */
  datatype Instant = Instant(milliseconds: int, nanoseconds: int)

  /**
   * `new Instant(nanos)`: a TypeError unless nanos is a BigInt; otherwise the
   * BigInt quotient and remainder by 10^6, both rounded toward zero, so the
   * remainder carries the sign of nanos.
   */
  function New(nanos: Arg): (r: Result<Instant>)
    ensures r.Throw? <==> nanos.NotBigInt?
    ensures r.Throw? ==> r.exc == TypeError
    ensures r.Ok? ==> Nanoseconds(r.value) == nanos.n && Abs(r.value.nanoseconds) < 1000000
    ensures r.Ok? ==> (nanos.n >= 0 <==> r.value.nanoseconds >= 0 && r.value.milliseconds >= 0)
  {
    if nanos.NotBigInt? then Throw(TypeError)
    else
      QuotRem(nanos.n, 1000000);
      Ok(Instant(Quot(nanos.n, 1000000), Rem(nanos.n, 1000000)))
  }

  /** The `seconds` getter: `Math.floor(milliseconds / 1e3)`. */
  function Seconds(i: Instant): (s: int)
    ensures 1000 * s <= i.milliseconds < 1000 * s + 1000
  {
    i.milliseconds / 1000
  }

  /** The `nanoseconds` getter: the two DATA parts recombined as BigInts. */
  function Nanoseconds(i: Instant): int
  {
    i.milliseconds * 1000000 + i.nanoseconds
  }

  /** The `microseconds` getter: the BigInt quotient of the nanoseconds by 1000, rounded toward zero. */
  function Microseconds(i: Instant): (m: int)
    ensures Abs(m) == Abs(Nanoseconds(i)) / 1000
    ensures m >= 0 <==> Nanoseconds(i) > -1000
  {
    QuotRem(Nanoseconds(i), 1000);
    Quot(Nanoseconds(i), 1000)
  }

  /** The getters of `new Instant(n)`: the nanoseconds are n, the others n's truncated or floored quotients. */
  lemma GettersOfNew(n: int)
    ensures var i := New(BigInt(n)).value;
      && Nanoseconds(i) == n
      && i.milliseconds == Quot(n, 1000000)
      && Microseconds(i) == Quot(n, 1000)
      && Seconds(i) == Quot(n, 1000000) / 1000
  {
  }

  /** The getters of `new Instant(217178610450000100n)`. */
  lemma GettersExample()
    ensures var i := New(BigInt(217178610450000100)).value;
      && Seconds(i) == 217178610 && i.milliseconds == 217178610450
      && Microseconds(i) == 217178610450000 && Nanoseconds(i) == 217178610450000100
  {
    GettersOfNew(217178610450000100);
  }

  /** `Instant.fromNanoseconds(n)`, which is `new Instant(n)`. */
  function FromNanoseconds(nanos: Arg): (r: Result<Instant>)
    ensures r.Throw? <==> nanos.NotBigInt?
    ensures r.Ok? ==> Nanoseconds(r.value) == nanos.n
  {
    New(nanos)
  }

  /** `Instant.fromMicroseconds(m)`: `m * 1000n`, a TypeError unless m is a BigInt, then the constructor. */
  function FromMicroseconds(micros: Arg): (r: Result<Instant>)
    ensures r.Throw? <==> micros.NotBigInt?
    ensures r.Throw? ==> r.exc == TypeError
    ensures r.Ok? ==> Nanoseconds(r.value) == micros.n * 1000 && Microseconds(r.value) == micros.n
  {
    if micros.NotBigInt? then Throw(TypeError)
    else
      QuotOfMultiple(micros.n, 1000);
      New(BigInt(micros.n * 1000))
  }

  /** The truncating quotient of a multiple is the factor. */
  lemma QuotOfMultiple(a: int, b: int)
    requires b > 0
    ensures Quot(a * b, b) == a && Rem(a * b, b) == 0
  {
    if a >= 0 {
      DivModUnique(a * b, b, a, 0);
    } else {
      DivModUnique(-(a * b), b, -a, 0);
    }
  }

  /** `Instant.fromMilliseconds(x)`: milliseconds `number(x)` and no sub-millisecond part. */
  function FromMilliseconds(millis: Utils.Value): (r: Result<Instant>)
    ensures r.Throw? <==> Utils.ToNumber(millis).NaN?
    ensures r.Ok? ==> r.value.milliseconds == Utils.ToNumber(millis).v && r.value.nanoseconds == 0
    ensures r.Ok? ==> Nanoseconds(r.value) == Utils.ToNumber(millis).v * 1000000
  {
    var ms :- Utils.Number(millis);
    Ok(Instant(ms, 0))
  }

  /** `Instant.fromSeconds(s)`: `fromMilliseconds(number(s) * 1000)`. */
  function FromSeconds(seconds: Utils.Value): (r: Result<Instant>)
    ensures r.Throw? <==> Utils.ToNumber(seconds).NaN?
    ensures r.Ok? ==> Seconds(r.value) == Utils.ToNumber(seconds).v
    ensures r.Ok? ==> Nanoseconds(r.value) == Utils.ToNumber(seconds).v * 1000000000
  {
    var s :- Utils.Number(seconds);
    FromMilliseconds(Utils.NumberValue(Fin(s * 1000)))
  }

  /** `Instant.fromSeconds` of an integer's decimal text is that many seconds after the epoch. */
  lemma FromSecondsOfText(n: int)
    ensures FromSeconds(Utils.Str(Text.IntToString(n))).Ok?
    ensures Seconds(FromSeconds(Utils.Str(Text.IntToString(n))).value) == n
  {
    Utils.StringToNumberOfText(n);
  }

  // toString: Date.prototype.toISOString with six more fraction digits

  /** The largest time value a Date holds (section 21.4.1.31 of ECMA-262, TimeClip). */
  const MaxTime: int := 8640000000000000

  /** The year as the date-time string format writes it: four digits in 0..9999, otherwise a sign and six digits. */
  function IsoYear(y: int): (r: string)
    ensures 0 <= y <= 9999 ==> r == Shared.Pad(y, 4) && |r| == 4
  {
    if 0 <= y <= 9999 then Iso.Pow10Small(); Iso.PadWidth(y, 4); Shared.Pad(y, 4)
    else (if y < 0 then "-" else "+") + Shared.Pad(y, 6)
  }

  /** `YYYY-MM-DDTHH:mm:ss.sss` of the UTC getters u. */
  function Stamp(u: EcmaTime.UtcFields): string
  {
    IsoYear(u.year) + "-" + Shared.Pad(u.month + 1, 2) + "-" + Shared.Pad(u.date, 2) + "T"
      + Shared.Pad(u.hours, 2) + ":" + Shared.Pad(u.minutes, 2) + ":" + Shared.Pad(u.seconds, 2)
      + "." + Shared.Pad(u.ms, 3)
  }

  /** `new Date(t).toISOString()`: a RangeError once t is outside the Date range, otherwise the stamp and 'Z'. */
  function DateISOString(t: int): (r: Result<string>)
    ensures r.Throw? <==> Abs(t) > MaxTime
    ensures r.Throw? ==> r.exc == RangeError
    ensures r.Ok? ==> EndsWithMillis(r.value)
  {
    if Abs(t) > MaxTime then Throw(RangeError)
    else
      var u := EcmaTime.Utc(t);
      Iso.Pow10Small();
      Iso.PadWidth(u.ms, 3);
      var s := Stamp(u) + "Z";
      assert s[|s| - 4..|s| - 1] == Shared.Pad(u.ms, 3);
      Ok(s)
  }

  /** The text ends as `/\.(\d{3})Z$/` demands: a dot, three digits and 'Z'. */
  predicate EndsWithMillis(s: string)
  {
    |s| >= 5 && s[|s| - 5] == '.' && Text.IsDigits(s[|s| - 4..|s| - 1]) && s[|s| - 1] == 'Z'
  }

  /** `iso.replace(/\.(\d{3})Z$/, '.$1' + pad(ns, 6) + 'Z')`. */
  function ReplaceMillis(iso: string, ns: int): (r: string)
    ensures EndsWithMillis(iso) ==> r == iso[..|iso| - 1] + Shared.Pad(ns, 6) + "Z"
    ensures !EndsWithMillis(iso) ==> r == iso
  {
    if EndsWithMillis(iso) then iso[..|iso| - 1] + Shared.Pad(ns, 6) + "Z" else iso
  }

  /** `toString()`: the ISO string of the milliseconds with `pad(nanoseconds, 6)` spliced in before the 'Z'. */
  function ToString(i: Instant): (r: Result<string>)
    ensures r.Throw? <==> Abs(i.milliseconds) > MaxTime
    ensures r.Ok? ==> r.value == Stamp(EcmaTime.Utc(i.milliseconds)) + Shared.Pad(i.nanoseconds, 6) + "Z"
  {
    var iso :- DateISOString(i.milliseconds);
    assert iso[..|iso| - 1] == Stamp(EcmaTime.Utc(i.milliseconds));
    Ok(ReplaceMillis(iso, i.nanoseconds))
  }

  // fromString: ^(\d{4})-(\d{2})-(\d{2})T(\d{2}):(\d{2}):(\d{2})\.(\d{3})(\d{6})Z$

  /** w digits starting at position i. */
  predicate DigitsAt(s: string, i: nat, w: nat)
  {
    i + w <= |s| && Text.IsDigits(s[i..i + w])
  }

  /** The value of the w digits at position i. */
  function ValueAt(s: string, i: nat, w: nat): nat
    requires i + w <= |s|
  {
    if Text.IsDigits(s[i..i + w]) then Text.Value(s[i..i + w]) else 0
  }

  /** s matches the regular expression of `fromString`, 30 characters in all. */
  predicate Matches(s: string)
  {
    && |s| == 30
    && DigitsAt(s, 0, 4) && s[4] == '-' && DigitsAt(s, 5, 2) && s[7] == '-' && DigitsAt(s, 8, 2)
    && s[10] == 'T' && DigitsAt(s, 11, 2) && s[13] == ':' && DigitsAt(s, 14, 2) && s[16] == ':'
    && DigitsAt(s, 17, 2) && s[19] == '.' && DigitsAt(s, 20, 3) && DigitsAt(s, 23, 6) && s[29] == 'Z'
  }

  /**
   * `Instant.fromString(s)`: an Error unless s matches; then `Date.UTC` of
   * the seven leading groups (a year 0..99 read as 1900 + year, fields
   * rolling over) and the six last digits as the nanoseconds.
   */
  function FromString(s: string): (r: Result<Instant>)
    ensures r.Throw? <==> !Matches(s)
    ensures r.Throw? ==> r.exc == Error
    ensures r.Ok? ==> 0 <= r.value.nanoseconds < 1000000
  {
    if !Matches(s) then Throw(Error)
    else
      Text.ValueBound(s[23..29]);
      Iso.Pow10Small();
      Ok(Instant(EcmaTime.DateUtc(ValueAt(s, 0, 4), ValueAt(s, 5, 2) - 1, ValueAt(s, 8, 2), ValueAt(s, 11, 2),
                                  ValueAt(s, 14, 2), ValueAt(s, 17, 2), ValueAt(s, 20, 3)), ValueAt(s, 23, 6)))
  }

  /** Where each printed group lands in a 30-character instant string. */
  lemma {:induction false} Layout(y: string, mo: string, d: string, h: string, mi: string, se: string, f: string, n: string)
    requires |y| == 4 && |mo| == 2 && |d| == 2 && |h| == 2 && |mi| == 2 && |se| == 2 && |f| == 3 && |n| == 6
    ensures var s := y + "-" + mo + "-" + d + "T" + h + ":" + mi + ":" + se + "." + f + n + "Z";
      && |s| == 30 && s[0..4] == y && s[4] == '-' && s[5..7] == mo && s[7] == '-' && s[8..10] == d
      && s[10] == 'T' && s[11..13] == h && s[13] == ':' && s[14..16] == mi && s[16] == ':'
      && s[17..19] == se && s[19] == '.' && s[20..23] == f && s[23..29] == n && s[29] == 'Z'
  {
  }

  /** The width and value of a printed group. */
  lemma Group(v: int, w: nat)
    requires 1 <= w && 0 <= v < Text.Pow10(w)
    ensures |Shared.Pad(v, w)| == w && Text.IsDigits(Shared.Pad(v, w)) && Text.Value(Shared.Pad(v, w)) == v
  {
    Iso.PadWidth(v, w);
  }

  /** A text of eight digit groups in the layout fromString demands, read back group by group. */
  lemma {:induction false} FromStringOfText(y: string, mo: string, d: string, h: string, mi: string, se: string, f: string, n: string,
                                            year: int, month: int, day: int, hour: int, minute: int, second: int, ms: int,
                                            t: int, ns: int)
    requires |y| == 4 && |mo| == 2 && |d| == 2 && |h| == 2 && |mi| == 2 && |se| == 2 && |f| == 3 && |n| == 6
    requires Text.IsDigits(y) && Text.IsDigits(mo) && Text.IsDigits(d) && Text.IsDigits(h)
    requires Text.IsDigits(mi) && Text.IsDigits(se) && Text.IsDigits(f) && Text.IsDigits(n)
    requires year == Text.Value(y) && month == Text.Value(mo) && day == Text.Value(d) && hour == Text.Value(h)
    requires minute == Text.Value(mi) && second == Text.Value(se) && ms == Text.Value(f) && ns == Text.Value(n)
    requires t == EcmaTime.DateUtc(year, month - 1, day, hour, minute, second, ms)
    ensures FromString(y + "-" + mo + "-" + d + "T" + h + ":" + mi + ":" + se + "." + f + n + "Z") == Ok(Instant(t, ns))
  {
    Layout(y, mo, d, h, mi, se, f, n);
  }

  /** The text toString prints for a year of four digits, group by group. */
  function Printed(year: int, month: int, day: int, h: int, mi: int, se: int, ms: int, ns: int): string
  {
    Shared.Pad(year, 4) + "-" + Shared.Pad(month, 2) + "-" + Shared.Pad(day, 2) + "T"
      + Shared.Pad(h, 2) + ":" + Shared.Pad(mi, 2) + ":" + Shared.Pad(se, 2) + "." + Shared.Pad(ms, 3)
      + Shared.Pad(ns, 6) + "Z"
  }

  /** The text of eight printed groups, read back group by group. */
  lemma {:induction false} FromStringOfGroups(year: int, month: int, day: int, h: int, mi: int, se: int, ms: int, ns: int, t: int)
    requires 0 <= year <= 9999 && 0 <= month < 100 && 0 <= day < 100 && 0 <= h < 100 && 0 <= mi < 100
    requires 0 <= se < 100 && 0 <= ms < 1000 && 0 <= ns < 1000000
    requires t == EcmaTime.DateUtc(year, month - 1, day, h, mi, se, ms)
    ensures FromString(Printed(year, month, day, h, mi, se, ms, ns))
      == Ok(Instant(t, ns))
  {
    Iso.Pow10Small();
    Group(year, 4);
    Group(month, 2);
    Group(day, 2);
    Group(h, 2);
    Group(mi, 2);
    Group(se, 2);
    Group(ms, 3);
    Group(ns, 6);
    FromStringOfText(Shared.Pad(year, 4), Shared.Pad(month, 2), Shared.Pad(day, 2), Shared.Pad(h, 2),
                     Shared.Pad(mi, 2), Shared.Pad(se, 2), Shared.Pad(ms, 3), Shared.Pad(ns, 6),
                     year, month, day, h, mi, se, ms, t, ns);
  }

  /**
   * fromString reads toString back, for an instant with a non-negative
   * sub-millisecond part whose year lies in 100..9999 (four digits, and
   * clear of the two-digit years `Date.UTC` moves to the 1900s).
   */
  lemma FromStringOfToString(i: Instant)
    requires 0 <= i.nanoseconds < 1000000 && Abs(i.milliseconds) <= MaxTime
    requires 100 <= EcmaTime.Utc(i.milliseconds).year <= 9999
    ensures ToString(i).Ok? && FromString(ToString(i).value) == Ok(i)
  {
    var t := i.milliseconds;
    var u := EcmaTime.Utc(t);
    var m := u.month + 1;
    UtcGroups(t, u, m);
    PrintedGroups(i, u, m);
    FromStringOfGroups(u.year, m, u.date, u.hours, u.minutes, u.seconds, u.ms, i.nanoseconds, t);
  }

  /** The UTC getters outside the years 0..99 give t back through `Date.UTC`, and every field fits its group. */
  lemma UtcGroups(t: int, u: EcmaTime.UtcFields, m: int)
    requires u == EcmaTime.Utc(t) && m == u.month + 1 && 100 <= u.year <= 9999
    ensures t == EcmaTime.DateUtc(u.year, m - 1, u.date, u.hours, u.minutes, u.seconds, u.ms)
    ensures 1 <= m <= 12 && 1 <= u.date <= 31
  {
    EcmaTime.DateUtcOfUtc(t);
    EcmaTime.DateAtMost31(u);
  }

  /** toString's text, group by group, for a year of four digits. */
  lemma PrintedGroups(i: Instant, u: EcmaTime.UtcFields, m: int)
    requires u == EcmaTime.Utc(i.milliseconds) && m == u.month + 1 && 0 <= u.year <= 9999
    requires Abs(i.milliseconds) <= MaxTime
    ensures ToString(i).Ok?
    ensures ToString(i).value == Printed(u.year, m, u.date, u.hours, u.minutes, u.seconds, u.ms, i.nanoseconds)
  {
    assert ToString(i).value == Stamp(u) + Shared.Pad(i.nanoseconds, 6) + "Z";
    StampText(u, m, i.nanoseconds);
  }

  lemma StampText(u: EcmaTime.UtcFields, m: int, ns: int)
    requires m == u.month + 1 && 0 <= u.year <= 9999
    ensures Stamp(u) + Shared.Pad(ns, 6) + "Z" == Printed(u.year, m, u.date, u.hours, u.minutes, u.seconds, u.ms, ns)
  {
    assert IsoYear(u.year) == Shared.Pad(u.year, 4);
  }

  /**
   * The first toString case of the Instant tests: the instant
   * `BigInt(Date.UTC(1976, 10, 18, 14, 23, 30, 123)) * 10^6 + 456789n`
   * prints as 1976-11-18T14:23:30.123 followed by the six nanosecond
   * digits 456789 and 'Z' (PrintedExample spells the string out).
   */
  lemma ToStringExample(t: int)
    requires t == EcmaTime.DateUtc(1976, 10, 18, 14, 23, 30, 123)
    ensures var i := New(BigInt(t * 1000000 + 456789)).value;
      ToString(i) == Ok(Printed(1976, 11, 18, 14, 23, 30, 123, 456789))
  {
    var f := EcmaTime.UtcFields(1976, 10, 18, 14, 23, 30, 123);
    assert EcmaTime.ValidUtc(f) by {
      assert EcmaTime.InLeapYear(1976) == 1;
      assert EcmaTime.DaysBeforeMonth(11, 1) - EcmaTime.DaysBeforeMonth(10, 1) == 30;
    }
    EcmaTime.UtcOfDateUtc(f);
    assert 0 <= t <= MaxTime;
    var i := New(BigInt(t * 1000000 + 456789)).value;
    DivModUnique(t * 1000000 + 456789, 1000000, t, 456789);
    assert i == Instant(t, 456789);
    PrintedGroups(i, f, 11);
  }

  /** The eight groups of ToStringExample as the test's literal text. */
  lemma PrintedExample()
    ensures Printed(1976, 11, 18, 14, 23, 30, 123, 456789) == "1976-11-18T14:23:30.123456789Z"
  {
    PadDateExample();
    PadClockExample();
    PadMillisExample();
    PadNanosExample();
    assert Printed(1976, 11, 18, 14, 23, 30, 123, 456789)
      == "1976" + "-" + "11" + "-" + "18" + "T" + "14" + ":" + "23" + ":" + "30" + "." + "123" + "456789" + "Z";
    PrintedTextExample();
  }

  lemma PrintedTextExample()
    ensures "1976" + "-" + "11" + "-" + "18" + "T" + "14" + ":" + "23" + ":" + "30" + "." + "123" + "456789" + "Z"
      == "1976-11-18T14:23:30.123456789Z"
  {
  }

  lemma PadDateExample()
    ensures Shared.Pad(1976, 4) == "1976" && Shared.Pad(11, 2) == "11" && Shared.Pad(18, 2) == "18"
  {
    assert Text.Decimal(1) == "1" && Text.Decimal(19) == "19" && Text.Decimal(197) == "197" && Text.Decimal(1976) == "1976";
    assert Text.Decimal(11) == "11" && Text.Decimal(18) == "18";
  }

  lemma PadClockExample()
    ensures Shared.Pad(14, 2) == "14" && Shared.Pad(23, 2) == "23" && Shared.Pad(30, 2) == "30"
  {
    assert Text.Decimal(14) == "14" && Text.Decimal(23) == "23" && Text.Decimal(30) == "30";
  }

  lemma PadMillisExample()
    ensures Shared.Pad(123, 3) == "123"
  {
    assert Text.Decimal(1) == "1" && Text.Decimal(12) == "12" && Text.Decimal(123) == "123";
  }

  lemma PadNanosExample()
    ensures Shared.Pad(456789, 6) == "456789"
  {
    assert Text.Decimal(4) == "4" && Text.Decimal(45) == "45" && Text.Decimal(456) == "456";
    assert Text.Decimal(4567) == "4567" && Text.Decimal(45678) == "45678" && Text.Decimal(456789) == "456789";
  }

  /** Instants from a non-negative BigInt print and read back to the same instant, in the years 100..9999. */
  lemma FromStringOfNew(n: int)
    requires 0 <= n && Quot(n, 1000000) <= MaxTime && 100 <= EcmaTime.Utc(Quot(n, 1000000)).year <= 9999
    ensures var i := New(BigInt(n)).value; ToString(i).Ok? && FromString(ToString(i).value) == Ok(i)
  {
    FromStringOfToString(New(BigInt(n)).value);
  }

  // The sign of a negative sub-millisecond part

  /**
   * toString prints `pad(nanoseconds, 6)`, the absolute value, while the
   * milliseconds of a negative n are rounded toward zero: `new Instant(-n)`
   * and `new Instant(n)` print the same text for every n in 1..999999,
   * one nanosecond after 1970 and one before both showing
   * ".000000001Z".
   */
  lemma ToStringLosesSign(n: int)
    requires 0 < n < 1000000
    ensures var a, b := New(BigInt(-n)).value, New(BigInt(n)).value;
      && Nanoseconds(a) != Nanoseconds(b)
      && ToString(a).Ok? && ToString(a) == ToString(b)
  {
    var a, b := New(BigInt(-n)).value, New(BigInt(n)).value;
    assert a == Instant(0, -n);
    assert b == Instant(0, n);
    SameText(a, b);
  }

  /** toString sees the sub-millisecond part only through its absolute value. */
  lemma SameText(a: Instant, b: Instant)
    requires a.milliseconds == b.milliseconds && Abs(a.nanoseconds) == Abs(b.nanoseconds)
    ensures ToString(a) == ToString(b)
  {
    assert Shared.Pad(a.nanoseconds, 6) == Shared.Pad(b.nanoseconds, 6);
  }

  /** The constructor with the quotient rounded down, so the nanoseconds part is never negative. */
  function NewIntended(nanos: Arg): (r: Result<Instant>)
    ensures r.Throw? <==> nanos.NotBigInt?
    ensures r.Ok? ==> Nanoseconds(r.value) == nanos.n && 0 <= r.value.nanoseconds < 1000000
  {
    if nanos.NotBigInt? then Throw(TypeError) else Ok(Instant(nanos.n / 1000000, nanos.n % 1000000))
  }

  /** With that constructor every instant of the years 100..9999 prints as text fromString reads back to it. */
  lemma FromStringOfNewIntended(n: int)
    requires Abs(n / 1000000) <= MaxTime && 100 <= EcmaTime.Utc(n / 1000000).year <= 9999
    ensures var i := NewIntended(BigInt(n)).value;
      ToString(i).Ok? && FromString(ToString(i).value) == Ok(i) && Nanoseconds(FromString(ToString(i).value).value) == n
  {
    FromStringOfToString(NewIntended(BigInt(n)).value);
  }
}
