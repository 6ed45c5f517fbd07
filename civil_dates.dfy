/**
 * `CivilDate` of the lib/civil generation: a DATA record that the civil
 * `plus` builds from the empty record, its calendar getters, `plus` and
 * `with`, and its string forms. The constructor normalizes whatever it is
 * given, so a month 13 is January of the next year and a day 0 is a day of
 * the previous month, with the underflow quirk of the civil `plus`.
 */
module CivilDates {

  import opened Js
  import Shared
  import Iso
  import EcmaTime
  import opened CivilShared
  import Utils
  import Zoned

  /** A CivilDate: the record its constructor stores. */
  datatype Date = Date(data: Civil)

  /** `new CivilDate(years, months, days)`: `plus({}, { years, months, days })`. */
  function New(years: int, months: int, days: Num): Date
  {
    Date(PlusSpec(Empty, Delta(years, months, days, 0, 0, 0, 0, 0, 0)))
  }

  /** A record the constructor builds: in the ranges `plus` produces, with every clock field 0. */
  predicate Constructed(d: Date)
  {
    Normal(d.data) && d.data.hour == 0 && d.data.minute == 0 && d.data.second == 0 && d.data.nanosecond == 0
  }

  /** The day number of a date with a finite day. */
  function DayNumber(d: Date): int
    requires d.data.day.Fin?
  {
    EcmaTime.MakeDay(d.data.year, d.data.month - 1, d.data.day.v)
  }

  /** Every date the constructor returns is in range and has no clock. */
  lemma NewConstructed(years: int, months: int, days: Num)
    ensures Constructed(New(years, months, days))
  {
    var dur := Delta(years, months, days, 0, 0, 0, 0, 0, 0);
    PlusRanges(Empty, dur);
    CarryClockOfNormal(Sum(Empty, dur));
  }

  /** Constructing from a constructed date's own fields gives the same date. */
  lemma NewOfConstructed(d: Date)
    requires Constructed(d)
    ensures New(d.data.year, d.data.month, d.data.day) == d
  {
    RebuildNormal(d.data);
  }

  /** Twelve more months are one more year: `new CivilDate(2019, 13, 1)` is `new CivilDate(2020, 1, 1)`. */
  lemma NewMonthOverflow(years: int, months: int, days: Num)
    ensures New(years, months + 12, days) == New(years + 1, months, days)
  {
    var a := Civil(years, months + 12, days, 0, 0, 0, 0);
    var b := Civil(years + 1, months, days, 0, 0, 0, 0);
    assert Sum(Empty, Delta(years, months + 12, days, 0, 0, 0, 0, 0, 0)) == a;
    assert Sum(Empty, Delta(years + 1, months, days, 0, 0, 0, 0, 0, 0)) == b;
    CarryClockOfNormal(a);
    CarryClockOfNormal(b);
    WrapTwelve(years, months);
    BalanceOfWrapped(a, b);
  }

  /** Twelve months more and one year less wrap to the same year and month. */
  lemma WrapTwelve(years: int, months: int)
    ensures Shared.WrappedMonth(months + 12) == Shared.WrappedMonth(months)
    ensures Shared.WrappedYear(years, months + 12) == Shared.WrappedYear(years + 1, months)
  {
  }

  /** A day past the end of its month carries into the next months without losing a day. */
  lemma NewConserves(years: int, months: int, days: int)
    requires days >= 1
    ensures New(years, months, Fin(days)).data.day.Fin?
    ensures DayNumber(New(years, months, Fin(days))) == DayNumber(Date(Civil(years, months, Fin(days), 0, 0, 0, 0)))
  {
    var s := Civil(years, months, Fin(days), 0, 0, 0, 0);
    assert Sum(Empty, Delta(years, months, Fin(days), 0, 0, 0, 0, 0, 0)) == s;
    CarryClockOfNormal(s);
    assert New(years, months, Fin(days)).data == BalanceCivil(s);
    var y, m, dd := BalanceDayNumber(s);
    DayNumberOf(New(years, months, Fin(days)), y, m, dd);
  }

  /** The day number of a date with the given fields. */
  lemma DayNumberOf(d: Date, y: int, m: int, dd: int)
    requires d.data.year == y && d.data.month == m && d.data.day == Fin(dd)
    ensures DayNumber(d) == EcmaTime.MakeDay(y, m - 1, dd)
  {
  }

  // ---------------------------------------------------------------------------
  // Getters

  /** `dayOfWeek`: Zeller's weekday, 0 for Sunday through 6, and NaN when the day is NaN. */
  function DayOfWeek(d: Date): Num
  {
    if d.data.day.Fin? then Fin(Shared.ToDayOfWeek(d.data.year, d.data.month, d.data.day.v)) else NaN
  }

  /** `dayOfYear`, NaN when the day is NaN. */
  function DayOfYear(d: Date): Num
  {
    if d.data.day.Fin? then Shared.DayOfYear(d.data.year, d.data.month, d.data.day.v) else NaN
  }

  /** `weekOfYear`, NaN when the day is NaN. */
  function WeekOfYear(d: Date): Num
  {
    if d.data.day.Fin? then Shared.ToWeekOfYear(d.data.year, d.data.month, d.data.day.v) else NaN
  }

  /** The weekday is 0..6, without the `|| 7` of the date-time getter, and it is ECMA-262's WeekDay of the day number. */
  lemma DayOfWeekOfDate(d: Date)
    requires Constructed(d)
    ensures DayOfWeek(d).Fin? <==> d.data.day.Fin?
    ensures d.data.day.Fin? ==> 0 <= DayOfWeek(d).v <= 6 && DayOfWeek(d).v == EcmaTime.WeekDay(DayNumber(d))
  {
    if d.data.day.Fin? {
      Shared.DayOfWeekIsWeekDay(d.data.year, d.data.month, d.data.day.v);
    }
  }

  /** The ordinal of a date is 1..days-in-year, and `fromDayOfYear` of it is the date again. */
  lemma DayOfYearOfDate(d: Date)
    requires Constructed(d) && d.data.day.Fin?
    ensures DayOfYear(d).Fin? && 1 <= DayOfYear(d).v <= 365 + Shared.Leap(d.data.year)
    ensures Shared.DateOfDayOfYear(d.data.year, DayOfYear(d).v) == Shared.YearMonthDay(d.data.year, d.data.month, d.data.day.v)
  {
    Shared.DayOfYearRange(d.data.year, d.data.month, d.data.day.v);
    Shared.DateOfDayOfYearOfDate(d.data.year, d.data.month, d.data.day.v);
  }

  /** The ISO week number is 1..53, and NaN exactly when the day is. */
  lemma WeekOfYearOfDate(d: Date)
    requires Constructed(d)
    ensures WeekOfYear(d).Fin? <==> d.data.day.Fin?
    ensures WeekOfYear(d).Fin? ==> 1 <= WeekOfYear(d).v <= 53
  {
    if d.data.day.Fin? {
      Shared.WeekOfYearIso(d.data.year, d.data.month, d.data.day.v);
    }
  }

  // ---------------------------------------------------------------------------
  // plus and with

  /**
   * `date.plus(duration)`: the civil `plus` of the date's year, month and
   * day, whose clock fields a CivilDate does not have and which default to
   * 0, then the constructor on the resulting date.
   */
  function Plus(d: Date, dur: Delta): Date
  {
    var r := PlusSpec(Civil(d.data.year, d.data.month, d.data.day, 0, 0, 0, 0), dur);
    New(r.year, r.month, r.day)
  }

  /** The sum's date is what the civil `plus` computes; its clock, carried into the day already, is dropped. */
  lemma PlusIsCivilPlus(d: Date, dur: Delta)
    ensures var r := PlusSpec(Civil(d.data.year, d.data.month, d.data.day, 0, 0, 0, 0), dur);
      Plus(d, dur).data == Civil(r.year, r.month, r.day, 0, 0, 0, 0)
  {
    var r := PlusSpec(Civil(d.data.year, d.data.month, d.data.day, 0, 0, 0, 0), dur);
    PlusRanges(Civil(d.data.year, d.data.month, d.data.day, 0, 0, 0, 0), dur);
    NewOfConstructed(Date(Civil(r.year, r.month, r.day, 0, 0, 0, 0)));
  }

  /** For a constructed date, whose clock is 0 already, the sum is the civil `plus` of its record. */
  lemma PlusOfConstructed(d: Date, dur: Delta)
    requires Constructed(d)
    ensures var r := PlusSpec(d.data, dur); Plus(d, dur).data == Civil(r.year, r.month, r.day, 0, 0, 0, 0)
  {
    assert Civil(d.data.year, d.data.month, d.data.day, 0, 0, 0, 0) == d.data;
    PlusIsCivilPlus(d, dur);
  }

  /** Adding nothing leaves a constructed date as it is. */
  lemma PlusZeroDate(d: Date)
    requires Constructed(d)
    ensures Plus(d, Zero) == d
  {
    PlusZero(d.data);
    NewOfConstructed(d);
  }

  /** Adding k days, as long as the day stays at least 1, moves the day number by exactly k. */
  lemma PlusDays(d: Date, k: int)
    requires Constructed(d) && d.data.day.Fin? && d.data.day.v + k >= 1
    ensures Plus(d, Delta(0, 0, Fin(k), 0, 0, 0, 0, 0, 0)).data.day.Fin?
    ensures DayNumber(Plus(d, Delta(0, 0, Fin(k), 0, 0, 0, 0, 0, 0))) == DayNumber(d) + k
  {
    var y, m, dd := PlusDaysDate(d, k);
    DayNumberStep(Plus(d, Delta(0, 0, Fin(k), 0, 0, 0, 0, 0, 0)), d, k, y, m, dd);
  }

  /** A date whose day number is k days after d's, named by its balanced fields. */
  lemma DayNumberStep(p: Date, d: Date, k: int, y: int, m: int, dd: int)
    requires p.data == Civil(y, m, Fin(dd), 0, 0, 0, 0) && d.data.day.Fin?
    requires EcmaTime.MakeDay(y, m - 1, dd) == EcmaTime.MakeDay(d.data.year, d.data.month - 1, d.data.day.v + k)
    ensures DayNumber(p) == DayNumber(d) + k
  {
    DayNumberStepAt(p, d, k, y, m, dd, d.data.year, d.data.month, d.data.day.v);
  }

  /** The same step with d's fields named, so that only integers meet the day arithmetic. */
  lemma DayNumberStepAt(p: Date, d: Date, k: int, y: int, m: int, dd: int, y0: int, m0: int, dd0: int)
    requires p.data == Civil(y, m, Fin(dd), 0, 0, 0, 0)
    requires d.data.year == y0 && d.data.month == m0 && d.data.day == Fin(dd0)
    requires EcmaTime.MakeDay(y, m - 1, dd) == EcmaTime.MakeDay(y0, m0 - 1, dd0 + k)
    ensures DayNumber(p) == DayNumber(d) + k
  {
    DayNumberOf(p, y, m, dd);
    DayNumberOf(d, y0, m0, dd0);
    Shared.MakeDayShift(y0, m0 - 1, dd0, k);
  }

  /** Adding k days gives the balanced date of the summed day, with no clock. */
  lemma PlusDaysDate(d: Date, k: int) returns (y: int, m: int, dd: int)
    requires d.data.day.Fin? && d.data.day.v + k >= 1
    ensures Plus(d, Delta(0, 0, Fin(k), 0, 0, 0, 0, 0, 0)).data == Civil(y, m, Fin(dd), 0, 0, 0, 0)
    ensures EcmaTime.MakeDay(y, m - 1, dd) == EcmaTime.MakeDay(d.data.year, d.data.month - 1, d.data.day.v + k)
  {
    PlusIsCivilPlus(d, Delta(0, 0, Fin(k), 0, 0, 0, 0, 0, 0));
    y, m, dd := PlusDaysAt(d.data.year, d.data.month, d.data.day, k);
  }

  /** The civil `plus` of k days on a clock-free record: only the summed day is balanced. */
  lemma PlusDaysAt(year: int, month: int, day: Num, k: int) returns (y: int, m: int, dd: int)
    requires day.Fin? && day.v + k >= 1
    ensures PlusSpec(Civil(year, month, day, 0, 0, 0, 0), Delta(0, 0, Fin(k), 0, 0, 0, 0, 0, 0))
         == Civil(y, m, Fin(dd), 0, 0, 0, 0)
    ensures EcmaTime.MakeDay(y, m - 1, dd) == EcmaTime.MakeDay(year, month - 1, day.v + k)
  {
    SumDays(year, month, day, k);
    y, m, dd := PlusOfSum(Civil(year, month, day, 0, 0, 0, 0), Delta(0, 0, Fin(k), 0, 0, 0, 0, 0, 0), year, month, day.v + k);
  }

  /** The field-wise sum of k days and a clock-free record. */
  lemma SumDays(year: int, month: int, day: Num, k: int)
    requires day.Fin?
    ensures Sum(Civil(year, month, day, 0, 0, 0, 0), Delta(0, 0, Fin(k), 0, 0, 0, 0, 0, 0)) == Civil(year, month, Fin(day.v + k), 0, 0, 0, 0)
  {
  }

  /** `plus` whose field-wise sum is a clock-free record with a positive day: the balanced date, at the same day number. */
  lemma PlusOfSum(f: Civil, dur: Delta, year: int, month: int, day: int) returns (y: int, m: int, dd: int)
    requires Sum(f, dur) == Civil(year, month, Fin(day), 0, 0, 0, 0) && day >= 1
    ensures PlusSpec(f, dur) == Civil(y, m, Fin(dd), 0, 0, 0, 0)
    ensures EcmaTime.MakeDay(y, m - 1, dd) == EcmaTime.MakeDay(year, month - 1, day)
  {
    PlusOfCarried(f, dur, Civil(year, month, Fin(day), 0, 0, 0, 0));
    y, m, dd := BalanceDay(year, month, day);
  }

  /** Balancing a clock-free date with a positive day keeps its day number. */
  lemma BalanceDay(year: int, month: int, day: int) returns (y: int, m: int, dd: int)
    requires day >= 1
    ensures BalanceCivil(Civil(year, month, Fin(day), 0, 0, 0, 0)) == Civil(y, m, Fin(dd), 0, 0, 0, 0)
    ensures EcmaTime.MakeDay(y, m - 1, dd) == EcmaTime.MakeDay(year, month - 1, day)
  {
    y, m, dd := Shared.BalanceDateConserves(year, month, day);
  }

  /** `date.with({ year, month, day })`: each omitted field defaults to the date's own, then the constructor. */
  function With(d: Date, year: Option<int>, month: Option<int>, day: Option<Num>): Date
  {
    New(Given(year, d.data.year), Given(month, d.data.month), Given(day, d.data.day))
  }

  /** `with({})` gives the date back. */
  lemma WithNothing(d: Date)
    requires Constructed(d)
    ensures With(d, None, None, None) == d
  {
    NewOfConstructed(d);
  }

  /** Every field given and forming a valid date: `with` returns exactly that date. */
  lemma WithValid(d: Date, year: int, month: int, day: int)
    requires 1 <= month <= 12 && 1 <= day <= Shared.Dim(year, month)
    ensures With(d, Some(year), Some(month), Some(Fin(day))).data == Civil(year, month, Fin(day), 0, 0, 0, 0)
  {
    NewOfConstructed(Date(Civil(year, month, Fin(day), 0, 0, 0, 0)));
  }

  // ---------------------------------------------------------------------------
  // Strings

  /** `-(\d{2})-(\d{2})$`, the part of the date pattern after the year. */
  const DateTail := Iso.Lit('-', Iso.Field(2, Iso.Lit('-', Iso.Field(2, Iso.End))))

  /** `^(\d{4})-(\d{2})-(\d{2})$` */
  const DatePattern := Iso.Field(4, DateTail)

  /** `^(\d{4})-W(\d{2})-(\d{2})$` */
  const WeekDatePattern := Iso.Field(4, Iso.Lit('-', Iso.Lit('W', Iso.Field(2, Iso.Lit('-', Iso.Field(2, Iso.End))))))

  /** `-(\d{3})$`, the ordinal part after the year. */
  const OrdinalTail := Iso.Lit('-', Iso.Field(3, Iso.End))

  /** `toDateString()`: `${signedpad(year, 4)}-${pad(month, 2)}-${pad(day, 2)}`, the signed year and then the rest of the template. */
  function ToDateString(d: Date): string
  {
    Shared.SignedPad(d.data.year, 4) + Iso.Format(DateTail, [Fin(d.data.month), d.data.day])
  }

  /** `CivilDate.fromDateString(string)`: Error unless the pattern matches, then the constructor on the three numbers. */
  function FromDateString(s: string): (r: Result<Date>)
    ensures r.Throw? <==> Iso.Match(DatePattern, s).None?
    ensures r.Throw? ==> r.exc == Error
  {
    var m := Iso.Match(DatePattern, s);
    if m.None? then Throw(Error) else Ok(New(m.value[0].v, m.value[1].v, m.value[2]))
  }

  /** For a year of at least 0 the signed year is the template's first group. */
  lemma DateStringFormat(d: Date)
    requires 0 <= d.data.year
    ensures ToDateString(d) == Iso.Format(DatePattern, [Fin(d.data.year), Fin(d.data.month), d.data.day])
  {
    assert [Fin(d.data.year), Fin(d.data.month), d.data.day][1..] == [Fin(d.data.month), d.data.day];
  }

  /** `fromDateString(toDateString(d))` is d for every constructed date of a year 0..9999 with a finite day. */
  lemma FromDateStringOfToDateString(d: Date)
    requires Constructed(d) && d.data.day.Fin? && 0 <= d.data.year <= 9999
    ensures FromDateString(ToDateString(d)) == Ok(d)
  {
    DateStringFormat(d);
    DateFits(d.data.year, d.data.month, d.data.day);
    FromDateStringOfMatch(ToDateString(d), d.data.year, d.data.month, d.data.day);
    NewOfConstructed(d);
  }

  /** A year 0..9999, a month 1..12 and a day 1..31 print as a date string that matches back to them. */
  lemma DateFits(year: int, month: int, day: Num)
    requires 0 <= year <= 9999 && 1 <= month <= 12 && day.Fin? && 1 <= day.v <= 31
    ensures Iso.Match(DatePattern, Iso.Format(DatePattern, [Fin(year), Fin(month), day])) == Some([Fin(year), Fin(month), day])
  {
    Iso.Pow10Small();
    assert Iso.Widths(DatePattern) == [4, 2, 2];
    assert Iso.Fits(DatePattern, [Fin(year), Fin(month), day]);
    Iso.MatchOfFormat(DatePattern, [Fin(year), Fin(month), day]);
  }

  /** A string that matches gives the date the constructor makes of its three numbers. */
  lemma FromDateStringOfMatch(s: string, year: int, month: int, day: Num)
    requires Iso.Match(DatePattern, s) == Some([Fin(year), Fin(month), day])
    ensures FromDateString(s) == Ok(New(year, month, day))
  {
  }

  /** A string that matches with a valid month and day is exactly what the parsed date prints. */
  lemma ToDateStringOfFromDateString(s: string)
    requires Iso.Match(DatePattern, s).Some?
    requires var v := Iso.Match(DatePattern, s).value; 1 <= v[1].v <= 12 && 1 <= v[2].v <= Shared.Dim(v[0].v, v[1].v)
    ensures FromDateString(s).Ok? && ToDateString(FromDateString(s).value) == s
  {
    var year, month, day := DateParts(s);
    FromDateStringOfMatch(s, year, month, Fin(day));
    NewOfFields(year, month, day);
    ToDateStringOfFields(s, year, month, day);
  }

  /** The constructor keeps a valid date as it is. */
  lemma NewOfFields(year: int, month: int, day: int)
    requires 1 <= month <= 12 && 1 <= day <= Shared.Dim(year, month)
    ensures New(year, month, Fin(day)) == Date(Civil(year, month, Fin(day), 0, 0, 0, 0))
  {
    NewOfConstructed(Date(Civil(year, month, Fin(day), 0, 0, 0, 0)));
  }

  /** The date of a matching string's numbers prints as that string. */
  lemma ToDateStringOfFields(s: string, year: nat, month: nat, day: nat)
    requires Iso.Match(DatePattern, s) == Some([Fin(year), Fin(month), Fin(day)])
    ensures ToDateString(Date(Civil(year, month, Fin(day), 0, 0, 0, 0))) == s
  {
    Iso.FormatOfMatch(DatePattern, s);
    DateStringFormat(Date(Civil(year, month, Fin(day), 0, 0, 0, 0)));
  }

  /** The three numbers a matching date string gives. */
  lemma DateParts(s: string) returns (year: nat, month: nat, day: nat)
    requires Iso.Match(DatePattern, s).Some?
    ensures Iso.Match(DatePattern, s) == Some([Fin(year), Fin(month), Fin(day)])
  {
    var v := Iso.Match(DatePattern, s).value;
    assert Iso.Widths(DatePattern) == [4, 2, 2];
    year, month, day := v[0].v, v[1].v, v[2].v;
    assert v == [Fin(year), Fin(month), Fin(day)];
  }

  /**
   * `toWeekDateString()` reads `month`, which is declared nowhere in its
   * scope, so every call throws a ReferenceError.
   */
  function ToWeekDateString(d: Date): Result<string>
  {
    Throw(ReferenceError)
  }

  /**
   * `CivilDate.fromWeekDateTimeString(string)`: Error unless the pattern
   * matches; `fromWeekOfYear` of the three numbers, then the constructor.
   */
  function FromWeekDateTimeString(s: string): (r: Result<Date>)
    ensures r.Throw? <==> Iso.Match(WeekDatePattern, s).None?
    ensures r.Throw? ==> r.exc == Error
  {
    var m := Iso.Match(WeekDatePattern, s);
    if m.None? then Throw(Error)
    else
      var w := Shared.DateOfWeek(m.value[0].v, m.value[1].v, m.value[2].v);
      Ok(New(w.year, w.month, Fin(w.day)))
  }

  /** A matching week date is the day WeekDateOrdinal days into its year, whatever the week and weekday. */
  lemma FromWeekDateTimeStringValid(s: string) returns (year: int, week: int, weekday: int)
    requires Iso.Match(WeekDatePattern, s).Some?
    ensures Iso.Match(WeekDatePattern, s) == Some([Fin(year), Fin(week), Fin(weekday)])
    ensures var r := FromWeekDateTimeString(s);
      && r.Ok? && Constructed(r.value) && r.value.data.day.Fin?
      && DayNumber(r.value) == EcmaTime.DayFromYear(year) + Shared.WeekDateOrdinal(year, week, weekday) - 1
  {
    var v := Iso.Match(WeekDatePattern, s).value;
    assert Iso.Widths(WeekDatePattern) == [4, 2, 2];
    year, week, weekday := v[0].v, v[1].v, v[2].v;
    assert v == [Fin(year), Fin(week), Fin(weekday)];
    var w := Shared.DateOfWeek(year, week, weekday);
    Shared.DateOfWeekValid(year, week, weekday);
    var d := Date(Civil(w.year, w.month, Fin(w.day), 0, 0, 0, 0));
    NewOfConstructed(d);
    DayNumberOf(d, w.year, w.month, w.day);
  }

  /** `toOrdinalDateString()`: `${signedpad(year, 4)}-${pad(dayOfYear, 3)}`. */
  function ToOrdinalDateString(d: Date): string
  {
    Shared.SignedPad(d.data.year, 4) + Iso.Format(OrdinalTail, [DayOfYear(d)])
  }

  /** The ordinal string of a date of a year 0..9999 reads back as its year and ordinal, and `fromDayOfYear` of those is the date. */
  lemma OrdinalDateStringFields(d: Date)
    requires Constructed(d) && d.data.day.Fin? && 0 <= d.data.year <= 9999
    ensures var n := DayOfYear(d);
      && n.Fin? && Iso.Match(Iso.Field(4, OrdinalTail), ToOrdinalDateString(d)) == Some([Fin(d.data.year), n])
      && Shared.DateOfDayOfYear(d.data.year, n.v) == Shared.YearMonthDay(d.data.year, d.data.month, d.data.day.v)
  {
    var p := Iso.Field(4, OrdinalTail);
    var vals := [Fin(d.data.year), DayOfYear(d)];
    DayOfYearOfDate(d);
    Iso.Pow10Small();
    assert Iso.Widths(p) == [4, 3];
    assert Iso.Fits(p, vals);
    assert vals[1..] == [DayOfYear(d)];
    Iso.MatchOfFormat(p, vals);
  }

  /**
   * `CivilDate.fromOrdinalDateString()` declares no parameter and reads the
   * undeclared `string`, so every call throws a ReferenceError.
   */
  function FromOrdinalDateString(s: string): Result<Date>
  {
    Throw(ReferenceError)
  }

  /** `try { return first } catch {}` followed by the next attempt. */
  function OrElse<T>(first: Result<T>, next: Result<T>): Result<T>
  {
    if first.Ok? then first else next
  }

  /**
   * `CivilDate.fromString(string)`: the date string, then
   * `CivilDate.fromWeekDateString`, which is not a function and so throws a
   * TypeError, then the ordinal string; Error when all three throw.
   */
  function FromString(s: string): Result<Date>
  {
    OrElse(FromDateString(s), OrElse(Throw(TypeError), OrElse(FromOrdinalDateString(s), Throw(Error))))
  }

  /** `fromString` is `fromDateString`: the other two attempts always throw, and so does the fallback, with Error. */
  lemma FromStringIsFromDateString(s: string)
    ensures FromString(s) == FromDateString(s)
  {
  }

  // ---------------------------------------------------------------------------
  // fromDateTime / fromZonedDateTime

  /**
   * `CivilDate.fromDateTime(datetime)`: a TypeError unless handed a
   * CivilDateTime; past the check it stores into `date[data]`, a name this
   * file never declares, so it throws a ReferenceError.
   */
  function FromDateTime(datetime: Utils.Operand): (r: Result<Date>)
    ensures r.Throw?
    ensures r.exc == (if datetime == Utils.Object(Some("CivilDateTime")) then ReferenceError else TypeError)
  {
    var checked :- Utils.TypeCheck(datetime, "CivilDateTime");
    Throw(ReferenceError)
  }

  /**
   * `CivilDate.fromZonedDateTime(zoned)`: a TypeError unless handed a
   * ZonedDateTime, then the date getInstantInfo reads at the instant's
   * milliseconds ms. It passes `zoned.offsetString`, a property a
   * ZonedDateTime does not have, so the zone is undefined.
   */
  function FromZonedDateTime(zoned: Utils.Operand, ms: int, ns: int, zones: Zoned.Zones, host: Zoned.ZoneOracle): Result<Date>
  {
    var checked :- Utils.TypeCheck(zoned, "ZonedDateTime");
    var info :- Utils.GetInstantInfo(ms, ns, None, zones, host);
    Ok(New(info.year, info.month, Fin(info.day)))
  }

  /**
   * fromZonedDateTime succeeds exactly for a ZonedDateTime, and reads the
   * host zone's wall clock whatever the ZonedDateTime's own zone: a wall
   * date that is a real calendar date is the result's date, unchanged.
   */
  lemma FromZonedDateTimeSpec(zoned: Utils.Operand, ms: int, ns: int, zones: Zoned.Zones, host: Zoned.ZoneOracle)
    ensures var r := FromZonedDateTime(zoned, ms, ns, zones, host);
      && (r.Ok? <==> zoned == Utils.Object(Some("ZonedDateTime")))
      && (r.Throw? ==> r.exc == TypeError)
      && (r.Ok? ==> var w := host.wall(ms);
           r.value == New(w.year, w.month, Fin(w.day))
           && (1 <= w.month <= 12 && 1 <= w.day <= Shared.Dim(w.year, w.month) ==>
                 r.value.data == Civil(w.year, w.month, Fin(w.day), 0, 0, 0, 0)))
  {
    var w := host.wall(ms);
    assert Utils.CreateFormatter(None, zones, host) == Ok(Utils.IntlFormatter(host));
    if 1 <= w.month <= 12 && 1 <= w.day <= Shared.Dim(w.year, w.month) {
      NewOfConstructed(Date(Civil(w.year, w.month, Fin(w.day), 0, 0, 0, 0)));
    }
  }
}
