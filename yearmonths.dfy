/**
 * lib/yearmonth.mjs: `CivilYearMonth`, a year and a month. The constructor
 * checks both, `compare` orders by year and then month, `difference` sorts
 * the pair and balances the month distance, `withDay` builds a lib/date.mjs
 * `CivilDate`, and `fromString` parses `YYYY-MM`. Several methods call names
 * the file never imports (`castDuration`, `calculate`, `signedpad`, `pad`)
 * or misspells (`CivilTearMonth`), and those calls throw a ReferenceError.
 */
module YearMonths {
  import opened Js
  import Text
  import Shared
  import Iso
  import Dates
  import Durations

  /** The DATA record of a CivilYearMonth. */
  datatype YearMonth = YearMonth(year: int, month: int)

  /** A year and a month in 1..12, as the constructor admits. */
  predicate Valid(ym: YearMonth)
  {
    1 <= ym.month <= 12
  }

  /** `new CivilYearMonth(year, month)`: Error for a non-finite year, and for a month that is not finite or outside 1..12. */
  function New(year: Num, month: Num): (r: Result<YearMonth>)
    ensures r.Ok? <==> year.Fin? && month.Fin? && 1 <= month.v <= 12
    ensures r.Throw? ==> r.exc == Error
    ensures r.Ok? ==> r.value == YearMonth(year.v, month.v) && Valid(r.value)
  {
    if !IsFinite(year) then Throw(Error)
    else if !IsFinite(month) || month.v < 1 || month.v > 12 then Throw(Error)
    else Ok(YearMonth(year.v, month.v))
  }

  /** A valid year-month is its own constructor's result. */
  lemma NewOfValid(ym: YearMonth)
    requires Valid(ym)
    ensures New(Fin(ym.year), Fin(ym.month)) == Ok(ym)
  {
  }

  // ---------------------------------------------------------------------------
  // compare

  /** `compare(one, two)`: the year difference when the years differ, else the month difference. */
  function Compare(one: YearMonth, two: YearMonth): int
  {
    if one.year != two.year then one.year - two.year
    else if one.month != two.month then one.month - two.month
    else 0
  }

  /** The months since year 0 of a year-month: the count compare orders by. */
  function MonthIndex(ym: YearMonth): int
  {
    12 * ym.year + ym.month - 1
  }

  /**
   * For valid year-months compare agrees in sign with the month count:
   * negative, zero or positive as one is earlier than, equal to or later
   * than two, and zero only for equal year-months.
   */
  lemma CompareOrders(one: YearMonth, two: YearMonth)
    requires Valid(one) && Valid(two)
    ensures Compare(one, two) < 0 <==> MonthIndex(one) < MonthIndex(two)
    ensures Compare(one, two) > 0 <==> MonthIndex(one) > MonthIndex(two)
    ensures Compare(one, two) == 0 <==> one == two
  {
  }

  /** Swapping the operands negates the comparison. */
  lemma CompareAntisymmetric(one: YearMonth, two: YearMonth)
    ensures Compare(two, one) == -Compare(one, two)
  {
  }

  // ---------------------------------------------------------------------------
  // difference

  /** `[a, b].sort(compare)`: the pair in ascending order; an equal pair keeps its order. */
  function SortPair(a: YearMonth, b: YearMonth): (p: (YearMonth, YearMonth))
    ensures Compare(p.0, p.1) <= 0
    ensures p == (a, b) || p == (b, a)
  {
    if Compare(a, b) > 0 then (b, a) else (a, b)
  }

  /**
   * What difference holds just before its `castDuration` call, for valid
   * year-months: whole years and 0..11 months that make up the month
   * distance from the earlier to the later one, in either operand order.
   */
  method Balanced(ym: YearMonth, other: YearMonth) returns (years: int, months: int)
    requires Valid(ym) && Valid(other)
    ensures var p := SortPair(ym, other);
      && 0 <= months <= 11 && years >= 0
      && 12 * years + months == MonthIndex(p.1) - MonthIndex(p.0)
    ensures var d := MonthIndex(ym) - MonthIndex(other);
      12 * years + months == if d < 0 then -d else d
  {
    var p := SortPair(ym, other);
    var one, two := p.0, p.1;
    months := two.month - one.month;
    years := two.year - one.year;
    years, months := Dates.BalanceLoops(years, months);
    CompareOrders(one, two);
  }

  /**
   * `ym.difference(other)`: the balanced years and months go to
   * `castDuration`, which this file never imports, so it throws a
   * ReferenceError.
   */
  function Difference(ym: YearMonth, other: YearMonth): (r: Result<Durations.Duration>)
    ensures r.Throw? && r.exc == ReferenceError
  {
    Throw(ReferenceError)
  }

  // ---------------------------------------------------------------------------
  // withDay

  /** `ym.withDay(day)`: lib/date.mjs's `new CivilDate(year, month, day)`; the day defaults to 1. */
  function WithDay(ym: YearMonth, day: Num): (r: Result<Dates.CivilDate>)
    requires Valid(ym)
    ensures r.Ok? <==> day.Fin? && 1 <= day.v
    ensures r.Ok? ==> r.value.year == ym.year && r.value.month == ym.month && r.value.day == day.v
  {
    Dates.NewCivilDate(Fin(ym.year), Fin(ym.month), day)
  }

  /** withDay() with its default day gives the first of the month. */
  lemma WithFirstDay(ym: YearMonth)
    requires Valid(ym)
    ensures WithDay(ym, Fin(1)).Ok? && WithDay(ym, Fin(1)).value.day == 1
  {
  }

  // ---------------------------------------------------------------------------
  // toString / fromString

  /** The `YYYY-MM` form toString's template describes: `signedpad(year, 4)`, '-', `pad(month, 2)`. */
  function IsoString(ym: YearMonth): string
  {
    Shared.SignedPad(ym.year, 4) + "-" + Shared.Pad(ym.month, 2)
  }

  /** `toString()` (and `toJSON()`) call `signedpad`, which this file never imports: a ReferenceError. */
  function ToString(ym: YearMonth): (r: Result<string>)
    ensures r.Throw? && r.exc == ReferenceError
  {
    Throw(ReferenceError)
  }

  /**
   * `parseISO(isoStr)`: the regular expression `^([+-]?\d{4}\d*)-(0[1-9]|1[0-2])$`,
   * Error when it does not match. The month part has fixed width, so the
   * string ends in "-MM" and everything before is the year.
   */
  function ParseISO(s: string): (r: Result<YearMonth>)
    ensures r.Ok? ==> Valid(r.value)
    ensures r.Throw? ==> r.exc == Error
  {
    if |s| < 7 then Throw(Error)
    else
      var n := |s|;
      var year := Iso.SignedYear(s[..n - 3]);
      var month := Iso.Digits(s[n - 2..], 2, 1, 12);
      if s[n - 3] == '-' && year.Some? && month.Some? then Ok(YearMonth(year.value, month.value))
      else Throw(Error)
  }

  /** `CivilYearMonth.fromString(isoString)`: parseISO, then the constructor. */
  function FromString(s: string): (r: Result<YearMonth>)
    ensures r.Ok? <==> ParseISO(s).Ok?
    ensures r.Ok? ==> r == ParseISO(s)
  {
    var ym :- ParseISO(s);
    New(Fin(ym.year), Fin(ym.month))
  }

  /** A string of the shape `Y-MM` splits at its last dash: it parses exactly when both parts do. */
  lemma ParseISOOfParts(y: string, mm: string)
    requires |y| >= 4 && |mm| == 2
    ensures var year := Iso.SignedYear(y);
      var month := Iso.Digits(mm, 2, 1, 12);
      ParseISO(y + "-" + mm) == if year.Some? && month.Some? then Ok(YearMonth(year.value, month.value)) else Throw(Error)
  {
    var s := y + "-" + mm;
    var n := |s|;
    assert s[..n - 3] == y && s[n - 2..] == mm && s[n - 3] == '-';
  }

  /** Every valid year-month, of any year, survives its `YYYY-MM` form and fromString. */
  lemma FromStringOfIsoString(ym: YearMonth)
    requires Valid(ym)
    ensures FromString(IsoString(ym)) == Ok(ym)
  {
    Iso.Pow10Small();
    Iso.DigitsOfPad(ym.month, 2, 1, 12);
    Iso.SignedYearOfSignedPad(ym.year);
    assert |Shared.SignedPad(ym.year, 4)| >= 4;
    ParseISOOfParts(Shared.SignedPad(ym.year, 4), Shared.Pad(ym.month, 2));
  }

  /** And every string fromString accepts is the `YYYY-MM` form of what it returns, up to the year's padding and sign. */
  lemma ParsedParts(s: string)
    requires ParseISO(s).Ok?
    ensures var ym := ParseISO(s).value;
      && s[|s| - 3..] == "-" + Shared.Pad(ym.month, 2)
      && Iso.SignedYear(s[..|s| - 3]) == Some(ym.year)
  {
    var n := |s|;
    var mm := s[n - 2..];
    var ym := ParseISO(s).value;
    Iso.Pow10Small();
    Text.FixedOfValue(mm, 2);
    assert s[n - 3..] == "-" + mm;
  }

  // ---------------------------------------------------------------------------
  // with / plus / minus

  /** `with(dateLike)` calls the misspelt `CivilTearMonth`: a ReferenceError. */
  function With(ym: YearMonth, year: Option<Num>, month: Option<Num>): (r: Result<YearMonth>)
    ensures r.Throw? && r.exc == ReferenceError
  {
    Throw(ReferenceError)
  }

  /** `plus(durationLike)` and `minus(durationLike)` call `castDuration`, never imported: a ReferenceError. */
  function Plus(ym: YearMonth, like: Durations.DurationLike, negate: bool): (r: Result<YearMonth>)
    ensures r.Throw? && r.exc == ReferenceError
  {
    Throw(ReferenceError)
  }
}
