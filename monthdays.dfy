/**
 * lib/monthday.mjs: `CivilMonthDay`, a month and a day. Its constructor
 * checks the month and the day, but the day's upper bound calls
 * `daysInMonth`, which the file never imports, so every construction that
 * gets that far throws a ReferenceError and no instance ever exists.
 * `fromString` parses `MM-DD` and hands the parts to the constructor.
 */
module MonthDays {
  import opened Js
  import Text
  import Shared
  import Iso

  /** The DATA record a CivilMonthDay would hold. */
  datatype MonthDay = MonthDay(month: int, day: int)

  /**
   * `new CivilMonthDay(month, day)`: Error for a month that is not finite or
   * outside 1..12, and for a day that is not finite or below 1; a
   * ReferenceError from the unimported `daysInMonth` otherwise.
   */
  function New(month: Num, day: Num): (r: Result<MonthDay>)
    ensures r.Throw?
    ensures r.exc == ReferenceError <==> month.Fin? && 1 <= month.v <= 12 && day.Fin? && 1 <= day.v
    ensures r.exc == ReferenceError || r.exc == Error
  {
    if !IsFinite(month) || month.v < 1 || month.v > 12 then Throw(Error)
    else if !IsFinite(day) || day.v < 1 then Throw(Error)
    else Throw(ReferenceError)
  }

  /**
   * `daysInMonth(undefined, month)` had it been imported: lib/shared.mjs's
   * isLeapYear answers false for an undefined year, so the common-year length.
   */
  function DaysInMonthOfUndefined(month: int): (n: int)
    requires 1 <= month <= 12
    ensures 28 <= n <= 31 && (month == 2 ==> n == 28)
  {
    assert !Shared.IsLeapYear(1);
    Shared.Dim(1, month)
  }

  /**
   * The constructor with `daysInMonth` imported but, as written, the month
   * compared against the month's length: the bound never rejects anything,
   * so the 40th of January passes.
   */
  function NewImported(month: Num, day: Num): (r: Result<MonthDay>)
    ensures r.Ok? <==> month.Fin? && 1 <= month.v <= 12 && day.Fin? && 1 <= day.v
    ensures r.Throw? ==> r.exc == Error
  {
    if !IsFinite(month) || month.v < 1 || month.v > 12 then Throw(Error)
    else if !IsFinite(day) || day.v < 1 || month.v > DaysInMonthOfUndefined(month.v) then Throw(Error)
    else Ok(MonthDay(month.v, day.v))
  }

  lemma ImportedAcceptsDay40()
    ensures NewImported(Fin(1), Fin(40)) == Ok(MonthDay(1, 40))
  {
  }

  /** A month and a day within that month's common-year length. */
  predicate Valid(md: MonthDay)
  {
    1 <= md.month <= 12 && 1 <= md.day <= DaysInMonthOfUndefined(md.month)
  }

  /** The constructor as evidently intended: the day, not the month, compared with the month's length. */
  function NewIntended(month: Num, day: Num): (r: Result<MonthDay>)
    ensures r.Ok? <==> month.Fin? && day.Fin? && Valid(MonthDay(month.v, day.v))
    ensures r.Throw? ==> r.exc == Error
    ensures r.Ok? ==> r.value == MonthDay(month.v, day.v)
  {
    if !IsFinite(month) || month.v < 1 || month.v > 12 then Throw(Error)
    else if !IsFinite(day) || day.v < 1 || day.v > DaysInMonthOfUndefined(month.v) then Throw(Error)
    else Ok(MonthDay(month.v, day.v))
  }

  // ---------------------------------------------------------------------------
  // toString / fromString

  /** The `MM-DD` form toString's template describes: `pad(month, 2)`, '-', `pad(day, 2)`. */
  function IsoString(md: MonthDay): string
  {
    Shared.Pad(md.month, 2) + "-" + Shared.Pad(md.day, 2)
  }

  /**
   * `parseISO(isoString)`: the regular expression
   * `^(0[1-9]|1[0-2])-(0[1-9]|[12][0-9]|3[0-1])$`, Error when it does not match.
   */
  function ParseISO(s: string): (r: Result<MonthDay>)
    ensures r.Ok? ==> 1 <= r.value.month <= 12 && 1 <= r.value.day <= 31
    ensures r.Ok? ==> |s| == 5 && s[2] == '-' && s == IsoString(r.value)
    ensures r.Throw? ==> r.exc == Error
  {
    if |s| != 5 || s[2] != '-' then Throw(Error)
    else
      var month := Iso.Digits(s[..2], 2, 1, 12);
      var day := Iso.Digits(s[3..], 2, 1, 31);
      if month.Some? && day.Some? then
        Iso.Pow10Small();
        Text.FixedOfValue(s[..2], 2);
        Text.FixedOfValue(s[3..], 2);
        assert s == s[..2] + "-" + s[3..];
        Ok(MonthDay(month.value, day.value))
      else Throw(Error)
  }

  /** Every month 1..12 and day 1..31 printed as `MM-DD` parses back. */
  lemma ParseOfIsoString(md: MonthDay)
    requires 1 <= md.month <= 12 && 1 <= md.day <= 31
    ensures ParseISO(IsoString(md)) == Ok(md)
  {
    Iso.Pow10Small();
    Iso.DigitsOfPad(md.month, 2, 1, 12);
    Iso.DigitsOfPad(md.day, 2, 1, 31);
    var s := IsoString(md);
    assert s[..2] == Shared.Pad(md.month, 2) && s[3..] == Shared.Pad(md.day, 2) && s[2] == '-';
  }

  /** `CivilMonthDay.fromString(isoString)`: parseISO, then the constructor, so it always throws. */
  function FromString(s: string): (r: Result<MonthDay>)
    ensures r.Throw?
    ensures r.exc == (if ParseISO(s).Ok? then ReferenceError else Error)
  {
    var md :- ParseISO(s);
    New(Fin(md.month), Fin(md.day))
  }

  /** fromString with the intended constructor. */
  function FromStringIntended(s: string): (r: Result<MonthDay>)
    ensures r.Ok? ==> Valid(r.value) && s == IsoString(r.value)
  {
    var md :- ParseISO(s);
    NewIntended(Fin(md.month), Fin(md.day))
  }

  /** With the intended constructor every valid month-day survives its `MM-DD` form and fromString. */
  lemma FromStringOfIsoStringIntended(md: MonthDay)
    requires Valid(md)
    ensures FromStringIntended(IsoString(md)) == Ok(md)
  {
    ParseOfIsoString(md);
  }

  /** As written, the same strings make fromString throw a ReferenceError. */
  lemma FromStringOfIsoString(md: MonthDay)
    requires Valid(md)
    ensures FromString(IsoString(md)) == Throw(ReferenceError)
  {
    ParseOfIsoString(md);
  }
}
