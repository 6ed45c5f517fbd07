/**
 * lib/shared.mjs: zero padding, the Gregorian calendar helpers (leap years,
 * month lengths, day of week, day and week of year), the field-balancing
 * `calculate`, conversion to epoch milliseconds, offset strings, `copyProps`
 * and the candidate instants of a wall-clock time in a time zone.
 */
module Shared {
  import opened Js
  import Text
  import EcmaTime

  // ---------------------------------------------------------------------------
  // pad / signedpad

  /** `s.slice(-k)` for 0 < k <= |s|: the last k characters. */
  function SliceLast(s: string, k: nat): string
    requires k <= |s|
  {
    s[|s| - k..]
  }

  /** pad's text step: k zeros, then str, cut to its last max(k, |str|) characters. */
  function PadText(str: string, cnt: nat): string
  {
    SliceLast(Text.Zeros(cnt) + str, Max(cnt, |str|))
  }

  /** `pad(num, cnt)`: the magnitude of num in decimal, zero-filled on the left to cnt characters. */
  function Pad(num: int, cnt: nat): (r: string)
    ensures r == Text.Fixed(Abs(num), cnt)
    ensures Text.IsDigits(r) && Text.Value(r) == Abs(num)
  {
    var str := Text.Decimal(Abs(num));
    var whole := Text.Zeros(cnt) + str;
    if |str| < cnt then
      assert SliceLast(whole, cnt) == Text.Zeros(cnt - |str|) + str;
      PadText(str, cnt)
    else
      assert SliceLast(whole, |str|) == Text.Zeros(0) + str;
      PadText(str, cnt)
  }

  /** `pad` of a NaN prints "NaN", zero-filled like any other text. */
  function PadNum(num: Num, cnt: nat): (r: string)
    ensures num.Fin? ==> r == Pad(num.v, cnt)
    ensures num.NaN? ==> r == if cnt <= 3 then "NaN" else Text.Zeros(cnt - 3) + "NaN"
  {
    if num.Fin? then Pad(num.v, cnt)
    else
      var whole := Text.Zeros(cnt) + "NaN";
      assert cnt > 3 ==> SliceLast(whole, cnt) == Text.Zeros(cnt - 3) + "NaN";
      assert cnt <= 3 ==> SliceLast(whole, 3) == "NaN";
      PadText("NaN", cnt)
  }

  /** `signedpad(num, cnt)`: a '-' for negative numbers, then `pad`. */
  function SignedPad(num: int, cnt: nat): (r: string)
    ensures num < 0 ==> r == "-" + Pad(num, cnt)
    ensures num >= 0 ==> r == Pad(num, cnt)
  {
    (if num < 0 then "-" else "") + Pad(num, cnt)
  }

  // ---------------------------------------------------------------------------
  // Leap years and month lengths

  /** The Gregorian leap-year rule; a zero remainder is the same under JavaScript's `%`. */
  predicate IsLeapYear(year: int)
  {
    var isDiv4 := year % 4 == 0;
    var isDiv100 := year % 100 == 0;
    var isDiv400 := year % 400 == 0;
    isDiv4 && (!isDiv100 || isDiv400)
  }

  /** Leap years are exactly the years that the day-number arithmetic of ECMA-262 makes 366 days long. */
  lemma LeapYearIsLongYear(year: int)
    ensures IsLeapYear(year) <==> EcmaTime.DayFromYear(year + 1) - EcmaTime.DayFromYear(year) == 366
    ensures !IsLeapYear(year) <==> EcmaTime.DayFromYear(year + 1) - EcmaTime.DayFromYear(year) == 365
  {
    EcmaTime.DayFromYearStep(year);
  }

  function Leap(year: int): int
  {
    if IsLeapYear(year) then 1 else 0
  }

  const StandardMonths: seq<int> := [31, 28, 31, 30, 31, 30, 31, 31, 30, 31, 30, 31]
  const LeapMonths: seq<int> := [31, 29, 31, 30, 31, 30, 31, 31, 30, 31, 30, 31]

  /**
   * `daysInMonth(year, month)`: the length of a month 1..12; any other month
   * indexes past the table and yields `undefined`, which the model writes NaN.
   */
  function DaysInMonth(year: int, month: int): (r: Num)
    ensures r.Fin? <==> 1 <= month <= 12
    ensures r.Fin? ==> r.v == EcmaTime.DaysBeforeMonth(month, Leap(year)) - EcmaTime.DaysBeforeMonth(month - 1, Leap(year))
  {
    var table := if IsLeapYear(year) then LeapMonths else StandardMonths;
    if 0 <= month - 1 < |table| then Fin(table[month - 1]) else NaN
  }

  /** Every month but February has at least 30 days. */
  lemma LongMonth(year: int, month: int)
    requires 1 <= month <= 12 && month != 2
    ensures 30 <= Dim(year, month)
  {
  }

  /** The length of a month known to be in 1..12. */
  function Dim(year: int, month: int): (n: int)
    requires 1 <= month <= 12
    ensures 28 <= n <= 31
    ensures n == 29 <==> month == 2 && IsLeapYear(year)
  {
    DaysInMonth(year, month).v
  }

  /** The ECMA-262 leap indicator and the polyfill's leap-year rule agree. */
  lemma LeapAgrees(year: int)
    ensures EcmaTime.InLeapYear(year) == Leap(year)
  {
  }

  // ---------------------------------------------------------------------------
  // Day of week

  /**
   * `toDayOfWeek(year, month, day)`: Zeller's congruence with 0 for Sunday.
   * `Math.floor(2.6 * m - 0.2)` is the floor of (26m - 2) / 10, and `%` is
   * JavaScript's truncating remainder, corrected into 0..6.
   */
  function ToDayOfWeek(year: int, month: int, day: int): (r: int)
    ensures 0 <= r <= 6
  {
    var m := month + (if month < 3 then 10 else -2);
    var y0 := year - (if month < 3 then 1 else 0);
    var c := y0 / 100;
    var y := y0 - c * 100;
    var pM := (26 * m - 2) / 10;
    var pY := y + y / 4;
    var pC := c / 4 - 2 * c;
    var dow := Rem(day + pM + pY + pC, 7);
    QuotRem(day + pM + pY + pC, 7);
    dow + (if dow < 0 then 7 else 0)
  }

  /** The truncating remainder corrected by 7 is the floored remainder. */
  lemma RemCorrected(x: int)
    ensures Rem(x, 7) + (if Rem(x, 7) < 0 then 7 else 0) == x % 7
  {
    QuotRem(x, 7);
    if x < 0 {
      var q := Quot(x, 7);
      var r := Rem(x, 7);
      if r < 0 {
        DivModUnique(x, 7, q - 1, r + 7);
      } else {
        DivModUnique(x, 7, q, r);
      }
    }
  }

  /** Days from an epoch to the first of March of year y, in closed form. */
  function MarchCount(y: int): int
  {
    365 * y + y / 4 - y / 100 + y / 400
  }

  /** The first of March of year y is day MarchCount(y) - 719468, counting 1970-01-01 as day 0. */
  lemma MarchFirst(y: int)
    ensures EcmaTime.DayFromYear(y) + 59 + Leap(y) == MarchCount(y) - 719468
  {
    YearStartByMarchCount(y);
    MarchCountStep(y - 1);
  }

  lemma YearStartByMarchCount(y: int)
    ensures EcmaTime.DayFromYear(y) == MarchCount(y - 1) - 719162
  {
    var p := y - 1;
    FloorShift(p, 4, 492);
    FloorShift(p, 100, 19);
    FloorShift(p, 400, 4);
    assert y - 1969 == p - 4 * 492 && y - 1901 == p - 100 * 19 && y - 1601 == p - 400 * 4;
  }

  lemma MarchCountStep(p: int)
    ensures MarchCount(p + 1) == MarchCount(p) + 365 + Leap(p + 1)
  {
    EcmaTime.StepOver(p, 4, -1);
    EcmaTime.StepOver(p, 100, -1);
    EcmaTime.StepOver(p, 400, -1);
    var d4, d100, d400 := (p + 1) / 4 - p / 4, (p + 1) / 100 - p / 100, (p + 1) / 400 - p / 400;
    EcmaTime.DivisorsOfCentury(p + 1);
    assert Leap(p + 1) == d4 - d100 + d400;
  }

  lemma FloorShift(a: int, n: int, k: int)
    requires n > 0
    ensures (a - n * k) / n == a / n - k
  {
    DivModUnique(a - n * k, n, a / n - k, a % n);
  }

  /** Days from the first of March to the first of month mp, counting March as 1 and February as 12. */
  function MarchOffset(mp: int): int
    requires 1 <= mp <= 12
  {
    [0, 31, 61, 92, 122, 153, 184, 214, 245, 275, 306, 337][mp - 1]
  }

  lemma ZellerMonth(mp: int)
    requires 1 <= mp <= 12
    ensures (MarchOffset(mp) + 2 - (26 * mp - 2) / 10) % 7 == 0
  {
  }

  /** The day number of a date, counted from the first of March of its March-based year. */
  lemma MakeDayByMarch(year: int, month: int, day: int)
    requires 1 <= month <= 12
    ensures var y0 := year - (if month < 3 then 1 else 0);
      var mp := month + (if month < 3 then 10 else -2);
      EcmaTime.MakeDay(year, month - 1, day) == MarchCount(y0) - 719468 + MarchOffset(mp) + day - 1
  {
    if month < 3 {
      JanuaryFebruaryByMarch(year, month, day);
    } else {
      LaterMonthsByMarch(year, month, day);
    }
  }

  lemma JanuaryFebruaryByMarch(year: int, month: int, day: int)
    requires 1 <= month <= 2
    ensures EcmaTime.MakeDay(year, month - 1, day) == MarchCount(year - 1) - 719468 + MarchOffset(month + 10) + day - 1
  {
    var leap := EcmaTime.InLeapYear(year);
    EcmaTime.MakeDayInYear(year, month - 1, day);
    EcmaTime.DayFromYearStep(year - 1);
    MarchFirst(year - 1);
    assert EcmaTime.DaysBeforeMonth(month - 1, leap) == MarchOffset(month + 10) - 306;
  }

  lemma LaterMonthsByMarch(year: int, month: int, day: int)
    requires 3 <= month <= 12
    ensures EcmaTime.MakeDay(year, month - 1, day) == MarchCount(year) - 719468 + MarchOffset(month - 2) + day - 1
  {
    var leap := EcmaTime.InLeapYear(year);
    EcmaTime.MakeDayInYear(year, month - 1, day);
    MarchFirst(year);
    MonthsAfterFebruary(month - 1, leap);
  }

  lemma MonthsAfterFebruary(m: int, leap: int)
    requires 2 <= m <= 11
    ensures EcmaTime.DaysBeforeMonth(m, leap) == 59 + leap + MarchOffset(m - 1)
  {
  }

  /** MarchCount split into centuries c and years y of the century. */
  lemma MarchCountByCentury(y0: int)
    ensures var c := y0 / 100; var y := y0 - c * 100;
      MarchCount(y0) == 36524 * c + 365 * y + y / 4 + c / 4
  {
    var c := y0 / 100;
    var y := y0 - c * 100;
    FloorShift(y0, 4, 25 * c);
    assert y0 - 4 * (25 * c) == y;
    DivModUnique(y0, 400, c / 4, 100 * (c % 4) + y);
  }

  lemma ModShift(x: int, k: int)
    ensures (x + 7 * k) % 7 == x % 7
  {
    DivModUnique(x + 7 * k, 7, x / 7 + k, x % 7);
  }

  /** The sum Zeller's congruence reduces modulo 7. */
  function ZellerSum(year: int, month: int, day: int): int
  {
    var m := month + (if month < 3 then 10 else -2);
    var y0 := year - (if month < 3 then 1 else 0);
    MarchSum(y0, m, day)
  }

  /** Zeller's sum for March-based year y0 and month mp (March is 1, February 12). */
  function MarchSum(y0: int, mp: int, day: int): int
  {
    var c := y0 / 100;
    var y := y0 - c * 100;
    day + (26 * mp - 2) / 10 + (y + y / 4) + (c / 4 - 2 * c)
  }

  lemma ToDayOfWeekBySum(year: int, month: int, day: int)
    ensures ToDayOfWeek(year, month, day) == ZellerSum(year, month, day) % 7
  {
    RemCorrected(ZellerSum(year, month, day));
  }

  /** The day number plus 4 and Zeller's sum differ by a multiple of 7. */
  lemma ZellerSumCongruent(year: int, month: int, day: int) returns (k: int)
    requires 1 <= month <= 12
    ensures EcmaTime.MakeDay(year, month - 1, day) + 4 == ZellerSum(year, month, day) + 7 * k
  {
    var y0 := year - (if month < 3 then 1 else 0);
    var mp := month + (if month < 3 then 10 else -2);
    MakeDayByMarch(year, month, day);
    k := MarchSumCongruent(y0, mp, day);
  }

  lemma MarchSumCongruent(y0: int, mp: int, day: int) returns (k: int)
    requires 1 <= mp <= 12
    ensures MarchCount(y0) - 719468 + MarchOffset(mp) + day - 1 + 4 == MarchSum(y0, mp, day) + 7 * k
  {
    var c := y0 / 100;
    var y := y0 - c * 100;
    var z := (26 * mp - 2) / 10;
    MarchCountByCentury(y0);
    ZellerMonth(mp);
    var j := (MarchOffset(mp) + 2 - z) / 7;
    assert MarchOffset(mp) + 2 - z == 7 * j;
    k := 5218 * c + 52 * y - 102781 + j;
  }

  /** Zeller's congruence agrees with ECMA-262's WeekDay of the date's day number, for every month 1..12. */
  lemma DayOfWeekIsWeekDay(year: int, month: int, day: int)
    requires 1 <= month <= 12
    ensures ToDayOfWeek(year, month, day) == EcmaTime.WeekDay(EcmaTime.MakeDay(year, month - 1, day))
  {
    var k := ZellerSumCongruent(year, month, day);
    ToDayOfWeekBySum(year, month, day);
    ModShift(ZellerSum(year, month, day), k);
  }

  // ---------------------------------------------------------------------------
  // Day of year

  /**
   * The ordinal `toDayOfYear` computes: day plus the lengths of months
   * 1..month-1. A month past 13 makes the loop read `daysInMonth` of month
   * 13 or later, which is `undefined`, so the sum is NaN.
   */
  function DayOfYear(year: int, month: int, day: int): Num
  {
    if month <= 1 then Fin(day)
    else if month <= 13 then Fin(day + EcmaTime.DaysBeforeMonth(month - 1, Leap(year)))
    else NaN
  }

  /** `toDayOfYear(year, month, day)`: the for-loop summing the lengths of the preceding months. */
  method ToDayOfYear(year: int, month: int, day: int) returns (days: Num)
    ensures days == DayOfYear(year, month, day)
  {
    var leap := Leap(year);
    days := Fin(day);
    var m := month - 1;
    while m > 0
      invariant m <= month - 1 && (m == month - 1 || m >= 0)
      invariant days == if m == month - 1 then Fin(day)
        else if month - 1 <= 12 then Fin(day + EcmaTime.DaysBeforeMonth(month - 1, leap) - EcmaTime.DaysBeforeMonth(m, leap))
        else NaN
      decreases m
    {
      days := Add(days, DaysInMonth(year, m));
      m := m - 1;
    }
  }

  /** A valid date's ordinal lies in 1..days-in-year, and it counts the days since the year began. */
  lemma DayOfYearRange(year: int, month: int, day: int)
    requires 1 <= month <= 12 && 1 <= day <= Dim(year, month)
    ensures DayOfYear(year, month, day).Fin?
    ensures 1 <= DayOfYear(year, month, day).v <= 365 + Leap(year)
    ensures DayOfYear(year, month, day).v == EcmaTime.MakeDay(year, month - 1, day) - EcmaTime.DayFromYear(year) + 1
  {
    EcmaTime.MakeDayInYear(year, month - 1, day);
  }

  /** A calendar date as the polyfill's `{ year, month, day }` records hold it, month 1-based. */
  datatype YearMonthDay = YearMonthDay(year: int, month: int, day: int)

  /**
   * The date `fromDayOfYear` finds for an ordinal: day-of-year n in
   * 1..days-in-year is the n-th day of the year; an ordinal below 1 stays in
   * January, and one past the year's end stops at month 13 because
   * `daysInMonth(year, 13)` is `undefined`.
   */
  function DateOfDayOfYear(year: int, n: int): YearMonthDay
  {
    var leap := Leap(year);
    if n < 1 then YearMonthDay(year, 1, n)
    else if n <= 365 + leap then
      var m := EcmaTime.MonthInYear(n - 1, leap);
      YearMonthDay(year, m + 1, n - EcmaTime.DaysBeforeMonth(m, leap))
    else YearMonthDay(year, 13, n - 365 - leap)
  }

  /** `fromDayOfYear(year, day)`: the while-loop subtracting month lengths. */
  method FromDayOfYear(year: int, day0: int) returns (r: YearMonthDay)
    ensures r == DateOfDayOfYear(year, day0)
  {
    var leap := Leap(year);
    var month := 1;
    var day := day0;
    while Less(DaysInMonth(year, month), Fin(day))
      invariant 1 <= month <= 13
      invariant day == day0 - EcmaTime.DaysBeforeMonth(month - 1, leap)
      invariant month > 1 ==> day0 > EcmaTime.DaysBeforeMonth(month - 1, leap)
      decreases 13 - month
    {
      day := day - DaysInMonth(year, month).v;
      month := month + 1;
    }
    if 1 <= day0 <= 365 + leap {
      EcmaTime.MonthInYearUnique(day0 - 1, leap, month - 1);
    }
    r := YearMonthDay(year, month, day);
  }

  /** A valid date is recovered from its ordinal. */
  lemma DateOfDayOfYearOfDate(year: int, month: int, day: int)
    requires 1 <= month <= 12 && 1 <= day <= Dim(year, month)
    ensures DateOfDayOfYear(year, DayOfYear(year, month, day).v) == YearMonthDay(year, month, day)
  {
    var n := DayOfYear(year, month, day).v;
    DayOfYearRange(year, month, day);
    EcmaTime.MonthInYearUnique(n - 1, Leap(year), month - 1);
  }

  /** Every ordinal of the year names a valid date whose ordinal it is. */
  lemma DayOfYearOfDateOfDayOfYear(year: int, n: int)
    requires 1 <= n <= 365 + Leap(year)
    ensures var r := DateOfDayOfYear(year, n);
      && r.year == year && 1 <= r.month <= 12 && 1 <= r.day <= Dim(year, r.month)
      && DayOfYear(r.year, r.month, r.day) == Fin(n)
  {
  }

  /** The example of the polyfill's tests: 1976-11-18 is day 323 of its year. */
  lemma DayOfYearExample()
    ensures DayOfYear(1976, 11, 18) == Fin(323)
  {
  }

  // ---------------------------------------------------------------------------
  // Week of year

  /** The ISO weekday of `toDayOfWeek || 7`: Monday 1 through Sunday 7. */
  function IsoWeekday(year: int, month: int, day: int): (w: int)
    ensures 1 <= w <= 7
  {
    var d := ToDayOfWeek(year, month, day);
    if d == 0 then 7 else d
  }

  /**
   * `toWeekOfYear(year, month, day)`. The raw week counts Thursdays; a week
   * below 1 belongs to the previous year and is numbered 53 when January 1
   * falls on a Friday of a leap year or a Saturday of a common year and 52
   * otherwise, testing the leap status of the current year; a week 53 whose
   * Thursday falls past the year's end is week 1. A NaN ordinal gives a NaN week.
   */
  function ToWeekOfYear(year: int, month: int, day: int): Num
  {
    var doy := DayOfYear(year, month, day);
    var dow := IsoWeekday(year, month, day);
    var doj := ToDayOfWeek(year, 1, 1);
    if doy.NaN? then NaN
    else
      var week := (doy.v - dow + 10) / 7;
      if week < 1 then
        (if doj == (if IsLeapYear(year) then 5 else 6) then Fin(53) else Fin(52))
      else if week == 53 && (if IsLeapYear(year) then 366 else 365) - doy.v < 4 - dow then Fin(1)
      else Fin(week)
  }

  /** The ordinal of the Thursday of a date's Monday-to-Sunday week. */
  function ThursdayOrdinal(year: int, month: int, day: int): int
    requires 1 <= month <= 12
  {
    DayOfYear(year, month, day).v - IsoWeekday(year, month, day) + 4
  }

  /**
   * Weeks of valid dates are numbered 1..53, and they agree with ISO 8601
   * (section 4.1.4 of ISO 8601:2004, weeks numbered by their Thursday)
   * whenever the week's Thursday lies in the same year: the week is then the
   * count of Thursdays up to it, and a Thursday past the year's end gives
   * week 1. A Thursday before the year gives 52 or 53.
   */
  lemma WeekOfYearIso(year: int, month: int, day: int)
    requires 1 <= month <= 12 && 1 <= day <= Dim(year, month)
    ensures var w := ToWeekOfYear(year, month, day);
      var t := ThursdayOrdinal(year, month, day);
      && w.Fin? && 1 <= w.v <= 53
      && (1 <= t <= 365 + Leap(year) ==> w.v == (t - 1) / 7 + 1)
      && (t > 365 + Leap(year) ==> w.v == 1)
      && (t < 1 ==> w.v == 52 || w.v == 53)
  {
    DayOfYearRange(year, month, day);
  }

  /** The test example: 1976-11-18 is a Thursday in week 47. */
  lemma WeekOfYearExample()
    ensures ToDayOfWeek(1976, 11, 18) == 4
    ensures ToWeekOfYear(1976, 11, 18) == Fin(47)
  {
  }

  /**
   * January 1, 2010 was a Friday in the 53rd ISO week of 2009, but the early
   * week test checks whether 2010 (not 2009) is a leap year and numbers it 52.
   */
  lemma WeekOfYearPreviousYearQuirk()
    ensures ToDayOfWeek(2010, 1, 1) == 5
    ensures ToWeekOfYear(2010, 1, 1) == Fin(52)
  {
  }

  // ---------------------------------------------------------------------------
  // From week of year

  /**
   * The first ordinal `fromWeekOfYear` computes, `week * 7 + weekday -
   * (toDayOfWeek(year, 1, 4) || 7 + 3)`: by precedence the subtrahend is the
   * weekday of January 4, or 10 when that is a Sunday.
   */
  function WeekDateOrdinal(year: int, week: int, weekday: int): int
  {
    var j := ToDayOfWeek(year, 1, 4);
    week * 7 + weekday - (if j != 0 then j else 10)
  }

  /** The date `fromWeekOfYear` returns: the ordinal is counted from January 1 of `year` across year boundaries. */
  function DateOfWeek(year: int, week: int, weekday: int): YearMonthDay
  {
    var n := EcmaTime.DayFromYear(year) + WeekDateOrdinal(year, week, weekday) - 1;
    var y := EcmaTime.YearFromDay(n);
    DateOfDayOfYear(y, n - EcmaTime.DayFromYear(y) + 1)
  }

  /** `isLeapYear(year) ? 366 : 365` */
  function YearLength(year: int): int
  {
    if IsLeapYear(year) then 366 else 365
  }

  lemma YearLengthStep(year: int)
    ensures EcmaTime.DayFromYear(year + 1) == EcmaTime.DayFromYear(year) + YearLength(year)
  {
    LeapYearIsLongYear(year);
  }

  /** `fromWeekOfYear(year, week, weekday)`: two while-loops bring the ordinal into its year, then `fromDayOfYear`. */
  method FromWeekOfYear(year0: int, week: int, weekday: int) returns (r: YearMonthDay)
    ensures r == DateOfWeek(year0, week, weekday)
  {
    var doy0 := WeekDateOrdinal(year0, week, weekday);
    var year, doy := OrdinalIntoYear(year0, doy0);
    ghost var n := EcmaTime.DayFromYear(year0) + doy0 - 1;
    EcmaTime.YearFromDayUnique(n, year);
    assert n - EcmaTime.DayFromYear(year) + 1 == doy;
    r := FromDayOfYear(year, doy);
  }

  /** The two loops of `fromWeekOfYear`: they move the ordinal doy0 of year0 into the year it falls in. */
  method OrdinalIntoYear(year0: int, doy0: int) returns (year: int, doy: int)
    ensures 1 <= doy <= YearLength(year)
    ensures EcmaTime.DayFromYear(year) + doy == EcmaTime.DayFromYear(year0) + doy0
    ensures EcmaTime.DayFromYear(year) <= EcmaTime.DayFromYear(year) + doy - 1 < EcmaTime.DayFromYear(year) + EcmaTime.DaysInYear(year)
  {
    year, doy := year0, doy0;
    while doy < 1
      invariant EcmaTime.DayFromYear(year) + doy == EcmaTime.DayFromYear(year0) + doy0
      decreases 1 - doy
    {
      year := year - 1;
      YearLengthStep(year);
      doy := YearLength(year) + doy;
    }
    while doy > YearLength(year)
      invariant doy >= 1
      invariant EcmaTime.DayFromYear(year) + doy == EcmaTime.DayFromYear(year0) + doy0
      decreases doy
    {
      YearLengthStep(year);
      doy := doy - YearLength(year);
      year := year + 1;
    }
    YearLengthStep(year);
    EcmaTime.DayFromYearStep(year);
  }

  /**
   * After the two loops the ordinal lies within its year, so `fromWeekOfYear`
   * always returns a valid date: the one WeekDateOrdinal - 1 days after
   * January 1 of the given year.
   */
  lemma DateOfWeekValid(year: int, week: int, weekday: int)
    ensures var r := DateOfWeek(year, week, weekday);
      && 1 <= r.month <= 12 && 1 <= r.day <= Dim(r.year, r.month)
      && EcmaTime.MakeDay(r.year, r.month - 1, r.day) == EcmaTime.DayFromYear(year) + WeekDateOrdinal(year, week, weekday) - 1
  {
    var n := EcmaTime.DayFromYear(year) + WeekDateOrdinal(year, week, weekday) - 1;
    var y := EcmaTime.YearFromDay(n);
    var k := n - EcmaTime.DayFromYear(y) + 1;
    assert 1 <= k <= 365 + Leap(y) by {
      LeapAgrees(y);
    }
    var r := DateOfDayOfYear(y, k);
    assert r == DateOfWeek(year, week, weekday);
    DayOfYearOfDateOfDayOfYear(y, k);
    DayOfYearRange(y, r.month, r.day);
  }

  // ---------------------------------------------------------------------------
  // calculate

  /** The nine fields of a date-time as `calculate` reads them, missing ones defaulted to 0. */
  datatype Fields = Fields(year: int, month: int, day: int, hour: int, minute: int, second: int,
                           millisecond: int, microsecond: int, nanosecond: int)

  /** The nine components of a duration as `calculate` reads them, missing ones defaulted to 0. */
  datatype Delta = Delta(years: int, months: int, days: int, hours: int, minutes: int, seconds: int,
                         milliseconds: int, microseconds: int, nanoseconds: int)

  /** What `calculate` returns: the day is NaN after an underflow out of January. */
  datatype Calculated = Calculated(year: int, month: int, day: Num, hour: int, minute: int, second: int,
                                   millisecond: int, microsecond: int, nanosecond: int)

  const NsPerMicrosecond := 1000
  const NsPerMillisecond := 1000000
  const NsPerSecond := 1000000000
  const NsPerMinute := 60000000000
  const NsPerHour := 3600000000000
  const NsPerDay := 86400000000000

  /** `(negate ? -1 : 1) * x` */
  function Signed(negate: bool, x: int): int
  {
    if negate then -x else x
  }

  /** One pair of carry loops of `calculate`: lo is brought into 0..base-1 and hi takes the carry. */
  method Carry(lo0: int, hi0: int, base: int) returns (lo: int, hi: int)
    requires base > 0
    ensures lo == lo0 % base && hi == hi0 + lo0 / base
  {
    lo, hi := lo0, hi0;
    while lo < 0
      invariant lo + base * hi == lo0 + base * hi0
      invariant lo0 < 0 ==> lo < base
      decreases -lo
    {
      lo := lo + base;
      hi := hi - 1;
    }
    while lo >= base
      invariant 0 <= lo && (lo0 < 0 ==> lo < base)
      invariant lo + base * hi == lo0 + base * hi0
      decreases lo
    {
      lo := lo - base;
      hi := hi + 1;
    }
    assert base * (hi - hi0) == base * hi - base * hi0;
    DivModUnique(lo0, base, hi - hi0, lo);
  }

  /** The month the pair of month loops leaves: month0 counted modulo 12 into 1..12. */
  function WrappedMonth(month0: int): (m: int)
    ensures 1 <= m <= 12
    ensures 1 <= month0 <= 12 ==> m == month0
  {
    (month0 - 1) % 12 + 1
  }

  /** The year the pair of month loops leaves: whole years of month0 moved into year0. */
  function WrappedYear(year0: int, month0: int): (y: int)
    ensures 12 * y + WrappedMonth(month0) == 12 * year0 + month0
  {
    year0 + (month0 - 1) / 12
  }

  /** The pair of month loops: month brought into 1..12, whole years moved into year. */
  method WrapMonth(year0: int, month0: int) returns (year: int, month: int)
    ensures month == WrappedMonth(month0) && year == WrappedYear(year0, month0)
    ensures 1 <= month0 <= 12 ==> year == year0 && month == month0
  {
    year, month := year0, month0;
    while month < 1
      invariant month + 12 * year == month0 + 12 * year0
      invariant month0 < 1 ==> month < 13
      decreases -month
    {
      month := month + 12;
      year := year - 1;
    }
    while month > 12
      invariant 1 <= month && (month0 < 1 ==> month < 13)
      invariant month + 12 * year == month0 + 12 * year0
      decreases month
    {
      month := month - 12;
      year := year + 1;
    }
    DivModUnique(month0 - 1, 12, year - year0, month - 1);
  }

  /**
   * The day-balancing loops of `calculate` (year and month 1..12 already
   * balanced): a day in 1..daysInMonth is the day number's own date; a day
   * below 1 steps back month by month, and once it steps back from January it
   * reads `daysInMonth(year, 0)`, which is `undefined`, leaving a NaN day in
   * December of the previous year.
   */
  function NormalizeDay(year: int, month: int, day: int): (r: (int, int, Num))
    requires 1 <= month <= 12
    ensures 1 <= r.1 <= 12
  {
    var ord := EcmaTime.DaysBeforeMonth(month - 1, Leap(year)) + day;
    if day < 1 && ord < 1 then (year - 1, 12, NaN)
    else
      var c := EcmaTime.DayToCivil(EcmaTime.DayFromYear(year) + ord - 1);
      (c.year, c.month + 1, Fin(c.date))
  }

  /** A day of at least 1 is the date of its day number, counted from January 1. */
  lemma NormalizeDayOfPositive(year: int, month: int, day: int) returns (w: int, c: EcmaTime.CivilDay)
    requires 1 <= month <= 12 && 1 <= day
    ensures w == EcmaTime.DaysBeforeMonth(month - 1, Leap(year)) + day - 1
    ensures c == EcmaTime.DayToCivil(EcmaTime.DayFromYear(year) + w)
    ensures NormalizeDay(year, month, day) == (c.year, c.month + 1, Fin(c.date))
  {
    w := EcmaTime.DaysBeforeMonth(month - 1, Leap(year)) + day - 1;
    c := EcmaTime.DayToCivil(EcmaTime.DayFromYear(year) + w);
    assert EcmaTime.DayFromYear(year) + w == EcmaTime.DayFromYear(year) + (EcmaTime.DaysBeforeMonth(month - 1, Leap(year)) + day) - 1;
  }

  /** The ordinal of a valid day lies within its month's span of the year. */
  lemma OrdinalInMonth(year: int, month: int, day: int)
    requires 1 <= month <= 12 && 1 <= day <= Dim(year, month)
    ensures var leap := Leap(year); var w := EcmaTime.DaysBeforeMonth(month - 1, leap) + day - 1;
      0 <= EcmaTime.DaysBeforeMonth(month - 1, leap) <= w < EcmaTime.DaysBeforeMonth(month, leap)
      && w < EcmaTime.DaysInYear(year)
  {
    LeapAgrees(year);
  }

  /** A day within its month is left where it is. */
  lemma NormalizeDayOfValid(year: int, month: int, day: int)
    requires 1 <= month <= 12 && 1 <= day <= Dim(year, month)
    ensures NormalizeDay(year, month, day) == (year, month, Fin(day))
  {
    var w, c := NormalizeDayOfPositive(year, month, day);
    OrdinalInMonth(year, month, day);
    LeapAgrees(year);
    EcmaTime.CivilInYear(year, month, day, w);
  }

  /** A day past its month's end, by at most the next month's length, lands in the next month of the same year. */
  lemma NormalizeDayOverflow(year: int, month: int, day: int)
    requires 1 <= month <= 11 && Dim(year, month) < day <= Dim(year, month) + Dim(year, month + 1)
    ensures NormalizeDay(year, month, day) == (year, month + 1, Fin(day - Dim(year, month)))
  {
    var w, c := NormalizeDayOfPositive(year, month, day);
    var leap, d := Leap(year), day - Dim(year, month);
    assert w == EcmaTime.DaysBeforeMonth(month, leap) + d - 1 by {
      assert DaysInMonth(year, month).Fin?;
    }
    OrdinalInMonth(year, month + 1, d);
    LeapAgrees(year);
    EcmaTime.CivilOfOrdinal(year, w);
    EcmaTime.MonthInYearUnique(w, leap, month);
    assert c == EcmaTime.CivilDay(year, month, d);
  }

  /** A day of at most 31 past its month's end: the month is not December, and the day lands in the next month. */
  lemma NormalizeDayPastEnd(year: int, month: int, day: int)
    requires 1 <= month <= 12 && Dim(year, month) < day <= 31
    ensures month < 12 && NormalizeDay(year, month, day) == (year, month + 1, Fin(day - Dim(year, month)))
  {
    assert Dim(year, month + 1) >= 28;
    NormalizeDayOverflow(year, month, day);
  }

  /** The loop stepping an underflowing day back month by month (its first pass reads the previous month's length). */
  method DaysBackward(year0: int, month0: int, day0: int) returns (year: int, month: int, day: Num)
    requires 1 <= month0 <= 12
    ensures var ord := EcmaTime.DaysBeforeMonth(month0 - 1, Leap(year0)) + day0;
      && (day.NaN? <==> day0 < 1 && ord < 1)
      && (day.NaN? ==> year == year0 - 1 && month == 12)
      && (day.Fin? ==> year == year0 && 1 <= month <= 12 && day.v >= 1
                       && EcmaTime.DaysBeforeMonth(month - 1, Leap(year0)) + day.v == ord)
  {
    var leap0 := Leap(year0);
    ghost var ord := EcmaTime.DaysBeforeMonth(month0 - 1, leap0) + day0;
    year, month, day := year0, month0, Fin(day0);
    while Less(day, Fin(1))
      invariant 1 <= month <= 12
      invariant day.Fin? ==> year == year0 && EcmaTime.DaysBeforeMonth(month - 1, leap0) + day.v == ord
      invariant day.Fin? && day.v < 1 ==> day0 < 1
      invariant day.NaN? ==> year == year0 - 1 && month == 12 && day0 < 1 && ord < 1
      decreases if day.Fin? then month else 0
    {
      month := month - 1;
      day := Add(DaysInMonth(year, month), day);
      if month < 1 {
        month := 12;
        year := year - 1;
      }
    }
  }

  /** Moving a month's length of days into the next month keeps the day number. */
  lemma NextMonthSameDay(year: int, month: int, day: int)
    requires 1 <= month <= 12
    ensures var d := day - Dim(year, month);
      if month == 12 then EcmaTime.MakeDay(year + 1, 0, d) == EcmaTime.MakeDay(year, 11, day)
      else EcmaTime.MakeDay(year, month, d) == EcmaTime.MakeDay(year, month - 1, day)
  {
    EcmaTime.MakeDayInYear(year, month - 1, day);
    if month == 12 {
      EcmaTime.DayFromYearStep(year);
      EcmaTime.MakeDayInYear(year + 1, 0, day - Dim(year, month));
    } else {
      EcmaTime.MakeDayInYear(year, month, day - Dim(year, month));
    }
  }

  /** The loop moving an overflowing day forward month by month, across years. */
  method DaysForward(year0: int, month0: int, day0: int) returns (year: int, month: int, day: int)
    requires 1 <= month0 <= 12 && day0 >= 1
    ensures var c := EcmaTime.DayToCivil(EcmaTime.MakeDay(year0, month0 - 1, day0));
      (year, month, day) == (c.year, c.month + 1, c.date)
  {
    ghost var n := EcmaTime.MakeDay(year0, month0 - 1, day0);
    year, month, day := year0, month0, day0;
    while Less(DaysInMonth(year, month), Fin(day))
      invariant 1 <= month <= 12
      invariant day >= 1 && EcmaTime.MakeDay(year, month - 1, day) == n
      decreases day
    {
      NextMonthSameDay(year, month, day);
      day := day - DaysInMonth(year, month).v;
      month := month + 1;
      if month > 12 {
        month := 1;
        year := year + 1;
      }
    }
    LeapAgrees(year);
    EcmaTime.CivilOfMakeDay(year, month - 1, day);
    assert EcmaTime.DayToCivil(n) == EcmaTime.CivilDay(year, month - 1, day);
  }

  /** The day loops of `calculate`; the forward loop makes no pass over a NaN day. */
  method NormalizeDays(year0: int, month0: int, day0: int) returns (year: int, month: int, day: Num)
    requires 1 <= month0 <= 12
    ensures (year, month, day) == NormalizeDay(year0, month0, day0)
  {
    year, month, day := DaysBackward(year0, month0, day0);
    ghost var ord := EcmaTime.DaysBeforeMonth(month0 - 1, Leap(year0)) + day0;
    if day.Fin? {
      LeapAgrees(year0);
      EcmaTime.MakeDayInYear(year, month - 1, day.v);
      assert EcmaTime.MakeDay(year, month - 1, day.v) == EcmaTime.DayFromYear(year0) + ord - 1;
      var y, m, d := DaysForward(year, month, day.v);
      year, month, day := y, m, Fin(d);
    }
  }

  /** The fields with the raw delta added, before any carrying (lines 109..117). */
  function Shifted(f: Fields, d: Delta, negate: bool): Fields
  {
    Fields(f.year + Signed(negate, d.years), f.month + Signed(negate, d.months), f.day + Signed(negate, d.days),
           f.hour + Signed(negate, d.hours), f.minute + Signed(negate, d.minutes), f.second + Signed(negate, d.seconds),
           f.millisecond + Signed(negate, d.milliseconds), f.microsecond + Signed(negate, d.microseconds),
           f.nanosecond + Signed(negate, d.nanoseconds))
  }

  /**
   * The six time carries of `calculate`: each time field brought into its
   * unit's range, its floored carry added to the next larger unit up to the day.
   */
  function CarryTime(g: Fields): Fields
  {
    var ns := g.nanosecond;
    var us := g.microsecond + ns / 1000;
    var ms := g.millisecond + us / 1000;
    var sec := g.second + ms / 1000;
    var min := g.minute + sec / 60;
    var hr := g.hour + min / 60;
    Fields(g.year, g.month, g.day + hr / 24, hr % 24, min % 60, sec % 60, ms % 1000, us % 1000, ns % 1000)
  }

  /** Fields without a time, as a date's are, carry nothing. */
  lemma CarryTimeOfDate(g: Fields)
    requires g.hour == g.minute == g.second == g.millisecond == g.microsecond == g.nanosecond == 0
    ensures CarryTime(g) == g
  {
  }

  /** The time carries leave a clock already within range as it is. */
  lemma CarryTimeOfClock(g: Fields)
    requires ClockValid(g.hour, g.minute, g.second, g.millisecond, g.microsecond, g.nanosecond)
    ensures CarryTime(g) == g
  {
  }

  /** The month loops, then the day loops: the month brought into 1..12 with whole years carried, then NormalizeDay. */
  function BalanceDate(year: int, month: int, day: int): (int, int, Num)
  {
    NormalizeDay(WrappedYear(year, month), WrappedMonth(month), day)
  }

  /** BalanceDate is NormalizeDay at the wrapped year and month. */
  lemma BalanceOfWrapped(year: int, month: int, day: int, wy: int, wm: int) returns (r: (int, int, Num))
    requires wy == WrappedYear(year, month) && wm == WrappedMonth(month)
    ensures r == BalanceDate(year, month, day) && r == NormalizeDay(wy, wm, day)
  {
    r := BalanceDate(year, month, day);
  }

  /** The month and day balancing of `calculate`, after the time carries. */
  function Balance(c: Fields): Calculated
  {
    var ymd := BalanceDate(c.year, c.month, c.day);
    Calculated(ymd.0, ymd.1, ymd.2, c.hour, c.minute, c.second, c.millisecond, c.microsecond, c.nanosecond)
  }

  /**
   * What `calculate(f, d, negate)` returns: the delta is added (or
   * subtracted) field by field, the time fields are carried, the month is
   * brought into 1..12 with whole years carried, and the day is balanced by
   * NormalizeDay.
   */
  function CalculateSpec(f: Fields, d: Delta, negate: bool): Calculated
  {
    Balance(CarryTime(Shifted(f, d, negate)))
  }

  /** The six pairs of time-carry loops of `calculate`, from nanoseconds up to the day. */
  method CarryTimeFields(g: Fields) returns (c: Fields)
    ensures c == CarryTime(g)
  {
    var day, hour, minute, second := g.day, g.hour, g.minute, g.second;
    var millisecond, microsecond, nanosecond := g.millisecond, g.microsecond, g.nanosecond;
    nanosecond, microsecond := Carry(nanosecond, microsecond, 1000);
    microsecond, millisecond := Carry(microsecond, millisecond, 1000);
    millisecond, second := Carry(millisecond, second, 1000);
    second, minute := Carry(second, minute, 60);
    minute, hour := Carry(minute, hour, 60);
    hour, day := Carry(hour, day, 24);
    c := Fields(g.year, g.month, day, hour, minute, second, millisecond, microsecond, nanosecond);
  }

  /** `calculate(fields, duration, negate)`: the delta, then the carry loops in the order `calculate` runs them. */
  method Calculate(f: Fields, d: Delta, negate: bool) returns (r: Calculated)
    ensures r == CalculateSpec(f, d, negate)
  {
    var shifted := Fields(f.year + Signed(negate, d.years), f.month + Signed(negate, d.months),
                          f.day + Signed(negate, d.days), f.hour + Signed(negate, d.hours),
                          f.minute + Signed(negate, d.minutes), f.second + Signed(negate, d.seconds),
                          f.millisecond + Signed(negate, d.milliseconds),
                          f.microsecond + Signed(negate, d.microseconds),
                          f.nanosecond + Signed(negate, d.nanoseconds));
    assert shifted == Shifted(f, d, negate);
    var c := CarryTimeFields(shifted);
    r := BalanceFields(c);
  }

  /** The month loops, the day loops and the month loops again, after the time carries. */
  method BalanceFields(c: Fields) returns (r: Calculated)
    ensures r == Balance(c)
  {
    var year, month := WrapMonth(c.year, c.month);
    var y, m, dd := NormalizeDays(year, month, c.day);
    ghost var ymd := (y, m, dd);
    assert ymd == BalanceDate(c.year, c.month, c.day);
    y, m := WrapMonth(y, m);
    assert (y, m, dd) == ymd;
    r := Calculated(y, m, dd, c.hour, c.minute, c.second, c.millisecond, c.microsecond, c.nanosecond);
  }


  /** The time of day in nanoseconds. */
  function TimeNs(hour: int, minute: int, second: int, millisecond: int, microsecond: int, nanosecond: int): int
  {
    hour * NsPerHour + minute * NsPerMinute + second * NsPerSecond
      + millisecond * NsPerMillisecond + microsecond * NsPerMicrosecond + nanosecond
  }

  /**
   * The weighted total of all nine fields in nanoseconds since 1970-01-01,
   * with the date read as ECMA-262's MakeDay does (months outside 1..12 roll
   * into the year, days outside the month into the neighbouring months).
   */
  function TotalNs(f: Fields): int
  {
    EcmaTime.MakeDay(f.year, f.month - 1, f.day) * NsPerDay
      + TimeNs(f.hour, f.minute, f.second, f.millisecond, f.microsecond, f.nanosecond)
  }

  /** A calculated value with a finite day, as plain fields. */
  function FieldsOf(r: Calculated): Fields
    requires r.day.Fin?
  {
    Fields(r.year, r.month, r.day.v, r.hour, r.minute, r.second, r.millisecond, r.microsecond, r.nanosecond)
  }

  /** Every field of a date-time in its range. */
  predicate ValidFields(f: Fields)
  {
    && 1 <= f.month <= 12 && 1 <= f.day <= Dim(f.year, f.month)
    && 0 <= f.hour < 24 && 0 <= f.minute < 60 && 0 <= f.second < 60
    && 0 <= f.millisecond < 1000 && 0 <= f.microsecond < 1000 && 0 <= f.nanosecond < 1000
  }

  /**
   * The January underflow of the day loops: a day below 1 that, counted from
   * January 1 of the balanced year, still lies before it.
   */
  predicate DayUnderflows(year: int, month: int, day: int)
  {
    day < 1 && EcmaTime.DaysBeforeMonth(WrappedMonth(month) - 1, Leap(WrappedYear(year, month))) + day < 1
  }

  /** The January underflow of `calculate`: the time-carried fields underflow out of January. */
  predicate JanuaryUnderflow(f: Fields, d: Delta, negate: bool)
  {
    var c := CarryTime(Shifted(f, d, negate));
    DayUnderflows(c.year, c.month, c.day)
  }

  /** The time carries leave every time field in its unit's range. */
  lemma CarryTimeRange(g: Fields)
    ensures var c := CarryTime(g);
      && 0 <= c.nanosecond < 1000 && 0 <= c.microsecond < 1000 && 0 <= c.millisecond < 1000
      && 0 <= c.second < 60 && 0 <= c.minute < 60 && 0 <= c.hour < 24
      && c.year == g.year && c.month == g.month
  {
  }

  /** The balanced date: month 1..12, a NaN day exactly on underflow, otherwise a day within its month. */
  lemma BalanceDateRange(year: int, month: int, day: int)
    ensures var r := BalanceDate(year, month, day);
      && 1 <= r.1 <= 12
      && (r.2.NaN? <==> DayUnderflows(year, month, day))
      && (r.2.Fin? ==> 1 <= r.2.v <= Dim(r.0, r.1))
  {
    var r := BalanceDate(year, month, day);
    LeapAgrees(r.0);
  }

  /**
   * Ranges after `calculate`: every time field in its unit's range and the
   * month in 1..12; the day is NaN exactly on a January underflow, and
   * otherwise lies in 1..daysInMonth of the resulting month.
   */
  lemma CalculateRanges(f: Fields, d: Delta, negate: bool)
    ensures var r := CalculateSpec(f, d, negate);
      && 0 <= r.nanosecond < 1000 && 0 <= r.microsecond < 1000 && 0 <= r.millisecond < 1000
      && 0 <= r.second < 60 && 0 <= r.minute < 60 && 0 <= r.hour < 24
      && 1 <= r.month <= 12
      && (r.day.NaN? <==> JanuaryUnderflow(f, d, negate))
      && (r.day.Fin? ==> ValidFields(FieldsOf(r)))
  {
    var c := CarryTime(Shifted(f, d, negate));
    CarryTimeRange(Shifted(f, d, negate));
    BalanceDateRange(c.year, c.month, c.day);
  }

  /** A day offset moves MakeDay by the same number of days. */
  lemma MakeDayShift(year: int, month: int, day: int, k: int)
    ensures EcmaTime.MakeDay(year, month, day + k) == EcmaTime.MakeDay(year, month, day) + k
  {
  }

  /** The balanced date day + k days into a month is k days after the day number of day. */
  lemma BalanceShift(year: int, month: int, day: int, k: int, b: (int, int, Num))
    requires b == BalanceDate(year, month, day + k) && b.2.Fin?
    ensures EcmaTime.MakeDay(b.0, b.1 - 1, b.2.v) == EcmaTime.MakeDay(year, month - 1, day) + k
  {
    BalanceConservesAt(year, month, day + k, b);
    MakeDayShift(year, month - 1, day, k);
  }

  /** The balanced date b of a date has that date's day number. */
  lemma BalanceConservesAt(year: int, month: int, day: int, b: (int, int, Num))
    requires b == BalanceDate(year, month, day) && b.2.Fin?
    ensures EcmaTime.MakeDay(b.0, b.1 - 1, b.2.v) == EcmaTime.MakeDay(year, month - 1, day)
  {
    var y, m, d := BalanceDateConserves(year, month, day);
    MakeDayOfTriple(b, y, m, d, EcmaTime.MakeDay(year, month - 1, day));
  }

  /** A balanced date that is the triple (y, m, d) has the day number of y, m and d. */
  lemma MakeDayOfTriple(b: (int, int, Num), y: int, m: int, d: int, n: int)
    requires b == (y, m, Fin(d)) && EcmaTime.MakeDay(y, m - 1, d) == n
    ensures b.2.Fin? && EcmaTime.MakeDay(b.0, b.1 - 1, b.2.v) == n
  {
  }

  /** Equal arguments give MakeDay the same value. */
  lemma MakeDayBridge(y: int, m: int, d: int, y': int, m': int, d': int, n: int)
    requires y == y'
    requires m == m'
    requires d == d'
    requires EcmaTime.MakeDay(y', m', d') == n
    ensures EcmaTime.MakeDay(y, m, d) == n
  {
  }

  /** The time carries keep the weighted nanosecond total of the day and time fields. */
  lemma CarryTimeConserves(g: Fields)
    ensures var c := CarryTime(g);
      c.year == g.year && c.month == g.month && DayTimeNs(c) == DayTimeNs(g)
  {
    var ns := g.nanosecond;
    var us := g.microsecond + ns / 1000;
    var ms := g.millisecond + us / 1000;
    var sec := g.second + ms / 1000;
    var min := g.minute + sec / 60;
    var hr := g.hour + min / 60;
    assert ns == 1000 * (ns / 1000) + ns % 1000;
    assert us == 1000 * (us / 1000) + us % 1000;
    assert ms == 1000 * (ms / 1000) + ms % 1000;
    assert sec == 60 * (sec / 60) + sec % 60;
    assert min == 60 * (min / 60) + min % 60;
    assert hr == 24 * (hr / 24) + hr % 24;
  }

  /** The day-and-time part of the weighted nanosecond total, with the day counted within its month. */
  function DayTimeNs(f: Fields): int
  {
    f.day * NsPerDay + TimeNs(f.hour, f.minute, f.second, f.millisecond, f.microsecond, f.nanosecond)
  }

  /** For fields of the same year and month, the totals differ as their day-and-time parts do. */
  lemma TotalOfSameMonth(r: Fields, c: Fields, delta: int)
    requires r.year == c.year && r.month == c.month
    requires DayTimeNs(r) == DayTimeNs(c) + delta
    ensures TotalNs(r) == TotalNs(c) + delta
  {
    var y, m := c.year, c.month - 1;
    assert TotalNs(r) == EcmaTime.MakeDay(y, m, r.day) * NsPerDay
      + TimeNs(r.hour, r.minute, r.second, r.millisecond, r.microsecond, r.nanosecond);
    MakeDayShift(y, m, c.day, r.day - c.day);
  }

  /** The total of fields whose date has day number n. */
  lemma TotalOfDayNumber(year: int, month: int, day: int, hour: int, minute: int, second: int,
                         millisecond: int, microsecond: int, nanosecond: int, n: int)
    requires EcmaTime.MakeDay(year, month - 1, day) == n
    ensures TotalNs(Fields(year, month, day, hour, minute, second, millisecond, microsecond, nanosecond))
         == n * NsPerDay + TimeNs(hour, minute, second, millisecond, microsecond, nanosecond)
  {
  }

  /** Balancing the month and the day does not move the date's day number (unless the day becomes NaN). */
  lemma BalanceDateConserves(year: int, month: int, day: int) returns (y: int, m: int, d: int)
    requires BalanceDate(year, month, day).2.Fin?
    ensures BalanceDate(year, month, day) == (y, m, Fin(d))
    ensures EcmaTime.MakeDay(y, m - 1, d) == EcmaTime.MakeDay(year, month - 1, day)
  {
    var wy, wm := WrappedYear(year, month), WrappedMonth(month);
    assert BalanceDate(year, month, day) == NormalizeDay(wy, wm, day);
    y, m, d := NormalizeDayConserves(wy, wm, day);
    MakeDayWrapped(year, month, day, wy, wm);
  }

  /** The day balancing keeps the day number, counted from January 1, of a finite result. */
  lemma NormalizeDayConserves(year: int, month: int, day: int) returns (y: int, m: int, d: int)
    requires 1 <= month <= 12 && NormalizeDay(year, month, day).2.Fin?
    ensures NormalizeDay(year, month, day) == (y, m, Fin(d))
    ensures EcmaTime.MakeDay(y, m - 1, d) == EcmaTime.DayFromYear(year) + EcmaTime.DaysBeforeMonth(month - 1, EcmaTime.InLeapYear(year)) + day - 1
  {
    LeapAgrees(year);
    var n := EcmaTime.DayFromYear(year) + EcmaTime.DaysBeforeMonth(month - 1, Leap(year)) + day - 1;
    var c := EcmaTime.DayToCivil(n);
    assert NormalizeDay(year, month, day) == (c.year, c.month + 1, Fin(c.date));
    y, m, d := c.year, c.month + 1, c.date;
    EcmaTime.MakeDayOfCivil(n);
    SameMakeDay(c.year, m - 1, c.date, c.year, c.month, c.date);
  }

  /** MakeDay reads an out-of-range month as the month loops wrap it. */
  lemma MakeDayWrapped(year: int, month: int, day: int, wy: int, wm: int)
    requires wy == WrappedYear(year, month) && wm == WrappedMonth(month)
    ensures EcmaTime.MakeDay(year, month - 1, day) == EcmaTime.DayFromYear(wy) + EcmaTime.DaysBeforeMonth(wm - 1, EcmaTime.InLeapYear(wy)) + day - 1
  {
    assert wy == year + (month - 1) / 12 && wm - 1 == (month - 1) % 12;
  }

  lemma SameMakeDay(y: int, m: int, d: int, y': int, m': int, d': int)
    requires y == y' && m == m' && d == d'
    ensures EcmaTime.MakeDay(y, m, d) == EcmaTime.MakeDay(y', m', d')
  {
  }

  /** `calculate` conserves the weighted nanosecond total of the shifted fields when the day stays finite. */
  lemma CalculateConserves(f: Fields, d: Delta, negate: bool)
    requires CalculateSpec(f, d, negate).day.Fin?
    ensures TotalNs(FieldsOf(CalculateSpec(f, d, negate))) == TotalNs(Shifted(f, d, negate))
  {
    var g := Shifted(f, d, negate);
    CarryTimeConserves(g);
    TotalOfSameMonth(CarryTime(g), g, 0);
    BalanceConserves(CarryTime(g));
  }

  /** The time of day calculate leaves: in range, and the shifted time of day counted modulo one day. */
  lemma CalculateTimeOfDay(f: Fields, d: Delta, negate: bool) returns (t: int)
    ensures var r := CalculateSpec(f, d, negate);
      && 0 <= r.nanosecond < 1000 && 0 <= r.microsecond < 1000 && 0 <= r.millisecond < 1000
      && 0 <= r.second < 60 && 0 <= r.minute < 60 && 0 <= r.hour < 24
      && t == TimeNs(r.hour, r.minute, r.second, r.millisecond, r.microsecond, r.nanosecond)
      && t == (TimeNs(f.hour, f.minute, f.second, f.millisecond, f.microsecond, f.nanosecond)
               + Signed(negate, TimeNs(d.hours, d.minutes, d.seconds, d.milliseconds, d.microseconds, d.nanoseconds))) % NsPerDay
  {
    var g := Shifted(f, d, negate);
    var c := CarryTime(g);
    CarryTimeConserves(g);
    CarryTimeRange(g);
    t := TimeNs(c.hour, c.minute, c.second, c.millisecond, c.microsecond, c.nanosecond);
    var u := TimeNs(g.hour, g.minute, g.second, g.millisecond, g.microsecond, g.nanosecond);
    assert u == TimeNs(f.hour, f.minute, f.second, f.millisecond, f.microsecond, f.nanosecond)
               + Signed(negate, TimeNs(d.hours, d.minutes, d.seconds, d.milliseconds, d.microseconds, d.nanoseconds));
    DivModUnique(u, NsPerDay, c.day - g.day, t);
  }

  /** The month and day balancing conserves the weighted nanosecond total when the day stays finite. */
  lemma BalanceConserves(c: Fields)
    requires Balance(c).day.Fin?
    ensures TotalNs(FieldsOf(Balance(c))) == TotalNs(c)
  {
    var y, m, d := BalanceDateConserves(c.year, c.month, c.day);
    var n := EcmaTime.MakeDay(c.year, c.month - 1, c.day);
    assert FieldsOf(Balance(c)) == Fields(y, m, d, c.hour, c.minute, c.second, c.millisecond, c.microsecond, c.nanosecond);
    TotalOfDayNumber(y, m, d, c.hour, c.minute, c.second, c.millisecond, c.microsecond, c.nanosecond, n);
  }

  /** The weighted nanosecond total of a delta's day and time components. */
  function DeltaNs(d: Delta): int
  {
    d.days * NsPerDay + TimeNs(d.hours, d.minutes, d.seconds, d.milliseconds, d.microseconds, d.nanoseconds)
  }

  /** Without years and months, adding a delta field by field adds (or subtracts) its weighted total. */
  lemma ShiftedTotal(f: Fields, d: Delta, negate: bool)
    requires d.years == 0 && d.months == 0
    ensures TotalNs(Shifted(f, d, negate)) == TotalNs(f) + Signed(negate, DeltaNs(d))
  {
    ShiftedDayTime(f, d, negate);
    TotalOfSameMonth(Shifted(f, d, negate), f, Signed(negate, DeltaNs(d)));
  }

  /** Adding a delta field by field adds (or subtracts) its weighted total to the day-and-time part. */
  lemma ShiftedDayTime(f: Fields, d: Delta, negate: bool)
    ensures var g := Shifted(f, d, negate);
      && g.year == f.year + Signed(negate, d.years) && g.month == f.month + Signed(negate, d.months)
      && DayTimeNs(g) == DayTimeNs(f) + Signed(negate, DeltaNs(d))
  {
  }

  /** Hours, minutes, seconds and the three sub-second fields each within its unit's range. */
  predicate ClockValid(hour: int, minute: int, second: int, millisecond: int, microsecond: int, nanosecond: int)
  {
    && 0 <= hour < 24 && 0 <= minute < 60 && 0 <= second < 60
    && 0 <= millisecond < 1000 && 0 <= microsecond < 1000 && 0 <= nanosecond < 1000
  }

  /** A time of day in range is below one day, and it determines its six fields. */
  lemma ClockInjective(h: int, mi: int, s: int, ms: int, us: int, ns: int, h': int, mi': int, s': int, ms': int, us': int, ns': int)
    requires ClockValid(h, mi, s, ms, us, ns) && ClockValid(h', mi', s', ms', us', ns')
    requires TimeNs(h, mi, s, ms, us, ns) == TimeNs(h', mi', s', ms', us', ns')
    ensures h == h' && mi == mi' && s == s' && ms == ms' && us == us' && ns == ns'
  {
    var t := TimeNs(h, mi, s, ms, us, ns);
    DivModUnique(t, NsPerHour, h, TimeNs(0, mi, s, ms, us, ns));
    DivModUnique(t, NsPerHour, h', TimeNs(0, mi', s', ms', us', ns'));
    DivModUnique(TimeNs(0, mi, s, ms, us, ns), NsPerMinute, mi, TimeNs(0, 0, s, ms, us, ns));
    DivModUnique(TimeNs(0, mi, s, ms, us, ns), NsPerMinute, mi', TimeNs(0, 0, s', ms', us', ns'));
    DivModUnique(TimeNs(0, 0, s, ms, us, ns), NsPerSecond, s, TimeNs(0, 0, 0, ms, us, ns));
    DivModUnique(TimeNs(0, 0, s, ms, us, ns), NsPerSecond, s', TimeNs(0, 0, 0, ms', us', ns'));
    DivModUnique(TimeNs(0, 0, 0, ms, us, ns), NsPerMillisecond, ms, us * 1000 + ns);
    DivModUnique(TimeNs(0, 0, 0, ms, us, ns), NsPerMillisecond, ms', us' * 1000 + ns');
    DivModUnique(us * 1000 + ns, 1000, us, ns);
    DivModUnique(us * 1000 + ns, 1000, us', ns');
  }

  /** The time of day of valid fields determines its six fields. */
  lemma TimeNsInjective(f: Fields, g: Fields)
    requires ValidFields(f) && ValidFields(g)
    requires TimeNs(f.hour, f.minute, f.second, f.millisecond, f.microsecond, f.nanosecond)
          == TimeNs(g.hour, g.minute, g.second, g.millisecond, g.microsecond, g.nanosecond)
    ensures f.hour == g.hour && f.minute == g.minute && f.second == g.second
    ensures f.millisecond == g.millisecond && f.microsecond == g.microsecond && f.nanosecond == g.nanosecond
  {
    ClockInjective(f.hour, f.minute, f.second, f.millisecond, f.microsecond, f.nanosecond,
                   g.hour, g.minute, g.second, g.millisecond, g.microsecond, g.nanosecond);
  }

  /** The date of a valid day number is the date itself. */
  lemma CivilOfValid(f: Fields)
    requires ValidFields(f)
    ensures EcmaTime.DayToCivil(EcmaTime.MakeDay(f.year, f.month - 1, f.day)) == EcmaTime.CivilDay(f.year, f.month - 1, f.day)
  {
    LeapAgrees(f.year);
    EcmaTime.CivilOfMakeDay(f.year, f.month - 1, f.day);
  }

  /** Valid dates have distinct day numbers. */
  lemma MakeDayInjective(f: Fields, g: Fields)
    requires ValidFields(f) && ValidFields(g)
    requires EcmaTime.MakeDay(f.year, f.month - 1, f.day) == EcmaTime.MakeDay(g.year, g.month - 1, g.day)
    ensures f.year == g.year && f.month == g.month && f.day == g.day
  {
    CivilOfValid(f);
    CivilOfValid(g);
  }

  /** The weighted nanosecond total of valid fields determines all nine fields. */
  lemma TotalInjective(f: Fields, g: Fields)
    requires ValidFields(f) && ValidFields(g) && TotalNs(f) == TotalNs(g)
    ensures f == g
  {
    var nf, tf := TotalSplit(f);
    var ng, tg := TotalSplit(g);
    DivModUnique(TotalNs(f), NsPerDay, nf, tf);
    DivModUnique(TotalNs(f), NsPerDay, ng, tg);
    TimeNsInjective(f, g);
    MakeDayInjective(f, g);
  }

  /** Of two valid date-times, the one on the earlier day has the smaller total, whatever the clocks. */
  lemma TotalOfEarlierDay(f: Fields, g: Fields)
    requires ValidFields(f) && ValidFields(g)
    requires EcmaTime.MakeDay(f.year, f.month - 1, f.day) < EcmaTime.MakeDay(g.year, g.month - 1, g.day)
    ensures TotalNs(f) < TotalNs(g)
  {
    var nf, tf := TotalSplit(f);
    var ng, tg := TotalSplit(g);
    assert nf * NsPerDay + NsPerDay <= ng * NsPerDay;
  }

  /** Of two date-times on the same day, the one with the earlier clock has the smaller total. */
  lemma TotalOfSameDay(f: Fields, g: Fields)
    requires f.year == g.year && f.month == g.month && f.day == g.day
    requires TimeNs(f.hour, f.minute, f.second, f.millisecond, f.microsecond, f.nanosecond)
           < TimeNs(g.hour, g.minute, g.second, g.millisecond, g.microsecond, g.nanosecond)
    ensures TotalNs(f) < TotalNs(g)
  {
    var n := EcmaTime.MakeDay(f.year, f.month - 1, f.day);
    assert EcmaTime.MakeDay(g.year, g.month - 1, g.day) == n;
    var tf := TimeNs(f.hour, f.minute, f.second, f.millisecond, f.microsecond, f.nanosecond);
    var tg := TimeNs(g.hour, g.minute, g.second, g.millisecond, g.microsecond, g.nanosecond);
    TotalOfDayNumber(f.year, f.month, f.day, f.hour, f.minute, f.second, f.millisecond, f.microsecond, f.nanosecond, n);
    TotalOfDayNumber(g.year, g.month, g.day, g.hour, g.minute, g.second, g.millisecond, g.microsecond, g.nanosecond, n);
    assert f == Fields(f.year, f.month, f.day, f.hour, f.minute, f.second, f.millisecond, f.microsecond, f.nanosecond);
    assert g == Fields(g.year, g.month, g.day, g.hour, g.minute, g.second, g.millisecond, g.microsecond, g.nanosecond);
  }

  /** The total of valid fields splits into its day number and a time of day below one day. */
  lemma TotalSplit(f: Fields) returns (n: int, t: int)
    requires ValidFields(f)
    ensures n == EcmaTime.MakeDay(f.year, f.month - 1, f.day)
    ensures t == TimeNs(f.hour, f.minute, f.second, f.millisecond, f.microsecond, f.nanosecond)
    ensures TotalNs(f) == n * NsPerDay + t && 0 <= t < NsPerDay
  {
    n := EcmaTime.MakeDay(f.year, f.month - 1, f.day);
    t := TimeNs(f.hour, f.minute, f.second, f.millisecond, f.microsecond, f.nanosecond);
  }

  /**
   * Day and time deltas applied with negate false and then with negate true
   * restore valid fields, as long as neither call underflows out of January.
   */
  lemma CalculateUndo(f: Fields, d: Delta)
    requires ValidFields(f) && d.years == 0 && d.months == 0
    requires CalculateSpec(f, d, false).day.Fin?
    requires CalculateSpec(FieldsOf(CalculateSpec(f, d, false)), d, true).day.Fin?
    ensures FieldsOf(CalculateSpec(FieldsOf(CalculateSpec(f, d, false)), d, true)) == f
  {
    var g := FieldsOf(CalculateSpec(f, d, false));
    var h := FieldsOf(CalculateSpec(g, d, true));
    CalculateConserves(f, d, false);
    ShiftedTotal(f, d, false);
    CalculateConserves(g, d, true);
    ShiftedTotal(g, d, true);
    CalculateRanges(g, d, true);
    TotalInjective(h, f);
  }

  // ---------------------------------------------------------------------------
  // epochMSNS

  /** The `{ ms, ns }` pair: epoch milliseconds and the nanoseconds below the millisecond. */
  datatype EpochParts = EpochParts(ms: int, ns: int)

  /** `epochMSNS(fields)`: `Date.UTC` of the fields down to the millisecond, and microsecond * 1000 + nanosecond. */
  function EpochMSNS(f: Fields): EpochParts
  {
    EpochParts(EcmaTime.DateUtc(f.year, f.month - 1, f.day, f.hour, f.minute, f.second, f.millisecond),
               f.microsecond * 1000 + f.nanosecond)
  }

  /** Outside the years 0..99 (which `Date.UTC` reads as 1900..1999) the pair is the weighted total split at the millisecond. */
  lemma EpochMSNSTotal(f: Fields)
    requires !(0 <= f.year <= 99)
    ensures EpochMSNS(f).ms * 1000000 + EpochMSNS(f).ns == TotalNs(f)
  {
    var n := EcmaTime.MakeDay(f.year, f.month - 1, f.day);
    TotalOfDayNumber(f.year, f.month, f.day, f.hour, f.minute, f.second, f.millisecond, f.microsecond, f.nanosecond, n);
    assert EpochMSNS(f).ms == n * 86400000 + f.hour * 3600000 + f.minute * 60000 + f.second * 1000 + f.millisecond;
  }

  /**
   * The UTC getters of the epoch milliseconds give back the date and the time
   * down to the millisecond, and the nanosecond part splits back into
   * microsecond and nanosecond, for valid fields outside the years 0..99.
   */
  lemma EpochMSNSRoundTrip(f: Fields)
    requires ValidFields(f) && !(0 <= f.year <= 99)
    ensures EcmaTime.Utc(EpochMSNS(f).ms) == EcmaTime.UtcFields(f.year, f.month - 1, f.day, f.hour, f.minute, f.second, f.millisecond)
    ensures 0 <= EpochMSNS(f).ns < 1000000
    ensures EpochMSNS(f).ns / 1000 == f.microsecond && EpochMSNS(f).ns % 1000 == f.nanosecond
  {
    var u := EcmaTime.UtcFields(f.year, f.month - 1, f.day, f.hour, f.minute, f.second, f.millisecond);
    assert EcmaTime.ValidUtc(u) by {
      LeapAgrees(f.year);
    }
    EcmaTime.UtcOfDateUtc(u);
    assert EpochMSNS(f).ms == EcmaTime.DateUtc(u.year, u.month, u.date, u.hours, u.minutes, u.seconds, u.ms);
    SplitThousand(f.microsecond, f.nanosecond);
  }

  lemma SplitThousand(hi: int, lo: int)
    requires 0 <= hi < 1000 && 0 <= lo < 1000
    ensures 0 <= hi * 1000 + lo < 1000000
    ensures (hi * 1000 + lo) / 1000 == hi && (hi * 1000 + lo) % 1000 == lo
  {
    DivModUnique(hi * 1000 + lo, 1000, hi, lo);
  }

  // ---------------------------------------------------------------------------
  // parseOffsetString / makeOffsetString

  /** The groups of a match of `^([+-]?)(\d{2})\:?(\d{2})$`: the sign (possibly empty), the hours and the minutes. */
  datatype OffsetGroups = OffsetGroups(sign: string, hours: string, minutes: string)

  predicate IsSign(c: char)
  {
    c == '+' || c == '-'
  }

  /**
   * The offset regular expression, anchored at both ends: an optional sign,
   * two digits, an optional colon and two more digits. The sign is either
   * consumed or the first digit test fails, so the match is unique.
   */
  function OffsetMatch(s: string): (m: Option<OffsetGroups>)
    ensures m.Some? ==> Text.IsDigits(m.value.hours) && |m.value.hours| == 2
    ensures m.Some? ==> Text.IsDigits(m.value.minutes) && |m.value.minutes| == 2
    ensures m.Some? ==> m.value.sign in {"", "+", "-"}
  {
    var signed := |s| > 0 && IsSign(s[0]);
    var sign := if signed then [s[0]] else "";
    var rest := if signed then s[1..] else s;
    if |rest| == 4 && Text.IsDigits(rest) then
      Some(OffsetGroups(sign, rest[..2], rest[2..]))
    else if |rest| == 5 && rest[2] == ':' && Text.IsDigits(rest[..2]) && Text.IsDigits(rest[3..]) then
      Some(OffsetGroups(sign, rest[..2], rest[3..]))
    else None
  }

  /** The offset in milliseconds that matched groups denote: `(hours * 60 + minutes) * 60 * 1e3 * direction`. */
  function OffsetOfGroups(g: OffsetGroups): int
    requires Text.IsDigits(g.hours) && Text.IsDigits(g.minutes)
  {
    var direction := if g.sign == "-" then -1 else 1;
    (Text.Value(g.hours) * 60 + Text.Value(g.minutes)) * 60 * 1000 * direction
  }

  /** `parseOffsetString(s)`: the offset in milliseconds, or Error('invalid offset string') when the pattern does not match. */
  function ParseOffsetString(s: string): (r: Result<int>)
    ensures r.Throw? <==> OffsetMatch(s).None?
    ensures r.Throw? ==> r.exc == Error
    ensures r.Ok? ==> r.value == OffsetOfGroups(OffsetMatch(s).value)
    ensures r.Ok? ==> Abs(r.value) <= (99 * 60 + 99) * 60000 && r.value % 60000 == 0
  {
    var m := OffsetMatch(s);
    if m.None? then Throw(Error)
    else
      var v := OffsetOfGroups(m.value);
      Text.ValueBound(m.value.hours);
      Text.ValueBound(m.value.minutes);
      assert Text.Pow10(2) == 100;
      var k := Text.Value(m.value.hours) * 60 + Text.Value(m.value.minutes);
      assert v == k * 60000 || v == -(k * 60000);
      assert Abs(v) == k * 60000;
      DivModUnique(v, 60000, if m.value.sign == "-" then -k else k, 0);
      Ok(v)
  }

  /** `('00' + n).slice(-2)`: the last two characters of n's decimal form behind two zeros. */
  function TwoDigits(n: nat): (r: string)
    ensures |r| == 2 && Text.IsDigits(r)
  {
    Text.ValueZerosPrefix(2, Text.Decimal(n));
    assert "00" == Text.Zeros(2);
    SliceLast("00" + Text.Decimal(n), 2)
  }

  /** Below 100, the two characters are the zero-padded number. */
  lemma TwoDigitsOfSmall(n: nat)
    requires n < 100
    ensures TwoDigits(n) == Pad(n, 2) && Text.Value(TwoDigits(n)) == n
  {
    assert "00" == Text.Zeros(2);
    Text.DecimalLength(n, 2);
    assert Text.Pow10(2) == 100;
  }

  /**
   * `makeOffsetString(ms)`: '-' for negative offsets, '+' otherwise, then
   * the whole hours and the remaining whole minutes of |ms|, two digits each;
   * hours past 99 keep only their last two digits.
   */
  function MakeOffsetString(offsetMilliseconds: int): (r: string)
    ensures |r| == 6 && r[3] == ':' && Text.IsDigits(r[1..3]) && Text.IsDigits(r[4..])
    ensures r[0] == (if offsetMilliseconds < 0 then '-' else '+')
  {
    var direction := if offsetMilliseconds < 0 then "-" else "+";
    var offsetMinutes := Abs(offsetMilliseconds) / 60000;
    var hours := offsetMinutes / 60;
    var minutes := offsetMinutes % 60;
    var r := direction + TwoDigits(hours) + ":" + TwoDigits(minutes);
    assert r[1..3] == TwoDigits(hours) && r[4..] == TwoDigits(minutes);
    r
  }

  /** A sign, two digits, a colon and two digits match with those groups. */
  lemma MatchOfSignedColon(sign: char, hh: string, mm: string)
    requires IsSign(sign) && |hh| == 2 && |mm| == 2 && Text.IsDigits(hh) && Text.IsDigits(mm)
    ensures OffsetMatch([sign] + hh + ":" + mm) == Some(OffsetGroups([sign], hh, mm))
  {
    var s := [sign] + hh + ":" + mm;
    var rest := s[1..];
    assert rest == hh + ":" + mm;
    assert rest[..2] == hh && rest[3..] == mm && rest[2] == ':';
    assert !Text.IsDigits(rest) by {
      assert !Text.IsDigit(rest[2]);
    }
  }

  /** The string makeOffsetString emits in terms of the hours and minutes it prints. */
  lemma MakeOffsetStringParts(ms: int) returns (sign: char, hours: nat, minutes: nat)
    ensures sign == (if ms < 0 then '-' else '+')
    ensures hours * 60 + minutes == Abs(ms) / 60000 && minutes < 60
    ensures MakeOffsetString(ms) == [sign] + TwoDigits(hours) + ":" + TwoDigits(minutes)
  {
    sign := if ms < 0 then '-' else '+';
    var om := Abs(ms) / 60000;
    hours, minutes := om / 60, om % 60;
    assert (if ms < 0 then "-" else "+") == [sign];
  }

  /** The string makeOffsetString emits always matches the offset pattern, with its sign. */
  lemma MakeOffsetStringMatches(ms: int)
    ensures var m := OffsetMatch(MakeOffsetString(ms));
      && m.Some? && m.value.sign == (if ms < 0 then "-" else "+")
  {
    var sign, hours, minutes := MakeOffsetStringParts(ms);
    MatchOfSignedColon(sign, TwoDigits(hours), TwoDigits(minutes));
  }

  /**
   * For whole-minute offsets under 100 hours, parsing what makeOffsetString
   * emits gives the offset back.
   */
  lemma ParseOfMakeOffsetString(ms: int)
    requires ms % 60000 == 0 && Abs(ms) < 100 * 3600000
    ensures ParseOffsetString(MakeOffsetString(ms)) == Ok(ms)
  {
    var sign, hours, minutes := MakeOffsetStringParts(ms);
    var hh, mm := TwoDigits(hours), TwoDigits(minutes);
    MatchOfSignedColon(sign, hh, mm);
    TwoDigitsOfSmall(hours);
    TwoDigitsOfSmall(minutes);
    var k := hours * 60 + minutes;
    OffsetOfSigned(sign, hh, mm, k);
    WholeMinutes(ms, k);
  }

  lemma OffsetOfSigned(sign: char, hh: string, mm: string, k: int)
    requires Text.IsDigits(hh) && Text.IsDigits(mm) && k == Text.Value(hh) * 60 + Text.Value(mm)
    ensures OffsetOfGroups(OffsetGroups([sign], hh, mm)) == if sign == '-' then -(k * 60000) else k * 60000
  {
    assert ([sign] == "-") == (sign == '-');
  }

  lemma WholeMinutes(ms: int, k: int)
    requires ms % 60000 == 0 && k == Abs(ms) / 60000
    ensures ms == if ms < 0 then -(k * 60000) else k * 60000
  {
    DivModUnique(ms, 60000, ms / 60000, 0);
  }

  /** The canonical form of a matched offset: explicit sign ('+' for a zero offset), then HH:MM. */
  function CanonicalOffset(g: OffsetGroups): string
    requires Text.IsDigits(g.hours) && Text.IsDigits(g.minutes)
  {
    var zero := Text.Value(g.hours) == 0 && Text.Value(g.minutes) == 0;
    (if g.sign == "-" && !zero then "-" else "+") + g.hours + ":" + g.minutes
  }

  /**
   * makeOffsetString after parseOffsetString gives every accepted offset
   * string with minutes below 60 its canonical form: the sign made explicit,
   * the colon inserted, and "-00:00" turned into "+00:00".
   */
  lemma MakeOfParseOffsetString(s: string)
    requires OffsetMatch(s).Some?
    requires Text.Value(OffsetMatch(s).value.minutes) < 60
    ensures ParseOffsetString(s).Ok?
    ensures MakeOffsetString(ParseOffsetString(s).value) == CanonicalOffset(OffsetMatch(s).value)
  {
    var g := OffsetMatch(s).value;
    var h, m := Text.Value(g.hours), Text.Value(g.minutes);
    Text.ValueBound(g.hours);
    assert Text.Pow10(2) == 100;
    var v := ParseOffsetString(s).value;
    var k := h * 60 + m;
    assert Abs(v) == k * 60000;
    DivModUnique(Abs(v), 60000, k, 0);
    DivModUnique(k, 60, h, m);
    TwoDigitsOfSmall(h);
    TwoDigitsOfSmall(m);
    Text.FixedOfValue(g.hours, 2);
    Text.FixedOfValue(g.minutes, 2);
    assert Pad(h, 2) == g.hours && Pad(m, 2) == g.minutes;
    assert (v < 0) == (g.sign == "-" && k != 0);
  }

  /** Offsets the polyfill's tests parse: "+01:00" is one hour ahead of UTC. */
  lemma ParsePlusExample()
    ensures ParseOffsetString("+01:00") == Ok(3600000)
  {
    SmallValues();
    assert "+01:00" == ['+'] + "01" + ":" + "00";
    ParseSignedColon('+', "01", "00");
  }

  /** "-02:00" is two hours behind. */
  lemma ParseMinusExample()
    ensures ParseOffsetString("-02:00") == Ok(-7200000)
  {
    SmallValues();
    assert "-02:00" == ['-'] + "02" + ":" + "00";
    ParseSignedColon('-', "02", "00");
  }

  /** A one-digit hour is rejected with an Error. */
  lemma ParseRejectExample()
    ensures ParseOffsetString("+1:00") == Throw(Error)
  {
    var s := "+1:00";
    assert s[1..] == "1:00";
  }

  lemma SmallValues()
    ensures Text.IsDigits("00") && Text.IsDigits("01") && Text.IsDigits("02")
    ensures Text.Value("01") == 1 && Text.Value("02") == 2 && Text.Value("00") == 0
  {
    assert "01"[..1] == "0" && "02"[..1] == "0" && "00"[..1] == "0";
  }

  lemma ParseSignedColon(sign: char, hh: string, mm: string)
    requires IsSign(sign) && |hh| == 2 && |mm| == 2 && Text.IsDigits(hh) && Text.IsDigits(mm)
    ensures var k := Text.Value(hh) * 60 + Text.Value(mm);
      ParseOffsetString([sign] + hh + ":" + mm) == Ok(if sign == '-' then -(k * 60000) else k * 60000)
  {
    MatchOfSignedColon(sign, hh, mm);
    OffsetOfSigned(sign, hh, mm, Text.Value(hh) * 60 + Text.Value(mm));
  }

  /** The sign may be left out... */
  lemma ParseUnsignedExample()
    ensures ParseOffsetString("01:00") == Ok(3600000)
  {
    SmallValues();
    var s := "01:00";
    assert !IsSign(s[0]);
    assert s[..2] == "01" && s[3..] == "00";
    assert OffsetMatch(s) == Some(OffsetGroups("", "01", "00"));
  }

  /** ...and so may the colon. */
  lemma ParseNoColonExample()
    ensures ParseOffsetString("+0100") == Ok(3600000)
  {
    SmallValues();
    var s := "+0100";
    var rest := s[1..];
    assert rest == "0100" && rest[..2] == "01" && rest[2..] == "00";
    assert OffsetMatch(s) == Some(OffsetGroups("+", "01", "00"));
  }

  /** The offset strings the polyfill's tests expect to be printed: one hour ahead... */
  lemma MakeOffsetStringPlusExample()
    ensures MakeOffsetString(3600000) == "+01:00"
  {
    PrintedOffset(3600000, 1);
    assert DigitsOfTwo(1) == "01" && DigitsOfTwo(0) == "00";
  }

  /** ...two hours behind... */
  lemma MakeOffsetStringMinusExample()
    ensures MakeOffsetString(-7200000) == "-02:00"
  {
    PrintedOffset(-7200000, 2);
    assert DigitsOfTwo(2) == "02" && DigitsOfTwo(0) == "00";
  }

  /** ...and UTC itself, with a '+'. */
  lemma MakeOffsetStringZeroExample()
    ensures MakeOffsetString(0) == "+00:00"
  {
    PrintedOffset(0, 0);
    assert DigitsOfTwo(0) == "00";
  }

  /** ...and a negative offset of less than a minute, which keeps its '-'. */
  lemma MakeOffsetStringSubMinuteExample()
    ensures MakeOffsetString(-1000) == "-00:00"
  {
    var sign, hours, minutes := MakeOffsetStringParts(-1000);
    TwoDigitsSpelled(0);
    assert DigitsOfTwo(0) == "00";
  }

  /** Any offset of less than a minute either way prints as zero hours and minutes, keeping its sign. */
  lemma MakeOffsetStringSubMinute(ms: int)
    requires -60000 < ms < 60000
    ensures MakeOffsetString(ms) == (if ms < 0 then "-00:00" else "+00:00")
  {
    var sign, hours, minutes := MakeOffsetStringParts(ms);
    TwoDigitsSpelled(0);
    assert DigitsOfTwo(0) == "00";
  }

  /** A whole-hour offset below ten hours prints as its sign, 0, the hour digit and ":00". */
  lemma PrintedOffset(ms: int, h: nat)
    requires h < 10 && Abs(ms) == h * 3600000
    ensures MakeOffsetString(ms) == [if ms < 0 then '-' else '+'] + DigitsOfTwo(h) + ":" + DigitsOfTwo(0)
  {
    var sign, hours, minutes := MakeOffsetStringParts(ms);
    DivModUnique(Abs(ms), 60000, h * 60, 0);
    DivModUnique(h * 60, 60, h, 0);
    TwoDigitsSpelled(h);
    TwoDigitsSpelled(0);
  }

  /** The two digits of a number below 100. */
  function DigitsOfTwo(n: nat): string
    requires n < 100
  {
    [Text.DigitChar(n / 10), Text.DigitChar(n % 10)]
  }

  lemma TwoDigitsSpelled(n: nat)
    requires n < 100
    ensures TwoDigits(n) == DigitsOfTwo(n)
  {
    var t := TwoDigits(n);
    TwoDigitsOfSmall(n);
    assert t[..1][..0] == [];
    assert Text.Value(t[..1]) == Text.DigitValue(t[0]);
    assert Text.Value(t) == 10 * Text.DigitValue(t[0]) + Text.DigitValue(t[1]);
    DivModUnique(n, 10, Text.DigitValue(t[0]), Text.DigitValue(t[1]));
  }

  /** The pad examples of the polyfill's tests. */
  lemma PadExamples()
    ensures Pad(-12, 3) == "012"
    ensures SignedPad(-12, 3) == "-012"
  {
    assert Text.Decimal(12) == "12";
  }

  // ---------------------------------------------------------------------------
  // copyProps

  /** The nine properties copyProps looks at, in the order it copies them. */
  datatype Field = Year | Month | Day | Hour | Minute | Second | Millisecond | Microsecond | Nanosecond

  const AllFields: seq<Field> := [Year, Month, Day, Hour, Minute, Second, Millisecond, Microsecond, Nanosecond]

  lemma AllFieldsComplete(f: Field)
    ensures f in AllFields
  {
  }

  /** A property bag: a field the map lacks is `undefined`. */
  type Props = map<Field, Num>

  /** The bags merged left to right: a later bag's defined fields override earlier ones. */
  function Merge(objs: seq<Props>): Props
  {
    if objs == [] then map[] else Merge(objs[..|objs| - 1]) + objs[|objs| - 1]
  }

  /** The part of obj on the given fields. */
  function Restrict(obj: Props, fs: seq<Field>): (r: Props)
    ensures r.Keys == obj.Keys * set f | f in fs
  {
    map f | f in obj && f in fs :: obj[f]
  }

  /**
   * `copyProps(...objs)`: a fresh result, into which each argument in turn
   * copies every one of the nine fields it defines.
   */
  method CopyProps(objs: seq<Props>) returns (result: Props)
    ensures result == Merge(objs)
  {
    result := map[];
    for i := 0 to |objs|
      invariant result == Merge(objs[..i])
    {
      result := CopyFields(result, objs[i]);
      assert objs[..i + 1][..i] == objs[..i];
    }
    assert objs[..|objs|] == objs;
  }

  /** One pass of copyProps' loop body: the nine guarded assignments from obj. */
  method CopyFields(result0: Props, obj: Props) returns (result: Props)
    ensures result == result0 + obj
  {
    result := result0;
    for j := 0 to |AllFields|
      invariant result == result0 + Restrict(obj, AllFields[..j])
    {
      var f := AllFields[j];
      RestrictStep(obj, AllFields, j);
      if f in obj {
        result := result[f := obj[f]];
      }
    }
    RestrictAll(obj);
    assert AllFields[..|AllFields|] == AllFields;
  }

  lemma RestrictStep(obj: Props, fs: seq<Field>, j: nat)
    requires j < |fs|
    ensures var f := fs[j];
      Restrict(obj, fs[..j + 1]) == if f in obj then Restrict(obj, fs[..j])[f := obj[f]] else Restrict(obj, fs[..j])
  {
    assert fs[..j + 1] == fs[..j] + [fs[j]];
  }

  lemma RestrictAll(obj: Props)
    ensures Restrict(obj, AllFields) == obj
  {
    forall f | f in obj
      ensures f in AllFields
    {
      AllFieldsComplete(f);
    }
  }

  /** A field is defined in the result exactly when some argument defines it. */
  lemma {:induction false} MergeKeys(objs: seq<Props>, f: Field)
    ensures f in Merge(objs) <==> exists i :: 0 <= i < |objs| && f in objs[i]
  {
    if objs != [] {
      var init := objs[..|objs| - 1];
      MergeKeys(init, f);
      if f in Merge(objs) && f !in objs[|objs| - 1] {
        var i :| 0 <= i < |init| && f in init[i];
        assert objs[i] == init[i];
      }
      if exists i :: 0 <= i < |objs| && f in objs[i] {
        var i :| 0 <= i < |objs| && f in objs[i];
        if i < |init| {
          assert init[i] == objs[i];
        }
      }
    }
  }

  /** The last argument that defines a field supplies its value. */
  lemma {:induction false} MergeLastWins(objs: seq<Props>, i: nat, f: Field)
    requires i < |objs| && f in objs[i]
    requires forall j :: i < j < |objs| ==> f !in objs[j]
    ensures f in Merge(objs) && Merge(objs)[f] == objs[i][f]
  {
    if i < |objs| - 1 {
      var init := objs[..|objs| - 1];
      assert init[i] == objs[i];
      MergeLastWins(init, i, f);
    }
  }

  /** Two bags: the second's fields, and the first's wherever the second is undefined. */
  lemma MergeTwo(a: Props, b: Props)
    ensures Merge([a, b]) == a + b
  {
    assert [a, b][..1] == [a];
    assert [a][..0] == [];
    assert Merge([a]) == map[] + a;
    assert map[] + a == a;
  }

  // ---------------------------------------------------------------------------
  // possibleTimestamps: the verify-and-filter step

  /** The wall-clock fields the zone's formatter reports for an instant. */
  datatype WallClock = WallClock(year: int, month: int, day: int, hour: int, minute: int, second: int)

  function WallOf(f: Fields): WallClock
  {
    WallClock(f.year, f.month, f.day, f.hour, f.minute, f.second)
  }

  /**
   * The candidates `{ ms: base - offset, ns }` whose wall clock in the zone
   * reads back as the requested fields, in the order of the offsets.
   */
  function Matching(base: int, ns: int, wall: WallClock, offsets: seq<int>, zone: int -> WallClock): (r: seq<EpochParts>)
    ensures |r| <= |offsets|
    ensures forall p :: p in r ==> zone(p.ms) == wall && p.ns == ns && base - p.ms in offsets
  {
    if offsets == [] then []
    else
      var rest := Matching(base, ns, wall, offsets[1..], zone);
      var ms := base - offsets[0];
      if zone(ms) == wall then [EpochParts(ms, ns)] + rest else rest
  }

  /**
   * `possibleTimestamps(fields, zone)` with the time zone as an oracle from
   * epoch milliseconds to the formatter's wall clock, and `offsets` the
   * zone's candidate offsets in the order `possibleOffsets(...).sort()`
   * yields them. The final sort leaves the list as it is (see
   * ComparatorIgnoresMs).
   */
  function PossibleTimestamps(f: Fields, offsets: seq<int>, zone: int -> WallClock): (r: seq<EpochParts>)
    ensures |r| <= |offsets|
    ensures forall p :: p in r ==> zone(p.ms) == WallOf(f) && p.ns == f.microsecond * 1000 + f.nanosecond
  {
    var e := EpochMSNS(f);
    Matching(e.ms, e.ns, WallOf(f), offsets, zone)
  }

  /** Every offset whose instant shows the requested wall clock contributes that instant. */
  lemma {:induction false} MatchingComplete(base: int, ns: int, wall: WallClock, offsets: seq<int>, zone: int -> WallClock, o: int)
    requires o in offsets && zone(base - o) == wall
    ensures EpochParts(base - o, ns) in Matching(base, ns, wall, offsets, zone)
  {
    if offsets[0] != o {
      MatchingComplete(base, ns, wall, offsets[1..], zone, o);
    }
  }

  /** With strictly ascending offsets the candidate instants come out strictly descending. */
  lemma {:induction false} MatchingDescending(base: int, ns: int, wall: WallClock, offsets: seq<int>, zone: int -> WallClock)
    requires forall i, j :: 0 <= i < j < |offsets| ==> offsets[i] < offsets[j]
    ensures Descending(Matching(base, ns, wall, offsets, zone))
  {
    if offsets != [] {
      var rest := offsets[1..];
      MatchingDescending(base, ns, wall, rest, zone);
      var tail := Matching(base, ns, wall, rest, zone);
      forall p | p in tail
        ensures p.ms < base - offsets[0]
      {
        var k :| 0 <= k < |rest| && rest[k] == base - p.ms;
        assert offsets[k + 1] == rest[k];
      }
      if zone(base - offsets[0]) == wall {
        ConsDescending(EpochParts(base - offsets[0], ns), tail);
      }
    }
  }

  predicate Descending(r: seq<EpochParts>)
  {
    forall i, j :: 0 <= i < j < |r| ==> r[i].ms > r[j].ms
  }

  lemma ConsDescending(h: EpochParts, tail: seq<EpochParts>)
    requires Descending(tail) && forall p :: p in tail ==> p.ms < h.ms
    ensures Descending([h] + tail)
  {
    var r := [h] + tail;
    forall i, j | 0 <= i < j < |r|
      ensures r[i].ms > r[j].ms
    {
      assert r[j] == tail[j - 1];
      if i > 0 {
        assert r[i] == tail[i - 1];
      }
    }
  }

  /** An instant is among the results exactly when its offset is a candidate whose wall clock matches. */
  lemma PossibleTimestampsExact(f: Fields, offsets: seq<int>, zone: int -> WallClock, p: EpochParts)
    ensures var e := EpochMSNS(f);
      p in PossibleTimestamps(f, offsets, zone)
      <==> e.ms - p.ms in offsets && zone(p.ms) == WallOf(f) && p.ns == e.ns
  {
    var e := EpochMSNS(f);
    if e.ms - p.ms in offsets && zone(p.ms) == WallOf(f) && p.ns == e.ns {
      MatchingComplete(e.ms, e.ns, WallOf(f), offsets, zone, e.ms - p.ms);
    }
  }

  /**
   * The final sort's comparator computes `a.ms - b.ms` without returning it
   * and so returns `a.ns - b.ns`, which is 0 for any two results since they
   * share one ns; a stable sort then keeps the list in candidate order.
   */
  function SortComparator(a: EpochParts, b: EpochParts): int
  {
    a.ns - b.ns
  }

  lemma ComparatorIgnoresMs(f: Fields, offsets: seq<int>, zone: int -> WallClock)
    ensures var r := PossibleTimestamps(f, offsets, zone);
      forall i, j :: 0 <= i < |r| && 0 <= j < |r| ==> SortComparator(r[i], r[j]) == 0
  {
    var r := PossibleTimestamps(f, offsets, zone);
    forall i, j | 0 <= i < |r| && 0 <= j < |r|
      ensures SortComparator(r[i], r[j]) == 0
    {
      assert r[i] in r && r[j] in r;
    }
  }

  /** There is a candidate exactly when some offset's instant shows the requested wall clock. */
  lemma PossibleTimestampsNonEmpty(f: Fields, offsets: seq<int>, zone: int -> WallClock)
    ensures var e := EpochMSNS(f);
      |PossibleTimestamps(f, offsets, zone)| > 0 <==> exists o :: o in offsets && zone(e.ms - o) == WallOf(f)
  {
    var e := EpochMSNS(f);
    var r := PossibleTimestamps(f, offsets, zone);
    if exists o :: o in offsets && zone(e.ms - o) == WallOf(f) {
      var o :| o in offsets && zone(e.ms - o) == WallOf(f);
      PossibleTimestampsExact(f, offsets, zone, EpochParts(e.ms - o, e.ns));
    }
    if |r| > 0 {
      PossibleTimestampsExact(f, offsets, zone, r[0]);
      assert e.ms - (e.ms - r[0].ms) == r[0].ms;
    }
  }

  /** With ascending offsets the first candidate is the latest instant. */
  lemma PossibleTimestampsFirstLatest(f: Fields, offsets: seq<int>, zone: int -> WallClock)
    requires forall i, j :: 0 <= i < j < |offsets| ==> offsets[i] < offsets[j]
    ensures var r := PossibleTimestamps(f, offsets, zone);
      |r| > 0 ==> forall p :: p in r ==> p.ms <= r[0].ms
  {
    var e := EpochMSNS(f);
    var r := PossibleTimestamps(f, offsets, zone);
    MatchingDescending(e.ms, e.ns, WallOf(f), offsets, zone);
    forall p | p in r
      ensures p.ms <= r[0].ms
    {
      var k :| 0 <= k < |r| && r[k] == p;
    }
  }
}
