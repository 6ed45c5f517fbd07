# A Dafny model of an early Temporal polyfill

This project models the arithmetic and string-handling core of an early
polyfill of the TC39 Temporal proposal. The repository keeps two superseded
generations side by side, and each is modelled as written, bugs included:

- the `lib/*.mjs` generation:
  - calendar math and field balancing (`lib/shared.mjs`);
  - duration normalization (`lib/duration.mjs`);
  - civil dates, times and date-times (`lib/date.mjs`, `lib/time.mjs`, `lib/datetime.mjs`);
  - fixed-offset and zoned date-times (`lib/offset.mjs`, `lib/zoned.mjs`);
  - instants as integer nanoseconds (`lib/instant.mjs`, `lib/absolute.mjs`);
  - the offset and Intl time zones with their transition search (`lib/timezone.mjs`);
  - the year-month and month-day types (`lib/yearmonth.mjs`, `lib/monthday.mjs`);
- the older `lib/civil/*.mjs` generation: its own `plus` and calendar helpers
  (`lib/civil/shared.mjs`), and `CivilDate`, `CivilTime` and `CivilDateTime`;
- the helpers both generations use (`lib/utils.mjs`): `pad`, `signedpad`,
  `number`, `typeCheck` and the fixed-offset formatter behind `getInstantInfo`.

One Dafny module stands for each source file: Shared, Durations, Dates,
Times, DateTimes, Offsets, Zoned, Instants, Absolutes, TimeZones,
CivilShared, CivilDates, CivilTimes, CivilDateTimes, Utils, YearMonths and
MonthDays. Four helper modules support them:

- Js: integer-valued JavaScript numbers and NaN, thrown exceptions as a `Result`, and BigInt's truncating division;
- Text: decimal digit strings;
- EcmaTime: the day and time arithmetic of `Date.UTC` and the `getUTC*` getters, after section 21.4.1 of ECMA-262;
- Iso: the fixed-width regular expressions of the parsers.

The while-loops of the code become methods proved equal to reference
functions. This covers:

- the carry loops of `calculate` and of the civil `plus`;
- the borrow loops of the date, time and date-time `difference`;
- `castDuration`, `copyProps`, `toDayOfYear`, `fromDayOfYear` and `fromWeekOfYear`;
- the probing and transition loops of `lib/timezone.mjs`.

Pure callers use the reference functions.

JavaScript values the code can produce are modelled explicitly:

- NaN (`Js.Num`), for instance the day `daysInMonth(year, 0)` gives in a January underflow;
- `undefined` fields (`Option`);
- exceptions (`Result`, carrying TypeError, RangeError, ReferenceError, SyntaxError or Error).

A call to a name a file never imports throws a ReferenceError, and is modelled as one.

The Intl time-zone database is a parameter, a `ZoneOracle` that gives the
wall clock at each epoch millisecond. The models of the Intl zones
(`lib/timezone.mjs`, `lib/zoned.mjs`) and of `possibleTimestamps` are
proved against that oracle.

## Model

| member | source | states |
|---|---|---|
| Shared.IsLeapYear | lib/shared.mjs:25-31 | the Gregorian leap-year rule: it holds exactly for the years ECMA-262's day arithmetic makes 366 days long (Shared.LeapYearIsLongYear, Shared.LeapAgrees) |
| Shared.DayOfYear | lib/shared.mjs:51-57 | the ordinal toDayOfYear returns: the loop computes it (Shared.ToDayOfYear); for a valid date it lies in 1..days-in-year and counts the days since January 1 plus one (Shared.DayOfYearRange), and fromDayOfYear maps it back (Shared.DateOfDayOfYearOfDate) |
| Shared.DateOfDayOfYear | lib/shared.mjs:59-66 | the date fromDayOfYear returns: the loop computes it (Shared.FromDayOfYear); every ordinal 1..days-in-year names a valid date whose ordinal it is (Shared.DayOfYearOfDateOfDayOfYear), and it inverts toDayOfYear (Shared.DateOfDayOfYearOfDate) |
| Shared.ToWeekOfYear | lib/shared.mjs:68-89 | toWeekOfYear of a valid date is in 1..53 and is the ISO 8601 week whenever that week's Thursday lies in the same year (Shared.WeekOfYearIso); a week in the previous year tests the current year's leap status (Shared.WeekOfYearPreviousYearQuirk) |
| Shared.DateOfWeek | lib/shared.mjs:91-102 | the date fromWeekOfYear returns: the loops compute it (Shared.FromWeekOfYear); it is always a valid date, January 1 of the given year plus the week-date ordinal minus one (Shared.DateOfWeekValid, Shared.OrdinalIntoYear) |
| Shared.CalculateSpec | lib/shared.mjs:104-159 | what calculate returns: the loops compute it (Shared.Calculate); its time fields are in range, its month 1..12 and its day NaN exactly on a January underflow (Shared.CalculateRanges); a finite day conserves the weighted total (Shared.CalculateConserves), and negate undoes a day-and-time delta (Shared.CalculateUndo) |
| Shared.EpochMSNS | lib/shared.mjs:161-165 | epochMSNS is Date.UTC of the fields to the millisecond and the sub-millisecond nanoseconds: outside the years 0..99 they total the fields' weighted nanoseconds (Shared.EpochMSNSTotal), and the UTC getters give the fields back (Shared.EpochMSNSRoundTrip) |
| Shared.Pad | lib/shared.mjs:8-12 | the text is abs(num) in decimal zero-filled on the left to cnt characters (never cut below the number's own length); it is all digits and reads back as abs(num) |
| Shared.PadNum | lib/shared.mjs:8-12 | a finite number pads as Pad; NaN prints "NaN", zero-filled to cnt |
| Shared.SignedPad | lib/shared.mjs:13-15 | a '-' precedes pad's text exactly for negative numbers |
| Shared.PadExamples | lib/shared.mjs:8-15 | pad(-12, 3) is "012" and signedpad(-12, 3) is "-012" |
| Shared.LeapYearIsLongYear | lib/shared.mjs:25-31 | isLeapYear holds exactly for the years ECMA-262's day arithmetic makes 366 days long, the others being 365 |
| Shared.LeapAgrees | lib/shared.mjs:25-31 | isLeapYear's indicator equals ECMA-262's InLeapYear |
| Shared.DaysInMonth | lib/shared.mjs:17-23 | a month in 1..12 has the length ECMA-262's month table gives in that year; any other month reads past the table and gives undefined (NaN) |
| Shared.Dim | lib/shared.mjs:17-23 | every month has 28..31 days, and 29 exactly for February of a leap year |
| Shared.LongMonth | lib/shared.mjs:17-23 | every month but February has at least 30 days |
| Shared.ToDayOfWeek | lib/shared.mjs:33-49 | Zeller's congruence, corrected from the truncating remainder, lies in 0..6 |
| Shared.RemCorrected | lib/shared.mjs:46-48 | the truncating remainder plus 7 when negative is the floored remainder |
| Shared.DayOfWeekIsWeekDay | lib/shared.mjs:33-49 | for every month 1..12 and any year and day, toDayOfWeek equals ECMA-262's WeekDay of the date's day number (0 is Sunday) |
| Shared.ToDayOfYear | lib/shared.mjs:51-57 | the for-loop returns the day plus the lengths of the months before (NaN once it reads a month past 12) |
| Shared.DayOfYearRange | lib/shared.mjs:51-57 | a valid date's ordinal is finite, lies in 1..days-in-year, and counts the days since January 1 plus one |
| Shared.DayOfYearExample | lib/shared.mjs:51-57 | 1976-11-18 is day 323 |
| Shared.FromDayOfYear | lib/shared.mjs:59-66 | the while-loop returns the date of the ordinal (DateOfDayOfYear) |
| Shared.DateOfDayOfYearOfDate | lib/shared.mjs:51-66 | fromDayOfYear(toDayOfYear(date)) is the date, for every valid date |
| Shared.DayOfYearOfDateOfDayOfYear | lib/shared.mjs:51-66 | every ordinal 1..days-in-year names a valid date of that year whose ordinal it is |
| Shared.IsoWeekday | lib/shared.mjs:70 | toDayOfWeek or 7 when that is 0, is 1..7 |
| Shared.WeekOfYearIso | lib/shared.mjs:68-89 | toWeekOfYear of a valid date is in 1..53, and equals the ISO 8601 week (Thursdays counted) whenever that week's Thursday lies in the same year |
| Shared.WeekOfYearExample | lib/shared.mjs:68-89 | 1976-11-18 is a Thursday (4) in week 47 |
| Shared.WeekOfYearPreviousYearQuirk | lib/shared.mjs:75-81 | 2010-01-01, a Friday of ISO week 53 of 2009, is numbered 52 because the test looks at 2010's leap-year status |
| Shared.FromWeekOfYear | lib/shared.mjs:91-102 | the loops return DateOfWeek: the date WeekDateOrdinal - 1 days after January 1 of the given year |
| Shared.OrdinalIntoYear | lib/shared.mjs:93-100 | the two loops bring the ordinal into 1..length of its year, keeping its day number |
| Shared.DateOfWeekValid | lib/shared.mjs:91-102 | fromWeekOfYear always returns a valid date, whose day number is January 1 of the given year plus the first ordinal minus one |
| Shared.Carry | lib/shared.mjs:119-135 | one pair of carry loops leaves lo in 0..base-1 (floored remainder) and adds the floored quotient to hi |
| Shared.WrapMonth | lib/shared.mjs:137-138 | the month loops give a month in 1..12 and move whole years so that 12*year + month is unchanged; a valid month stays |
| Shared.WrappedMonth | lib/shared.mjs:137-138 | the wrapped month lies in 1..12 and a valid month is unchanged |
| Shared.WrappedYear | lib/shared.mjs:137-138 | 12*year + month is conserved |
| Shared.NormalizeDay | lib/shared.mjs:140-149 | the day loops leave the month in 1..12 |
| Shared.NormalizeDayOfPositive | lib/shared.mjs:145-149 | a day of at least 1 becomes the civil date of its day number counted from January 1 |
| Shared.NormalizeDayOfValid | lib/shared.mjs:140-149 | a day within its month is left as it is |
| Shared.NormalizeDayOverflow | lib/shared.mjs:145-149 | a day past the month's end by at most the next month's length lands in the next month of the same year |
| Shared.NormalizeDayPastEnd | lib/shared.mjs:145-149 | a day of at most 31 past the month's end is not in December and lands in the next month |
| Shared.DaysBackward | lib/shared.mjs:140-144 | the underflow loop keeps the day number, and gives NaN (year - 1, month 12) exactly when the day lies before January 1 |
| Shared.DaysForward | lib/shared.mjs:145-149 | the overflow loop gives the civil date of the day number, across years |
| Shared.NormalizeDays | lib/shared.mjs:140-149 | the two day loops compute NormalizeDay |
| Shared.CarryTimeFields | lib/shared.mjs:119-135 | the six pairs of time-carry loops compute CarryTime |
| Shared.CarryTimeRange | lib/shared.mjs:119-135 | after the time carries every time field lies in its unit's range and the year and month are untouched |
| Shared.CarryTimeConserves | lib/shared.mjs:119-135 | the time carries keep the weighted nanosecond total of the day and time fields |
| Shared.CarryTimeOfClock | lib/shared.mjs:119-135 | a clock already within range is left as it is |
| Shared.CarryTimeOfDate | lib/shared.mjs:119-135 | a date with all time fields zero is left as it is |
| Shared.BalanceFields | lib/shared.mjs:137-152 | the month, day and month loops compute Balance |
| Shared.BalanceDateRange | lib/shared.mjs:137-152 | the balanced month is 1..12; the day is NaN exactly on a January underflow, otherwise within its month |
| Shared.BalanceDateConserves | lib/shared.mjs:137-152 | balancing month and day keeps the date's day number when the day stays finite |
| Shared.NormalizeDayConserves | lib/shared.mjs:140-149 | the day loops keep the day number counted from January 1 |
| Shared.Calculate | lib/shared.mjs:104-159 | `calculate` computes CalculateSpec: the delta added field by field, the time carries, the month wrap and the day balance |
| Shared.CalculateRanges | lib/shared.mjs:104-159 | every time field ends in range and the month in 1..12; the day is NaN exactly on a January underflow, else within its month |
| Shared.CalculateConserves | lib/shared.mjs:104-159 | with a finite day the weighted nanosecond total of the shifted fields is conserved |
| Shared.CalculateTimeOfDay | lib/shared.mjs:104-159 | the time of day left is in range and equals the shifted time of day modulo one day |
| Shared.BalanceConserves | lib/shared.mjs:137-152 | the month and day balancing conserves the total when the day stays finite |
| Shared.ShiftedTotal | lib/shared.mjs:109-117 | without years and months, adding a delta field by field adds (or with negate subtracts) its weighted total |
| Shared.ShiftedDayTime | lib/shared.mjs:109-117 | the shifted year and month move by the signed delta and the day-and-time part by the signed weighted total |
| Shared.CalculateUndo | lib/shared.mjs:104-159 | applying day and time deltas with negate false and then true restores any valid fields, unless a call underflows out of January |
| Shared.TotalInjective | lib/shared.mjs:104-159 | valid fields are determined by their weighted nanosecond total |
| Shared.TotalOfEarlierDay | lib/shared.mjs:104-159 | of two valid date-times the one on the earlier day has the smaller total |
| Shared.TotalOfSameDay | lib/shared.mjs:104-159 | on the same day the earlier clock has the smaller total |
| Shared.TotalSplit | lib/shared.mjs:104-159 | the total of valid fields is its day number times one day plus a time of day below one day |
| Shared.EpochMSNSTotal | lib/shared.mjs:161-165 | outside years 0..99, ms * 10^6 + ns of epochMSNS is the weighted nanosecond total |
| Shared.EpochMSNSRoundTrip | lib/shared.mjs:161-165 | the UTC getters of epochMSNS's milliseconds give back the valid date and time to the millisecond, and ns splits back into microsecond and nanosecond |
| Shared.OffsetMatch | lib/shared.mjs:167 | a match has a sign "", "+" or "-" and two-digit hours and minutes |
| Shared.ParseOffsetString | lib/shared.mjs:168-175 | Error exactly when the pattern fails; otherwise (hours*60+minutes)*60000 with the sign, a whole number of minutes of at most 99:99 |
| Shared.ParseSignedColon | lib/shared.mjs:168-175 | every sign-HH:MM string parses to its signed minutes times 60000 |
| Shared.ParsePlusExample | lib/shared.mjs:168-175 | "+01:00" is 3600000 |
| Shared.ParseMinusExample | lib/shared.mjs:168-175 | "-02:00" is -7200000 |
| Shared.ParseRejectExample | lib/shared.mjs:168-175 | "+1:00" is an Error |
| Shared.ParseUnsignedExample | lib/shared.mjs:167-175 | "01:00" parses (the sign is optional) |
| Shared.ParseNoColonExample | lib/shared.mjs:167-175 | "+0100" parses (the colon is optional) |
| Shared.TwoDigits | lib/shared.mjs:181 | `('00' + n).slice(-2)` is two digits |
| Shared.TwoDigitsOfSmall | lib/shared.mjs:181 | below 100 it is pad(n, 2) and reads back as n |
| Shared.MakeOffsetString | lib/shared.mjs:176-182 | six characters: '-' for negative offsets else '+', two digits, ':', two digits |
| Shared.MakeOffsetStringParts | lib/shared.mjs:176-182 | the string is the sign, the two-digit whole hours and the two-digit remaining minutes of abs(ms) |
| Shared.MakeOffsetStringMatches | lib/shared.mjs:167-182 | every string makeOffsetString prints matches the offset pattern with its sign |
| Shared.ParseOfMakeOffsetString | lib/shared.mjs:167-182 | parseOffsetString(makeOffsetString(ms)) is ms for whole-minute offsets under 100 hours |
| Shared.MakeOfParseOffsetString | lib/shared.mjs:167-182 | makeOffsetString(parseOffsetString(s)) is s's canonical form (sign explicit, colon inserted, "-00:00" as "+00:00") when its minutes are below 60 |
| Shared.MakeOffsetStringPlusExample | lib/shared.mjs:176-182 | 3600000 prints "+01:00" |
| Shared.MakeOffsetStringMinusExample | lib/shared.mjs:176-182 | -7200000 prints "-02:00" |
| Shared.MakeOffsetStringZeroExample | lib/shared.mjs:176-182 | 0 prints "+00:00" |
| Shared.MakeOffsetStringSubMinuteExample | lib/shared.mjs:176-182 | -1000, a negative offset under a minute, prints "-00:00" |
| Shared.CopyProps | lib/shared.mjs:184-198 | the loop's result is Merge of the arguments: later arguments' defined fields override earlier ones |
| Shared.CopyFields | lib/shared.mjs:187-195 | one pass copies exactly the fields obj defines over the result |
| Shared.Restrict | lib/shared.mjs:184-198 | the restriction keeps exactly the object's keys among the given fields |
| Shared.RestrictAll | lib/shared.mjs:184-198 | restricting to the nine fields keeps a fields bag whole |
| Shared.MergeKeys | lib/shared.mjs:184-198 | a field is in the result exactly when some argument defines it |
| Shared.MergeLastWins | lib/shared.mjs:184-198 | the last argument defining a field supplies its value |
| Shared.MergeTwo | lib/shared.mjs:184-198 | two arguments merge as the second's fields over the first's |
| Shared.Matching | lib/shared.mjs:212-223 | each candidate kept has the requested wall clock, the given ns, and an offset among the candidates; at most one per offset |
| Shared.PossibleTimestamps | lib/shared.mjs:200-228 | every result shows the requested wall clock in the zone and carries microsecond*1000 + nanosecond; at most one per offset |
| Shared.PossibleTimestampsExact | lib/shared.mjs:200-228 | an instant is a result exactly when its offset from Date.UTC of the fields is a candidate and its wall clock matches |
| Shared.MatchingComplete | lib/shared.mjs:212-223 | every candidate offset whose instant shows the wall clock contributes that instant |
| Shared.PossibleTimestampsNonEmpty | lib/shared.mjs:200-228 | there is a result exactly when some candidate offset's instant shows the wall clock |
| Shared.ComparatorIgnoresMs | lib/shared.mjs:223-226 | the final comparator returns 0 for every pair of results, so the final sort keeps candidate order |
| Shared.MatchingDescending | lib/shared.mjs:212-223 | with strictly ascending numeric offsets the candidates come out strictly descending in time |
| Shared.PossibleTimestampsFirstLatest | lib/shared.mjs:200-228 | with strictly ascending numeric offsets the first result is the latest instant |
| Shared.MakeOffsetStringSubMinute | lib/shared.mjs:176-181 | every offset strictly between -60000 and 60000 ms prints as "-00:00" when negative and "+00:00" otherwise |
| Durations.CastDurationOf | lib/duration.mjs:41-91 | what castDuration returns: the imperative cast computes it (Durations.CastDuration); it throws an Error exactly when the months fold against a base whose month is not finite, and otherwise has its time fields in range and non-negative days, and without a fold no years or months (Durations.CastDurationProperties) |
| Durations.NewDuration | lib/duration.mjs:9-11 | `new Duration()` always throws a TypeError |
| Durations.MonthLength | lib/duration.mjs:72-73 | daysInMonth at the walked base month: finite (28..31) exactly for months 1..12 |
| Durations.CastDuration | lib/duration.mjs:41-91 | the imperative cast, its carry and fold loops included, computes CastDurationOf |
| Durations.CastDurationProperties | lib/duration.mjs:41-91 | an Error exactly when the months fold and the base month is not finite; otherwise time fields in range, non-negative days, no years or months and the input's weighted total kept when nothing folds, and the days-and-months walk accounted for when it does |
| Durations.CastTimeParts | lib/duration.mjs:54-65 | the cast's clock fields are the time carries of the absolute values |
| Durations.CarryAbsolute | lib/duration.mjs:44-65 | the six floor/remainder steps equal the time carries of the absolute values of the fields |
| Durations.CastOfSameAbs | lib/duration.mjs:44-52 | fields that agree in absolute value cast to the same duration (signs are dropped) |
| Durations.FoldDays | lib/duration.mjs:72-77 | the day loop computes Fold: months taken and days left |
| Durations.FoldProperties | lib/duration.mjs:72-77 | the days walked plus the days left are the input days; non-negative input leaves non-negative days; the loop stops at the first month longer than what is left |
| Durations.FoldStopsFirst | lib/duration.mjs:72-77 | no earlier month of the walk would have stopped the loop |
| Durations.FoldWithin | lib/duration.mjs:72-77 | days that fit the base month fold nothing |
| Durations.FoldMonths | lib/duration.mjs:78 | the months loop computes FoldYears |
| Durations.FoldYears | lib/duration.mjs:78 | 12*years + months is conserved; at most 12 months stay; more are brought into 1..12 |
| Durations.FoldedCast | lib/duration.mjs:67-90 | with a foldable base the duration is the folded years and months, the left days and the carried clock |
| Durations.CastYearsMonthsOnly | lib/duration.mjs:67-90 | a years-and-months-only duration keeps its folded years and months and zero time |
| Durations.CastDateOnlyWithin | lib/duration.mjs:67-90 | a date-only duration whose days fit the base month keeps its days |
| Durations.CastClockWithin | lib/duration.mjs:54-90 | a duration whose clock is already in range keeps it |
| Dates.NewCivilDate | lib/date.mjs:12-15 | `new CivilDate(year, month, day)` is getDateInfo of its arguments: Dates.GetDateInfo states when it succeeds and what it records, Dates.YmdOfNew that a constructed date keeps its fields |
| Dates.With | lib/date.mjs:35-38 | with(dateLike) is the constructor at each field of dateLike that is present and the date's own field otherwise (Dates.WithReplaces, Dates.WithExample) |
| Dates.Plus | lib/date.mjs:39-43 | plus casts the duration against the date, adds it with calculate and constructs the result: Dates.MoveYearsMonths and Dates.MoveDaysShifts state how the year, month and day move, Dates.PlusMinusDays that minus undoes plus of days |
| Dates.Minus | lib/date.mjs:44-48 | minus is plus with the duration subtracted: Dates.MoveYearsMonths and Dates.MoveDaysShifts with negate set, and Dates.PlusMinusDays |
| Dates.ToString | lib/date.mjs:79-82 | toString prints the signed year in at least four digits and the month and day in two; parseISO reads back the year, month and day (Dates.ParseOfToString, Dates.FromStringOfToString) |
| Dates.FromString | lib/date.mjs:87-90 | fromString is parseISO and then the constructor: the inverse of toString for recorded dates with a day of at most 31 (Dates.FromStringOfToString), an Error for a day above 31 (Dates.FromStringOfToStringDayAbove31) and for a month outside 1..12 (Dates.ParseRejectsMonth13) |
| Dates.DifferenceSpec | lib/date.mjs:49-66 | what difference returns: the loops compute it (Dates.Difference), it always succeeds with months 0..12 and non-negative days (Dates.DifferenceProperties), and without borrowing it is the plain field differences (Dates.DifferenceWithin) |
| Dates.GetDateInfo | lib/date.mjs:104-115 | Ok exactly for a finite year, a finite month in 1..12 and a finite day of at least 1 (the upper bound compares the month, so never rejects); otherwise an Error; the record keeps the fields, a weekday in 0..6 and an ordinal of at least 1 |
| Dates.GetDateInfoFebruary31 | lib/date.mjs:107 | as written, 2019-02-31 is accepted |
| Dates.GetDateInfoIntended | lib/date.mjs:104-115 | with the day compared with the month's length, getDateInfo accepts exactly the real calendar dates with finite fields, throws Error otherwise, and on an accepted date records what the code as written records |
| Dates.GetDateInfoIntendedFebruary | lib/date.mjs:107 | with the day compared, 2019-02-31 throws Error and 2019-02-28 is accepted |
| Dates.GetDateInfoOfValid | lib/date.mjs:104-115 | a valid date is accepted, with the ordinal that fromDayOfYear maps back to it, its ISO weekday and week |
| Dates.November18Recorded | lib/date.mjs:12-15 | `new CivilDate(1976, 11, 18)` records Thursday, day 323, week 47 |
| Dates.GetOfProps | lib/date.mjs:16-24 | the year, month and day getters are what copyProps reads from a date |
| Dates.WithReplaces | lib/date.mjs:35-38 | with(dateLike) is the constructor at each field of dateLike that is present, and the date's own field otherwise |
| Dates.WithExample | lib/date.mjs:35-38 | 1976-11-18 with month 5 is 1976-05-18 |
| Dates.YmdOfNew | lib/date.mjs:12-15 | a constructed date with month 1..12 and day of at least 1 has those fields |
| Dates.CalculateOfDate | lib/date.mjs:39-48 | calculate on a date and a date-only delta leaves no time and balances year, month and day as BalanceDate |
| Dates.MoveYearsMonths | lib/date.mjs:39-48 | plus/minus of years and months only: the month moves by the signed whole months and the day is balanced in the month reached |
| Dates.MoveYearsMonthsKeepsDay | lib/date.mjs:39-48 | a day that fits the month reached is kept |
| Dates.MoveYearsMonthsOverflows | lib/date.mjs:39-48 | a day past the end of the month reached (e.g. January 31 plus one month) overflows into the following month |
| Dates.MoveByDays | lib/date.mjs:39-48 | plus/minus of days is calculate with the absolute number of days, then the constructor |
| Dates.MoveDaysShifts | lib/date.mjs:39-48 | plus/minus of n days moves the day number by exactly n (abs(n), signed by negate) |
| Dates.CastDays | lib/duration.mjs:41-91 | a days-only duration-like casts to its absolute days with no years or months |
| Dates.PlusMinusDays | lib/date.mjs:39-48 | minus(plus(d, n days), n days) is d |
| Dates.Compare | lib/date.mjs:117-122 | compare is 0 exactly for equal dates |
| Dates.CompareAntisymmetric | lib/date.mjs:117-122 | swapping the operands negates compare |
| Dates.CompareOrders | lib/date.mjs:117-122 | compare is negative or positive exactly as the dates are in lexicographic order |
| Dates.SortPairSymmetric | lib/date.mjs:51 | the sorted pair does not depend on the operand order and is ascending |
| Dates.BorrowLoop | lib/date.mjs:60 | the borrow loop computes BorrowDays |
| Dates.BorrowDays | lib/date.mjs:60 | a finite day count left by the borrow loop is non-negative |
| Dates.BorrowOnce | lib/date.mjs:60 | a small negative day count borrows one month's length |
| Dates.CarryLoop | lib/date.mjs:61 | the carry loop computes CarryDays |
| Dates.CarryDays | lib/date.mjs:61 | the carry loop never increases the days |
| Dates.CarryDaysCounts | lib/date.mjs:61 | the carry loop never decreases the months and keeps days non-negative |
| Dates.BalanceLoops | lib/date.mjs:62-63 | the month loops compute BalanceMonths |
| Dates.BalanceMonths | lib/date.mjs:62-63 | months end in 0..12 with 12*years + months conserved; months already in 0..12 stay |
| Dates.BalanceMonthsUnique | lib/date.mjs:62-63 | any split with the same total and the loops' range is BalanceMonths |
| Dates.DifferenceOfOrdered | lib/date.mjs:49-66 | for an ascending pair whose first is a valid date the days are finite and non-negative, the months 0..12 and the years non-negative |
| Dates.DifferenceOfWithin | lib/date.mjs:52-63 | when the later date's month and day are not below the earlier's, the difference is the plain field differences |
| Dates.Difference | lib/date.mjs:49-66 | the loops compute DifferenceSpec |
| Dates.DifferenceProperties | lib/date.mjs:49-66 | difference always succeeds with years and months present, months 0..12, non-negative days and no time |
| Dates.DifferenceWithin | lib/date.mjs:49-66 | without borrowing the duration is the plain field differences |
| Dates.CastBorrowed | lib/date.mjs:65 | the final castDuration succeeds with years and months present, months 0..12, non-negative days and no time |
| Dates.ParseISO | lib/date.mjs:94-102 | a match has month 1..12 and day 1..31; no match is an Error |
| Dates.ParseISOOfParts | lib/date.mjs:94-102 | a string Y-MM-DD parses exactly when its signed year of four or more digits, month and day parts do |
| Dates.ParseOfToString | lib/date.mjs:79-102 | parseISO(toString(d)) gives back d's year, month and day for every month 1..12 and day 1..31 |
| Dates.FromStringOfToString | lib/date.mjs:79-90 | fromString(toString(d)) is d for every recorded date with a day of at most 31 |
| Dates.FromStringOfToStringDayAbove31 | lib/date.mjs:79-107 | for every recorded date with a day above 31 (getDateInfo bounds the day by testing the month), fromString(toString(d)) throws an Error |
| Dates.ParseISODayAbove31 | lib/date.mjs:94-97 | a string whose last dash is followed by digits worth more than 31 fails parseISO's regular expression, with an Error |
| Dates.ParsePlusExtendedYear | lib/date.mjs:94-102 | "+010583-06-30" parses to year 10583 |
| Dates.ParseMinusExtendedYear | lib/date.mjs:94-102 | "-000333-06-30" parses to year -333 |
| Dates.ParseRejectsMonth13 | lib/date.mjs:94-102 | "1976-13-01" is an Error |
| Dates.MonthsLater | lib/shared.mjs:137-138 | the year and month k months later: the month in 1..12 and the month count moved by exactly k |
| Dates.WrappedMonthsLater | lib/shared.mjs:137-138 | calculate's month wrapping of a years-and-months delta lands on MonthsLater of the total months |
| Times.NewCivilTime | lib/time.mjs:11-13 | the constructor is calculate of the empty record and the six amounts: Times.NewCivilTimeSpec states that it is always a valid time whose nanosecond of the day is the amounts' total wrapped into one day, Times.NewOfValid that a valid time's own fields give it back |
| Times.With | lib/time.mjs:33-36 | with(timeLike) is the constructor at each field of timeLike that is present and the time's own field otherwise (Times.WithReplaces), and with({}) is the identity (Times.WithNothing) |
| Times.Plus | lib/time.mjs:37-41 | plus casts the duration without a base, adds it with calculate and constructs the result: a valid time whose nanosecond of the day moves by the duration's, modulo one day (Times.MoveSpec); minus undoes it (Times.PlusMinus) |
| Times.Minus | lib/time.mjs:42-46 | minus moves the nanosecond of the day back by the duration's, modulo one day (Times.MoveSpec), and plus undoes it (Times.MinusPlus) |
| Times.ToString | lib/time.mjs:83-87 | toString prints HH:MM:SS and the three sub-second fields in three digits each; parseISO and fromString read back every valid time (Times.ParseOfToString, Times.FromStringOfToString) |
| Times.FromString | lib/time.mjs:92-95 | fromString is parseISO and then the constructor: the inverse of toString on valid times (Times.FromStringOfToString), an Error when the pattern does not match (Times.ParseISO) |
| Times.DifferenceSpec | lib/time.mjs:47-77 | what difference returns: the loops compute it (Times.Difference); it always succeeds and totals the gap plus twice (-gap) mod one hour (Times.DifferenceTotal), whichever time is the receiver (Times.DifferenceSymmetric) |
| Times.DayNsInjective | lib/time.mjs:10-31 | two valid times with the same nanosecond of the day are equal |
| Times.DayNsRange | lib/time.mjs:10-31 | a valid time's nanosecond of the day lies in 0..86399999999999 |
| Times.NewCivilTimeSpec | lib/time.mjs:11-13 | the constructor always gives a valid time whose nanosecond of the day is the fields' total wrapped into one day |
| Times.NewOfValid | lib/time.mjs:11-13 | constructing from a valid time's own fields gives that time back |
| Times.WithReplaces | lib/time.mjs:33-36 | with(timeLike) is the constructor at each field of timeLike that is present and the time's own field otherwise |
| Times.WithNothing | lib/time.mjs:33-36 | with({}) is the identity on valid times |
| Times.ModDays | lib/time.mjs:37-46 | moving by whole days more does not change the time reached |
| Times.MoveSpec | lib/time.mjs:37-46 | plus/minus give a valid time whose nanosecond of the day is the old one plus or minus the duration's, modulo one day |
| Times.CastWithoutBase | lib/duration.mjs:41-91 | the cast duration's sub-day nanoseconds agree with the duration-like's total modulo one day |
| Times.ClockOf | lib/shared.mjs:104-159 | calculate on time fields with no date reaches the wrapped nanosecond of the day |
| Times.MoveBySpec | lib/time.mjs:37-46 | moving by a cast duration reaches the wrapped nanosecond of the day |
| Times.ModUndo | lib/time.mjs:37-46 | undoing a wrapped move gives back the start |
| Times.MoveUndo | lib/time.mjs:37-46 | moving a valid time one way and back gives the time |
| Times.Restores | lib/time.mjs:37-46 | a time whose nanosecond of the day is restored is the start |
| Times.PlusMinus | lib/time.mjs:37-46 | minus(plus(t, d), d) is t for every duration-like |
| Times.MinusPlus | lib/time.mjs:37-46 | plus(minus(t, d), d) is t for every duration-like |
| Times.Compare | lib/time.mjs:113-121 | compare is 0 exactly for equal times |
| Times.CompareAntisymmetric | lib/time.mjs:113-121 | swapping the operands negates compare |
| Times.CompareDescending | lib/time.mjs:113-121 | compare is positive exactly when the first time is earlier: it orders descending |
| Times.EarlierByCompare | lib/time.mjs:113-121 | a positive compare means the first time is earlier |
| Times.SortPairSymmetric | lib/time.mjs:50 | the sorted pair does not depend on the operand order and its first element is the later time |
| Times.OtherOfFields | lib/time.mjs:48 | filling the defaults of a full time record keeps it |
| Times.BorrowSpec | lib/time.mjs:58-71 | the borrow loops leave minutes and seconds in 0..59, sub-seconds in 0..999 and the hours the floor of the nanosecond total in hours |
| Times.SubDayNs | lib/time.mjs:51-56 | the field differences total the difference of the nanoseconds of the day |
| Times.DiffLikeTotal | lib/time.mjs:73-76 | the duration-like handed to castDuration totals abs(hours) hours plus the rest |
| Times.DifferenceOfTotal | lib/time.mjs:49-76 | the difference has no years or months, its time fields in range, and totals abs(q) hours plus the remainder r of the gap's floor division |
| Times.NegativeSplit | lib/time.mjs:58-76 | for a negative gap -n the total is n plus twice (-n) mod one hour |
| Times.DifferenceTotal | lib/time.mjs:47-77 | difference always succeeds and totals the gap n plus twice (-n) mod one hour |
| Times.SortedGap | lib/time.mjs:50-56 | the later minus the earlier of the sorted pair is the gap, within one day |
| Times.DifferenceSymmetric | lib/time.mjs:47-77 | difference does not depend on which time is the receiver |
| Times.ClockOfTotal | lib/duration.mjs:41-91 | a duration with fields in range totalling a valid time's nanosecond of the day has that time's fields |
| Times.DifferenceWholeHours | lib/time.mjs:47-77 | a gap of whole hours gives exactly that many hours |
| Times.WholeHoursClock | lib/time.mjs:47-77 | for whole hours the total is the clock of those hours |
| Times.DifferenceOneHour | lib/time.mjs:47-77 | 15:23:30.123456789 against 14:23:30.123456789 is one hour |
| Times.DifferenceAsWritten | lib/time.mjs:50-71 | as written, 15:23:30.123456789 against 13:30:30.123456789 is 2 hours 7 minutes, not the 1 hour 53 minutes between them |
| Times.DifferenceIntendedSpec | lib/time.mjs:47-77 | with the pair sorted ascending the difference is exactly the gap, with no days |
| Times.WithinDay | lib/time.mjs:58-76 | a non-negative gap below one day casts to exactly that gap |
| Times.DifferenceIntendedExample | lib/time.mjs:47-77 | with the pair sorted ascending, the same operands give 1 hour 53 minutes |
| Times.BorrowLoops | lib/time.mjs:58-71 | the borrow loops compute Borrow |
| Times.Difference | lib/time.mjs:47-77 | the loops compute DifferenceSpec |
| Times.Sub3OfValid | lib/time.mjs:85 | the sub-second slice of a value in 0..999 is its three-digit pad |
| Times.SecondOf | lib/time.mjs:105 | the seconds group is 0 when absent and its value otherwise, within 0..59 |
| Times.SubsOf | lib/time.mjs:106 | the padded and truncated fraction is below 1000000000 |
| Times.ParseISO | lib/time.mjs:99-111 | a match gives a valid time; no match is an Error |
| Times.ParseFields | lib/time.mjs:99-111 | the parse of split hour and minute parts gives a valid time or an Error |
| Times.ParseISOOfParts | lib/time.mjs:99-111 | a string HH:MM followed by the rest parses as its split parts |
| Times.SplitSecondsOf | lib/time.mjs:99 | the optional seconds group is the two digits after the colon |
| Times.FractionOf | lib/time.mjs:99 | a fraction of 3, 6 or 9 digits is the optional fraction group |
| Times.ParseFull | lib/time.mjs:99-111 | HH:MM:SS.fff… parses to those fields, the fraction split into milli, micro and nano |
| Times.ParseShort | lib/time.mjs:99-111 | HH:MM parses with zero seconds and sub-seconds |
| Times.SubsOfNine | lib/time.mjs:106 | a nine-digit fraction is its own value |
| Times.SubsOfThree | lib/time.mjs:106 | a three-digit fraction is scaled to nanoseconds |
| Times.SplitSubs | lib/time.mjs:107-109 | the three slices of the fraction give back the milli, micro and nano parts |
| Times.ParseOfToString | lib/time.mjs:83-111 | parseISO(toString(t)) is t for every valid time |
| Times.FromStringOfToString | lib/time.mjs:83-95 | fromString(toString(t)) is t for every valid time |
| Times.ParseHoursMinutes | lib/time.mjs:99-111 | a padded HH:MM parses to that hour and minute |
| Times.ParseMilliseconds | lib/time.mjs:99-111 | a padded HH:MM:SS.mmm parses to those fields |
| DateTimes.NewCivilDateTime | lib/datetime.mjs:17-21 | the constructor is getDateInfo of the date, then calculate with the six clock amounts: DateTimes.NewSpec states that it succeeds exactly when getDateInfo does and carries the clock into the day, DateTimes.NewOfValid and DateTimes.NewRecorded that valid fields are kept |
| DateTimes.With | lib/datetime.mjs:59-62 | with(like) is the constructor at each field of like that is present and the date-time's own field otherwise (DateTimes.WithReplaces), the identity for {} (DateTimes.WithNothing) |
| DateTimes.Plus | lib/datetime.mjs:63-67 | plus casts the duration against the date-time, adds it with calculate and constructs the result: DateTimes.MoveBySpec states when it succeeds, DateTimes.MoveTimeShift and DateTimes.MoveDateOnly how it moves, and DateTimes.PlusMinus that minus undoes it for a duration without years or months |
| DateTimes.Minus | lib/datetime.mjs:68-72 | minus is plus with the duration subtracted: DateTimes.MoveBySpec, DateTimes.MoveTimeShift and DateTimes.MoveDateOnly with negate set, and DateTimes.PlusMinus |
| DateTimes.WithDate | lib/time.mjs:79-81 | time.withDate(dateLike) is the constructor at the argument's date and the time's six fields; it joins getCivilDate and getCivilTime back into the date-time (DateTimes.SplitJoin, DateTimes.JoinOf) |
| DateTimes.GetCivilDate | lib/datetime.mjs:171-173 | getCivilDate is the CivilDate of the year, month and day (DateTimes.DatePart, DateTimes.SplitJoin) |
| DateTimes.GetCivilTime | lib/datetime.mjs:174-176 | getCivilTime is the CivilTime of the six clock fields; with withDate it splits and joins back a recorded date-time (DateTimes.SplitJoin) |
| DateTimes.WithZone | lib/datetime.mjs:131-159 | withZone picks among possibleTimestamps of the fields: without a filter the earliest instant that maps back to the wall clock (DateTimes.WithZoneDefault); as written a string or symbol filter throws (DateTimes.Select, DateTimes.SelectFinding) |
| DateTimes.ToString | lib/datetime.mjs:184-190 | toString is the date's text, 'T' and the time's text (DateTimes.DateTextOf); parseISO and fromString read back every valid recorded date-time (DateTimes.ParseOfToString, DateTimes.FromStringOfToString) |
| DateTimes.FromString | lib/datetime.mjs:195-198 | fromString is parseISO and then the constructor: the inverse of toString on valid recorded date-times (DateTimes.FromStringOfToString), an Error when the pattern does not match (DateTimes.ParseISO) |
| DateTimes.DifferenceSpec | lib/datetime.mjs:73-129 | what difference returns: the method computes it (DateTimes.Difference); it always succeeds with months 0..12, non-negative days and the clock gap modulo one day (DateTimes.DifferenceProperties); as written the cursor loop miscounts at a month's end (DateTimes.CursorFinding) |
| DateTimes.NewSpec | lib/datetime.mjs:17-21 | the constructor succeeds exactly when getDateInfo does and throws its error otherwise; a success keeps the date, balances the clock fields into the day through calculate and records weekday, ordinal and week |
| DateTimes.NewOfValid | lib/datetime.mjs:17-21 | constructing from valid fields keeps those fields |
| DateTimes.NewRecorded | lib/datetime.mjs:17-21 | a construction from valid fields is a valid, recorded date-time with those fields |
| DateTimes.WithReplaces | lib/datetime.mjs:59-62 | with(like) is the constructor at each field of like that is present and the date-time's own field otherwise |
| DateTimes.WithNothing | lib/datetime.mjs:59-62 | with({}) is the identity on recorded date-times |
| DateTimes.WithExample | lib/datetime.mjs:59-62 | 1976-11-18T15:23:30.123456789 with month 5 and second 15 is 1976-05-18T15:23:15.123456789 |
| DateTimes.WithOfPicks | lib/datetime.mjs:59-62 | with(like) whose picked fields are valid gives exactly those fields |
| DateTimes.NewOfCalculated | lib/datetime.mjs:63-72 | the constructor over calculate's result keeps that result when its day is finite and throws an Error when it is NaN |
| DateTimes.MoveBySpec | lib/datetime.mjs:63-72 | moving by a cast duration succeeds exactly when the day is finite and no January underflow occurs, and then has calculate's fields |
| DateTimes.RecordedUnique | lib/datetime.mjs:17-21 | two recorded date-times with the same fields are equal |
| DateTimes.CastWithoutFold | lib/duration.mjs:41-91 | a duration-like without years or months casts to a delta with no years or months and the same nanosecond total |
| DateTimes.MoveTimeShift | lib/datetime.mjs:63-72 | plus/minus of a duration without years or months moves the nanosecond total by exactly that duration |
| DateTimes.PlusMinus | lib/datetime.mjs:63-72 | minus(plus(dt, d), d) is dt for a duration without years or months |
| DateTimes.CastWithoutTime | lib/duration.mjs:41-91 | a duration-like without time fields casts to a delta without time |
| DateTimes.MoveDateOnly | lib/datetime.mjs:63-72 | plus/minus of a date-only duration moves the date as CivilDate's plus/minus does and keeps the clock |
| DateTimes.CalculateAgrees | lib/shared.mjs:104-159 | calculate on a date-time and on its date agree on the date part for a date-only delta |
| DateTimes.MoveDateOnlyBy | lib/datetime.mjs:63-72 | moving by a date-only cast duration agrees with the date's move and keeps the clock |
| DateTimes.SplitJoin | lib/datetime.mjs:171-176 | getCivilDate and getCivilTime split a recorded date-time, and time.withDate(date) joins them back to it |
| DateTimes.DatePart | lib/datetime.mjs:171-173 | getCivilDate keeps the year, month and day |
| DateTimes.JoinOf | lib/time.mjs:79-81 | withDate of the date-time's own time and date properties is the date-time |
| DateTimes.Compare | lib/datetime.mjs:219-230 | compare is 0 exactly for equal fields |
| DateTimes.CompareAntisymmetric | lib/datetime.mjs:219-230 | swapping the operands negates compare |
| DateTimes.CompareOrders | lib/datetime.mjs:219-230 | compare is negative or positive exactly as the fields are in lexicographic order |
| DateTimes.ClockBeforeNs | lib/datetime.mjs:223-228 | lexicographic order of valid clocks is order of their nanosecond of the day |
| DateTimes.DayInYear | lib/shared.mjs:161-165 | a valid date's day number is the year's first day plus its ordinal within the year |
| DateTimes.DateBeforeDay | lib/datetime.mjs:220-222 | lexicographic order of valid dates is order of their day numbers |
| DateTimes.CompareTotal | lib/datetime.mjs:219-230 | for valid fields compare agrees in sign with the nanoseconds since the epoch |
| DateTimes.BeforeTotal | lib/datetime.mjs:219-230 | fields in lexicographic order have increasing nanosecond totals |
| DateTimes.DateBeforeFields | lib/datetime.mjs:220-222 | a strictly earlier date gives a smaller nanosecond total whatever the clocks |
| DateTimes.SortPairSymmetric | lib/datetime.mjs:75 | the sorted pair does not depend on the operand order and is ascending |
| DateTimes.ModDay | lib/datetime.mjs:91-113 | the carried hours-to-nanoseconds part is the clock gap modulo one day |
| DateTimes.DifferenceClock | lib/datetime.mjs:91-113 | the carry chain leaves a valid clock equal to the clock gap modulo one day |
| DateTimes.CastDifference | lib/datetime.mjs:124-128 | the final castDuration succeeds with years and months present, months 0..12, non-negative days and time fields in range |
| DateTimes.DifferenceProperties | lib/datetime.mjs:73-129 | difference always succeeds with those ranges, and its time part is the clock gap modulo one day |
| DateTimes.CursorOfInside | lib/datetime.mjs:115-116 | a day before the month's last leaves the cursor month unchanged |
| DateTimes.CursorOfMonthEnd | lib/datetime.mjs:115-116 | the last day of a month moves the cursor to the next month |
| DateTimes.IntendedCursorOfValid | lib/datetime.mjs:115-116 | with the loop written `>`, every valid day leaves the cursor month unchanged |
| DateTimes.DifferenceAtWithin | lib/datetime.mjs:77-122 | when nothing borrows, the fields are the plain differences |
| DateTimes.CastWithinAt | lib/datetime.mjs:124-128 | such plain differences cast unchanged |
| DateTimes.DifferenceWithin | lib/datetime.mjs:73-129 | difference of two date-times that borrow nothing is the field-wise difference |
| DateTimes.DifferenceAtMonthEnd | lib/datetime.mjs:77-122 | from a month's last day to the next month's first, with the intended cursor, the difference is one day |
| DateTimes.DifferenceAtNextMonth | lib/datetime.mjs:77-122 | with the cursor one month ahead, the days counted are MonthEndGap |
| DateTimes.CastDays | lib/duration.mjs:41-91 | a days-only record whose days stop the fold casts unchanged |
| DateTimes.CursorFinding | lib/datetime.mjs:115-119 | as written, from the last day of February..November to the next month's first the difference is MonthEndGap days: 0 after a month of 31 days, 2 after one of 30, 3 or 4 after February, and one day only after July |
| DateTimes.CursorFindingAt | lib/datetime.mjs:115-128 | the cast of that as-written record |
| DateTimes.CursorFindingExample | lib/datetime.mjs:115-119 | 1976-10-31 to 1976-11-01 gives 0 days |
| DateTimes.IntendedDay | lib/datetime.mjs:73-129 | with the cursor loop written `>`, the same pair is one day apart |
| DateTimes.CursorLoop | lib/datetime.mjs:115-116 | the cursor loops compute CursorForward |
| DateTimes.CarryLoops | lib/datetime.mjs:91-113 | the carry loops compute calculate's carry of the clock gap |
| DateTimes.DifferenceLoops | lib/datetime.mjs:77-122 | the loops compute DifferenceAt at the as-written cursor |
| DateTimes.Difference | lib/datetime.mjs:73-129 | the method computes DifferenceSpec |
| DateTimes.Select | lib/datetime.mjs:138-159 | as written a candidate is found only without a filter (a string never equals an offsetString getter that is undefined, the symbols are looked up where they are undefined), and then it is the first; otherwise an Error |
| DateTimes.WithZoneDefault | lib/datetime.mjs:131-159 | withZone without a filter succeeds exactly when some offset maps back to the date-time's wall clock, and then returns the earliest such instant |
| DateTimes.FindOffset | lib/datetime.mjs:141 | `find` returns the first candidate whose offset is the string, or none when no candidate has it |
| DateTimes.SelectIntendedByOffset | lib/datetime.mjs:138-159 | with the filters working, a string finds a candidate exactly when one has that offset, and returns one that has it |
| DateTimes.SelectIntendedEnds | lib/datetime.mjs:144-151 | EARLIER gives the first (latest offset, earliest instant) and LATER the last candidate |
| DateTimes.SelectFinding | lib/datetime.mjs:139-149 | as written, a string or symbol filter throws where the intended selection finds the first candidate |
| DateTimes.FindT | lib/datetime.mjs:202 | the first 'T' of a string, or none |
| DateTimes.ParseISO | lib/datetime.mjs:202-217 | a match has a month 1..12, a day 1..31 and a valid clock; no match is an Error |
| DateTimes.ParseISOOfParts | lib/datetime.mjs:202-217 | date, 'T' and time parse exactly as the date and time halves do |
| DateTimes.FindTOf | lib/datetime.mjs:202 | the 'T' after a date without one is at the date's length |
| DateTimes.DateTextOf | lib/datetime.mjs:184-190 | toString is the date's text, 'T', then the time's text |
| DateTimes.NoTInDate | lib/date.mjs:79-82 | a printed date has no 'T' |
| DateTimes.ParseOfToString | lib/datetime.mjs:184-217 | parseISO(toString(dt)) gives back dt's fields for every valid date-time |
| DateTimes.FromStringOfToString | lib/datetime.mjs:184-198 | fromString(toString(dt)) is dt for every valid recorded date-time |
| Offsets.GetOffsetInfo | lib/offset.mjs:156-178 | getOffsetInfo parses the offset (an Error when it does not match), reads the UTC getters at the shifted time value and splits the nanoseconds: Offsets.NewLocal and Offsets.LocalSpec state the local fields at a finite time value, Offsets.SubMilliseconds the split, Offsets.RecordedOffset that the stored offset is makeOffsetString of the parsed one |
| Offsets.NewOffsetDateTime | lib/offset.mjs:19-23 | the constructor is getOffsetInfo of an Instant: Offsets.NewSpec states that it succeeds exactly for an Instant and a matching offset, Offsets.NewRecorded and Offsets.LocalFieldsAt what it records |
| Offsets.With | lib/offset.mjs:67-74 | with(like) is the constructor at epochMSNS of the picked fields less the offset, with the same offset string: Offsets.WithReplaces, Offsets.WithSpec (exactly the picked fields for valid ones), Offsets.WithNaN (an Invalid Date for a NaN property) |
| Offsets.Plus | lib/offset.mjs:75-83 | plus adds the cast duration with calculate, rebuilds the instant at the same offset and constructs: Offsets.MoveBySpec states that it keeps the offset and lands on calculate's fields |
| Offsets.Minus | lib/offset.mjs:84-92 | minus is plus with the duration subtracted (Offsets.MoveBySpec with negate set) |
| Offsets.ToString | lib/offset.mjs:116-122 | toString is the fields' text and the offset (Offsets.ToStringOfFields, Offsets.TextOfValid); fromString reads it back for years from 100 on (Offsets.FromStringOfToString), and as written not for years up to -100 (Offsets.ToStringDropsSign) |
| Offsets.FromString | lib/offset.mjs:127-134 | fromString is parseOffsetISO, epochMSNS less the parsed offset, then the constructor: Offsets.FromStringSpec states what it records, Offsets.FromStringOfToString that it inverts toString, Offsets.ParseOffsetISO that a string the pattern rejects is an Error |
| Offsets.LocalOf | lib/offset.mjs:158-165 | the UTC getters of `new Date(t)` give an Invalid Date exactly for a NaN time value |
| Offsets.NewSpec | lib/offset.mjs:19-23 | the constructor succeeds exactly for an Instant and an offset string the offset pattern matches, Error otherwise; a success records the instant, the local fields at the instant plus the parsed offset, and the offset re-printed by makeOffsetString |
| Offsets.NewLocal | lib/offset.mjs:156-178 | the record built from a finite instant holds the local fields at the milliseconds plus the offset |
| Offsets.LocalOfSum | lib/offset.mjs:158 | `ms + offsetMilliSeconds` of finite values is their sum |
| Offsets.FiniteInfo | lib/offset.mjs:156-178 | getOffsetInfo at a finite time value gives a valid local record |
| Offsets.LocalAt | lib/offset.mjs:158 | the local fields are those at the shifted time value |
| Offsets.FiniteEpoch | lib/offset.mjs:156-178 | outside the years 0..99 epochMSNS of the local fields gives back the shifted milliseconds |
| Offsets.EpochOfUtc | lib/shared.mjs:161-165 | epochMSNS of fields with the UTC getters of t is t, outside the years 0..99 |
| Offsets.SubMilliseconds | lib/offset.mjs:166-167 | microsecond and nanosecond of ns in 0..999999 are in 0..999 and rebuild ns |
| Offsets.LocalSpec | lib/offset.mjs:158-165 | at a finite time value the local fields form a valid date whose UTC fields are those of the time value |
| Offsets.DateOfUtcSpec | lib/offset.mjs:159-165 | the getters of a valid UTC time form a valid date with month 1..12 |
| Offsets.NewRecorded | lib/offset.mjs:19-23 | an offset with minutes below 60 constructs a recorded OffsetDateTime whose offset is the canonical ±HH:MM |
| Offsets.BelowHundredHours | lib/shared.mjs:168-175 | such an offset parses to whole minutes below 100 hours |
| Offsets.RecordedOffset | lib/offset.mjs:171 | a recorded offset string parses back to the offset milliseconds and is makeOffsetString of them |
| Offsets.WrappedOffsetExample | lib/offset.mjs:19-23 | "+99:99" is accepted: 6039 minutes, printed back as "+00:39", which parses to 39 minutes |
| Offsets.ParseWrapped | lib/shared.mjs:168-175 | "+99:99" parses to 6039 minutes |
| Offsets.MakeWrapped | lib/shared.mjs:176-182 | 6039 minutes print as "+00:39" |
| Offsets.ParseOfWrapped | lib/shared.mjs:168-175 | "+00:39" parses to 39 minutes |
| Offsets.Merged | lib/shared.mjs:184-198 | copyProps of an OffsetDateTime and a bag is the bag over the getters, and defines every field |
| Offsets.DateUtcNum | lib/shared.mjs:161-165 | Date.UTC gives a finite time value exactly when every argument is finite |
| Offsets.WithReplaces | lib/offset.mjs:67-74 | with(like) shifts the epoch of the picked fields by minus the offset |
| Offsets.PickAt | lib/shared.mjs:184-198 | each merged property is the bag's when defined and the getter's otherwise |
| Offsets.WithInstant | lib/offset.mjs:67-74 | with finite picks the new instant is epochMSNS of the picked fields less the offset |
| Offsets.ShiftOfFinite | lib/offset.mjs:69-72 | the instant built from finite fields has finite milliseconds |
| Offsets.PicksFinite | lib/offset.mjs:68 | every picked field is finite when the bag's are and the date is valid |
| Offsets.WithSpec | lib/offset.mjs:67-74 | with of valid fields outside the years 0..99 gives a recorded valid OffsetDateTime with exactly those fields and the same offset |
| Offsets.LocalFieldsOf | lib/offset.mjs:67-74 | the constructor at that instant gives back the fields |
| Offsets.LocalFieldsAt | lib/offset.mjs:19-23 | the constructor at epochMSNS of valid fields less the offset records those fields |
| Offsets.OffsetInfoWith | lib/offset.mjs:156-178 | the constructor's record at a finite instant, spelled out |
| Offsets.OffsetInfoAt | lib/offset.mjs:156-178 | the constructor's record at a finite instant with a parsed offset |
| Offsets.RecordedAt | lib/offset.mjs:19-23 | re-constructing at another instant with a recorded offset string keeps the offset |
| Offsets.LocalOfEpoch | lib/shared.mjs:161-165 | the local fields at epochMSNS of valid fields are those fields |
| Offsets.WithNaN | lib/offset.mjs:67-74 | a NaN property gives an Invalid Date with the same offset |
| Offsets.MoveBySpec | lib/offset.mjs:75-92 | plus/minus of a valid OffsetDateTime keeps the offset and, when calculate's day is finite, lands on calculate's fields at that offset |
| Offsets.MoveByFields | lib/offset.mjs:77-82 | the built instant at calculated fields holds those fields |
| Offsets.MoveDataOf | lib/offset.mjs:77-81 | the instant plus/minus build is the shift of calculate's fields |
| Offsets.ShiftOfCalculated | lib/offset.mjs:78-81 | that shift, with a finite day, is epochMSNS less the offset |
| Offsets.ToStringOfFields | lib/offset.mjs:116-122 | toString is the fields' text followed by the offset string |
| Offsets.PadFins | lib/shared.mjs:8-12 | pad of finite numbers is pad of their values |
| Offsets.ToStringOfFromString | lib/offset.mjs:116-134 | toString(fromString(s)) is the parsed fields' text and the canonical offset |
| Offsets.TextOfValid | lib/offset.mjs:116-122 | for a valid OffsetDateTime toString is the date text of the year's magnitude, 'T', the time text and the offset |
| Offsets.DateTextOfValid | lib/offset.mjs:118 | the date part prints the year's magnitude |
| Offsets.GettersOf | lib/offset.mjs:30-56 | on a valid date the getters are the local fields |
| Offsets.DatePieces | lib/offset.mjs:118 | `pad(year, 4)` prints abs(year) as signedpad prints the magnitude |
| Offsets.TimePieces | lib/offset.mjs:119-120 | the clock and fraction pieces are time.mjs's toString |
| Offsets.TimeTextOfValid | lib/offset.mjs:119-121 | the time part is time.mjs's toString |
| Offsets.SplitOffset | lib/offset.mjs:138 | the trailing offset group splits the string and matches the offset pattern |
| Offsets.SplitOfPrinted | lib/offset.mjs:138 | a printed ±HH:MM tail is split off exactly |
| Offsets.ParseOffsetISO | lib/offset.mjs:138-154 | a match yields an offset the offset pattern matches; no match is an Error |
| Offsets.RecordedShape | lib/offset.mjs:171 | a recorded offset has the shape ±HH:MM with minutes below 60 |
| Offsets.ParseOfToString | lib/offset.mjs:116-154 | parseOffsetISO(toString(o)) gives o's fields with the year's magnitude and its offset |
| Offsets.ParseOfText | lib/offset.mjs:138-154 | the date, time and offset text parses back to those fields and offset |
| Offsets.FromStringSpec | lib/offset.mjs:127-134 | fromString of a match with valid fields outside the years 0..99 gives a recorded valid OffsetDateTime with those fields and the canonical offset |
| Offsets.InstantOfRecorded | lib/offset.mjs:127-134 | a recorded OffsetDateTime's instant is epochMSNS of its fields less its offset |
| Offsets.RecordedParts | lib/offset.mjs:19-23 | the recorded parts are the local fields at the shifted instant and the split nanoseconds |
| Offsets.InstantOfLocal | lib/offset.mjs:127-134 | the instant rebuilt from the local fields is the recorded one |
| Offsets.InstantOfParts | lib/offset.mjs:129-132 | fields whose epoch is the shifted instant rebuild that instant |
| Offsets.FromStringOfToString | lib/offset.mjs:116-134 | fromString(toString(o)) is o for years from 100 on |
| Offsets.ToStringDropsSign | lib/offset.mjs:118 | as written, for years up to -100 fromString(toString(o)) succeeds with the year negated, so it is not o |
| Offsets.PrintedNegated | lib/offset.mjs:116-154 | the printed year of a negative-year OffsetDateTime parses as its magnitude |
| Offsets.NegatedYearValid | lib/shared.mjs:17-31 | negating a year keeps valid fields valid (leap years are symmetric) |
| Offsets.FromStringOfToStringIntended | lib/offset.mjs:116-134 | with the year printed by signedpad, fromString gives back every valid recorded OffsetDateTime outside the years 0..99 |
| Offsets.TextOfValidIntended | lib/offset.mjs:116-122 | the intended toString prints the date as date.mjs does, with the year's sign |
| Zoned.GetZonedInfo | lib/zoned.mjs:160-183 | getZonedInfo reads the zone's wall clock at ms and records the offset as Date.UTC of that clock less ms: Zoned.FixedZoneOffset states the offset for a zone k ms ahead (k, or k - 1000 before the epoch off a whole second), Zoned.ZonedAtFixed the record from the epoch on, Zoned.UtcBeforeEpoch the as-written case |
| Zoned.NewZonedDateTime | lib/zoned.mjs:18-23 | the constructor is getZonedInfo of an Instant: Zoned.NewSpec states that it succeeds exactly for an Instant with finite milliseconds in a zone Intl knows, Zoned.ConstructedAt the RangeError otherwise |
| Zoned.ToString | lib/zoned.mjs:94-100 | toString is the date text, 'T', the time text, the offset and the zone name in brackets (Zoned.TextOfValid); fromString reads it back (Zoned.FromStringOfToString) |
| Zoned.FromString | lib/zoned.mjs:105-117 | fromString is parseZonedISO, epochMSNS less the parsed offset and the constructor, an Error when the zone's offset there prints differently (Zoned.FromParsedSpec) or when the pattern does not match (Zoned.FromStringRejects); it inverts toString (Zoned.FromStringOfToString) |
| Zoned.GetOffsetDateTime | lib/zoned.mjs:75-77 | getOffsetDateTime is the OffsetDateTime at the same instant with the same offset string, and has the same fields (Zoned.OffsetDateTimeOf) |
| Zoned.RecordedSpec | lib/zoned.mjs:18-23 | a recorded ZonedDateTime has finite milliseconds, a known zone, split nanoseconds and an offset that is its wall clock's epoch less its instant |
| Zoned.NewSpec | lib/zoned.mjs:18-23 | the constructor succeeds exactly for an Instant with finite milliseconds in a zone Intl knows; Error for a non-Instant and RangeError otherwise; a success records getZonedInfo |
| Zoned.TextOfValid | lib/zoned.mjs:94-100 | toString is the date text, 'T', the time text, the offset and the zone name in brackets |
| Zoned.NameStart | lib/zoned.mjs:131 | the start of the trailing run of zone-name characters |
| Zoned.ZoneSplit | lib/zoned.mjs:131 | a split string is its head followed by a bracketed zone name the pattern accepts |
| Zoned.NameStartOf | lib/zoned.mjs:131 | after a '[' the run of zone-name characters starts just after it |
| Zoned.ZoneSplitOf | lib/zoned.mjs:131 | a bracketed zone name is split off exactly |
| Zoned.ParseZonedISO | lib/zoned.mjs:131-148 | a match yields an offset the offset pattern matches, a zone name of the pattern's characters, and the date-time groups of the head; no match is an Error |
| Zoned.Regroup | lib/zoned.mjs:131 | the tail of head plus offset plus bracketed name is the offset and the name |
| Zoned.ParseOfParts | lib/zoned.mjs:131-148 | date-time text, offset and bracketed name parse back to their parts |
| Zoned.FromParsedSpec | lib/zoned.mjs:105-117 | fromString of parsed parts succeeds exactly when the zone is known and its offset at the built instant prints as the parsed offset; the bad-offset case is an Error |
| Zoned.FromParsedOf | lib/zoned.mjs:107-112 | the instant built is epochMSNS of the fields less the parsed offset |
| Zoned.ConstructedAt | lib/zoned.mjs:18-23 | construction at a finite instant succeeds exactly for a known zone and otherwise throws RangeError |
| Zoned.FromStringRejects | lib/zoned.mjs:105-106 | a string the pattern rejects throws Error |
| Zoned.OffsetOfRecorded | lib/shared.mjs:168-182 | a recorded whole-minute offset below 100 hours parses back to its milliseconds |
| Zoned.ParseOfToString | lib/zoned.mjs:94-148 | parseZonedISO(toString(z)) gives back z's fields, offset and zone name |
| Zoned.FromStringOfToString | lib/zoned.mjs:94-117 | fromString(toString(z)) is z for every valid recorded ZonedDateTime whose offset is whole minutes below 100 hours |
| Zoned.InstantOfRecorded | lib/zoned.mjs:105-112 | a recorded ZonedDateTime's instant is epochMSNS of its fields less its offset |
| Zoned.OffsetDateTimeOf | lib/zoned.mjs:75-77 | getOffsetDateTime gives an OffsetDateTime with the same offset and the same fields |
| Zoned.FieldsOfLocal | lib/zoned.mjs:75-77 | equal local fields give equal field records |
| Zoned.OffsetWithZoneSpec | lib/offset.mjs:94-98 | offsetDateTime.withZone succeeds exactly when the ZonedDateTime at the same instant is built and has the same offset string, and then returns it |
| Zoned.DateUtcShift | lib/zoned.mjs:177 | Date.UTC moves by exactly the millisecond argument's change |
| Zoned.FixedZoneOffset | lib/zoned.mjs:173-178 | for a zone k ms ahead the recorded offset is k, except before the epoch off a whole second, where the negative `ms % 1e3` makes it k - 1000 |
| Zoned.FixedWall | lib/zoned.mjs:162-177 | the wall clock of such a zone is the UTC wall clock at ms + k |
| Zoned.UtcMillis | lib/zoned.mjs:173 | the UTC millisecond getter is the non-negative remainder |
| Zoned.ModShift | lib/zoned.mjs:173 | shifting by whole seconds keeps the millisecond |
| Zoned.RemOf | lib/zoned.mjs:173 | JavaScript's `%` is the non-negative remainder less 1000 for a negative operand off a whole second |
| Zoned.OffsetOfWall | lib/zoned.mjs:177-178 | the recorded offset is the wall's time value less ms, corrected by the millisecond read |
| Zoned.UtcBeforeEpoch | lib/zoned.mjs:173-179 | as written, one millisecond before the epoch in UTC records millisecond -1, offset -1000 ms and the offset text "-00:00", not the "+00:00" that an offset of 0 prints |
| Zoned.WithZoneUtcBeforeEpoch | lib/offset.mjs:94-98 | as written, a "+00:00" OffsetDateTime before the epoch off a whole second cannot move to UTC |
| Zoned.FixedZoneOffsetIntended | lib/zoned.mjs:173-178 | with the millisecond read as the non-negative remainder, the recorded offset is always k |
| Zoned.OffsetWithZoneFixed | lib/offset.mjs:94-98 | from the epoch on, an OffsetDateTime moves to a fixed zone with its own offset |
| Zoned.WholeSeconds | lib/zoned.mjs:173 | whole-minute offsets are whole seconds |
| Zoned.ZonedAtFixed | lib/zoned.mjs:160-183 | from the epoch on, getZonedInfo in a fixed zone records offset k and the UTC wall clock at ms + k |
| Instants.New | lib/instant.mjs:11-16 | the constructor throws TypeError exactly for a non-BigInt; otherwise the truncating division and remainder by 1e6 recombine to the nanoseconds, the remainder below 1e6 in magnitude and carrying the sign of the input |
| Instants.Seconds | lib/instant.mjs:17 | the seconds getter is the floor of the milliseconds over 1000 |
| Instants.Microseconds | lib/instant.mjs:19 | the microseconds getter is the nanoseconds over 1000, truncated toward zero |
| Instants.GettersOfNew | lib/instant.mjs:11-20 | for an instant built from n the getters give n, and its truncated quotients by 1e6 and 1e3 |
| Instants.GettersExample | lib/instant.mjs:17-20 | the getters of 217178610450000100 ns |
| Instants.FromNanoseconds | lib/instant.mjs:69-71 | fromNanoseconds is the constructor: TypeError for a non-BigInt, else the same nanoseconds |
| Instants.FromMicroseconds | lib/instant.mjs:66-68 | fromMicroseconds of a BigInt gives 1000 times the nanoseconds and the same microseconds; TypeError for a non-BigInt |
| Instants.QuotOfMultiple | lib/instant.mjs:13-14 | a multiple divides exactly |
| Instants.FromMilliseconds | lib/instant.mjs:59-65 | fromMilliseconds of any value throws a TypeError exactly when `number` of it is NaN, and otherwise records those milliseconds with no nanoseconds |
| Instants.FromSeconds | lib/instant.mjs:56-58 | fromSeconds of any value throws exactly when `number` of it is NaN, and otherwise gives those seconds and a billion times them in nanoseconds |
| Instants.FromSecondsOfText | lib/instant.mjs:56-58 | fromSeconds of an integer's decimal text is that many seconds after the epoch |
| Instants.IsoYear | lib/instant.mjs:26 | toISOString prints a year 0..9999 in four digits |
| Instants.DateISOString | lib/instant.mjs:26 | toISOString throws RangeError exactly beyond 8.64e15 ms and otherwise ends in '.', three digits and 'Z' |
| Instants.ReplaceMillis | lib/instant.mjs:26 | the replace appends six padded nanosecond digits before 'Z' exactly when the text ends that way |
| Instants.ToString | lib/instant.mjs:25-27 | toString throws exactly beyond the time value range, and otherwise is the UTC stamp, the six padded nanosecond digits and 'Z' |
| Instants.FromString | lib/instant.mjs:43-55 | fromString throws Error exactly when the pattern does not match; a match records nanoseconds in 0..999999 |
| Instants.Layout | lib/instant.mjs:44 | the joined groups form a 30-character string with the separators at their places |
| Instants.Group | lib/instant.mjs:44 | a padded value below 10^w is w digits whose value it is |
| Instants.FromStringOfText | lib/instant.mjs:43-55 | a string of the pattern's groups parses to Date.UTC of them and the nanosecond group |
| Instants.FromStringOfGroups | lib/instant.mjs:43-55 | the printed groups of a date parse back to its time value and nanoseconds |
| Instants.FromStringOfToString | lib/instant.mjs:25-55 | fromString(toString(i)) is i for non-negative sub-millisecond parts and years 100..9999 |
| Instants.UtcGroups | lib/instant.mjs:26 | the UTC getters of t rebuild t by Date.UTC |
| Instants.PrintedGroups | lib/instant.mjs:25-27 | toString of a year 0..9999 is the group-by-group text |
| Instants.StampText | lib/instant.mjs:26 | the stamp with nanoseconds is that text |
| Instants.ToStringExample | test/instant.mjs:79-84 | the instant of 1976-11-18T14:23:30.123 plus 456789 ns prints as that text |
| Instants.PrintedExample | test/instant.mjs:79-84 | that text is "1976-11-18T14:23:30.123456789Z" |
| Instants.FromStringOfNew | lib/instant.mjs:11-55 | for non-negative n in range, fromString(toString(new Instant(n))) is that instant |
| Instants.ToStringLosesSign | lib/instant.mjs:13-14 | as written, -n and n (0 < n < 1e6) are different instants with the same text |
| Instants.SameText | lib/instant.mjs:25-27 | equal milliseconds and nanosecond magnitudes print alike |
| Instants.NewIntended | lib/instant.mjs:11-16 | with floor division the parts recombine to the nanoseconds and the remainder lies in 0..999999 |
| Instants.FromStringOfNewIntended | lib/instant.mjs:11-55 | with floor division, fromString(toString(i)) is i for every nanosecond count in range, negative ones included |
| Absolutes.Named | lib/absolute.mjs:125 | the zones `new Absolute(nanos, this.timeZone)` rebuilds unchanged, TimeZone.for of the zone's own name giving the zone back: Absolutes.NamedOfFor states which zones TimeZone.for builds that are named (offsets below 100 hours, Intl zones under their resolved names) |
| Absolutes.GetEpochNanoseconds | lib/absolute.mjs:48-50 | getEpochNanoseconds is the BigInt count itself: Absolutes.New and Absolutes.FromEpochNanoseconds state that it is the count the Absolute was built with |
| Absolutes.New | lib/absolute.mjs:12-16 | TypeError for a non-BigInt; otherwise the Absolute exists exactly when TimeZone.for accepts the zone (RangeError otherwise), holding the nanoseconds and that zone |
| Absolutes.NamedOfFor | lib/absolute.mjs:125 | a zone TimeZone.for built is rebuilt from its own name, as `new Absolute(nanos, this.timeZone)` does |
| Absolutes.GetEpochSeconds | lib/absolute.mjs:39-41 | the BigInt division by 1e9 truncates toward zero: magnitude the quotient of magnitudes, sign that of the nanoseconds |
| Absolutes.GetEpochMilliseconds | lib/absolute.mjs:42-44 | the same for 1e6 |
| Absolutes.GetEpochMicroseconds | lib/absolute.mjs:45-47 | the same for 1e3 |
| Absolutes.ToBigInt | lib/absolute.mjs:166-177 | BigInt of a BigInt is itself, of a finite integer its value, of NaN a RangeError |
| Absolutes.FromEpochSeconds | lib/absolute.mjs:166-168 | succeeds exactly when BigInt and TimeZone.for do, with 1e9 times the seconds |
| Absolutes.FromEpochMilliseconds | lib/absolute.mjs:169-171 | succeeds exactly when BigInt and TimeZone.for do, with 1e6 times the milliseconds |
| Absolutes.FromEpochMicroseconds | lib/absolute.mjs:172-174 | succeeds exactly when BigInt and TimeZone.for do, with 1e3 times the microseconds |
| Absolutes.FromEpochNanoseconds | lib/absolute.mjs:175-177 | succeeds exactly when BigInt and TimeZone.for do, with those nanoseconds |
| Absolutes.FromEpochScales | lib/absolute.mjs:166-177 | the four factories agree when given the same instant at different scales |
| Absolutes.DateTimeFor | lib/absolute.mjs:33 | getDateTime's sub-millisecond fields are below 1000 in magnitude, and non-negative in an IANA zone or at and after the offset zone's epoch |
| Absolutes.AbsoluteOfDateTime | lib/absolute.mjs:33 | in an offset zone, getAbsoluteFor of getDateTime gives back the Absolute's nanoseconds |
| Absolutes.OffsetFor | lib/absolute.mjs:31 | the offset getter is the zone's name in an offset zone and a ±HH:MM string in an IANA zone |
| Absolutes.ToString | lib/absolute.mjs:52-63 | toString is the date-time text followed by 'Z' for UTC, the offset when the zone is named by it, and the offset and bracketed name otherwise |
| Absolutes.ToStringEndsInZ | lib/absolute.mjs:52-63 | toString ends in 'Z' exactly for the zone named UTC |
| Absolutes.ToStringInOffsetZone | lib/absolute.mjs:52-63 | in an offset zone other than UTC the text is the date-time followed by the zone's name |
| Absolutes.WithZone | lib/absolute.mjs:68-73 | withZone succeeds exactly when TimeZone.for does, keeping the nanoseconds |
| Absolutes.WithZoneTwice | lib/absolute.mjs:68-73 | a second withZone overrides the first, and going back to the own zone's name restores the Absolute |
| Absolutes.Compare | lib/absolute.mjs:202-206 | compare is the second's nanoseconds less the first's: positive exactly when the first is earlier, zero exactly when equal |
| Absolutes.CompareOrder | lib/absolute.mjs:202-206 | compare is antisymmetric, transitive and additive |
| Absolutes.ComponentsRecombine | lib/absolute.mjs:103-109 | the components of a non-negative distance form a valid clock and recombine to it |
| Absolutes.Difference | lib/absolute.mjs:97-112 | difference has no years or months, time fields in range, non-negative days, and weighs exactly the distance between the two |
| Absolutes.Weighted | lib/absolute.mjs:116-123 | the nanoseconds plus/minus add: days and sub-day fields at their weights |
| Absolutes.Move | lib/absolute.mjs:113-164 | plus/minus moves the nanoseconds by the weighted duration in the same zone, and throws exactly on a calendar duration (years + months truthy) |
| Absolutes.Plus | lib/absolute.mjs:113-138 | plus adds the weighted cast duration; throws exactly for a calendar duration |
| Absolutes.Minus | lib/absolute.mjs:139-164 | minus subtracts the weighted cast duration; throws exactly for a calendar duration |
| Absolutes.CastNeverThrows | lib/duration.mjs:41-91 | castDuration without a base always succeeds |
| Absolutes.PlusOfLike | lib/absolute.mjs:113-138 | a duration-like of plain fields is not a calendar duration and weighs its input total |
| Absolutes.MinusUndoesPlus | lib/absolute.mjs:113-164 | minus(plus(a, d), d) and plus(minus(a, d), d) are a for every non-calendar duration |
| Absolutes.MoveBack | lib/absolute.mjs:113-164 | moving one way and back gives the Absolute |
| Absolutes.MoveTo | lib/absolute.mjs:113-164 | the move lands on the shifted nanoseconds in the same zone |
| Absolutes.PlusDifference | lib/absolute.mjs:97-164 | a plus the difference to b is b, and b minus it is a |
| Absolutes.MoveBetween | lib/absolute.mjs:113-164 | a duration weighing b - a carries a to b and back |
| TimeZones.NewTimeZone | lib/timezone.mjs:33-35 | `new TimeZone()` always throws TypeError |
| TimeZones.For | lib/timezone.mjs:64-67 | TimeZone.for gives an offset zone exactly for an offset name; its name is makeOffsetString of the parsed offset (as intended: the name as written is TimeZones.OffsetZoneNameAsWritten) and its OFFSET slot the negated offset; any other name is an IANA zone when Intl knows it and a RangeError otherwise |
| TimeZones.ForOfName | lib/timezone.mjs:64-67 | TimeZone.for of a zone's own name rebuilds the zone |
| TimeZones.ForAgreesWithName | lib/timezone.mjs:87-102 | for a name whose offset string parses to p, TimeZone.for gives an offset zone whose getDateTimeFor shows the UTC clock p milliseconds later |
| TimeZones.ShiftedClock | lib/timezone.mjs:88-99 | with OFFSET the negated offset p, getDateTimeFor is the UTC clock at ns + p·10^6 with that instant's microsecond and nanosecond |
| TimeZones.QuotNested | lib/timezone.mjs:98 | truncating by 1000 twice is truncating by 1e6 |
| TimeZones.Recombine | lib/timezone.mjs:88-99 | the three truncated parts recombine to n |
| TimeZones.OffsetDateTimeFor | lib/timezone.mjs:87-102 | the microsecond and nanosecond are the truncated remainders of the shifted nanoseconds |
| TimeZones.OffsetAbsoluteFor | lib/timezone.mjs:106-111 | getAbsoluteFor of an offset zone gives exactly one Absolute |
| TimeZones.OffsetAbsoluteOfDateTime | lib/timezone.mjs:87-111 | getAbsoluteFor of getDateTimeFor gives back the nanoseconds, outside the years 0..99 |
| TimeZones.BaseOfUtc | lib/timezone.mjs:108 | Date.UTC of the UTC fields of q is q outside the years 0..99 |
| TimeZones.Regroup | lib/timezone.mjs:108-110 | fields whose parts recombine to the shifted nanoseconds give back ns |
| TimeZones.OffsetOffsetFor | lib/timezone.mjs:103-105 | getOffsetFor of an offset zone is its name |
| TimeZones.OffsetOffsetsInYear | lib/timezone.mjs:113-115 | getOffsetsInYear of an offset zone is one undefined entry (`this.offset` is never set) |
| TimeZones.OffsetTransitionsInYear | lib/timezone.mjs:116-118 | an offset zone has no transitions |
| TimeZones.BigIntOfString | lib/timezone.mjs:88 | on the strings OffsetZone passes to `BigInt` (offset names of the form `[+-]?HH:?MM`, and decimal text with such a name appended), a digit string gives its value, a sign and digits give the signed value, and every other such string is a SyntaxError |
| TimeZones.BigIntOfStringRejects | lib/timezone.mjs:88 | a non-digit after the first character is a SyntaxError |
| TimeZones.OffsetDateTimeForOfName | lib/timezone.mjs:87-102 | as written, getDateTimeFor with the name string in the slot succeeds exactly when BigInt parses the name, and then uses it as the offset |
| TimeZones.OffsetAbsoluteForOfName | lib/timezone.mjs:106-111 | as written, `Date.UTC(...) + name` concatenates and BigInt of the result is a SyntaxError or one Absolute |
| TimeZones.OffsetOfNameThrows | lib/timezone.mjs:64-124 | as written, a name with a colon makes getDateTimeFor throw SyntaxError, and a name with a colon or a sign makes getAbsoluteFor throw SyntaxError |
| TimeZones.ColonlessOffsetAsWritten | lib/timezone.mjs:88 | as written, "±HHMM" is read as the integer ±(100*HH + MM) milliseconds |
| TimeZones.ColonlessOffsetSlot | lib/timezone.mjs:64-67 | the same name gives the offset zone the negation of (60*HH + MM) minutes in the slot |
| TimeZones.PartsMillisecond | lib/timezone.mjs:256 | timeparts' millisecond lies in 0..1000, and is 1000 exactly for negative whole seconds |
| TimeZones.Timeparts | lib/timezone.mjs:243-272 | timeparts returns the zone's wall clock at ms, the offset Date.UTC of it less ms, and makeOffsetString of that offset |
| TimeZones.IanaDateTimeFor | lib/timezone.mjs:144-152 | getDateTimeFor of an IANA zone has microsecond and nanosecond the magnitudes of the truncated remainders, and millisecond at most 1000 |
| TimeZones.IanaFractionExample | lib/timezone.mjs:144-152 | at -217175010123456789 ns the fraction reads .877456789 |
| TimeZones.IanaOffsetFor | lib/timezone.mjs:153-158 | getOffsetFor of an IANA zone is timeparts' offset at the truncated milliseconds |
| TimeZones.ProbeValues | lib/timezone.mjs:276-280 | one timeparts offset per probe, in order |
| TimeZones.FirstSeen | lib/timezone.mjs:275-281 | `Array.from(new Set)` holds each value of the input exactly once, in first-seen order |
| TimeZones.ProbeOffsets | lib/timezone.mjs:273-282 | offsets(year) is the first-seen list of the probes' offsets |
| TimeZones.AddAll | lib/timezone.mjs:275-280 | the loop adding to the Set computes FirstSeen |
| TimeZones.FirstSeenSnoc | lib/timezone.mjs:279 | adding one value extends the list only when it is new |
| TimeZones.Candidates | lib/timezone.mjs:166-183 | the map and filter keep only offsets whose shifted instant shows the requested wall clock |
| TimeZones.CandidatesComplete | lib/timezone.mjs:166-183 | every offset whose shifted instant shows the wall clock is kept |
| TimeZones.CandidatesDistinct | lib/timezone.mjs:166-183 | distinct offsets give distinct candidates |
| TimeZones.Insert | lib/timezone.mjs:184-186 | insertion keeps order and adds exactly one element |
| TimeZones.SortAscending | lib/timezone.mjs:184-186 | the final sort is ascending and a permutation |
| TimeZones.SortStrict | lib/timezone.mjs:184-186 | sorting distinct values gives distinct values |
| TimeZones.AbsoluteFor | lib/timezone.mjs:159-187 | getAbsoluteFor returns ascending candidates, no more than the offsets, each of which shows the wall clock |
| TimeZones.AbsoluteForComplete | lib/timezone.mjs:159-187 | every offset that shows the wall clock contributes its instant |
| TimeZones.AbsoluteForStrict | lib/timezone.mjs:159-187 | distinct offsets give a strictly ascending result |
| TimeZones.SortedUnique | lib/timezone.mjs:184-186 | two ascending distinct lists with the same members are equal |
| TimeZones.AbsoluteForOrderFree | lib/timezone.mjs:165 | the result does not depend on the order of the offsets, so the string-order `.sort()` does not matter |
| TimeZones.GetAbsoluteFor | lib/timezone.mjs:159-187 | with offsets(year) from the probes: ascending, distinct, at most one per probe, each showing the wall clock |
| TimeZones.GetAbsoluteForExact | lib/timezone.mjs:159-187 | every probed offset that shows the wall clock contributes its instant |
| TimeZones.IanaOffsetsInYear | lib/timezone.mjs:188-191 | getOffsetsInYear prints each first-seen offset with makeOffsetString |
| TimeZones.Bisect | lib/timezone.mjs:284-292 | bisect throws only Error, and a result lies in (left, right] |
| TimeZones.BisectFindsChange | lib/timezone.mjs:284-292 | a result is a point where the state changes from lstate to rstate |
| TimeZones.BisectFindsStep | lib/timezone.mjs:284-292 | for a single step from lstate to rstate at c, bisect returns c |
| TimeZones.Points | lib/timezone.mjs:196-199 | 28 points from the start to the end, in milliseconds |
| TimeZones.PointsAscending | lib/timezone.mjs:196-199 | the points ascend |
| TimeZones.TransitionsThrowStays | lib/timezone.mjs:205-213 | once bisect throws, the whole walk throws |
| TimeZones.TransitionsAscend | lib/timezone.mjs:205-213 | the transitions found are ascending state changes within the points' range, each followed by the zone's name |
| TimeZones.Extend | lib/timezone.mjs:211 | appending a later change keeps the list a transition list |
| TimeZones.TransitionsInYear | lib/timezone.mjs:192-215 | the method computes the transitions of the year |
| TimeZones.TransitionsOver | lib/timezone.mjs:192-199 | the method computes the transitions between the year's first and last instants |
| TimeZones.Visit | lib/timezone.mjs:200-214 | the forEach loop computes Transitions |
| TimeZones.TransitionsBetweenSound | lib/timezone.mjs:192-215 | a result is a list of ascending state changes between the start and the end |
| TimeZones.FixedTimeparts | lib/timezone.mjs:256-257 | in a zone k ahead, timeparts records k, or k + 1000 at negative whole seconds |
| TimeZones.FixedProbeValues | lib/timezone.mjs:276-280 | each probe's offset is k, or k + 1000 at negative whole seconds |
| TimeZones.FixedProbeValue | lib/timezone.mjs:278 | the same for one probe |
| TimeZones.FixedProbeValuesIntended | lib/timezone.mjs:256 | with the millisecond read as the non-negative remainder, every probe reads k |
| TimeZones.FixedProbeValueIntended | lib/timezone.mjs:256 | the same for one probe |
| TimeZones.CandidatesSingle | lib/timezone.mjs:166-183 | one offset gives its instant or nothing |
| TimeZones.FirstSeenConstant | lib/timezone.mjs:275-281 | a constant list collapses to one value |
| TimeZones.WallOfBase | lib/timezone.mjs:162-168 | in a zone k ahead, the instant base - k shows the requested wall clock |
| TimeZones.FixedZoneWall | lib/timezone.mjs:168 | the fixed zone's wall clock at t is the UTC wall clock at t + k |
| TimeZones.UtcWallOfBase | lib/timezone.mjs:162 | the UTC wall clock at Date.UTC of valid fields is those fields |
| TimeZones.WallOfBaseEarlier | lib/timezone.mjs:168-174 | the instant one second earlier shows another second |
| TimeZones.FixedAbsoluteFor | lib/timezone.mjs:159-187 | with no probe at a negative whole second, a fixed zone finds exactly the one instant |
| TimeZones.FixedAbsoluteForBeforeEpoch | lib/timezone.mjs:159-187 | as written, with every probe at a negative whole second, a fixed zone finds no instant at all |
| TimeZones.FixedOffsetsBeforeEpoch | lib/timezone.mjs:273-282 | then offsets(year) is the single wrong value k + 1000 |
| TimeZones.NoCandidateBeforeEpoch | lib/timezone.mjs:166-183 | the offset k + 1000 shows no requested wall clock |
| TimeZones.ProbeValuesIntended | lib/timezone.mjs:276-280 | probes read through the intended millisecond |
| TimeZones.GetAbsoluteForIntended | lib/timezone.mjs:159-187 | getAbsoluteFor with the intended offsets keeps the same guarantees |
| TimeZones.FixedAbsoluteForIntended | lib/timezone.mjs:159-187 | with the intended millisecond, a fixed zone always finds exactly the one instant |
| TimeZones.SingleCandidate | lib/timezone.mjs:166-183 | the offset k gives exactly the instant base - k |
| TimeZones.ForOfMadeOffset | lib/timezone.mjs:64-67 | TimeZone.for of a printed whole-minute offset below 100 hours is the offset zone of that offset, named by that same text |
| TimeZones.OffsetZoneNameAsWritten | lib/timezone.mjs:120-121 | the NAME OffsetZone.for stores as written, makeOffsetString applied to the name string (lib/shared.mjs:176-181): a text of six characters with a colon in the middle; its meaning is stated by the two lemmas below |
| TimeZones.OffsetZoneNameWithColon | lib/timezone.mjs:120-121 | for every offset name with a colon, whatever its sign, hours and minutes, the name as written is "+aN:aN" (the string reads as NaN, NaN < 0 is false, and "NaN" ends in "aN"), while TimeZone.for names the zone makeOffsetString of the parsed offset |
| TimeZones.ColonNameIsNaN | lib/shared.mjs:177-178 | sign, two digits, a colon and two digits read as NaN: the colon ends the digit run and begins no exponent |
| TimeZones.OffsetZoneNameColonless | lib/timezone.mjs:120-121 | for every colonless offset name the name as written is "+00:00", or "-00:00" when a '-' precedes a non-zero HHMM, since HHMM milliseconds is less than a minute; TimeZone.for names the zone makeOffsetString of the parsed offset |
| TimeZones.ColonlessNumber | lib/shared.mjs:177-178 | a colonless offset name reads as the signed four-digit number HHMM, between -60000 and 60000 exclusive, negative exactly for a '-' before a non-zero HHMM |
| TimeZones.NaNNameLookup | lib/timezone.mjs:64-67 | "+aN:aN" is not an offset name, so TimeZone.for of it is an Intl lookup: an IANA zone if Intl knows the name, a RangeError exactly when it does not |
| TimeZones.OffsetZoneNameExample | lib/timezone.mjs:120-121 | TimeZone.for('+01:00') is named "+aN:aN" as written and "+01:00" by TimeZones.For |
| TimeZones.OffsetZoneNameColonlessExample | lib/timezone.mjs:120-121 | as written, TimeZone.for('+0100') is named "+00:00" and TimeZone.for('-0100') "-00:00" |
| CivilShared.PlusSpec | lib/civil/shared.mjs:11-57 | what the civil plus returns: the method computes it (CivilShared.Plus); the month is 1..12, the day in its month or NaN and the clock carried (CivilShared.PlusRanges), the duration's clock is added modulo whole days (CivilShared.PlusClock), and the total is conserved when the backward day loop does not run (CivilShared.PlusConserves) |
| CivilShared.SumZero | lib/civil/shared.mjs:15-21 | adding the zero duration changes nothing |
| CivilShared.HourCarry | lib/civil/shared.mjs:32-33 | the hour loops leave an hour in 0..59 with 24 times the day carry added back; an hour already in 0..59 is left, a negative one ends below 24 |
| CivilShared.BackStep | lib/civil/shared.mjs:38-42 | one pass of the backward day loop gives a month in 1..12 and the day `daysInMonth - day` of at least 28 - day |
| CivilShared.CarryHours | lib/civil/shared.mjs:32-33 | the hour loops compute HourCarry |
| CivilShared.CarryClockFields | lib/civil/shared.mjs:23-33 | the clock loops compute CarryClock |
| CivilShared.DaysBack | lib/civil/shared.mjs:38-42 | the backward day loop computes one BackStep, or nothing for a day already at least 1 |
| CivilShared.CarryDays | lib/civil/shared.mjs:38-47 | the day loops compute CivilDays |
| CivilShared.Plus | lib/civil/shared.mjs:11-57 | the method computes PlusSpec |
| CivilShared.CarryClockConserves | lib/civil/shared.mjs:23-33 | the clock loops leave the sub-second part, seconds and minutes in range, hours in 0..59, keep year and month, and conserve the total |
| CivilShared.CarryClockTime | lib/civil/shared.mjs:23-33 | the clock loops move whole days from the clock to the day |
| CivilShared.PlusClock | lib/civil/shared.mjs:11-57 | plus leaves the clock fields in range and adds the duration's clock to the clock modulo whole days |
| CivilShared.PlusKeepsCarried | lib/civil/shared.mjs:11-57 | a sum already in range keeps its clock |
| CivilShared.BalanceKeepsClock | lib/civil/shared.mjs:35-50 | the month and day loops leave the clock alone |
| CivilShared.PlusRanges | lib/civil/shared.mjs:11-57 | plus always returns a month 1..12, a day in its month or NaN, and carried clock fields |
| CivilShared.NormalizeRange | lib/civil/shared.mjs:43-47 | the forward day loop ends inside the month reached |
| CivilShared.PlusKeepsLateHours | lib/civil/shared.mjs:33 | as written the hour is carried only from 60 on, so a result hour of 24 or more comes exactly from a carried hour in 24..59 or beyond |
| CivilShared.PlusConserves | lib/civil/shared.mjs:11-57 | when the backward day loop does not run, plus conserves the total in nanoseconds |
| CivilShared.BalanceConserves | lib/civil/shared.mjs:35-50 | with a day of at least 1, the month and day loops keep the moment |
| CivilShared.TotalOfShiftedDay | lib/civil/shared.mjs:35-50 | records with the same day number and clock have the same total |
| CivilShared.TotalOfShiftedFields | lib/civil/shared.mjs:35-50 | the same, stated over plain fields |
| CivilShared.BalanceCivilOf | lib/civil/shared.mjs:35-50 | the balanced record has BalanceDate's date and the same clock |
| CivilShared.BalanceDayNumber | lib/civil/shared.mjs:35-50 | the balanced date has the same day number |
| CivilShared.BalanceOfWrapped | lib/civil/shared.mjs:35-36 | records whose months wrap alike balance alike |
| CivilShared.PlusZero | lib/civil/shared.mjs:11-57 | plus of a normal record and the zero duration is the record |
| CivilShared.RebuildNormal | lib/civil/shared.mjs:11-57 | plus of the empty record and a normal record's fields rebuilds it |
| CivilShared.CarryClockOfNormal | lib/civil/shared.mjs:23-33 | clock fields in range are not carried |
| CivilShared.PlusOfCarried | lib/civil/shared.mjs:11-57 | for a sum whose clock is in range, plus is the balance of the sum |
| CivilShared.BalanceOfNormal | lib/civil/shared.mjs:35-50 | a month in 1..12 and a day in its month are not balanced |
| CivilShared.PlusUnderflowJanuary | lib/civil/shared.mjs:38-42 | a day below 1 in January reads daysInMonth of month 0, undefined, and gives NaN |
| CivilShared.HourCarryIntended | lib/civil/shared.mjs:32-33 | with the loop bound written 24, the hour ends in 0..23 with the carry added back |
| CivilShared.CivilDate | lib/civil/shared.mjs:35-50 | the intended day balancing ends in a month 1..12 and a day in its month |
| CivilShared.CarryClockIntendedConserves | lib/civil/shared.mjs:23-33 | the intended clock loops leave every clock field in range, hours below 24, and conserve the total |
| CivilShared.PlusIntendedRanges | lib/civil/shared.mjs:11-57 | the intended plus gives a normal record with an hour below 24, NaN exactly when the summed day is |
| CivilShared.PlusIntendedConserves | lib/civil/shared.mjs:11-57 | the intended plus always conserves the total in nanoseconds |
| CivilShared.CivilDateDayNumber | lib/civil/shared.mjs:35-50 | the intended date has the same day number as the input |
| CivilShared.IntendedOf | lib/civil/shared.mjs:11-57 | the intended plus is the intended date at the carried clock |
| CivilShared.PlusUnderflowExample | lib/civil/shared.mjs:38-42 | as written, March 1 plus -2 days in a common year is March 1 again: the day -1 becomes `daysInMonth(February) - (-1)` = 29, which carries into March |
| CivilShared.PlusLateHourExample | lib/civil/shared.mjs:33 | as written, 23:xx plus one hour is hour 24 on the same day |
| CivilDates.New | lib/civil/date.mjs:13-15 | the constructor is the civil plus of the years, months and days onto the empty record: month 1..12, a day within its month or NaN, zero clock (CivilDates.NewConstructed), the day number kept (CivilDates.NewConserves), a constructed date unchanged (CivilDates.NewOfConstructed) |
| CivilDates.DayOfWeek | lib/civil/date.mjs:20 | `dayOfWeek`: stated by CivilDates.DayOfWeekOfDate |
| CivilDates.DayOfYear | lib/civil/date.mjs:21 | `dayOfYear`: stated by CivilDates.DayOfYearOfDate |
| CivilDates.WeekOfYear | lib/civil/date.mjs:22 | `weekOfYear`: stated by CivilDates.WeekOfYearOfDate |
| CivilDates.Plus | lib/civil/date.mjs:24-27 | `plus`: the civil plus with the clock dropped (CivilDates.PlusIsCivilPlus), the zero duration changes nothing (CivilDates.PlusZeroDate), k days move the day number by k (CivilDates.PlusDays) |
| CivilDates.With | lib/civil/date.mjs:28-30 | `with`: no fields gives the same date (CivilDates.WithNothing), a real calendar date gives exactly that date (CivilDates.WithValid) |
| CivilDates.ToDateString | lib/civil/date.mjs:37-40 | `toDateString`: the `YYYY-MM-DD` template of the fields (CivilDates.DateStringFormat), inverted by fromDateString for years 0..9999 (CivilDates.FromDateStringOfToDateString, CivilDates.ToDateStringOfFromDateString) |
| CivilDates.ToWeekDateString | lib/civil/date.mjs:47-56 | `toWeekDateString` always throws a ReferenceError, because `month` is declared nowhere in its scope; the function is that one value and no lemma is needed |
| CivilDates.ToOrdinalDateString | lib/civil/date.mjs:64-67 | `toOrdinalDateString`: reads back as the year and `dayOfYear`, and counting that many days into the year gives the date (CivilDates.OrdinalDateStringFields) |
| CivilDates.FromOrdinalDateString | lib/civil/date.mjs:68-73 | `fromOrdinalDateString` declares no parameter and reads the undeclared `string`, so it always throws a ReferenceError; its consequence for `fromString` is CivilDates.FromStringIsFromDateString |
| CivilDates.FromString | lib/civil/date.mjs:81-92 | `fromString`: equal to `fromDateString` on every string (CivilDates.FromStringIsFromDateString) |
| CivilDates.FromZonedDateTime | lib/civil/date.mjs:102-106 | `fromZonedDateTime`: stated by CivilDates.FromZonedDateTimeSpec |
| CivilDates.NewConstructed | lib/civil/date.mjs:13-15 | the constructor's record, built by the civil `plus` from the empty record, always has a month in 1..12, a day from 1 up to the month's length (or NaN) and zero clock fields |
| CivilDates.NewOfConstructed | lib/civil/date.mjs:13-15 | constructing from the fields of a constructed date gives that date back |
| CivilDates.NewMonthOverflow | lib/civil/date.mjs:13-15 | twelve extra months are one extra year |
| CivilDates.WrapTwelve | lib/civil/shared.mjs:35-36 | the month wrap maps month m + 12 to the same month one year later |
| CivilDates.NewConserves | lib/civil/date.mjs:13-15 | for a positive day the constructor keeps the day number: overflowing days and months roll over into the calendar date that many days from the start of the month |
| CivilDates.DayNumberOf | lib/civil/date.mjs:16-18 | the day number of a date is MakeDay of its year, zero-based month and day |
| CivilDates.DayOfWeekOfDate | lib/civil/date.mjs:20 | `dayOfWeek` is finite exactly for a finite day, and is then the weekday 0..6 of the date's day number |
| CivilDates.DayOfYearOfDate | lib/civil/date.mjs:21 | `dayOfYear` is 1..365 or 366 in a leap year, and counting that many days into the year gives the date back |
| CivilDates.WeekOfYearOfDate | lib/civil/date.mjs:22 | `weekOfYear` is finite exactly for a finite day, and is then 1..53 |
| CivilDates.PlusIsCivilPlus | lib/civil/date.mjs:24-27 | `date.plus(duration)` is the civil plus of the date with clock fields 0, with the clock fields of the sum dropped |
| CivilDates.PlusOfConstructed | lib/civil/date.mjs:24-27 | the same, stated directly on a constructed date's record |
| CivilDates.PlusZeroDate | lib/civil/date.mjs:24-27 | adding the zero duration to a constructed date gives the same date |
| CivilDates.PlusDays | lib/civil/date.mjs:24-27 | adding k days, when the day stays at least 1, moves the day number forward by exactly k |
| CivilDates.DayNumberStep | lib/civil/date.mjs:24-27 | a date whose MakeDay equals the shifted MakeDay has the shifted day number |
| CivilDates.DayNumberStepAt | lib/civil/date.mjs:24-27 | the same with the fields of both dates given explicitly |
| CivilDates.PlusDaysDate | lib/civil/date.mjs:24-27 | adding k days gives some calendar date whose MakeDay is that of day + k in the original month |
| CivilDates.PlusDaysAt | lib/civil/shared.mjs:11-57 | the civil plus of k days from a finite day gives a date with the MakeDay of day + k in the original month |
| CivilDates.SumDays | lib/civil/shared.mjs:15-21 | summing a day-only duration just adds the days to the day field |
| CivilDates.PlusOfSum | lib/civil/shared.mjs:11-57 | balancing a summed record with a positive day keeps its MakeDay |
| CivilDates.BalanceDay | lib/civil/shared.mjs:35-50 | the month and day loops turn a positive day into a calendar date with the same MakeDay |
| CivilDates.WithNothing | lib/civil/date.mjs:28-30 | `with({})` on a constructed date gives the same date |
| CivilDates.WithValid | lib/civil/date.mjs:28-30 | `with` given a real calendar date yields exactly that date |
| CivilDates.FromDateString | lib/civil/date.mjs:41-45 | `fromDateString` throws Error exactly when the string does not match `YYYY-MM-DD` |
| CivilDates.DateStringFormat | lib/civil/date.mjs:37-40 | for a year of at least 0, `toDateString` is the `YYYY-MM-DD` template filled with the year, month and day |
| CivilDates.FromDateStringOfToDateString | lib/civil/date.mjs:37-45 | a constructed date of a year 0..9999 survives toDateString and fromDateString |
| CivilDates.DateFits | lib/civil/date.mjs:39-42 | the printed form of a year 0..9999, month 1..12 and day 1..31 matches the pattern and reads back as the same three numbers |
| CivilDates.FromDateStringOfMatch | lib/civil/date.mjs:41-45 | a matching string gives the constructor of its three numbers |
| CivilDates.ToDateStringOfFromDateString | lib/civil/date.mjs:37-45 | a matching string naming a real calendar date survives fromDateString and then toDateString unchanged |
| CivilDates.NewOfFields | lib/civil/date.mjs:13-15 | the constructor leaves a real calendar date unchanged |
| CivilDates.ToDateStringOfFields | lib/civil/date.mjs:37-42 | printing the date read from a matching string gives the string back |
| CivilDates.DateParts | lib/civil/date.mjs:42 | a match of `YYYY-MM-DD` is three finite numbers |
| CivilDates.FromWeekDateTimeString | lib/civil/date.mjs:57-62 | `fromWeekDateTimeString` throws Error exactly when the string does not match `YYYY-Www-DD` |
| CivilDates.FromWeekDateTimeStringValid | lib/civil/date.mjs:57-62 | a matching week date gives a constructed date whose day number is the start of the year plus the week-date ordinal of the week and weekday |
| CivilDates.OrdinalDateStringFields | lib/civil/date.mjs:64-67 | the ordinal string of a date of a year 0..9999 reads back as the year and `dayOfYear`, and counting that many days into the year gives the date back |
| CivilDates.FromStringIsFromDateString | lib/civil/date.mjs:81-92 | `fromString` is `fromDateString`: the week-date attempt calls a missing function and the ordinal one reads an undeclared name, so both always throw |
| CivilDates.FromDateTime | lib/civil/date.mjs:94-100 | `fromDateTime` always throws: a TypeError for anything but a CivilDateTime and a ReferenceError (the undeclared `data`) for one |
| CivilDates.FromZonedDateTimeSpec | lib/civil/date.mjs:102-106 | `fromZonedDateTime` succeeds exactly for a ZonedDateTime, otherwise throws a TypeError, and reads the host zone's wall date at the instant's milliseconds; a real calendar date comes back unchanged |
| CivilTimes.New | lib/civil/time.mjs:13-16 | the constructor is the civil plus onto the empty record (CivilTimes.NewIsPlus), a clock with the hour in 0..59 (the civil plus carries the hour into days only at 60), the minute and second in 0..59 and the nanoseconds in 0..999999999, equal to the amounts taken together less whole days (CivilTimes.NewClock), and a clock already in range unchanged (CivilTimes.NewKeeps, CivilTimes.NewOfClock) |
| CivilTimes.Hour | lib/civil/time.mjs:17 | the `hour` getter: read back from the constructor by CivilTimes.GettersOfNew and CivilTimes.GettersOfClock |
| CivilTimes.Minute | lib/civil/time.mjs:18 | the `minute` getter: read back by CivilTimes.GettersOfNew and CivilTimes.GettersOfClock |
| CivilTimes.Second | lib/civil/time.mjs:19 | the `second` getter: read back by CivilTimes.GettersOfNew and CivilTimes.GettersOfClock |
| CivilTimes.Millisecond | lib/civil/time.mjs:21 | the `millisecond` getter: 0..999, recombining with the other two into the nanosecond field (CivilTimes.Subseconds), and the constructor's own argument for in-range arguments (CivilTimes.GettersOfNew) |
| CivilTimes.Microsecond | lib/civil/time.mjs:22 | the `microsecond` getter: the same lemmas, CivilTimes.Subseconds and CivilTimes.GettersOfNew |
| CivilTimes.Nanosecond | lib/civil/time.mjs:23 | the `nanosecond` getter: the same lemmas, CivilTimes.Subseconds and CivilTimes.GettersOfNew |
| CivilTimes.Plus | lib/civil/time.mjs:25-28 | `plus`: the clock moved by the duration's clock amounts less whole days (CivilTimes.PlusMoves), the zero duration changes nothing (CivilTimes.PlusZeroTime), hours added while the hour sum stays below 60 only add to the hour, so 23:00 plus one hour is 24:00 (CivilTimes.PlusHours) |
| CivilTimes.With | lib/civil/time.mjs:29-31 | `with`: on a carried clock, fields given in range replace exactly those getters and the rest keep the time's own (CivilTimes.WithReplaces), no fields gives the same time (CivilTimes.WithNothing) |
| CivilTimes.ToTimeString | lib/civil/time.mjs:38-42 | `toTimeString`: the `HH:MM:SS.NNNNNNNNN` text of the fields (CivilTimes.ToTimeStringOfClock), inverted by fromTimeString both ways (CivilTimes.FromTimeStringOfToTimeString, CivilTimes.ToTimeStringOfFromTimeString) |
| CivilTimes.ToString | lib/civil/time.mjs:49-51 | `toString` is `toTimeString`, inverted by `fromString` (CivilTimes.FromStringOfToString) |
| CivilTimes.FromString | lib/civil/time.mjs:55-57 | `fromString` is `fromTimeString`, and gives back a time it printed (CivilTimes.FromStringOfToString) |
| CivilTimes.ClockOfPlus | lib/civil/shared.mjs:11-34 | the clock fields of the civil plus depend only on the clock loops over the summed record, not on the date loops |
| CivilTimes.PlusClockOfClock | lib/civil/shared.mjs:11-34 | two records with the same clock give the same clock after adding the same duration |
| CivilTimes.CarryClockOfClock | lib/civil/shared.mjs:23-33 | the clock loops read only the clock fields |
| CivilTimes.EmptyFields | lib/civil/time.mjs:15 | the empty record `{}` reads as year, month, day and clock all 0 under plus's defaults |
| CivilTimes.SumOfEmpty | lib/civil/time.mjs:15 | summing a clock-only duration into `{}` gives the hours, minutes and seconds and the sub-second amounts as one nanosecond count |
| CivilTimes.SumOfZeroRecord | lib/civil/shared.mjs:15-21 | the same for an all-zero record |
| CivilTimes.NewIsPlus | lib/civil/time.mjs:13-16 | the constructor keeps the clock of `plus({}, { hours, minutes, … })` |
| CivilTimes.RecordClock | lib/civil/time.mjs:26 | a time's clock put into a record and read back is unchanged |
| CivilTimes.NewClock | lib/civil/time.mjs:13-16 | the constructed clock is in the carried ranges, and its nanoseconds from midnight differ from the given amounts only by whole days |
| CivilTimes.CarriedClock | lib/civil/shared.mjs:23-33 | the clock loops leave a clock already in range unchanged |
| CivilTimes.NewKeeps | lib/civil/time.mjs:13-16 | arguments already in range are stored as given, the sub-second ones combined into one nanosecond field |
| CivilTimes.NewOfClock | lib/civil/time.mjs:13-16 | a clock in range rebuilt through the constructor with only the nanosecond field is unchanged |
| CivilTimes.Subseconds | lib/civil/time.mjs:21-23 | the millisecond, microsecond and nanosecond getters are each 0..999 and recombine into the stored nanosecond field |
| CivilTimes.SplitNanos | lib/civil/time.mjs:21-23 | the floor and remainder arithmetic of the getters splits a count below one second into three parts 0..999 that recombine into it |
| CivilTimes.SplitOfParts | lib/civil/time.mjs:21-23 | three parts 0..999 combined and split again come back unchanged |
| CivilTimes.GettersOfNew | lib/civil/time.mjs:13-23 | the six getters of a time constructed from in-range arguments return those arguments |
| CivilTimes.GettersOfClock | lib/civil/time.mjs:17-23 | the six getters of a stored clock return the hour, minute, second and the three sub-second parts |
| CivilTimes.PlusMoves | lib/civil/time.mjs:25-28 | `time.plus(duration)` is a carried clock that is the duration's nanoseconds later, up to whole days |
| CivilTimes.PlusOfUnmoved | lib/civil/time.mjs:25-28 | a duration that leaves the summed record unchanged leaves the time unchanged |
| CivilTimes.PlusZeroTime | lib/civil/time.mjs:25-28 | adding the zero duration gives the same time |
| CivilTimes.PlusHours | lib/civil/time.mjs:25-28 | adding hours that keep the hour below 60 just adds them: the hour does not wrap at 24 |
| CivilTimes.PlusSixteenHoursExample | lib/civil/shared.mjs:33 | 15:23:30.123456789 plus 16 hours has hour 31, because the hour loop carries only from 60 |
| CivilTimes.WithReplaces | lib/civil/time.mjs:29-31 | `with` given in-range fields returns a time whose getters are the given fields, or the time's own where a field is omitted |
| CivilTimes.WithNothing | lib/civil/time.mjs:29-31 | `with({})` gives the same time |
| CivilTimes.WithDate | lib/civil/time.mjs:32-36 | `withDate` calls `typeCheck`, which this file never imports, so it throws a ReferenceError |
| CivilTimes.FromDateTime | lib/civil/time.mjs:59-65 | `fromDateTime` calls the unimported `typeCheck` and always throws a ReferenceError |
| CivilTimes.FromZonedDateTime | lib/civil/time.mjs:67-71 | `fromZonedDateTime` calls the unimported `typeCheck` and always throws a ReferenceError |
| CivilTimes.FromTimeString | lib/civil/time.mjs:43-47 | `fromTimeString` throws Error exactly when the string does not match `HH:MM:SS.NNNNNNNNN` |
| CivilTimes.ToTimeStringOfClock | lib/civil/time.mjs:38-42 | `toTimeString` is the pattern's template filled with the hour, minute, second and whole nanosecond field |
| CivilTimes.TimeFits | lib/civil/time.mjs:41-44 | the printed form of a clock in range matches the pattern and reads back as the same four numbers |
| CivilTimes.FromTimeStringOfMatch | lib/civil/time.mjs:43-47 | a matching string gives the constructor of its four numbers, the last as nanoseconds |
| CivilTimes.FromTimeStringOfToTimeString | lib/civil/time.mjs:38-47 | every carried time survives toTimeString and fromTimeString |
| CivilTimes.ToTimeStringOfFromTimeString | lib/civil/time.mjs:38-47 | a matching string with hour, minute and second below 60 survives fromTimeString and toTimeString unchanged |
| CivilTimes.TimeParts | lib/civil/time.mjs:44 | a match is four finite numbers, the last below one second |
| CivilTimes.FromStringOfToString | lib/civil/time.mjs:49-57 | `fromString(toString())` gives every carried time back |
| CivilTimes.ConstructorExample | lib/civil/time.mjs:13-23 | `new CivilTime(15, 23, 30, 123, 456, 789)` has the getters 15, 23, 30, 123, 456 and 789 |
| CivilTimes.ToStringExample | lib/civil/time.mjs:38-51 | that time prints as 15:23:30.123456789 |
| CivilDateTimes.New | lib/civil/datetime.mjs:14-16 | the constructor is the civil plus onto the empty record: a normal record (CivilDateTimes.NewNormal), the weighted total of the amounts kept when the carried day is at least 1 (CivilDateTimes.NewConserves), a normal record unchanged (CivilDateTimes.NewOfNormal) |
| CivilDateTimes.Plus | lib/civil/datetime.mjs:32-35 | `plus`: the civil plus re-constructed (CivilDateTimes.PlusIsCivilPlus), the zero duration changes nothing (CivilDateTimes.PlusZeroDateTime), the clock moved by the duration's clock amounts less whole days, and the total conserved when the carried day is at least 1 (CivilDateTimes.PlusMoves) |
| CivilDateTimes.With | lib/civil/datetime.mjs:36-38 | `with`: no fields gives the same date-time (CivilDateTimes.WithNothing), every field given and in range gives exactly those fields (CivilDateTimes.WithValid) |
| CivilDateTimes.ToCivilDate | lib/civil/datetime.mjs:71-74 | `toCivilDate`: the date fields unchanged and the clock at midnight (CivilDateTimes.ToCivilDateOf) |
| CivilDateTimes.ToCivilTime | lib/civil/datetime.mjs:75-80 | `toCivilTime` reads `CivilTime`, which lib/civil/datetime.mjs never imports, so it always throws a ReferenceError; the function is that one value and no lemma is needed |
| CivilDateTimes.FromZonedDateTime | lib/civil/datetime.mjs:65-69 | `fromZonedDateTime`: stated by CivilDateTimes.FromZonedDateTimeSpec |
| CivilDateTimes.ToDateTimeString | lib/civil/datetime.mjs:82-86 | `toDateTimeString`: the template of the fields (CivilDateTimes.DateTimeStringFormat), inverted by fromDateTimeString both ways (CivilDateTimes.FromDateTimeStringOfToDateTimeString, CivilDateTimes.ToDateTimeStringOfFromDateTimeString) |
| CivilDateTimes.ToString | lib/civil/datetime.mjs:123-125 | `toString` is `toDateTimeString`: the lemmas of CivilDateTimes.ToDateTimeString |
| CivilDateTimes.ToWeekDateTimeString | lib/civil/datetime.mjs:93-103 | `toWeekDateTimeString`: the week template of the week year, week, weekday and clock (CivilDateTimes.WeekStringFormat), reading back as those fields (CivilDateTimes.WeekDateTimeStringFields) |
| CivilDateTimes.ToOrdinalDateTimeString | lib/civil/datetime.mjs:111-115 | `toOrdinalDateTimeString`: fits its pattern (CivilDateTimes.OrdinalFits) and is inverted by fromOrdinalDateTimeString (CivilDateTimes.FromOrdinalOfToOrdinal) |
| CivilDateTimes.FromString | lib/civil/datetime.mjs:129-140 | `fromString`: the one grammar that matches decides the result, and Error when none does (CivilDateTimes.FromStringOneGrammar) |
| CivilDateTimes.NewNormal | lib/civil/datetime.mjs:14-16 | the constructor's record, the civil `plus` of `{}` and all nine amounts, is always normal: month 1..12, a day within the month or NaN, hour 0..59, minute and second 0..59 and nanoseconds below one second |
| CivilDateTimes.NewOfNormal | lib/civil/datetime.mjs:14-16 | constructing from the fields of a normal record, the sub-second part as nanoseconds, gives that date-time back |
| CivilDateTimes.NewConserves | lib/civil/datetime.mjs:14-16 | when the carried day stays at least 1, the constructor keeps the instant: day number and nanoseconds from midnight add up to the given amounts |
| CivilDateTimes.SumOfEmpty | lib/civil/datetime.mjs:15 | summing the nine amounts into `{}` gives them as fields, the sub-second ones as one nanosecond count |
| CivilDateTimes.NewOfSubseconds | lib/civil/datetime.mjs:14-16 | only the combined nanosecond count of the three sub-second arguments matters |
| CivilDateTimes.SubsecondsOf | lib/civil/datetime.mjs:24-26 | the millisecond, microsecond and nanosecond getters are each 0..999 and recombine into the stored nanosecond field |
| CivilDateTimes.DayOfWeekOf | lib/civil/datetime.mjs:28 | `dayOfWeek` is 1..7: the ISO weekday of the day number, Sunday 7, and 7 as well for a NaN day |
| CivilDateTimes.IsoWeekdayAt | lib/civil/datetime.mjs:28 | Zeller's weekday with Sunday mapped to 7 is the ISO weekday of the date's day number |
| CivilDateTimes.DayOfYearOf | lib/civil/datetime.mjs:29 | `dayOfYear` is 1..365 or 366 in a leap year, and counting that many days into the year gives the date back |
| CivilDateTimes.WeekOfYearOf | lib/civil/datetime.mjs:30 | `weekOfYear` is finite exactly for a finite day, and is then 1..53 |
| CivilDateTimes.PlusIsCivilPlus | lib/civil/datetime.mjs:32-35 | `dateTime.plus(duration)` is the date-time whose record is the civil plus of its record and the duration |
| CivilDateTimes.PlusZeroDateTime | lib/civil/datetime.mjs:32-35 | adding the zero duration gives the same date-time |
| CivilDateTimes.PlusMoves | lib/civil/datetime.mjs:32-35 | the clock of the result is the duration's nanoseconds later up to whole days, and those days are carried into the day field |
| CivilDateTimes.WithNothing | lib/civil/datetime.mjs:36-38 | `with({})` gives the same date-time |
| CivilDateTimes.WithValid | lib/civil/datetime.mjs:36-38 | `with` given a real calendar date and an in-range clock yields exactly that date and clock |
| CivilDateTimes.ToCivilDateOf | lib/civil/datetime.mjs:71-74 | `toCivilDate` is a CivilDateTime, not a CivilDate, of the same date at midnight |
| CivilDateTimes.WithTime | lib/civil/date.mjs:31-35 | `date.withTime(time)` throws a TypeError exactly when not handed a CivilTime, the default `{}` included |
| CivilDateTimes.WithTimeOf | lib/civil/date.mjs:31-35 | a constructed date with a carried time gives the date-time of that date and that clock, every field kept |
| CivilDateTimes.FromZonedDateTimeSpec | lib/civil/datetime.mjs:65-69 | `fromZonedDateTime` succeeds exactly for a ZonedDateTime, otherwise throws a TypeError, and reads the host zone's wall clock because `zoned.offsetString` is undefined |
| CivilDateTimes.FromInstantInfoScales | lib/civil/datetime.mjs:67-68 | as written, n nanoseconds below the millisecond go into the milliseconds argument and come out as n * 10^6 nanoseconds |
| CivilDateTimes.FromInstantInfoIntended | lib/civil/datetime.mjs:67-68 | with the nanoseconds in the nanoseconds argument, a wall clock in range is kept exactly |
| CivilDateTimes.FindFrom | lib/civil/datetime.mjs:49-55 | `find` returns the first index whose candidate the filter picks, or none when it picks none |
| CivilDateTimes.WithZone | lib/civil/datetime.mjs:40-64 | `withZone` throws only Error |
| CivilDateTimes.WithZoneFirst | lib/civil/datetime.mjs:40-64 | `withZone` succeeds exactly when the filter picks some candidate and then returns the first one picked; with no filter that is the first candidate |
| CivilDateTimes.WithZoneNaN | lib/civil/datetime.mjs:51-53 | a NaN offset filter picks nothing, so `withZone` throws |
| CivilDateTimes.Shapes | lib/civil/datetime.mjs:88-117 | the field widths of the three patterns, and their total lengths 29, 29 and 27 |
| CivilDateTimes.FromDateTimeString | lib/civil/datetime.mjs:87-91 | `fromDateTimeString` throws Error exactly when the string does not match the date-time pattern |
| CivilDateTimes.DateTimeStringFormat | lib/civil/datetime.mjs:82-86 | for a year of at least 0, `toDateTimeString` is the pattern's template filled with the seven values |
| CivilDateTimes.DateTimeFits | lib/civil/datetime.mjs:82-91 | the printed form of a normal date-time of a year 0..9999 matches the pattern and reads back as its seven values |
| CivilDateTimes.FromDateTimeStringOfMatch | lib/civil/datetime.mjs:87-91 | a matching string gives the constructor of its seven numbers, the last as nanoseconds |
| CivilDateTimes.FromDateTimeStringOfToDateTimeString | lib/civil/datetime.mjs:82-91 | a normal date-time of a year 0..9999 survives toDateTimeString and fromDateTimeString |
| CivilDateTimes.DateTimeMatched | lib/civil/datetime.mjs:88 | a match is seven finite non-negative numbers, the last below one second, whose template is the string |
| CivilDateTimes.ToDateTimeStringOfFromDateTimeString | lib/civil/datetime.mjs:82-91 | a matching string naming a real date and an in-range clock survives fromDateTimeString and toDateTimeString unchanged |
| CivilDateTimes.WeekYearExample | lib/civil/datetime.mjs:93-103 | January 1, 2021 gets week 52 and the week string puts it in 2022 |
| CivilDateTimes.WeekYearIntendedIso | lib/civil/datetime.mjs:93-103 | with the adjustment turned round, the week year of every real calendar date is the year of its week's Thursday, as ISO 8601 numbers week years; the week year as written lies as far from the date's year on the other side |
| CivilDateTimes.DayOfYearBounds | lib/shared.mjs:51-57 | a January date's ordinal is its day, a later month's is at least 32, an earlier month than December's at most 334 (335 in a leap year), and a December date's at least 335 (336 in a leap year) |
| CivilDateTimes.WeekYearIntendedExample | lib/civil/datetime.mjs:93-103 | with the adjustment turned round, January 1, 2021 has week year 2020 |
| CivilDateTimes.WeekDateTimeStringFields | lib/civil/datetime.mjs:93-105 | the week string of a date-time whose week year is 0..9999 reads back as the week year, week, weekday and clock |
| CivilDateTimes.WeekStringFormat | lib/civil/datetime.mjs:93-103 | `toWeekDateTimeString` is the week pattern's template filled with the week year and the other six values |
| CivilDateTimes.FromWeekDateTimeString | lib/civil/datetime.mjs:104-109 | `fromWeekDateTimeString` throws Error exactly when the string does not match the week pattern |
| CivilDateTimes.WeekMatched | lib/civil/datetime.mjs:105 | a match is seven finite non-negative numbers with a two-digit clock and nanoseconds below one second |
| CivilDateTimes.FromWeekOfMatch | lib/civil/datetime.mjs:104-109 | a matching string gives the constructor of the date `fromWeekOfYear` picks and the clock |
| CivilDateTimes.FromWeekDateTimeStringValid | lib/civil/datetime.mjs:104-109 | every matching week string gives a normal date-time, whose date is the week-date ordinal's day of the year when the clock is in range |
| CivilDateTimes.WeekDate | lib/civil/shared.mjs:122-133 | `fromWeekOfYear` gives a real calendar date whose day number is the start of the year plus the week-date ordinal |
| CivilDateTimes.DayNumberOf | lib/civil/datetime.mjs:17-19 | the day number of a date-time is MakeDay of its year, zero-based month and day |
| CivilDateTimes.WeekDateAt | lib/civil/datetime.mjs:108 | the constructor on a real date and a non-negative two-digit clock gives a normal date-time |
| CivilDateTimes.NewDayNumber | lib/civil/datetime.mjs:14-16 | a real date with a non-negative clock constructs to a finite day |
| CivilDateTimes.CarryDayForward | lib/civil/shared.mjs:23-33 | with non-negative clock fields the clock loops only move the day forward |
| CivilDateTimes.BalanceForward | lib/civil/shared.mjs:35-50 | the date loops turn a positive day into a finite one |
| CivilDateTimes.FromOrdinalDateTimeString | lib/civil/datetime.mjs:116-121 | `fromOrdinalDateTimeString` throws Error exactly when the string does not match the ordinal pattern |
| CivilDateTimes.OrdinalFits | lib/civil/datetime.mjs:111-117 | the ordinal string of a normal date-time of a year 0..9999 reads back as its year, `dayOfYear` and clock |
| CivilDateTimes.FromOrdinalOfMatch | lib/civil/datetime.mjs:116-121 | a matching string gives the constructor of the date `fromDayOfYear` picks and the clock |
| CivilDateTimes.FromOrdinalOfToOrdinal | lib/civil/datetime.mjs:111-121 | a normal date-time of a year 0..9999 survives toOrdinalDateTimeString and fromOrdinalDateTimeString |
| CivilDateTimes.FifthCharacter | lib/civil/datetime.mjs:88-117 | a date-time match is 29 characters with a digit at index 5, a week match 29 with `W` there, an ordinal match 27 characters |
| CivilDateTimes.FromStringOneGrammar | lib/civil/datetime.mjs:129-140 | no string matches two of the three grammars, so `fromString` is the one parse that matches, and throws Error exactly when none does |
| Utils.StringToNumber | lib/utils.mjs:23-24 | unary `+` on a string: white space at either end is dropped, decimal digits read as their value, a '-' in front negates them, and a string whose first character can start neither white space nor a numeric literal is NaN |
| Utils.SignedDigits | lib/utils.mjs:23-24 | a '+' or '-' followed by decimal digits reads as the value of the digits, negated for '-' |
| Utils.StringToNumberPadded | lib/utils.mjs:23-24 | white space before and after a string changes nothing: it reads as the string alone |
| Utils.StringToNumberRadix | lib/utils.mjs:23-24 | '0x', '0o' or '0b' followed by digits of that base reads as their value in that base, and the same text after a '+' or '-' is NaN |
| Utils.StringToNumberExponent | lib/utils.mjs:23-24 | the decimal text of m, 'e' and the decimal text of k reads as m times 10 to the k |
| Utils.StringToNumberFraction | lib/utils.mjs:23-24 | the decimal text of m followed by '.' and only zeros reads as m |
| Utils.RadixTen | lib/utils.mjs:23-24 | decimal digits read in base ten are worth their decimal value |
| Utils.ScaledUp | lib/utils.mjs:23-24 | a significand m with a non-negative exponent e is the integer m times 10 to the e |
| Utils.ScaledDown | lib/utils.mjs:23-24 | q times 10 to the k with exponent -k is the integer q |
| Utils.PaddedExamples | lib/utils.mjs:23-24 | ' 13' and '13 ' read as 13 |
| Utils.ExponentExample | lib/utils.mjs:23-24 | '1e3' reads as 1000 |
| Utils.FractionExample | lib/utils.mjs:23-24 | '13.0' reads as 13 |
| Utils.HexExample | lib/utils.mjs:23-24 | '0x10' reads as 16, and '-0x10' is NaN |
| Utils.OctalExample | lib/utils.mjs:23-24 | '0o17' reads as 15 |
| Utils.BinaryExample | lib/utils.mjs:23-24 | '0b1' reads as 1 |
| Utils.ToNumber | lib/utils.mjs:23-24 | unary `+`: a number is itself, true 1, false and null 0, undefined NaN |
| Utils.StringToNumberOfText | lib/utils.mjs:23-24 | every integer's decimal text reads back as that integer |
| Utils.Number | lib/utils.mjs:22-25 | `number(v)` throws a TypeError exactly when `+v` is NaN, and returns `+v` otherwise, for a string any numeric literal that StringToNumber reads |
| Utils.NumberOfText | lib/utils.mjs:22-25 | `number` of an integer's decimal text is that integer |
| Utils.NumberExamples | test/utils.mjs:30-41 | `number` of '13', '135', 13, -5, '-5', false and true is 13, 135, 13, -5, -5, 0 and 1, and it throws for 'false' and 'true' |
| Utils.Pad | lib/utils.mjs:12-16 | `pad` of a finite value is the digits of its absolute value, left-filled with zeros to at least cnt characters and never cut |
| Utils.SignedPad | lib/utils.mjs:18-20 | `signedpad` is `pad` with a '-' in front exactly when the value is negative |
| Utils.NumberOfSignedPad | lib/utils.mjs:18-25 | `number` reads back every integer `signedpad` prints, sign included |
| Utils.PadOfDigits | lib/utils.mjs:12-20 | on a digit string both pads agree with the zero-filling of its value |
| Utils.PadOfNumber | lib/utils.mjs:12-20 | on a number both pads agree with the zero-filling of its integer, and signedpad adds '-' exactly when it is negative |
| Utils.PadExamples | test/utils.mjs:12-19 | `pad('13', 3)`, `pad('1343', 3)` and `pad('012', 5)` are '013', '1343' and '00012' |
| Utils.SignedPadExamples | test/utils.mjs:21-28 | `signedpad` of the same strings gives the same three results |
| Utils.PadNumberExamples | test/utils.mjs:16-26 | `pad(12, 3)` and `pad(-12, 3)` are '012', `signedpad(12, 3)` is '012' and `signedpad(-12, 3)` is '-012' |
| Utils.TypeCheck | lib/utils.mjs:6-10 | `typeCheck` passes exactly an object whose toStringTag is the name, and otherwise throws a TypeError |
| Utils.TypeCheckDistinguishes | lib/utils.mjs:6-10 | an object passes the check of its own tag and fails the check of any other |
| Utils.MinutesAt | lib/utils.mjs:63 | the optional minutes group, when present, is two digits, and is taken whenever a colon and two digits follow |
| Utils.GroupsAt | lib/utils.mjs:63 | the offset pattern matches at an index exactly when a sign and a digit stand there, and then gives well-formed groups with that sign |
| Utils.ExecFrom | lib/utils.mjs:63 | the search from an index finds the first index where the pattern matches, or reports that none does |
| Utils.Exec | lib/utils.mjs:63 | `exec` matches exactly when the pattern matches at some index, and then gives well-formed groups |
| Utils.CreateFormatter | lib/utils.mjs:44-98 | 'SYSTEM' gets the system formatter, a zone text containing a sign and a digit gets a fixed formatter with the negated offset, and anything else goes to the Intl formatter, which throws a RangeError for an unknown zone |
| Utils.ExecOfOffsetText | lib/utils.mjs:63 | an offset string `±HH:MM` matches as its sign, hours and minutes |
| Utils.OffsetOfText | lib/utils.mjs:65-66 | the formatter's offset of `±HH:MM` is the minutes with the opposite sign |
| Utils.FormatterOfOffsetString | lib/utils.mjs:63-86 | the offset string of a whole-minute offset below 100 hours gives a fixed formatter with that offset negated |
| Utils.OffsetStringGroups | lib/utils.mjs:63-66 | such an offset string matches as well-formed groups whose formatter offset is the negated minutes |
| Utils.EtcZoneReadAsOffset | lib/utils.mjs:63-66 | 'Etc/GMT+5' contains '+5', so it gets a fixed formatter 5 hours ahead of UTC although the zone is 5 hours behind |
| Utils.FullAt | lib/utils.mjs:63 | with the pattern anchored at both ends and n hour digits, a match is well-formed, starts with the text's sign and has n hour digits |
| Utils.ExecAnchored | lib/utils.mjs:63 | the anchored pattern matches only a text that starts with a sign and has at least two characters, and gives well-formed groups with that sign |
| Utils.CreateFormatterIntended | lib/utils.mjs:44-98 | with the pattern anchored, only a zone that is an offset from its first character to its last gets a fixed formatter; a zone that does not start with a sign, every IANA name included, goes to Intl, which throws a RangeError for an unknown zone |
| Utils.EtcZoneIntended | lib/utils.mjs:63-66 | with the pattern anchored, 'Etc/GMT+5' goes to Intl, which knows it as 5 hours behind UTC |
| Utils.ExecAnchoredOfOffsetText | lib/utils.mjs:63 | a sign, two digits, a colon and two digits match the anchored pattern whole, with the same groups as the unanchored one |
| Utils.AnchoredOfOffsetString | lib/utils.mjs:63 | on every text makeOffsetString prints, the anchored pattern finds the same groups as the unanchored one |
| Utils.FormatterOfOffsetStringIntended | lib/utils.mjs:63-86 | with the pattern anchored, every offset string of a whole-minute offset below 100 hours still gets the fixed formatter with that offset negated |
| Utils.GetInstantInfo | lib/utils.mjs:27-42 | `getInstantInfo` throws for 'SYSTEM' (the formatter reads an undeclared `r`) and where the formatter throws; otherwise the wall clock, the nanoseconds `(ms % 1000) * 1e6 + ns`, the offset in floored seconds and the zone unless non-geographic |
| Utils.FixedFormatterZone | lib/utils.mjs:69-71 | a fixed formatter shows the wall clock of the fixed zone offset by -offset minutes |
| Utils.OffsetSecondsOf | lib/utils.mjs:36 | the offset seconds are the zone's offset at ms, floored to seconds |
| Utils.WholeSecondsOf | lib/utils.mjs:36 | flooring the fixed offset, one second less when the millisecond is negative, to seconds |
| Utils.FixedInfo | lib/utils.mjs:27-42 | for a fixed formatter outside years 0..99 the wall clock is UTC at ms minus the offset, and the offset seconds are -60 * offset, one less before the epoch at a non-whole second |
| Utils.UtcInfoBeforeEpoch | lib/utils.mjs:33-36 | as written, one millisecond before the epoch in '+00:00' gives offset seconds -1 and nanoseconds -1000000, because `ms % 1000` is negative |
| Utils.UtcFormatter | lib/utils.mjs:63-66 | '+00:00' gets the fixed formatter with offset 0 |
| Utils.FixedInfoIntended | lib/utils.mjs:33-36 | with the millisecond taken as a non-negative remainder the offset seconds are exactly -60 * offset and the nanoseconds stay below one second |
| YearMonths.Compare | lib/yearmonth.mjs:72-76 | `compare`: its sign is the order of the month counts (YearMonths.CompareOrders), and swapping the arguments negates it (YearMonths.CompareAntisymmetric) |
| YearMonths.New | lib/yearmonth.mjs:6-10 | the constructor succeeds exactly for a finite year and a finite month in 1..12, stores them, and throws Error otherwise |
| YearMonths.NewOfValid | lib/yearmonth.mjs:6-10 | a valid year-month is its own constructor's result |
| YearMonths.CompareOrders | lib/yearmonth.mjs:72-76 | for valid year-months, `compare` is negative, zero or positive exactly as the first is earlier, equal or later in months counted from year 0 |
| YearMonths.CompareAntisymmetric | lib/yearmonth.mjs:72-76 | swapping the operands of `compare` negates it |
| YearMonths.SortPair | lib/yearmonth.mjs:33 | sorting the pair by `compare` gives the same two year-months in ascending order |
| YearMonths.Balanced | lib/yearmonth.mjs:32-41 | before `castDuration`, difference holds whole years and 0..11 months that make up the month distance between the two, in either operand order |
| YearMonths.Difference | lib/yearmonth.mjs:32-41 | `difference` always throws a ReferenceError: `castDuration` is never imported |
| YearMonths.WithDay | lib/yearmonth.mjs:44-46 | `withDay(day)` succeeds exactly for a finite day of at least 1, and gives the date of that year, month and day |
| YearMonths.WithFirstDay | lib/yearmonth.mjs:44-46 | `withDay()` with the default day gives the first of the month |
| YearMonths.ToString | lib/yearmonth.mjs:48-54 | `toString` and `toJSON` always throw a ReferenceError: `signedpad` is never imported |
| YearMonths.ParseISO | lib/yearmonth.mjs:63-70 | parseISO accepts only a valid year-month and throws Error otherwise |
| YearMonths.FromString | lib/yearmonth.mjs:56-59 | `fromString` succeeds exactly when parseISO does and returns the parsed year-month |
| YearMonths.ParseISOOfParts | lib/yearmonth.mjs:63-70 | a year part of at least four characters, a dash and two characters parse exactly when both parts do |
| YearMonths.FromStringOfIsoString | lib/yearmonth.mjs:48-70 | every valid year-month of any year survives its `YYYY-MM` form and `fromString` |
| YearMonths.ParsedParts | lib/yearmonth.mjs:63-70 | every string parseISO accepts ends in a dash and the padded month, and begins with the signed year |
| YearMonths.With | lib/yearmonth.mjs:18-21 | `with` always throws a ReferenceError: it calls the misspelt `CivilTearMonth` |
| YearMonths.Plus | lib/yearmonth.mjs:22-31 | `plus` and `minus` always throw a ReferenceError: `castDuration` is never imported |
| MonthDays.New | lib/monthday.mjs:6-10 | the constructor throws Error for a month that is not finite or outside 1..12 and for a day that is not finite or below 1; every other input reaches the unimported `daysInMonth` and throws a ReferenceError, so no instance is ever made |
| MonthDays.DaysInMonthOfUndefined | lib/monthday.mjs:8 | `daysInMonth(undefined, month)`, had it been imported, is the common-year length, 28 for February |
| MonthDays.NewImported | lib/monthday.mjs:6-10 | with `daysInMonth` imported, the bound compares the month with the month's length and so never rejects: exactly a month in 1..12 and a finite day of at least 1 succeed |
| MonthDays.ImportedAcceptsDay40 | lib/monthday.mjs:8 | with `daysInMonth` imported, January 40 is accepted |
| MonthDays.NewIntended | lib/monthday.mjs:6-10 | comparing the day with the month's length, the constructor succeeds exactly for a real common-year month-day and stores it |
| MonthDays.ParseISO | lib/monthday.mjs:67-74 | parseISO accepts only a five-character `MM-DD` with month 1..12 and day 1..31 that is the padded form of what it returns, and throws Error otherwise |
| MonthDays.ParseOfIsoString | lib/monthday.mjs:67-74 | every month 1..12 and day 1..31 printed as `MM-DD` parses back to itself |
| MonthDays.FromString | lib/monthday.mjs:60-63 | `fromString` always throws: Error when parseISO does, a ReferenceError from the constructor otherwise |
| MonthDays.FromStringIntended | lib/monthday.mjs:60-63 | with the intended constructor, `fromString` returns only a real month-day whose `MM-DD` form is the input |
| MonthDays.FromStringOfIsoStringIntended | lib/monthday.mjs:60-74 | with the intended constructor every real month-day survives its `MM-DD` form and `fromString` |
| MonthDays.FromStringOfIsoString | lib/monthday.mjs:60-74 | as written, the same strings make `fromString` throw a ReferenceError |

## Left out

- Intl time zones: `Intl.DateTimeFormat` becomes the `ZoneOracle` and `Zones` parameters. Time-zone names are resolved by that parameter, `isValidTimezone` of lib/zoned.mjs is not modelled, and the `offsets` probes of lib/timezone.mjs, which read a host-local `Date`, are given as a parameter.
- lib/unimap.mjs (WeakMap eviction and Promise-scheduled cleanup), lib/local.mjs and lib/system.mjs (clocks, randomness, host zone detection) are not part of this model. Neither are the packaging files.
- The SYSTEM formatter of `createFormatter` reads an undeclared `r`. Utils.GetInstantInfo models only the resulting ReferenceError, not the host's local clock.
- Floating point: `Math.floor(2.6*m - 0.2)` is computed as `(26*m - 2)/10`. `Number(BigInt)` is exact, so the precision loss of the Instant and Absolute getters beyond 2^53 is not modelled. Duration inputs are integers.
- Utils.StringToNumber, Utils.Number: `Num` holds only integers and NaN, so a numeric literal whose value is not an integer, such as '1.5', '1e-1' or 'Infinity', reads as NaN here and `number` throws for it, where JavaScript returns a non-integral or infinite number. The rounding of long literals to the nearest double is not modelled either. Instants.FromMilliseconds and Instants.FromSeconds inherit this: they record integer milliseconds only.
- TimeClip: EcmaTime's `Date.UTC` and `new Date(ms)` never become NaN beyond plus or minus 8.64e15 ms. Offsets, Zoned and TimeZones rely on that; only the `toISOString` of Instants.ToString models the RangeError.
- Times.WithReplaces, Times.With: require every given field to be finite (`Finite`); a NaN field given to `with` is not modelled.
- DateTimes.WithReplaces, DateTimes.With: require the given clock fields to be finite (`TimeFinite`).
- Offsets.WithReplaces, Offsets.With: require the given microsecond and nanosecond to be finite (`SubFinite`); a NaN year, month, day, hour, minute, second or millisecond is modelled (Offsets.WithNaN).
- DateTimes.DifferenceProperties, DateTimes.Difference, DateTimes.WithZoneDefault: require the receiver's day to be finite, so a date-time whose day became NaN in a January underflow is not covered.
- Dates.DifferenceSpec, Times.DifferenceSpec, DateTimes.DifferenceSpec: take the other operand as a map of integer fields, so `difference` with a non-numeric field is not modelled.
- Absolutes.New, Absolutes.FromEpochSeconds, Absolutes.FromEpochMilliseconds, Absolutes.FromEpochMicroseconds, Absolutes.FromEpochNanoseconds: always take a zone name; the default 'UTC' is passed explicitly by the caller.
- Absolutes.Difference: the `assert.type` check of `difference`'s operand is not modelled; both operands are Absolutes.
- Shared.MatchingDescending, Shared.PossibleTimestampsFirstLatest, DateTimes.WithZoneDefault: assume the candidate offsets come in ascending numeric order. The argument-less `.sort()` of `possibleTimestamps` orders them as strings, which differs for offsets of different digit counts or signs; TimeZones.AbsoluteForOrderFree shows that IanaZone's `getAbsoluteFor` does not depend on that order.
- TimeZones.For, TimeZones.OffsetDateTimeFor, TimeZones.OffsetAbsoluteFor: `OffsetZone.for` stores the name string in OFFSET. As written, `getAbsoluteFor` throws a SyntaxError for every name with a sign or a colon, and appends an unsigned colonless name such as '0100' to the digits of the time value (TimeZones.OffsetOfNameThrows, TimeZones.OffsetAbsoluteForOfName). `getDateTimeFor` throws for every name with a colon, and reads a colonless one as the number HHMM, so '+0100' shifts by 100 ms instead of an hour (TimeZones.ColonlessOffsetAsWritten). `getOffsetFor` and `getTransitionsInYear` do not read OFFSET and never throw. These three members model the evidently intended integer OFFSET, the negated parsed offset, so that the zone keeps the time its name says (TimeZones.ForAgreesWithName). TimeZones.For also models NAME as intended, makeOffsetString of the parsed offset. As written NAME is `offsetString` of the name string itself: "+aN:aN" for every name with a colon, and "+00:00" or "-00:00" for a colonless one (TimeZones.OffsetZoneNameAsWritten, TimeZones.OffsetZoneNameWithColon, TimeZones.OffsetZoneNameColonless). So `name` and `toString` of such a zone differ from the model's, and `TimeZone.for` of "+aN:aN" is an Intl lookup instead of the same zone (TimeZones.NaNNameLookup), where the model has TimeZones.ForOfName.
- TimeZones.BigIntOfString: covers only the strings OffsetZone passes to `BigInt`. The white space trimming and the 0x, 0o and 0b prefixes of `BigInt` are not modelled, since no such string arises there.
- lib/timezone.mjs and lib/absolute.mjs import names that the modules they name do not export, and each such import is a SyntaxError when the modules are linked: `isOffset`, `offsetString` and `assert` from lib/shared.mjs and `DateTime` from lib/datetime.mjs; the property keys `TZ`, `OF` and `DT` from lib/shared.mjs (lib/absolute.mjs:2, lib/timezone.mjs:6); `REGEX` from lib/shared.mjs (lib/absolute.mjs:4); and `cast` from lib/duration.mjs, which exports only `Duration` and `castDuration` (lib/absolute.mjs:7). The model takes these imports as resolved. It reads `isOffset` as the offset pattern of `parseOffsetString`, `offsetString` as `makeOffsetString`, `DateTime` as the nine-field record Shared.Fields, and `assert.type` as a type check. `TZ` is the `zone` field of Absolutes.Absolute, and `cast` is `castDuration` (Durations.CastDurationOf). `OF` and `DT` are caches the model does not keep: Absolutes.OffsetFor and Absolutes.DateTimeFor compute the offset and the date-time from the zone on every call, so the date-time and offset text that IanaZone's `getAbsoluteFor` stores in them are not modelled. `REGEX` serves only Absolute `fromString`, which is not modelled (see below).
- Paths that throw only because of missing imports or typos are modelled as that exception (YearMonths.Difference, YearMonths.ToString, YearMonths.With, YearMonths.Plus, CivilTimes.WithDate, CivilDates.FromDateTime, CivilDateTimes.ToCivilTime) or not at all:
  - `withOffset`, `getCivilYearMonth` and `getCivilMonthDay` of lib/datetime.mjs;
  - the calendar `with`, `plus` and `minus` of lib/absolute.mjs;
  - `fromUTC` and `withZone` of lib/instant.mjs;
  - `toWeekDateString` of lib/civil/date.mjs (CivilDates.ToWeekDateString, no contract);
  - `fromOrdinalDateString` of lib/civil/date.mjs (CivilDates.FromOrdinalDateString, no contract);
  - the `with`, `plus`, `minus`, `difference`, `withYear` and `toString` of lib/monthday.mjs, which no instance can reach because the constructor always throws.
- `getCivilDate`, `getCivilTime`, `getCivilYearMonth` and `getCivilMonthDay` of OffsetDateTime and ZonedDateTime, and `ZonedDateTime.with`, are not modelled.
- IanaZone's `getTimezoneName` is not modelled. Absolute `fromString` relies on a pattern of a newer lib/shared.mjs, which is not part of this model. `TimeZone.list` relies on a zone list that is not part of this model.
- `toJSON` everywhere is `toString` and is not modelled separately.
- The lib/civil modules and lib/instant.mjs import `DATA` from a lib/data.mjs that is not part of this model, and lib/civil/datetime.mjs imports a `Zoned` that lib/zoned.mjs does not export (it exports `ZonedDateTime`). The model takes these imports as resolved and models each method body. The civil types get their own DATA records, and the candidates of CivilDateTimes.WithZone are records with an offset string and offset seconds.
- Test expectations written for another snapshot are not encoded where the code contradicts them:
  - 2019-01-31 plus one month is 2019-03-03, not 2019-02-28;
  - trimmed fractions in `toString`;
  - ISO duration strings passed to `castDuration`;
  - the 1h53m time difference (see Findings);
  - `years: 0, months: 0` in the expected time differences, where `castDuration` without a base leaves those two fields undefined (None in the model);
  - instants of lib/instant.mjs passed to OffsetDateTime and ZonedDateTime, which read `.ms` and `.ns` (Offsets takes the instant data directly).

## Findings

| source | as written | input that shows it | evidently intended | confidence | as-written member | corrected member |
|---|---|---|---|---|---|---|
| lib/time.mjs:113-121 | `compare` returns two minus one, so `difference` sorts descending and its borrow loops subtract the later time from the earlier | 15:23:30.123456789 and 13:30:30.123456789 give 2h 7m | sort ascending: 1h 53m, the gap between the two times | high, not executed | Times.DifferenceAsWritten | Times.DifferenceIntendedSpec |
| lib/datetime.mjs:116 | the day cursor loop steps while `day >= daysInMonth`, so it moves past a month whose last day the earlier date-time is on | 1976-10-31T00:00 and 1976-11-01T00:00 are 0 days apart | `day > daysInMonth`: one day apart | high, not executed | DateTimes.CursorFinding | DateTimes.IntendedDay |
| lib/datetime.mjs:139-149 | the string filter compares `offsetString`, a property a ZonedDateTime does not have, and the symbol filters read EARLIER and LATER from the class, which sets them on the prototype | `withZone(zone, '+01:00')` with a candidate at offset '+01:00' throws | select the first candidate whose offset is the string, and the first or last candidate for EARLIER or LATER | high, not executed | DateTimes.SelectFinding | DateTimes.SelectIntendedByOffset |
| lib/offset.mjs:118 | `toString` prints the year with the unsigned `pad` | the OffsetDateTime at -001000-01-01T00:00+00:00 prints as 1000-01-01T00:00:00.000000000+00:00 | print the year with its sign, so that `fromString` reads it back | high, not executed | Offsets.ToStringDropsSign | Offsets.FromStringOfToStringIntended |
| lib/zoned.mjs:173 | the millisecond is `ms % 1e3`, negative before 1970 | in UTC, one millisecond before 1970 has offset -1000 ms, printed '-00:00' | a non-negative millisecond: offset 0 | high, not executed | Zoned.UtcBeforeEpoch | Zoned.FixedZoneOffsetIntended |
| lib/instant.mjs:12-27 | the constructor splits the nanoseconds with truncating BigInt division, and `toString` pads the remainder's absolute value | `new Instant(-1n)` and `new Instant(1n)` print the same text | a floored split, so the remainder is never negative and the text tells the two apart | high, not executed | Instants.ToStringLosesSign | Instants.NewIntended |
| lib/timezone.mjs:256 | `timeparts` takes the millisecond of a negative ms as `1000 + ms % 1000`, which is 1000 at a whole second | IanaZone's `getAbsoluteFor`, which reads wall clocks through `timeparts`, finds no instant for a zone of constant offset (a whole number of seconds) when every probe is a whole second before 1970, as the probes of any year before 1970 are | `((ms % 1000) + 1000) % 1000`: the zone's offset at every instant | high, not executed | TimeZones.FixedAbsoluteForBeforeEpoch | TimeZones.FixedAbsoluteForIntended |
| lib/timezone.mjs:64-124 | `OffsetZone.for` stores the name string as OFFSET, so `BigInt(this[OFFSET])` in `getDateTimeFor` throws a SyntaxError for a name with a colon, and `Date.UTC(...) + this[OFFSET]` in `getAbsoluteFor` throws one for a name with a sign or a colon | `TimeZone.for('+01:00').getDateTimeFor(instant)` throws | store as OFFSET the parsed offset negated, as a number of milliseconds, so that `ns - OFFSET * 1000000n` gives the wall clock the name says (NAME is the next row) | high, not executed | TimeZones.OffsetOfNameThrows | TimeZones.ForAgreesWithName |
| lib/timezone.mjs:120-121 | `OffsetZone.for` sets NAME to `offsetString` of the name string, whose comparison and `Math.abs` read the string as a number | `TimeZone.for('+01:00').name` is '+aN:aN', and `TimeZone.for('+aN:aN')` is an Intl lookup | NAME makeOffsetString of the parsed offset, '+01:00', which `TimeZone.for` turns back into the same zone | high, not executed | TimeZones.OffsetZoneNameWithColon | TimeZones.ForOfName |
| lib/civil/datetime.mjs:67-68 | `fromZonedDateTime` passes getInstantInfo's nanoseconds in the seventh constructor argument, the milliseconds | an instant 5 ns past a whole second yields a nanosecond field of 5000000 | pass them in the ninth argument, the nanoseconds | high, not executed | CivilDateTimes.FromInstantInfoScales | CivilDateTimes.FromInstantInfoIntended |
| lib/utils.mjs:33-36 | `getInstantInfo` takes the millisecond as `ms % 1000`, negative before 1970 | one millisecond before 1970 in '+00:00' gives offset seconds -1 and nanosecond -1000000 | a non-negative millisecond: offset seconds 0 and a nanosecond below one second | high, not executed | Utils.UtcInfoBeforeEpoch | Utils.FixedInfoIntended |
| lib/monthday.mjs:8 | the day's upper bound compares the month, not the day, with `daysInMonth(undefined, month)` | with `daysInMonth` imported, January 40 is accepted | compare the day with the month's length | high, not executed | MonthDays.ImportedAcceptsDay40 | MonthDays.NewIntended |
| lib/civil/shared.mjs:33 | the hour carries into the day only from 60, not from 24 | 23:00 plus one hour is hour 24 of the same day | carry from 24: 00:00 of the next day | high, not executed | CivilShared.PlusLateHourExample | CivilShared.PlusIntendedConserves |
| lib/civil/shared.mjs:38-42 | a day below 1 becomes `daysInMonth - day` of the previous month, counting forward instead of back | in a common year March 1 plus -2 days is March 1 again | `daysInMonth + day`: February 27 | high, not executed | CivilShared.PlusUnderflowExample | CivilShared.PlusIntendedConserves |
| lib/date.mjs:107 | `getDateInfo`'s upper bound compares `month`, not `day`, with `daysInMonth(year, month)`, so it never rejects a day | `new CivilDate(2019, 2, 31)` is accepted | compare the day: 2019-02-31 throws Error | high, not executed | Dates.GetDateInfoFebruary31 | Dates.GetDateInfoIntended |
| lib/civil/datetime.mjs:93-103 | `toWeekDateTimeString` adds one to the year of a January date in week 52 or 53 and subtracts one from that of a December date in week 1 | January 1, 2021, in week 52, prints with week year 2022 | subtract for January and add for December: week year 2020, the year of the week's Thursday | high, not executed | CivilDateTimes.WeekYearExample | CivilDateTimes.WeekYearIntendedIso |
| lib/utils.mjs:63 | the offset pattern `/([+-])(\d{1,2})(?::?(\d{2}))?/` is not anchored, so it also matches inside an IANA zone name | `createFormatter('Etc/GMT+5')` gives a fixed formatter 5 hours ahead of UTC, though the zone is 5 hours behind | anchor the pattern with `^` and `$`, so that such names go to Intl | medium, not executed | Utils.EtcZoneReadAsOffset | Utils.CreateFormatterIntended |
