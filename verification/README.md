# Verified model of four CPython library components

This project models the parts of CPython's pure-Python library whose code is intricate and whose specification is
simple, and proves that the two agree.

* **Big integers (`Lib/_pylong.py`).** `FastDivision` is the Burnikel-Ziegler recursion with its padding, saturated
  quotient and correction loop, the base-2**n digit splitter and joiner, and `int_divmod`. `PowerTable` is the worklist
  that predicts which powers a halving recursion will look up, over any associative multiplication. `DecimalStrings`
  converts between ints and decimal text by splitting digits. `ChoppedDecimals` and `DecimalReader` convert text to
  ints through base 256, where each division is a product with a truncated decimal reciprocal; Decimals are exact
  reals, and unary `+` under ROUND_DOWN is truncation to a number of significant digits. `Arithmetic`, `Bits`,
  `Numerals` and `IntPowers` hold what these share; `<<`, `>>`, `&`, `|` and `^` are defined bit by bit.
* **Calendar and time (`Lib/_pydatetime.py`).** `Calendar` has ordinals in both directions over all integers, `IsoWeeks`
  week dates, `TimeDeltas` the normal form of durations, `DateTimes` datetime arithmetic, `LocalTime` the solver for
  `t = local(u)` with `time.localtime` as a function parameter, `IsoFormat` the ISO 8601 printer and what
  each text means, `IsoParser` the parser as it runs, `IsoShapes` the printed texts character by character, and
  `IsoRoundTrip`, `IsoTimes` and `IsoForms` the results about every form of clock, zone and date.
* **Expression printer (`Lib/_ast_unparse.py`).** `Expressions` has trees and tokens, `Precedence` the printer's tables,
  `Printer` the tokens of a tree as a function, and `Parser` a reference parser by the rules of the grammar, which has
  none of the printer's tables. `PrintParse` proves that parsing undoes printing, and `OperatorTable` that both agree
  with the table of section 6.17 of The Python Language Reference. `Unparsing` is the visitor as it runs,
  appending to its output and recording a precedence for each node object; a node is found by its position in the tree,
  and a parameter gives the object at each position, so that one object may occur several times. `KeyedPrinter` says
  what it writes as a function, and `SharedNodes` when that is right.
* **Subclass caches (`Lib/_py_abc.py`).** `SubclassGraph` is the subclass relation without caches, `AbcCache` the class
  objects with their registries, two caches and version stamps, updated in place during the recursive search, and
  `AbcRuns` whole runs of creations, registrations and checks. Classes are numbered in the order of their creation.

## What the proofs found

* The comment at `Lib/_pylong.py:602-605` believes that three guard digits always make one correction enough. Two are
  enough, and one is not: `OneCorrectionIffTwoGuardDigits` proves both, the second with `n = 97189888`, `p = 65536`, and
  `NoFallbackIffTwoGuardDigits` the same for the whole conversion and its division fallback.
* The comment at `Lib/_pylong.py:200-206` sees no harm in a width estimate that is off. `IntToDecimalString` has the
  exact condition: the result is canonical unless the number is zero and the estimate exceeds one leaf.
* `_isoweek_to_gregorian` accepts 9999-W52-6 and 9999-W52-7, which are days of year 10000 (`AcceptedAndSupported`);
  the constructor that receives them refuses.
* `Doc/library/datetime.rst:1121` allows any character as separator. The parser recovers every datetime from its text in
  all six forms of the date and with any separator, but for a digit after `YYYY-Www-D`, which it takes for the start of
  the time (`FormsAreParsed`).
* Two characters of a clock may be one digit with a blank beside it or a sign before it, as `int()` allows
  (`PartValues`).
* The printer can lose the parentheses of a node object that is an operand of a comparison and occurs again below an
  earlier operand: `SharedOperandIsMisread` has a tree whose text parses to another tree, and `SharedAlikeIsRight` a
  condition under which sharing does no harm.
* With the time 24:00 the parser accepts day 0 of a month as its first day, and 0000-12-31 as 0001-01-01
  (`EndOfDayAccepted`).
* `_mktime` recovers times in every zone with at most `k` transitions if and only if `k` is at most one
  (`SolvesIffOneTransition`). With two an hour apart an existing solution is missed for both folds (`TwoTransitionsMiss`),
  and with an hour forward and back again a solution is returned that is not the earliest (`LaterSolutionReturned`).
  The number of transitions is what a caller can check; `SolvesIff` has the exact condition for any local-time function
  at all, in terms of every offset that shows the time. `MkTimeFindsSolution` is about returning some
  solution only, which may be the wrong one of several.

## Model

| member | source | states |
|---|---|---|
| FastDivision.Div2n1n | Lib/_pylong.py:422-449 | For every n-bit `b` and `a < 2**n * b`, padding included: exact quotient and remainder, remainder below `b`, quotient below `2**n`; the recursion ends although padding widens |
| FastDivision.DivideHalves | Lib/_pylong.py:437-449 | The two half steps on an even width give the exact quotient and remainder, so joining the halves with `\|` is addition |
| FastDivision.UnpadRemainder | Lib/_pylong.py:437-449 | The remainder of the doubled operands is even and halves to the true remainder |
| FastDivision.Div3n2n | Lib/_pylong.py:452-462 | Exact quotient and remainder of 3n bits by 2n bits, quotient below `2**n`, and the correction loop runs at most twice |
| FastDivision.EstimateBounds | Lib/_pylong.py:453-461 | The quotient estimated from the top halves, saturated or not, is never too small and at most two too large |
| FastDivision.Int2Digits | Lib/_pylong.py:465-493 | The array filled in place holds digits below `2**n`, no leading zero, with value `a` |
| FastDivision.FillDigits | Lib/_pylong.py:482-489 | One recursive call writes exactly its slice with the digits of `x`; the rest of the array is unchanged |
| FastDivision.DigitsUnique | Lib/_pylong.py:465-493 | A number has only one list of digits without a leading zero, so splitter and joiner are inverse both ways |
| FastDivision.Digits2Int | Lib/_pylong.py:496-508 | Joining by halves gives the value of the digits, least significant first |
| FastDivision.DivmodPos | Lib/_pylong.py:511-525 | School division in base `2**n` is exact with remainder below the divisor |
| FastDivision.IntDivmod | Lib/_pylong.py:528-541 | Floor quotient and remainder for all integers, through `~a` and `-b`; division by zero is reported |
| Arithmetic.FloorDivUnique | Lib/_pylong.py:528-541 | Floor division is the only quotient whose remainder has the divisor's sign |
| Bits.OrIsSum | Lib/_pylong.py:448-449 | `hi << k \| lo` is addition when `lo` fits in `k` bits |
| Bits.SplitLow | Lib/_pylong.py:440-445 | A shift and a mask split a number without loss |
| Bits.XorClearsHigh | Lib/_pylong.py:485-487 | `x ^ (upper << shift)` is what the shift removed |
| PowerTable.FindNeeded | Lib/_pylong.py:57-73 | The worklist ends with exactly the exponents that the halving recursion asks for, for both split directions |
| PowerTable.FindExtra | Lib/_pylong.py:75-100 | Every exponent whose half exceeds the limit has its predecessor or its half in the enlarged set; closed sets get nothing extra |
| PowerTable.NextPower | Lib/_pylong.py:104-123 | One power from the table by one multiplication, or a square and at most one more, which the count of products records; the general power exactly when neither smaller one is there |
| PowerTable.ComputePowers | Lib/_pylong.py:57-131 | The keys are exactly the needed exponents, the values the powers, nothing extra without `need_hi`, and the general power only for exponents whose half is within the limit |
| PowerTable.NeededStep | Lib/_pylong.py:706-722 | The consumer never misses: its own exponent and those of both halves are in the table |
| PowerTable.WidthsLeast | Lib/_pylong.py:60-73 | Any set of widths closed under halving that holds the first holds them all |
| DecimalStrings.IntToDecimal | Lib/_pylong.py:139-176 | Rebuilding an int from its bits in Decimal arithmetic is exact, for both signs |
| DecimalStrings.Render | Lib/_pylong.py:193-199 | For any width estimate the digits have the value `n`, and fit the estimate when `n` does |
| DecimalStrings.IntToDecimalString | Lib/_pylong.py:178-221 | Canonical numeral if and only if `n` is not zero or the estimate fits one leaf, for estimates too small or too large |
| DecimalStrings.Combine | Lib/_pylong.py:236-244 | The recursion over a slice of digits gives its value |
| DecimalStrings.StrToInt | Lib/_pylong.py:223-247 | The value of every digit string; the empty string is refused |
| DecimalStrings.PrintThenRead | Lib/_pylong.py:192-247 | Printing and reading back gives the absolute value, whatever the estimate and the leaf sizes |
| DecimalStrings.ReadThenPrint | Lib/_pylong.py:223-247 | Reading and printing gives the same text if and only if it has no leading zeros |
| Numerals.StrIntShape | Lib/_pylong.py:210-221 | A negative number is a minus sign and the canonical numeral of its size, any other its numeral alone |
| Numerals.CanonicalUnique | Lib/_pylong.py:216-221 | A number has only one canonical numeral |
| ChoppedDecimals.ChopIsGreatest | Lib/_pylong.py:303-308 | Unary `+` under ROUND_DOWN gives the greatest Decimal of at most that many digits that is not above its operand |
| ChoppedDecimals.PrecisionFitsQuotient | Lib/_pylong.py:303-307 | The working precision is the guard digits and, give or take one, the quotient's digits after its first |
| ChoppedDecimals.StoredDigitsSuffice | Lib/_pylong.py:662-691 | The precision of the stored reciprocal is at least what any dividend below `p256**2` asks for |
| ChoppedDecimals.ProductError | Lib/_pylong.py:607-629 | All four truncations together lose at most `4 * 10**(1 - GUARD)` of the quotient, and never overshoot |
| ChoppedDecimals.GuessBounds | Lib/_pylong.py:303-311 | The guess never exceeds `n // p256`, and with two guard digits or more is at most one below |
| ChoppedDecimals.OneGuardDigitIsTooFew | Lib/_pylong.py:594-605 | A dividend and divisor for which one guard digit leaves the guess two too small |
| ChoppedDecimals.OneCorrectionIffTwoGuardDigits | Lib/_pylong.py:594-605 | One correction is always enough if and only if there are at least two guard digits |
| DecimalReader.Reader.BuildTable | Lib/_pylong.py:364-385 | The table has exactly the needed powers of 256, each with its reciprocal truncated to the stored precision |
| DecimalReader.Reader.GuessQuotient | Lib/_pylong.py:299-311 | The guess leaves a remainder that is not negative, and below twice the divisor with two guard digits or more |
| DecimalReader.Reader.Divide | Lib/_pylong.py:299-332 | Guess and corrections give exact floor division for every `GUARD > 0`; the division fallback is used exactly when the guess is two or more too small |
| DecimalReader.Reader.Inner | Lib/_pylong.py:283-338 | Appends exactly the `w` big-endian bytes of `n`, restores the working precision, and uses the fallback exactly as often as a count without code says |
| DecimalReader.FallbackReached | Lib/_pylong.py:318-326 | A number for which the conversion with one guard digit reaches the division fallback |
| DecimalReader.NoFallbackIffTwoGuardDigits | Lib/_pylong.py:594-605 | No conversion reaches the fallback if and only if there are at least two guard digits |
| DecimalReader.ToBytesSplit | Lib/_pylong.py:286-338 | Dividing by a power of 256 splits the bytes |
| DecimalReader.DecStrToInt | Lib/_pylong.py:271-387 | The value of the digit string for every width that is large enough, for every `GUARD > 0`; widths of 46 bits are refused |
| Calendar.MonthEstimateBounds | Lib/_pydatetime.py:140-147 | The shift estimate of the month is a month, exact or one too large |
| Calendar.CycleCounts | Lib/_pydatetime.py:115-137 | Every cycle count is in range, and a fourth 100-year or 1-year cycle leaves no day over, as the assert in between needs |
| Calendar.YearOfCycles | Lib/_pydatetime.py:47-75 | Days before a year and its leapness in terms of whole cycles |
| Calendar.MonthsByRule | Lib/_pydatetime.py:38-45 | The tables without the tables: from March on, `(153 * (m - 3) + 2) / 5` days after the end of February, and a month ends where the next begins |
| Calendar.MonthLengths | Lib/_pydatetime.py:56-61 | The length of every month in every year |
| Calendar.LeapRule | Lib/_pydatetime.py:47-49 | Every fourth year is a leap year, but of the hundredth years only every fourth |
| Calendar.KnownOrdinals | Lib/_pydatetime.py:24-32 | The ordinals of 0001-01-01, of the POSIX epoch and of 9999-12-31 |
| Calendar.OrdinalRoundTrip | Lib/_pydatetime.py:93-153 | Every integer, negative ones too, is the ordinal of the date it is converted to, which exists |
| Calendar.OrdinalsKeepOrder | Lib/_pydatetime.py:68-75 | Ordinals are ordered exactly as dates |
| Calendar.DateRoundTrip | Lib/_pydatetime.py:68-153 | Every date in every year is recovered from its ordinal |
| IsoWeeks.WeeksInYear | Lib/_pydatetime.py:516-529 | A year has 53 weeks exactly when week 53 is accepted for it, else 52 |
| IsoWeeks.IsoCalendarIsValid | Lib/_pydatetime.py:1260-1286 | The week date of a date is valid and stands for the same day |
| IsoWeeks.IsoCalendarIsByThursday | Lib/_pydatetime.py:1263-1265 | It is the one of the standard's definition: the year of the week's Thursday |
| IsoWeeks.IsoDateUnique | Lib/_pydatetime.py:512-541 | A day has only one valid week date |
| IsoWeeks.DateThroughIso | Lib/_pydatetime.py:512-541 | Every supported date is recovered from its week date |
| IsoWeeks.IsoThroughDate | Lib/_pydatetime.py:512-541 | Every accepted week date is recovered from its date |
| IsoWeeks.AcceptedAndSupported | Lib/_pydatetime.py:512-541 | Accepted week dates are supported dates, but for the last two days of 9999-W52 |
| LocalTime.MkTimeSolves | Lib/_pydatetime.py:2019-2051 | With one transition nearby, for offsets of any bound: the earliest solution of all for fold 0 and the latest for fold 1; in a gap the candidate of the earlier or the later offset |
| LocalTime.OneChangeSolves | Lib/_pydatetime.py:2019-2051 | The same for one change in all of history by at most 24 hours, with no bound on the offsets |
| LocalTime.TimestampRoundTrip | Lib/_pydatetime.py:1874-1894 | The local time of a timestamp, with the fold recorded on the way, is converted back to the timestamp |
| LocalTime.FoldIsRepetition | Lib/_pydatetime.py:1887-1894 | The fold is recorded exactly when the clock has shown the same reading before |
| LocalTime.SolvesIffOneTransition | Lib/_pydatetime.py:2028-2051 | Every time is recovered in every zone with at most `k` transitions if and only if `k` is at most one |
| LocalTime.TwoTransitionsMiss | Lib/_pydatetime.py:2028-2051 | A zone with two transitions an hour apart for which an existing solution is missed, for either fold |
| LocalTime.LaterSolutionReturned | Lib/_pydatetime.py:2033-2039 | A zone for which a solution is returned for fold 0 that is not the earliest |
| LocalTime.SolvesIff | Lib/_pydatetime.py:2028-2051 | For any local-time function: right if and only if no third offset that shows `t` beats the two looked at, and the second of these lies on the side the fold asks for |
| LocalTime.MkTimeFindsSolution | Lib/_pydatetime.py:2028-2051 | For any local-time function: some solution, not always the one asked for, is returned if and only if the offset seen at the first guess leads to one |
| TimeDeltas.MakeRepresents | Lib/_pydatetime.py:647-758 | For integer arguments the constructor gives the normal form of the total microseconds, or overflows when there is none |
| TimeDeltas.RepresentsUnique | Lib/_pydatetime.py:747-752 | That normal form is unique |
| TimeDeltas.ArithmeticIsExact | Lib/_pydatetime.py:807-854 | Sum, difference, negation, absolute value and integer multiple are those of the microseconds, overflow included |
| TimeDeltas.DivisionsAreExact | Lib/_pydatetime.py:867-883 | Division by an integer is that of the microseconds, floored or to the nearest |
| TimeDeltas.RatiosAreNearest | Lib/_pydatetime.py:855-886 | Multiplying or dividing by a float, which is a fraction, gives the nearest number of microseconds, the even one of two |
| TimeDeltas.CompareIsDuration | Lib/_pydatetime.py:933-935 | The sign of a comparison is that of the difference in microseconds, and only equal durations compare as equal |
| TimeDeltas.DurationLimits | Lib/_pydatetime.py:955-957 | The least and the greatest duration, and the day counts from which the constructor overflows |
| TimeDeltas.DivModIsFloor | Lib/_pydatetime.py:867-899 | `//`, `%` and `divmod` by a duration agree and recombine; the remainder is normal, has the divisor's sign, and never overflows |
| TimeDeltas.DivideAndRoundIsNearest | Lib/_pydatetime.py:605-622 | A number is the result if and only if it is nearest to `a / b`, or the even one of two, for both divisor signs |
| DateTimes.PlusIsExact | Lib/_pydatetime.py:2330-2347 | Adding a duration moves the instant by exactly it, and overflows exactly when no supported datetime is there |
| DateTimes.MinusIsExact | Lib/_pydatetime.py:2358-2366 | A difference of datetimes is the difference of instants and never overflows |
| DateTimes.MinusDeltaIsExact | Lib/_pydatetime.py:2353-2355 | Subtracting a duration through its negation is exact, also when the negation overflows |
| DateTimes.MinusByZones | Lib/_pydatetime.py:2358-2373 | Two naive datetimes, or two with one offset, differ as on the clock; a naive and an aware one are a TypeError |
| DateTimes.AwareMinusIsExact | Lib/_pydatetime.py:2367-2373 | With fixed offsets the difference is that of the UTC instants |
| DateTimes.PlusAwareIsExact | Lib/_pydatetime.py:2330-2347 | Adding a duration keeps the zone, naive ones too, and overflows exactly when no supported datetime is there |
| DateTimes.AwarePlusMovesDifference | Lib/_pydatetime.py:2330-2373 | Adding a duration keeps the zone and moves the difference to any datetime in any other zone by exactly that duration |
| DateTimes.InstantUnique | Lib/_pydatetime.py:2330-2373 | Different datetimes are at different instants |
| DateTimes.PlusThenMinus | Lib/_pydatetime.py:2330-2366 | `(t + d) - t == d` |
| DateTimes.MinusThenPlus | Lib/_pydatetime.py:2330-2366 | `u + (t - u) == t` |
| DateTimes.PlusAssociates | Lib/_pydatetime.py:2330-2347 | `(t + a) + b == t + (a + b)`, overflows included, once `t + a` is in range |
| IsoFormat.SplitOffset | Lib/_pydatetime.py:187-203 | An offset splits into hours, minutes and a rest that recombine to its size |
| IsoParser.ParseFraction | Lib/_pydatetime.py:424-441 | Accepted if and only if nothing follows, or a separator and one digit or more and nothing else; the value is the fraction in microseconds, truncated: up to six digits scaled, of more the first six |
| IsoParser.ParseHhMmSsFf | Lib/_pydatetime.py:398-443 | The loop that fills the components accepts exactly HH, HHMM, HH:MM, HHMMSS and HH:MM:SS, the last two with or without a fraction, and reads each as its fields |
| IsoParser.ParseIsoformatTime | Lib/_pydatetime.py:445-509 | Every such clock with no zone, `Z`, or a signed offset in the same forms is read as its fields and offset, 24:00 as the next midnight, and a zone out of range as the deferred error; a printed time gives its fields and offset back, and an accepted offset is within 24 hours |
| IsoParser.FindSeparator | Lib/_pydatetime.py:301-355 | In all six forms the end of the date is found, whether it ends the text or a separator and a time follow; only a digit after `YYYY-Www-D` hides its day |
| IsoParser.FromIsoformat | Lib/_pydatetime.py:1954-2004 | Any form of date, separator, clock and zone has its meaning, refusals included, but for a digit after `YYYY-Www-D`, where nothing printed is recovered; a date alone is midnight; whatever is accepted is supported, and its printed form is accepted as the same; whatever is not is a ValueError |
| IsoShapes.DateTextShape | Lib/_pydatetime.py:1129-1138 | The ten characters of a printed date |
| IsoShapes.ClockTextShape | Lib/_pydatetime.py:166-185 | The characters of a printed clock, and the fraction exactly when there are microseconds |
| IsoShapes.FormatOffsetShape | Lib/_pydatetime.py:187-203 | The characters of a printed offset: its sign, and seconds and fraction exactly when they are not zero |
| IsoTimes.PartValues | Lib/_pydatetime.py:407-408 | Which two characters are a field of a clock, and with what value |
| IsoTimes.AcceptedTimes | Lib/_pydatetime.py:398-443 | The clocks that are accepted are exactly the forms |
| IsoTimes.ClockFormIsRead | Lib/_pydatetime.py:398-443 | Each form is read as its fields, with the fraction truncated to microseconds |
| IsoTimes.TimeFormIsRead | Lib/_pydatetime.py:445-509 | Each clock of digits with each zone is read as its fields and offset |
| IsoTimes.MalformedZone | Lib/_pydatetime.py:468-487 | Nothing, one character or three after a sign, and anything after `Z`, are refused |
| IsoRoundTrip.ReadClockText | Lib/_pydatetime.py:398-443 | The fields of a printed clock are read back |
| IsoRoundTrip.ReadOffset | Lib/_pydatetime.py:468-505 | Every offset within 24 hours, seconds and microseconds included, is found and read back |
| IsoRoundTrip.ParseUndoesPrint | Lib/_pydatetime.py:2164-2189 | Parsing the default form, with any separator, gives the datetime and its offset back, naive or with any fixed offset |
| IsoForms.FormIsFound | Lib/_pydatetime.py:301-392 | In each of the six forms the date is found and read, a week without a day as its Monday, whatever clock follows, with the one exception |
| IsoForms.DateFormIsParsed | Lib/_pydatetime.py:358-392 | A supported date alone, in each of the six forms, is parsed as midnight of that date |
| IsoForms.DateAccepted | Lib/_pydatetime.py:358-392 | Of `YYYY-MM-DD` and `YYYYMMDD` exactly the supported dates are accepted |
| IsoForms.WeekAccepted | Lib/_pydatetime.py:358-392 | Of `YYYY-Www-D` and `YYYYWwwD` exactly the standard's week dates are accepted, and stand for that week date, but for the two days in year 10000 |
| IsoForms.TextIsRead | Lib/_pydatetime.py:1954-2004 | A text in any form of date, clock and zone, with any separator, has its meaning: the datetime and offset, the next midnight for 24:00, or the error when a field is out of range; with the one exception |
| IsoForms.FormsAreParsed | Lib/_pydatetime.py:1954-2004 | Every datetime and offset is recovered from every form with every separator, if and only if it is not a digit after `YYYY-Www-D` |
| IsoForms.NextDayIsNext | Lib/_pydatetime.py:1988-1999 | The wrapped date is the one with the next ordinal |
| IsoForms.EndOfDayIsNextMidnight | Lib/_pydatetime.py:1988-2004 | 24:00 on a supported date is midnight of the next day, and refused on the last |
| IsoForms.EndOfDayAccepted | Lib/_pydatetime.py:1988-2004 | Exactly which dates are accepted with 24:00, two kinds that do not exist among them |
| IsoForms.PrintedFormIsEquivalent | Lib/_pydatetime.py:1954-2004 | Every accepted text stands for a supported datetime and offset, and its default form parses to the same |
| IsoForms.RefusedTexts | Lib/_pydatetime.py:1954-2004 | Any text that is not accepted is a ValueError, and so is every text of fewer than seven characters |
| PrintParse.PrintParses | Lib/_ast_unparse.py:147-156 | Printed at a precedence and followed by any text that cannot continue it, an expression is parsed at that level, leaving the text |
| PrintParse.BodyStarts | Lib/_ast_unparse.py:814-965 | A printed expression starts with a token that its level allows |
| PrintParse.BoolParses | Lib/_ast_unparse.py:905-920 | The rising levels of `and` and `or` keep nested operators of the same kind apart |
| PrintParse.CompareParses | Lib/_ast_unparse.py:897-903 | A comparison chain of any length is parsed back as one chain |
| PrintParse.IfExpParses | Lib/_ast_unparse.py:765-773 | A conditional is parsed back, with nested ones in parentheses only where needed |
| PrintParse.PrintParsesBack | Lib/_ast_unparse.py:189-194 | The printed text parses back to exactly the tree if and only if the tree is one that parsing can produce |
| PrintParse.ReprintedIsEquivalent | Lib/_ast_unparse.py:189-194 | Whatever parses is equivalent to the printed form of its tree |
| OperatorTable.TwoOperators | Doc/reference/expressions.rst:2751-2767 | Any two binary operators are read and written grouped by their rows in the table, equal rows to the left and `**` to the right; the other grouping is written with one pair of parentheses |
| OperatorTable.SignAndOperator | Doc/reference/expressions.rst:2751-2767 | A sign or `~` binds less than `**` and more than any other binary operator |
| OperatorTable.AwaitAndOperator | Doc/reference/expressions.rst:2749-2767 | `await` binds more than any binary operator |
| OperatorTable.AroundComparison | Doc/reference/expressions.rst:2751-2773 | Comparisons bind less than any binary operator and more than `not` |
| OperatorTable.Connectives | Doc/reference/expressions.rst:2773-2779 | `not`, `and`, `or` and the conditional bind in that order |
| OperatorTable.WordComparisons | Grammar/python.gram:819-822 | `is`, `is not`, `in` and `not in` are read and written as four comparisons |
| OperatorTable.Primaries | Grammar/python.gram:879-892 | Attributes, calls and subscripts bind more than `await` |
| OperatorTable.RisingOperands | Lib/_ast_unparse.py:905-920 | The second operand of `and` is in parentheses when it is a `not`, the third when it is a comparison |
| OperatorTable.LooseOperands | Lib/_ast_unparse.py:933-965 | A conditional is bare as an argument, a subscript or after `else`, and an arithmetic operand bare after a comparison |
| Parser.Parse | Grammar/python.gram:722-920 | The reference parser, by level: it consumes text and yields only trees with two operands or more per boolean operator |
| Unparsing.Unparser.Traverse | Lib/_ast_unparse.py:147-156 | Writes, and records, what the keyed printer says for the precedence last asked for the object, for any sharing of objects |
| Unparsing.Unparser.VisitBinOp | Lib/_ast_unparse.py:866-882 | Each operand is asked for the level of left- or right-associativity just before its visit |
| Unparsing.Unparser.VisitBoolOp | Lib/_ast_unparse.py:905-920 | Each operand is asked for one level more than the one before, just before its visit |
| Unparsing.Unparser.VisitCompare | Lib/_ast_unparse.py:897-903 | All operands are asked for one level before any is visited |
| Unparsing.Unparser.VisitIfExp | Lib/_ast_unparse.py:765-773 | Body and test are asked for one level more before either is visited, the alternative just before its visit |
| Unparsing.Unparser.VisitCall | Lib/_ast_unparse.py:933-949 | Nothing is asked of the arguments |
| Unparsing.Unparse | Lib/_ast_unparse.py:189-194 | A new printer writes text that parses back to the tree if and only if the tree is well formed, when nothing is shared and when objects at late positions are shared alike |
| SharedNodes.KeyedIsPrint | Lib/_ast_unparse.py:147-156 | With the record right for late positions a node is printed as its parent asked, and the record stays right |
| SharedNodes.PromptIsPrint | Lib/_ast_unparse.py:866-882 | A child asked just before its visit is printed right, however its object is shared |
| SharedNodes.SharedAlikeIsRight | Lib/_ast_unparse.py:189-194 | A tree is printed as if nothing were shared when each object at a late position needs parentheses at all its positions or at none |
| SharedNodes.OwnObjects | Lib/_ast_unparse.py:147-156 | Every tree can be made of objects none of which is shared |
| SharedNodes.SharedOperandIsMisread | Lib/_ast_unparse.py:897-903 | A well-formed tree with a shared operand whose text parses to another tree |
| SubclassGraph.IsSubUnfolds | Lib/_py_abc.py:131-147 | The cache-free relation is the one the recursive search describes |
| SubclassGraph.DescendantsShrink | Lib/_py_abc.py:135-144 | Every link leads to fewer descendants, so every search ends |
| SubclassGraph.RegisteredIsAcyclic | Lib/_py_abc.py:61-68 | Refusing a class that `cls` is already a subclass of keeps the links free of cycles |
| SubclassGraph.RegisteredRelation | Lib/_py_abc.py:68-69 | The exact pairs that a registration adds to the relation |
| SubclassGraph.RegisteredBelowBases | Lib/_py_abc.py:68-69 | What is registered with a class is below every abstract class that this one derives from |
| SubclassGraph.CreatedIsAcyclic | Lib/_py_abc.py:35-52 | A new class makes no cycle |
| SubclassGraph.CreatedInherits | Lib/_py_abc.py:35-52 | What derives from an abstract class is abstract and is found from it along subclasses, after a creation too |
| SubclassGraph.OldAnswers | Lib/_py_abc.py:35-52 | Creating a class changes no answer about existing ones, so the counter need not move |
| SubclassGraph.NewClassRelation | Lib/_py_abc.py:35-52 | A new class is a subclass of itself and of exactly what its bases are subclasses of |
| AbcCache.Classes.CheckClass | Lib/_py_abc.py:112-147 | The cached, recursive check answers as the cache-free relation, keeps every cache of every class true, records the answer, and forgets only negative answers that are out of date |
| AbcCache.Classes.SearchBelow | Lib/_py_abc.py:134-144 | The loop finds whether some class below has `sub` as a subclass, whatever order it takes, and a success is in the cache of `cls` |
| AbcCache.Classes.Invalidate | Lib/_py_abc.py:115-119 | The negative cache of one class is emptied and dated, and no cache of another class moves |
| AbcCache.Classes.SubclassCheck | Lib/_py_abc.py:108-147 | The same for any argument; what is not a class is a TypeError |
| AbcCache.Classes.InstanceCheck | Lib/_py_abc.py:92-106 | True exactly when `__class__` or the type is a subclass, from the caches or not |
| AbcCache.Classes.IsSubclass | Objects/abstract.c:2732-2788 | `issubclass` with its dispatch for classes that are not abstract |
| AbcCache.Classes.IsInstance | Objects/abstract.c:2639-2700 | `isinstance` with its exact-match shortcut and dispatch |
| AbcCache.Classes.Register | Lib/_py_abc.py:54-70 | The class returned is a subclass of `cls` from then on; a cycle, and only that, is a RuntimeError and changes nothing; the counter moves exactly for a new link, and nothing up to date is forgotten |
| AbcCache.RegisterEffect | Lib/_py_abc.py:54-70 | A registration that is not refused takes effect; the exact pairs it adds, and the exact conditions of both errors |
| AbcCache.Classes.AddToRegistry | Lib/_py_abc.py:68-69 | After a new link every positive entry is still true and every negative one is out of date, though no cache was touched |
| AbcCache.Classes.Create | Lib/_py_abc.py:35-52 | A new class with empty caches; every existing cache, negative ones included, stays true |
| AbcCache.CachesStayTrue | Lib/_py_abc.py:35-52 | The same for one class's caches |
| AbcRuns.StepKeeps | Lib/_py_abc.py:35-70 | No operation makes a cycle, takes a subclass away or cuts an abstract class off from what derives from it |
| AbcRuns.RunKeeps | Lib/_py_abc.py:61-70 | In every run the links stay free of cycles, and an answer once positive is so ever after |
| AbcRuns.ReachableGraph | Lib/_py_abc.py:35-70 | Every run from the start keeps the links free of cycles and every abstract class connected to what derives from it |
| AbcRuns.RegistrationHolds | Lib/_py_abc.py:54-70 | After a registration that returns the class, `issubclass` is True ever after, for every abstract class that `cls` derives from |
| AbcRuns.NewClassCanRegister | Lib/_py_abc.py:35-54 | A class has `register` exactly when it was made abstract or one of its bases has it |
| AbcRuns.NewClassAnswers | Lib/_py_abc.py:35-52 | What `issubclass` answers about a class just created |
| AbcRuns.NegativeUntilRegistration | Lib/_py_abc.py:120-127 | Until something is registered, an answer once negative stays so, whatever classes are created |
| AbcRuns.Perform | Lib/_py_abc.py:35-147 | Each operation on the objects answers, and changes the links, as without caches |
| AbcRuns.Run | Lib/_py_abc.py:35-147 | Every answer in every run is that of the relation that remembers nothing |

## Left out

- DecStrToInt: the float estimate of the width (`Lib/_pylong.py:340-356`) is a parameter, required to be large enough; whether `_LOG_10_BASE_256` always makes it so is a question about floating point.
- IntToDecimalString: the float estimate of the number of digits (`Lib/_pylong.py:200-207`) is an arbitrary parameter, and the leaf sizes are positive parameters.
- BuildTable: Decimal contexts, traps and exponents are not modelled beyond the precision; a Decimal is a real number.
- IntToDecimal: Decimal addition and multiplication are exact, as they are in the unbounded context.
- StrToInt: the leaves are ASCII digits; underscores and other digits of `int()` are handled before this function is called.
- MkTimeSolves: range errors of `time.localtime` are not modelled.
- TimestampRoundTrip: fractional seconds, the clamping of leap seconds and the omission of the fold probe on Windows for timestamps below 24 hours (`Lib/_pydatetime.py:1884-1885`) are not modelled.
- MakeRepresents: float arguments of `timedelta` are not modelled.
- RatiosAreNearest: infinities and NaN, which are no fractions, are not modelled.
- DivisionsAreExact: the float quotient of two durations (`Lib/_pydatetime.py:880-881`) is not modelled.
- PlusIsExact: `fold` and user-defined time zones are not modelled; the zone is carried along in `PlusAware`.
- FromIsoformat: `int()` of non-ASCII digits and whitespace, and surrogate handling, are not modelled.
- ParseUndoesPrint: `fold` and other `timespec` values are not modelled.
- Unparse: text is a list of tokens, so spacing, string quoting, `repr` of constants and the space after an integer literal before a dot are not modelled; a constant is one token.
- SharedAlikeIsRight: sufficient, not necessary; an object that is asked again before its visit, or that gains parentheses it does not need, does no harm either.
- Parse: of the cited rules, lambda, named expressions, tuples, starred and keyword arguments are not modelled.
- VisitCall: keyword and starred arguments are not modelled.
- Statements, lambda, named expressions, tuples and other displays, starred and keyword arguments, comprehensions, f-strings and yield of the expression printer.
- CheckClass: subclass hooks return NotImplemented, bases do not change, and no class is collected while in use (weak references).
- SubclassCheck: the same holds of the check behind it.
- IsSubclass: tuples and unions as second argument, which the caller goes through one by one, are not modelled.
- IsInstance: tuples and unions as second argument are not modelled.
- Create: the MRO is a set, so its order and a failing linearization are not modelled; nor is the set of abstract methods (`Lib/_py_abc.py:38-46`).
- The debug helpers `_dump_registry`, `_abc_registry_clear` and `_abc_caches_clear` of `Lib/_py_abc.py`.
- `strftime`, `strptime`, `now`, pickling, hashing and time-zone names of `Lib/_pydatetime.py`, and `int_from_string`'s clean-up of its argument in `Lib/_pylong.py`.
