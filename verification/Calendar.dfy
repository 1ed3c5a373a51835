/** The proleptic Gregorian calendar: ordinals in both directions, over all integers. */
module Calendar {

  const DI400Y := 146097
  const DI100Y := 36524
  const DI4Y := 1461

  predicate IsLeap(year: int)
  {
    year % 4 == 0 && (year % 100 != 0 || year % 400 == 0)
  }

  function DaysBeforeYear(year: int): int
  {
    var y := year - 1;
    y * 365 + y / 4 - y / 100 + y / 400
  }

  function DaysInMonthTable(month: int): int
    requires 1 <= month <= 12
  {
    [31, 28, 31, 30, 31, 30, 31, 31, 30, 31, 30, 31][month - 1]
  }

  function DaysBeforeMonthTable(month: int): int
    requires 1 <= month <= 12
  {
    [0, 31, 59, 90, 120, 151, 181, 212, 243, 273, 304, 334][month - 1]
  }

  function MonthLength(month: int, leap: bool): int
    requires 1 <= month <= 12
  {
    if month == 2 && leap then 29 else DaysInMonthTable(month)
  }

  /** The days of a year before a month. */
  function Preceding(month: int, leap: bool): int
    requires 1 <= month <= 12
  {
    DaysBeforeMonthTable(month) + if month > 2 && leap then 1 else 0
  }

  function DaysInMonth(year: int, month: int): int
    requires 1 <= month <= 12
  {
    MonthLength(month, IsLeap(year))
  }

  function DaysBeforeMonth(year: int, month: int): int
    requires 1 <= month <= 12
  {
    Preceding(month, IsLeap(year))
  }

  datatype Ymd = Ymd(year: int, month: int, day: int)

  predicate IsYmd(d: Ymd)
  {
    1 <= d.month <= 12 && 1 <= d.day <= DaysInMonth(d.year, d.month)
  }

  function Ymd2Ord(d: Ymd): int
    requires IsYmd(d)
  {
    DaysBeforeYear(d.year) + DaysBeforeMonth(d.year, d.month) + d.day
  }

  /** The first guess of the month that day `n` of a year (from 0) falls in. */
  function MonthEstimate(n: int): int
  {
    (n + 50) / 32
  }

  /** The rule behind the tables: from March on, five months at a time have 153 days. */
  lemma MonthsByRule(year: int, m: int)
    requires 1 <= m <= 12
    ensures 3 <= m ==> DaysBeforeMonth(year, m) == (if IsLeap(year) then 60 else 59) + (153 * (m - 3) + 2) / 5
    ensures m < 3 ==> DaysBeforeMonth(year, m) == 31 * (m - 1)
    ensures m < 12 ==> DaysInMonth(year, m) == DaysBeforeMonth(year, m + 1) - DaysBeforeMonth(year, m)
    ensures m == 12 ==> DaysInMonth(year, m) == 31
  {
  }

  /** Thirty days hath September, April, June and November. */
  lemma MonthLengths(year: int, m: int)
    requires 1 <= m <= 12
    ensures DaysInMonth(year, m) ==
            if m in {4, 6, 9, 11} then 30 else if m != 2 then 31 else if IsLeap(year) then 29 else 28
  {
    hide IsLeap;
  }

  /** Every fourth year is a leap year, but of the hundredth years only every fourth. */
  lemma LeapRule(year: int)
    ensures year % 100 != 0 ==> (IsLeap(year) <==> year % 4 == 0)
    ensures year % 100 == 0 ==> (IsLeap(year) <==> year / 100 % 4 == 0)
  {
    if year % 100 == 0 {
      var c := year / 100;
      assert year == 100 * c;
      HundredthYear(c);
    }
  }

  lemma HundredthYear(c: int)
    ensures 100 * c % 4 == 0 && (100 * c % 400 == 0 <==> c % 4 == 0)
  {
    var q, r := c / 4, c % 4;
    assert 100 * c == 400 * q + 100 * r && 100 * c == 4 * (25 * c);
  }

  /** The table rows add up, and 32 days a month, less a few at the start, stay within one row of them. */
  lemma TableRows(m: int)
    requires 1 <= m <= 12
    ensures DaysBeforeMonthTable(1) == 0
    ensures DaysBeforeMonthTable(m) + DaysInMonthTable(m) == if m < 12 then DaysBeforeMonthTable(m + 1) else 365
    ensures 2 <= m ==> DaysBeforeMonthTable(m - 1) < 32 * m - 50
    ensures m < 12 ==> 32 * m - 19 < DaysBeforeMonthTable(m) + DaysInMonthTable(m)
    ensures (m == 2) == (DaysInMonthTable(m) == 28)
  {
  }

  /** The estimate is a month, and it is exact or one too large. */
  lemma MonthEstimateBounds(n: int, leap: bool)
    requires 0 <= n < if leap then 366 else 365
    ensures var m := MonthEstimate(n);
      && 1 <= m <= 12
      && (Preceding(m, leap) > n ==>
            2 <= m && Preceding(m, leap) - MonthLength(m - 1, leap) == Preceding(m - 1, leap) <= n)
      && (Preceding(m, leap) <= n ==> n < Preceding(m, leap) + MonthLength(m, leap))
  {
    hide DaysBeforeMonthTable, DaysInMonthTable;
    var m := MonthEstimate(n);
    TableRows(m);
    if 2 <= m {
      TableRows(m - 1);
    }
  }

  /** Day `n` of a year (from 0) as a date: the estimated month, or the one before it. */
  function DateInYear(year: int, n: int, leap: bool): Ymd
    requires 0 <= n < if leap then 366 else 365
  {
    var month := MonthEstimate(n);
    MonthEstimateBounds(n, leap);
    var preceding := Preceding(month, leap);
    if preceding > n then
      Ymd(year, month - 1, n - (preceding - MonthLength(month - 1, leap)) + 1)
    else
      Ymd(year, month, n - preceding + 1)
  }

  lemma DateInYearIsRight(year: int, n: int)
    requires 0 <= n < if IsLeap(year) then 366 else 365
    ensures var d := DateInYear(year, n, IsLeap(year)); IsYmd(d) && Ymd2Ord(d) == DaysBeforeYear(year) + n + 1
  {
    MonthEstimateBounds(n, IsLeap(year));
  }

  function Ord2Ymd(ord: int): Ymd
  {
    var n400, n := (ord - 1) / DI400Y, (ord - 1) % DI400Y;
    var n100, n' := n / DI100Y, n % DI100Y;
    var n4, n'' := n' / DI4Y, n' % DI4Y;
    var n1, rest := n'' / 365, n'' % 365;
    var year := n400 * 400 + 1 + n100 * 100 + n4 * 4 + n1;
    if n1 == 4 || n100 == 4 then
      Ymd(year - 1, 12, 31)
    else
      DateInYear(year, rest, n1 == 3 && (n4 != 24 || n100 == 3))
  }

  /** Days and leap years in terms of whole 400-, 100-, 4- and 1-year cycles since year 1. */
  lemma YearOfCycles(year: int, a: int, b: int, c: int, d: int)
    requires 0 <= b < 4 && 0 <= c < 25 && 0 <= d < 4
    requires year == 400 * a + 100 * b + 4 * c + d + 1
    ensures DaysBeforeYear(year) == DI400Y * a + DI100Y * b + DI4Y * c + 365 * d
    ensures IsLeap(year) <==> d == 3 && (c != 24 || b == 3)
  {
    var y := year - 1;
    DivModBy(y, 4, 100 * a + 25 * b + c, d);
    DivModBy(y, 100, 4 * a + b, 4 * c + d);
    DivModBy(y, 400, a, 100 * b + 4 * c + d);
    LeapOfCycles(year, a, b, c, d);
  }

  lemma DivModBy(y: int, m: int, q: int, r: int)
    requires (m == 4 || m == 100 || m == 400) && y == m * q + r && 0 <= r < m
    ensures y / m == q && y % m == r
  {
  }

  lemma LeapOfCycles(year: int, a: int, b: int, c: int, d: int)
    requires 0 <= b < 4 && 0 <= c < 25 && 0 <= d < 4
    requires year == 400 * a + 100 * b + 4 * c + d + 1
    ensures IsLeap(year) <==> d == 3 && (c != 24 || b == 3)
  {
    if d < 3 {
      DivModBy(year, 4, 100 * a + 25 * b + c, d + 1);
    } else {
      DivModBy(year, 4, 100 * a + 25 * b + c + 1, 0);
      if c < 24 {
        DivModBy(year, 100, 4 * a + b, 4 * c + 4);
      } else {
        DivModBy(year, 100, 4 * a + b + 1, 0);
        DivModBy(year, 400, if b < 3 then a else a + 1, if b < 3 then 100 * b + 100 else 0);
      }
    }
  }

  lemma YearLength(year: int)
    ensures DaysBeforeYear(year + 1) == DaysBeforeYear(year) + if IsLeap(year) then 366 else 365
  {
    var a, r := (year - 1) / 400, (year - 1) % 400;
    var b, r' := r / 100, r % 100;
    var c, d := r' / 4, r' % 4;
    YearOfCycles(year, a, b, c, d);
    if d < 3 {
      YearOfCycles(year + 1, a, b, c, d + 1);
    } else if c < 24 {
      YearOfCycles(year + 1, a, b, c + 1, 0);
    } else if b < 3 {
      YearOfCycles(year + 1, a, b + 1, 0, 0);
    } else {
      YearOfCycles(year + 1, a + 1, 0, 0, 0);
    }
  }

  /** The cycle counts are in range; a fourth 100-year or 1-year cycle leaves no days over. */
  lemma CycleCounts(ord: int)
    ensures var n := (ord - 1) % DI400Y;
      var n' := n % DI100Y;
      var n'' := n' % DI4Y;
      && 0 <= n / DI100Y <= 4 && 0 <= n' / DI4Y <= 24 && 0 <= n'' / 365 <= 4
      && (n / DI100Y == 4 ==> n' == 0)
      && (n'' / 365 == 4 ==> n'' % 365 == 0 && n' / DI4Y != 24)
  {
  }

  lemma LastDay(year: int)
    ensures IsYmd(Ymd(year, 12, 31))
    ensures Ymd2Ord(Ymd(year, 12, 31)) == DaysBeforeYear(year) + if IsLeap(year) then 366 else 365
  {
  }

  lemma DaysBeforeKnownYears()
    ensures DaysBeforeYear(1) == 0 && DaysBeforeYear(1970) == 719162 && DaysBeforeYear(9999) == 3651694
    ensures !IsLeap(9999)
  {
    hide DaysBeforeYear, IsLeap;
    YearOfCycles(1, 0, 0, 0, 0);
    YearOfCycles(1970, 4, 3, 17, 1);
    YearOfCycles(9999, 24, 3, 24, 2);
  }

  /** The ordinals of the first supported day, of the POSIX epoch and of the last supported day. */
  lemma KnownOrdinals(d: Ymd)
    requires IsYmd(d)
    ensures d == Ymd(1, 1, 1) ==> Ymd2Ord(d) == 1
    ensures d == Ymd(1970, 1, 1) ==> Ymd2Ord(d) == 719163
    ensures d == Ymd(9999, 12, 31) ==> Ymd2Ord(d) == 3652059
  {
    hide DaysBeforeYear, IsLeap;
    DaysBeforeKnownYears();
  }

  /** Every ordinal is the ordinal of the date it is converted to, and that date exists. */
  lemma OrdinalRoundTrip(ord: int)
    ensures IsYmd(Ord2Ymd(ord)) && Ymd2Ord(Ord2Ymd(ord)) == ord
  {
    hide DaysBeforeYear, IsLeap, DateInYear, IsYmd, Ymd2Ord;
    var n400, n := (ord - 1) / DI400Y, (ord - 1) % DI400Y;
    var n100, n' := n / DI100Y, n % DI100Y;
    var n4, n'' := n' / DI4Y, n' % DI4Y;
    var n1, rest := n'' / 365, n'' % 365;
    CycleCounts(ord);
    if n100 == 4 {
      YearOfCycles(n400 * 400 + 400, n400, 3, 24, 3);
      LastDay(n400 * 400 + 400);
      assert Ord2Ymd(ord) == Ymd(n400 * 400 + 400, 12, 31);
    } else if n1 == 4 {
      var year := n400 * 400 + n100 * 100 + n4 * 4 + 4;
      YearOfCycles(year, n400, n100, n4, 3);
      LastDay(year);
      assert Ord2Ymd(ord) == Ymd(year, 12, 31);
    } else {
      var year := n400 * 400 + n100 * 100 + n4 * 4 + n1 + 1;
      YearOfCycles(year, n400, n100, n4, n1);
      DateInYearIsRight(year, rest);
      assert Ord2Ymd(ord) == DateInYear(year, rest, IsLeap(year));
    }
  }

  predicate Earlier(d: Ymd, e: Ymd)
  {
    d.year < e.year || (d.year == e.year && (d.month < e.month || (d.month == e.month && d.day < e.day)))
  }

  lemma {:induction false} LaterYears(y: int, y': int)
    requires y <= y'
    ensures DaysBeforeYear(y) <= DaysBeforeYear(y')
    decreases y' - y
  {
    if y < y' {
      LaterYears(y, y' - 1);
      YearLength(y' - 1);
    }
  }

  lemma DayOfYear(d: Ymd)
    requires IsYmd(d)
    ensures 1 <= DaysBeforeMonth(d.year, d.month) + d.day <= if IsLeap(d.year) then 366 else 365
  {
  }

  lemma LaterMonths(year: int, m: int, m': int)
    requires 1 <= m < m' <= 12
    ensures DaysBeforeMonth(year, m) + DaysInMonth(year, m) <= DaysBeforeMonth(year, m')
    decreases m' - m
  {
    if m + 1 < m' {
      LaterMonths(year, m, m' - 1);
    }
  }

  lemma EarlierOrdinal(d: Ymd, e: Ymd)
    requires IsYmd(d) && IsYmd(e) && Earlier(d, e)
    ensures Ymd2Ord(d) < Ymd2Ord(e)
  {
    hide DaysBeforeYear;
    if d.year < e.year {
      DayOfYear(d);
      DayOfYear(e);
      YearLength(d.year);
      LaterYears(d.year + 1, e.year);
    } else if d.month < e.month {
      LaterMonths(d.year, d.month, e.month);
    }
  }

  /** Ordinals are ordered as dates are. */
  lemma OrdinalsKeepOrder(d: Ymd, e: Ymd)
    requires IsYmd(d) && IsYmd(e)
    ensures Earlier(d, e) <==> Ymd2Ord(d) < Ymd2Ord(e)
  {
    if Earlier(d, e) {
      EarlierOrdinal(d, e);
    } else if Earlier(e, d) {
      EarlierOrdinal(e, d);
    }
  }

  /** Every date, in any year of any sign, is the date its ordinal is converted to. */
  lemma DateRoundTrip(d: Ymd)
    requires IsYmd(d)
    ensures Ord2Ymd(Ymd2Ord(d)) == d
  {
    var e := Ord2Ymd(Ymd2Ord(d));
    OrdinalRoundTrip(Ymd2Ord(d));
    OrdinalsKeepOrder(d, e);
    OrdinalsKeepOrder(e, d);
  }
}
