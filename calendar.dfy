/** The proleptic Gregorian calendar of Python's `datetime`, as far as the
    default date window of a transactions request needs it: a date thirty days
    back, and the `%Y-%m-%d` text of a date. Days are counted as CPython's
    `date.toordinal()` counts them, with 0001-01-01 as day 1. */
module Calendar {
  import opened Wrappers

  datatype Date = Date(year: int, month: int, day: int)

  predicate IsLeapYear(y: int) {
    y % 4 == 0 && (y % 100 != 0 || y % 400 == 0)
  }

  function DaysInYear(y: int): int {
    if IsLeapYear(y) then 366 else 365
  }

  function DaysInMonth(y: int, m: int): int
    requires 1 <= m <= 12
  {
    if m == 2 then (if IsLeapYear(y) then 29 else 28)
    else if m == 4 || m == 6 || m == 9 || m == 11 then 30
    else 31
  }

  /** A date `datetime` can represent: years 1 (MINYEAR) to 9999 (MAXYEAR). */
  predicate Valid(d: Date) {
    1 <= d.year <= 9999 && 1 <= d.month <= 12 && 1 <= d.day <= DaysInMonth(d.year, d.month)
  }

  /** Days in the years before `y`, by the closed form CPython uses. */
  function DaysBeforeYear(y: int): int {
    var p := y - 1;
    p * 365 + p / 4 - p / 100 + p / 400
  }

  /** Days in year `y` before the first of month `m`. */
  function DaysBeforeMonth(y: int, m: int): int
    requires 1 <= m <= 12
  {
    [0, 31, 59, 90, 120, 151, 181, 212, 243, 273, 304, 334][m - 1]
    + (if m > 2 && IsLeapYear(y) then 1 else 0)
  }

  /** `date.toordinal()`. */
  function Ordinal(d: Date): int
    requires Valid(d)
  {
    DaysBeforeYear(d.year) + DaysBeforeMonth(d.year, d.month) + d.day
  }

  lemma MonthStep(y: int, m: int)
    requires 1 <= m < 12
    ensures DaysBeforeMonth(y, m + 1) == DaysBeforeMonth(y, m) + DaysInMonth(y, m)
  {
  }

  lemma YearEnd(y: int)
    ensures DaysBeforeMonth(y, 12) + DaysInMonth(y, 12) == DaysInYear(y)
  {
  }

  lemma DivStep4(a: int)
    ensures a / 4 - (a - 1) / 4 == if a % 4 == 0 then 1 else 0
  {
  }

  lemma DivStep100(a: int)
    ensures a / 100 - (a - 1) / 100 == if a % 100 == 0 then 1 else 0
  {
  }

  lemma DivStep400(a: int)
    ensures a / 400 - (a - 1) / 400 == if a % 400 == 0 then 1 else 0
  {
  }

  /** The closed form adds one year's length per year. */
  lemma YearStep(y: int)
    ensures DaysBeforeYear(y + 1) == DaysBeforeYear(y) + DaysInYear(y)
  {
    DivStep4(y);
    DivStep100(y);
    DivStep400(y);
    if y % 400 == 0 {
      Div400(y);
    } else if y % 100 == 0 {
      Div100(y);
    }
  }

  lemma Div400(y: int)
    requires y % 400 == 0
    ensures y % 100 == 0 && y % 4 == 0
  {
    var k := y / 400;
    assert y == 400 * k;
    assert y / 100 == 4 * k;
    assert y / 4 == 100 * k;
  }

  lemma Div100(y: int)
    requires y % 100 == 0
    ensures y % 4 == 0
  {
    var k := y / 100;
    assert y == 100 * k;
    assert y / 4 == 25 * k;
  }

  lemma {:induction false} DaysBeforeYearMonotone(a: int, b: int)
    requires 1 <= a <= b
    ensures DaysBeforeYear(a) <= DaysBeforeYear(b)
    decreases b - a
  {
    if a < b {
      YearStep(a);
      DaysBeforeYearMonotone(a + 1, b);
    }
  }

  lemma {:induction false} DaysBeforeMonthMonotone(y: int, a: int, b: int)
    requires 1 <= a <= b <= 12
    ensures DaysBeforeMonth(y, a) <= DaysBeforeMonth(y, b)
    decreases b - a
  {
    if a < b {
      MonthStep(y, a);
      DaysBeforeMonthMonotone(y, a + 1, b);
    }
  }

  /** The ordinal of a valid date lies within its year's span of days. */
  lemma OrdinalInYear(d: Date)
    requires Valid(d)
    ensures DaysBeforeYear(d.year) < Ordinal(d) <= DaysBeforeYear(d.year + 1)
  {
    YearStep(d.year);
    YearEnd(d.year);
    if d.month < 12 {
      MonthStep(d.year, d.month);
      DaysBeforeMonthMonotone(d.year, d.month + 1, 12);
    }
  }

  /** Distinct valid dates have distinct ordinals. */
  lemma OrdinalInjective(d1: Date, d2: Date)
    requires Valid(d1) && Valid(d2) && Ordinal(d1) == Ordinal(d2)
    ensures d1 == d2
  {
    OrdinalInYear(d1);
    OrdinalInYear(d2);
    if d1.year < d2.year {
      DaysBeforeYearMonotone(d1.year + 1, d2.year);
    } else if d2.year < d1.year {
      DaysBeforeYearMonotone(d2.year + 1, d1.year);
    } else if d1.month < d2.month {
      MonthStep(d1.year, d1.month);
      DaysBeforeMonthMonotone(d1.year, d1.month + 1, d2.month);
    } else if d2.month < d1.month {
      MonthStep(d2.year, d2.month);
      DaysBeforeMonthMonotone(d2.year, d2.month + 1, d1.month);
    }
  }

  /** The day before `d`; `None` before 0001-01-01, where `datetime` raises
      OverflowError. */
  function PrevDay(d: Date): (r: Option<Date>)
    requires Valid(d)
    ensures r.Some? ==> Valid(r.value)
  {
    if d.day > 1 then Some(Date(d.year, d.month, d.day - 1))
    else if d.month > 1 then Some(Date(d.year, d.month - 1, DaysInMonth(d.year, d.month - 1)))
    else if d.year > 1 then Some(Date(d.year - 1, 12, 31))
    else None
  }

  /** `d - timedelta(days=n)` on the date part; `None` where `datetime`
      raises OverflowError. */
  function MinusDays(d: Date, n: nat): (r: Option<Date>)
    requires Valid(d)
    ensures r.Some? ==> Valid(r.value)
    decreases n
  {
    if n == 0 then Some(d)
    else match PrevDay(d) {
      case None => None
      case Some(p) => MinusDays(p, n - 1)
    }
  }

  lemma PrevDayOrdinal(d: Date)
    requires Valid(d)
    ensures PrevDay(d).Some? <==> Ordinal(d) > 1
    ensures PrevDay(d).Some? ==> Ordinal(PrevDay(d).value) == Ordinal(d) - 1
  {
    if d.day == 1 && d.month > 1 {
      MonthStep(d.year, d.month - 1);
    } else if d.day == 1 && d.year > 1 {
      YearStep(d.year - 1);
      YearEnd(d.year - 1);
      DaysBeforeYearMonotone(1, d.year - 1);
    } else if d.day > 1 {
      DaysBeforeYearMonotone(1, d.year);
      DaysBeforeMonthMonotone(d.year, 1, d.month);
    }
  }

  /** Going back `n` days succeeds exactly when day `Ordinal(d) - n` is still
      on or after 0001-01-01, and then lands on that day. */
  lemma {:induction false} MinusDaysOrdinal(d: Date, n: nat)
    requires Valid(d)
    ensures MinusDays(d, n).Some? <==> Ordinal(d) > n
    ensures MinusDays(d, n).Some? ==> Ordinal(MinusDays(d, n).value) == Ordinal(d) - n
    decreases n
  {
    if n > 0 {
      PrevDayOrdinal(d);
      if PrevDay(d).Some? {
        MinusDaysOrdinal(PrevDay(d).value, n - 1);
      }
    }
  }

  /** The result of `MinusDays` is the one valid date `n` days earlier. */
  lemma MinusDaysUnique(d: Date, n: nat, e: Date)
    requires Valid(d) && Valid(e) && Ordinal(e) == Ordinal(d) - n
    ensures MinusDays(d, n) == Some(e)
  {
    OrdinalInYear(e);
    DaysBeforeYearMonotone(1, e.year);
    MinusDaysOrdinal(d, n);
    OrdinalInjective(MinusDays(d, n).value, e);
  }

  function Digit(n: int): (c: char)
    requires 0 <= n < 10
    ensures '0' <= c <= '9'
  {
    ('0' as int + n) as char
  }

  function DigitValue(c: char): int {
    c as int - '0' as int
  }

  predicate IsDigit(c: char) {
    '0' <= c <= '9'
  }

  /** `strftime('%Y-%m-%d')`: four-digit year, two-digit month and day. */
  function Format(d: Date): (s: string)
    requires Valid(d)
    ensures |s| == 10 && s[4] == '-' && s[7] == '-'
    ensures forall i :: 0 <= i < 10 && i != 4 && i != 7 ==> IsDigit(s[i])
  {
    var y, m, dd := d.year, d.month, d.day;
    var tens := y / 10;
    var hundreds := tens / 10;
    [Digit(hundreds / 10), Digit(hundreds % 10), Digit(tens % 10), Digit(y % 10), '-',
     Digit(m / 10), Digit(m % 10), '-',
     Digit(dd / 10), Digit(dd % 10)]
  }

  /** Reads `YYYY-MM-DD` text back; `None` if it is not a valid date. */
  function Parse(s: string): (r: Option<Date>)
    ensures r.Some? ==> Valid(r.value)
  {
    if |s| != 10 || s[4] != '-' || s[7] != '-' then None
    else if !(forall i :: 0 <= i < 10 && i != 4 && i != 7 ==> IsDigit(s[i])) then None
    else
      var d := Date(DigitValue(s[0]) * 1000 + DigitValue(s[1]) * 100 + DigitValue(s[2]) * 10 + DigitValue(s[3]),
                    DigitValue(s[5]) * 10 + DigitValue(s[6]),
                    DigitValue(s[8]) * 10 + DigitValue(s[9]));
      if Valid(d) then Some(d) else None
  }

  lemma FourDigits(y: int)
    requires 0 <= y < 10000
    ensures var hundreds := y / 10 / 10;
      (hundreds / 10) * 1000 + (hundreds % 10) * 100 + (y / 10 % 10) * 10 + y % 10 == y
  {
    var tens := y / 10;
    var hundreds := tens / 10;
    assert y == 10 * tens + y % 10;
    assert tens == 10 * hundreds + tens % 10;
    assert hundreds == 10 * (hundreds / 10) + hundreds % 10;
  }

  lemma TwoDigits(m: int)
    requires 0 <= m < 100
    ensures (m / 10) * 10 + m % 10 == m
  {
  }

  /** The date text reads back as the same date. */
  lemma ParseFormat(d: Date)
    requires Valid(d)
    ensures Parse(Format(d)) == Some(d)
  {
    var s := Format(d);
    FourDigits(d.year);
    TwoDigits(d.month);
    TwoDigits(d.day);
    assert DigitValue(s[0]) == d.year / 10 / 10 / 10 && DigitValue(s[1]) == d.year / 10 / 10 % 10;
    assert DigitValue(s[2]) == d.year / 10 % 10 && DigitValue(s[3]) == d.year % 10;
    assert DigitValue(s[5]) == d.month / 10 && DigitValue(s[6]) == d.month % 10;
    assert DigitValue(s[8]) == d.day / 10 && DigitValue(s[9]) == d.day % 10;
  }

  /** Distinct dates have distinct texts. */
  lemma FormatInjective(d1: Date, d2: Date)
    requires Valid(d1) && Valid(d2) && Format(d1) == Format(d2)
    ensures d1 == d2
  {
    ParseFormat(d1);
    ParseFormat(d2);
  }
}
