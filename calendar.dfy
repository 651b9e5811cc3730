/**
 * Proleptic Gregorian calendar dates, the previous-day step used by the daily rollover,
 * the day count since 1970-01-01 behind the heatmap keys, and the two renderings of a date:
 * the unpadded-year local form built by `getTodayString` and the strict `YYYY-MM-DD`
 * full-date of section 5.6 of RFC 3339 that the stats route parses.
 */
module Calendar {
  import opened Text
  import opened Wrappers

  datatype Date = Date(year: int, month: int, day: int)

  /** The Gregorian leap-year rule (Appendix C of RFC 3339). */
  predicate IsLeapYear(y: int) {
    (y % 4 == 0 && y % 100 != 0) || y % 400 == 0
  }

  function DaysInMonth(y: int, m: int): (n: nat)
    requires 1 <= m <= 12
    ensures 28 <= n <= 31
    ensures m == 2 ==> (n == 29 <==> IsLeapYear(y))
  {
    if m == 2 then (if IsLeapYear(y) then 29 else 28)
    else if m == 4 || m == 6 || m == 9 || m == 11 then 30
    else 31
  }

  /** A real calendar day: month 1-based, day within the month's length. */
  predicate Valid(d: Date) {
    1 <= d.month <= 12 && 1 <= d.day <= DaysInMonth(d.year, d.month)
  }

  /** `date.setDate(date.getDate() - 1)`: the calendar day before `d`. */
  function PrevDay(d: Date): (p: Date)
    requires Valid(d)
    ensures Valid(p)
  {
    if d.day > 1 then Date(d.year, d.month, d.day - 1)
    else if d.month > 1 then Date(d.year, d.month - 1, DaysInMonth(d.year, d.month - 1))
    else Date(d.year - 1, 12, 31)
  }

  /** The calendar day after `d` (independent reference for `PrevDay`). */
  function NextDay(d: Date): (n: Date)
    requires Valid(d)
    ensures Valid(n)
  {
    if d.day < DaysInMonth(d.year, d.month) then Date(d.year, d.month, d.day + 1)
    else if d.month < 12 then Date(d.year, d.month + 1, 1)
    else Date(d.year + 1, 1, 1)
  }

  /** `PrevDay` and `NextDay` undo each other on every valid date. */
  lemma PrevNextInverse(d: Date)
    requires Valid(d)
    ensures NextDay(PrevDay(d)) == d
    ensures PrevDay(NextDay(d)) == d
  {
  }

  /** Leap years in 1..n (for n >= 0; the same formula counts consistently below 0). */
  function LeapsThrough(n: int): int {
    n / 4 - n / 100 + n / 400
  }

  lemma LeapsStep(n: int)
    ensures LeapsThrough(n) - LeapsThrough(n - 1) == if IsLeapYear(n) then 1 else 0
  {
    assert n / 4 - (n - 1) / 4 == if n % 4 == 0 then 1 else 0;
    assert n / 100 - (n - 1) / 100 == if n % 100 == 0 then 1 else 0;
    assert n / 400 - (n - 1) / 400 == if n % 400 == 0 then 1 else 0;
  }

  /** Days from 1970-01-01 to January 1st of year `y`. */
  function YearStart(y: int): int {
    365 * (y - 1970) + LeapsThrough(y - 1) - LeapsThrough(1969)
  }

  lemma YearStartStep(y: int)
    ensures YearStart(y + 1) == YearStart(y) + 365 + (if IsLeapYear(y) then 1 else 0)
  {
    LeapsStep(y);
  }

  lemma {:induction false} YearStartMonotone(a: int, b: int)
    requires a <= b
    ensures YearStart(a) + 365 * (b - a) <= YearStart(b)
    decreases b - a
  {
    if a < b {
      YearStartStep(a);
      YearStartMonotone(a + 1, b);
    }
  }

  /** Days of year `y` before the first of month `m`. */
  function DaysBeforeMonth(y: int, m: int): nat
    requires 1 <= m <= 12
  {
    var leap := if IsLeapYear(y) then 1 else 0;
    if m == 1 then 0
    else if m == 2 then 31
    else if m == 3 then 59 + leap
    else if m == 4 then 90 + leap
    else if m == 5 then 120 + leap
    else if m == 6 then 151 + leap
    else if m == 7 then 181 + leap
    else if m == 8 then 212 + leap
    else if m == 9 then 243 + leap
    else if m == 10 then 273 + leap
    else if m == 11 then 304 + leap
    else 334 + leap
  }

  lemma DaysBeforeMonthMonotone(y: int, m1: int, m2: int)
    requires 1 <= m1 < m2 <= 12
    ensures DaysBeforeMonth(y, m1) + DaysInMonth(y, m1) <= DaysBeforeMonth(y, m2)
  {
  }

  /** Days since 1970-01-01 (negative before it): the civil-to-day-number conversion. */
  function DaysFromCivil(d: Date): int
    requires Valid(d)
  {
    YearStart(d.year) + DaysBeforeMonth(d.year, d.month) + d.day - 1
  }

  lemma DaysFromCivilEpoch()
    ensures DaysFromCivil(Date(1970, 1, 1)) == 0
  {
  }

  /** The day after is exactly one day number later. */
  lemma DaysFromCivilNext(d: Date)
    requires Valid(d)
    ensures DaysFromCivil(NextDay(d)) == DaysFromCivil(d) + 1
  {
    if d.day == DaysInMonth(d.year, d.month) && d.month == 12 {
      YearStartStep(d.year);
    }
  }

  /** The day before is exactly one day number earlier: yesterday is one calendar day back. */
  lemma DaysFromCivilPrev(d: Date)
    requires Valid(d)
    ensures DaysFromCivil(PrevDay(d)) == DaysFromCivil(d) - 1
  {
    PrevNextInverse(d);
    DaysFromCivilNext(PrevDay(d));
  }

  /** Chronological order of dates. */
  predicate Before(a: Date, b: Date) {
    a.year < b.year || (a.year == b.year && (a.month < b.month || (a.month == b.month && a.day < b.day)))
  }

  lemma DaysFromCivilInYear(d: Date)
    requires Valid(d)
    ensures YearStart(d.year) <= DaysFromCivil(d) < YearStart(d.year + 1)
  {
    YearStartStep(d.year);
    if d.month < 12 {
      DaysBeforeMonthMonotone(d.year, d.month, 12);
    }
  }

  /** Later dates have larger day numbers. */
  lemma DaysFromCivilMonotone(a: Date, b: Date)
    requires Valid(a) && Valid(b) && Before(a, b)
    ensures DaysFromCivil(a) < DaysFromCivil(b)
  {
    if a.year < b.year {
      DaysFromCivilInYear(a);
      DaysFromCivilInYear(b);
      YearStartMonotone(a.year + 1, b.year);
    } else if a.month < b.month {
      DaysBeforeMonthMonotone(a.year, a.month, b.month);
    }
  }

  /** Distinct valid dates have distinct day numbers. */
  lemma DaysFromCivilInjective(a: Date, b: Date)
    requires Valid(a) && Valid(b)
    requires DaysFromCivil(a) == DaysFromCivil(b)
    ensures a == b
  {
    if Before(a, b) {
      DaysFromCivilMonotone(a, b);
    } else if Before(b, a) {
      DaysFromCivilMonotone(b, a);
    }
  }

  /** `String(n).padStart(2, '0')`. */
  function Pad2(n: nat): string {
    PadStart(NatToString(n), 2, '0')
  }

  /** `${year}-${month}-${day}` with month and day padded to two digits, as `getTodayString` builds it. */
  function LocalDateString(d: Date): string
    requires Valid(d)
  {
    IntToString(d.year) + "-" + Pad2(d.month) + "-" + Pad2(d.day)
  }

  function Digits2(n: nat): (s: string)
    requires n < 100
    ensures |s| == 2 && AllDigits(s)
  {
    [DigitChar(n / 10), DigitChar(n % 10)]
  }

  function Digits4(n: nat): (s: string)
    requires n < 10000
    ensures |s| == 4 && AllDigits(s)
  {
    Digits2(n / 100) + Digits2(n % 100)
  }

  /** A date with a year that fits the four-digit `date-fullyear` field. */
  predicate FourDigitYear(d: Date) {
    0 <= d.year <= 9999
  }

  /** The RFC 3339 `full-date` rendering `YYYY-MM-DD`. */
  function FullDate(d: Date): (s: string)
    requires Valid(d) && FourDigitYear(d)
    ensures |s| == 10 && s[4] == '-' && s[7] == '-'
    ensures forall i :: 0 <= i < 10 && i != 4 && i != 7 ==> IsDigit(s[i])
  {
    Digits4(d.year) + "-" + Digits2(d.month) + "-" + Digits2(d.day)
  }

  /**
   * For years 1000 through 9999 the local rendering of `getTodayString` is the RFC 3339 full-date:
   * four-digit year, 1-based month and day each padded to two digits, separated by '-'.
   */
  lemma LocalDateStringIsFullDate(d: Date)
    requires Valid(d) && 1000 <= d.year <= 9999
    ensures LocalDateString(d) == FullDate(d)
  {
    var y: nat := d.year;
    assert y / 10 / 10 == y / 100 && y / 100 / 10 == y / 1000;
    assert NatToString(y / 1000) == [DigitChar(y / 1000)];
    assert NatToString(y / 100) == NatToString(y / 1000) + [DigitChar(y / 100 % 10)];
    assert NatToString(y / 10) == NatToString(y / 100) + [DigitChar(y / 10 % 10)];
    assert NatToString(y) == NatToString(y / 10) + [DigitChar(y % 10)];
    assert y / 100 / 10 == y / 1000 && y / 100 % 10 == y / 100 % 10;
    assert y % 100 / 10 == y / 10 % 10 && y % 100 % 10 == y % 10;
    assert IntToString(d.year) == Digits4(y);
    PadTwoDigits(d.month);
    PadTwoDigits(d.day);
  }

  /** The value of two decimal digit characters. */
  function Value2(a: char, b: char): nat
    requires IsDigit(a) && IsDigit(b)
  {
    10 * DigitValue(a) + DigitValue(b)
  }

  function Value4(a: char, b: char, c: char, e: char): nat
    requires IsDigit(a) && IsDigit(b) && IsDigit(c) && IsDigit(e)
  {
    100 * Value2(a, b) + Value2(c, e)
  }

  /** The character layout of a full-date: digits everywhere except '-' at positions 4 and 7. */
  predicate FullDateShape(s: string) {
    |s| == 10 && s[4] == '-' && s[7] == '-' &&
    IsDigit(s[0]) && IsDigit(s[1]) && IsDigit(s[2]) && IsDigit(s[3]) &&
    IsDigit(s[5]) && IsDigit(s[6]) && IsDigit(s[8]) && IsDigit(s[9])
  }

  /** Strict reading of an RFC 3339 full-date: the right shape and a real calendar day, or nothing. */
  function ParseFullDate(s: string): (r: Option<Date>)
    ensures r.Some? ==> Valid(r.value) && FourDigitYear(r.value)
  {
    if !FullDateShape(s) then None
    else
      var d := Date(Value4(s[0], s[1], s[2], s[3]), Value2(s[5], s[6]), Value2(s[8], s[9]));
      if Valid(d) then Some(d) else None
  }

  lemma DigitRoundTrip(n: nat)
    requires n < 10
    ensures DigitValue(DigitChar(n)) == n
  {
  }

  lemma Digits2Value(n: nat)
    requires n < 100
    ensures Value2(Digits2(n)[0], Digits2(n)[1]) == n
  {
    DigitRoundTrip(n / 10);
    DigitRoundTrip(n % 10);
  }

  lemma Digits4Value(n: nat)
    requires n < 10000
    ensures Value4(Digits4(n)[0], Digits4(n)[1], Digits4(n)[2], Digits4(n)[3]) == n
  {
    var s := Digits4(n);
    Digits2Value(n / 100);
    Digits2Value(n % 100);
    assert s[..2] == Digits2(n / 100) && s[2..] == Digits2(n % 100);
  }

  lemma Value2Digits(a: char, b: char)
    requires IsDigit(a) && IsDigit(b)
    ensures Value2(a, b) < 100 && Digits2(Value2(a, b)) == [a, b]
  {
    var x, y := DigitValue(a), DigitValue(b);
    assert (10 * x + y) / 10 == x && (10 * x + y) % 10 == y;
  }

  lemma Value4Digits(a: char, b: char, c: char, e: char)
    requires IsDigit(a) && IsDigit(b) && IsDigit(c) && IsDigit(e)
    ensures Value4(a, b, c, e) < 10000 && Digits4(Value4(a, b, c, e)) == [a, b, c, e]
  {
    var hi, lo := Value2(a, b), Value2(c, e);
    Value2Digits(a, b);
    Value2Digits(c, e);
    assert (100 * hi + lo) / 100 == hi && (100 * hi + lo) % 100 == lo;
  }

  /** Reading back a rendered full-date yields the date. */
  lemma ParseFullDateOfFullDate(d: Date)
    requires Valid(d) && FourDigitYear(d)
    ensures ParseFullDate(FullDate(d)) == Some(d)
  {
    var s := FullDate(d);
    var y, m, n := Digits4(d.year), Digits2(d.month), Digits2(d.day);
    assert s[0] == y[0] && s[1] == y[1] && s[2] == y[2] && s[3] == y[3];
    assert s[5] == m[0] && s[6] == m[1] && s[8] == n[0] && s[9] == n[1];
    Digits4Value(d.year);
    Digits2Value(d.month);
    Digits2Value(d.day);
  }

  /** A string that parses is exactly the rendering of what it parses to. */
  lemma FullDateOfParse(s: string)
    requires ParseFullDate(s).Some?
    ensures FullDate(ParseFullDate(s).value) == s
  {
    var d := ParseFullDate(s).value;
    Value4Digits(s[0], s[1], s[2], s[3]);
    Value2Digits(s[5], s[6]);
    Value2Digits(s[8], s[9]);
    assert FullDate(d) == [s[0], s[1], s[2], s[3]] + "-" + [s[5], s[6]] + "-" + [s[8], s[9]];
  }

  /** Two strings parsing to the same date are the same string. */
  lemma ParseFullDateInjective(s: string, t: string)
    requires ParseFullDate(s).Some? && ParseFullDate(s) == ParseFullDate(t)
    ensures s == t
  {
    FullDateOfParse(s);
    FullDateOfParse(t);
  }
}
