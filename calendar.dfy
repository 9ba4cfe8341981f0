/** Gregorian calendar dates, as `pd.to_datetime` assembles them from year,
    month and day columns (rdv_generator.py:36-40), and their `dd/mm/yyyy`
    text (rdv_generator.py:114). */
module Calendar {
  import opened Wrappers
  import opened Numerals

  datatype Date = Date(year: int, month: int, day: int)

  predicate IsLeapYear(y: int)
  {
    y % 4 == 0 && (y % 100 != 0 || y % 400 == 0)
  }

  function DaysInMonth(y: int, m: int): (n: int)
    requires 1 <= m <= 12
    ensures 28 <= n <= 31
  {
    if m == 2 then (if IsLeapYear(y) then 29 else 28)
    else if m == 4 || m == 6 || m == 9 || m == 11 then 30
    else 31
  }

  /** A constructible date: years 1 to 9999, as Python's `datetime` allows. */
  predicate IsValidDate(y: int, m: int, d: int)
  {
    1 <= y <= 9999 && 1 <= m <= 12 && 1 <= d <= DaysInMonth(y, m)
  }

  /** A midnight that a pandas timestamp (nanoseconds since 1970 in a signed
      64-bit integer) can hold: 1677-09-22 to 2262-04-11. */
  predicate InTimestampRange(d: Date)
  {
    && (d.year > 1677 || (d.year == 1677 && (d.month > 9 || (d.month == 9 && d.day >= 22))))
    && (d.year < 2262 || (d.year == 2262 && (d.month < 4 || (d.month == 4 && d.day <= 11))))
  }

  type ValidDate = d: Date | IsValidDate(d.year, d.month, d.day) witness Date(1, 1, 1)

  /** The date with exactly these components, if there is one: invalid
      components are rejected, never clamped to the nearest valid date. */
  function MakeDate(y: int, m: int, d: int): (r: Option<ValidDate>)
    ensures r.Some? <==> IsValidDate(y, m, d)
    ensures r.Some? ==> r.value.year == y && r.value.month == m && r.value.day == d
  {
    if IsValidDate(y, m, d) then Some(Date(y, m, d)) else None
  }

  /** February 29 exists exactly in leap years; day 31 exists exactly in the
      seven long months; no month has a day 32. */
  lemma CalendarRules(y: int, m: int)
    requires 1 <= y <= 9999 && 1 <= m <= 12
    ensures IsValidDate(y, 2, 29) <==> IsLeapYear(y)
    ensures !IsValidDate(y, 2, 30)
    ensures IsValidDate(y, m, 31) <==> m in {1, 3, 5, 7, 8, 10, 12}
    ensures !IsValidDate(y, m, 32) && IsValidDate(y, m, 28)
  {
  }

  lemma DateExamples()
    ensures MakeDate(2024, 3, 15) == Some(Date(2024, 3, 15))
    ensures MakeDate(2024, 2, 30) == None
    ensures MakeDate(2024, 2, 29).Some? && MakeDate(2023, 2, 29) == None
    ensures MakeDate(1900, 2, 29) == None && MakeDate(2000, 2, 29).Some?
  {
  }

  /** The number `pd.to_datetime` builds from the year, month and day
      columns before it reads a date: year * 10000 + month * 100 + day. */
  function Combined(y: int, m: int, d: int): int
  {
    y * 10000 + m * 100 + d
  }

  /** A number whose decimal text has exactly eight digits. */
  predicate IsEightDigits(n: int)
  {
    10000000 <= n < 100000000
  }

  /** An eight-digit number read with the format `%Y%m%d`: four digits of
      year, two of month, two of day. */
  function Decoded(n: int): Date
  {
    Date(n / 10000, n / 100 % 100, n % 100)
  }

  /** The date `pd.to_datetime(dict(year=..., month=..., day=...))`
      assembles from one row's numbers: the combined number, read as
      `%Y%m%d`, must have eight digits and be a date a timestamp can hold.
      The parts are not checked one by one, so a day or month that is out
      of range can carry into the neighbouring field. */
  function AssembleDate(y: int, m: int, d: int): (r: Option<ValidDate>)
    ensures r.Some? ==> Combined(r.value.year, r.value.month, r.value.day) == Combined(y, m, d)
    ensures r.Some? ==> InTimestampRange(r.value)
  {
    var n := Combined(y, m, d);
    if !IsEightDigits(n) then None
    else
      DecodedCombines(n);
      match MakeDate(n / 10000, n / 100 % 100, n % 100)
      case None => None
      case Some(v) => if InTimestampRange(v) then Some(v) else None
  }

  /** Decoding splits a number back into the fields `Combined` joins. */
  lemma DecodedCombines(n: int)
    requires IsEightDigits(n)
    ensures Combined(Decoded(n).year, Decoded(n).month, Decoded(n).day) == n
  {
    assert n / 100 == (n / 10000) * 100 + n / 100 % 100;
    assert n == (n / 100) * 100 + n % 100;
  }

  /** Parts that already form a date with a four-digit year assemble to
      that date, or to nothing when a timestamp cannot hold it. */
  lemma AssembleDateExact(y: int, m: int, d: int)
    requires IsValidDate(y, m, d) && 1000 <= y
    ensures AssembleDate(y, m, d) == if InTimestampRange(Date(y, m, d)) then Some(Date(y, m, d)) else None
  {
    var n := Combined(y, m, d);
    assert n / 10000 == y;
    assert n / 100 == y * 100 + m;
    assert Decoded(n) == Date(y, m, d);
  }

  /** Parts in the ranges of a month and a day of the month never carry:
      whatever they assemble to is the date they name. */
  lemma AssembleDateInRange(y: int, m: int, d: int)
    requires 1000 <= y <= 9999 && 1 <= m <= 12 && 1 <= d <= 31
    ensures AssembleDate(y, m, d).Some? ==>
              IsValidDate(y, m, d) && AssembleDate(y, m, d).value == Date(y, m, d)
  {
    var n := Combined(y, m, d);
    assert n / 10000 == y;
    assert n / 100 == y * 100 + m;
    assert Decoded(n) == Date(y, m, d);
  }

  /** Out-of-range parts carry: day 101 of February is 1 March, day 115 of
      month 0 is 15 January; a combination that reads as no date, or a
      year short of four digits, is rejected. */
  lemma AssembleDateExamples()
    ensures AssembleDate(2024, 2, 101) == Some(Date(2024, 3, 1))
    ensures AssembleDate(2024, 0, 115) == Some(Date(2024, 1, 15))
    ensures AssembleDate(2024, 3, 15) == Some(Date(2024, 3, 15))
    ensures AssembleDate(2024, 2, 30) == None
    ensures AssembleDate(2024, 13, 1) == None
    ensures AssembleDate(999, 3, 1) == None
  {
    assert Decoded(Combined(2024, 2, 101)) == Date(2024, 3, 1);
    assert Decoded(Combined(2024, 0, 115)) == Date(2024, 1, 15);
    assert Decoded(Combined(2024, 3, 15)) == Date(2024, 3, 15);
    assert Decoded(Combined(2024, 2, 30)) == Date(2024, 2, 30);
    assert Decoded(Combined(2024, 13, 1)) == Date(2024, 13, 1);
    assert Combined(999, 3, 1) == 9990301;
  }

  /** `strftime("%d/%m/%Y")`. */
  function FormatDate(d: ValidDate): (r: string)
    ensures |r| == 10 && r[2] == '/' && r[5] == '/'
  {
    Pad2(d.day) + "/" + Pad2(d.month) + "/" + Pad4(d.year)
  }

  /** Reads a `dd/mm/yyyy` text back. */
  function ParseDate(s: string): (r: Option<Date>)
  {
    if |s| == 10 && s[2] == '/' && s[5] == '/'
       && AllDigits(s[..2]) && AllDigits(s[3..5]) && AllDigits(s[6..])
    then Some(Date(DigitsValue(s[6..]), DigitsValue(s[3..5]), DigitsValue(s[..2])))
    else None
  }

  lemma FormatDateRoundTrip(d: ValidDate)
    ensures ParseDate(FormatDate(d)) == Some(d)
  {
    var s := FormatDate(d);
    assert s[..2] == Pad2(d.day);
    assert s[3..5] == Pad2(d.month);
    assert s[6..] == Pad4(d.year);
    Pad2Meaning(d.day);
    Pad2Meaning(d.month);
    Pad4Meaning(d.year);
  }

  /** Distinct dates are written differently. */
  lemma FormatDateInjective(d: ValidDate, e: ValidDate)
    ensures FormatDate(d) == FormatDate(e) ==> d == e
  {
    FormatDateRoundTrip(d);
    FormatDateRoundTrip(e);
  }

  /** `str()` of a midnight pandas timestamp: `yyyy-mm-dd 00:00:00`. */
  function TimestampText(d: ValidDate): (r: string)
    ensures |r| == 19 && r[4] == '-' && r[7] == '-' && r[10..] == " 00:00:00"
  {
    Pad4(d.year) + "-" + Pad2(d.month) + "-" + Pad2(d.day) + " 00:00:00"
  }
}
