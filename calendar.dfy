/**
 * Proleptic Gregorian dates as Python's datetime module has them: civil dates,
 * the day ordinal (0001-01-01 is day 1, as date.toordinal()), weekday() with
 * Monday = 0, date +/- timedelta(days=n), and the '%Y.%m.%d' text form that the
 * scoring records use as period keys (strftime to write it, strptime to read it).
 */
module Calendar {
  import opened Wrappers
  import opened Text

  datatype Date = Date(year: int, month: int, day: int)

  /** A point in time: a date and the microseconds elapsed since its midnight. */
  datatype DateTime = DateTime(date: Date, micros: int)

  const MicrosPerDay: int := 86_400_000_000

  predicate IsLeap(y: int) {
    y % 4 == 0 && (y % 100 != 0 || y % 400 == 0)
  }

  function DaysInMonth(y: int, m: int): int
    requires 1 <= m <= 12
  {
    if m == 2 then (if IsLeap(y) then 29 else 28)
    else if m == 4 || m == 6 || m == 9 || m == 11 then 30
    else 31
  }

  function DaysInYear(y: int): int {
    if IsLeap(y) then 366 else 365
  }

  /** Days in the year before the first of month m. */
  function DaysBeforeMonth(y: int, m: int): int
    requires 1 <= m <= 12
  {
    [0, 31, 59, 90, 120, 151, 181, 212, 243, 273, 304, 334][m - 1]
      + (if m > 2 && IsLeap(y) then 1 else 0)
  }

  /** Days before January 1st of year y, counting from 0001-01-01: the
      lengths of the years before it. */
  function DaysBeforeYear(y: int): (n: int)
    requires y >= 1
    ensures n >= 0
  {
    if y == 1 then 0 else DaysBeforeYear(y - 1) + DaysInYear(y - 1)
  }

  predicate ValidDate(d: Date) {
    d.year >= 1 && 1 <= d.month <= 12 && 1 <= d.day <= DaysInMonth(d.year, d.month)
  }

  predicate ValidDateTime(t: DateTime) {
    ValidDate(t.date) && 0 <= t.micros < MicrosPerDay
  }

  /** date.toordinal() */
  function Ordinal(d: Date): int
    requires ValidDate(d)
  {
    DaysBeforeYear(d.year) + DaysBeforeMonth(d.year, d.month) + d.day
  }

  lemma MonthStep(y: int, m: int)
    requires 1 <= m < 12
    ensures DaysBeforeMonth(y, m + 1) == DaysBeforeMonth(y, m) + DaysInMonth(y, m)
  {
  }

  lemma YearStep(y: int)
    requires y >= 1
    ensures DaysBeforeYear(y + 1) == DaysBeforeYear(y) + DaysInYear(y)
  {
  }

  /** The count of days before a year is the closed form datetime's
      _days_before_year computes: 365 a year plus the leap days. */
  lemma {:induction false} DaysBeforeYearClosedForm(y: int)
    requires y >= 1
    ensures var p := y - 1; DaysBeforeYear(y) == p * 365 + p / 4 - p / 100 + p / 400
    decreases y
  {
    if y > 1 {
      DaysBeforeYearClosedForm(y - 1);
      var p := y - 1;
      DivStep(p, 4);
      DivStep(p, 100);
      DivStep(p, 400);
      MultipleChain(p);
      assert DaysBeforeYear(y) == DaysBeforeYear(p) + DaysInYear(p);
    }
  }

  /** A multiple of 400 is a multiple of 100, and a multiple of 100 one of 4. */
  lemma MultipleChain(p: int)
    ensures p % 400 == 0 ==> p % 100 == 0
    ensures p % 100 == 0 ==> p % 4 == 0
  {
    if p % 400 == 0 {
      var k := p / 400;
      assert p == 400 * k;
      assert p == 100 * (4 * k) + 0;
    }
    if p % 100 == 0 {
      var k := p / 100;
      assert p == 100 * k;
      assert p == 4 * (25 * k) + 0;
    }
  }

  /** Counting one more year adds one multiple of d (4, 100 or 400) exactly
      when that year is one. */
  lemma DivStep(p: int, d: int)
    requires p >= 1 && (d == 4 || d == 100 || d == 400)
    ensures p / d - (p - 1) / d == if p % d == 0 then 1 else 0
  {
  }

  /** Each year is at least 365 days long. */
  lemma {:induction false} YearsGrow(a: int, b: int)
    requires 1 <= a <= b
    ensures DaysBeforeYear(b) - DaysBeforeYear(a) >= 365 * (b - a)
    decreases b - a
  {
    if a < b {
      YearStep(a);
      YearsGrow(a + 1, b);
    }
  }

  /** A date's ordinal falls within its own year. */
  lemma OrdinalInYear(d: Date)
    requires ValidDate(d)
    ensures DaysBeforeYear(d.year) < Ordinal(d) <= DaysBeforeYear(d.year + 1)
  {
    YearStep(d.year);
  }

  /** Ordinal order never puts a later year first. */
  lemma YearOrder(a: Date, b: Date)
    requires ValidDate(a) && ValidDate(b) && Ordinal(a) <= Ordinal(b)
    ensures a.year <= b.year
  {
    OrdinalInYear(a);
    OrdinalInYear(b);
    if a.year > b.year {
      YearsGrow(b.year + 1, a.year);
    }
  }

  /** Within one year, a later month never has a smaller ordinal. */
  lemma MonthOrder(y: int, m1: int, m2: int)
    requires 1 <= m1 <= m2 <= 12
    ensures DaysBeforeMonth(y, m1) <= DaysBeforeMonth(y, m2)
    ensures DaysBeforeMonth(y, m2) + DaysInMonth(y, m2) <= DaysInYear(y)
  {
  }

  /** Within one year, ordinal order is (month, day) order. */
  lemma SameYearOrder(a: Date, b: Date)
    requires ValidDate(a) && ValidDate(b) && a.year == b.year
    requires a.month < b.month || (a.month == b.month && a.day <= b.day)
    ensures Ordinal(a) <= Ordinal(b)
  {
    if a.month < b.month {
      MonthStep(a.year, a.month);
      MonthOrder(a.year, a.month + 1, b.month);
    }
  }

  /** The following day: date + timedelta(days=1). */
  function NextDay(d: Date): (e: Date)
    requires ValidDate(d)
    ensures ValidDate(e) && Ordinal(e) == Ordinal(d) + 1
  {
    if d.day < DaysInMonth(d.year, d.month) then
      d.(day := d.day + 1)
    else if d.month < 12 then
      MonthStep(d.year, d.month);
      Date(d.year, d.month + 1, 1)
    else
      YearStep(d.year);
      Date(d.year + 1, 1, 1)
  }

  /** The preceding day: date - timedelta(days=1); 0001-01-01 has none. */
  function PrevDay(d: Date): (e: Date)
    requires ValidDate(d) && Ordinal(d) > 1
    ensures ValidDate(e) && Ordinal(e) == Ordinal(d) - 1
  {
    if d.day > 1 then
      d.(day := d.day - 1)
    else if d.month > 1 then
      MonthStep(d.year, d.month - 1);
      Date(d.year, d.month - 1, DaysInMonth(d.year, d.month - 1))
    else
      assert d.year > 1;
      YearStep(d.year - 1);
      Date(d.year - 1, 12, 31)
  }

  /** date + timedelta(days=n) */
  function AddDays(d: Date, n: nat): (e: Date)
    requires ValidDate(d)
    ensures ValidDate(e) && Ordinal(e) == Ordinal(d) + n
    decreases n
  {
    if n == 0 then d else AddDays(NextDay(d), n - 1)
  }

  /** date - timedelta(days=n) */
  function SubDays(d: Date, n: nat): (e: Date)
    requires ValidDate(d) && Ordinal(d) > n
    ensures ValidDate(e) && Ordinal(e) == Ordinal(d) - n
    decreases n
  {
    if n == 0 then d else SubDays(PrevDay(d), n - 1)
  }

  /** date.weekday(): Monday is 0, Sunday is 6. */
  function Weekday(d: Date): int
    requires ValidDate(d)
  {
    (Ordinal(d) + 6) % 7
  }

  /** Python's ordering of datetimes: by date, then by time of day. */
  predicate AtOrBefore(a: DateTime, b: DateTime)
    requires ValidDate(a.date) && ValidDate(b.date)
  {
    Ordinal(a.date) < Ordinal(b.date) || (Ordinal(a.date) == Ordinal(b.date) && a.micros <= b.micros)
  }

  /** The midnight starting a date, as strptime returns it. */
  function Midnight(d: Date): DateTime {
    DateTime(d, 0)
  }

  /** strftime('%Y.%m.%d') */
  function FormatDate(d: Date): (s: string)
    requires ValidDate(d) && d.year <= 9999
  {
    Pad4(d.year) + "." + Pad2(d.month) + "." + Pad2(d.day)
  }

  /** strptime(s, '%Y.%m.%d'), for the zero-padded form only; None where strptime raises. */
  function ParseDate(s: string): (r: Option<Date>)
    ensures r.Some? ==> ValidDate(r.value) && r.value.year <= 9999
  {
    if |s| == 10 && s[4] == '.' && s[7] == '.'
       && AllDigits(s[..4]) && AllDigits(s[5..7]) && AllDigits(s[8..]) then
      var d := Date(DigitsValue(s[..4]), DigitsValue(s[5..7]), DigitsValue(s[8..]));
      FourDigitsBound(s[..4]);
      if ValidDate(d) then Some(d) else None
    else
      None
  }

  /** Writing a date and reading it back gives the date. */
  lemma ParseFormat(d: Date)
    requires ValidDate(d) && d.year <= 9999
    ensures ParseDate(FormatDate(d)) == Some(d)
  {
    var s := FormatDate(d);
    Pad4RoundTrip(d.year);
    Pad2RoundTrip(d.month);
    Pad2RoundTrip(d.day);
    assert s[..4] == Pad4(d.year);
    assert s[5..7] == Pad2(d.month);
    assert s[8..] == Pad2(d.day);
  }

  /** Only the written form of a date reads back as that date, so distinct period
      keys name distinct dates. */
  lemma FormatParse(s: string)
    requires ParseDate(s).Some?
    ensures FormatDate(ParseDate(s).value) == s
  {
    Pad4OfDigits(s[..4]);
    Pad2OfDigits(s[5..7]);
    Pad2OfDigits(s[8..]);
    assert s == s[..4] + "." + s[5..7] + "." + s[8..];
  }

  /** A written date is made of digits and dots, with a digit at each end. */
  lemma FormatDateChars(d: Date)
    requires ValidDate(d) && d.year <= 9999
    ensures |FormatDate(d)| == 10
    ensures forall c | c in FormatDate(d) :: IsDigit(c) || c == '.'
    ensures IsDigit(FormatDate(d)[0]) && IsDigit(FormatDate(d)[9])
  {
    var s := FormatDate(d);
    forall c | c in s ensures IsDigit(c) || c == '.' {
      var i :| 0 <= i < |s| && s[i] == c;
    }
  }
}
