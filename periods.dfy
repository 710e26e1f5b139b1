/**
 * The period keys of the scoring records: services.py's _get_week (the Monday
 * to Sunday window around a moment and its "W<n>: <start> - <end>" key), the
 * quarter bounds and key of calculate_quarter_rewards, and the reading of a
 * week key back into its two dates.
 */
module Periods {
  import opened Wrappers
  import opened Text
  import opened Calendar

  /** The window _get_week returns: both ends carry the time of day of the moment
      it was computed from, as date - timedelta(days=weekday) keeps it. */
  datatype Week = Week(start: DateTime, end: DateTime, number: int, key: string)

  datatype Quarter = Quarter(number: int, start: Date, end: Date, key: string)

  /** First month of the quarter holding month m: (m - 1) // 3 * 3 + 1. */
  function QuarterFirstMonth(m: int): int
    requires 1 <= m <= 12
  {
    (m - 1) / 3 * 3 + 1
  }

  /** The " <start> - <end>" text both period keys end with, dates as '%Y.%m.%d'. */
  function RangeText(start: Date, end: Date): string
    requires ValidDate(start) && start.year <= 9999
    requires ValidDate(end) && end.year <= 9999
  {
    " " + FormatDate(start) + " - " + FormatDate(end)
  }

  /** f"W{week}: {start:%Y.%m.%d} - {end:%Y.%m.%d}" */
  function WeekKey(number: nat, start: Date, end: Date): string
    requires ValidDate(start) && start.year <= 9999
    requires ValidDate(end) && end.year <= 9999
  {
    "W" + NatToString(number) + ":" + RangeText(start, end)
  }

  /** Year bounds for the dates of the week around d. */
  lemma WeekYears(d: Date, start: Date, end: Date)
    requires ValidDate(d) && d.year <= 9998 && ValidDate(start) && ValidDate(end)
    requires Ordinal(start) <= Ordinal(d) && Ordinal(end) <= Ordinal(d) + 6
    ensures start.year <= 9999 && end.year <= 9999
  {
    YearOrder(start, d);
    OrdinalInYear(d);
    YearOrder(end, Date(d.year + 1, 12, 31));
  }

  /** The week number counts weeks from the first day of d's quarter. */
  function WeekNumber(d: Date): (n: int)
    requires ValidDate(d)
    ensures n >= 1
  {
    var first := Date(d.year, QuarterFirstMonth(d.month), 1);
    MonthOrder(d.year, first.month, d.month);
    (Ordinal(d) - Ordinal(first)) / 7 + 1
  }

  /** Stepping back weekday() days from a day lands on a Monday, and never before day 1. */
  lemma MondayOnOrBefore(o: int)
    requires o >= 1
    ensures 0 <= (o + 6) % 7 < o
    ensures (o - (o + 6) % 7 + 6) % 7 == 0
  {
    var k, r := (o + 6) / 7, (o + 6) % 7;
    assert o + 6 == 7 * k + r;
    assert o - r + 6 == 7 * k;
  }

  /** Going back weekday() days from a date reaches a Monday. */
  lemma BackToMonday(d: Date, m: Date)
    requires ValidDate(d) && ValidDate(m) && Ordinal(m) == Ordinal(d) - Weekday(d)
    ensures Weekday(m) == 0
  {
    MondayOnOrBefore(Ordinal(d));
  }

  /** date - timedelta(days=date.weekday()): the Monday on or before d. */
  function MondayOf(d: Date): (m: Date)
    requires ValidDate(d)
    ensures ValidDate(m) && Weekday(m) == 0
    ensures Ordinal(m) <= Ordinal(d) < Ordinal(m) + 7
  {
    MondayOnOrBefore(Ordinal(d));
    var m := SubDays(d, Weekday(d));
    BackToMonday(d, m);
    m
  }

  /** _get_week(t) */
  function WeekOf(t: DateTime): (w: Week)
    requires ValidDateTime(t) && t.date.year <= 9998
    ensures ValidDateTime(w.start) && ValidDateTime(w.end)
    ensures w.start.micros == t.micros && w.end.micros == t.micros
    ensures w.start.date.year <= 9999 && w.end.date.year <= 9999
    ensures Weekday(w.start.date) == 0
    ensures Ordinal(w.start.date) <= Ordinal(t.date) < Ordinal(w.start.date) + 7
    ensures Ordinal(w.end.date) == Ordinal(w.start.date) + 6
    ensures w.number >= 1
  {
    var d := t.date;
    var start := MondayOf(d);
    var end := AddDays(start, 6);
    WeekYears(d, start, end);
    var number := WeekNumber(d);
    Week(DateTime(start, t.micros), DateTime(end, t.micros), number, WeekKey(number, start, end))
  }

  /** Whether a day record's date (read at midnight) lies in the week window:
      start_of_week <= day <= end_of_week. */
  predicate InWeek(w: Week, d: Date)
    requires ValidDate(w.start.date) && ValidDate(w.end.date) && ValidDate(d)
  {
    AtOrBefore(w.start, Midnight(d)) && AtOrBefore(Midnight(d), w.end)
  }

  /** Because the window's ends keep the time of day, the Monday that opens the
      window is inside it only when the week was computed exactly at midnight. */
  lemma WeekWindowDays(t: DateTime, d: Date)
    requires ValidDateTime(t) && t.date.year <= 9998 && ValidDate(d)
    ensures var w := WeekOf(t);
      InWeek(w, d) <==>
        Ordinal(w.start.date) + (if t.micros > 0 then 1 else 0) <= Ordinal(d) <= Ordinal(w.end.date)
  {
  }

  /** The text after a key's last ':', as split(':')[-1] picks it. */
  function LastPart(s: string): string {
    var parts := Split(s, ':');
    parts[|parts| - 1]
  }

  /** The two dates of a range text: split on '-', each side stripped and read
      with '%Y.%m.%d'; None where the source raises. */
  function ParseRange(t: string): (r: Option<(Date, Date)>)
    ensures r.Some? ==> ValidDate(r.value.0) && ValidDate(r.value.1)
  {
    var halves := Split(t, '-');
    if |halves| != 2 then None
    else
      var a := ParseDate(Strip(halves[0]));
      var b := ParseDate(Strip(halves[1]));
      if a.Some? && b.Some? then Some((a.value, b.value)) else None
  }

  /** The dates a week key names: the range text after its last ':'. */
  function ParseWeekKey(s: string): (r: Option<(Date, Date)>)
    ensures r.Some? ==> ValidDate(r.value.0) && ValidDate(r.value.1)
  {
    ParseRange(LastPart(s))
  }

  /** The text of a written date: digits and dots, a digit at each end. */
  predicate DateText(a: string) {
    |a| > 0 && IsDigit(a[0]) && IsDigit(a[|a| - 1]) && forall c | c in a :: IsDigit(c) || c == '.'
  }

  lemma WrittenDateIsDateText(d: Date)
    requires ValidDate(d) && d.year <= 9999
    ensures DateText(FormatDate(d))
  {
    FormatDateChars(d);
  }

  /** The part of a week key after its ':' splits on '-' into its two padded date texts. */
  lemma RangeSplit(a: string, b: string)
    requires DateText(a) && DateText(b)
    ensures Split(" " + a + " - " + b, '-') == [" " + a + " ", " " + b]
  {
    var left, right := " " + a + " ", " " + b;
    assert " " + a + " - " + b == left + ['-'] + right;
    assert '-' !in left && '-' !in right;
    SplitOnce(left, right, '-');
  }

  /** Stripping the padded date texts gives the date texts back. */
  lemma RangeStrip(a: string, b: string)
    requires DateText(a) && DateText(b)
    ensures Strip(" " + a + " ") == a && Strip(" " + b) == b
  {
    StripSurrounded(" ", a, " ");
    StripSurrounded(" ", b, "");
    assert " " + b + "" == " " + b;
  }

  /** A week key has exactly one ':', right after the week number. */
  lemma WeekKeyTail(number: nat, start: Date, end: Date)
    requires ValidDate(start) && start.year <= 9999
    requires ValidDate(end) && end.year <= 9999
    ensures LastPart(WeekKey(number, start, end)) == RangeText(start, end)
  {
    var a, b := FormatDate(start), FormatDate(end);
    WrittenDateIsDateText(start);
    WrittenDateIsDateText(end);
    var n := NatToString(number);
    var head, tail := "W" + n, RangeText(start, end);
    assert WeekKey(number, start, end) == head + [':'] + tail;
    assert ':' !in head by {
      forall c | c in head ensures c != ':' {
        if c != 'W' { assert c in n; }
      }
    }
    assert ':' !in tail;
    SplitOnce(head, tail, ':');
  }

  /** Reading a range text recovers the two dates it was written from. */
  lemma RangeRoundTrip(start: Date, end: Date)
    requires ValidDate(start) && start.year <= 9999
    requires ValidDate(end) && end.year <= 9999
    ensures ParseRange(RangeText(start, end)) == Some((start, end))
  {
    var a, b := FormatDate(start), FormatDate(end);
    WrittenDateIsDateText(start);
    WrittenDateIsDateText(end);
    RangeSplit(a, b);
    RangeStrip(a, b);
    ParseFormat(start);
    ParseFormat(end);
  }

  /** Reading a week key recovers exactly the start and end it was written from. */
  lemma WeekKeyRoundTrip(number: nat, start: Date, end: Date)
    requires ValidDate(start) && start.year <= 9999
    requires ValidDate(end) && end.year <= 9999
    ensures ParseWeekKey(WeekKey(number, start, end)) == Some((start, end))
  {
    WeekKeyTail(number, start, end);
    RangeRoundTrip(start, end);
  }

  /** The first and last day of quarter `number` of year y. */
  function QuarterBounds(y: int, number: int): (b: (Date, Date))
    requires 1 <= y <= 9999 && 1 <= number <= 4
    ensures ValidDate(b.0) && ValidDate(b.1) && b.0.year == y && b.1.year == y
    ensures b.0.month == 3 * number - 2 && b.0.day == 1
    ensures b.1.month == 3 * number && b.1.day == DaysInMonth(y, b.1.month)
  {
    match number
    case 1 => (Date(y, 1, 1), Date(y, 3, 31))
    case 2 => (Date(y, 4, 1), Date(y, 6, 30))
    case 3 => (Date(y, 7, 1), Date(y, 9, 30))
    case _ => (Date(y, 10, 1), Date(y, 12, 31))
  }

  /** The quarter holding a date, with the bounds calculate_quarter_rewards picks
      by quarter number and its f"Q{quarter}: {start} - {end}" key. */
  function QuarterOf(today: Date): (q: Quarter)
    requires ValidDate(today) && today.year <= 9999
    ensures 1 <= q.number <= 4 && q.number == (today.month - 1) / 3 + 1
    ensures ValidDate(q.start) && ValidDate(q.end)
    ensures q.start.year == today.year && q.end.year == today.year
    ensures q.start.month == QuarterFirstMonth(today.month) && q.start.day == 1
    ensures Ordinal(q.start) <= Ordinal(today) <= Ordinal(q.end)
  {
    var number := (today.month - 1) / 3 + 1;
    var bounds := QuarterBounds(today.year, number);
    SameYearOrder(bounds.0, today);
    SameYearOrder(today, bounds.1);
    Quarter(number, bounds.0, bounds.1,
            "Q" + NatToString(number) + ":" + RangeText(bounds.0, bounds.1))
  }

  /** Whether a week's two dates both lie within the quarter's bounds. */
  predicate WeekInQuarter(q: Quarter, ws: Date, we: Date)
    requires ValidDate(q.start) && ValidDate(q.end) && ValidDate(ws) && ValidDate(we)
  {
    Ordinal(q.start) <= Ordinal(ws) <= Ordinal(q.end) && Ordinal(q.start) <= Ordinal(we) <= Ordinal(q.end)
  }
}
