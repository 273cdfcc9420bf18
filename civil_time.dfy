/**
 * The part of Python's `datetime` that the scraper uses: naive wall-clock
 * timestamps in the proleptic Gregorian calendar, the validity rules of the
 * `datetime` constructor, `datetime + timedelta(hours=n)`, comparison, and
 * `strftime('%Y%m%dT%H%M%S')`. Seconds are always zero in this program (no
 * parser sets them), so a timestamp carries none.
 */
module CivilTime {
  import opened Text
  import opened Wrappers

  datatype Timestamp = Timestamp(year: int, month: int, day: int, hour: int, minute: int)

  /** `datetime.MINYEAR` and `datetime.MAXYEAR` */
  const MinYear := 1
  const MaxYear := 9999

  predicate IsLeap(y: int) {
    y % 4 == 0 && (y % 100 != 0 || y % 400 == 0)
  }

  function DaysInMonth(y: int, m: int): (n: int)
    requires 1 <= m <= 12
    ensures 28 <= n <= 31
    ensures n == 29 <==> m == 2 && IsLeap(y)
  {
    if m == 2 then (if IsLeap(y) then 29 else 28)
    else if m == 4 || m == 6 || m == 9 || m == 11 then 30
    else 31
  }

  /** A common year's months are no longer than any year's, and only February differs. */
  lemma CommonYearMonths(c: int, y: int, m: int)
    requires 1 <= m <= 12 && !IsLeap(c)
    ensures DaysInMonth(c, m) <= DaysInMonth(y, m)
    ensures m != 2 ==> DaysInMonth(c, m) == DaysInMonth(y, m)
    ensures m == 2 ==> DaysInMonth(c, m) == 28
  {
  }

  /** Month and day in range for year `y`, whatever the year. */
  predicate DayFields(y: int, m: int, d: int) {
    1 <= m <= 12 && 1 <= d <= DaysInMonth(y, m)
  }

  /** What `date(y, m, d)` accepts without raising `ValueError`. */
  predicate ValidDate(y: int, m: int, d: int) {
    MinYear <= y <= MaxYear && DayFields(y, m, d)
  }

  predicate ValidClock(h: int, min: int) {
    0 <= h <= 23 && 0 <= min <= 59
  }

  predicate DateFieldsOf(t: Timestamp) {
    DayFields(t.year, t.month, t.day)
  }

  predicate ValidTimestamp(t: Timestamp) {
    ValidDate(t.year, t.month, t.day) && ValidClock(t.hour, t.minute)
  }

  /** Days before 1 January of year `y`, counted from 1 January of year 1. */
  function DaysBeforeYear(y: int): int {
    var p := y - 1;
    365 * p + p / 4 - p / 100 + p / 400
  }

  function DaysBeforeMonth(y: int, m: int): (n: int)
    requires 1 <= m <= 12
    ensures n >= 0
  {
    if m == 1 then 0 else DaysBeforeMonth(y, m - 1) + DaysInMonth(y, m - 1)
  }

  /** `date.toordinal()`: 1 January of year 1 is day 1. */
  function DayNumber(t: Timestamp): int
    requires DateFieldsOf(t)
  {
    DaysBeforeYear(t.year) + DaysBeforeMonth(t.year, t.month) + t.day
  }

  /** Minutes since the start of day 0: the instant a wall-clock timestamp names. */
  function ToMinutes(t: Timestamp): int
    requires DateFieldsOf(t)
  {
    (DayNumber(t) * 24 + t.hour) * 60 + t.minute
  }

  lemma DivStep(y: int)
    ensures y / 4 - (y - 1) / 4 == (if y % 4 == 0 then 1 else 0)
    ensures y / 100 - (y - 1) / 100 == (if y % 100 == 0 then 1 else 0)
    ensures y / 400 - (y - 1) / 400 == (if y % 400 == 0 then 1 else 0)
  {
  }

  lemma LeapDivisors(y: int)
    ensures y % 400 == 0 ==> y % 100 == 0
    ensures y % 100 == 0 ==> y % 4 == 0
  {
    if y % 400 == 0 {
      var q := y / 400;
      assert y == 100 * (4 * q);
    }
    if y % 100 == 0 {
      var q := y / 100;
      assert y == 4 * (25 * q);
    }
  }

  lemma DaysBeforeDecember(y: int)
    ensures DaysBeforeMonth(y, 12) == 334 + (if IsLeap(y) then 1 else 0)
  {
    var f := if IsLeap(y) then 1 else 0;
    assert DaysBeforeMonth(y, 2) == 31;
    assert DaysBeforeMonth(y, 3) == 59 + f;
    assert DaysBeforeMonth(y, 4) == 90 + f;
    assert DaysBeforeMonth(y, 5) == 120 + f;
    assert DaysBeforeMonth(y, 6) == 151 + f;
    assert DaysBeforeMonth(y, 7) == 181 + f;
    assert DaysBeforeMonth(y, 8) == 212 + f;
    assert DaysBeforeMonth(y, 9) == 243 + f;
    assert DaysBeforeMonth(y, 10) == 273 + f;
    assert DaysBeforeMonth(y, 11) == 304 + f;
  }

  /** A year has 365 days, 366 in a leap year, and the day count runs on across New Year. */
  lemma YearLength(y: int)
    ensures DaysBeforeYear(y + 1) == DaysBeforeYear(y) + DaysBeforeMonth(y, 12) + 31
  {
    DivStep(y);
    LeapDivisors(y);
    DaysBeforeDecember(y);
  }

  /** The calendar day after `t`, at the same time of day. */
  function NextDay(t: Timestamp): (r: Timestamp)
    requires DateFieldsOf(t)
    ensures DateFieldsOf(r) && r.hour == t.hour && r.minute == t.minute
    ensures DayNumber(r) == DayNumber(t) + 1
  {
    if t.day < DaysInMonth(t.year, t.month) then
      NextDayInMonth(t); t.(day := t.day + 1)
    else if t.month < 12 then
      NextDayNextMonth(t); t.(month := t.month + 1, day := 1)
    else
      NextDayNextYear(t); t.(year := t.year + 1, month := 1, day := 1)
  }

  lemma NextDayInMonth(t: Timestamp)
    requires DateFieldsOf(t) && t.day < DaysInMonth(t.year, t.month)
    ensures DayNumber(t.(day := t.day + 1)) == DayNumber(t) + 1
  {
  }

  lemma NextDayNextMonth(t: Timestamp)
    requires DateFieldsOf(t) && t.month < 12
    requires t.day == DaysInMonth(t.year, t.month)
    ensures DayNumber(t.(month := t.month + 1, day := 1)) == DayNumber(t) + 1
  {
    assert DaysBeforeMonth(t.year, t.month + 1) == DaysBeforeMonth(t.year, t.month) + t.day;
  }

  lemma NextDayNextYear(t: Timestamp)
    requires DateFieldsOf(t) && t.month == 12 && t.day == 31
    ensures DayNumber(t.(year := t.year + 1, month := 1, day := 1)) == DayNumber(t) + 1
  {
    YearLength(t.year);
  }

  /** The calendar day before `t`, at the same time of day. */
  function PrevDay(t: Timestamp): (r: Timestamp)
    requires DateFieldsOf(t)
    ensures DateFieldsOf(r) && r.hour == t.hour && r.minute == t.minute
    ensures DayNumber(r) == DayNumber(t) - 1
  {
    if t.day > 1 then
      PrevDayInMonth(t); t.(day := t.day - 1)
    else if t.month > 1 then
      PrevDayPrevMonth(t); t.(month := t.month - 1, day := DaysInMonth(t.year, t.month - 1))
    else
      PrevDayPrevYear(t); t.(year := t.year - 1, month := 12, day := 31)
  }

  lemma PrevDayInMonth(t: Timestamp)
    requires DateFieldsOf(t) && t.day > 1
    ensures DayNumber(t.(day := t.day - 1)) == DayNumber(t) - 1
  {
  }

  lemma PrevDayPrevMonth(t: Timestamp)
    requires DateFieldsOf(t) && t.month > 1 && t.day == 1
    ensures DayNumber(t.(month := t.month - 1, day := DaysInMonth(t.year, t.month - 1))) == DayNumber(t) - 1
  {
    assert DaysBeforeMonth(t.year, t.month) == DaysBeforeMonth(t.year, t.month - 1) + DaysInMonth(t.year, t.month - 1);
  }

  lemma PrevDayPrevYear(t: Timestamp)
    requires DateFieldsOf(t) && t.month == 1 && t.day == 1
    ensures DayNumber(t.(year := t.year - 1, month := 12, day := 31)) == DayNumber(t) - 1
  {
    YearLength(t.year - 1);
  }

  /** `k` calendar days after `t` (before it when `k` is negative), at the same time of day. */
  function AddDays(t: Timestamp, k: int): (r: Timestamp)
    requires DateFieldsOf(t)
    ensures DateFieldsOf(r) && r.hour == t.hour && r.minute == t.minute
    ensures DayNumber(r) == DayNumber(t) + k
    decreases if k >= 0 then k else -k
  {
    if k == 0 then t
    else if k > 0 then AddDays(NextDay(t), k - 1)
    else AddDays(PrevDay(t), k + 1)
  }

  /** The wall-clock timestamp `h` hours after `t`, with no bound on the year. */
  function ShiftHours(t: Timestamp, h: int): (r: Timestamp)
    requires DateFieldsOf(t) && ValidClock(t.hour, t.minute)
    ensures DateFieldsOf(r) && ValidClock(r.hour, r.minute)
    ensures ToMinutes(r) == ToMinutes(t) + 60 * h
  {
    var total := t.hour + h;
    AddDays(t, total / 24).(hour := total % 24)
  }

  /**
   * `t + timedelta(hours=h)`: `None` where Python raises `OverflowError`
   * because the result falls outside years 1..9999.
   */
  function AddHours(t: Timestamp, h: int): (r: Option<Timestamp>)
    requires ValidTimestamp(t)
    ensures r.Some? ==> ValidTimestamp(r.value) && ToMinutes(r.value) == ToMinutes(t) + 60 * h
    ensures r.None? <==> !(MinYear <= ShiftHours(t, h).year <= MaxYear)
  {
    var s := ShiftHours(t, h);
    if MinYear <= s.year <= MaxYear then Some(s) else None
  }

  /** `a <= b` on datetimes that share one time zone: field by field, year first. */
  predicate NoLaterThan(a: Timestamp, b: Timestamp) {
    if a.year != b.year then a.year < b.year
    else if a.month != b.month then a.month < b.month
    else if a.day != b.day then a.day < b.day
    else if a.hour != b.hour then a.hour < b.hour
    else a.minute <= b.minute
  }

  lemma NoLaterThanTotal(a: Timestamp, b: Timestamp)
    ensures NoLaterThan(a, b) || NoLaterThan(b, a)
  {
  }

  lemma NoLaterThanTransitive(a: Timestamp, b: Timestamp, c: Timestamp)
    requires NoLaterThan(a, b) && NoLaterThan(b, c)
    ensures NoLaterThan(a, c)
  {
  }

  lemma DaysBeforeYearStep(y: int)
    ensures DaysBeforeYear(y + 1) == DaysBeforeYear(y) + 365 + (if IsLeap(y) then 1 else 0)
  {
    YearLength(y);
    DaysBeforeDecember(y);
  }

  lemma {:induction false} DaysBeforeYearGrows(y1: int, y2: int)
    requires y1 < y2
    ensures DaysBeforeYear(y1) + 365 <= DaysBeforeYear(y2)
    decreases y2 - y1
  {
    DaysBeforeYearStep(y2 - 1);
    if y1 + 1 < y2 {
      DaysBeforeYearGrows(y1, y2 - 1);
    }
  }

  lemma {:induction false} DaysBeforeMonthGrows(y: int, m1: int, m2: int)
    requires 1 <= m1 < m2 <= 12
    ensures DaysBeforeMonth(y, m1) + DaysInMonth(y, m1) <= DaysBeforeMonth(y, m2)
    decreases m2 - m1
  {
    if m1 + 1 < m2 {
      DaysBeforeMonthGrows(y, m1, m2 - 1);
    }
  }

  /** Every day of year `y` has a day number below the first day of the next year. */
  lemma DayWithinYear(t: Timestamp)
    requires DateFieldsOf(t)
    ensures DaysBeforeYear(t.year) < DayNumber(t) <= DaysBeforeYear(t.year + 1)
  {
    var leap := if IsLeap(t.year) then 1 else 0;
    assert DaysBeforeMonth(t.year, t.month) + DaysInMonth(t.year, t.month) <= 365 + leap by {
      DaysBeforeDecember(t.year);
      if t.month < 12 {
        DaysBeforeMonthGrows(t.year, t.month, 12);
      }
    }
    DaysBeforeYearStep(t.year);
  }

  /** Day numbers follow the calendar order of dates. */
  lemma DayNumberOrder(a: Timestamp, b: Timestamp)
    requires DateFieldsOf(a) && DateFieldsOf(b)
    requires a.year < b.year || (a.year == b.year && (a.month < b.month || (a.month == b.month && a.day < b.day)))
    ensures DayNumber(a) < DayNumber(b)
  {
    if a.year < b.year {
      DayWithinYear(a);
      DayWithinYear(b);
      if a.year + 1 < b.year {
        DaysBeforeYearGrows(a.year + 1, b.year);
      }
    } else if a.month < b.month {
      DaysBeforeMonthGrows(a.year, a.month, b.month);
    }
  }

  /** Within one date, minutes since midnight follow the clock order. */
  lemma SameDateMinutes(a: Timestamp, b: Timestamp)
    requires ValidTimestamp(a) && ValidTimestamp(b)
    requires a.year == b.year && a.month == b.month && a.day == b.day
    ensures ToMinutes(a) - ToMinutes(b) == (a.hour - b.hour) * 60 + a.minute - b.minute
  {
  }

  /** Dates in order give instants in order, whatever the clock times. */
  lemma EarlierDateMinutes(a: Timestamp, b: Timestamp)
    requires ValidTimestamp(a) && ValidTimestamp(b)
    requires a.year < b.year || (a.year == b.year && (a.month < b.month || (a.month == b.month && a.day < b.day)))
    ensures ToMinutes(a) < ToMinutes(b)
  {
    DayNumberOrder(a, b);
    var da, db := DayNumber(a), DayNumber(b);
    assert ToMinutes(a) == da * 1440 + a.hour * 60 + a.minute;
    assert ToMinutes(b) == db * 1440 + b.hour * 60 + b.minute;
    assert da * 1440 + 1440 <= db * 1440;
  }

  /**
   * Comparing timestamps field by field, as datetimes in one zone compare,
   * is comparing the instants they name.
   */
  lemma NoLaterThanIsEarlier(a: Timestamp, b: Timestamp)
    requires ValidTimestamp(a) && ValidTimestamp(b)
    ensures NoLaterThan(a, b) <==> ToMinutes(a) <= ToMinutes(b)
  {
    if a.year == b.year && a.month == b.month && a.day == b.day {
      SameDateMinutes(a, b);
    } else if a.year < b.year || (a.year == b.year && (a.month < b.month || (a.month == b.month && a.day < b.day))) {
      EarlierDateMinutes(a, b);
    } else {
      EarlierDateMinutes(b, a);
    }
  }

  /** `t.strftime('%Y%m%dT%H%M%S')`, the local DATE-TIME form of section 3.3.5 of RFC 5545. */
  function FormatStamp(t: Timestamp): (s: string)
    requires ValidTimestamp(t)
    ensures |s| == 15 && ' ' !in s
  {
    Pad4(t.year) + Pad2(t.month) + Pad2(t.day) + "T" + Pad2(t.hour) + Pad2(t.minute) + "00"
  }

  /** Reads a `YYYYMMDDTHHMMSS` stamp back; the seconds must be `00`. */
  function ParseStamp(s: string): Option<Timestamp> {
    if |s| == 15 && AllDigits(s[..8]) && s[8] == 'T' && AllDigits(s[9..]) && s[13..] == "00" then
      Some(Timestamp(DigitsValue(s[..4]), DigitsValue(s[4..6]), DigitsValue(s[6..8]),
                     DigitsValue(s[9..11]), DigitsValue(s[11..13])))
    else None
  }

  /** The stamp names the timestamp it was made from. */
  lemma ParseFormatStamp(t: Timestamp)
    requires ValidTimestamp(t)
    ensures ParseStamp(FormatStamp(t)) == Some(t)
  {
    var s := FormatStamp(t);
    assert s[..4] == Pad4(t.year);
    assert s[4..6] == Pad2(t.month);
    assert s[6..8] == Pad2(t.day);
    assert s[9..11] == Pad2(t.hour);
    assert s[11..13] == Pad2(t.minute);
    assert s[13..] == "00";
    assert s[..8] == Pad4(t.year) + Pad2(t.month) + Pad2(t.day);
    assert s[9..] == Pad2(t.hour) + Pad2(t.minute) + "00";
    Pad4Value(t.year);
    Pad2Value(t.month);
    Pad2Value(t.day);
    Pad2Value(t.hour);
    Pad2Value(t.minute);
  }

  /** Two valid timestamps with the same stamp are the same timestamp. */
  lemma FormatStampInjective(a: Timestamp, b: Timestamp)
    requires ValidTimestamp(a) && ValidTimestamp(b)
    requires FormatStamp(a) == FormatStamp(b)
    ensures a == b
  {
    ParseFormatStamp(a);
    ParseFormatStamp(b);
  }
}
