/**
 * `_parse_date`, `_parse_time` and `_parse_datetime`. Each `strptime` format
 * the scraper tries is a small recogniser over the stripped string, written
 * from the regular expression that CPython's `_strptime` builds for it: a
 * space in a format stands for one or more whitespace characters, month
 * names match without regard to case, and the string must match to its end.
 */
module DateParsing {
  import opened Text
  import opened Wrappers
  import opened CivilTime
  import opened Season

  // ---------------------------------------------------------------------
  // Numeric fields
  // ---------------------------------------------------------------------

  /**
   * One digit no smaller than `lo`, or two digits whose value lies in
   * `lo..hi`. With (lo, hi) = (1, 12) this is `%m` and `%I`
   * (`1[0-2]|0[1-9]|[1-9]`), with (0, 23) `%H` (`2[0-3]|[0-1]\d|\d`), with
   * (0, 59) `%M` (`[0-5]\d|\d`) and the seconds that `datetime` accepts.
   */
  function SmallNumber(t: string, lo: int, hi: int): (r: Option<int>)
    requires 0 <= lo <= 9 <= hi <= 99
    ensures r.Some? ==> lo <= r.value <= hi
    ensures r.Some? <==> 1 <= |t| <= 2 && AllDigits(t) && lo <= DigitsValue(t) <= hi
    ensures r.Some? ==> r.value == DigitsValue(t)
  {
    DigitsValueShort(t);
    if |t| == 1 && IsDigit(t[0]) && lo <= DigitValue(t[0]) then Some(DigitValue(t[0]))
    else if |t| == 2 && IsDigit(t[0]) && IsDigit(t[1]) && lo <= 10 * DigitValue(t[0]) + DigitValue(t[1]) <= hi then
      Some(10 * DigitValue(t[0]) + DigitValue(t[1]))
    else None
  }

  /** `%d`: `3[01]|[12]\d|0[1-9]|[1-9]| [1-9]`, a day 1..31. */
  function DayField(t: string): (r: Option<int>)
    ensures r.Some? ==> 1 <= r.value <= 31
  {
    if |t| == 2 && t[0] == ' ' then SmallNumber(t[1..], 1, 31) else SmallNumber(t, 1, 31)
  }

  /** `%Y`: exactly four digits. */
  function YearField(t: string): (r: Option<int>)
    ensures r.Some? ==> 0 <= r.value <= 9999
  {
    if |t| == 4 && AllDigits(t) then DigitsValueFour(t); Some(DigitsValue(t)) else None
  }

  // ---------------------------------------------------------------------
  // Dates
  // ---------------------------------------------------------------------

  /** The names `%b` accepts, lower-cased; `%b` ignores case. */
  const AbbrevNames: seq<string> :=
    ["jan", "feb", "mar", "apr", "may", "jun", "jul", "aug", "sep", "oct", "nov", "dec"]

  /** The names `%B` accepts, lower-cased; `%B` ignores case. */
  const FullNames: seq<string> :=
    ["january", "february", "march", "april", "may", "june", "july", "august",
     "september", "october", "november", "december"]

  /** `s` starts with the name `n`, in any case, followed by whitespace: `name\s+` matching at the start. */
  predicate NameStarts(n: string, s: string) {
    |n| < |s| && Lower(s[..|n|]) == n && IsSpace(s[|n|])
  }

  /**
   * The month whose name (some `names[k]`, from `k` on) starts `s` and is
   * followed by whitespace, as the pattern `name\s+` finds it.
   */
  function MonthByName(names: seq<string>, s: string, k: nat): (r: Option<int>)
    requires |names| == 12 && k <= 12
    ensures r.Some? ==> k + 1 <= r.value <= 12
    ensures r.Some? ==> NameStarts(names[r.value - 1], s)
    decreases 12 - k
  {
    if k == 12 then None
    else
      var n := names[k];
      if NameStarts(n, s) then Some(k + 1)
      else MonthByName(names, s, k + 1)
  }

  /** `name\s+%d` matched against the whole of `s`: the month number and the day. */
  function MonthAndDay(names: seq<string>, s: string): (r: Option<(int, int)>)
    requires |names| == 12
    ensures r.Some? ==> 1 <= r.value.0 <= 12 && 1 <= r.value.1 <= 31
    ensures r.Some? ==> NameStarts(names[r.value.0 - 1], s)
  {
    match MonthByName(names, s, 0)
    case None => None
    case Some(m) =>
      match DayField(TrimStart(s[|names[m - 1]|..]))
      case None => None
      case Some(d) => Some((m, d))
  }

  /**
   * A yearless date given its year by the season split, rejected when that
   * day does not exist in that year or the year is outside 1..9999.
   */
  function YearlessDate(names: seq<string>, s: string, season: SeasonYears): (r: Option<Timestamp>)
    requires |names| == 12
    ensures r.Some? ==> ValidTimestamp(r.value) && r.value.hour == 0 && r.value.minute == 0
    ensures r.Some? ==> r.value.year == InferYear(r.value.month, season)
  {
    match MonthAndDay(names, s)
    case None => None
    case Some((m, d)) =>
      var y := InferYear(m, season);
      if ValidDate(y, m, d) then Some(Timestamp(y, m, d, 0, 0)) else None
  }

  /**
   * The yearless branch as the code has it: `strptime` checks the day
   * against its default year 1900, and only then does `replace` put the
   * season's year in.
   */
  function YearlessDateAsWritten(names: seq<string>, s: string, season: SeasonYears): (r: Option<Timestamp>)
    requires |names| == 12
    ensures r.Some? ==> ValidTimestamp(r.value) && r.value.hour == 0 && r.value.minute == 0
  {
    match MonthAndDay(names, s)
    case None => None
    case Some((m, d)) =>
      var y := InferYear(m, season);
      CommonYearMonths(1900, y, m);
      if ValidDate(1900, m, d) && MinYear <= y <= MaxYear then Some(Timestamp(y, m, d, 0, 0)) else None
  }

  /** The two branches differ on 29 February alone, which the code always rejects. */
  lemma {:induction false} YearlessAsWrittenDiffersOnlyOnLeapDay(names: seq<string>, s: string, season: SeasonYears)
    requires |names| == 12
    ensures MonthAndDay(names, s) != Some((2, 29)) ==>
              YearlessDateAsWritten(names, s, season) == YearlessDate(names, s, season)
    ensures MonthAndDay(names, s) == Some((2, 29)) ==>
              && YearlessDateAsWritten(names, s, season).None?
              && (YearlessDate(names, s, season).Some? <==>
                    var y := InferYear(2, season); MinYear <= y <= MaxYear && IsLeap(y))
  {
    var md := MonthAndDay(names, s);
    if md.Some? {
      var m, d := md.value.0, md.value.1;
      var y := InferYear(m, season);
      assert YearlessDate(names, s, season) == if ValidDate(y, m, d) then Some(Timestamp(y, m, d, 0, 0)) else None;
      assert YearlessDateAsWritten(names, s, season) ==
        if ValidDate(1900, m, d) && MinYear <= y <= MaxYear then Some(Timestamp(y, m, d, 0, 0)) else None;
      LeapDayOnly(y, m, d);
    }
  }

  /** Checking a day against 1900 instead of its own year rejects 29 February and nothing else. */
  lemma LeapDayOnly(y: int, m: int, d: int)
    requires 1 <= m <= 12
    ensures (m, d) != (2, 29) ==> (ValidDate(1900, m, d) && MinYear <= y <= MaxYear <==> ValidDate(y, m, d))
    ensures (m, d) == (2, 29) ==> !ValidDate(1900, m, d) && (ValidDate(y, m, d) <==> MinYear <= y <= MaxYear && IsLeap(y))
  {
    assert !IsLeap(1900);
    CommonYearMonths(1900, y, m);
  }

  /** The field order of a numeric date format. */
  datatype NumericOrder = MonthDayYear | YearMonthDay | DayMonthYear

  /** The year, month and day fields of `a<sep>b<sep>c` in the given order. */
  function FieldsInOrder(a: string, b: string, c: string, order: NumericOrder): (r: (string, string, string))
    ensures multiset{r.0, r.1, r.2} == multiset{a, b, c}
  {
    match order
    case MonthDayYear => (c, a, b)
    case YearMonthDay => (a, b, c)
    case DayMonthYear => (c, b, a)
  }

  /** A numeric date `a<sep>b<sep>c` read in the given field order. */
  function NumericDate(s: string, sep: char, order: NumericOrder): (r: Option<Timestamp>)
    ensures r.Some? ==> ValidTimestamp(r.value) && r.value.hour == 0 && r.value.minute == 0
  {
    var parts := SplitOn(s, sep);
    if |parts| != 3 then None
    else
      var (yt, mt, dt) := FieldsInOrder(parts[0], parts[1], parts[2], order);
      match (YearField(yt), SmallNumber(mt, 1, 12), DayField(dt))
      case (Some(y), Some(m), Some(d)) =>
        if ValidDate(y, m, d) then Some(Timestamp(y, m, d, 0, 0)) else None
      case _ => None
  }

  /** The formats `_parse_date` tries. */
  datatype DateFormat =
    | MonthAbbrevDay      // "%b %d"
    | MonthNameDay        // "%B %d"
    | MonthDayYearSlash   // "%m/%d/%Y"
    | YearMonthDayDash    // "%Y-%m-%d"
    | DayMonthYearSlash   // "%d/%m/%Y"
    | MonthDayYearDash    // "%m-%d-%Y"

  const YearlessFormats: seq<DateFormat> := [MonthAbbrevDay, MonthNameDay]
  const NumericFormats: seq<DateFormat> :=
    [MonthDayYearSlash, YearMonthDayDash, DayMonthYearSlash, MonthDayYearDash]

  /** `strptime(s, fmt)` for one format, on the stripped string; a yearless date gets its year from the season. */
  function TryDateFormat(fmt: DateFormat, s: string, season: SeasonYears): (r: Option<Timestamp>)
    ensures r.Some? ==> ValidTimestamp(r.value) && r.value.hour == 0 && r.value.minute == 0
    ensures r.Some? && (fmt == MonthAbbrevDay || fmt == MonthNameDay) ==> r.value.year == InferYear(r.value.month, season)
  {
    match fmt
    case MonthAbbrevDay => YearlessDate(AbbrevNames, s, season)
    case MonthNameDay => YearlessDate(FullNames, s, season)
    case MonthDayYearSlash => NumericDate(s, '/', MonthDayYear)
    case YearMonthDayDash => NumericDate(s, '-', YearMonthDay)
    case DayMonthYearSlash => NumericDate(s, '/', DayMonthYear)
    case MonthDayYearDash => NumericDate(s, '-', MonthDayYear)
  }

  /** The result of the first format in `fmts` that accepts `s`. */
  function DateFromFormats(fmts: seq<DateFormat>, s: string, season: SeasonYears): (r: Option<Timestamp>)
    ensures r.Some? ==> ValidTimestamp(r.value) && r.value.hour == 0 && r.value.minute == 0
  {
    if |fmts| == 0 then None
    else
      var first := TryDateFormat(fmts[0], s, season);
      if first.Some? then first else DateFromFormats(fmts[1..], s, season)
  }

  /** No format accepts exactly when the formats together give nothing. */
  lemma {:induction false} DateFromFormatsNone(fmts: seq<DateFormat>, s: string, season: SeasonYears)
    ensures DateFromFormats(fmts, s, season).None? <==>
      forall i :: 0 <= i < |fmts| ==> TryDateFormat(fmts[i], s, season).None?
  {
    if |fmts| > 0 {
      var rest := fmts[1..];
      DateFromFormatsNone(rest, s, season);
      assert forall i :: 0 < i < |fmts| ==> fmts[i] == rest[i - 1];
    }
  }

  /** The formats are tried in order: the result is that of the first format that accepts. */
  lemma {:induction false} DateFromFormatsFirst(fmts: seq<DateFormat>, i: nat, s: string, season: SeasonYears)
    requires i < |fmts| && TryDateFormat(fmts[i], s, season).Some?
    requires forall j :: 0 <= j < i ==> TryDateFormat(fmts[j], s, season).None?
    ensures DateFromFormats(fmts, s, season) == TryDateFormat(fmts[i], s, season)
  {
    if i > 0 {
      var rest := fmts[1..];
      assert forall j :: 0 <= j < i - 1 ==> rest[j] == fmts[j + 1];
      DateFromFormatsFirst(rest, i - 1, s, season);
    }
  }



  /** What `_parse_date(date_str, fall_year, spring_year)` returns. */
  function ParseDateText(dateStr: string, season: SeasonYears): Option<Timestamp> {
    DateFromFormats(YearlessFormats + NumericFormats, Strip(dateStr), season)
  }

  /** Trying the formats of `a + b` is trying those of `a`, then, if none accepts, those of `b`. */
  lemma {:induction false} DateFromFormatsAppend(a: seq<DateFormat>, b: seq<DateFormat>, s: string, season: SeasonYears)
    ensures DateFromFormats(a + b, s, season) ==
      if DateFromFormats(a, s, season).Some? then DateFromFormats(a, s, season) else DateFromFormats(b, s, season)
  {
    if |a| == 0 {
      assert a + b == b;
    } else {
      assert (a + b)[0] == a[0];
      assert (a + b)[1..] == a[1..] + b;
      DateFromFormatsAppend(a[1..], b, s, season);
    }
  }

  /** One `for fmt in ...: try strptime` loop of `_parse_date`: the first format that accepts. */
  method TryDateFormats(fmts: seq<DateFormat>, s: string, season: SeasonYears) returns (r: Option<Timestamp>)
    ensures r == DateFromFormats(fmts, s, season)
  {
    var i := 0;
    while i < |fmts|
      invariant 0 <= i <= |fmts|
      invariant DateFromFormats(fmts, s, season) == DateFromFormats(fmts[i..], s, season)
    {
      var d := TryDateFormat(fmts[i], s, season);
      if d.Some? {
        return d;
      }
      assert fmts[i..][1..] == fmts[i + 1..];
      i := i + 1;
    }
    return None;
  }

  /** `_parse_date`: the yearless formats in order, then the numeric formats in order. */
  method ParseDate(dateStr: string, season: SeasonYears) returns (r: Option<Timestamp>)
    ensures r == ParseDateText(dateStr, season)
  {
    var s := Strip(dateStr);
    DateFromFormatsAppend(YearlessFormats, NumericFormats, s, season);
    r := TryDateFormats(YearlessFormats, s, season);
    if r.Some? {
      return r;
    }
    r := TryDateFormats(NumericFormats, s, season);
  }

  // ---------------------------------------------------------------------
  // Times
  // ---------------------------------------------------------------------

  /** `%p` on an upper-cased string: `Some(false)` for AM, `Some(true)` for PM. */
  function Meridiem(t: string): Option<bool> {
    if t == "AM" then Some(false) else if t == "PM" then Some(true) else None
  }

  /** How `strptime` turns `%I` and `%p` into an hour: 12 AM is hour 0, 12 PM hour 12. */
  function To24(h12: int, pm: bool): (h: int)
    requires 1 <= h12 <= 12
    ensures 0 <= h <= 23
    ensures pm <==> h >= 12
    ensures h % 12 == h12 % 12
  {
    if pm then (if h12 == 12 then 12 else h12 + 12)
    else (if h12 == 12 then 0 else h12)
  }

  /** `X\s+Y`: the text before the first whitespace and the text after the whitespace run. */
  function SpaceSplit(t: string): Option<(string, string)> {
    var i := IndexOfSpace(t);
    if i == |t| then None else Some((t[..i], TrimStart(t[i..])))
  }

  /** Text without whitespace, a space, then text that starts with no whitespace. */
  lemma SpaceSplitOf(a: string, p: string)
    requires forall i :: 0 <= i < |a| ==> !IsSpace(a[i])
    requires |p| > 0 && !IsSpace(p[0])
    ensures SpaceSplit(a + " " + p) == Some((a, p))
  {
    var u := a + " " + p;
    IndexOfSpaceAfter(a, p);
    assert u[..|a|] == a;
    assert u[|a|..] == " " + p;
    assert TrimStart(" " + p) == p;
  }

  /** The formats `_parse_time` tries. */
  datatype TimeFormat =
    | ClockSpaceMeridiem    // "%I:%M %p"
    | ClockMeridiem         // "%I:%M%p"
    | Clock24               // "%H:%M"
    | HourSpaceMeridiem     // "%I %p"
    | SecondsSpaceMeridiem  // "%I:%M:%S %p"

  const TimeFormats: seq<TimeFormat> :=
    [ClockSpaceMeridiem, ClockMeridiem, Clock24, HourSpaceMeridiem, SecondsSpaceMeridiem]

  /** `%I:%M %p`: hour, colon, minute, whitespace, marker. */
  function ClockSpaceMeridiemTime(u: string): (r: Option<(int, int)>)
    ensures r.Some? ==> ValidClock(r.value.0, r.value.1)
  {
    var parts := SplitOn(u, ':');
    if |parts| != 2 then None
    else
      match SpaceSplit(parts[1])
      case None => None
      case Some((mt, pt)) =>
        match (SmallNumber(parts[0], 1, 12), SmallNumber(mt, 0, 59), Meridiem(pt))
        case (Some(h), Some(m), Some(pm)) => Some((To24(h, pm), m))
        case _ => None
  }

  /** `%I:%M%p`: hour, colon, minute, marker with nothing between. */
  function ClockMeridiemTime(u: string): (r: Option<(int, int)>)
    ensures r.Some? ==> ValidClock(r.value.0, r.value.1)
  {
    var parts := SplitOn(u, ':');
    if |parts| != 2 || |parts[1]| < 2 then None
    else
      var rest := parts[1];
      match (SmallNumber(parts[0], 1, 12), SmallNumber(rest[..|rest| - 2], 0, 59), Meridiem(rest[|rest| - 2..]))
      case (Some(h), Some(m), Some(pm)) => Some((To24(h, pm), m))
      case _ => None
  }

  /** `%H:%M`: 24-hour hour, colon, minute. */
  function Clock24Time(u: string): (r: Option<(int, int)>)
    ensures r.Some? ==> ValidClock(r.value.0, r.value.1)
  {
    var parts := SplitOn(u, ':');
    if |parts| != 2 then None
    else
      match (SmallNumber(parts[0], 0, 23), SmallNumber(parts[1], 0, 59))
      case (Some(h), Some(m)) => Some((h, m))
      case _ => None
  }

  /** `%I %p`: hour, whitespace, marker; the minute is 0. */
  function HourSpaceMeridiemTime(u: string): (r: Option<(int, int)>)
    ensures r.Some? ==> ValidClock(r.value.0, r.value.1)
  {
    match SpaceSplit(u)
    case None => None
    case Some((ht, pt)) =>
      match (SmallNumber(ht, 1, 12), Meridiem(pt))
      case (Some(h), Some(pm)) => Some((To24(h, pm), 0))
      case _ => None
  }

  /** `%I:%M:%S %p`: the seconds are checked and then dropped. */
  function SecondsSpaceMeridiemTime(u: string): (r: Option<(int, int)>)
    ensures r.Some? ==> ValidClock(r.value.0, r.value.1)
  {
    var parts := SplitOn(u, ':');
    if |parts| != 3 then None
    else
      match SpaceSplit(parts[2])
      case None => None
      case Some((st, pt)) =>
        match (SmallNumber(parts[0], 1, 12), SmallNumber(parts[1], 0, 59), SmallNumber(st, 0, 59), Meridiem(pt))
        case (Some(h), Some(m), Some(_), Some(pm)) => Some((To24(h, pm), m))
        case _ => None
  }

  /** `strptime(u, fmt)` for one format, on the stripped, upper-cased string: the hour and minute. */
  function TryTimeFormat(fmt: TimeFormat, u: string): (r: Option<(int, int)>)
    ensures r.Some? ==> ValidClock(r.value.0, r.value.1)
  {
    match fmt
    case ClockSpaceMeridiem => ClockSpaceMeridiemTime(u)
    case ClockMeridiem => ClockMeridiemTime(u)
    case Clock24 => Clock24Time(u)
    case HourSpaceMeridiem => HourSpaceMeridiemTime(u)
    case SecondsSpaceMeridiem => SecondsSpaceMeridiemTime(u)
  }

  /** The result of the first format in `fmts` that accepts `u`. */
  function TimeFromFormats(fmts: seq<TimeFormat>, u: string): (r: Option<(int, int)>)
    ensures r.Some? ==> ValidClock(r.value.0, r.value.1)
  {
    if |fmts| == 0 then None
    else
      var first := TryTimeFormat(fmts[0], u);
      if first.Some? then first else TimeFromFormats(fmts[1..], u)
  }

  /** No format accepts exactly when the formats together give nothing. */
  lemma {:induction false} TimeFromFormatsNone(fmts: seq<TimeFormat>, u: string)
    ensures TimeFromFormats(fmts, u).None? <==> forall i :: 0 <= i < |fmts| ==> TryTimeFormat(fmts[i], u).None?
  {
    if |fmts| > 0 {
      var rest := fmts[1..];
      TimeFromFormatsNone(rest, u);
      assert forall i :: 0 < i < |fmts| ==> fmts[i] == rest[i - 1];
    }
  }

  /** The formats are tried in order: the result is that of the first format that accepts. */
  lemma {:induction false} TimeFromFormatsFirst(fmts: seq<TimeFormat>, i: nat, u: string)
    requires i < |fmts| && TryTimeFormat(fmts[i], u).Some?
    requires forall j :: 0 <= j < i ==> TryTimeFormat(fmts[j], u).None?
    ensures TimeFromFormats(fmts, u) == TryTimeFormat(fmts[i], u)
  {
    if i > 0 {
      var rest := fmts[1..];
      assert forall j :: 0 <= j < i - 1 ==> rest[j] == fmts[j + 1];
      TimeFromFormatsFirst(rest, i - 1, u);
    }
  }



  /** What `_parse_time(time_str)` returns. */
  function ParseTimeText(timeStr: string): Option<(int, int)> {
    TimeFromFormats(TimeFormats, Upper(Strip(timeStr)))
  }

  /** `_parse_time`: the formats in order, on `time_str.strip().upper()`. */
  method ParseTime(timeStr: string) returns (r: Option<(int, int)>)
    ensures r == ParseTimeText(timeStr)
    ensures r.Some? ==> 0 <= r.value.0 <= 23 && 0 <= r.value.1 <= 59
  {
    var u := Upper(Strip(timeStr));
    var i := 0;
    while i < |TimeFormats|
      invariant 0 <= i <= |TimeFormats|
      invariant ParseTimeText(timeStr) == TimeFromFormats(TimeFormats[i..], u)
    {
      var t := TryTimeFormat(TimeFormats[i], u);
      if t.Some? {
        return t;
      }
      assert TimeFormats[i..][1..] == TimeFormats[i + 1..];
      i := i + 1;
    }
    return None;
  }

  // ---------------------------------------------------------------------
  // Date and time together
  // ---------------------------------------------------------------------

  /**
   * `_parse_datetime`: `None` exactly when the date does not parse; an empty
   * or unparseable time leaves the date at midnight, a parseable one sets
   * the hour and minute and nothing else.
   */
  function ParseDateTime(dateStr: string, timeStr: string, season: SeasonYears): (r: Option<Timestamp>)
    ensures r.None? <==> ParseDateText(dateStr, season).None?
    ensures r.Some? ==> ValidTimestamp(r.value)
    ensures r.Some? ==> var d := ParseDateText(dateStr, season).value;
      r.value.year == d.year && r.value.month == d.month && r.value.day == d.day
    ensures r.Some? && (timeStr == "" || ParseTimeText(timeStr).None?) ==>
      r.value.hour == 0 && r.value.minute == 0
    ensures r.Some? && timeStr != "" && ParseTimeText(timeStr).Some? ==>
      (r.value.hour, r.value.minute) == ParseTimeText(timeStr).value
  {
    match ParseDateText(dateStr, season)
    case None => None
    case Some(d) =>
      if timeStr == "" then Some(d)
      else
        match ParseTimeText(timeStr)
        case Some((h, m)) => Some(d.(hour := h, minute := m))
        case None => Some(d)
  }

  // ---------------------------------------------------------------------
  // The leap-day branch as written, used only to exhibit the difference
  // ---------------------------------------------------------------------

  /** `_parse_date` as the code has it: both yearless formats check the day against the year 1900. */
  function ParseDateTextAsWritten(dateStr: string, season: SeasonYears): (r: Option<Timestamp>)
    ensures r.Some? ==> ValidTimestamp(r.value)
  {
    var s := Strip(dateStr);
    match YearlessDateAsWritten(AbbrevNames, s, season)
    case Some(t) => Some(t)
    case None =>
      match YearlessDateAsWritten(FullNames, s, season)
      case Some(t) => Some(t)
      case None => DateFromFormats(NumericFormats, s, season)
  }
}
