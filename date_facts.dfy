/**
 * What the date and time recognisers accept: the forms the schedule site
 * and common exports write parse back to the date and time they name, the
 * formats are tried in the order the code lists them, and the code as
 * written differs from the corrected date parse on 29 February alone.
 */
module DateFacts {
  import opened Text
  import opened Wrappers
  import opened CivilTime
  import opened Season
  import opened DateParsing

  // ---------------------------------------------------------------------
  // The order of the formats
  // ---------------------------------------------------------------------

  /** The numeric formats of `_parse_date`, tried in order. */
  lemma NumericFormatsInOrder(s: string, season: SeasonYears)
    ensures DateFromFormats(NumericFormats, s, season) ==
      if TryDateFormat(MonthDayYearSlash, s, season).Some? then TryDateFormat(MonthDayYearSlash, s, season)
      else if TryDateFormat(YearMonthDayDash, s, season).Some? then TryDateFormat(YearMonthDayDash, s, season)
      else if TryDateFormat(DayMonthYearSlash, s, season).Some? then TryDateFormat(DayMonthYearSlash, s, season)
      else TryDateFormat(MonthDayYearDash, s, season)
  {
    var n1: seq<DateFormat> := [YearMonthDayDash, DayMonthYearSlash, MonthDayYearDash];
    var n2: seq<DateFormat> := [DayMonthYearSlash, MonthDayYearDash];
    var n3: seq<DateFormat> := [MonthDayYearDash];
    assert n3[1..] == [];
    assert DateFromFormats(n3, s, season) == TryDateFormat(MonthDayYearDash, s, season);
    assert n2[1..] == n3;
    assert DateFromFormats(n2, s, season) ==
      if TryDateFormat(DayMonthYearSlash, s, season).Some? then TryDateFormat(DayMonthYearSlash, s, season)
      else DateFromFormats(n3, s, season);
    assert n1[1..] == n2;
    assert DateFromFormats(n1, s, season) ==
      if TryDateFormat(YearMonthDayDash, s, season).Some? then TryDateFormat(YearMonthDayDash, s, season)
      else DateFromFormats(n2, s, season);
    assert NumericFormats[1..] == n1;
  }

  /** The yearless formats of `_parse_date` come first, then the numeric ones. */
  lemma DateFormatsInOrder(s: string, season: SeasonYears)
    ensures DateFromFormats(YearlessFormats + NumericFormats, s, season) ==
      if TryDateFormat(MonthAbbrevDay, s, season).Some? then TryDateFormat(MonthAbbrevDay, s, season)
      else if TryDateFormat(MonthNameDay, s, season).Some? then TryDateFormat(MonthNameDay, s, season)
      else DateFromFormats(NumericFormats, s, season)
  {
    var all := YearlessFormats + NumericFormats;
    var rest := [MonthNameDay] + NumericFormats;
    assert all[1..] == rest;
    assert rest[1..] == NumericFormats;
    assert DateFromFormats(rest, s, season) ==
      if TryDateFormat(MonthNameDay, s, season).Some? then TryDateFormat(MonthNameDay, s, season)
      else DateFromFormats(NumericFormats, s, season);
  }

  /** A date string that `strip()` leaves alone is parsed as it stands. */
  lemma DateTextAsIs(s: string, season: SeasonYears)
    requires |s| > 0 && !IsSpace(s[0]) && !IsSpace(s[|s| - 1])
    ensures ParseDateText(s, season) == DateFromFormats(YearlessFormats + NumericFormats, s, season)
  {
    StripNoop(s);
  }

  /** The same for the date parse as written. */
  lemma DateTextAsIsAsWritten(s: string, season: SeasonYears)
    requires |s| > 0 && !IsSpace(s[0]) && !IsSpace(s[|s| - 1])
    ensures ParseDateTextAsWritten(s, season) ==
      match YearlessDateAsWritten(AbbrevNames, s, season)
      case Some(t) => Some(t)
      case None =>
        match YearlessDateAsWritten(FullNames, s, season)
        case Some(t) => Some(t)
        case None => DateFromFormats(NumericFormats, s, season)
  {
    StripNoop(s);
  }

  // ---------------------------------------------------------------------
  // Month names
  // ---------------------------------------------------------------------

  /** The month abbreviations as the schedule site capitalises them. */
  const SiteAbbrevs: seq<string> :=
    ["Jan", "Feb", "Mar", "Apr", "May", "Jun", "Jul", "Aug", "Sep", "Oct", "Nov", "Dec"]

  lemma AbbrevFacts()
    ensures forall k :: 0 <= k < 12 ==> |SiteAbbrevs[k]| == 3 && Lower(SiteAbbrevs[k]) == AbbrevNames[k]
    ensures forall i, j :: 0 <= i < j < 12 ==> AbbrevNames[i] != AbbrevNames[j]
    ensures forall k :: 0 <= k < 12 ==> IsUpperAscii(SiteAbbrevs[k][0])
  {
  }

  /** The first name that matches is found. */
  lemma {:induction false} MonthByNameFinds(names: seq<string>, s: string, k: nat, m: int)
    requires |names| == 12 && k < m <= 12
    requires NameStarts(names[m - 1], s)
    requires forall j :: k <= j < m - 1 ==>
      !NameStarts(names[j], s)
    ensures MonthByName(names, s, k) == Some(m)
    decreases m - k
  {
    if k < m - 1 {
      MonthByNameFinds(names, s, k + 1, m);
    }
  }

  /** When no name from `k` on matches, there is no month. */
  lemma {:induction false} MonthByNameNone(names: seq<string>, s: string, k: nat)
    requires |names| == 12 && k <= 12
    requires forall j :: k <= j < 12 ==>
      !NameStarts(names[j], s)
    ensures MonthByName(names, s, k).None?
    decreases 12 - k
  {
    if k < 12 {
      MonthByNameNone(names, s, k + 1);
    }
  }

  /** No month name matches a string that does not start with a letter. */
  lemma MonthByNameNeedsLetter(names: seq<string>, s: string)
    requires |names| == 12
    requires forall j :: 0 <= j < 12 ==> |names[j]| > 0 && IsLowerAscii(names[j][0])
    requires |s| > 0 && !IsUpperAscii(s[0]) && !IsLowerAscii(s[0])
    ensures MonthByName(names, s, 0).None?
  {
    forall j | 0 <= j < 12
      ensures !NameStarts(names[j], s)
    {
      var n := names[j];
      if |n| < |s| {
        assert Lower(s[..|n|])[0] == LowerChar(s[0]) == s[0];
      }
    }
    MonthByNameNone(names, s, 0);
  }

  lemma NamesStartWithLetters()
    ensures forall j :: 0 <= j < 12 ==> |AbbrevNames[j]| > 0 && IsLowerAscii(AbbrevNames[j][0])
    ensures forall j :: 0 <= j < 12 ==> |FullNames[j]| > 0 && IsLowerAscii(FullNames[j][0])
  {
  }

  /** A date string that starts with a digit is no yearless date. */
  lemma YearlessNeedsLetter(s: string, season: SeasonYears)
    requires |s| > 0 && IsDigit(s[0])
    ensures TryDateFormat(MonthAbbrevDay, s, season).None?
    ensures TryDateFormat(MonthNameDay, s, season).None?
  {
    NamesStartWithLetters();
    MonthByNameNeedsLetter(AbbrevNames, s);
    MonthByNameNeedsLetter(FullNames, s);
  }


  /** Every full month name but "may" has a letter in its fourth place. */
  lemma FullNameShapes()
    ensures forall j :: 0 <= j < 12 ==> |FullNames[j]| >= 3
    ensures forall j :: 0 <= j < 12 && |FullNames[j]| == 3 ==> FullNames[j] == "may"
    ensures forall j :: 0 <= j < 12 && |FullNames[j]| > 3 ==> IsLowerAscii(FullNames[j][3])
  {
  }

  /** Three characters other than "may" and a space: no full month name matches. */
  lemma FullNamesMiss(s: string)
    requires |s| >= 4 && IsSpace(s[3]) && Lower(s[..3]) != "may"
    ensures MonthByName(FullNames, s, 0).None?
  {
    FullNameShapes();
    forall j | 0 <= j < 12
      ensures !NameStarts(FullNames[j], s)
    {
      var n := FullNames[j];
      if |n| == 3 {
        assert n == "may";
      } else if |n| < |s| {
        assert Lower(s[..|n|])[3] == LowerChar(s[3]);
      }
    }
    MonthByNameNone(FullNames, s, 0);
  }

  // ---------------------------------------------------------------------
  // Dates in the forms the code expects
  // ---------------------------------------------------------------------

  /** No abbreviation before month `m`'s starts a string that starts with month `m`'s. */
  lemma EarlierAbbrevsMiss(s: string, m: int)
    requires 1 <= m <= 12 && |s| > 3 && s[..3] == SiteAbbrevs[m - 1]
    ensures forall j :: 0 <= j < m - 1 ==> !NameStarts(AbbrevNames[j], s)
  {
    AbbrevFacts();
    forall j | 0 <= j < m - 1
      ensures !NameStarts(AbbrevNames[j], s)
    {
      assert AbbrevNames[j] != AbbrevNames[m - 1];
    }
  }

  /** `%b %d` on a string whose first three characters are the site's abbreviation of month `m`. */
  lemma SiteDateFields(s: string, t: string, m: int)
    requires 1 <= m <= 12 && |s| > 3 && s[..3] == SiteAbbrevs[m - 1] && IsSpace(s[3])
    requires TrimStart(s[3..]) == t
    ensures MonthAndDay(AbbrevNames, s) == match DayField(t) case Some(d) => Some((m, d)) case None => None
  {
    AbbrevFacts();
    assert NameStarts(AbbrevNames[m - 1], s);
    EarlierAbbrevsMiss(s, m);
    MonthByNameFinds(AbbrevNames, s, 0, m);
  }

  /** `%b %d` accepts the string, and so it is the parse. */
  lemma SiteDateParses(s: string, m: int, d: int, season: SeasonYears)
    requires 1 <= m <= 12 && MonthAndDay(AbbrevNames, s) == Some((m, d))
    requires ValidDate(InferYear(m, season), m, d)
    ensures DateFromFormats(YearlessFormats + NumericFormats, s, season) ==
      Some(Timestamp(InferYear(m, season), m, d, 0, 0))
  {
    assert TryDateFormat(MonthAbbrevDay, s, season) == Some(Timestamp(InferYear(m, season), m, d, 0, 0));
    DateFormatsInOrder(s, season);
  }

  /** `%b %d` reads the month abbreviation, a space and a day number as that month and day. */
  lemma SiteDateMonthDay(t: string, m: int)
    requires 1 <= m <= 12 && 1 <= |t| <= 2 && AllDigits(t) && 1 <= DigitsValue(t) <= 31
    ensures MonthAndDay(AbbrevNames, SiteAbbrevs[m - 1] + " " + t) == Some((m, DigitsValue(t)))
  {
    var name := SiteAbbrevs[m - 1];
    AbbrevLength(m);
    PrefixSpaceRest(name, t);
    DayDigits(t);
    TrimStartOneSpace(t);
    SiteDateFields(name + " " + t, t, m);
  }

  lemma AbbrevLength(m: int)
    requires 1 <= m <= 12
    ensures |SiteAbbrevs[m - 1]| == 3
  {
  }

  /** One or two digits naming a day 1..31 are a `%d` field, and start with no space. */
  lemma DayDigits(t: string)
    requires 1 <= |t| <= 2 && AllDigits(t) && 1 <= DigitsValue(t) <= 31
    ensures DayField(t) == Some(DigitsValue(t)) && !IsSpace(t[0])
  {
  }

  /** A month abbreviation, a space and a day number begin and end with no space. */
  lemma SiteDateEnds(t: string, m: int)
    requires 1 <= m <= 12 && 1 <= |t| && AllDigits(t)
    ensures var s := SiteAbbrevs[m - 1] + " " + t; |s| > 0 && !IsSpace(s[0]) && !IsSpace(s[|s| - 1])
  {
    var name := SiteAbbrevs[m - 1];
    AbbrevFacts();
    assert !IsSpace(name[0]);
    assert (name + " " + t)[0] == name[0];
    assert (name + " " + t)[|name + " " + t| - 1] == t[|t| - 1];
  }

  /** A string `%b %d` reads as a valid day, with no space at either end, parses to that day. */
  lemma SiteDateOn(s: string, m: int, d: int, season: SeasonYears)
    requires 1 <= m <= 12 && MonthAndDay(AbbrevNames, s) == Some((m, d))
    requires |s| > 0 && !IsSpace(s[0]) && !IsSpace(s[|s| - 1])
    requires ValidDate(InferYear(m, season), m, d)
    ensures ParseDateText(s, season) == Some(Timestamp(InferYear(m, season), m, d, 0, 0))
  {
    DateTextAsIs(s, season);
    SiteDateParses(s, m, d, season);
  }

  /** The month abbreviation, a space and a day number. */
  lemma SiteDateText(t: string, m: int, season: SeasonYears)
    requires 1 <= m <= 12 && 1 <= |t| <= 2 && AllDigits(t) && 1 <= DigitsValue(t) <= 31
    requires ValidDate(InferYear(m, season), m, DigitsValue(t))
    ensures ParseDateText(SiteAbbrevs[m - 1] + " " + t, season) ==
      Some(Timestamp(InferYear(m, season), m, DigitsValue(t), 0, 0))
  {
    SiteDateMonthDay(t, m);
    SiteDateEnds(t, m);
    SiteDateOn(SiteAbbrevs[m - 1] + " " + t, m, DigitsValue(t), season);
  }

  /**
   * The site's own form, "Sep 16" or "Sep 6": the month abbreviation, a
   * space and the day. It parses to that day in the year the season split
   * gives its month.
   */
  lemma SiteDateRoundTrip(m: int, d: int, season: SeasonYears)
    requires 1 <= m <= 12 && 1 <= d <= 31 && ValidDate(InferYear(m, season), m, d)
    ensures ParseDateText(SiteAbbrevs[m - 1] + " " + Decimal2(d), season) ==
      Some(Timestamp(InferYear(m, season), m, d, 0, 0))
  {
    Decimal2Value(d);
    SiteDateText(Decimal2(d), m, season);
  }

  /** The full month names as the schedule site capitalises them. */
  const SiteFullNames: seq<string> :=
    ["January", "February", "March", "April", "May", "June", "July", "August",
     "September", "October", "November", "December"]

  predicate IsLetter(c: char) {
    IsUpperAscii(c) || IsLowerAscii(c)
  }

  predicate AllLetters(s: string) {
    forall i :: 0 <= i < |s| ==> IsLetter(s[i])
  }

  predicate AllLowerLetters(s: string) {
    forall i :: 0 <= i < |s| ==> IsLowerAscii(s[i])
  }

  lemma FullNamesLower()
    ensures forall k :: 0 <= k < 12 ==> Lower(SiteFullNames[k]) == FullNames[k]
  {
  }

  lemma FullNamesDistinct()
    ensures forall i, j :: 0 <= i < j < 12 ==> FullNames[i] != FullNames[j]
  {
  }

  /** Every site full name has more than three letters except "May", which is also its abbreviation. */
  lemma FullNameLengths()
    ensures forall k :: 0 <= k < 12 && k != 4 ==> |SiteFullNames[k]| > 3
    ensures SiteFullNames[4] == SiteAbbrevs[4]
  {
  }

  lemma SiteFullNamesLetters()
    ensures forall k :: 0 <= k < 12 ==> AllLetters(SiteFullNames[k])
  {
  }

  lemma NamesLowerLetters()
    ensures forall k :: 0 <= k < 12 ==> AllLowerLetters(FullNames[k])
    ensures forall k :: 0 <= k < 12 ==> AllLowerLetters(AbbrevNames[k]) && |AbbrevNames[k]| == 3
  {
  }

  /** A word of letters followed by a space is not matched by any other lower-case name. */
  lemma NameMiss(n: string, w: string, t: string)
    requires AllLowerLetters(n) && AllLetters(w) && Lower(w) != n
    ensures !NameStarts(n, w + " " + t)
  {
    var s := w + " " + t;
    if |n| < |s| {
      if |n| < |w| {
        assert s[|n|] == w[|n|];
      } else if |n| == |w| {
        assert s[..|n|] == w;
      } else {
        assert s[|w|] == ' ';
        assert Lower(s[..|n|])[|w|] == ' ';
      }
    }
  }

  /** No abbreviation matches a word of more than three letters followed by a space. */
  lemma AbbrevsMissWord(w: string, t: string)
    requires AllLetters(w) && |w| > 3
    ensures MonthByName(AbbrevNames, w + " " + t, 0).None?
  {
    NamesLowerLetters();
    forall j | 0 <= j < 12
      ensures !NameStarts(AbbrevNames[j], w + " " + t)
    {
      assert |Lower(w)| != |AbbrevNames[j]|;
      NameMiss(AbbrevNames[j], w, t);
    }
    MonthByNameNone(AbbrevNames, w + " " + t, 0);
  }

  /** A word that lower-cases to full name `m` is matched by no earlier full name, and by that one. */
  lemma FullNameMatches(w: string, t: string, m: int)
    requires 1 <= m <= 12 && AllLetters(w) && Lower(w) == FullNames[m - 1]
    ensures MonthByName(FullNames, w + " " + t, 0) == Some(m)
  {
    var s := w + " " + t;
    NamesLowerLetters();
    FullNamesDistinct();
    forall j | 0 <= j < m - 1
      ensures !NameStarts(FullNames[j], s)
    {
      NameMiss(FullNames[j], w, t);
    }
    PrefixSpaceRest(w, t);
    assert NameStarts(FullNames[m - 1], s);
    MonthByNameFinds(FullNames, s, 0, m);
  }

  /** The site's full name of month `m`, in the forms the lemmas above take. */
  lemma SiteFullName(m: int)
    requires 1 <= m <= 12
    ensures var w := SiteFullNames[m - 1];
      AllLetters(w) && Lower(w) == FullNames[m - 1] && (m != 5 ==> |w| > 3)
  {
    FullNamesLower();
    SiteFullNamesLetters();
    FullNameLengths();
  }

  /** `%b %d` refuses a full month name other than "May"; `%B %d` reads it as that month and the day. */
  lemma FullNameFields(w: string, t: string, m: int)
    requires 1 <= m <= 12 && AllLetters(w) && Lower(w) == FullNames[m - 1] && |w| > 3
    requires 1 <= |t| <= 2 && AllDigits(t) && 1 <= DigitsValue(t) <= 31
    ensures MonthByName(AbbrevNames, w + " " + t, 0).None?
    ensures MonthAndDay(FullNames, w + " " + t) == Some((m, DigitsValue(t)))
  {
    AbbrevsMissWord(w, t);
    FullNameMatches(w, t, m);
    PrefixSpaceRest(w, t);
    DayDigits(t);
    TrimStartOneSpace(t);
  }

  /** A full month name other than "May", a space and a day number, with no space at either end. */
  lemma FullNameOn(s: string, m: int, d: int, season: SeasonYears)
    requires 1 <= m <= 12 && MonthByName(AbbrevNames, s, 0).None? && MonthAndDay(FullNames, s) == Some((m, d))
    requires |s| > 0 && !IsSpace(s[0]) && !IsSpace(s[|s| - 1])
    requires ValidDate(InferYear(m, season), m, d)
    ensures ParseDateText(s, season) == Some(Timestamp(InferYear(m, season), m, d, 0, 0))
  {
    NoNameNoDate(AbbrevNames, s, season);
    assert TryDateFormat(MonthNameDay, s, season) == Some(Timestamp(InferYear(m, season), m, d, 0, 0));
    DateFormatsInOrder(s, season);
    DateTextAsIs(s, season);
  }

  /** A full month name, a space and a day number. */
  lemma FullNameText(w: string, t: string, m: int, season: SeasonYears)
    requires 1 <= m <= 12 && AllLetters(w) && Lower(w) == FullNames[m - 1] && |w| > 3
    requires 1 <= |t| <= 2 && AllDigits(t) && 1 <= DigitsValue(t) <= 31
    requires ValidDate(InferYear(m, season), m, DigitsValue(t))
    ensures ParseDateText(w + " " + t, season) == Some(Timestamp(InferYear(m, season), m, DigitsValue(t), 0, 0))
  {
    FullNameFields(w, t, m);
    WordDateEnds(w, t);
    FullNameOn(w + " " + t, m, DigitsValue(t), season);
  }

  /** A word of letters, a space and digits begin and end with no space. */
  lemma WordDateEnds(w: string, t: string)
    requires |w| > 0 && AllLetters(w) && |t| > 0 && AllDigits(t)
    ensures var s := w + " " + t; |s| > 0 && !IsSpace(s[0]) && !IsSpace(s[|s| - 1])
  {
    var s := w + " " + t;
    assert IsLetter(w[0]);
    assert s[0] == w[0] && s[|s| - 1] == t[|t| - 1];
  }

  /**
   * A date with the month written out, "September 16": `%b %d` refuses it
   * (except for "May", which it reads the same way) and `%B %d` reads it as
   * that day in the year the season split gives its month.
   */
  lemma FullNameRoundTrip(m: int, d: int, season: SeasonYears)
    requires 1 <= m <= 12 && 1 <= d <= 31 && ValidDate(InferYear(m, season), m, d)
    ensures ParseDateText(SiteFullNames[m - 1] + " " + Decimal2(d), season) ==
      Some(Timestamp(InferYear(m, season), m, d, 0, 0))
  {
    if m == 5 {
      FullNameLengths();
      SiteDateRoundTrip(m, d, season);
    } else {
      Decimal2Value(d);
      SiteFullName(m);
      FullNameText(SiteFullNames[m - 1], Decimal2(d), m, season);
    }
  }

  /** `%Y-%m-%d` once its pieces are known; the formats before it refuse the string. */
  lemma IsoDateFields(s: string, a: string, b: string, c: string, season: SeasonYears)
    requires |s| > 0 && IsDigit(s[0])
    requires SplitOn(s, '/') == [s] && SplitOn(s, '-') == [a, b, c]
    requires |a| == 4 && |b| == 2 && |c| == 2 && AllDigits(a) && AllDigits(b) && AllDigits(c)
    requires ValidDate(DigitsValue(a), DigitsValue(b), DigitsValue(c))
    ensures DateFromFormats(YearlessFormats + NumericFormats, s, season) ==
      Some(Timestamp(DigitsValue(a), DigitsValue(b), DigitsValue(c), 0, 0))
  {
    YearlessNeedsLetter(s, season);
    assert TryDateFormat(MonthDayYearSlash, s, season).None?;
    NumericDateFields(s, '-', a, b, c, YearMonthDay);
    var r := Some(Timestamp(DigitsValue(a), DigitsValue(b), DigitsValue(c), 0, 0));
    assert TryDateFormat(YearMonthDayDash, s, season) == r;
    NumericFormatsInOrder(s, season);
    assert DateFromFormats(NumericFormats, s, season) == r;
    DateFormatsInOrder(s, season);
  }

  /** A numeric date of three digit fields in range, whatever their order. */
  lemma NumericDateFields(s: string, sep: char, a: string, b: string, c: string, order: NumericOrder)
    requires SplitOn(s, sep) == [a, b, c]
    requires AllDigits(a) && AllDigits(b) && AllDigits(c)
    requires var (yt, mt, dt) := FieldsInOrder(a, b, c, order);
      |yt| == 4 && 1 <= |mt| <= 2 && 1 <= |dt| <= 2 && IsDigit(dt[0])
      && 1 <= DigitsValue(mt) <= 12 && ValidDate(DigitsValue(yt), DigitsValue(mt), DigitsValue(dt))
    ensures var (yt, mt, dt) := FieldsInOrder(a, b, c, order);
      NumericDate(s, sep, order) == Some(Timestamp(DigitsValue(yt), DigitsValue(mt), DigitsValue(dt), 0, 0))
  {
    var (yt, mt, dt) := FieldsInOrder(a, b, c, order);
    assert YearField(yt) == Some(DigitsValue(yt));
    assert SmallNumber(mt, 1, 12) == Some(DigitsValue(mt));
    assert DayField(dt) == Some(DigitsValue(dt));
  }

  /** Three digit fields joined by `sep`: what splitting at `sep` and at `other` gives, and its ends. */
  lemma DigitFieldsShape(a: string, b: string, c: string, sep: char, other: char)
    requires |a| >= 1 && |c| >= 1 && AllDigits(a) && AllDigits(b) && AllDigits(c)
    requires !IsDigit(sep) && !IsDigit(other) && sep != other
    ensures var s := a + [sep] + b + [sep] + c;
      && SplitOn(s, sep) == [a, b, c] && SplitOn(s, other) == [s]
      && |s| > 0 && IsDigit(s[0]) && !IsSpace(s[0]) && !IsSpace(s[|s| - 1])
  {
    var s := a + [sep] + b + [sep] + c;
    DigitsLack(a, sep);
    DigitsLack(b, sep);
    DigitsLack(c, sep);
    SplitThree(a, b, c, sep);
    DigitsLack(a, other);
    DigitsLack(b, other);
    DigitsLack(c, other);
    assert other !in s;
    SplitOnAbsent(s, other);
    assert s[0] == a[0] && s[|s| - 1] == c[|c| - 1];
  }

  lemma IsoDateText(a: string, b: string, c: string, season: SeasonYears)
    requires |a| == 4 && |b| == 2 && |c| == 2 && AllDigits(a) && AllDigits(b) && AllDigits(c)
    requires ValidDate(DigitsValue(a), DigitsValue(b), DigitsValue(c))
    ensures ParseDateText(a + "-" + b + "-" + c, season) ==
      Some(Timestamp(DigitsValue(a), DigitsValue(b), DigitsValue(c), 0, 0))
  {
    DigitFieldsShape(a, b, c, '-', '/');
    DateTextAsIs(a + "-" + b + "-" + c, season);
    IsoDateFields(a + "-" + b + "-" + c, a, b, c, season);
  }

  /**
   * A date written `YYYY-MM-DD` parses to that date: no yearless format and
   * not `%m/%d/%Y` accepts it, and `%Y-%m-%d` does.
   */
  lemma IsoDateRoundTrip(y: int, m: int, d: int, season: SeasonYears)
    requires ValidDate(y, m, d)
    ensures ParseDateText(Pad4(y) + "-" + Pad2(m) + "-" + Pad2(d), season) == Some(Timestamp(y, m, d, 0, 0))
  {
    Pad4Value(y);
    Pad2Value(m);
    Pad2Value(d);
    IsoDateText(Pad4(y), Pad2(m), Pad2(d), season);
  }

  /** `%m/%d/%Y` accepts a slash date whose first field is a month. */
  lemma SlashMonthFirstFields(s: string, a: string, b: string, c: string, season: SeasonYears)
    requires |s| > 0 && IsDigit(s[0])
    requires SplitOn(s, '/') == [a, b, c]
    requires |a| == 2 && |b| == 2 && |c| == 4 && AllDigits(a) && AllDigits(b) && AllDigits(c)
    requires ValidDate(DigitsValue(c), DigitsValue(a), DigitsValue(b))
    ensures DateFromFormats(YearlessFormats + NumericFormats, s, season) ==
      Some(Timestamp(DigitsValue(c), DigitsValue(a), DigitsValue(b), 0, 0))
  {
    YearlessNeedsLetter(s, season);
    NumericDateFields(s, '/', a, b, c, MonthDayYear);
    var r := Some(Timestamp(DigitsValue(c), DigitsValue(a), DigitsValue(b), 0, 0));
    assert TryDateFormat(MonthDayYearSlash, s, season) == r;
    NumericFormatsInOrder(s, season);
    assert DateFromFormats(NumericFormats, s, season) == r;
    DateFormatsInOrder(s, season);
  }

  /** A first field above 12 is no month, and `%d/%m/%Y` reads it as the day. */
  lemma SlashDayFirstFields(s: string, a: string, b: string, c: string, season: SeasonYears)
    requires |s| > 0 && IsDigit(s[0])
    requires SplitOn(s, '-') == [s] && SplitOn(s, '/') == [a, b, c]
    requires |a| == 2 && |b| == 2 && |c| == 4 && AllDigits(a) && AllDigits(b) && AllDigits(c)
    requires DigitsValue(a) > 12 && ValidDate(DigitsValue(c), DigitsValue(b), DigitsValue(a))
    ensures DateFromFormats(YearlessFormats + NumericFormats, s, season) ==
      Some(Timestamp(DigitsValue(c), DigitsValue(b), DigitsValue(a), 0, 0))
  {
    YearlessNeedsLetter(s, season);
    MonthFieldRejected(s, '/', a, b, c);
    OneFieldRejected(s, '-', YearMonthDay);
    NumericDateFields(s, '/', a, b, c, DayMonthYear);
    NumericFormatsInOrder(s, season);
    DateFormatsInOrder(s, season);
  }

  /** A first field that is no month number: month-first reading fails. */
  lemma MonthFieldRejected(s: string, sep: char, a: string, b: string, c: string)
    requires SplitOn(s, sep) == [a, b, c]
    requires |a| == 2 && AllDigits(a) && DigitsValue(a) > 12
    ensures NumericDate(s, sep, MonthDayYear).None?
  {
    assert SmallNumber(a, 1, 12).None?;
  }

  /** A string with no separator is no numeric date. */
  lemma OneFieldRejected(s: string, sep: char, order: NumericOrder)
    requires SplitOn(s, sep) == [s]
    ensures NumericDate(s, sep, order).None?
  {
  }

  lemma SlashDateText(a: string, b: string, c: string, season: SeasonYears)
    requires |a| == 2 && |b| == 2 && |c| == 4 && AllDigits(a) && AllDigits(b) && AllDigits(c)
    ensures ValidDate(DigitsValue(c), DigitsValue(a), DigitsValue(b)) ==>
      ParseDateText(a + "/" + b + "/" + c, season) ==
        Some(Timestamp(DigitsValue(c), DigitsValue(a), DigitsValue(b), 0, 0))
    ensures DigitsValue(a) > 12 && ValidDate(DigitsValue(c), DigitsValue(b), DigitsValue(a)) ==>
      ParseDateText(a + "/" + b + "/" + c, season) ==
        Some(Timestamp(DigitsValue(c), DigitsValue(b), DigitsValue(a), 0, 0))
  {
    var s := a + "/" + b + "/" + c;
    DigitFieldsShape(a, b, c, '/', '-');
    DateTextAsIs(s, season);
    if ValidDate(DigitsValue(c), DigitsValue(a), DigitsValue(b)) {
      SlashMonthFirstFields(s, a, b, c, season);
    }
    if DigitsValue(a) > 12 && ValidDate(DigitsValue(c), DigitsValue(b), DigitsValue(a)) {
      SlashDayFirstFields(s, a, b, c, season);
    }
  }

  /**
   * `MM/DD/YYYY` is tried before `DD/MM/YYYY`: a slash date whose first
   * field is a month is read month first, even when it would also read as
   * day first; only when the first field cannot be a month is it read as
   * the day.
   */
  lemma SlashDatesMonthFirst(a: int, b: int, y: int, season: SeasonYears)
    requires 1 <= a <= 31 && 1 <= b <= 31 && 1 <= y <= 9999
    ensures ValidDate(y, a, b) ==>
      ParseDateText(Pad2(a) + "/" + Pad2(b) + "/" + Pad4(y), season) == Some(Timestamp(y, a, b, 0, 0))
    ensures a > 12 && ValidDate(y, b, a) ==>
      ParseDateText(Pad2(a) + "/" + Pad2(b) + "/" + Pad4(y), season) == Some(Timestamp(y, b, a, 0, 0))
  {
    Pad2Value(a);
    Pad2Value(b);
    Pad4Value(y);
    SlashDateText(Pad2(a), Pad2(b), Pad4(y), season);
  }

  /** A dash date with a two-digit first field and no slash: `%m-%d-%Y` is the only numeric format left. */
  lemma DashRefusedEarlier(s: string, a: string, b: string, c: string, season: SeasonYears)
    requires SplitOn(s, '/') == [s] && SplitOn(s, '-') == [a, b, c] && |a| == 2
    ensures DateFromFormats(NumericFormats, s, season) == NumericDate(s, '-', MonthDayYear)
  {
    OneFieldRejected(s, '/', MonthDayYear);
    OneFieldRejected(s, '/', DayMonthYear);
    assert YearField(a).None?;
    assert NumericDate(s, '-', YearMonthDay).None?;
    NumericFormatsInOrder(s, season);
  }

  /** `%m-%d-%Y` once its pieces are known: every format before it refuses the string. */
  lemma DashMonthFirstFields(s: string, a: string, b: string, c: string, season: SeasonYears)
    requires |s| > 0 && IsDigit(s[0])
    requires SplitOn(s, '/') == [s] && SplitOn(s, '-') == [a, b, c]
    requires |a| == 2 && |b| == 2 && |c| == 4 && AllDigits(a) && AllDigits(b) && AllDigits(c)
    requires ValidDate(DigitsValue(c), DigitsValue(a), DigitsValue(b))
    ensures DateFromFormats(YearlessFormats + NumericFormats, s, season) ==
      Some(Timestamp(DigitsValue(c), DigitsValue(a), DigitsValue(b), 0, 0))
  {
    YearlessNeedsLetter(s, season);
    DashRefusedEarlier(s, a, b, c, season);
    NumericDateFields(s, '-', a, b, c, MonthDayYear);
    DateFormatsInOrder(s, season);
  }

  lemma DashDateText(a: string, b: string, c: string, season: SeasonYears)
    requires |a| == 2 && |b| == 2 && |c| == 4 && AllDigits(a) && AllDigits(b) && AllDigits(c)
    requires ValidDate(DigitsValue(c), DigitsValue(a), DigitsValue(b))
    ensures ParseDateText(a + "-" + b + "-" + c, season) ==
      Some(Timestamp(DigitsValue(c), DigitsValue(a), DigitsValue(b), 0, 0))
  {
    var s := a + "-" + b + "-" + c;
    DigitFieldsShape(a, b, c, '-', '/');
    DateTextAsIs(s, season);
    DashMonthFirstFields(s, a, b, c, season);
  }

  /**
   * A date written `MM-DD-YYYY`, "09-16-2025", parses to that date: its
   * first field has two digits, so `%Y-%m-%d` refuses it, and `%m-%d-%Y`
   * reads it month first.
   */
  lemma DashDateRoundTrip(y: int, m: int, d: int, season: SeasonYears)
    requires ValidDate(y, m, d)
    ensures ParseDateText(Pad2(m) + "-" + Pad2(d) + "-" + Pad4(y), season) == Some(Timestamp(y, m, d, 0, 0))
  {
    Pad4Value(y);
    Pad2Value(m);
    Pad2Value(d);
    DashDateText(Pad2(m), Pad2(d), Pad4(y), season);
  }

  // ---------------------------------------------------------------------
  // The leap day, as written and corrected
  // ---------------------------------------------------------------------

  /** Off 29 February the code as written and the corrected parse agree on every string. */
  lemma AsWrittenAgreesOffLeapDay(dateStr: string, season: SeasonYears)
    requires MonthAndDay(AbbrevNames, Strip(dateStr)) != Some((2, 29))
    requires MonthAndDay(FullNames, Strip(dateStr)) != Some((2, 29))
    ensures ParseDateTextAsWritten(dateStr, season) == ParseDateText(dateStr, season)
  {
    var s := Strip(dateStr);
    AsWrittenAgreesOn(s, season);
  }

  lemma AsWrittenAgreesOn(s: string, season: SeasonYears)
    requires MonthAndDay(AbbrevNames, s) != Some((2, 29))
    requires MonthAndDay(FullNames, s) != Some((2, 29))
    ensures
      (match YearlessDateAsWritten(AbbrevNames, s, season)
       case Some(t) => Some(t)
       case None =>
         match YearlessDateAsWritten(FullNames, s, season)
         case Some(t) => Some(t)
         case None => DateFromFormats(NumericFormats, s, season))
      == DateFromFormats(YearlessFormats + NumericFormats, s, season)
  {
    YearlessAsWrittenDiffersOnlyOnLeapDay(AbbrevNames, s, season);
    YearlessAsWrittenDiffersOnlyOnLeapDay(FullNames, s, season);
    DateFormatsInOrder(s, season);
  }

  /** The abbreviation of February, a space and digits: no full name, no slash, no dash. */
  lemma FebruaryShape(t: string)
    requires |t| >= 1 && AllDigits(t)
    ensures var s := SiteAbbrevs[1] + " " + t;
      MonthByName(FullNames, s, 0).None? && '/' !in s && '-' !in s
  {
    var s := SiteAbbrevs[1] + " " + t;
    assert s[..3] == "Feb" && s[3] == ' ';
    assert Lower(s[..3])[0] == LowerChar('F');
    FullNamesMiss(s);
    DigitsLack(t, '/');
    DigitsLack(t, '-');
  }

  /** A string the abbreviation format reads as 29 February, and no other format accepts, is dropped as written. */
  lemma LeapDayAsWrittenOn(s: string, season: SeasonYears)
    requires MonthAndDay(AbbrevNames, s) == Some((2, 29)) && MonthByName(FullNames, s, 0).None?
    requires '/' !in s && '-' !in s
    requires |s| > 0 && !IsSpace(s[0]) && !IsSpace(s[|s| - 1])
    ensures ParseDateTextAsWritten(s, season).None?
  {
    YearlessAsWrittenDiffersOnlyOnLeapDay(AbbrevNames, s, season);
    NoNameNoDate(FullNames, s, season);
    NoNumericDate(s, season);
    DateTextAsIsAsWritten(s, season);
  }

  /** When no month name starts the string, neither yearless branch accepts it. */
  lemma NoNameNoDate(names: seq<string>, s: string, season: SeasonYears)
    requires |names| == 12 && MonthByName(names, s, 0).None?
    ensures YearlessDateAsWritten(names, s, season).None? && YearlessDate(names, s, season).None?
  {
  }

  /** With neither a slash nor a dash, no numeric format accepts the string. */
  lemma NoNumericDate(s: string, season: SeasonYears)
    requires '/' !in s && '-' !in s
    ensures DateFromFormats(NumericFormats, s, season).None?
  {
    SplitOnAbsent(s, '/');
    SplitOnAbsent(s, '-');
    NumericFormatsInOrder(s, season);
  }

  /**
   * "Feb 29" in a season whose spring year is a leap year: the code as
   * written drops the game, the corrected parse dates it 29 February of
   * the spring year.
   */
  lemma LeapDayDroppedAsWritten(season: SeasonYears)
    requires MinYear <= season.spring <= MaxYear && IsLeap(season.spring)
    ensures ParseDateTextAsWritten(SiteAbbrevs[1] + " " + Pad2(29), season).None?
    ensures ParseDateText(SiteAbbrevs[1] + " " + Pad2(29), season) == Some(Timestamp(season.spring, 2, 29, 0, 0))
  {
    var t := Pad2(29);
    Pad2Value(29);
    SiteDateText(t, 2, season);
    SiteDateMonthDay(t, 2);
    SiteDateEnds(t, 2);
    FebruaryShape(t);
    LeapDayAsWrittenOn(SiteAbbrevs[1] + " " + t, season);
  }

  /** The season 2027/2028 of the example: 29 February 2028 is lost as written. */
  lemma LeapDay2028()
    ensures ParseDateTextAsWritten(SiteAbbrevs[1] + " " + Pad2(29), SeasonYears(2027, 2028)).None?
    ensures ParseDateText(SiteAbbrevs[1] + " " + Pad2(29), SeasonYears(2027, 2028)) == Some(Timestamp(2028, 2, 29, 0, 0))
  {
    LeapDayDroppedAsWritten(SeasonYears(2027, 2028));
  }

  // ---------------------------------------------------------------------
  // Times in the forms the code expects
  // ---------------------------------------------------------------------

  lemma ClockMeridiemAccepts(a: string, b: string, p: string)
    requires 1 <= |a| <= 2 && AllDigits(a) && 1 <= DigitsValue(a) <= 12
    requires |b| == 2 && AllDigits(b) && DigitsValue(b) <= 59
    requires p == "AM" || p == "PM"
    ensures TimeFromFormats(TimeFormats, a + ":" + b + " " + p) == Some((To24(DigitsValue(a), p == "PM"), DigitsValue(b)))
  {
    var u := a + ":" + b + " " + p;
    var rest := b + " " + p;
    assert u == a + ":" + rest;
    ColonParts(a, rest);
    SpaceSplitOf(b, p);
    ClockSpaceMeridiemFields(u, a, rest, b, p);
    FirstTimeFormatAccepts(u);
  }

  /** `%I:%M %p` once its pieces are known. */
  lemma ClockSpaceMeridiemFields(u: string, a: string, rest: string, b: string, p: string)
    requires SplitOn(u, ':') == [a, rest] && SpaceSplit(rest) == Some((b, p))
    requires 1 <= |a| <= 2 && AllDigits(a) && 1 <= DigitsValue(a) <= 12
    requires |b| == 2 && AllDigits(b) && DigitsValue(b) <= 59
    requires p == "AM" || p == "PM"
    ensures ClockSpaceMeridiemTime(u) == Some((To24(DigitsValue(a), p == "PM"), DigitsValue(b)))
  {
    assert SmallNumber(a, 1, 12) == Some(DigitsValue(a));
    assert SmallNumber(b, 0, 59) == Some(DigitsValue(b));
  }

  lemma ClockMeridiemNormal(a: string, b: string, p: string)
    requires 1 <= |a| <= 2 && AllDigits(a) && |b| == 2 && AllDigits(b)
    requires p == "AM" || p == "PM"
    ensures Upper(Strip(a + ":" + b + " " + p)) == a + ":" + b + " " + p
  {
    var u := a + ":" + b + " " + p;
    DigitsNoLower(a);
    DigitsNoLower(b);
    assert NoLower(":") && NoLower(" ") && NoLower(p);
    NoLowerConcat(a, ":");
    NoLowerConcat(a + ":", b);
    NoLowerConcat(a + ":" + b, " ");
    NoLowerConcat(a + ":" + b + " ", p);
    assert u[0] == a[0] && u[|u| - 1] == 'M';
    TimeTextNormal(u);
  }

  /** Hour, colon, two-digit minute, a space and the marker, on the 12-hour clock. */
  lemma ClockMeridiemText(a: string, b: string, p: string)
    requires 1 <= |a| <= 2 && AllDigits(a) && 1 <= DigitsValue(a) <= 12
    requires |b| == 2 && AllDigits(b) && DigitsValue(b) <= 59
    requires p == "AM" || p == "PM"
    ensures ParseTimeText(a + ":" + b + " " + p) == Some((To24(DigitsValue(a), p == "PM"), DigitsValue(b)))
  {
    ClockMeridiemNormal(a, b, p);
    ClockMeridiemAccepts(a, b, p);
    TimeTextWhen(a + ":" + b + " " + p, Some((To24(DigitsValue(a), p == "PM"), DigitsValue(b))));
  }

  /** 12-hour times such as "9:15 PM" or "12:05 AM" parse to the 24-hour clock. */
  lemma TwelveHourRoundTrip(h: int, m: int, pm: bool)
    requires 1 <= h <= 12 && 0 <= m <= 59
    ensures ParseTimeText(Decimal2(h) + ":" + Pad2(m) + " " + (if pm then "PM" else "AM")) == Some((To24(h, pm), m))
  {
    Decimal2Value(h);
    Pad2Value(m);
    ClockMeridiemText(Decimal2(h), Pad2(m), if pm then "PM" else "AM");
  }

  lemma HourMeridiemAccepts(a: string, p: string)
    requires 1 <= |a| <= 2 && AllDigits(a) && 1 <= DigitsValue(a) <= 12
    requires p == "AM" || p == "PM"
    ensures TimeFromFormats(TimeFormats, a + " " + p) == Some((To24(DigitsValue(a), p == "PM"), 0))
  {
    var u := a + " " + p;
    assert ':' !in u;
    SplitOnAbsent(u, ':');
    SpaceSplitOf(a, p);
    HourMeridiemFields(u, a, p);
  }

  /** `%I %p` once its pieces are known; the formats with a colon refuse the string. */
  lemma HourMeridiemFields(u: string, a: string, p: string)
    requires SplitOn(u, ':') == [u] && SpaceSplit(u) == Some((a, p))
    requires 1 <= |a| <= 2 && AllDigits(a) && 1 <= DigitsValue(a) <= 12
    requires p == "AM" || p == "PM"
    ensures TimeFromFormats(TimeFormats, u) == Some((To24(DigitsValue(a), p == "PM"), 0))
  {
    assert ClockSpaceMeridiemTime(u).None?;
    assert ClockMeridiemTime(u).None?;
    assert Clock24Time(u).None?;
    assert SmallNumber(a, 1, 12) == Some(DigitsValue(a));
    assert HourSpaceMeridiemTime(u) == Some((To24(DigitsValue(a), p == "PM"), 0));
    TimeFormatsInOrder(u);
  }


  lemma HourMeridiemNormal(a: string, p: string)
    requires 1 <= |a| <= 2 && AllDigits(a)
    requires p == "AM" || p == "PM"
    ensures Upper(Strip(a + " " + p)) == a + " " + p
  {
    var u := a + " " + p;
    DigitsNoLower(a);
    assert NoLower(" ") && NoLower(p);
    NoLowerConcat(a, " ");
    NoLowerConcat(a + " ", p);
    assert u[0] == a[0] && u[|u| - 1] == 'M';
    TimeTextNormal(u);
  }

  /** An hour, a space and the marker. */
  lemma HourMeridiemText(a: string, p: string)
    requires 1 <= |a| <= 2 && AllDigits(a) && 1 <= DigitsValue(a) <= 12
    requires p == "AM" || p == "PM"
    ensures ParseTimeText(a + " " + p) == Some((To24(DigitsValue(a), p == "PM"), 0))
  {
    HourMeridiemNormal(a, p);
    HourMeridiemAccepts(a, p);
    TimeTextWhen(a + " " + p, Some((To24(DigitsValue(a), p == "PM"), 0)));
  }

  /** An hour alone with its marker, such as "9 PM" or "12 AM". */
  lemma HourOnlyRoundTrip(h: int, pm: bool)
    requires 1 <= h <= 12
    ensures ParseTimeText(Decimal2(h) + " " + (if pm then "PM" else "AM")) == Some((To24(h, pm), 0))
  {
    Decimal2Value(h);
    HourMeridiemText(Decimal2(h), if pm then "PM" else "AM");
  }


  /** A time that `%I:%M %p` accepts is read by it. */
  lemma FirstTimeFormatAccepts(u: string)
    requires ClockSpaceMeridiemTime(u).Some?
    ensures TimeFromFormats(TimeFormats, u) == ClockSpaceMeridiemTime(u)
  {
  }

  /** The five formats of `_parse_time`, tried in order. */
  lemma TimeFormatsInOrder(u: string)
    ensures TimeFromFormats(TimeFormats, u) ==
      if ClockSpaceMeridiemTime(u).Some? then ClockSpaceMeridiemTime(u)
      else if ClockMeridiemTime(u).Some? then ClockMeridiemTime(u)
      else if Clock24Time(u).Some? then Clock24Time(u)
      else if HourSpaceMeridiemTime(u).Some? then HourSpaceMeridiemTime(u)
      else SecondsSpaceMeridiemTime(u)
  {
    var f1: seq<TimeFormat> := [ClockMeridiem, Clock24, HourSpaceMeridiem, SecondsSpaceMeridiem];
    var f2: seq<TimeFormat> := [Clock24, HourSpaceMeridiem, SecondsSpaceMeridiem];
    var f3: seq<TimeFormat> := [HourSpaceMeridiem, SecondsSpaceMeridiem];
    var f4: seq<TimeFormat> := [SecondsSpaceMeridiem];
    assert f4[1..] == [];
    assert TimeFromFormats(f4, u) == SecondsSpaceMeridiemTime(u);
    assert f3[1..] == f4;
    assert TimeFromFormats(f3, u) == if HourSpaceMeridiemTime(u).Some? then HourSpaceMeridiemTime(u) else TimeFromFormats(f4, u);
    assert f2[1..] == f3;
    assert TimeFromFormats(f2, u) == if Clock24Time(u).Some? then Clock24Time(u) else TimeFromFormats(f3, u);
    assert f1[1..] == f2;
    assert TimeFromFormats(f1, u) == if ClockMeridiemTime(u).Some? then ClockMeridiemTime(u) else TimeFromFormats(f2, u);
    assert TimeFormats[1..] == f1;
  }


  lemma ColonParts(a: string, b: string)
    requires ':' !in a && ':' !in b
    ensures SplitOn(a + ":" + b, ':') == [a, b]
  {
    SplitOnAfter(a, ':', b);
    SplitOnAbsent(b, ':');
  }

  lemma Clock24Accepts(a: string, b: string)
    requires |a| == 2 && |b| == 2 && AllDigits(a) && AllDigits(b)
    requires DigitsValue(a) <= 23 && DigitsValue(b) <= 59
    ensures TimeFromFormats(TimeFormats, a + ":" + b) == Some((DigitsValue(a), DigitsValue(b)))
  {
    ColonParts(a, b);
    IndexOfSpaceAbsent(b);
    Clock24Fields(a + ":" + b, a, b);
  }

  /** `%H:%M` once its pieces are known; the 12-hour formats before it refuse the string. */
  lemma Clock24Fields(u: string, a: string, b: string)
    requires SplitOn(u, ':') == [a, b] && IndexOfSpace(b) == |b|
    requires |a| == 2 && |b| == 2 && AllDigits(a) && AllDigits(b)
    requires DigitsValue(a) <= 23 && DigitsValue(b) <= 59
    ensures TimeFromFormats(TimeFormats, u) == Some((DigitsValue(a), DigitsValue(b)))
  {
    assert b[..0] == [];
    assert ClockSpaceMeridiemTime(u).None?;
    assert ClockMeridiemTime(u).None?;
    assert Clock24Time(u) == Some((DigitsValue(a), DigitsValue(b)));
    TimeFormatsInOrder(u);
  }


  lemma TimeTextWhen(u: string, r: Option<(int, int)>)
    requires Upper(Strip(u)) == u && TimeFromFormats(TimeFormats, u) == r
    ensures ParseTimeText(u) == r
  {
  }

  /** A string of digits, colons, spaces and markers with no whitespace at its ends is read as it stands. */
  lemma TimeTextNormal(u: string)
    requires NoLower(u) && |u| > 0 && !IsSpace(u[0]) && !IsSpace(u[|u| - 1])
    ensures Upper(Strip(u)) == u
  {
    StripNoop(u);
    UpperNoop(u);
  }

  lemma Clock24Normal(a: string, b: string)
    requires |a| == 2 && |b| == 2 && AllDigits(a) && AllDigits(b)
    ensures Upper(Strip(a + ":" + b)) == a + ":" + b
  {
    var u := a + ":" + b;
    DigitsNoLower(a);
    DigitsNoLower(b);
    assert NoLower(":");
    NoLowerConcat(a, ":");
    NoLowerConcat(a + ":", b);
    assert u[0] == a[0] && u[|u| - 1] == b[1];
    TimeTextNormal(u);
  }

  /** Two digits, a colon and two digits, read on the 24-hour clock. */
  lemma Clock24Text(a: string, b: string)
    requires |a| == 2 && |b| == 2 && AllDigits(a) && AllDigits(b)
    requires DigitsValue(a) <= 23 && DigitsValue(b) <= 59
    ensures ParseTimeText(a + ":" + b) == Some((DigitsValue(a), DigitsValue(b)))
  {
    Clock24Normal(a, b);
    Clock24Accepts(a, b);
    TimeTextWhen(a + ":" + b, Some((DigitsValue(a), DigitsValue(b))));
  }

  /** 24-hour times such as "21:15" or "09:05" parse to themselves. */
  lemma TwentyFourHourRoundTrip(h: int, m: int)
    requires 0 <= h <= 23 && 0 <= m <= 59
    ensures ParseTimeText(Pad2(h) + ":" + Pad2(m)) == Some((h, m))
  {
    Pad2Value(h);
    Pad2Value(m);
    Clock24Text(Pad2(h), Pad2(m));
  }

  // ---------------------------------------------------------------------
  // Twelve-hour times without a space, and with seconds
  // ---------------------------------------------------------------------

  /** `%I:%M%p` once its pieces are known. */
  lemma ClockNoSpaceFields(u: string, a: string, rest: string, b: string, p: string)
    requires SplitOn(u, ':') == [a, rest] && rest == b + p
    requires 1 <= |a| <= 2 && AllDigits(a) && 1 <= DigitsValue(a) <= 12
    requires |b| == 2 && AllDigits(b) && DigitsValue(b) <= 59
    requires p == "AM" || p == "PM"
    ensures ClockMeridiemTime(u) == Some((To24(DigitsValue(a), p == "PM"), DigitsValue(b)))
  {
    assert rest[..|rest| - 2] == b && rest[|rest| - 2..] == p;
    assert SmallNumber(a, 1, 12) == Some(DigitsValue(a));
    assert SmallNumber(b, 0, 59) == Some(DigitsValue(b));
  }

  /** Digits followed by the marker hold neither a colon nor whitespace. */
  lemma MinuteMarkerShape(b: string, p: string)
    requires AllDigits(b) && (p == "AM" || p == "PM")
    ensures ':' !in b + p && IndexOfSpace(b + p) == |b + p|
  {
    var rest := b + p;
    forall i | 0 <= i < |rest|
      ensures !IsSpace(rest[i]) && rest[i] != ':'
    {
      if i < |b| {
        assert rest[i] == b[i];
      } else {
        assert rest[i] == p[i - |b|];
      }
    }
    IndexOfSpaceAbsent(rest);
  }

  /** `%I:%M %p` refuses a time with no whitespace after the colon. */
  lemma ClockNoSpaceRefusedFirst(u: string, a: string, rest: string)
    requires SplitOn(u, ':') == [a, rest] && IndexOfSpace(rest) == |rest|
    ensures ClockSpaceMeridiemTime(u).None?
  {
  }

  /** `%I:%M%p` reads `h:mmAM`; `%I:%M %p` refuses it because it has no space. */
  lemma ClockNoSpaceAccepts(a: string, b: string, p: string)
    requires 1 <= |a| <= 2 && AllDigits(a) && 1 <= DigitsValue(a) <= 12
    requires |b| == 2 && AllDigits(b) && DigitsValue(b) <= 59
    requires p == "AM" || p == "PM"
    ensures TimeFromFormats(TimeFormats, a + ":" + b + p) == Some((To24(DigitsValue(a), p == "PM"), DigitsValue(b)))
  {
    var u := a + ":" + b + p;
    var rest := b + p;
    assert u == a + ":" + rest;
    MinuteMarkerShape(b, p);
    ColonParts(a, rest);
    ClockNoSpaceRefusedFirst(u, a, rest);
    ClockNoSpaceFields(u, a, rest, b, p);
    SecondTimeFormatAccepts(u);
  }

  /** A time that `%I:%M %p` refuses and `%I:%M%p` accepts is read by the latter. */
  lemma SecondTimeFormatAccepts(u: string)
    requires ClockSpaceMeridiemTime(u).None? && ClockMeridiemTime(u).Some?
    ensures TimeFromFormats(TimeFormats, u) == ClockMeridiemTime(u)
  {
    assert TimeFormats[1..][0] == ClockMeridiem;
  }

  lemma ClockNoSpaceNormal(a: string, b: string, p: string)
    requires 1 <= |a| <= 2 && AllDigits(a) && |b| == 2 && AllDigits(b)
    requires p == "AM" || p == "PM"
    ensures Upper(Strip(a + ":" + b + p)) == a + ":" + b + p
  {
    var u := a + ":" + b + p;
    DigitsNoLower(a);
    DigitsNoLower(b);
    assert NoLower(":") && NoLower(p);
    NoLowerConcat(a, ":");
    NoLowerConcat(a + ":", b);
    NoLowerConcat(a + ":" + b, p);
    assert u[0] == a[0] && u[|u| - 1] == 'M';
    TimeTextNormal(u);
  }

  /** 12-hour times with the marker right after the minute, "9:15PM", parse to the 24-hour clock. */
  lemma NoSpaceTwelveHourRoundTrip(h: int, m: int, pm: bool)
    requires 1 <= h <= 12 && 0 <= m <= 59
    ensures ParseTimeText(Decimal2(h) + ":" + Pad2(m) + (if pm then "PM" else "AM")) == Some((To24(h, pm), m))
  {
    var a, b, p := Decimal2(h), Pad2(m), if pm then "PM" else "AM";
    Decimal2Value(h);
    Pad2Value(m);
    ClockNoSpaceNormal(a, b, p);
    ClockNoSpaceAccepts(a, b, p);
    TimeTextWhen(a + ":" + b + p, Some((To24(h, pm), m)));
  }

  /** The hour, minute and second fields of `h:mm:ss p`, with no whitespace before the last space. */
  lemma SecondsShape(a: string, b: string, c: string, p: string)
    requires AllDigits(a) && AllDigits(b) && AllDigits(c) && |p| > 0 && !IsSpace(p[0]) && ':' !in p
    ensures var u := a + ":" + b + ":" + c + " " + p;
      && SplitOn(u, ':') == [a, b, c + " " + p]
      && SpaceSplit(u) == Some((a + ":" + b + ":" + c, p))
      && SpaceSplit(c + " " + p) == Some((c, p))
  {
    var hms := a + ":" + b + ":" + c;
    var u := hms + " " + p;
    DigitsLack(a, ':');
    DigitsLack(b, ':');
    DigitsLack(c, ':');
    assert ':' !in c + " " + p;
    assert u == a + [':'] + b + [':'] + (c + " " + p);
    SplitThree(a, b, c + " " + p, ':');
    forall i | 0 <= i < |hms|
      ensures !IsSpace(hms[i])
    {
      if i < |a| {
        assert hms[i] == a[i];
      } else if i == |a| || i == |a| + 1 + |b| {
        assert hms[i] == ':';
      } else if i < |a| + 1 + |b| {
        assert hms[i] == b[i - |a| - 1];
      } else {
        assert hms[i] == c[i - |a| - |b| - 2];
      }
    }
    SpaceSplitOf(hms, p);
    SpaceSplitOf(c, p);
  }

  /** A string with two colons and a first field longer than two: the four formats before `%I:%M:%S %p` refuse it. */
  lemma SecondsRefusedEarlier(u: string, a: string, b: string, rest: string, hms: string, p: string)
    requires SplitOn(u, ':') == [a, b, rest] && SpaceSplit(u) == Some((hms, p)) && |hms| > 2
    ensures TimeFromFormats(TimeFormats, u) == SecondsSpaceMeridiemTime(u)
  {
    assert ClockSpaceMeridiemTime(u).None?;
    assert ClockMeridiemTime(u).None?;
    assert Clock24Time(u).None?;
    assert SmallNumber(hms, 1, 12).None?;
    assert HourSpaceMeridiemTime(u).None?;
    TimeFormatsInOrder(u);
  }

  /** `%I:%M:%S %p` once its pieces are known. */
  lemma SecondsFields(u: string, a: string, b: string, rest: string, c: string, p: string)
    requires SplitOn(u, ':') == [a, b, rest] && SpaceSplit(rest) == Some((c, p))
    requires 1 <= |a| <= 2 && AllDigits(a) && 1 <= DigitsValue(a) <= 12
    requires |b| == 2 && AllDigits(b) && DigitsValue(b) <= 59
    requires |c| == 2 && AllDigits(c) && DigitsValue(c) <= 59
    requires p == "AM" || p == "PM"
    ensures SecondsSpaceMeridiemTime(u) == Some((To24(DigitsValue(a), p == "PM"), DigitsValue(b)))
  {
    assert SmallNumber(a, 1, 12) == Some(DigitsValue(a));
    assert SmallNumber(b, 0, 59) == Some(DigitsValue(b));
    assert SmallNumber(c, 0, 59) == Some(DigitsValue(c));
  }

  /** `%I:%M:%S %p` reads the hour and minute of `h:mm:ss p`; the formats before it refuse the string. */
  lemma SecondsAccepts(a: string, b: string, c: string, p: string)
    requires 1 <= |a| <= 2 && AllDigits(a) && 1 <= DigitsValue(a) <= 12
    requires |b| == 2 && AllDigits(b) && DigitsValue(b) <= 59
    requires |c| == 2 && AllDigits(c) && DigitsValue(c) <= 59
    requires p == "AM" || p == "PM"
    ensures TimeFromFormats(TimeFormats, a + ":" + b + ":" + c + " " + p) ==
      Some((To24(DigitsValue(a), p == "PM"), DigitsValue(b)))
  {
    var u := a + ":" + b + ":" + c + " " + p;
    SecondsShape(a, b, c, p);
    SecondsRefusedEarlier(u, a, b, c + " " + p, a + ":" + b + ":" + c, p);
    SecondsFields(u, a, b, c + " " + p, c, p);
  }

  lemma SecondsNormal(a: string, b: string, c: string, p: string)
    requires 1 <= |a| <= 2 && AllDigits(a) && |b| == 2 && AllDigits(b) && |c| == 2 && AllDigits(c)
    requires p == "AM" || p == "PM"
    ensures Upper(Strip(a + ":" + b + ":" + c + " " + p)) == a + ":" + b + ":" + c + " " + p
  {
    var u := a + ":" + b + ":" + c + " " + p;
    DigitsNoLower(a);
    DigitsNoLower(b);
    DigitsNoLower(c);
    assert NoLower(":") && NoLower(" ") && NoLower(p);
    NoLowerConcat(a, ":");
    NoLowerConcat(a + ":", b);
    NoLowerConcat(a + ":" + b, ":");
    NoLowerConcat(a + ":" + b + ":", c);
    NoLowerConcat(a + ":" + b + ":" + c, " ");
    NoLowerConcat(a + ":" + b + ":" + c + " ", p);
    assert u[0] == a[0] && u[|u| - 1] == 'M';
    TimeTextNormal(u);
  }

  /** 12-hour times with seconds, "9:15:30 PM": the seconds are read and dropped. */
  lemma SecondsRoundTrip(h: int, m: int, sec: int, pm: bool)
    requires 1 <= h <= 12 && 0 <= m <= 59 && 0 <= sec <= 59
    ensures ParseTimeText(Decimal2(h) + ":" + Pad2(m) + ":" + Pad2(sec) + " " + (if pm then "PM" else "AM")) ==
      Some((To24(h, pm), m))
  {
    var a, b, c, p := Decimal2(h), Pad2(m), Pad2(sec), if pm then "PM" else "AM";
    Decimal2Value(h);
    Pad2Value(m);
    Pad2Value(sec);
    SecondsNormal(a, b, c, p);
    SecondsAccepts(a, b, c, p);
    TimeTextWhen(a + ":" + b + ":" + c + " " + p, Some((To24(h, pm), m)));
  }
}
