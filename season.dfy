/**
 * Season resolution: which calendar years a schedule covers. A page label
 * such as "Winter 25/26" gives a fall year and a spring year; without one,
 * the current date decides. Game months from September on belong to the
 * fall year, the others to the spring year.
 */
module Season {
  import opened Text
  import opened Wrappers

  datatype SeasonYears = SeasonYears(fall: int, spring: int)

  /** The current date's year and month, in place of `datetime.now()`. */
  datatype Today = Today(year: int, month: int)

  /** First month of the fall half of a season. */
  const FallStartMonth := 9

  /**
   * The pattern `\b(\d{2})/(\d{2})\b` matches at position `p`: two digits, a
   * slash and two digits, with no word character just before or just after.
   */
  predicate LabelAt(text: string, p: nat) {
    && p + 5 <= |text|
    && IsDigit(text[p]) && IsDigit(text[p + 1])
    && text[p + 2] == '/'
    && IsDigit(text[p + 3]) && IsDigit(text[p + 4])
    && (p == 0 || !IsWordChar(text[p - 1]))
    && (p + 5 == |text| || !IsWordChar(text[p + 5]))
  }

  /** `re.search`: the leftmost position at or after `from` where the label pattern matches. */
  function FindLabel(text: string, from: nat): (r: Option<nat>)
    requires from <= |text|
    ensures r.Some? ==> from <= r.value && LabelAt(text, r.value)
    ensures r.Some? ==> forall q :: from <= q < r.value ==> !LabelAt(text, q)
    ensures r.None? ==> forall q :: from <= q <= |text| ==> !LabelAt(text, q)
    decreases |text| - from
  {
    if from + 5 > |text| then None
    else if LabelAt(text, from) then Some(from)
    else FindLabel(text, from + 1)
  }

  /** `int(match.group(k))` for the two-digit group starting at `p`. */
  function TwoDigits(text: string, p: nat): (n: nat)
    requires p + 2 <= |text| && IsDigit(text[p]) && IsDigit(text[p + 1])
    ensures n <= 99
  {
    10 * DigitValue(text[p]) + DigitValue(text[p + 1])
  }

  /** `_parse_season_years`, with the current date passed in. */
  function ParseSeasonYears(text: string, today: Today): (r: SeasonYears)
    ensures FindLabel(text, 0).Some? ==>
      var p := FindLabel(text, 0).value;
      && r.fall == 2000 + TwoDigits(text, p)
      && r.spring == 2000 + TwoDigits(text, p + 3)
      && 2000 <= r.fall <= 2099 && 2000 <= r.spring <= 2099
    ensures FindLabel(text, 0).None? ==>
      && r.spring == r.fall + 1
      && (r.fall == today.year <==> today.month >= FallStartMonth)
      && (r.spring == today.year <==> today.month < FallStartMonth)
  {
    match FindLabel(text, 0)
    case Some(p) => SeasonYears(2000 + TwoDigits(text, p), 2000 + TwoDigits(text, p + 3))
    case None =>
      if today.month >= FallStartMonth then SeasonYears(today.year, today.year + 1)
      else SeasonYears(today.year - 1, today.year)
  }

  /** `_infer_year`: September to December take the fall year, every other month the spring year. */
  function InferYear(month: int, season: SeasonYears): (y: int)
    ensures FallStartMonth <= month <= 12 ==> y == season.fall
    ensures 1 <= month < FallStartMonth ==> y == season.spring
  {
    if month >= FallStartMonth then season.fall else season.spring
  }

  /** The page header "Winter 25/26" gives the season 2025/2026. */
  lemma WinterLabel()
    ensures forall today :: ParseSeasonYears("Winter 25/26", today) == SeasonYears(2025, 2026)
  {
    var text := "Winter 25/26";
    assert LabelAt(text, 7);
    assert forall q :: 0 <= q < 7 ==> !LabelAt(text, q);
    assert FindLabel(text, 0) == Some(7);
  }

  /**
   * A label is read as written, so the two years need not be consecutive:
   * a date "12/03/2024" earlier on the page reads as the season 2012/2003.
   */
  lemma LabelYearsNeedNotBeConsecutive()
    ensures forall today :: ParseSeasonYears("12/03/2024", today) == SeasonYears(2012, 2003)
  {
    var text := "12/03/2024";
    assert LabelAt(text, 0);
  }
}
