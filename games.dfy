/**
 * `parse_game`: one raw schedule item becomes a structured game record, or
 * is skipped. Every field is looked up under its aliases; a record without
 * a date, or whose date does not parse, is dropped.
 */
module Games {
  import opened Text
  import opened Wrappers
  import opened CivilTime
  import opened Season
  import opened FieldLookup
  import opened DateParsing

  /** `EASTERN_TZ`: the zone every game time is read in, kept as a tag. */
  const EasternZone := "America/Toronto"

  /** A structured game record: the local start time, its zone, and the text fields as found. */
  datatype Game = Game(
    start: Timestamp,
    zone: string,
    rink: string,
    homeTeam: string,
    awayTeam: string,
    homeScore: string,
    awayScore: string)

  /** The alias keys of each field, in the order `parse_game` passes them to `_get`. */
  const DateKeys: seq<string> := ["gameDate", "GameDate", "date", "Date"]
  const TimeKeys: seq<string> := ["gameTime", "GameTime", "time", "Time"]
  const RinkKeys: seq<string> :=
    ["rinkName", "RinkName", "rink", "Rink", "location", "Location", "facility", "Facility"]
  const HomeTeamKeys: seq<string> := ["homeTeamName", "HomeTeamName", "homeTeam", "HomeTeam", "home", "Home"]
  const AwayTeamKeys: seq<string> := ["awayTeamName", "AwayTeamName", "awayTeam", "AwayTeam", "away", "Away"]
  const HomeScoreKeys: seq<string> := ["homeScore", "HomeScore", "homeGoals", "HomeGoals", "hg", "HG"]
  const AwayScoreKeys: seq<string> := ["awayScore", "AwayScore", "awayGoals", "AwayGoals", "ag", "AG"]

  /** `_get(raw, *keys)` with the default `""`. */
  function Field(raw: RawItem, keys: seq<string>): string {
    Lookup(raw, keys, "")
  }

  /** `parse_game(raw, fall_year, spring_year)` */
  function ParseGame(raw: RawItem, season: SeasonYears): (r: Option<Game>)
    ensures r.None? <==>
      Field(raw, DateKeys) == "" || ParseDateText(Field(raw, DateKeys), season).None?
    ensures r.Some? ==> ValidTimestamp(r.value.start) && r.value.zone == EasternZone
    ensures r.Some? ==> r.value.start == ParseDateTime(Field(raw, DateKeys), Field(raw, TimeKeys), season).value
    ensures r.Some? ==>
      && r.value.rink == Field(raw, RinkKeys)
      && r.value.homeTeam == Field(raw, HomeTeamKeys)
      && r.value.awayTeam == Field(raw, AwayTeamKeys)
      && r.value.homeScore == Field(raw, HomeScoreKeys)
      && r.value.awayScore == Field(raw, AwayScoreKeys)
  {
    var dateStr := Field(raw, DateKeys);
    var timeStr := Field(raw, TimeKeys);
    if dateStr == "" then None
    else
      match ParseDateTime(dateStr, timeStr, season)
      case None => None
      case Some(t) =>
        Some(Game(t, EasternZone, Field(raw, RinkKeys), Field(raw, HomeTeamKeys), Field(raw, AwayTeamKeys),
                  Field(raw, HomeScoreKeys), Field(raw, AwayScoreKeys)))
  }

  /** An item with no value under any date alias is skipped. */
  lemma ItemWithoutDateSkipped(raw: RawItem, season: SeasonYears)
    requires forall i :: 0 <= i < |DateKeys| ==> AliasValue(raw, DateKeys[i]).None?
    ensures ParseGame(raw, season).None?
  {
    LookupDefault(raw, DateKeys, "");
  }

  /**
   * The game's start is read from the value of the first date alias that
   * has one, stripped, together with the time fields.
   */
  lemma GameStartFromFirstDateAlias(raw: RawItem, i: nat, season: SeasonYears)
    requires i < |DateKeys| && AliasValue(raw, DateKeys[i]).Some?
    requires forall j :: 0 <= j < i ==> AliasValue(raw, DateKeys[j]).None?
    requires ParseGame(raw, season).Some?
    ensures Some(ParseGame(raw, season).value.start) ==
      ParseDateTime(Strip(AliasValue(raw, DateKeys[i]).value), Field(raw, TimeKeys), season)
  {
    LookupFirstMatch(raw, DateKeys, i, "");
  }

  /** With no time under any time alias the game starts at midnight. */
  lemma GameWithoutTimeAtMidnight(raw: RawItem, season: SeasonYears)
    requires forall i :: 0 <= i < |TimeKeys| ==> AliasValue(raw, TimeKeys[i]).None?
    requires ParseGame(raw, season).Some?
    ensures ParseGame(raw, season).value.start.hour == 0 && ParseGame(raw, season).value.start.minute == 0
  {
    LookupDefault(raw, TimeKeys, "");
  }
}
