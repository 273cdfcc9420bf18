/**
 * iCal generation: a calendar with fixed header properties and one event per
 * game, in the order given. Each event has a title that puts the configured
 * team first, a multi-line description, a location, an end a fixed number of
 * hours after the start, and a UID built from the start and the two teams so
 * that regenerating the feed gives the same event the same UID.
 */
module Ical {
  import opened Text
  import opened Wrappers
  import opened CivilTime
  import opened Games

  /** `TEAM_NAME` and `GAME_DURATION_HOURS`, passed in instead of read from the configuration. */
  datatype Config = Config(teamName: string, durationHours: int)

  /** The domain every event UID ends with. */
  const UidDomain := "@truenorthhockey.com"

  /** Python's `s or fallback` on strings. */
  function OrElse(s: string, fallback: string): (r: string)
    ensures s != "" ==> r == s
    ensures s == "" ==> r == fallback
  {
    if s != "" then s else fallback
  }

  function HomeName(game: Game): string {
    OrElse(game.homeTeam, "Home")
  }

  function AwayName(game: Game): string {
    OrElse(game.awayTeam, "Away")
  }

  /** The configured team is the away side: the away name, stripped, equals it ignoring case. */
  predicate AwayIsTeam(game: Game, cfg: Config) {
    Lower(Strip(AwayName(game))) == Lower(cfg.teamName)
  }

  /** The middle of a title: " @ home" when the team plays away, " vs away" otherwise. */
  function Matchup(game: Game, cfg: Config): string {
    if AwayIsTeam(game, cfg) then " @ " + HomeName(game) else " vs " + AwayName(game)
  }

  /** `_event_title` */
  function EventTitle(game: Game, cfg: Config): string {
    TitleFrom(cfg.teamName, Matchup(game, cfg), game.rink)
  }

  /** The team, the matchup, and " | rink" when there is a rink. */
  function TitleFrom(team: string, matchup: string, rink: string): string {
    var title := team + matchup;
    if rink != "" then title + " | " + rink else title
  }

  /**
   * A title is the team's name, then " @ home" or " vs away", then
   * " | rink" exactly when there is a rink.
   */
  lemma TitleShape(game: Game, cfg: Config)
    ensures var title := EventTitle(game, cfg);
      var n := |cfg.teamName| + |Matchup(game, cfg)|;
      && n <= |title|
      && title[..|cfg.teamName|] == cfg.teamName
      && title[|cfg.teamName|..n] == Matchup(game, cfg)
      && (game.rink == "" ==> |title| == n)
      && (game.rink != "" ==> title[n..] == " | " + game.rink)
  {
    TitleFromShape(cfg.teamName, Matchup(game, cfg), game.rink);
  }

  lemma TitleFromShape(team: string, matchup: string, rink: string)
    ensures var title := TitleFrom(team, matchup, rink);
      && |team| + |matchup| <= |title|
      && title[..|team|] == team
      && title[|team|..|team| + |matchup|] == matchup
      && (rink == "" ==> |title| == |team| + |matchup|)
      && (rink != "" ==> title[|team| + |matchup|..] == " | " + rink)
  {
  }

  /**
   * A game with an away side is titled as an away game at the home team
   * exactly when that side, stripped, is the team's name in any case: in
   * capitals, say, with any padding. (A missing away side is the case of
   * `TitleWithoutAwayTeam`.)
   */
  lemma TitleAwayIgnoresCaseAndPadding(game: Game, cfg: Config)
    requires game.awayTeam != ""
    ensures Matchup(game, cfg) == " @ " + HomeName(game) <==> Lower(Strip(game.awayTeam)) == Lower(cfg.teamName)
    ensures Strip(game.awayTeam) == Upper(cfg.teamName) ==> Matchup(game, cfg) == " @ " + HomeName(game)
  {
    assert AwayName(game) == game.awayTeam;
    if !AwayIsTeam(game, cfg) {
      assert Matchup(game, cfg)[1] == 'v';
      assert (" @ " + HomeName(game))[1] == '@';
    }
    LowerOfUpper(cfg.teamName);
  }

  /** A game whose away side is missing counts as played by a team called "Away", in any case. */
  lemma TitleWithoutAwayTeam(game: Game, cfg: Config)
    requires game.awayTeam == ""
    ensures AwayIsTeam(game, cfg) <==> Lower(cfg.teamName) == "away"
    ensures !AwayIsTeam(game, cfg) ==> Matchup(game, cfg) == " vs Away"
  {
    assert AwayName(game) == "Away";
    AwayFallbackFolds();
    assert Lower(Strip(AwayName(game))) == "away";
  }

  lemma AwayFallbackFolds()
    ensures Lower(Strip("Away")) == "away"
  {
    StripNoop("Away");
  }

  /** The "Final: …" line of a description, with the raw team fields. */
  function FinalLine(game: Game): string {
    "Final: " + game.homeTeam + " " + game.homeScore + " \U{2013} " + game.awayScore + " " + game.awayTeam
  }

  function RinkLine(game: Game): string {
    "Rink: " + game.rink
  }

  predicate HasFinalScore(game: Game) {
    game.homeScore != "" && game.awayScore != ""
  }

  /** The lines `_event_description` joins. */
  function DescriptionLines(game: Game): seq<string> {
    var teams := ["Home: " + OrElse(game.homeTeam, "TBD"), "Away: " + OrElse(game.awayTeam, "TBD")];
    var withFinal := if HasFinalScore(game) then teams + [FinalLine(game)] else teams;
    if game.rink != "" then withFinal + [RinkLine(game)] else withFinal
  }

  /**
   * A description has the home and away lines, then a "Final" line exactly
   * when both scores are known, then a "Rink" line exactly when the rink is.
   */
  lemma DescriptionShape(game: Game)
    ensures var lines := DescriptionLines(game);
      && |lines| == 2 + (if HasFinalScore(game) then 1 else 0) + (if game.rink != "" then 1 else 0)
      && lines[0] == "Home: " + OrElse(game.homeTeam, "TBD")
      && lines[1] == "Away: " + OrElse(game.awayTeam, "TBD")
      && (HasFinalScore(game) ==> lines[2] == FinalLine(game))
      && (game.rink != "" ==> lines[|lines| - 1] == RinkLine(game))
      && (HasFinalScore(game) <==> FinalLine(game) in lines)
      && (game.rink != "" <==> RinkLine(game) in lines)
  {
    LinesStartApart(game, DescriptionLines(game));
  }

  /** The four kinds of line begin with different letters, so none can stand for another. */
  lemma LinesStartApart(game: Game, lines: seq<string>)
    ensures forall k :: 0 <= k < |lines| && |lines[k]| > 0 && lines[k][0] != 'F' ==> lines[k] != FinalLine(game)
    ensures forall k :: 0 <= k < |lines| && |lines[k]| > 0 && lines[k][0] != 'R' ==> lines[k] != RinkLine(game)
  {
    assert FinalLine(game)[0] == 'F';
    assert RinkLine(game)[0] == 'R';
  }

  /** The text of `_event_description`: its lines joined by newlines. */
  function DescriptionText(game: Game): string {
    Join(DescriptionLines(game), '\n')
  }

  /** `_event_description`: starts with the two team lines and appends the optional ones. */
  method EventDescription(game: Game) returns (text: string)
    ensures text == DescriptionText(game)
  {
    var lines := ["Home: " + OrElse(game.homeTeam, "TBD"), "Away: " + OrElse(game.awayTeam, "TBD")];
    if game.homeScore != "" && game.awayScore != "" {
      lines := lines + ["Final: " + game.homeTeam + " " + game.homeScore + " \U{2013} " + game.awayScore + " " + game.awayTeam];
    }
    if game.rink != "" {
      lines := lines + ["Rink: " + game.rink];
    }
    text := Join(lines, '\n');
  }

  predicate SingleLine(s: string) {
    '\n' !in s
  }

  /** When no field holds a newline, splitting the description at newlines gives its lines back. */
  lemma DescriptionSplitsIntoLines(game: Game)
    requires SingleLine(game.homeTeam) && SingleLine(game.awayTeam) && SingleLine(game.rink)
    requires SingleLine(game.homeScore) && SingleLine(game.awayScore)
    ensures SplitOn(DescriptionText(game), '\n') == DescriptionLines(game)
  {
    var lines := DescriptionLines(game);
    forall k | 0 <= k < |lines|
      ensures '\n' !in lines[k]
    {
      LineHasNoNewline(game, lines, k);
    }
    SplitJoin(lines, '\n');
  }

  lemma LineHasNoNewline(game: Game, lines: seq<string>, k: nat)
    requires SingleLine(game.homeTeam) && SingleLine(game.awayTeam) && SingleLine(game.rink)
    requires SingleLine(game.homeScore) && SingleLine(game.awayScore)
    requires lines == DescriptionLines(game) && k < |lines|
    ensures '\n' !in lines[k]
  {
    assert SingleLine("Home: ") && SingleLine("Away: ") && SingleLine("TBD");
    assert SingleLine(" ") && SingleLine(" \U{2013} ") && SingleLine("Final: ") && SingleLine("Rink: ");
  }

  /**
   * The UID: the start as `%Y%m%dT%H%M%S`, a dash, the home team, a dash and
   * the away team, with spaces turned into underscores, then the domain.
   */
  function EventUid(start: Timestamp, home: string, away: string): string
    requires ValidTimestamp(start)
  {
    ReplaceChar(FormatStamp(start) + "-" + home + "-" + away, ' ', '_') + UidDomain
  }

  /**
   * A UID holds no space; it is the 15-character start stamp, a dash, the
   * home team, a dash and the away team, each team with underscores for
   * spaces, then the domain.
   */
  lemma UidShape(start: Timestamp, home: string, away: string)
    requires ValidTimestamp(start)
    ensures var uid := EventUid(start, home, away);
      && ' ' !in uid
      && |uid| == 17 + |home| + |away| + |UidDomain|
      && uid[..15] == FormatStamp(start)
      && uid[15] == '-' && uid[16 + |home|] == '-'
      && uid[16..16 + |home|] == ReplaceChar(home, ' ', '_')
      && uid[17 + |home|..17 + |home| + |away|] == ReplaceChar(away, ' ', '_')
      && uid[17 + |home| + |away|..] == UidDomain
  {
    UidPieces(FormatStamp(start), home, away, EventUid(start, home, away));
  }

  lemma UidPieces(stamp: string, home: string, away: string, uid: string)
    requires |stamp| == 15 && ' ' !in stamp
    requires uid == ReplaceChar(stamp + "-" + home + "-" + away, ' ', '_') + UidDomain
    ensures ' ' !in uid && |uid| == 17 + |home| + |away| + |UidDomain|
    ensures uid[..15] == stamp
    ensures uid[15] == '-' && uid[16 + |home|] == '-'
    ensures uid[16..16 + |home|] == ReplaceChar(home, ' ', '_')
    ensures uid[17 + |home|..17 + |home| + |away|] == ReplaceChar(away, ' ', '_')
    ensures uid[17 + |home| + |away|..] == UidDomain
  {
    var base := stamp + "-" + home + "-" + away;
    assert forall i :: 0 <= i < 15 ==> base[i] == stamp[i];
    assert forall i :: 0 <= i < |home| ==> base[16 + i] == home[i];
    assert forall i :: 0 <= i < |away| ==> base[17 + |home| + i] == away[i];
  }

  /** The UID of a game's event. */
  function GameUid(game: Game): string
    requires ValidTimestamp(game.start)
  {
    EventUid(game.start, game.homeTeam, game.awayTeam)
  }

  /** The UID depends on the start and the two teams alone, not on the scores or the rink. */
  lemma UidIgnoresScoresAndRink(a: Game, b: Game)
    requires ValidTimestamp(a.start)
    requires a.start == b.start && a.homeTeam == b.homeTeam && a.awayTeam == b.awayTeam
    ensures GameUid(a) == GameUid(b)
  {
  }

  /** Two events with the same UID start at the same time, whatever their teams. */
  lemma UidDeterminesStart(a: Timestamp, homeA: string, awayA: string, b: Timestamp, homeB: string, awayB: string)
    requires ValidTimestamp(a) && ValidTimestamp(b)
    requires EventUid(a, homeA, awayA) == EventUid(b, homeB, awayB)
    ensures a == b
  {
    UidShape(a, homeA, awayA);
    UidShape(b, homeB, awayB);
    FormatStampInjective(a, b);
  }

  /** `start + timedelta(hours=GAME_DURATION_HOURS)`, `None` where Python overflows. */
  function EventEnd(start: Timestamp, cfg: Config): (r: Option<Timestamp>)
    requires ValidTimestamp(start)
  {
    AddHours(start, cfg.durationHours)
  }

  /** With a positive duration an event ends strictly after it starts. */
  lemma EventEndsAfterStart(start: Timestamp, cfg: Config, end: Timestamp)
    requires ValidTimestamp(start) && cfg.durationHours > 0
    requires EventEnd(start, cfg) == Some(end)
    ensures NoLaterThan(start, end) && !NoLaterThan(end, start)
  {
    NoLaterThanIsEarlier(start, end);
    NoLaterThanIsEarlier(end, start);
  }

  /** A duration of at most a day cannot overflow before the last year. */
  lemma EventEndInRange(start: Timestamp, cfg: Config)
    requires ValidTimestamp(start) && start.year < MaxYear
    requires 0 <= cfg.durationHours <= 24
    ensures EventEnd(start, cfg).Some?
  {
    var total := start.hour + cfg.durationHours;
    if total / 24 == 1 {
      assert AddDays(start, 1) == AddDays(NextDay(start), 0);
    }
  }

  /** One calendar event: `summary`, `dtstart`, `dtend`, `location`, `description` and `uid`. */
  datatype Event = Event(
    summary: string,
    start: Timestamp,
    end: Timestamp,
    zone: string,
    location: string,
    description: string,
    uid: string)

  /** The event `generate_ics` builds for a game, or `None` where its end overflows. */
  function EventOf(game: Game, cfg: Config): (r: Option<Event>)
    requires ValidTimestamp(game.start)
    ensures r.None? <==> EventEnd(game.start, cfg).None?
    ensures r.Some? ==> Some(r.value.end) == EventEnd(game.start, cfg)
  {
    match EventEnd(game.start, cfg)
    case None => None
    case Some(end) =>
      Some(Event(EventTitle(game, cfg), game.start, end, game.zone, OrElse(game.rink, "TBD"),
                 DescriptionText(game), GameUid(game)))
  }

  /** Every event has a location, falling back to "TBD", and starts when its game does. */
  lemma EventLocationAndStart(game: Game, cfg: Config)
    requires ValidTimestamp(game.start) && EventOf(game, cfg).Some?
    ensures EventOf(game, cfg).value.location != ""
    ensures EventOf(game, cfg).value.location == "TBD" <==> game.rink == "" || game.rink == "TBD"
    ensures EventOf(game, cfg).value.start == game.start && EventOf(game, cfg).value.zone == game.zone
  {
  }

  /** The calendar's header properties, in the order `generate_ics` adds them. */
  function HeaderProperties(cfg: Config): seq<(string, string)> {
    [ ("prodid", "-//" + cfg.teamName + " Hockey//truenorthhockey.com//EN"),
      ("version", "2.0"),
      ("calscale", "GREGORIAN"),
      ("method", "PUBLISH"),
      ("x-wr-calname", cfg.teamName + " Hockey Schedule"),
      ("x-wr-timezone", EasternZone),
      ("x-wr-caldesc", "Game schedule for the " + cfg.teamName + " \U{2013} True North Hockey.") ]
  }

  /** An `icalendar.Calendar`: its properties and its components, in the order added. */
  class Calendar {
    var properties: seq<(string, string)>
    var components: seq<Event>

    constructor ()
      ensures properties == [] && components == []
    {
      properties := [];
      components := [];
    }

    /** `cal.add(name, value)` */
    method Add(name: string, value: string)
      modifies this
      ensures properties == old(properties) + [(name, value)]
      ensures components == old(components)
    {
      properties := properties + [(name, value)];
    }

    /** `cal.add_component(event)` */
    method AddComponent(event: Event)
      modifies this
      ensures components == old(components) + [event]
      ensures properties == old(properties)
    {
      components := components + [event];
    }
  }

  /** The opening of `generate_ics`: a new calendar with the header properties and no events. */
  method NewCalendar(cfg: Config) returns (cal: Calendar)
    ensures fresh(cal)
    ensures cal.properties == HeaderProperties(cfg) && cal.components == []
  {
    cal := new Calendar();
    cal.Add("prodid", "-//" + cfg.teamName + " Hockey//truenorthhockey.com//EN");
    cal.Add("version", "2.0");
    cal.Add("calscale", "GREGORIAN");
    cal.Add("method", "PUBLISH");
    cal.Add("x-wr-calname", cfg.teamName + " Hockey Schedule");
    cal.Add("x-wr-timezone", EasternZone);
    cal.Add("x-wr-caldesc", "Game schedule for the " + cfg.teamName + " \U{2013} True North Hockey.");
  }

  /** The body of the loop of `generate_ics` for one game whose end is `end`. */
  method BuildEvent(game: Game, cfg: Config, end: Timestamp) returns (event: Event)
    requires ValidTimestamp(game.start) && EventEnd(game.start, cfg) == Some(end)
    ensures Some(event) == EventOf(game, cfg)
  {
    var start := game.start;
    var uid := ReplaceChar(FormatStamp(start) + "-" + game.homeTeam + "-" + game.awayTeam, ' ', '_') + UidDomain;
    var description := EventDescription(game);
    event := Event(EventTitle(game, cfg), start, end, game.zone, OrElse(game.rink, "TBD"), description, uid);
  }

  predicate AllStartsValid(games: seq<Game>) {
    forall j :: 0 <= j < |games| ==> ValidTimestamp(games[j].start)
  }

  /** All the values when every option holds one, in order; otherwise `None`. */
  function Collect<T>(opts: seq<Option<T>>): (r: Option<seq<T>>)
    ensures r.Some? ==> |r.value| == |opts|
    decreases |opts|
  {
    if |opts| == 0 then Some([])
    else
      match Collect(opts[..|opts| - 1])
      case None => None
      case Some(values) =>
        match opts[|opts| - 1]
        case None => None
        case Some(v) => Some(values + [v])
  }

  /** `Collect` fails exactly when some option is empty. */
  lemma {:induction false} CollectNone<T>(opts: seq<Option<T>>)
    ensures Collect(opts).None? <==> exists j :: 0 <= j < |opts| && opts[j].None?
    decreases |opts|
  {
    if |opts| > 0 {
      var prefix := opts[..|opts| - 1];
      CollectNone(prefix);
      assert forall j :: 0 <= j < |prefix| ==> prefix[j] == opts[j];
    }
  }

  /** The value at position `j` is the value of option `j`. */
  lemma {:induction false} CollectAt<T>(opts: seq<Option<T>>, j: nat)
    requires Collect(opts).Some? && j < |opts|
    ensures Some(Collect(opts).value[j]) == opts[j]
    decreases |opts|
  {
    var prefix := opts[..|opts| - 1];
    if j < |prefix| {
      CollectAt(prefix, j);
      assert prefix[j] == opts[j];
    }
  }

  /** One more option holding a value extends the collected values by it. */
  lemma CollectSnoc<T>(opts: seq<Option<T>>, v: T)
    ensures Collect(opts).Some? ==> Collect(opts + [Some(v)]) == Some(Collect(opts).value + [v])
    ensures Collect(opts).None? ==> Collect(opts + [Some(v)]).None?
  {
    assert (opts + [Some(v)])[..|opts|] == opts;
  }

  /** Extending a prefix by one option holding `v`. */
  lemma CollectPrefixStep<T>(opts: seq<Option<T>>, i: nat, v: T)
    requires i < |opts| && opts[i] == Some(v)
    ensures Collect(opts[..i]).Some? ==> Collect(opts[..i + 1]) == Some(Collect(opts[..i]).value + [v])
  {
    assert opts[..i + 1] == opts[..i] + [Some(v)];
    CollectSnoc(opts[..i], v);
  }

  /** The optional event of every game, in order. */
  function EventOpts(games: seq<Game>, cfg: Config): (opts: seq<Option<Event>>)
    requires AllStartsValid(games)
    ensures |opts| == |games|
    ensures forall j :: 0 <= j < |games| ==> opts[j] == EventOf(games[j], cfg)
  {
    seq(|games|, j requires 0 <= j < |games| => EventOf(games[j], cfg))
  }

  /** The events of all the games, in order, or `None` when any end overflows. */
  function EventsOf(games: seq<Game>, cfg: Config): Option<seq<Event>>
    requires AllStartsValid(games)
  {
    Collect(EventOpts(games, cfg))
  }

  /** `EventsOf` fails exactly when some game's event does, and otherwise holds event `j` at `j`. */
  lemma EventsOfGames(games: seq<Game>, cfg: Config)
    requires AllStartsValid(games)
    ensures EventsOf(games, cfg).None? <==> exists j :: 0 <= j < |games| && EventOf(games[j], cfg).None?
    ensures EventsOf(games, cfg).Some? ==>
      |EventsOf(games, cfg).value| == |games| &&
      forall j :: 0 <= j < |games| ==> Some(EventsOf(games, cfg).value[j]) == EventOf(games[j], cfg)
  {
    var opts := EventOpts(games, cfg);
    CollectNone(opts);
    if Collect(opts).Some? {
      forall j | 0 <= j < |games|
        ensures Some(Collect(opts).value[j]) == EventOf(games[j], cfg)
      {
        CollectAt(opts, j);
      }
    }
  }

  /**
   * `generate_ics`, up to serialisation. `ok` is false where Python raises
   * `OverflowError`: the calendar then holds the events of the games before
   * the first one whose end overflows, and that game's event is missing.
   */
  method GenerateIcs(games: seq<Game>, cfg: Config) returns (cal: Calendar, ok: bool)
    requires AllStartsValid(games)
    ensures fresh(cal)
    ensures cal.properties == HeaderProperties(cfg)
    ensures ok <==> EventsOf(games, cfg).Some?
    ensures ok ==> Some(cal.components) == EventsOf(games, cfg)
    ensures !ok ==>
      && |cal.components| < |games|
      && Some(cal.components) == Collect(EventOpts(games, cfg)[..|cal.components|])
      && EventOf(games[|cal.components|], cfg).None?
  {
    cal := NewCalendar(cfg);
    ok := true;
    ghost var opts := EventOpts(games, cfg);
    var i := 0;
    while i < |games|
      invariant 0 <= i <= |games|
      invariant cal.properties == HeaderProperties(cfg)
      invariant Some(cal.components) == Collect(opts[..i])
    {
      var game := games[i];
      var end := AddHours(game.start, cfg.durationHours);
      if end.None? {
        assert opts[i].None?;
        CollectNone(opts);
        ok := false;
        return;
      }
      var event := BuildEvent(game, cfg, end.value);
      assert opts[i] == Some(event);
      CollectPrefixStep(opts, i, event);
      cal.AddComponent(event);
      i := i + 1;
    }
    assert opts[..i] == opts;
  }
}
