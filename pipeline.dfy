/**
 * The entry point's data path: raw items are parsed and the ones that fail
 * are dropped, the games are sorted by start time (stably, so games that
 * start together keep their order), and the calendar is built from them.
 */
module Pipeline {
  import opened Wrappers
  import opened CivilTime
  import opened Season
  import opened FieldLookup
  import opened Games
  import opened Ical

  /** The values of the options that hold one, in order. */
  function Somes<T>(opts: seq<Option<T>>): (r: seq<T>)
    ensures |r| <= |opts|
    decreases |opts|
  {
    if |opts| == 0 then []
    else
      var rest := Somes(opts[1..]);
      match opts[0]
      case None => rest
      case Some(v) => [v] + rest
  }

  lemma {:induction false} SomesAppend<T>(a: seq<Option<T>>, b: seq<Option<T>>)
    ensures Somes(a + b) == Somes(a) + Somes(b)
    decreases |a|
  {
    if |a| > 0 {
      assert (a + b)[0] == a[0];
      assert (a + b)[1..] == a[1..] + b;
      SomesAppend(a[1..], b);
    } else {
      assert a + b == b;
    }
  }

  /** A value is kept exactly when some option holds it. */
  lemma {:induction false} SomesMember<T>(opts: seq<Option<T>>, v: T)
    ensures v in Somes(opts) <==> exists i :: 0 <= i < |opts| && opts[i] == Some(v)
    decreases |opts|
  {
    if |opts| > 0 {
      var tail := opts[1..];
      SomesMember(tail, v);
      if v in Somes(tail) {
        var i :| 0 <= i < |tail| && tail[i] == Some(v);
        assert opts[i + 1] == Some(v);
      }
      if exists i :: 0 <= i < |opts| && opts[i] == Some(v) {
        var i :| 0 <= i < |opts| && opts[i] == Some(v);
        if i > 0 {
          assert tail[i - 1] == Some(v);
        }
      }
    }
  }

  /** Nothing is kept exactly when every option is empty. */
  lemma {:induction false} SomesEmpty<T>(opts: seq<Option<T>>)
    ensures Somes(opts) == [] <==> forall i :: 0 <= i < |opts| ==> opts[i].None?
    decreases |opts|
  {
    if |opts| > 0 {
      SomesEmpty(opts[1..]);
      assert forall i :: 1 <= i < |opts| ==> opts[i] == opts[1..][i - 1];
    }
  }

  /** What `parse_game` makes of each raw item, in order. */
  function ParsedItems(raws: seq<RawItem>, season: SeasonYears): (opts: seq<Option<Game>>)
    ensures |opts| == |raws|
    ensures forall i :: 0 <= i < |raws| ==> opts[i] == ParseGame(raws[i], season)
  {
    seq(|raws|, i requires 0 <= i < |raws| => ParseGame(raws[i], season))
  }

  /** The list comprehension of `main`: the games of the items that parse, in item order. */
  function AcceptedGames(raws: seq<RawItem>, season: SeasonYears): seq<Game> {
    Somes(ParsedItems(raws, season))
  }

  /** A game is accepted exactly when some raw item parses to it. */
  lemma AcceptedGameMember(raws: seq<RawItem>, season: SeasonYears, g: Game)
    ensures g in AcceptedGames(raws, season) <==> exists i :: 0 <= i < |raws| && ParseGame(raws[i], season) == Some(g)
  {
    SomesMember(ParsedItems(raws, season), g);
  }

  /** No game is accepted exactly when no raw item parses. */
  lemma NoAcceptedGames(raws: seq<RawItem>, season: SeasonYears)
    ensures AcceptedGames(raws, season) == [] <==> forall i :: 0 <= i < |raws| ==> ParseGame(raws[i], season).None?
  {
    SomesEmpty(ParsedItems(raws, season));
  }

  /** Items are filtered one by one: filtering a concatenation concatenates the results. */
  lemma AcceptedGamesAppend(a: seq<RawItem>, b: seq<RawItem>, season: SeasonYears)
    ensures AcceptedGames(a + b, season) == AcceptedGames(a, season) + AcceptedGames(b, season)
  {
    assert ParsedItems(a + b, season) == ParsedItems(a, season) + ParsedItems(b, season);
    SomesAppend(ParsedItems(a, season), ParsedItems(b, season));
  }

  /** Every accepted game has a valid start. */
  lemma AcceptedStartsValid(raws: seq<RawItem>, season: SeasonYears)
    ensures AllStartsValid(AcceptedGames(raws, season))
  {
    var games := AcceptedGames(raws, season);
    forall k | 0 <= k < |games|
      ensures ValidTimestamp(games[k].start)
    {
      AcceptedGameMember(raws, season, games[k]);
    }
  }

  predicate SortedByStart(games: seq<Game>) {
    forall i, j :: 0 <= i < j < |games| ==> NoLaterThan(games[i].start, games[j].start)
  }

  /** Inserts `g` before the first game that does not start earlier than it. */
  function Insert(g: Game, games: seq<Game>): (r: seq<Game>)
    ensures multiset(r) == multiset(games) + multiset{g}
    decreases |games|
  {
    if |games| == 0 then [g]
    else if NoLaterThan(g.start, games[0].start) then [g] + games
    else
      assert games == [games[0]] + games[1..];
      [games[0]] + Insert(g, games[1..])
  }

  /** `games.sort(key=lambda g: g["datetime"])`: a stable sort by start. */
  function SortByStart(games: seq<Game>): (r: seq<Game>)
    ensures multiset(r) == multiset(games)
    decreases |games|
  {
    if |games| == 0 then []
    else
      assert games == [games[0]] + games[1..];
      Insert(games[0], SortByStart(games[1..]))
  }

  lemma {:induction false} InsertSorted(g: Game, games: seq<Game>)
    requires SortedByStart(games)
    ensures SortedByStart(Insert(g, games))
    decreases |games|
  {
    if |games| == 0 {
    } else if NoLaterThan(g.start, games[0].start) {
      forall j | 0 <= j < |games|
        ensures NoLaterThan(g.start, games[j].start)
      {
        NoLaterThanTransitive(g.start, games[0].start, games[j].start);
      }
    } else {
      var rest := Insert(g, games[1..]);
      InsertSorted(g, games[1..]);
      NoLaterThanTotal(g.start, games[0].start);
      forall k | 0 <= k < |rest|
        ensures NoLaterThan(games[0].start, rest[k].start)
      {
        assert rest[k] in multiset(games[1..]) + multiset{g};
        if rest[k] != g {
          var m :| 0 <= m < |games[1..]| && games[1..][m] == rest[k];
          assert games[m + 1] == rest[k];
        }
      }
      assert Insert(g, games) == [games[0]] + rest;
    }
  }

  /** The sort orders the games by start. */
  lemma {:induction false} SortSorted(games: seq<Game>)
    ensures SortedByStart(SortByStart(games))
    decreases |games|
  {
    if |games| > 0 {
      SortSorted(games[1..]);
      InsertSorted(games[0], SortByStart(games[1..]));
    }
  }

  /** The games, in order, that start at `t`. */
  function StartingAt(games: seq<Game>, t: Timestamp): (r: seq<Game>)
    ensures forall k :: 0 <= k < |r| ==> r[k].start == t
    decreases |games|
  {
    if |games| == 0 then []
    else if games[0].start == t then [games[0]] + StartingAt(games[1..], t)
    else StartingAt(games[1..], t)
  }

  /** Inserting before every game that starts at the same time keeps the inserted one first among them. */
  lemma {:induction false} InsertStable(g: Game, games: seq<Game>, t: Timestamp)
    requires SortedByStart(games)
    ensures StartingAt(Insert(g, games), t) ==
      (if g.start == t then [g] else []) + StartingAt(games, t)
    decreases |games|
  {
    if |games| == 0 {
    } else if NoLaterThan(g.start, games[0].start) {
      assert ([g] + games)[1..] == games;
    } else {
      InsertStable(g, games[1..], t);
      var rest := Insert(g, games[1..]);
      assert ([games[0]] + rest)[1..] == rest;
      if g.start == t {
        assert games[0].start != t by {
          NoLaterThanTotal(g.start, games[0].start);
        }
      }
    }
  }

  /** Stability: for every start time, the games that start then keep their order. */
  lemma {:induction false} SortStable(games: seq<Game>, t: Timestamp)
    ensures StartingAt(SortByStart(games), t) == StartingAt(games, t)
    decreases |games|
  {
    if |games| > 0 {
      SortStable(games[1..], t);
      SortSorted(games[1..]);
      InsertStable(games[0], SortByStart(games[1..]), t);
    }
  }

  /** How a run of the entry point ends. */
  datatype Outcome =
    | NoGameData
    | NoValidGames
    | EndOutOfRange
    | Published(games: seq<Game>, properties: seq<(string, string)>, events: seq<Event>)

  /**
   * `main`, from the scraped items and season on: stop when nothing was
   * scraped or nothing parsed, otherwise sort and build the calendar.
   * `EndOutOfRange` stands for the `OverflowError` `generate_ics` raises.
   */
  method Run(raws: seq<RawItem>, season: SeasonYears, cfg: Config) returns (outcome: Outcome)
    ensures outcome == NoGameData <==> raws == []
    ensures outcome == NoValidGames <==> raws != [] && AcceptedGames(raws, season) == []
    ensures outcome.Published? ==>
      && outcome.games == SortByStart(AcceptedGames(raws, season))
      && outcome.properties == HeaderProperties(cfg)
      && AllStartsValid(outcome.games)
      && Some(outcome.events) == EventsOf(outcome.games, cfg)
    ensures outcome == EndOutOfRange ==>
      && AcceptedGames(raws, season) != []
      && AllStartsValid(SortByStart(AcceptedGames(raws, season)))
      && EventsOf(SortByStart(AcceptedGames(raws, season)), cfg).None?
  {
    if raws == [] {
      return NoGameData;
    }
    var games := AcceptedGames(raws, season);
    if games == [] {
      return NoValidGames;
    }
    var sorted := SortByStart(games);
    SortedStartsValid(raws, season);
    var cal, ok := GenerateIcs(sorted, cfg);
    if !ok {
      return EndOutOfRange;
    }
    outcome := Published(sorted, cal.properties, cal.components);
  }

  /** Sorting keeps every start valid. */
  lemma SortedStartsValid(raws: seq<RawItem>, season: SeasonYears)
    ensures AllStartsValid(SortByStart(AcceptedGames(raws, season)))
  {
    var games := AcceptedGames(raws, season);
    var sorted := SortByStart(games);
    AcceptedStartsValid(raws, season);
    forall k | 0 <= k < |sorted|
      ensures ValidTimestamp(sorted[k].start)
    {
      assert sorted[k] in multiset(games);
    }
  }
}
