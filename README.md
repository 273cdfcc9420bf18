# Hockey schedule to iCal feed: a Dafny model

`scraper.py` turns a hockey team's schedule, as scraped from the league site,
into a subscribable iCalendar feed. This project models the data path of
that script and proves properties of it:

- **season resolution**: a "YY/YY" label on the page gives the fall and spring years; without one, the current month decides.
- **field lookup** (`_get`): every field of a raw schedule item is found under a list of alias keys, each alias tried as written, lower-cased and upper-cased.
- **date and time parsing** (`_parse_date`, `_parse_time`, `_parse_datetime`): `strptime` is modelled on the formats the script tries. Yearless "Sep 16" dates get their year from the season.
- **game records** (`parse_game`): an item without a date, or whose date does not parse, is skipped.
- **iCal generation** (`_event_title`, `_event_description`, `generate_ics`): the header properties, then one event per game. Each event has a title that puts the team first, a description that is a list of lines, "TBD" as the fallback location, an end a fixed number of hours after the start, and a UID made from the start stamp and the two team names.
- **the entry point** (`main`): parse, drop the failures, sort stably by start, build the calendar.

Modules follow the script's structure:

| module | file | what it holds |
|---|---|---|
| `Wrappers` | wrappers.dfy | `Option` |
| `Text` | text.dfy | Python `str` operations: `strip`, `lower`, `upper`, `replace`, `split`, `join` |
| `CivilTime` | civil_time.dfy | proleptic Gregorian dates, `datetime` ordering, `+ timedelta(hours=…)`, the `%Y%m%dT%H%M%S` stamp |
| `Season` | season.dfy | `_parse_season_years`, `_infer_year` |
| `FieldLookup` | field_lookup.dfy | `_get` |
| `DateParsing` | date_parsing.dfy | `_parse_date`, `_parse_time`, `_parse_datetime` |
| `DateFacts` | date_facts.dfy | what those parsers accept, the order they try formats in, round trips |
| `Games` | games.dfy | `parse_game` |
| `Ical` | ical.dfy | `_event_title`, `_event_description`, the calendar and `generate_ics` |
| `Pipeline` | pipeline.dfy | `main`'s filter, sort and outcome |

Inputs from outside the script become parameters:

- The current date is a `Today(year, month)` value.
- The configuration's `team_name` and `game_duration_hours` form a `Config` value.
- A raw item is a `map<string, Option<string>>`. `None` stands for a JSON null, which `_get` skips. `Some(s)` stands for `str()` of any other value.
- The `America/Toronto` zone is carried as a tag on each game. All games share that one zone, so comparing and shifting their times is comparing and shifting wall-clock fields, as Python does for aware datetimes that share one `tzinfo`.

Where the code and its design notes disagree, the model follows the code:

- `_get` also tries the lower- and upper-cased alias.
- An unparseable time gives midnight rather than skipping the game.
- Scores are kept as strings.
- The UID carries the full start stamp, not the date alone.
- A season label is taken as written, so its two years need not be consecutive.

## Model

| member | source | states |
|---|---|---|
| `Season.FindLabel` | scraper.py:119 | the leftmost position at or after `from` where `\b\d\d/\d\d\b` matches, with `\d` and `\w` read as their ASCII classes; `None` exactly when no position matches |
| `Season.ParseSeasonYears` | scraper.py:112-136 | with a label, the years are 2000 plus its two numbers; without one, fall and spring are consecutive, and fall is the current year exactly when the month is September or later |
| `Season.InferYear` | scraper.py:187-194 | September to December give the fall year, January to August the spring year |
| `Season.WinterLabel` | scraper.py:119-124 | "Winter 25/26" gives the season 2025/2026 whatever the date |
| `Season.LabelYearsNeedNotBeConsecutive` | scraper.py:119-124 | the first `dd/dd` on the page wins even inside a full date: "12/03/2024" gives 2012/2003 |
| `FieldLookup.Get` | scraper.py:177-184 | the nested loop with its early return computes `Lookup`: the stripped value of the first alias spelling that has a non-null value, else the default |
| `FieldLookup.FirstPresentNone` | scraper.py:180-183 | the spellings of one alias yield nothing exactly when none has a non-null value |
| `FieldLookup.FirstPresentFirst` | scraper.py:180-183 | the spellings are tried in order: the first with a value is the one returned |
| `FieldLookup.LookupDefault` | scraper.py:179-184 | when no alias has a value under any spelling, the default is returned |
| `FieldLookup.LookupFirstMatch` | scraper.py:179-183 | the result is the stripped value of the first alias that has one |
| `FieldLookup.LaterAliasesNeverOverride` | scraper.py:179-183 | once an alias matches, appending more aliases changes nothing |
| `Text.Strip` | scraper.py:183 | `str.strip()`: no whitespace is left at either end, and the result is no longer than the input |
| `Text.StripSlice` | scraper.py:183 | only the surrounding whitespace goes: the result is the characters of the input that follow its leading whitespace, and everything after them is whitespace |
| `Text.StripIdempotent` | scraper.py:183 | stripping a stripped value changes nothing |
| `Text.SplitJoin` | scraper.py:332 | lines without the separator, joined and split again, come back unchanged |
| `DateParsing.SmallNumber` | scraper.py:207 | a one- or two-digit `strptime` field is accepted exactly when it is all digits and within its range, and reads as its decimal value |
| `DateParsing.DayField` | scraper.py:207 | `%d` reads a day from 1 to 31 |
| `DateParsing.YearField` | scraper.py:215 | `%Y` reads a year of four digits |
| `DateParsing.MonthByName` | scraper.py:205-207 | the month found is one whose name, in any case, starts the string and is followed by whitespace |
| `DateParsing.MonthAndDay` | scraper.py:205-207 | `%b %d` and `%B %d` on the whole string give a month from 1 to 12 whose name starts the string before whitespace, and a day from 1 to 31; the values read are pinned by SiteDateFields and FullNameFields |
| `DateParsing.YearlessDate` | scraper.py:205-208 | a yearless date is a valid midnight timestamp whose year comes from the season |
| `DateParsing.YearlessDateAsWritten` | scraper.py:205-208 | the code's version: the day is checked against strptime's default year 1900 before the season's year is set |
| `DateParsing.YearlessAsWrittenDiffersOnlyOnLeapDay` | scraper.py:205-208 | the code's version and the corrected one agree except on 29 February, which the code always rejects |
| `DateParsing.LeapDayOnly` | scraper.py:207-208 | checking a day against 1900 instead of its own year rejects 29 February and nothing else |
| `DateParsing.FieldsInOrder` | scraper.py:213 | the year, month and day fields of a numeric format are its three fields in some order |
| `DateParsing.NumericDate` | scraper.py:213-215 | a numeric date that parses is a valid midnight timestamp |
| `DateParsing.TryDateFormat` | scraper.py:205-215 | one `strptime` attempt gives a valid midnight timestamp; for a yearless format its year is `_infer_year` of its month |
| `DateParsing.DateFromFormats` | scraper.py:205-219 | the result of the first accepting format is a valid midnight timestamp |
| `DateParsing.DateFromFormatsNone` | scraper.py:205-219 | no date exactly when every format rejects |
| `DateParsing.DateFromFormatsFirst` | scraper.py:205-217 | formats are tried in order and the first that accepts decides |
| `DateParsing.DateFromFormatsAppend` | scraper.py:205-217 | the yearless loop, then the numeric loop, is the same as one loop over both lists |
| `DateParsing.TryDateFormats` | scraper.py:205-217 | the `for fmt in …: try strptime` loop returns the first format's result |
| `DateParsing.ParseDate` | scraper.py:197-219 | `_parse_date` tries the yearless formats, then the numeric ones, on the stripped string |
| `DateParsing.To24` | scraper.py:226-228 | `%I` with `%p` gives an hour from 0 to 23: PM exactly when the hour is 12 or more, and the same hour modulo 12, so 12 AM is 0 |
| `DateParsing.SpaceSplitOf` | scraper.py:231 | a space in a format matches the whitespace run between two fields |
| `DateParsing.ClockSpaceMeridiemTime` | scraper.py:231 | `%I:%M %p` reads a valid clock time |
| `DateParsing.ClockMeridiemTime` | scraper.py:231 | `%I:%M%p` reads a valid clock time, with the values pinned by ClockNoSpaceAccepts |
| `DateParsing.Clock24Time` | scraper.py:231 | `%H:%M` reads a valid clock time |
| `DateParsing.HourSpaceMeridiemTime` | scraper.py:231 | `%I %p` reads a valid clock time on the hour |
| `DateParsing.SecondsSpaceMeridiemTime` | scraper.py:231 | `%I:%M:%S %p` reads a valid clock time and checks the seconds, with the values pinned by SecondsAccepts |
| `DateParsing.TryTimeFormat` | scraper.py:231-234 | one time format gives a valid hour and minute |
| `DateParsing.TimeFromFormats` | scraper.py:231-237 | the first accepting time format gives a valid hour and minute |
| `DateParsing.TimeFromFormatsNone` | scraper.py:231-237 | no time exactly when every format rejects |
| `DateParsing.TimeFromFormatsFirst` | scraper.py:231-236 | time formats are tried in order and the first that accepts decides |
| `DateParsing.ParseTime` | scraper.py:222-237 | `_parse_time`'s loop over the five formats, on the stripped, upper-cased string, returns an hour 0..23 and a minute 0..59 |
| `DateParsing.ParseDateTime` | scraper.py:240-260 | `None` exactly when the date does not parse; otherwise the date's day, at the parsed time, or at midnight when the time is empty or unparseable |
| `DateParsing.ParseDateTextAsWritten` | scraper.py:197-219 | `_parse_date` as written gives valid midnight timestamps |
| `DateFacts.NumericFormatsInOrder` | scraper.py:213-217 | the numeric formats are tried month-first slash, ISO, day-first slash, month-first dash |
| `DateFacts.DateFormatsInOrder` | scraper.py:205-217 | the yearless formats come before the numeric ones |
| `DateFacts.DateTextAsIs` | scraper.py:207 | a date string without surrounding whitespace is parsed as it stands |
| `DateFacts.DateTextAsIsAsWritten` | scraper.py:207 | the same for the code's version |
| `DateFacts.AbbrevFacts` | scraper.py:201-205 | the site's "Sep"-style abbreviations lower-case to the twelve distinct `%b` names |
| `DateFacts.MonthByNameFinds` | scraper.py:205-207 | the first month name that matches is the month found |
| `DateFacts.MonthByNameNone` | scraper.py:205-209 | with no match from month `k` on, no month is found |
| `DateFacts.MonthByNameNeedsLetter` | scraper.py:205-209 | a string that does not start with a letter names no month |
| `DateFacts.YearlessNeedsLetter` | scraper.py:205-209 | a date that starts with a digit is refused by both yearless formats |
| `DateFacts.FullNamesMiss` | scraper.py:205-209 | three letters other than "may", then a space, match no full month name |
| `DateFacts.SiteDateFields` | scraper.py:205-207 | the site's abbreviation, a space and a day field read as that month and day |
| `DateFacts.SiteDateParses` | scraper.py:205-208 | when `%b %d` reads a valid day, it is the parse |
| `DateFacts.SiteDateMonthDay` | scraper.py:201-207 | "Sep 16" reads as month 9, day 16 |
| `DateFacts.SiteDateOn` | scraper.py:197-208 | a site date that reads as a valid day parses to that day in the season's year |
| `DateFacts.SiteDateText` | scraper.py:197-208 | the site's abbreviation, a space and a valid day parse to that day |
| `DateFacts.SiteDateRoundTrip` | scraper.py:201-208 | every valid day of the season, written the site's way, parses back to itself |
| `DateFacts.IsoDateFields` | scraper.py:213-215 | `%Y-%m-%d` reads an ISO date once the formats before it refuse |
| `DateFacts.NumericDateFields` | scraper.py:213-215 | three in-range digit fields read as a date in any field order |
| `DateFacts.IsoDateText` | scraper.py:213-215 | an ISO date string parses to its day |
| `DateFacts.IsoDateRoundTrip` | scraper.py:213-215 | every valid day written as `YYYY-MM-DD` parses back to itself |
| `DateFacts.FullNameFields` | scraper.py:203-207 | a full month name other than "May", a space and a day number: `%b %d` finds no month, and `%B %d` reads that month and the day's digits |
| `DateFacts.FullNameRoundTrip` | scraper.py:203-208 | every valid day of the season written with the month in full, "September 16", parses back to that day in the year the season gives its month |
| `DateFacts.DashMonthFirstFields` | scraper.py:211-215 | a dash date with a two-digit first field is refused by `%Y-%m-%d` and every earlier format, and `%m-%d-%Y` reads it month, day, year |
| `DateFacts.DashDateRoundTrip` | scraper.py:211-215 | every valid day written as `MM-DD-YYYY` parses back to itself |
| `DateFacts.SlashMonthFirstFields` | scraper.py:213-215 | a slash date whose first field is a month is read month first |
| `DateFacts.SlashDayFirstFields` | scraper.py:213-215 | a first field above 12 falls through to `%d/%m/%Y` |
| `DateFacts.MonthFieldRejected` | scraper.py:213-216 | a first field above 12 is no month |
| `DateFacts.OneFieldRejected` | scraper.py:213-216 | a string without the separator is no numeric date |
| `DateFacts.SlashDateText` | scraper.py:213-215 | a slash date is month first when it can be, day first otherwise |
| `DateFacts.SlashDatesMonthFirst` | scraper.py:213-215 | "03/04/2026" is 4 March; "13/04/2026" is 13 April |
| `DateFacts.AsWrittenAgreesOffLeapDay` | scraper.py:197-219 | off 29 February the code and the corrected parse agree on every string |
| `DateFacts.LeapDayAsWrittenOn` | scraper.py:205-219 | a string read as 29 February that no numeric format accepts is dropped by the code |
| `DateFacts.NoNameNoDate` | scraper.py:205-210 | no month name means neither yearless branch accepts |
| `DateFacts.NoNumericDate` | scraper.py:213-217 | with neither a slash nor a dash, no numeric format accepts |
| `DateFacts.LeapDayDroppedAsWritten` | scraper.py:205-208 | in every season whose spring year is a leap year, "Feb 29" is dropped as written and read as 29 February by the corrected parse |
| `DateFacts.LeapDay2028` | scraper.py:205-208 | the season 2027/2028 loses 29 February 2028 as written |
| `DateFacts.ClockMeridiemAccepts` | scraper.py:231-234 | "h:mm AM/PM" is read by the first time format on the 12-hour clock |
| `DateFacts.ClockMeridiemText` | scraper.py:222-234 | "h:mm AM/PM" parses to its 24-hour hour and minute |
| `DateFacts.TwelveHourRoundTrip` | scraper.py:226-234 | every 12-hour time written "h:mm AM/PM" parses to its 24-hour equivalent; 12 AM is midnight |
| `DateFacts.ClockNoSpaceAccepts` | scraper.py:231-233 | "h:mmAM" with no space is refused by `%I:%M %p` and read by `%I:%M%p` as To24 of the hour with that minute |
| `DateFacts.NoSpaceTwelveHourRoundTrip` | scraper.py:231-234 | every 12-hour time written "h:mmPM", marker right after the minute, parses to its 24-hour equivalent |
| `DateFacts.SecondsAccepts` | scraper.py:231-233 | "h:mm:ss AM/PM" is refused by the four earlier formats and read by `%I:%M:%S %p` as To24 of the hour with that minute |
| `DateFacts.SecondsRoundTrip` | scraper.py:231-234 | every 12-hour time with seconds, "h:mm:ss PM", parses to its 24-hour hour and minute; the seconds are dropped |
| `DateFacts.HourMeridiemAccepts` | scraper.py:231-234 | "h AM/PM" falls through to `%I %p` and reads as the hour |
| `DateFacts.HourMeridiemText` | scraper.py:222-234 | "h AM/PM" parses to the hour on the hour |
| `DateFacts.HourOnlyRoundTrip` | scraper.py:226-234 | every hour written "h AM/PM" parses to its 24-hour hour |
| `DateFacts.FirstTimeFormatAccepts` | scraper.py:231-234 | a time `%I:%M %p` accepts is read by it |
| `DateFacts.TimeFormatsInOrder` | scraper.py:231-236 | the time formats are tried in the order written |
| `DateFacts.Clock24Accepts` | scraper.py:231-234 | "HH:MM" falls through the 12-hour formats to `%H:%M` |
| `DateFacts.Clock24Text` | scraper.py:222-234 | "HH:MM" parses to its hour and minute |
| `DateFacts.TwentyFourHourRoundTrip` | scraper.py:222-234 | every 24-hour time written "HH:MM" parses back to itself |
| `DateFacts.TimeTextNormal` | scraper.py:233 | `strip().upper()` leaves an upper-case, unpadded time alone |
| `CivilTime.DaysInMonth` | scraper.py:208 | month lengths of the Gregorian calendar, February 29 days in leap years |
| `CivilTime.NextDay` | scraper.py:351 | the calendar day after a date, at the same time of day |
| `CivilTime.PrevDay` | scraper.py:351 | the calendar day before a date, at the same time of day |
| `CivilTime.AddDays` | scraper.py:351 | `k` days later lands `k` day numbers later, at the same time of day |
| `CivilTime.ShiftHours` | scraper.py:351 | `h` hours later is exactly `60 * h` minutes later on the wall clock |
| `CivilTime.AddHours` | scraper.py:351 | `start + timedelta(hours=h)`: a valid timestamp `60 * h` minutes later, or `None` exactly when its year leaves 1..9999 |
| `CivilTime.NoLaterThanTotal` | scraper.py:399 | any two starts are ordered one way or the other |
| `CivilTime.NoLaterThanTransitive` | scraper.py:399 | the start order is transitive |
| `CivilTime.NoLaterThanIsEarlier` | scraper.py:399 | comparing field by field, year first, is comparing elapsed minutes |
| `CivilTime.FormatStamp` | scraper.py:355 | `strftime('%Y%m%dT%H%M%S')` is 15 characters without a space |
| `CivilTime.ParseFormatStamp` | scraper.py:355 | the stamp's digit fields read back as the timestamp's fields |
| `CivilTime.FormatStampInjective` | scraper.py:355 | different start times give different stamps |
| `Games.ParseGame` | scraper.py:263-296 | `None` exactly when the date field is empty or does not parse; otherwise a valid start from the date and time fields, in the eastern zone, and the other fields as looked up |
| `Games.ItemWithoutDateSkipped` | scraper.py:265-280 | an item with no value under any date alias is skipped |
| `Games.GameStartFromFirstDateAlias` | scraper.py:265-282 | the start is parsed from the stripped value of the first date alias that has one |
| `Games.GameWithoutTimeAtMidnight` | scraper.py:251-266 | with no time under any time alias the game starts at midnight |
| `Ical.TitleShape` | scraper.py:303-317 | a title is the team, then " @ home" when the team is the away side and " vs away" otherwise, then a bar and the rink exactly when there is a rink |
| `Ical.TitleAwayIgnoresCaseAndPadding` | scraper.py:305-312 | for a present away side, the title is an away title at the home team exactly when the stripped away side lower-cases to the team's name lower-cased; in particular the team's name in capitals, with any padding, gives an away title |
| `Ical.TitleWithoutAwayTeam` | scraper.py:305-312 | a missing away side reads as "Away", and is the team only if the team is called "away" in some case |
| `Ical.DescriptionShape` | scraper.py:320-332 | the home and away lines with "TBD" fallbacks, then a "Final" line exactly when both scores are present, then a "Rink" line exactly when the rink is |
| `Ical.EventDescription` | scraper.py:320-332 | the appending code builds the lines `DescriptionShape` describes, joined by newlines |
| `Ical.DescriptionSplitsIntoLines` | scraper.py:332 | when no field holds a newline, splitting the description at newlines gives back its lines |
| `Ical.UidShape` | scraper.py:353-358 | a UID holds no space: the start stamp, a dash, the home team, a dash and the away team, with spaces turned into underscores, then the domain |
| `Ical.UidIgnoresScoresAndRink` | scraper.py:353-358 | games with the same start and teams get the same UID whatever their scores and rink |
| `Ical.UidDeterminesStart` | scraper.py:353-358 | two events with the same UID start at the same time |
| `Ical.EventEndsAfterStart` | scraper.py:351 | with a positive duration an event ends strictly after it starts |
| `Ical.EventEndInRange` | scraper.py:351 | a duration of up to a day does not overflow before the year 9999 |
| `Ical.EventOf` | scraper.py:349-366 | a game's event exists exactly when its end does not overflow, and it ends at that end |
| `Ical.EventLocationAndStart` | scraper.py:362-364 | the location is never empty, and is "TBD" only when the rink is missing or is "TBD"; the event starts at the game's start in its zone |
| `Ical.Collect` | scraper.py:349-368 | when every option holds a value, one value per option |
| `Ical.CollectNone` | scraper.py:349-368 | collecting fails exactly when some option is empty |
| `Ical.CollectAt` | scraper.py:349-368 | the collected value at position `j` is option `j`'s value |
| `Ical.EventsOfGames` | scraper.py:349-368 | the events exist exactly when no game's end overflows, and then event `j` belongs to game `j` |
| `Ical.NewCalendar` | scraper.py:336-347 | a new calendar holds the seven header properties in order and no events |
| `Ical.BuildEvent` | scraper.py:351-366 | the loop body builds exactly `EventOf` of the game |
| `Ical.Calendar.Add` | scraper.py:338 | `add` appends one property and leaves the components alone |
| `Ical.Calendar.AddComponent` | scraper.py:368 | `add_component` appends one event and leaves the properties alone |
| `Ical.GenerateIcs` | scraper.py:335-370 | the header properties, then the events of the games in their order; when an end overflows, the calendar stops before that game and `ok` is false |
| `Pipeline.Somes` | scraper.py:388-391 | keeping the values of the options that hold one gives no more than there were options |
| `Pipeline.SomesAppend` | scraper.py:388-391 | filtering distributes over concatenation |
| `Pipeline.SomesMember` | scraper.py:388-391 | a value is kept exactly when some option holds it |
| `Pipeline.SomesEmpty` | scraper.py:388-391 | nothing is kept exactly when every option is empty |
| `Pipeline.AcceptedGameMember` | scraper.py:388-391 | a game is kept exactly when some raw item parses to it |
| `Pipeline.NoAcceptedGames` | scraper.py:388-396 | no game is kept exactly when no raw item parses |
| `Pipeline.AcceptedGamesAppend` | scraper.py:388-391 | items are filtered one by one, so filtering a concatenation concatenates the results |
| `Pipeline.AcceptedStartsValid` | scraper.py:388-391 | every kept game has a valid start |
| `Pipeline.Insert` | scraper.py:399 | inserting adds exactly one game to the multiset |
| `Pipeline.SortByStart` | scraper.py:399 | the sort is a permutation of the games |
| `Pipeline.InsertSorted` | scraper.py:399 | inserting into a sorted list keeps it sorted |
| `Pipeline.SortSorted` | scraper.py:399 | the sorted games are in start order |
| `Pipeline.SortStable` | scraper.py:399 | games with the same start keep their relative order, as `list.sort` does |
| `Pipeline.InsertStable` | scraper.py:399 | an inserted game goes before the games that start when it does |
| `Pipeline.SortedStartsValid` | scraper.py:399 | sorting keeps every start valid |
| `Pipeline.Run` | scraper.py:377-402 | no items stop the run; no parsed game stops it; an overflowing end fails it; otherwise the calendar of the sorted games is published |

## Left out

- Playwright, the network and the AJAX interception (scraper.py:46-109), and the DOM fallback (scraper.py:139-170): I/O. The raw items and the page text are inputs.
- Loading `config.json` (scraper.py:28-39): I/O. The team name and the duration are the `Config` parameter.
- `datetime.now()` (scraper.py:127): a clock. It is the `Today` parameter.
- `ZoneInfo("America/Toronto")` (scraper.py:36, 287): time-zone data. The zone is a tag on each game and on each event. Daylight-saving gaps and folds are not modelled.
- `cal.to_ical()` and the byte serialisation (scraper.py:370): outside the script (icalendar). The calendar is modelled as its property list and its list of events.
- `main`'s directory creation, prints, `sys.exit` and the file write, and its first-game and last-game report (scraper.py:378-406): I/O. The run ends with an `Outcome` value instead.
- Locale: `strptime` month names are the English ones of the C locale.
- Locale: `strptime` leniencies beyond the regular grammar of each field are not modelled.
- DateParsing.ParseDate, DateParsing.ParseDateTime, Games.ParseGame, Pipeline.Run: the yearless branch is the corrected `YearlessDate` (see Findings). The code, modelled as `ParseDateTextAsWritten`, also drops "Feb 29" in a leap spring year, where these members give 29 February. Off that day the two agree on every string (`DateFacts.AsWrittenAgreesOffLeapDay`).
- Season.FindLabel, DateParsing.SmallNumber, DateParsing.DayField, DateParsing.YearField: `\d` and `\w` are the ASCII classes, and `int()` reads ASCII digits only. Python's `re` and `strptime` use the Unicode classes on `str`. So on page text "é25/26" the model finds the label where Python finds none and falls back to the clock, and it refuses non-ASCII digits such as "٢٥/٢٦" or "Sep 1٦", which Python reads.
- Text.Lower, Text.Upper: ASCII letters only. This is exact for `_get`, whose aliases are ASCII. For `_parse_time` it is exact too, because no other character upper-cases to a digit, a colon or one of A, M, P.
- Ical.TitleShape: `TEAM_NAME.lower()` and the away name are compared with ASCII-only case folding. A team name with non-ASCII letters may compare differently in Python.
- CivilTime.FormatStamp: `%Y` is always padded to four digits. Some C libraries do not pad years below 1000 in `strftime`.
- Ical.GenerateIcs: where Python raises `OverflowError` the model returns `ok == false` with the events built so far. The script stops with an uncaught exception and writes nothing.

## Findings

| source | as written | input that shows it | evidently intended | confidence | as-written member | corrected member |
|---|---|---|---|---|---|---|
| scraper.py:205-208 | `datetime.strptime(s, "%b %d")` validates the day against strptime's default year 1900, which is not a leap year. Only after that does `.replace(year=…)` set the season's year, so "Feb 29" raises `ValueError` in every season. The numeric formats refuse it too, so the game is dropped | "Feb 29" with the season 2027/2028: the spring year is 2028, a leap year | 29 February of the spring year is a valid game date | not executed | `DateFacts.LeapDayDroppedAsWritten` | `DateParsing.YearlessDate` |
