# Hockey-reference scrapers: row extraction and season aggregation

This project models the two command-line scrapers of the repository. Each one
reads a range of NHL seasons, fetches one hockey-reference page per season,
extracts records from an HTML table, and concatenates them, tagged with their
season.

- The **standings scraper** (`scrapping/team_data_scrapper.py`) reads the
  `standings_WES` and then the `standings_EAS` table of each season. Each
  `full_table` body row gives one `{team, GF, GA, GP}` record.
- The **skater scraper** (`scrapping/player_data_scrapper.py`) reads the
  `player_stats` table. Each body row gives a `{name, age, team, position, TOI}`
  record, and the time on ice `"m:s"` becomes `m + s/60` minutes.

The two scrapers handle bad rows in different ways:

- **All-or-nothing (teams).** There is no `try` around a team row. A goals,
  opponent-goals or games cell that is present but not an integer raises out of
  the table parser and out of `main`. The run stops at that season, and no
  later season is requested.
- **Per-row drop (players).** Every row is read inside its own bare
  `try/except`. A row whose reading raises is left out, and the other rows are
  unaffected.

Modules:

- `Wrappers`: `Option` and `Result`.
- `Numbers`: `int()` on a decimal literal with an optional sign, and its inverse
  `IntToString`.
- `Text`: `str.replace(c, '')` and `str.split(sep)`, with their laws.
- `Html`: the abstract page. A page is a sequence of tables. A table is an id
  plus its body rows. A row is a class set, a map from `(tag, data-stat)` to
  cell text, and a map from `(tag, data-stat)` to the text of the anchor inside
  that cell. `select_one` is read as a lookup in these maps, and
  `soup.find('table', {'id': id})` as the first table with that id.
- `Seasons`: the parts of `main` the two scrapers share.
  - The range check.
  - `range(start, end + 1)`.
  - Skipping non-200 seasons.
  - Tagging records with their season and concatenating them in season order.
  - The "no data" decision.
- `TeamScraper` and `PlayerScraper`: the row readers, the table parser
  (`ParseHockeyStandings`, a loop method proved against a specification
  function), the season loop (`CollectStandings` / `CollectStats`) and `main`
  (`RunTeams` / `RunPlayers`). Each `main` is proved equal to a pure run
  function (`TeamRun` / `PlayerRun`), and lemmas state what a run does.

The console, the network and the disk are not modelled:

- The two `input()` texts are parameters.
- `requests.get` is a function `fetch` from season to `Response(status, page)`.
- A run's result (`Run`) records:
  - whether the range warning was printed;
  - the seasons requested, in order;
  - the outcome: refused, crashed at a season, "no data", or the
    season-tagged rows that would be written to the CSV file.

## Model

| member | source | states |
|---|---|---|
| Html.FindTable | scrapping/team_data_scrapper.py:24-26 | The table found is the first table of the page with the requested id, and none is found exactly when no table has that id. |
| Html.TextCell | scrapping/player_data_scrapper.py:39-40 | An absent cell reads as the empty string. |
| Html.IntCell | scrapping/team_data_scrapper.py:43-44 | An absent cell reads as `None`. A present cell reads successfully exactly when its text is an integer literal, and then as `int` of its text; otherwise it raises the invalid-literal error for that text. |
| Numbers.ParseInt | scrapping/team_data_scrapper.py:44 | `int(text)` succeeds exactly on an optionally signed run of decimal digits; its sign follows the leading `-`. `ParseIntLeadingZero`, `ParseIntSigned` and `ParseIntOfIntToString` fix the value of every accepted literal. |
| Numbers.ParseIntLeadingZero | scrapping/team_data_scrapper.py:44 | Zero padding does not change the value: `int('0' + s) == int(s)` for every digit string `s`, so `'05'` reads as 5. |
| Numbers.ParseIntSigned | scrapping/team_data_scrapper.py:44 | A `+` in front of a digit string leaves its value unchanged, and a `-` negates it, zero padding included (`'-05'` reads as -5). |
| Numbers.ParseIntOfIntToString | scrapping/team_data_scrapper.py:44 | `int(str(n)) == n` for every integer `n`, negative ones included. |
| Text.Remove | scrapping/team_data_scrapper.py:40 | `replace('*', '')` leaves no `*` and never lengthens the text, and a text without `*` is unchanged. |
| Text.RemoveAppend | scrapping/team_data_scrapper.py:40 | Removing a character distributes over concatenation. |
| Text.RemoveCounts | scrapping/team_data_scrapper.py:40 | Exactly the removed character's occurrences disappear; every other character keeps its count. |
| Text.Split | scrapping/player_data_scrapper.py:56 | `split(':')` gives at least one part, and no part contains the separator. |
| Text.JoinSplit | scrapping/player_data_scrapper.py:56 | Joining the parts of a split with the separator rebuilds the text. |
| Text.SplitJoin | scrapping/player_data_scrapper.py:56 | Splitting a join of separator-free parts gives back those parts. |
| Text.SplitWithoutSep | scrapping/player_data_scrapper.py:56 | A text without the separator splits into itself alone. |
| Text.SplitAtFirstSep | scrapping/player_data_scrapper.py:56 | The part before the first separator is the first part, and the rest splits on its own. |
| Text.SplitCount | scrapping/player_data_scrapper.py:56 | There is exactly one more part than there are separators. |
| Seasons.ValidateRange | scrapping/team_data_scrapper.py:66-79 | A non-integer input refuses. A start after the end refuses. Otherwise the range is accepted, and the warning is raised exactly when it reaches before 1917 or after 2026. |
| Seasons.SeasonRange | scrapping/team_data_scrapper.py:83 | `range(start, end + 1)` has `end - start + 1` seasons (none if `end < start`), and its `i`-th season is `start + i`. |
| Seasons.SeasonRangeUpTo | scrapping/team_data_scrapper.py:83 | The first `count` seasons visited, ending at some season, are the range from the start to that season. |
| Seasons.Succeeded | scrapping/team_data_scrapper.py:90-105 | The successful seasons are exactly the seasons whose fetch status is 200, and there are no more of them than seasons. |
| Seasons.SucceededIncreasing | scrapping/team_data_scrapper.py:83-105 | Filtering an ascending season list keeps it ascending. |
| Seasons.FlattenLength | scrapping/team_data_scrapper.py:108 | The concatenation has as many rows as the seasons' record counts add up to. |
| Seasons.FlattenAt | scrapping/team_data_scrapper.py:108 | The `j`-th record of the `i`-th season sits at position offset(`i`) + `j` of the concatenation, tagged with that season. |
| Seasons.FlattenOrigin | scrapping/team_data_scrapper.py:108 | Every concatenated row is some season's record, tagged with that season. |
| Seasons.FlattenSorted | scrapping/team_data_scrapper.py:108 | When the seasons are ascending, the concatenated rows are in non-decreasing season order. |
| Seasons.NoDataExactly | scrapping/team_data_scrapper.py:107-126 | "No data was collected" exactly when no season of the range was fetched with status 200, even if a successful season held no rows. |
| Seasons.RowsFromFetchedSeasons | scrapping/team_data_scrapper.py:90-108 | Every saved row carries a season of the range whose fetch succeeded, and it is one of that season's records. |
| Seasons.RowsInSeasonOrder | scrapping/team_data_scrapper.py:83-108 | Saved rows are in ascending season order. |
| TeamScraper.TeamName | scrapping/team_data_scrapper.py:39-40 | The team name is the anchor text with every `*` removed, so it contains no `*`; it is `''` when the cell has no anchor. |
| TeamScraper.TeamNameDropsMarker | scrapping/team_data_scrapper.py:39-40 | Anchor text `name*` gives `name` ("Boston Bruins*" gives "Boston Bruins"). |
| TeamScraper.TeamRowSpec | scrapping/team_data_scrapper.py:39-60 | A row reads exactly when each of GF, GA and GP is absent or an integer. The record then has exactly the fields team, GF, GA and GP, each read from its cell. Otherwise the error is the first bad cell in the order GF, GA, GP. |
| TeamScraper.TeamRowRoundTrip | scrapping/team_data_scrapper.py:39-60 | Reading the row that spells a record gives that record back. |
| TeamScraper.FullTableRows | scrapping/team_data_scrapper.py:31 | The class filter never yields more rows than the body has. |
| TeamScraper.FullTableRowsExactly | scrapping/team_data_scrapper.py:31 | The candidate rows are exactly the body rows that carry class `full_table`. |
| TeamScraper.FullTableRowsAppend | scrapping/team_data_scrapper.py:31 | The row filter treats each row on its own, so it keeps the body order. |
| TeamScraper.TeamRecordsAllOrNothing | scrapping/team_data_scrapper.py:37-62 | The table reads successfully exactly when every row does, and then gives exactly one record per row, in row order; no row is skipped. |
| TeamScraper.TeamRecordsFirstError | scrapping/team_data_scrapper.py:37-62 | A failing table raises the error of its first failing row. |
| TeamScraper.TeamBadRowFailsAll | scrapping/team_data_scrapper.py:43-52 | One bad numeric cell fails the whole table, whatever surrounds it. |
| TeamScraper.TeamRecordsErrSticks | scrapping/team_data_scrapper.py:37-62 | Once a prefix of the rows fails, every longer prefix fails with the same error. |
| TeamScraper.ParseHockeyStandings | scrapping/team_data_scrapper.py:22-62 | The loop computes the table's specification: `[]` when the table is missing, and otherwise one record per `full_table` row or the first row's error. |
| TeamScraper.WestBeforeEast | scrapping/team_data_scrapper.py:94-98 | A season reads successfully exactly when both tables do. Its records are all the western records followed by all the eastern records. When the western table raises, the season raises the western error; when only the eastern table raises, it raises the eastern error. |
| TeamScraper.ParseSeasonStandings | scrapping/team_data_scrapper.py:94-98 | The two parser calls compute the season's specification: west, then east, the first error stopping it. |
| TeamScraper.TeamEntriesSpec | scrapping/team_data_scrapper.py:83-105 | The season loop completes exactly when no season crashes. Its keys are the seasons fetched with status 200, each holding that page's standings. When it fails, the error is that of the first crashing season. |
| TeamScraper.TeamEntriesErrSticks | scrapping/team_data_scrapper.py:83-105 | A crash in a prefix of the seasons is the crash of the whole loop. |
| TeamScraper.CollectStandings | scrapping/team_data_scrapper.py:81-105 | The loop computes the season specification. It visits every season when nothing raises, and otherwise stops right after the crashing season. |
| TeamScraper.RunTeams | scrapping/team_data_scrapper.py:64-126 | `main` equals the run specification `TeamRun`. |
| TeamScraper.TeamRunRequests | scrapping/team_data_scrapper.py:66-88 | Bad input or a start after the end refuses, with no warning and no season requested. Otherwise the warning follows the 1917..2026 check, and the seasons requested are those from the start up to the crashing season, or up to the end. |
| TeamScraper.TeamRunCrash | scrapping/team_data_scrapper.py:43-52 | A valid run crashes exactly when some season of the range crashes, and then at the first such season, with its error. |
| TeamScraper.TotalCountIsRecordCount | scrapping/team_data_scrapper.py:83-108 | The rows collected number the sum of the successful seasons' record counts. |
| TeamScraper.TeamRunCollected | scrapping/team_data_scrapper.py:83-126 | A run without a crash reports no data exactly when no fetch succeeded. Otherwise it saves as many rows as the successful seasons hold. Each row carries a successful season of the range and a record of that season's standings, and the rows are in ascending season order. |
| PlayerScraper.TimeOnIceNeedsOneColon | scrapping/player_data_scrapper.py:56 | A time on ice without exactly one colon does not unpack into two parts, so it fails. |
| PlayerScraper.TimeOnIceOfOneColon | scrapping/player_data_scrapper.py:56-57 | `m:s` reads as `int(m) + int(s)/60` when both sides are integer literals, and fails otherwise; the seconds are not range-checked. |
| PlayerScraper.TimeOnIceRoundTrip | scrapping/player_data_scrapper.py:56-57 | Every unpadded spelling `str(m) + ':' + str(s)` of two integers reads back as exactly `m + s/60`. |
| PlayerScraper.TimeOnIceRoundTripPadded | scrapping/player_data_scrapper.py:56-57 | Every spelling with the seconds (0 to 59) padded to two digits, as the site writes them, reads back as exactly `m + s/60`. |
| PlayerScraper.TimeOnIcePaddedSeconds | scrapping/player_data_scrapper.py:56-57 | "18:05" is 18 minutes and 5 seconds. |
| PlayerScraper.TimeOnIceHalfMinute | scrapping/player_data_scrapper.py:56-57 | "18:30" is 18.5 minutes. |
| PlayerScraper.TimeOnIceQuarterMinute | scrapping/player_data_scrapper.py:56-57 | "15:45" is 15.75 minutes. |
| PlayerScraper.TimeOnIceZero | scrapping/player_data_scrapper.py:56-57 | "0:00" is 0 minutes. |
| PlayerScraper.PlayerRow | scrapping/player_data_scrapper.py:37-68 | A row is kept exactly when its age is absent or an integer and its time-on-ice cell is present and reads. A missing name, team or position does not matter. A kept record has exactly the fields name, age, team, position and TOI, each read from its cell. |
| PlayerScraper.PlayerRowRoundTrip | scrapping/player_data_scrapper.py:39-66 | Reading the row that spells a record gives that record back, with its time on ice as `m + s/60`. |
| PlayerScraper.KeptPlayers | scrapping/player_data_scrapper.py:31-68 | There are at most as many kept records as body rows. |
| PlayerScraper.KeptPlayersSubsequence | scrapping/player_data_scrapper.py:31-68 | The kept records are an order-preserving subsequence of the rows. Each is the reading of its row, and a row is kept exactly when its reading succeeds. |
| PlayerScraper.KeptPlayersAppend | scrapping/player_data_scrapper.py:36-68 | Rows are read independently: the records kept from two blocks of rows sit side by side. |
| PlayerScraper.BadRowDropsOnlyItself | scrapping/player_data_scrapper.py:44-68 | A row that fails drops only itself, and the rows around it are kept as before. |
| PlayerScraper.ParseHockeyStandings | scrapping/player_data_scrapper.py:22-70 | The loop computes the table's specification: `[]` when the table is missing, otherwise the kept rows, and never more records than rows. |
| PlayerScraper.PlayerEntriesSpec | scrapping/player_data_scrapper.py:91-111 | The dictionary's keys are exactly the seasons fetched with status 200, in order. Each holds that page's `player_stats` records. |
| PlayerScraper.CollectStats | scrapping/player_data_scrapper.py:89-111 | The season loop computes the season specification. |
| PlayerScraper.RunPlayers | scrapping/player_data_scrapper.py:72-133 | `main` equals the run specification `PlayerRun`. |
| PlayerScraper.PlayerRunRequests | scrapping/player_data_scrapper.py:74-96 | Bad input or a start after the end refuses, with no warning and no season requested. Otherwise the warning follows the 1917..2026 check, and every season from the start to the end is requested in order. |
| PlayerScraper.TotalCountIsPlayerCount | scrapping/player_data_scrapper.py:98-114 | The rows collected number the sum of the successful seasons' record counts. |
| PlayerScraper.PlayerRunCollected | scrapping/player_data_scrapper.py:98-133 | A run over a valid range never crashes: it ends with "no data" or a save, because a bad row is dropped on its own. "No data" happens exactly when no fetch of the range succeeded. Otherwise one row is saved per record of the successful seasons. Each row carries a successful season of the range and a record of that season's table, and the rows are in ascending season order. |

## Left out

- Network I/O: `requests.get` and the URL are a `fetch` parameter from season to status and page. Connection errors are not modelled.
- HTML parsing and CSS selectors: BeautifulSoup is replaced by the abstract page.
  - `select_one('td[data-stat="x"]')` is a map lookup, so only the first matching cell is seen.
  - `.text` is the stored cell or anchor text.
  - `tbody tr` is the table's body rows.
  - A table is found by its id alone.
- Console and disk I/O are not modelled: `input`, `print`, `tqdm`, `os.path`, `os.makedirs` and `to_csv`.
- The messages "Table not found", "Failed to retrieve data" and "Data successfully saved" are not recorded. Only the range warning is, as `Run.warning`.
- pandas behaviour is not modelled:
  - `None` becoming NaN;
  - integer columns becoming float;
  - the columns of an empty frame;
  - the CSV layout.
  A saved run is the sequence of season-tagged records.
- Numbers.ParseInt: accepts only an optional `-` or `+` followed by ASCII decimal digits. Python's `int()` also allows surrounding whitespace, `_` separators and non-ASCII digits.
- Numbers.ParseInt: has no length limit. Current Python raises `ValueError` on decimal strings of more than 4300 digits, so for such a cell the model gives a team record where Python crashes the run, and keeps a player row that Python drops.
- PlayerScraper.ParseTimeOnIce: TOI is an exact `real`, so the rounding of Python's float division `s/60` is not modelled.
- PlayerScraper.ParseTimeOnIce: float overflow is not modelled. In Python, `int(s)/60` raises `OverflowError` when the seconds are too large for a float, and so does adding a float to minutes of about 309 digits or more. Python then drops the row inside the `try`, while `PlayerRow` keeps it with an exact `real`.
- A present TOI is never `None`. The `None` branch of the TOI conversion (`scrapping/player_data_scrapper.py:57`) cannot be reached, because the unpacking on line 56 already raises when the cell is missing.
- Any other exception a player row could raise inside the `try` is not modelled. The ones modelled are the age conversion, the TOI unpacking, and the `int` conversions of the two TOI parts. The float overflow of the TOI arithmetic is not modelled (see above).
- The model follows the code on these points, which a reader could expect otherwise:
  - A player row without a time-on-ice cell is dropped, not kept with a null TOI.
  - A team row is not dropped when a field fails. A missing cell gives `''` or `None`, and a non-integer numeric cell ends the whole run (`Outcome.Crashed`) instead of being skipped.
  - Every `*` is removed from a team name, not only a leading one.
  - "No data was collected" depends on whether any fetch succeeded, not on whether any rows were collected.
