/**
 * The standings scraper: per-season team records read from the western and
 * eastern conference tables of a standings page.
 *
 * Its row policy is all-or-nothing for the whole call: a present but
 * non-integer goals, opponent-goals or games cell raises out of the table
 * parser and out of `main`, so the run stops at that season.
 */
module TeamScraper {
  import opened Wrappers
  import opened Numbers
  import opened Text
  import opened Html
  import opened Seasons

  const WestTableId := "standings_WES"
  const EastTableId := "standings_EAS"
  /** The class that marks a genuine team row in the table body. */
  const FullTableClass := "full_table"
  const TeamNameCell := CellKey("th", "team_name")
  const GoalsCell := CellKey("td", "goals")
  const OppGoalsCell := CellKey("td", "opp_goals")
  const GamesCell := CellKey("td", "games")

  /** One team record: the dictionary with exactly the keys team, GF, GA and GP. */
  datatype TeamRecord = TeamRecord(team: string, goalsFor: Option<int>, goalsAgainst: Option<int>, gamesPlayed: Option<int>)

  /** A season whose standings raised, and the error that stopped the run. */
  datatype Crash = Crash(season: int, error: IntError)

  /** The team name: the anchor text of the team-name cell with every `*` removed, or "" without an anchor. */
  function TeamName(row: Row): (name: string)
    ensures '*' !in name
    ensures TeamNameCell in row.anchors ==> name == Remove(row.anchors[TeamNameCell], '*')
    ensures TeamNameCell !in row.anchors ==> name == ""
  {
    if TeamNameCell in row.anchors then Remove(row.anchors[TeamNameCell], '*') else ""
  }

  /** A trailing marker asterisk is dropped: anchor text `name + "*"` gives `name` ("Boston Bruins*" gives "Boston Bruins"). */
  lemma TeamNameDropsMarker(row: Row, name: string)
    requires '*' !in name
    requires TeamNameCell in row.anchors && row.anchors[TeamNameCell] == name + "*"
    ensures TeamName(row) == name
  {
    RemoveAppend(name, "*", '*');
    assert Remove("*", '*') == [] by {
      assert "*"[1..] == [];
    }
  }

  /** One full_table row read into a record, or the error of the cell that raised. */
  function TeamRow(row: Row): Result<TeamRecord, IntError> {
    var teamName := TeamName(row);
    match IntCell(row, GoalsCell)
    case Err(e) => Err(e)
    case Ok(goalsFor) =>
      match IntCell(row, OppGoalsCell)
      case Err(e) => Err(e)
      case Ok(goalsAgainst) =>
        match IntCell(row, GamesCell)
        case Err(e) => Err(e)
        case Ok(gamesPlayed) => Ok(TeamRecord(teamName, goalsFor, goalsAgainst, gamesPlayed))
  }

  /**
   * A row reads exactly when each of GF, GA and GP is absent or an integer,
   * into the record of its team name and those three cells; otherwise the
   * first of GF, GA and GP (in that order) that is present but not an integer
   * is the error raised.
   */
  lemma TeamRowSpec(row: Row)
    ensures var r := TeamRow(row);
      && (r.Ok? <==> IntCellOk(row, GoalsCell) && IntCellOk(row, OppGoalsCell) && IntCellOk(row, GamesCell))
      && (r.Ok? ==>
            && r.value.team == TeamName(row)
            && ReadsAs(row, GoalsCell, r.value.goalsFor)
            && ReadsAs(row, OppGoalsCell, r.value.goalsAgainst)
            && ReadsAs(row, GamesCell, r.value.gamesPlayed))
      && (r.Err? ==>
            || (!IntCellOk(row, GoalsCell) && r.error == InvalidLiteral(row.cells[GoalsCell]))
            || (IntCellOk(row, GoalsCell) && !IntCellOk(row, OppGoalsCell)
                && r.error == InvalidLiteral(row.cells[OppGoalsCell]))
            || (IntCellOk(row, GoalsCell) && IntCellOk(row, OppGoalsCell) && !IntCellOk(row, GamesCell)
                && r.error == InvalidLiteral(row.cells[GamesCell])))
  {
  }

  /** A full_table row that shows `rec` the way the standings page spells it. */
  function RenderTeamRow(rec: TeamRecord): Row {
    var cells := WithIntCell(WithIntCell(WithIntCell(map[], GoalsCell, rec.goalsFor),
                                         OppGoalsCell, rec.goalsAgainst), GamesCell, rec.gamesPlayed);
    Row({FullTableClass}, cells, map[TeamNameCell := rec.team])
  }

  /** Reading a rendered row gives the record back, for any team name without `*`. */
  lemma TeamRowRoundTrip(rec: TeamRecord)
    requires '*' !in rec.team
    ensures TeamRow(RenderTeamRow(rec)) == Ok(rec)
  {
    var row := RenderTeamRow(rec);
    if rec.goalsFor.Some? { ParseIntOfIntToString(rec.goalsFor.value); }
    if rec.goalsAgainst.Some? { ParseIntOfIntToString(rec.goalsAgainst.value); }
    if rec.gamesPlayed.Some? { ParseIntOfIntToString(rec.gamesPlayed.value); }
    assert row.cells == WithIntCell(WithIntCell(WithIntCell(map[], GoalsCell, rec.goalsFor),
                                         OppGoalsCell, rec.goalsAgainst), GamesCell, rec.gamesPlayed);
  }

  /** `table.select('tbody tr.full_table')`: the body rows carrying class full_table, in order. */
  function FullTableRows(rows: seq<Row>): (r: seq<Row>)
    ensures |r| <= |rows|
    decreases |rows|
  {
    if rows == [] then []
    else
      var last := rows[|rows| - 1];
      var earlier := FullTableRows(rows[..|rows| - 1]);
      if FullTableClass in last.classes then earlier + [last] else earlier
  }

  /** The rows kept are exactly the body rows that carry class full_table. */
  lemma {:induction false} FullTableRowsExactly(rows: seq<Row>)
    ensures forall x :: x in FullTableRows(rows) ==> x in rows && FullTableClass in x.classes
    ensures forall x :: x in rows && FullTableClass in x.classes ==> x in FullTableRows(rows)
    decreases |rows|
  {
    if rows != [] {
      var last := rows[|rows| - 1];
      var init := rows[..|rows| - 1];
      FullTableRowsExactly(init);
      assert rows == init + [last];
    }
  }

  /** Filtering is row by row, so it keeps the body order. */
  lemma {:induction false} FullTableRowsAppend(a: seq<Row>, b: seq<Row>)
    ensures FullTableRows(a + b) == FullTableRows(a) + FullTableRows(b)
    decreases |b|
  {
    if b == [] {
      assert a + b == a;
    } else {
      var init := b[..|b| - 1];
      var last := b[|b| - 1];
      FullTableRowsAppend(a, init);
      assert (a + b)[..|a + b| - 1] == a + init;
      assert (a + b)[|a + b| - 1] == last;
      var tail := if FullTableClass in last.classes then [last] else [];
      assert FullTableRows(b) == FullTableRows(init) + tail;
      assert FullTableRows(a + b) == FullTableRows(a + init) + tail;
    }
  }

  /** The records of the full_table rows in order, or the first error raised. */
  function TeamRecords(rows: seq<Row>): Result<seq<TeamRecord>, IntError>
    decreases |rows|
  {
    if rows == [] then Ok([])
    else
      match TeamRecords(rows[..|rows| - 1])
      case Err(e) => Err(e)
      case Ok(earlier) =>
        match TeamRow(rows[|rows| - 1])
        case Err(e) => Err(e)
        case Ok(rec) => Ok(earlier + [rec])
  }

  /** The rows give records exactly when every row reads. */
  lemma {:induction false} TeamRecordsOkIff(rows: seq<Row>)
    ensures TeamRecords(rows).Ok? <==> forall i :: 0 <= i < |rows| ==> TeamRow(rows[i]).Ok?
    decreases |rows|
  {
    if rows != [] {
      var n := |rows| - 1;
      var init := rows[..n];
      TeamRecordsOkIff(init);
      assert forall i :: 0 <= i < n ==> init[i] == rows[i];
      if TeamRecords(init).Err? {
        var i :| 0 <= i < n && !TeamRow(init[i]).Ok?;
        assert TeamRecords(rows).Err?;
        assert !TeamRow(rows[i]).Ok?;
      } else if TeamRow(rows[n]).Err? {
        assert TeamRecords(rows).Err?;
      } else {
        assert TeamRecords(rows).Ok?;
      }
    }
  }

  /** Records that were given are one per row, in row order. */
  lemma {:induction false} TeamRecordsInRowOrder(rows: seq<Row>)
    requires TeamRecords(rows).Ok?
    ensures |TeamRecords(rows).value| == |rows|
    ensures forall i :: 0 <= i < |rows| ==> TeamRow(rows[i]).Ok? && TeamRecords(rows).value[i] == TeamRow(rows[i]).value
    decreases |rows|
  {
    if rows != [] {
      var n := |rows| - 1;
      var init := rows[..n];
      assert TeamRecords(init).Ok? && TeamRow(rows[n]).Ok?;
      TeamRecordsInRowOrder(init);
      var earlier := TeamRecords(init).value;
      var recs := TeamRecords(rows).value;
      assert recs == earlier + [TeamRow(rows[n]).value];
      forall i | 0 <= i < |rows|
        ensures TeamRow(rows[i]).Ok? && recs[i] == TeamRow(rows[i]).value
      {
        if i < n {
          assert init[i] == rows[i];
          assert recs[i] == earlier[i];
        }
      }
    }
  }

  /**
   * All or nothing: the rows give records exactly when every row reads, and
   * then one record per row, in row order.
   */
  lemma TeamRecordsAllOrNothing(rows: seq<Row>)
    ensures TeamRecords(rows).Ok? <==> forall i :: 0 <= i < |rows| ==> TeamRow(rows[i]).Ok?
    ensures TeamRecords(rows).Ok? ==>
      |TeamRecords(rows).value| == |rows|
      && forall i :: 0 <= i < |rows| ==> TeamRecords(rows).value[i] == TeamRow(rows[i]).value
  {
    TeamRecordsOkIff(rows);
    if TeamRecords(rows).Ok? {
      TeamRecordsInRowOrder(rows);
    }
  }

  /** When the rows raise, the error is that of the first row that fails. */
  lemma {:induction false} TeamRecordsFirstError(rows: seq<Row>)
    requires TeamRecords(rows).Err?
    ensures exists i :: 0 <= i < |rows| && TeamRow(rows[i]) == Err(TeamRecords(rows).error)
                        && forall j :: 0 <= j < i ==> TeamRow(rows[j]).Ok?
    decreases |rows|
  {
    var n := |rows| - 1;
    var init := rows[..n];
    assert forall i :: 0 <= i < n ==> init[i] == rows[i];
    if TeamRecords(init).Err? {
      TeamRecordsFirstError(init);
      var i :| 0 <= i < |init| && TeamRow(init[i]) == Err(TeamRecords(init).error)
        && forall j :: 0 <= j < i ==> TeamRow(init[j]).Ok?;
      assert TeamRow(rows[i]) == Err(TeamRecords(rows).error);
    } else {
      TeamRecordsAllOrNothing(init);
      assert TeamRow(rows[n]) == Err(TeamRecords(rows).error);
    }
  }

  /** One bad row anywhere fails the whole table, whatever the rows around it. */
  lemma TeamBadRowFailsAll(before: seq<Row>, row: Row, after: seq<Row>)
    requires TeamRow(row).Err?
    ensures TeamRecords(before + [row] + after).Err?
  {
    var rows := before + [row] + after;
    TeamRecordsAllOrNothing(rows);
    assert rows[|before|] == row;
  }

  /** Once a prefix has raised, the rows after it are never read. */
  lemma {:induction false} TeamRecordsErrSticks(rows: seq<Row>, k: nat)
    requires k <= |rows| && TeamRecords(rows[..k]).Err?
    ensures TeamRecords(rows) == TeamRecords(rows[..k])
    decreases |rows|
  {
    if k < |rows| {
      var init := rows[..|rows| - 1];
      assert init[..k] == rows[..k];
      TeamRecordsErrSticks(init, k);
    } else {
      assert rows[..k] == rows;
    }
  }

  /** What `parse_hockey_standings(html, id)` returns or raises. */
  function TeamTable(page: Page, id: string): Result<seq<TeamRecord>, IntError> {
    match FindTable(page, id)
    case None => Ok([])
    case Some(table) => TeamRecords(FullTableRows(table.body))
  }

  /**
   * `parse_hockey_standings`: find the table, walk its full_table rows and
   * append one record per row; an integer cell that does not parse raises.
   */
  method ParseHockeyStandings(page: Page, id: string) returns (r: Result<seq<TeamRecord>, IntError>)
    ensures r == TeamTable(page, id)
    ensures FindTable(page, id).None? ==> r == Ok([])
  {
    var table := FindTable(page, id);
    if table.None? {
      // "Table not found"
      return Ok([]);
    }
    var rows := FullTableRows(table.value.body);
    var teamsData: seq<TeamRecord> := [];
    var i := 0;
    while i < |rows|
      invariant 0 <= i <= |rows|
      invariant TeamRecords(rows[..i]) == Ok(teamsData)
    {
      var record := TeamRow(rows[i]);
      assert rows[..i + 1][..i] == rows[..i];
      if record.Err? {
        // int() raised: the exception leaves the function
        TeamRecordsErrSticks(rows, i + 1);
        return Err(record.error);
      }
      teamsData := teamsData + [record.value];
      i := i + 1;
    }
    assert rows[..i] == rows;
    r := Ok(teamsData);
  }

  /** One season's standings: the western table's records, then the eastern table's. */
  function SeasonStandings(page: Page): Result<seq<TeamRecord>, IntError> {
    match TeamTable(page, WestTableId)
    case Err(e) => Err(e)
    case Ok(west) =>
      match TeamTable(page, EastTableId)
      case Err(e) => Err(e)
      case Ok(east) => Ok(west + east)
  }

  /**
   * A season's standings read only if both tables read, and then all western
   * records come first and all eastern records after them; a western error is
   * raised before the eastern table is read.
   */
  lemma WestBeforeEast(page: Page)
    ensures SeasonStandings(page).Ok? <==> TeamTable(page, WestTableId).Ok? && TeamTable(page, EastTableId).Ok?
    ensures SeasonStandings(page).Ok? ==>
      var west := TeamTable(page, WestTableId).value;
      var east := TeamTable(page, EastTableId).value;
      && |SeasonStandings(page).value| == |west| + |east|
      && SeasonStandings(page).value[..|west|] == west
      && SeasonStandings(page).value[|west|..] == east
    ensures TeamTable(page, WestTableId).Err? ==>
      SeasonStandings(page) == Err(TeamTable(page, WestTableId).error)
    ensures TeamTable(page, WestTableId).Ok? && TeamTable(page, EastTableId).Err? ==>
      SeasonStandings(page) == Err(TeamTable(page, EastTableId).error)
  {
  }

  /** Parses the western and then the eastern table of one season's page and concatenates them. */
  method ParseSeasonStandings(page: Page) returns (r: Result<seq<TeamRecord>, IntError>)
    ensures r == SeasonStandings(page)
  {
    var west := ParseHockeyStandings(page, WestTableId);
    if west.Err? {
      return Err(west.error);
    }
    var east := ParseHockeyStandings(page, EastTableId);
    if east.Err? {
      return Err(east.error);
    }
    r := Ok(west.value + east.value);
  }

  /** The dictionary `main` builds over `seasons`, or the season whose standings raised. */
  function TeamEntries(seasons: seq<int>, fetch: int -> Response): Result<seq<Entry<TeamRecord>>, Crash>
    decreases |seasons|
  {
    if seasons == [] then Ok([])
    else
      match TeamEntries(seasons[..|seasons| - 1], fetch)
      case Err(c) => Err(c)
      case Ok(es) =>
        var season := seasons[|seasons| - 1];
        if fetch(season).status != StatusOk then Ok(es)
        else
          match SeasonStandings(fetch(season).page)
          case Err(e) => Err(Crash(season, e))
          case Ok(records) => Ok(es + [Entry(season, records)])
  }

  /** A season whose fetch succeeded and whose standings raise. */
  predicate CrashesAt(season: int, fetch: int -> Response) {
    fetch(season).status == StatusOk && SeasonStandings(fetch(season).page).Err?
  }

  /** The season loop completes exactly when no season of it crashes. */
  lemma {:induction false} TeamEntriesOkIff(seasons: seq<int>, fetch: int -> Response)
    ensures TeamEntries(seasons, fetch).Ok? <==> forall i :: 0 <= i < |seasons| ==> !CrashesAt(seasons[i], fetch)
    decreases |seasons|
  {
    if seasons != [] {
      var n := |seasons| - 1;
      var init := seasons[..n];
      TeamEntriesOkIff(init, fetch);
      assert forall i :: 0 <= i < n ==> init[i] == seasons[i];
      if TeamEntries(init, fetch).Err? {
        var i :| 0 <= i < n && CrashesAt(init[i], fetch);
        assert CrashesAt(seasons[i], fetch);
      }
    }
  }

  /** A completed loop holds exactly the successful seasons, in order, each with its standings. */
  lemma {:induction false} TeamEntriesContents(seasons: seq<int>, fetch: int -> Response)
    requires TeamEntries(seasons, fetch).Ok?
    ensures var es := TeamEntries(seasons, fetch).value;
      && EntrySeasons(es) == Succeeded(seasons, fetch)
      && forall i :: 0 <= i < |es| ==> SeasonStandings(fetch(es[i].season).page) == Ok(es[i].records)
    decreases |seasons|
  {
    if seasons != [] {
      var n := |seasons| - 1;
      var init := seasons[..n];
      var season := seasons[n];
      assert TeamEntries(init, fetch).Ok?;
      TeamEntriesContents(init, fetch);
      var es := TeamEntries(init, fetch).value;
      if fetch(season).status == StatusOk {
        var records := SeasonStandings(fetch(season).page).value;
        assert TeamEntries(seasons, fetch).value == es + [Entry(season, records)];
        assert EntrySeasons(es + [Entry(season, records)]) == EntrySeasons(es) + [season];
      } else {
        assert TeamEntries(seasons, fetch).value == es;
      }
    }
  }

  /** A failed loop failed at its first crashing season, with that season's error. */
  lemma {:induction false} TeamEntriesFirstCrash(seasons: seq<int>, fetch: int -> Response)
    requires TeamEntries(seasons, fetch).Err?
    ensures var c := TeamEntries(seasons, fetch).error;
      exists i :: 0 <= i < |seasons| && seasons[i] == c.season && CrashesAt(c.season, fetch)
        && SeasonStandings(fetch(c.season).page) == Err(c.error)
        && forall j :: 0 <= j < i ==> !CrashesAt(seasons[j], fetch)
    decreases |seasons|
  {
    var n := |seasons| - 1;
    var init := seasons[..n];
    var c := TeamEntries(seasons, fetch).error;
    assert forall i :: 0 <= i < n ==> init[i] == seasons[i];
    if TeamEntries(init, fetch).Err? {
      TeamEntriesFirstCrash(init, fetch);
      assert TeamEntries(init, fetch).error == c;
      var i :| 0 <= i < |init| && init[i] == c.season && CrashesAt(c.season, fetch)
        && SeasonStandings(fetch(c.season).page) == Err(c.error)
        && forall j :: 0 <= j < i ==> !CrashesAt(init[j], fetch);
      assert seasons[i] == c.season;
    } else {
      TeamEntriesOkIff(init, fetch);
      assert c.season == seasons[n];
      assert CrashesAt(seasons[n], fetch);
    }
  }

  /**
   * The entries are exactly the successful seasons, in order, each holding its
   * western then eastern records; the collection fails exactly when some
   * successful season raises, and then at the first such season.
   */
  lemma TeamEntriesSpec(seasons: seq<int>, fetch: int -> Response)
    ensures TeamEntries(seasons, fetch).Ok? <==> forall i :: 0 <= i < |seasons| ==> !CrashesAt(seasons[i], fetch)
    ensures TeamEntries(seasons, fetch).Ok? ==>
      var es := TeamEntries(seasons, fetch).value;
      && EntrySeasons(es) == Succeeded(seasons, fetch)
      && forall i :: 0 <= i < |es| ==>
           SeasonStandings(fetch(es[i].season).page) == Ok(es[i].records)
    ensures TeamEntries(seasons, fetch).Err? ==>
      var c := TeamEntries(seasons, fetch).error;
      exists i :: 0 <= i < |seasons| && seasons[i] == c.season && CrashesAt(c.season, fetch)
        && SeasonStandings(fetch(c.season).page) == Err(c.error)
        && forall j :: 0 <= j < i ==> !CrashesAt(seasons[j], fetch)
  {
    TeamEntriesOkIff(seasons, fetch);
    if TeamEntries(seasons, fetch).Ok? {
      TeamEntriesContents(seasons, fetch);
    } else {
      TeamEntriesFirstCrash(seasons, fetch);
    }
  }

  /** Once the seasons requested so far have crashed, the later seasons are never requested. */
  lemma {:induction false} TeamEntriesErrSticks(seasons: seq<int>, k: nat, fetch: int -> Response)
    requires k <= |seasons| && TeamEntries(seasons[..k], fetch).Err?
    ensures TeamEntries(seasons, fetch) == TeamEntries(seasons[..k], fetch)
    decreases |seasons|
  {
    if k < |seasons| {
      var init := seasons[..|seasons| - 1];
      assert init[..k] == seasons[..k];
      TeamEntriesErrSticks(init, k, fetch);
    } else {
      assert seasons[..k] == seasons;
    }
  }

  /** The whole of `main` with the console and network taken out. */
  function TeamRun(startText: string, endText: string, fetch: int -> Response): Run<TeamRecord> {
    match ValidateRange(startText, endText)
    case Err(why) => Run(false, [], Refused(why))
    case Ok(span) =>
      match TeamEntries(SeasonRange(span.start, span.end), fetch)
      case Ok(es) => Run(span.warning, SeasonRange(span.start, span.end), Finish(es))
      case Err(c) => Run(span.warning, SeasonRange(span.start, c.season), Crashed(c.season, c.error))
  }

  /** An accepted range whose season loop crashes ends the run at the crashing season. */
  lemma TeamRunCrashedAt(startText: string, endText: string, fetch: int -> Response, span: SeasonSpan, crash: Crash)
    requires ValidateRange(startText, endText) == Ok(span)
    requires TeamEntries(SeasonRange(span.start, span.end), fetch) == Err(crash)
    ensures TeamRun(startText, endText, fetch) ==
      Run(span.warning, SeasonRange(span.start, crash.season), Crashed(crash.season, crash.error))
  {
  }

  /** An accepted range whose season loop completes requests every season and finishes. */
  lemma TeamRunFinished(startText: string, endText: string, fetch: int -> Response, span: SeasonSpan,
                        es: seq<Entry<TeamRecord>>)
    requires ValidateRange(startText, endText) == Ok(span)
    requires TeamEntries(SeasonRange(span.start, span.end), fetch) == Ok(es)
    ensures TeamRun(startText, endText, fetch) == Run(span.warning, SeasonRange(span.start, span.end), Finish(es))
  {
  }

  /**
   * The season loop of `main`: for each season in order fetch the page and,
   * on status 200, store the western then eastern standings under the
   * season. `count` is how many seasons were requested before the loop ended.
   */
  method CollectStandings(seasons: seq<int>, fetch: int -> Response)
    returns (r: Result<seq<Entry<TeamRecord>>, Crash>, count: nat)
    ensures r == TeamEntries(seasons, fetch)
    ensures r.Ok? ==> count == |seasons|
    ensures r.Err? ==> 1 <= count <= |seasons| && seasons[count - 1] == r.error.season
  {
    var seasonsStandings: seq<Entry<TeamRecord>> := [];
    var i := 0;
    while i < |seasons|
      invariant 0 <= i <= |seasons|
      invariant TeamEntries(seasons[..i], fetch) == Ok(seasonsStandings)
    {
      var season := seasons[i];
      var response := fetch(season);
      assert seasons[..i + 1][..i] == seasons[..i];
      if response.status == StatusOk {
        var standings := ParseSeasonStandings(response.page);
        if standings.Err? {
          // the exception leaves `main`: no later season is requested
          TeamEntriesErrSticks(seasons, i + 1, fetch);
          return Err(Crash(season, standings.error)), i + 1;
        }
        seasonsStandings := seasonsStandings + [Entry(season, standings.value)];
      }
      i := i + 1;
    }
    assert seasons[..i] == seasons;
    r, count := Ok(seasonsStandings), i;
  }

  /**
   * `main`: validate the range, run the season loop over it, then
   * concatenate, or report that no data was collected.
   */
  method RunTeams(startText: string, endText: string, fetch: int -> Response) returns (run: Run<TeamRecord>)
    ensures run == TeamRun(startText, endText, fetch)
  {
    var check := ValidateRange(startText, endText);
    if check.Err? {
      return Run(false, [], Refused(check.error));
    }
    var span := check.value;
    var seasons := SeasonRange(span.start, span.end);
    var collected, count := CollectStandings(seasons, fetch);
    match collected
    case Err(crash) =>
      TeamRunCrashedAt(startText, endText, fetch, span, crash);
      // the loop requested `count` seasons, the last of them the one that crashed
      assert seasons[..count] == SeasonRange(span.start, crash.season) by {
        SeasonRangeUpTo(span.start, span.end, count, crash.season);
      }
      run := Run(span.warning, seasons[..count], Crashed(crash.season, crash.error));
    case Ok(seasonsStandings) =>
      TeamRunFinished(startText, endText, fetch, span, seasonsStandings);
      run := Run(span.warning, seasons, Finish(seasonsStandings));
  }

  /**
   * Range handling of `main`: bad input or a start after the end refuses
   * before any season is requested; an accepted range keeps its warning and
   * requests its seasons in ascending order from the start, all of them, or up
   * to and including the season that crashed.
   */
  lemma TeamRunRequests(startText: string, endText: string, fetch: int -> Response)
    ensures var run := TeamRun(startText, endText, fetch);
      && (run.outcome.Refused? <==>
            || !IsIntLiteral(startText) || !IsIntLiteral(endText)
            || ParseInt(startText).value > ParseInt(endText).value)
      && (run.outcome.Refused? ==> run.requested == [] && !run.warning)
      && (!run.outcome.Refused? ==>
            var first := ParseInt(startText).value;
            var last := ParseInt(endText).value;
            && (run.warning <==> first < EarliestSeason || last > LatestSeason)
            && (run.outcome.Crashed? ==>
                  first <= run.outcome.season <= last && run.requested == SeasonRange(first, run.outcome.season))
            && (!run.outcome.Crashed? ==> run.requested == SeasonRange(first, last)))
  {
    match ValidateRange(startText, endText)
    case Err(_) =>
    case Ok(span) =>
      var range := SeasonRange(span.start, span.end);
      match TeamEntries(range, fetch)
      case Err(c) =>
        TeamRunCrashedAt(startText, endText, fetch, span, c);
        TeamEntriesFirstCrash(range, fetch);
      case Ok(es) =>
        TeamRunFinished(startText, endText, fetch, span, es);
  }

  /** A season loop over a range that fails, fails at the range's first crashing season. */
  lemma RangeCrashesFirstAt(first: int, last: int, fetch: int -> Response)
    requires TeamEntries(SeasonRange(first, last), fetch).Err?
    ensures var c := TeamEntries(SeasonRange(first, last), fetch).error;
      && first <= c.season <= last
      && CrashesAt(c.season, fetch)
      && SeasonStandings(fetch(c.season).page) == Err(c.error)
      && forall s :: first <= s < c.season ==> !CrashesAt(s, fetch)
  {
    var range := SeasonRange(first, last);
    var c := TeamEntries(range, fetch).error;
    TeamEntriesFirstCrash(range, fetch);
    var i :| 0 <= i < |range| && range[i] == c.season && CrashesAt(c.season, fetch)
      && SeasonStandings(fetch(c.season).page) == Err(c.error)
      && forall j :: 0 <= j < i ==> !CrashesAt(range[j], fetch);
    assert range[i] == first + i;
    assert first <= c.season <= last;
    forall s | first <= s < c.season ensures !CrashesAt(s, fetch) {
      var j := s - first;
      assert 0 <= j < i;
      assert range[j] == s;
    }
  }

  /** A season loop over a range that completes met no crashing season in the range. */
  lemma RangeWithoutCrash(first: int, last: int, fetch: int -> Response)
    requires TeamEntries(SeasonRange(first, last), fetch).Ok?
    ensures forall s :: first <= s <= last ==> !CrashesAt(s, fetch)
  {
    var range := SeasonRange(first, last);
    TeamEntriesOkIff(range, fetch);
    forall s | first <= s <= last ensures !CrashesAt(s, fetch) {
      assert range[s - first] == s;
    }
  }

  /**
   * A bad integer cell ends the run: it crashes exactly when some season of
   * the range was fetched with status 200 and its standings raise, and then at
   * the first such season, with that season's error.
   */
  lemma TeamRunCrash(startText: string, endText: string, fetch: int -> Response)
    requires ValidateRange(startText, endText).Ok?
    ensures var span := ValidateRange(startText, endText).value;
      var run := TeamRun(startText, endText, fetch);
      && (run.outcome.Crashed? <==> exists s :: span.start <= s <= span.end && CrashesAt(s, fetch))
      && (run.outcome.Crashed? ==>
            && CrashesAt(run.outcome.season, fetch)
            && SeasonStandings(fetch(run.outcome.season).page) == Err(run.outcome.error)
            && forall s :: span.start <= s < run.outcome.season ==> !CrashesAt(s, fetch))
  {
    var span := ValidateRange(startText, endText).value;
    var outcome := TeamRun(startText, endText, fetch).outcome;
    match TeamEntries(SeasonRange(span.start, span.end), fetch)
    case Err(c) =>
      TeamRunCrashedAt(startText, endText, fetch, span, c);
      assert outcome == Crashed(c.season, c.error);
      RangeCrashesFirstAt(span.start, span.end, fetch);
      assert span.start <= c.season <= span.end && CrashesAt(c.season, fetch);
    case Ok(es) =>
      TeamRunFinished(startText, endText, fetch, span, es);
      assert !outcome.Crashed?;
      RangeWithoutCrash(span.start, span.end, fetch);
  }

  /** The number of records the successful seasons among `seasons` hold. */
  function RecordCount(seasons: seq<int>, fetch: int -> Response): nat
    decreases |seasons|
  {
    if seasons == [] then 0
    else
      var season := seasons[|seasons| - 1];
      var here := if fetch(season).status != StatusOk then 0
        else match SeasonStandings(fetch(season).page)
          case Ok(records) => |records|
          case Err(_) => 0;
      RecordCount(seasons[..|seasons| - 1], fetch) + here
  }

  lemma {:induction false} TotalCountIsRecordCount(seasons: seq<int>, fetch: int -> Response)
    requires TeamEntries(seasons, fetch).Ok?
    ensures TotalCount(TeamEntries(seasons, fetch).value) == RecordCount(seasons, fetch)
    decreases |seasons|
  {
    if seasons != [] {
      var init := seasons[..|seasons| - 1];
      TotalCountIsRecordCount(init, fetch);
      var es := TeamEntries(seasons, fetch).value;
      if |es| > |TeamEntries(init, fetch).value| {
        assert es[..|es| - 1] == TeamEntries(init, fetch).value;
      } else {
        assert es == TeamEntries(init, fetch).value;
      }
    }
  }

  /**
   * What a run that does not crash collects: "no data" exactly when no fetch
   * of the range succeeded; otherwise one row per record of the successful
   * seasons, each tagged with a successful season of the range and taken from
   * that season's standings, in ascending season order.
   */
  lemma TeamRunCollected(startText: string, endText: string, fetch: int -> Response)
    requires ValidateRange(startText, endText).Ok?
    ensures var span := ValidateRange(startText, endText).value;
      var run := TeamRun(startText, endText, fetch);
      && (run.outcome == NoData <==> forall s :: span.start <= s <= span.end ==> fetch(s).status != StatusOk)
      && (run.outcome.Saved? ==> |run.outcome.rows| == RecordCount(SeasonRange(span.start, span.end), fetch))
      && (run.outcome.Saved? ==> forall k :: 0 <= k < |run.outcome.rows| ==>
            var row := run.outcome.rows[k];
            && span.start <= row.season <= span.end
            && fetch(row.season).status == StatusOk
            && SeasonStandings(fetch(row.season).page).Ok?
            && row.record in SeasonStandings(fetch(row.season).page).value)
      && (run.outcome.Saved? ==> forall a, b :: 0 <= a < b < |run.outcome.rows| ==>
            run.outcome.rows[a].season <= run.outcome.rows[b].season)
  {
    var span := ValidateRange(startText, endText).value;
    var range := SeasonRange(span.start, span.end);
    match TeamEntries(range, fetch)
    case Err(c) =>
      TeamRunCrashedAt(startText, endText, fetch, span, c);
      TeamEntriesFirstCrash(range, fetch);
      assert fetch(c.season).status == StatusOk;
      assert range[c.season - span.start] == c.season;
    case Ok(es) =>
      TeamRunFinished(startText, endText, fetch, span, es);
      TeamEntriesContents(range, fetch);
      NoDataExactly(es, span.start, span.end, fetch);
      FlattenLength(es);
      TotalCountIsRecordCount(range, fetch);
      FlattenOrigin(es);
      RowsFromFetchedSeasons(es, span.start, span.end, fetch);
      RowsInSeasonOrder(es, span.start, span.end, fetch);
  }
}
