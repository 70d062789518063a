/**
 * The skater-statistics scraper: per-season player records read from the
 * `player_stats` table of a season's skaters page.
 *
 * Its row policy is best effort, row by row: each row is read inside its own
 * `try`, and a row whose reading raises anything is left out while every
 * other row is still read.
 */
module PlayerScraper {
  import opened Wrappers
  import opened Numbers
  import opened Text
  import opened Html
  import opened Seasons

  const PlayerTableId := "player_stats"
  const NameCell := CellKey("td", "name_display")
  const AgeCell := CellKey("td", "age")
  const TeamCell := CellKey("td", "team_name_abbr")
  const PositionCell := CellKey("td", "pos")
  const TimeOnIceCell := CellKey("td", "time_on_ice")

  /**
   * One player record: the dictionary with exactly the keys name, age, team,
   * position and TOI. A kept row always has a time on ice, in minutes.
   */
  datatype PlayerRecord = PlayerRecord(name: string, age: Option<int>, team: string, position: string, toi: real)

  /**
   * `m, s = text.split(':')` then `int(m) + int(s) / 60`: None when the text
   * does not split into exactly two parts or a part is not an integer.
   */
  function ParseTimeOnIce(text: string): Option<real> {
    var parts := Split(text, ':');
    if |parts| != 2 then None
    else
      match (ParseInt(parts[0]), ParseInt(parts[1]))
      case (Some(minutes), Some(seconds)) => Some(minutes as real + seconds as real / 60.0)
      case _ => None
  }

  /** A text with no colon, or with two or more, is not a time on ice. */
  lemma TimeOnIceNeedsOneColon(text: string)
    requires multiset(text)[':'] != 1
    ensures ParseTimeOnIce(text) == None
  {
    SplitCount(text, ':');
  }

  /**
   * A text with exactly one colon reads as minutes plus seconds over sixty
   * when both sides are integer literals, and fails otherwise; the seconds are
   * not range-checked.
   */
  lemma TimeOnIceOfOneColon(minutes: string, seconds: string)
    requires ':' !in minutes && ':' !in seconds
    ensures ParseTimeOnIce(minutes + ":" + seconds) ==
      if IsIntLiteral(minutes) && IsIntLiteral(seconds)
      then Some(ParseInt(minutes).value as real + ParseInt(seconds).value as real / 60.0)
      else None
  {
    SplitAtFirstSep(minutes, seconds, ':');
    SplitWithoutSep(seconds, ':');
    assert minutes + ":" + seconds == minutes + [':'] + seconds;
  }

  /** Every "m:s" spelling of two integers reads back as exactly `m + s/60`. */
  lemma TimeOnIceRoundTrip(minutes: int, seconds: int)
    ensures ParseTimeOnIce(IntToString(minutes) + ":" + IntToString(seconds)) ==
      Some(minutes as real + seconds as real / 60.0)
  {
    ParseIntOfIntToString(minutes);
    ParseIntOfIntToString(seconds);
    TimeOnIceOfOneColon(IntToString(minutes), IntToString(seconds));
  }

  /**
   * The site's spelling with the seconds padded to two digits ("18:05") reads
   * back as exactly `m + s/60`.
   */
  lemma TimeOnIceRoundTripPadded(minutes: int, seconds: nat)
    requires seconds < 60
    ensures ParseTimeOnIce(IntToString(minutes) + ":" + [DigitChar(seconds / 10), DigitChar(seconds % 10)]) ==
      Some(minutes as real + seconds as real / 60.0)
  {
    var ss := [DigitChar(seconds / 10), DigitChar(seconds % 10)];
    assert AllDigits(ss);
    assert DigitsValue(ss[..1]) == seconds / 10 by {
      assert ss[..1][..0] == [];
    }
    assert DigitsValue(ss) == 10 * DigitsValue(ss[..1]) + seconds % 10;
    assert ParseInt(ss) == Some(seconds);
    ParseIntOfIntToString(minutes);
    assert ':' !in ss;
    TimeOnIceOfOneColon(IntToString(minutes), ss);
  }

  /** "18:05" is 18 minutes and 5 seconds. */
  lemma TimeOnIcePaddedSeconds()
    ensures ParseTimeOnIce("18:05") == Some(18.0 + 5.0 / 60.0)
  {
    TimeOnIceRoundTripPadded(18, 5);
    assert IntToString(18) + ":" + [DigitChar(0), DigitChar(5)] == "18:05";
  }

  /** "18:30" is 18.5 minutes. */
  lemma TimeOnIceHalfMinute()
    ensures ParseTimeOnIce("18:30") == Some(18.5)
  {
    TimeOnIceRoundTrip(18, 30);
    assert IntToString(18) + ":" + IntToString(30) == "18:30";
  }

  /** "15:45" is 15.75 minutes. */
  lemma TimeOnIceQuarterMinute()
    ensures ParseTimeOnIce("15:45") == Some(15.75)
  {
    TimeOnIceRoundTrip(15, 45);
    assert IntToString(15) + ":" + IntToString(45) == "15:45";
  }

  /** "0:00", with its zero-padded seconds, is no time at all. */
  lemma TimeOnIceZero()
    ensures ParseTimeOnIce("0:00") == Some(0.0)
  {
    TimeOnIceOfOneColon("0", "00");
    assert "0" + ":" + "00" == "0:00";
    assert DigitsValue("00") == 0 by {
      assert "00"[..1] == "0";
      assert "0"[..0] == [];
    }
  }

  /**
   * The body of the per-row `try`: None when any step raises (a non-integer
   * age, a missing time-on-ice cell, a malformed time on ice), else the record.
   */
  function PlayerRow(row: Row): (r: Option<PlayerRecord>)
    ensures r.Some? <==>
      && IntCellOk(row, AgeCell)
      && TimeOnIceCell in row.cells
      && ParseTimeOnIce(row.cells[TimeOnIceCell]).Some?
    ensures r.Some? ==>
      && r.value.name == TextCell(row, NameCell)
      && ReadsAs(row, AgeCell, r.value.age)
      && r.value.team == TextCell(row, TeamCell)
      && r.value.position == TextCell(row, PositionCell)
      && ParseTimeOnIce(row.cells[TimeOnIceCell]) == Some(r.value.toi)
  {
    var name := TextCell(row, NameCell);
    match IntCell(row, AgeCell)
    case Err(_) => None
    case Ok(age) =>
      var team := TextCell(row, TeamCell);
      var position := TextCell(row, PositionCell);
      if TimeOnIceCell !in row.cells then None   // unpacking None raises
      else
        match ParseTimeOnIce(row.cells[TimeOnIceCell])
        case None => None
        case Some(toi) => Some(PlayerRecord(name, age, team, position, toi))
  }

  /** A skaters row spelling the given fields, with the time on ice written "m:s". */
  function RenderPlayerRow(name: string, age: Option<int>, team: string, position: string,
                           minutes: int, seconds: int): Row {
    var cells := map[NameCell := name, TeamCell := team, PositionCell := position,
                     TimeOnIceCell := IntToString(minutes) + ":" + IntToString(seconds)];
    Row({}, WithIntCell(cells, AgeCell, age), map[])
  }

  /** Reading a rendered row gives back its fields, with the time on ice as `m + s/60`. */
  lemma PlayerRowRoundTrip(name: string, age: Option<int>, team: string, position: string,
                           minutes: int, seconds: int)
    ensures PlayerRow(RenderPlayerRow(name, age, team, position, minutes, seconds)) ==
      Some(PlayerRecord(name, age, team, position, minutes as real + seconds as real / 60.0))
  {
    TimeOnIceRoundTrip(minutes, seconds);
    if age.Some? { ParseIntOfIntToString(age.value); }
  }

  /** The records of the rows whose reading does not raise, in row order. */
  function KeptPlayers(rows: seq<Row>): (players: seq<PlayerRecord>)
    ensures |players| <= |rows|
    decreases |rows|
  {
    if rows == [] then []
    else
      var earlier := KeptPlayers(rows[..|rows| - 1]);
      match PlayerRow(rows[|rows| - 1])
      case None => earlier
      case Some(p) => earlier + [p]
  }

  /** The indices of the rows whose reading does not raise, in row order. */
  function KeptIndices(rows: seq<Row>): seq<int>
    decreases |rows|
  {
    if rows == [] then []
    else
      var earlier := KeptIndices(rows[..|rows| - 1]);
      if PlayerRow(rows[|rows| - 1]).Some? then earlier + [|rows| - 1] else earlier
  }

  /** Record `k` kept is the reading of row `KeptIndices(rows)[k]`, and those indices increase. */
  lemma {:induction false} KeptIndicesAlign(rows: seq<Row>)
    ensures |KeptIndices(rows)| == |KeptPlayers(rows)|
    ensures StrictlyIncreasing(KeptIndices(rows))
    ensures forall k :: 0 <= k < |KeptIndices(rows)| ==>
      0 <= KeptIndices(rows)[k] < |rows| && PlayerRow(rows[KeptIndices(rows)[k]]) == Some(KeptPlayers(rows)[k])
    decreases |rows|
  {
    if rows != [] {
      var n := |rows| - 1;
      var init := rows[..n];
      KeptIndicesAlign(init);
      var ix := KeptIndices(init);
      var ps := KeptPlayers(init);
      forall k | 0 <= k < |ix| ensures rows[ix[k]] == init[ix[k]] {
      }
      if PlayerRow(rows[n]).Some? {
        assert KeptIndices(rows) == ix + [n];
        assert KeptPlayers(rows) == ps + [PlayerRow(rows[n]).value];
      } else {
        assert KeptIndices(rows) == ix;
        assert KeptPlayers(rows) == ps;
      }
    }
  }

  /** A row's index is among the kept indices exactly when its reading succeeds. */
  lemma {:induction false} KeptIndicesExactly(rows: seq<Row>)
    ensures forall i :: 0 <= i < |rows| ==> (i in KeptIndices(rows) <==> PlayerRow(rows[i]).Some?)
    ensures forall k :: 0 <= k < |KeptIndices(rows)| ==> 0 <= KeptIndices(rows)[k] < |rows|
    decreases |rows|
  {
    if rows != [] {
      var n := |rows| - 1;
      var init := rows[..n];
      KeptIndicesExactly(init);
      var ix := KeptIndices(rows);
      forall i | 0 <= i < |rows| ensures i in ix <==> PlayerRow(rows[i]).Some? {
        if i < n {
          assert init[i] == rows[i];
          assert i in KeptIndices(init) <==> PlayerRow(rows[i]).Some?;
        }
      }
    }
  }

  /**
   * The kept records are an order-preserving subsequence of the rows: the
   * record at position `k` is the reading of row `KeptIndices(rows)[k]`, those
   * indices increase, and a row is kept exactly when its reading succeeds.
   */
  lemma KeptPlayersSubsequence(rows: seq<Row>)
    ensures |KeptIndices(rows)| == |KeptPlayers(rows)|
    ensures StrictlyIncreasing(KeptIndices(rows))
    ensures forall k :: 0 <= k < |KeptIndices(rows)| ==>
      0 <= KeptIndices(rows)[k] < |rows| && PlayerRow(rows[KeptIndices(rows)[k]]) == Some(KeptPlayers(rows)[k])
    ensures forall i :: 0 <= i < |rows| ==> (i in KeptIndices(rows) <==> PlayerRow(rows[i]).Some?)
  {
    KeptIndicesAlign(rows);
    KeptIndicesExactly(rows);
  }

  /** Rows are read independently: the kept records of two blocks of rows are kept side by side. */
  lemma {:induction false} KeptPlayersAppend(a: seq<Row>, b: seq<Row>)
    ensures KeptPlayers(a + b) == KeptPlayers(a) + KeptPlayers(b)
    decreases |b|
  {
    if b == [] {
      assert a + b == a;
    } else {
      var init := b[..|b| - 1];
      KeptPlayersAppend(a, init);
      assert (a + b)[..|a + b| - 1] == a + init;
      assert (a + b)[|a + b| - 1] == b[|b| - 1];
    }
  }

  /** A row whose reading raises drops only itself; the rows around it are kept as before. */
  lemma BadRowDropsOnlyItself(before: seq<Row>, row: Row, after: seq<Row>)
    requires PlayerRow(row).None?
    ensures KeptPlayers(before + [row] + after) == KeptPlayers(before) + KeptPlayers(after)
  {
    KeptPlayersAppend(before + [row], after);
    KeptPlayersAppend(before, [row]);
    assert [row][..0] == [];
  }

  /** What `parse_hockey_standings(html, id)` returns. */
  function PlayerTable(page: Page, id: string): seq<PlayerRecord> {
    match FindTable(page, id)
    case None => []
    case Some(table) => KeptPlayers(table.body)
  }

  /**
   * `parse_hockey_standings`: find the table and walk all of its body rows,
   * appending a row's record only when nothing in its `try` raised.
   */
  method ParseHockeyStandings(page: Page, id: string) returns (playersData: seq<PlayerRecord>)
    ensures playersData == PlayerTable(page, id)
    ensures FindTable(page, id).None? ==> playersData == []
    ensures FindTable(page, id).Some? ==> |playersData| <= |FindTable(page, id).value.body|
  {
    var table := FindTable(page, id);
    if table.None? {
      // "Table not found"
      return [];
    }
    var rows := table.value.body;
    playersData := [];
    var i := 0;
    while i < |rows|
      invariant 0 <= i <= |rows|
      invariant playersData == KeptPlayers(rows[..i])
    {
      assert rows[..i + 1][..i] == rows[..i];
      var player := PlayerRow(rows[i]);
      if player.Some? {
        playersData := playersData + [player.value];
      }
      // otherwise `except: pass`
      i := i + 1;
    }
    assert rows[..i] == rows;
  }

  /** The dictionary `main` builds over `seasons`: one entry per season fetched with status 200. */
  function PlayerEntries(seasons: seq<int>, fetch: int -> Response): seq<Entry<PlayerRecord>>
    decreases |seasons|
  {
    if seasons == [] then []
    else
      var earlier := PlayerEntries(seasons[..|seasons| - 1], fetch);
      var season := seasons[|seasons| - 1];
      if fetch(season).status == StatusOk
      then earlier + [Entry(season, PlayerTable(fetch(season).page, PlayerTableId))]
      else earlier
  }

  /** The entries are exactly the successful seasons, in order, each holding its table's records. */
  lemma {:induction false} PlayerEntriesSpec(seasons: seq<int>, fetch: int -> Response)
    ensures EntrySeasons(PlayerEntries(seasons, fetch)) == Succeeded(seasons, fetch)
    ensures forall i :: 0 <= i < |PlayerEntries(seasons, fetch)| ==>
      PlayerEntries(seasons, fetch)[i].records ==
        PlayerTable(fetch(PlayerEntries(seasons, fetch)[i].season).page, PlayerTableId)
    decreases |seasons|
  {
    if seasons != [] {
      var init := seasons[..|seasons| - 1];
      var season := seasons[|seasons| - 1];
      PlayerEntriesSpec(init, fetch);
      var es := PlayerEntries(init, fetch);
      if fetch(season).status == StatusOk {
        var e := Entry(season, PlayerTable(fetch(season).page, PlayerTableId));
        assert EntrySeasons(es + [e]) == EntrySeasons(es) + [season];
      }
    }
  }

  /** The whole of `main` with the console and network taken out. */
  function PlayerRun(startText: string, endText: string, fetch: int -> Response): Run<PlayerRecord> {
    match ValidateRange(startText, endText)
    case Err(why) => Run(false, [], Refused(why))
    case Ok(span) =>
      Run(span.warning, SeasonRange(span.start, span.end),
          Finish(PlayerEntries(SeasonRange(span.start, span.end), fetch)))
  }

  /**
   * The season loop of `main`: for each season in order fetch the page and,
   * on status 200, store the season's records under it.
   */
  method CollectStats(seasons: seq<int>, fetch: int -> Response) returns (seasonsStats: seq<Entry<PlayerRecord>>)
    ensures seasonsStats == PlayerEntries(seasons, fetch)
  {
    seasonsStats := [];
    var i := 0;
    while i < |seasons|
      invariant 0 <= i <= |seasons|
      invariant seasonsStats == PlayerEntries(seasons[..i], fetch)
    {
      var season := seasons[i];
      var response := fetch(season);
      assert seasons[..i + 1][..i] == seasons[..i];
      if response.status == StatusOk {
        var stats := ParseHockeyStandings(response.page, PlayerTableId);
        seasonsStats := seasonsStats + [Entry(season, stats)];
      }
      // otherwise "Failed to retrieve data": the season is skipped
      i := i + 1;
    }
    assert seasons[..i] == seasons;
  }

  /**
   * `main`: validate the range, run the season loop over it, then
   * concatenate, or report that no data was collected.
   */
  method RunPlayers(startText: string, endText: string, fetch: int -> Response) returns (run: Run<PlayerRecord>)
    ensures run == PlayerRun(startText, endText, fetch)
  {
    var check := ValidateRange(startText, endText);
    if check.Err? {
      return Run(false, [], Refused(check.error));
    }
    var span := check.value;
    var seasons := SeasonRange(span.start, span.end);
    var seasonsStats := CollectStats(seasons, fetch);
    run := Run(span.warning, seasons, Finish(seasonsStats));
  }

  /**
   * Range handling of `main`: bad input or a start after the end refuses
   * before any season is requested; otherwise every season from the start to
   * the end is requested in ascending order, and the out-of-range warning does
   * not stop the run.
   */
  lemma PlayerRunRequests(startText: string, endText: string, fetch: int -> Response)
    ensures var run := PlayerRun(startText, endText, fetch);
      && (run.outcome.Refused? <==>
            || !IsIntLiteral(startText) || !IsIntLiteral(endText)
            || ParseInt(startText).value > ParseInt(endText).value)
      && (run.outcome.Refused? ==> run.requested == [] && !run.warning)
      && (!run.outcome.Refused? ==>
            var first := ParseInt(startText).value;
            var last := ParseInt(endText).value;
            && (run.warning <==> first < EarliestSeason || last > LatestSeason)
            && run.requested == SeasonRange(first, last))
  {
  }

  /** The number of records the successful seasons among `seasons` hold. */
  function PlayerCount(seasons: seq<int>, fetch: int -> Response): nat
    decreases |seasons|
  {
    if seasons == [] then 0
    else
      var season := seasons[|seasons| - 1];
      PlayerCount(seasons[..|seasons| - 1], fetch)
        + (if fetch(season).status == StatusOk then |PlayerTable(fetch(season).page, PlayerTableId)| else 0)
  }

  lemma {:induction false} TotalCountIsPlayerCount(seasons: seq<int>, fetch: int -> Response)
    ensures TotalCount(PlayerEntries(seasons, fetch)) == PlayerCount(seasons, fetch)
    decreases |seasons|
  {
    if seasons != [] {
      var init := seasons[..|seasons| - 1];
      TotalCountIsPlayerCount(init, fetch);
      var es := PlayerEntries(seasons, fetch);
      if |es| > |PlayerEntries(init, fetch)| {
        assert es[..|es| - 1] == PlayerEntries(init, fetch);
      }
    }
  }

  /**
   * What a run collects. A player run never crashes, since a bad row is
   * dropped on its own: it ends with "no data" exactly when no fetch of the
   * range succeeded, even if the successful seasons hold no rows; otherwise one row
   * per record of the successful seasons, each tagged with a successful season
   * of the range and taken from that season's table, in ascending season order.
   */
  lemma PlayerRunCollected(startText: string, endText: string, fetch: int -> Response)
    requires ValidateRange(startText, endText).Ok?
    ensures var span := ValidateRange(startText, endText).value;
      var run := PlayerRun(startText, endText, fetch);
      && (run.outcome.NoData? || run.outcome.Saved?)
      && (run.outcome == NoData <==> forall s :: span.start <= s <= span.end ==> fetch(s).status != StatusOk)
      && (run.outcome.Saved? ==> |run.outcome.rows| == PlayerCount(SeasonRange(span.start, span.end), fetch))
      && (run.outcome.Saved? ==> forall k :: 0 <= k < |run.outcome.rows| ==>
            var row := run.outcome.rows[k];
            && span.start <= row.season <= span.end
            && fetch(row.season).status == StatusOk
            && row.record in PlayerTable(fetch(row.season).page, PlayerTableId))
      && (run.outcome.Saved? ==> forall a, b :: 0 <= a < b < |run.outcome.rows| ==>
            run.outcome.rows[a].season <= run.outcome.rows[b].season)
  {
    var span := ValidateRange(startText, endText).value;
    var range := SeasonRange(span.start, span.end);
    var es := PlayerEntries(range, fetch);
    PlayerEntriesSpec(range, fetch);
    NoDataExactly(es, span.start, span.end, fetch);
    FlattenLength(es);
    TotalCountIsPlayerCount(range, fetch);
    FlattenOrigin(es);
    RowsFromFetchedSeasons(es, span.start, span.end, fetch);
    RowsInSeasonOrder(es, span.start, span.end, fetch);
  }
}
