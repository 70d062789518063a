/**
 * The season logic that both scrapers' `main` functions share once their
 * console and network I/O is taken out: checking the season range, visiting
 * the seasons in order, keeping the seasons whose fetch returned status 200,
 * tagging each record with its season and concatenating the seasons.
 */
module Seasons {
  import opened Wrappers
  import opened Numbers
  import opened Html

  /** The first NHL season; earlier starts only draw a warning. */
  const EarliestSeason := 1917
  /** The last plausible season; later ends only draw a warning. */
  const LatestSeason := 2026
  /** The only HTTP status treated as a successful fetch. */
  const StatusOk := 200

  /** Why `main` returns before fetching anything. */
  datatype Refusal = NotIntegers | StartAfterEnd

  /** An accepted season range, and whether the out-of-range warning was printed. */
  datatype SeasonSpan = SeasonSpan(start: int, end: int, warning: bool)

  /** What the HTTP GET for one season returned: its status and its parsed body. */
  datatype Response = Response(status: int, page: Page)

  /** One entry of the season-to-DataFrame dictionary: a season and its records in row order. */
  datatype Entry<R> = Entry(season: int, records: seq<R>)

  /** One output row: a record with its `season` column. */
  datatype Tagged<R> = Tagged(season: int, record: R)

  /** How a run of `main` ends. */
  datatype Outcome<R> =
    | Refused(why: Refusal)
    | Crashed(season: int, error: IntError)
    | NoData
    | Saved(rows: seq<Tagged<R>>)

  /** A run: whether the range warning was printed, the seasons requested in order, and the outcome. */
  datatype Run<R> = Run(warning: bool, requested: seq<int>, outcome: Outcome<R>)

  /**
   * The input check of `main`: both texts must be integer literals, the start
   * may not exceed the end, and a range reaching outside 1917..2026 only warns.
   */
  function ValidateRange(startText: string, endText: string): (r: Result<SeasonSpan, Refusal>)
    ensures r == Err(NotIntegers) <==> !IsIntLiteral(startText) || !IsIntLiteral(endText)
    ensures r == Err(StartAfterEnd) <==>
      IsIntLiteral(startText) && IsIntLiteral(endText) && ParseInt(startText).value > ParseInt(endText).value
    ensures r.Ok? ==>
      && ParseInt(startText) == Some(r.value.start)
      && ParseInt(endText) == Some(r.value.end)
      && r.value.start <= r.value.end
      && (r.value.warning <==> r.value.start < EarliestSeason || r.value.end > LatestSeason)
  {
    match (ParseInt(startText), ParseInt(endText))
    case (Some(first), Some(last)) =>
      if first > last then Err(StartAfterEnd)
      else Ok(SeasonSpan(first, last, first < EarliestSeason || last > LatestSeason))
    case _ => Err(NotIntegers)
  }

  /** `range(first, last + 1)`: the seasons from `first` to `last` inclusive, ascending. */
  function SeasonRange(first: int, last: int): (r: seq<int>)
    ensures |r| == if last < first then 0 else last - first + 1
    ensures forall i :: 0 <= i < |r| ==> r[i] == first + i
    decreases last - first
  {
    if last < first then [] else SeasonRange(first, last - 1) + [last]
  }

  /** The first `count` seasons of a range, ending at `season`, are the range from `first` to `season`. */
  lemma SeasonRangeUpTo(first: int, last: int, count: nat, season: int)
    requires 1 <= count <= |SeasonRange(first, last)| && SeasonRange(first, last)[count - 1] == season
    ensures SeasonRange(first, last)[..count] == SeasonRange(first, season)
  {
  }

  predicate StrictlyIncreasing(s: seq<int>) {
    forall a, b :: 0 <= a < b < |s| ==> s[a] < s[b]
  }

  /** The seasons among `seasons` whose fetch returned status 200, in the same order. */
  function Succeeded(seasons: seq<int>, fetch: int -> Response): (r: seq<int>)
    ensures |r| <= |seasons|
    ensures forall s :: s in r <==> s in seasons && fetch(s).status == StatusOk
    decreases |seasons|
  {
    if seasons == [] then []
    else
      var last := seasons[|seasons| - 1];
      var earlier := Succeeded(seasons[..|seasons| - 1], fetch);
      assert seasons == seasons[..|seasons| - 1] + [last];
      if fetch(last).status == StatusOk then earlier + [last] else earlier
  }

  /** Filtering keeps the order of the seasons. */
  lemma {:induction false} SucceededIncreasing(seasons: seq<int>, fetch: int -> Response)
    requires StrictlyIncreasing(seasons)
    ensures StrictlyIncreasing(Succeeded(seasons, fetch))
    decreases |seasons|
  {
    if seasons != [] {
      var init := seasons[..|seasons| - 1];
      var last := seasons[|seasons| - 1];
      assert StrictlyIncreasing(init);
      SucceededIncreasing(init, fetch);
      var earlier := Succeeded(init, fetch);
      forall x | x in earlier ensures x < last {
        var i :| 0 <= i < |init| && init[i] == x;
        assert seasons[i] == x;
      }
      if fetch(last).status == StatusOk {
        var r := earlier + [last];
        forall a, b | 0 <= a < b < |r| ensures r[a] < r[b] {
          if b == |r| - 1 {
            assert r[a] in earlier;
          } else {
            assert r[a] == earlier[a] && r[b] == earlier[b];
          }
        }
      }
    }
  }

  /** The seasons of the dictionary entries, in insertion order. */
  function EntrySeasons<R>(es: seq<Entry<R>>): (r: seq<int>)
    ensures |r| == |es|
    ensures forall i :: 0 <= i < |es| ==> r[i] == es[i].season
  {
    seq(|es|, i requires 0 <= i < |es| => es[i].season)
  }

  /** `df['season'] = season`: every record of one season, tagged with it, in row order. */
  function Tag<R>(season: int, records: seq<R>): (r: seq<Tagged<R>>)
    ensures |r| == |records|
    ensures forall j :: 0 <= j < |r| ==> r[j] == Tagged(season, records[j])
  {
    seq(|records|, j requires 0 <= j < |records| => Tagged(season, records[j]))
  }

  /** `pd.concat(d.values(), ignore_index=True)`: the tagged seasons, one after another. */
  function Flatten<R>(es: seq<Entry<R>>): seq<Tagged<R>>
    decreases |es|
  {
    if es == [] then []
    else Flatten(es[..|es| - 1]) + Tag(es[|es| - 1].season, es[|es| - 1].records)
  }

  /** The sum of the per-season record counts. */
  function TotalCount<R>(es: seq<Entry<R>>): nat
    decreases |es|
  {
    if es == [] then 0 else TotalCount(es[..|es| - 1]) + |es[|es| - 1].records|
  }

  /** Where season `i`'s records start in the concatenation. */
  function Offset<R>(es: seq<Entry<R>>, i: nat): nat
    requires i <= |es|
  {
    TotalCount(es[..i])
  }

  /** `if d:` followed by the concatenation, or the "no data" branch. */
  function Finish<R>(es: seq<Entry<R>>): Outcome<R> {
    if es == [] then NoData else Saved(Flatten(es))
  }

  /** Concatenation neither drops nor duplicates: its length is the sum of the counts. */
  lemma {:induction false} FlattenLength<R>(es: seq<Entry<R>>)
    ensures |Flatten(es)| == TotalCount(es)
    decreases |es|
  {
    if es != [] {
      FlattenLength(es[..|es| - 1]);
    }
  }

  /**
   * Record `j` of season entry `i` sits at position `Offset(es, i) + j` of the
   * concatenation, tagged with that entry's season: seasons in insertion order,
   * rows in row order within each season.
   */
  lemma {:induction false} FlattenAt<R>(es: seq<Entry<R>>, i: nat, j: nat)
    requires i < |es| && j < |es[i].records|
    ensures Offset(es, i) + j < |Flatten(es)|
    ensures Flatten(es)[Offset(es, i) + j] == Tagged(es[i].season, es[i].records[j])
    decreases |es|
  {
    var n := |es| - 1;
    var init := es[..n];
    FlattenLength(init);
    FlattenLength(es);
    assert es[..n + 1] == es;
    if i < n {
      assert init[..i] == es[..i];
      FlattenAt(init, i, j);
    } else {
      assert Tag(es[n].season, es[n].records)[j] == Tagged(es[i].season, es[i].records[j]);
    }
  }

  /** Every output row is a record of some entry, tagged with that entry's season. */
  lemma {:induction false} FlattenOrigin<R>(es: seq<Entry<R>>)
    ensures forall k :: 0 <= k < |Flatten(es)| ==>
      exists i :: 0 <= i < |es| && Flatten(es)[k].season == es[i].season && Flatten(es)[k].record in es[i].records
    decreases |es|
  {
    if es != [] {
      var n := |es| - 1;
      var init := es[..n];
      FlattenOrigin(init);
      var f := Flatten(es);
      forall k | 0 <= k < |f|
        ensures exists i :: 0 <= i < |es| && f[k].season == es[i].season && f[k].record in es[i].records
      {
        if k < |Flatten(init)| {
          assert f[k] == Flatten(init)[k];
          var i :| 0 <= i < |init| && f[k].season == init[i].season && f[k].record in init[i].records;
          assert es[i] == init[i];
        } else {
          var j := k - |Flatten(init)|;
          assert f[k] == Tagged(es[n].season, es[n].records[j]);
          assert es[n].records[j] in es[n].records;
        }
      }
      assert f == Flatten(es);
    } else {
      assert Flatten(es) == [];
    }
  }

  /** When the entries were inserted in ascending season order, the output is sorted by season. */
  lemma {:induction false} FlattenSorted<R>(es: seq<Entry<R>>)
    requires StrictlyIncreasing(EntrySeasons(es))
    ensures forall a, b :: 0 <= a < b < |Flatten(es)| ==> Flatten(es)[a].season <= Flatten(es)[b].season
    decreases |es|
  {
    if es != [] {
      var n := |es| - 1;
      var init := es[..n];
      assert forall i :: 0 <= i < n ==> EntrySeasons(init)[i] == EntrySeasons(es)[i];
      FlattenSorted(init);
      FlattenOrigin(init);
      var f := Flatten(es);
      forall a, b | 0 <= a < b < |f| ensures f[a].season <= f[b].season {
        if b >= |Flatten(init)| {
          assert f[b].season == es[n].season;
          if a < |Flatten(init)| {
            assert f[a] == Flatten(init)[a];
            var i :| 0 <= i < |init| && f[a].season == init[i].season && f[a].record in init[i].records;
            assert EntrySeasons(es)[i] < EntrySeasons(es)[n];
          }
        }
      }
    }
  }

  /**
   * "No data was collected" exactly when no season of the range was fetched
   * with status 200; a successful season without records still counts.
   */
  lemma NoDataExactly<R>(es: seq<Entry<R>>, first: int, last: int, fetch: int -> Response)
    requires EntrySeasons(es) == Succeeded(SeasonRange(first, last), fetch)
    ensures Finish(es) == NoData <==> forall s :: first <= s <= last ==> fetch(s).status != StatusOk
  {
    var range := SeasonRange(first, last);
    if es == [] {
      forall s | first <= s <= last ensures fetch(s).status != StatusOk {
        assert range[s - first] == s;
      }
    } else {
      assert es[0].season in Succeeded(range, fetch);
    }
  }

  /**
   * Every output row belongs to a season of the range that was fetched with
   * status 200, and its record is one of that season's entry's records.
   */
  lemma RowsFromFetchedSeasons<R>(es: seq<Entry<R>>, first: int, last: int, fetch: int -> Response)
    requires EntrySeasons(es) == Succeeded(SeasonRange(first, last), fetch)
    ensures forall k :: 0 <= k < |Flatten(es)| ==>
      && first <= Flatten(es)[k].season <= last
      && fetch(Flatten(es)[k].season).status == StatusOk
      && exists i :: 0 <= i < |es| && Flatten(es)[k].season == es[i].season && Flatten(es)[k].record in es[i].records
  {
    var range := SeasonRange(first, last);
    FlattenOrigin(es);
    forall k | 0 <= k < |Flatten(es)|
      ensures first <= Flatten(es)[k].season <= last && fetch(Flatten(es)[k].season).status == StatusOk
    {
      var i :| 0 <= i < |es| && Flatten(es)[k].season == es[i].season && Flatten(es)[k].record in es[i].records;
      assert EntrySeasons(es)[i] in Succeeded(range, fetch);
    }
  }

  /** Entries inserted for the successful seasons of a range give rows in ascending season order. */
  lemma RowsInSeasonOrder<R>(es: seq<Entry<R>>, first: int, last: int, fetch: int -> Response)
    requires EntrySeasons(es) == Succeeded(SeasonRange(first, last), fetch)
    ensures forall a, b :: 0 <= a < b < |Flatten(es)| ==> Flatten(es)[a].season <= Flatten(es)[b].season
  {
    SucceededIncreasing(SeasonRange(first, last), fetch);
    FlattenSorted(es);
  }
}
