/** `SubtitleEntryRepository.GetSeriesGroupsAsync`: per-series and
    per-season file counts, series sorted by name. SQL leaves the order of
    the seasons inside a series open; the model lists them in order of first
    appearance in the table. */
module SeriesGroups {
  import opened Text
  import opened Lists
  import opened Entries
  import opened Ordering

  datatype SeasonGroup = SeasonGroup(
    seasonName: string,
    totalFiles: nat,
    wantedFiles: nat,
    processedFiles: nat,
    isWatched: bool)

  datatype SeriesGroup = SeriesGroup(
    seriesName: string,
    seasons: seq<SeasonGroup>,
    totalFiles: nat,
    wantedFiles: nat,
    processedFiles: nat,
    isWatched: bool)

  predicate NoDuplicates(xs: seq<string>) {
    forall i, j :: 0 <= i < j < |xs| ==> xs[i] != xs[j]
  }

  /** The distinct strings of `xs` in order of first appearance. */
  function Distinct(xs: seq<string>): (r: seq<string>)
    ensures forall x :: x in r <==> x in xs
    ensures NoDuplicates(r)
  {
    if |xs| == 0 then []
    else
      var r := Distinct(xs[..|xs| - 1]);
      assert forall x :: x in xs <==> x in xs[..|xs| - 1] || x == xs[|xs| - 1];
      if xs[|xs| - 1] in r then r else r + [xs[|xs| - 1]]
  }

  /** The series names of the rows, each once. */
  function SeriesNames(rows: seq<Entry>): (r: seq<string>)
    ensures forall s :: s in r <==> exists e :: e in rows && e.series == s
    ensures NoDuplicates(r)
  {
    var names := seq(|rows|, i requires 0 <= i < |rows| => rows[i].series);
    assert forall s :: s in names <==> exists e :: e in rows && e.series == s by {
      forall s | s in names ensures exists e :: e in rows && e.series == s {
        var i :| 0 <= i < |names| && names[i] == s;
        assert rows[i] in rows;
      }
      forall s | exists e :: e in rows && e.series == s ensures s in names {
        var e :| e in rows && e.series == s;
        var i :| 0 <= i < |rows| && rows[i] == e;
        assert names[i] == s;
      }
    }
    Distinct(names)
  }

  /** The season names of one series, each once. */
  function SeasonNames(rows: seq<Entry>, series: string): (r: seq<string>)
    ensures forall x :: x in r <==> exists e :: e in rows && e.series == series && e.season == x
    ensures NoDuplicates(r)
  {
    var own := Filter(rows, (e: Entry) => e.series == series);
    var names := seq(|own|, i requires 0 <= i < |own| => own[i].season);
    assert forall x :: x in names <==> exists e :: e in own && e.season == x by {
      forall x | x in names ensures exists e :: e in own && e.season == x {
        var i :| 0 <= i < |names| && names[i] == x;
        assert own[i] in own;
      }
      forall x | exists e :: e in own && e.season == x ensures x in names {
        var e :| e in own && e.season == x;
        var i :| 0 <= i < |own| && own[i] == e;
        assert names[i] == x;
      }
    }
    Distinct(names)
  }

  /** Rows of one season of one series that also satisfy `q`. */
  function SeasonCount(rows: seq<Entry>, series: string, season: string, q: Entry -> bool): nat {
    CountWhere(rows, (e: Entry) => e.series == series && e.season == season && q(e))
  }

  function SeriesCount(rows: seq<Entry>, series: string, q: Entry -> bool): nat {
    CountWhere(rows, (e: Entry) => e.series == series && q(e))
  }

  function SumSeasonCounts(rows: seq<Entry>, series: string, seasons: seq<string>, q: Entry -> bool): nat {
    if |seasons| == 0 then 0
    else SeasonCount(rows, series, seasons[0], q) + SumSeasonCounts(rows, series, seasons[1..], q)
  }

  predicate Any(e: Entry) { true }
  predicate Wanted(e: Entry) { e.isWanted }
  predicate Processed(e: Entry) { e.isProcessed }

  function SeasonGroupOf(rows: seq<Entry>, series: string, season: string): SeasonGroup {
    SeasonGroup(season,
      SeasonCount(rows, series, season, Any),
      SeasonCount(rows, series, season, Wanted),
      SeasonCount(rows, series, season, Processed),
      false)
  }

  function SeriesGroupOf(rows: seq<Entry>, series: string): SeriesGroup {
    var names := SeasonNames(rows, series);
    SeriesGroup(series,
      seq(|names|, i requires 0 <= i < |names| => SeasonGroupOf(rows, series, names[i])),
      SumSeasonCounts(rows, series, names, Any),
      SumSeasonCounts(rows, series, names, Wanted),
      SumSeasonCounts(rows, series, names, Processed),
      false)
  }

  function NameKey(g: SeriesGroup): seq<string> {
    [g.seriesName]
  }

  /** `GetSeriesGroupsAsync`: one group per series, in strictly ascending
      name order, each built from the rows of its series. */
  function GetSeriesGroups(t: EntryTable): (r: seq<SeriesGroup>)
    ensures forall g :: g in r ==> exists e :: e in t.rows && e.series == g.seriesName
    ensures forall e :: e in t.rows ==> exists g :: g in r && g.seriesName == e.series
    ensures forall i, j :: 0 <= i < j < |r| ==> StrLeq(r[i].seriesName, r[j].seriesName) && r[i].seriesName != r[j].seriesName
    ensures forall g :: g in r ==> g == SeriesGroupOf(t.rows, g.seriesName)
  {
    var names := SeriesNames(t.rows);
    var groups := seq(|names|, i requires 0 <= i < |names| => SeriesGroupOf(t.rows, names[i]));
    var r := SortBy(groups, NameKey);
    SortedGroups(t.rows, names, groups, r);
    r
  }

  lemma SortedGroups(rows: seq<Entry>, names: seq<string>, groups: seq<SeriesGroup>, r: seq<SeriesGroup>)
    requires names == SeriesNames(rows)
    requires groups == seq(|names|, i requires 0 <= i < |names| => SeriesGroupOf(rows, names[i]))
    requires SortedBy(r, NameKey) && multiset(r) == multiset(groups)
    ensures forall g :: g in r ==> exists e :: e in rows && e.series == g.seriesName
    ensures forall e :: e in rows ==> exists g :: g in r && g.seriesName == e.series
    ensures forall i, j :: 0 <= i < j < |r| ==> StrLeq(r[i].seriesName, r[j].seriesName) && r[i].seriesName != r[j].seriesName
    ensures forall g :: g in r ==> g == SeriesGroupOf(rows, g.seriesName)
  {
    GroupsComeFromNames(rows, names, groups, r);
    EveryNameHasGroup(rows, names, groups, r);
    forall i, j | 0 <= i < j < |r|
      ensures StrLeq(r[i].seriesName, r[j].seriesName) && r[i].seriesName != r[j].seriesName
    {
      assert KeyLeq(NameKey(r[i]), NameKey(r[j]));
      DistinctNamesAfterSort(names, groups, r, i, j);
    }
  }

  lemma GroupsComeFromNames(rows: seq<Entry>, names: seq<string>, groups: seq<SeriesGroup>, r: seq<SeriesGroup>)
    requires names == SeriesNames(rows)
    requires groups == seq(|names|, i requires 0 <= i < |names| => SeriesGroupOf(rows, names[i]))
    requires multiset(r) == multiset(groups)
    ensures forall g :: g in r ==> (exists e :: e in rows && e.series == g.seriesName) && g == SeriesGroupOf(rows, g.seriesName)
  {
    forall g | g in r ensures (exists e :: e in rows && e.series == g.seriesName) && g == SeriesGroupOf(rows, g.seriesName) {
      assert g in multiset(groups);
      var k :| 0 <= k < |groups| && groups[k] == g;
      assert g.seriesName == names[k] && names[k] in names;
    }
  }

  lemma EveryNameHasGroup(rows: seq<Entry>, names: seq<string>, groups: seq<SeriesGroup>, r: seq<SeriesGroup>)
    requires names == SeriesNames(rows)
    requires groups == seq(|names|, i requires 0 <= i < |names| => SeriesGroupOf(rows, names[i]))
    requires multiset(r) == multiset(groups)
    ensures forall e :: e in rows ==> exists g :: g in r && g.seriesName == e.series
  {
    forall e | e in rows ensures exists g :: g in r && g.seriesName == e.series {
      assert e.series in names;
      var i :| 0 <= i < |names| && names[i] == e.series;
      assert groups[i] in multiset(r);
    }
  }

  lemma DistinctNamesAfterSort(names: seq<string>, groups: seq<SeriesGroup>, r: seq<SeriesGroup>, i: int, j: int)
    requires NoDuplicates(names)
    requires |groups| == |names| && forall k :: 0 <= k < |names| ==> groups[k].seriesName == names[k]
    requires multiset(r) == multiset(groups)
    requires 0 <= i < j < |r|
    ensures r[i].seriesName != r[j].seriesName
  {
    if r[i].seriesName == r[j].seriesName {
      assert r[i] in multiset(groups) && r[j] in multiset(groups);
      var a :| 0 <= a < |groups| && groups[a] == r[i];
      var b :| 0 <= b < |groups| && groups[b] == r[j];
      assert names[a] == names[b];
      assert !(a < b) && !(b < a);
      OccursOnce(groups, a);
      TwoPositions(r, i, j);
    }
  }

  /** An element found at two positions occurs at least twice. */
  lemma TwoPositions<T>(r: seq<T>, i: int, j: int)
    requires 0 <= i < j < |r| && r[i] == r[j]
    ensures multiset(r)[r[i]] >= 2
  {
    assert r == r[..i] + [r[i]] + r[i + 1..j] + [r[j]] + r[j + 1..];
  }

  lemma OccursOnce(groups: seq<SeriesGroup>, a: int)
    requires 0 <= a < |groups|
    requires forall k :: 0 <= k < |groups| && k != a ==> groups[k].seriesName != groups[a].seriesName
    ensures multiset(groups)[groups[a]] == 1
  {
    assert groups == groups[..a] + [groups[a]] + groups[a + 1..];
    assert groups[a] !in groups[..a];
    assert groups[a] !in groups[a + 1..];
  }

  /** Summing the per-season counts of a series over its distinct seasons
      counts every row of the series once: each group's totals equal the
      number of its files (and of its wanted and processed files). */
  lemma {:induction false} SeasonSumsMatchSeries(rows: seq<Entry>, series: string, seasons: seq<string>, q: Entry -> bool)
    requires NoDuplicates(seasons)
    requires forall e :: e in rows && e.series == series ==> e.season in seasons
    ensures SumSeasonCounts(rows, series, seasons, q) == SeriesCount(rows, series, q)
  {
    if |rows| > 0 {
      var e := rows[0];
      assert forall x :: x in rows[1..] ==> x in rows;
      SeasonSumsMatchSeries(rows[1..], series, seasons, q);
      SumSplitsOnFirstRow(rows, series, seasons, q);
      if e.series == series {
        IndicatorSum(seasons, e.season);
      }
    } else {
      SumOfEmpty(rows, series, seasons, q);
    }
  }

  lemma {:induction false} SumOfEmpty(rows: seq<Entry>, series: string, seasons: seq<string>, q: Entry -> bool)
    requires |rows| == 0
    ensures SumSeasonCounts(rows, series, seasons, q) == 0
  {
    if |seasons| > 0 {
      SumOfEmpty(rows, series, seasons[1..], q);
    }
  }

  /** How many of `seasons` equal `x`. */
  function Hits(seasons: seq<string>, x: string): nat {
    if |seasons| == 0 then 0 else (if seasons[0] == x then 1 else 0) + Hits(seasons[1..], x)
  }

  lemma {:induction false} IndicatorSum(seasons: seq<string>, x: string)
    requires NoDuplicates(seasons)
    ensures Hits(seasons, x) == if x in seasons then 1 else 0
  {
    if |seasons| > 0 {
      IndicatorSum(seasons[1..], x);
      if seasons[0] == x {
        assert x !in seasons[1..];
      }
    }
  }

  /** The first row adds one to the count of its own season (if it belongs
      to the series and passes `q`) and nothing to the others. */
  lemma {:induction false} SumSplitsOnFirstRow(rows: seq<Entry>, series: string, seasons: seq<string>, q: Entry -> bool)
    requires |rows| > 0
    ensures SumSeasonCounts(rows, series, seasons, q)
      == SumSeasonCounts(rows[1..], series, seasons, q)
       + (if rows[0].series == series && q(rows[0]) then Hits(seasons, rows[0].season) else 0)
  {
    if |seasons| > 0 {
      SumSplitsOnFirstRow(rows, series, seasons[1..], q);
    }
  }

  /** The three totals of every group agree with the entries of its
      series. */
  lemma GroupTotalsCountSeries(t: EntryTable, g: SeriesGroup)
    requires g in GetSeriesGroups(t)
    ensures g.totalFiles == SeriesCount(t.rows, g.seriesName, Any)
    ensures g.wantedFiles == SeriesCount(t.rows, g.seriesName, Wanted)
    ensures g.processedFiles == SeriesCount(t.rows, g.seriesName, Processed)
  {
    var names := SeasonNames(t.rows, g.seriesName);
    SeasonSumsMatchSeries(t.rows, g.seriesName, names, Any);
    SeasonSumsMatchSeries(t.rows, g.seriesName, names, Wanted);
    SeasonSumsMatchSeries(t.rows, g.seriesName, names, Processed);
  }
}
