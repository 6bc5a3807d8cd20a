/** `SeriesWatchService`: turning auto-watch on or off for a scope, and the
    series overview annotated with watch flags. */
module SeriesWatch {
  import opened Wrappers
  import opened Errors
  import opened Lists
  import opened Entries
  import opened SeriesGroups
  import W = WatchConfigs

  /** The two tables the service works on. */
  datatype Store = Store(configs: seq<W.WatchConfig>, entries: EntryTable)

  function NotFoundMessage(series: string, season: Option<string>): string {
    "Watch configuration not found for " + W.ScopeText(series, season)
  }

  /** `SetAutoWatchAsync`. Enabling adds an auto-watch configuration and
      marks every file of the scope wanted, returning how many; a scope that
      is already configured is a Conflict and changes nothing. Disabling
      deletes the configuration and leaves every wanted flag alone; a scope
      without one is NotFound. */
  function SetAutoWatch(st: Store, series: string, season: Option<string>, autoWatch: bool, now: int): (r: (Store, ErrorOr<int>))
    ensures autoWatch && W.Get(st.configs, series, season).Some? ==>
      r.0 == st && r.1 == Errors([ConflictError("SeriesWatchConfigRepository.Add",
        "Watch configuration already exists for " + W.ScopeText(series, season))])
    ensures autoWatch && W.Get(st.configs, series, season).None? ==>
      && r.0.configs == st.configs + [W.WatchConfig(series, season, true, now)]
      && r.1 == Value(CountWhere(st.entries.rows, (e: Entry) => InScope(e, series, season)))
      && |r.0.entries.rows| == |st.entries.rows|
      && (forall i :: 0 <= i < |st.entries.rows| ==>
            r.0.entries.rows[i] == st.entries.rows[i].(isWanted := InScope(st.entries.rows[i], series, season) || st.entries.rows[i].isWanted))
    ensures !autoWatch ==> r.0.entries == st.entries
    ensures !autoWatch ==> (r.1.IsError() <==> W.Get(st.configs, series, season).None?)
    ensures !autoWatch && r.1.IsError() ==>
      r.0 == st && r.1 == Errors([NotFoundError("SeriesWatchService.SetAutoWatchAsync", NotFoundMessage(series, season))])
    ensures !autoWatch && !r.1.IsError() ==> r.1 == Value(0) && W.Get(st.configs, series, season).Some?
    ensures W.UniqueScopes(st.configs) ==> W.UniqueScopes(r.0.configs)
  {
    if autoWatch then
      match W.Add(st.configs, W.WatchConfig(series, season, true, now), now)
      case Err(e) => (st, Errors([e]))
      case Ok(cs) =>
        var (t, n) := BulkUpdateWanted(st.entries, series, season, true);
        BulkUpdateWantedEffect(st.entries, series, season, true);
        (Store(cs, t), Value(n))
    else
      var (cs, deleted) := W.Delete(st.configs, series, season);
      if deleted then (st.(configs := cs), Value(0))
      else (st, Errors([NotFoundError("SeriesWatchService.SetAutoWatchAsync", NotFoundMessage(series, season))]))
  }

  /** `RemoveAutoWatchAsync`: deletes the scope's configuration, reporting
      whether one existed; never an error, never a wanted flag changed. */
  function RemoveAutoWatch(st: Store, series: string, season: Option<string>): (r: (Store, ErrorOr<bool>))
    ensures r.1 == Value(W.Get(st.configs, series, season).Some?)
    ensures r.0.entries == st.entries
    ensures W.UniqueScopes(st.configs) ==> W.Get(r.0.configs, series, season).None?
  {
    var (cs, deleted) := W.Delete(st.configs, series, season);
    (st.(configs := cs), Value(deleted))
  }

  /** `ShouldAutoMarkWantedAsync`: the repository's watch test. It agrees
      with the auto-watch flags the series overview shows for the series
      and for the season. */
  function ShouldAutoMarkWanted(st: Store, series: string, season: string): (r: bool)
    ensures W.UniqueScopes(st.configs) ==>
      (r <==> LookupFlag(st.configs, series, None) || LookupFlag(st.configs, series, Some(season)))
  {
    assert W.UniqueScopes(st.configs) ==>
      (W.IsWatched(st.configs, series, season) <==>
        LookupFlag(st.configs, series, None) || LookupFlag(st.configs, series, Some(season))) by {
      if W.UniqueScopes(st.configs) {
        W.IsWatchedByScope(st.configs, series, season);
      }
    }
    W.IsWatched(st.configs, series, season)
  }

  /** Turning auto-watch on and then off again for a fresh scope restores
      the configurations; the files marked wanted stay wanted. */
  lemma EnableThenDisable(st: Store, series: string, season: Option<string>, now: int)
    requires W.Get(st.configs, series, season).None?
    ensures var (mid, _) := SetAutoWatch(st, series, season, true, now);
      var (last, res) := SetAutoWatch(mid, series, season, false, now);
      last.configs == st.configs && last.entries == mid.entries && res == Value(0)
  {
    W.AddThenDelete(st.configs, W.WatchConfig(series, season, true, now), now);
  }

  /** After enabling, every file in the scope is wanted and the scope counts
      as watched, so later scans mark its new files wanted too. */
  lemma EnableWatchesScope(st: Store, series: string, season: Option<string>, now: int, e: Entry)
    requires W.Get(st.configs, series, season).None?
    requires e in SetAutoWatch(st, series, season, true, now).0.entries.rows && InScope(e, series, season)
    ensures e.isWanted
    ensures W.IsWatched(SetAutoWatch(st, series, season, true, now).0.configs, e.series, e.season)
  {
    var c := W.WatchConfig(series, season, true, now);
    W.AddWatches(st.configs, c, now, e.season);
  }

  // ---------------------------------------------------------------------
  // Series overview with watch flags

  /** The dictionary lookups of `GetSeriesGroupsWithWatchStatusAsync`: the
      auto-watch flag of the scope's configuration, false when there is
      none. */
  function LookupFlag(cs: seq<W.WatchConfig>, series: string, season: Option<string>): bool {
    match W.Get(cs, series, season)
    case Some(c) => c.autoWatch
    case None => false
  }

  function WithWatchStatus(cs: seq<W.WatchConfig>, g: SeriesGroup): SeriesGroup {
    var watched := LookupFlag(cs, g.seriesName, None);
    g.(isWatched := watched,
       seasons := seq(|g.seasons|, k requires 0 <= k < |g.seasons| =>
         g.seasons[k].(isWatched := watched || LookupFlag(cs, g.seriesName, Some(g.seasons[k].seasonName)))))
  }

  /** `GetSeriesGroupsWithWatchStatusAsync`: the series overview with the
      series flag taken from a whole-series configuration and each season
      flag from that or its own configuration. The lookups are built with
      `ToDictionary`, which throws on a repeated scope, so the scopes must be
      unique. */
  function GetSeriesGroupsWithWatchStatus(st: Store): (r: seq<SeriesGroup>)
    requires W.UniqueScopes(st.configs)
    ensures |r| == |GetSeriesGroups(st.entries)|
    ensures forall i :: 0 <= i < |r| ==>
      var g := GetSeriesGroups(st.entries)[i];
      && r[i].seriesName == g.seriesName && |r[i].seasons| == |g.seasons|
      && r[i].totalFiles == g.totalFiles && r[i].wantedFiles == g.wantedFiles && r[i].processedFiles == g.processedFiles
      && (forall k :: 0 <= k < |g.seasons| ==> r[i].seasons[k] == g.seasons[k].(isWatched := r[i].seasons[k].isWatched))
    ensures forall i, k :: 0 <= i < |r| && 0 <= k < |r[i].seasons| ==>
      r[i].seasons[k].isWatched == W.IsWatched(st.configs, r[i].seriesName, r[i].seasons[k].seasonName)
  {
    var groups := GetSeriesGroups(st.entries);
    var r := seq(|groups|, i requires 0 <= i < |groups| => WithWatchStatus(st.configs, groups[i]));
    SeasonFlags(st.configs, groups, r);
    r
  }

  lemma SeasonFlags(cs: seq<W.WatchConfig>, groups: seq<SeriesGroup>, r: seq<SeriesGroup>)
    requires W.UniqueScopes(cs)
    requires r == seq(|groups|, i requires 0 <= i < |groups| => WithWatchStatus(cs, groups[i]))
    ensures forall i, k :: 0 <= i < |r| && 0 <= k < |r[i].seasons| ==>
      r[i].seasons[k].isWatched == W.IsWatched(cs, r[i].seriesName, r[i].seasons[k].seasonName)
  {
    forall i, k | 0 <= i < |r| && 0 <= k < |r[i].seasons|
      ensures r[i].seasons[k].isWatched == W.IsWatched(cs, r[i].seriesName, r[i].seasons[k].seasonName)
    {
      LookupMeansAny(cs, r[i].seriesName, None);
      LookupMeansAny(cs, r[i].seriesName, Some(r[i].seasons[k].seasonName));
    }
  }

  /** With unique scopes, looking up the one configuration of a scope agrees
      with asking whether any configuration of the scope has auto-watch
      on. */
  lemma LookupMeansAny(cs: seq<W.WatchConfig>, series: string, season: Option<string>)
    requires W.UniqueScopes(cs)
    ensures LookupFlag(cs, series, season) <==>
      exists i :: 0 <= i < |cs| && W.InScope(cs[i], series, season) && cs[i].autoWatch
  {
    var k := W.FindScope(cs, series, season);
    if k >= 0 {
      forall i | 0 <= i < |cs| && W.InScope(cs[i], series, season) ensures i == k {
      }
    }
  }

  /** A season of a series watched as a whole is always watched. */
  lemma SeriesWatchCoversSeasons(st: Store, i: int, k: int)
    requires W.UniqueScopes(st.configs)
    requires 0 <= i < |GetSeriesGroupsWithWatchStatus(st)|
    requires 0 <= k < |GetSeriesGroupsWithWatchStatus(st)[i].seasons|
    requires GetSeriesGroupsWithWatchStatus(st)[i].isWatched
    ensures GetSeriesGroupsWithWatchStatus(st)[i].seasons[k].isWatched
  {
  }
}
