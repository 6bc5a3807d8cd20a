/** The `series_watch_configs` table and `SeriesWatchConfigRepository`: a
    watch scope is a series (no season) or one season of a series, and at
    most one configuration exists per scope. */
module WatchConfigs {
  import opened Wrappers
  import opened Errors

  /** One watch configuration; `seasonName == None` watches the whole
      series. Timestamps are integer seconds (UTC). */
  datatype WatchConfig = WatchConfig(
    seriesName: string,
    seasonName: Option<string>,
    autoWatch: bool,
    createdAt: int)

  predicate InScope(c: WatchConfig, series: string, season: Option<string>) {
    c.seriesName == series && c.seasonName == season
  }

  /** No two configurations share a scope (the unique index on series and
      season, which `Add` also checks before inserting). */
  predicate UniqueScopes(cs: seq<WatchConfig>) {
    forall i, j :: 0 <= i < j < |cs| ==> !InScope(cs[j], cs[i].seriesName, cs[i].seasonName)
  }

  /** The position of the first configuration of a scope, or -1. */
  function FindScope(cs: seq<WatchConfig>, series: string, season: Option<string>): (k: int)
    ensures -1 <= k < |cs|
    ensures k >= 0 ==> InScope(cs[k], series, season)
    ensures forall j :: 0 <= j < |cs| && (k < 0 || j < k) ==> !InScope(cs[j], series, season)
  {
    if |cs| == 0 then -1
    else if InScope(cs[0], series, season) then 0
    else
      var k := FindScope(cs[1..], series, season);
      if k < 0 then -1 else k + 1
  }

  /** `GetAsync`: the configuration of exactly this scope, if any. */
  function Get(cs: seq<WatchConfig>, series: string, season: Option<string>): (r: Option<WatchConfig>)
    ensures r.Some? <==> exists i :: 0 <= i < |cs| && InScope(cs[i], series, season)
    ensures r.Some? ==> r.value in cs && InScope(r.value, series, season)
  {
    var k := FindScope(cs, series, season);
    if k < 0 then None else Some(cs[k])
  }

  /** `IsWatchedAsync`: a whole-series configuration with auto-watch on, or
      one for exactly this season. */
  predicate IsWatched(cs: seq<WatchConfig>, series: string, season: string) {
    (exists i :: 0 <= i < |cs| && InScope(cs[i], series, None) && cs[i].autoWatch)
    || (exists i :: 0 <= i < |cs| && InScope(cs[i], series, Some(season)) && cs[i].autoWatch)
  }

  /** With one configuration per scope, some configuration of the scope has
      auto-watch on exactly when the scope's own configuration has. */
  lemma AnyAutoWatchIsGet(cs: seq<WatchConfig>, series: string, season: Option<string>)
    requires UniqueScopes(cs)
    ensures (exists i :: 0 <= i < |cs| && InScope(cs[i], series, season) && cs[i].autoWatch)
      <==> Get(cs, series, season).Some? && Get(cs, series, season).value.autoWatch
  {
    var k := FindScope(cs, series, season);
    if i :| 0 <= i < |cs| && InScope(cs[i], series, season) && cs[i].autoWatch {
      assert k >= 0;
      assert k == i;
    }
  }

  /** `IsWatchedAsync` reads the whole-series configuration and then the
      season's: with one configuration per scope, a season is watched
      exactly when the series' configuration or the season's own has
      auto-watch on. */
  lemma IsWatchedByScope(cs: seq<WatchConfig>, series: string, season: string)
    requires UniqueScopes(cs)
    ensures IsWatched(cs, series, season) <==>
      || (Get(cs, series, None).Some? && Get(cs, series, None).value.autoWatch)
      || (Get(cs, series, Some(season)).Some? && Get(cs, series, Some(season)).value.autoWatch)
  {
    AnyAutoWatchIsGet(cs, series, None);
    AnyAutoWatchIsGet(cs, series, Some(season));
  }

  /** The text naming a scope in the messages of the watch operations. */
  function ScopeText(series: string, season: Option<string>): string {
    "series '" + series + "'" + (if season.Some? then " season '" + season.value + "'" else "")
  }

  /** `AddAsync`: a Conflict error when the scope already has a
      configuration, otherwise the configuration is appended with the given
      creation time. */
  function Add(cs: seq<WatchConfig>, c: WatchConfig, now: int): (r: Result<seq<WatchConfig>, Error>)
    ensures r.Err? <==> Get(cs, c.seriesName, c.seasonName).Some?
    ensures r.Err? ==> r.error == ConflictError("SeriesWatchConfigRepository.Add",
      "Watch configuration already exists for " + ScopeText(c.seriesName, c.seasonName))
    ensures r.Ok? ==> r.value == cs + [c.(createdAt := now)]
    ensures r.Ok? && UniqueScopes(cs) ==> UniqueScopes(r.value)
  {
    if Get(cs, c.seriesName, c.seasonName).Some? then
      Err(ConflictError("SeriesWatchConfigRepository.Add",
        "Watch configuration already exists for " + ScopeText(c.seriesName, c.seasonName)))
    else
      Ok(cs + [c.(createdAt := now)])
  }

  /** `DeleteAsync`: removes the configuration of the scope and reports
      whether there was one. */
  function Delete(cs: seq<WatchConfig>, series: string, season: Option<string>): (r: (seq<WatchConfig>, bool))
    ensures r.1 <==> Get(cs, series, season).Some?
    ensures !r.1 ==> r.0 == cs
    ensures r.1 ==> |r.0| == |cs| - 1
    ensures forall c :: c in r.0 ==> c in cs
    ensures UniqueScopes(cs) ==> UniqueScopes(r.0) && Get(r.0, series, season).None?
  {
    var k := FindScope(cs, series, season);
    if k < 0 then (cs, false)
    else
      var rest := cs[..k] + cs[k + 1..];
      assert forall c :: c in rest ==> c in cs;
      DeleteLeavesNoScope(cs, k, series, season);
      (rest, true)
  }

  lemma DeleteLeavesNoScope(cs: seq<WatchConfig>, k: int, series: string, season: Option<string>)
    requires 0 <= k < |cs| && InScope(cs[k], series, season)
    ensures var rest := cs[..k] + cs[k + 1..];
      UniqueScopes(cs) ==> UniqueScopes(rest) && forall j :: 0 <= j < |rest| ==> !InScope(rest[j], series, season)
  {
    var rest := cs[..k] + cs[k + 1..];
    forall j | 0 <= j < |rest| ensures rest[j] == if j < k then cs[j] else cs[j + 1] {
    }
  }

  /** Enabling a fresh scope and then deleting it restores the table. */
  lemma AddThenDelete(cs: seq<WatchConfig>, c: WatchConfig, now: int)
    requires Add(cs, c, now).Ok?
    ensures Delete(Add(cs, c, now).value, c.seriesName, c.seasonName) == (cs, true)
  {
    var added := Add(cs, c, now).value;
    var k := FindScope(added, c.seriesName, c.seasonName);
    assert InScope(added[|cs|], c.seriesName, c.seasonName);
    assert forall i :: 0 <= i < |cs| ==> added[i] == cs[i];
    assert k == |cs|;
    assert added[..k] + added[k + 1..] == cs;
  }

  /** Adding a configuration with auto-watch on watches every season in its
      scope. */
  lemma AddWatches(cs: seq<WatchConfig>, c: WatchConfig, now: int, season: string)
    requires c.autoWatch && Add(cs, c, now).Ok?
    requires c.seasonName.None? || c.seasonName == Some(season)
    ensures IsWatched(Add(cs, c, now).value, c.seriesName, season)
  {
    var added := Add(cs, c, now).value;
    assert InScope(added[|cs|], c.seriesName, c.seasonName);
  }
}
