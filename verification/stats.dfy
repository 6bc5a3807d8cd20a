/** `StatsEndpoints`: the library counters computed over every entry, and
    the usage listing with its default window of the last thirty days. */
module Stats {
  import opened Wrappers
  import opened Lists
  import opened Entries
  import opened Usage

  /** `LibraryStats`. */
  datatype LibraryStats = LibraryStats(
    totalFiles: nat,
    processedFiles: nat,
    unprocessedFiles: nat,
    wantedFiles: nat,
    alreadyHasFiles: nat,
    errorFiles: nat,
    lastScanned: Option<int>)

  const UsageWindowDays: int := 30

  predicate IsProcessed(e: Entry) {
    e.isProcessed
  }

  predicate IsUnprocessed(e: Entry) {
    !e.isProcessed
  }

  /** Wanted, not processed and without a subtitle file of its own. */
  predicate IsWantedFile(e: Entry) {
    e.isWanted && !e.isProcessed && !e.alreadyHad
  }

  predicate HadSubtitles(e: Entry) {
    e.alreadyHad
  }

  /** The error message is neither null nor empty. */
  predicate HasError(e: Entry) {
    e.errorMessage.Some? && e.errorMessage.value != ""
  }

  /** The latest scan time among the rows. */
  function MaxLastScanned(rows: seq<Entry>): (m: int)
    requires |rows| > 0
    ensures exists i :: 0 <= i < |rows| && rows[i].lastScanned == m
    ensures forall i :: 0 <= i < |rows| ==> rows[i].lastScanned <= m
  {
    if |rows| == 1 then rows[0].lastScanned
    else
      var m := MaxLastScanned(rows[1..]);
      assert forall i :: 1 <= i < |rows| ==> rows[i] == rows[1..][i - 1];
      if rows[0].lastScanned >= m then rows[0].lastScanned else m
  }

  /** `GetLibraryStats`: the counters over every entry; the last scan time
      is absent exactly when there are no entries. */
  function GetLibraryStats(t: EntryTable): (s: LibraryStats)
    ensures s.totalFiles == |t.rows| == s.processedFiles + s.unprocessedFiles
    ensures s.wantedFiles <= s.unprocessedFiles
    ensures s.processedFiles == CountWhere(t.rows, IsProcessed)
    ensures s.wantedFiles == CountWhere(t.rows, IsWantedFile)
    ensures s.alreadyHasFiles == CountWhere(t.rows, HadSubtitles) <= s.totalFiles
    ensures s.errorFiles == CountWhere(t.rows, HasError) <= s.totalFiles
    ensures s.lastScanned.None? <==> |t.rows| == 0
    ensures s.lastScanned.Some? ==>
      && (exists e :: e in t.rows && e.lastScanned == s.lastScanned.value)
      && (forall e :: e in t.rows ==> e.lastScanned <= s.lastScanned.value)
  {
    CountComplement(t.rows, IsProcessed, IsUnprocessed);
    CountImplied(t.rows, IsWantedFile, IsUnprocessed);
    LibraryStats(
      |t.rows|,
      CountWhere(t.rows, IsProcessed),
      CountWhere(t.rows, IsUnprocessed),
      CountWhere(t.rows, IsWantedFile),
      CountWhere(t.rows, HadSubtitles),
      CountWhere(t.rows, HasError),
      if |t.rows| != 0 then Some(MaxLastScanned(t.rows)) else None)
  }

  /** When no entry is forced, the wanted counter is the length of the
      translation queue: the entries `GetUnprocessedWantedAsync` would hand
      out with an unbounded batch. */
  lemma WantedFilesIsQueueLength(t: EntryTable)
    requires forall e :: e in t.rows ==> !e.forceProcess
    ensures GetLibraryStats(t).wantedFiles == |EligibleRows(t.rows)|
  {
    CountWhereSame(t.rows, IsWantedFile, Eligible);
  }

  /** Adding an entry with the next id adds one to the total and to exactly
      one of the processed and unprocessed counters, adds one to the wanted,
      already-subtitled and error counters exactly when the new entry is of
      that kind, and can only move the last scan time forward. */
  lemma StatsAfterAdd(t: EntryTable, e: Entry)
    requires Add(t, e).Ok?
    ensures var s, s' := GetLibraryStats(t), GetLibraryStats(Add(t, e).value);
      && s'.totalFiles == s.totalFiles + 1
      && s'.processedFiles == s.processedFiles + (if e.isProcessed then 1 else 0)
      && s'.unprocessedFiles == s.unprocessedFiles + (if e.isProcessed then 0 else 1)
      && s'.wantedFiles == s.wantedFiles + (if IsWantedFile(e) then 1 else 0)
      && s'.alreadyHasFiles == s.alreadyHasFiles + (if HadSubtitles(e) then 1 else 0)
      && s'.errorFiles == s.errorFiles + (if HasError(e) then 1 else 0)
      && s'.lastScanned.Some?
      && (s.lastScanned.Some? ==> s'.lastScanned.value >= s.lastScanned.value)
      && s'.lastScanned.value >= e.lastScanned
  {
    var e' := e.(id := t.nextId);
    var rows' := Add(t, e).value.rows;
    assert rows' == t.rows + [e'];
    CountWhereAppend(t.rows, [e'], IsProcessed);
    CountWhereAppend(t.rows, [e'], IsUnprocessed);
    CountWhereAppend(t.rows, [e'], IsWantedFile);
    CountWhereAppend(t.rows, [e'], HadSubtitles);
    CountWhereAppend(t.rows, [e'], HasError);
    assert e' in rows';
    if |t.rows| > 0 {
      var s := GetLibraryStats(t);
      var e0 :| e0 in t.rows && e0.lastScanned == s.lastScanned.value;
      assert e0 in rows';
    }
  }

  /** The default start of the usage window: thirty days before `now`. */
  function DefaultFrom(now: int): (d: int)
    ensures now - d == UsageWindowDays * SecondsPerDay
  {
    now - UsageWindowDays * SecondsPerDay
  }

  /** `GetApiUsageStats`: the usage records from `from` to `to`, both
      included, of the model when one is given; a missing `from` means
      thirty days ago and a missing `to` means now. */
  function GetApiUsageStats(log: seq<UsageRecord>, from: Option<int>, to: Option<int>, model: Option<string>, now: int)
    : (r: seq<UsageRecord>)
    ensures forall u :: u in r <==>
      && u in log
      && (if from.Some? then from.value else DefaultFrom(now)) <= u.date
      && u.date <= (if to.Some? then to.value else now)
      && ModelMatches(model, u)
  {
    GetByDateRange(log, from.GetOr(DefaultFrom(now)), to.GetOr(now), model)
  }

  /** Without bounds, the listing holds the records of the last thirty days
      up to `now`, so it includes every record the rate limiter counts for
      the last minute that is not dated after `now`. */
  lemma DefaultWindowCoversLastMinute(log: seq<UsageRecord>, now: int, model: string, u: UsageRecord)
    requires u in log && IsLastMinute(now, model)(u) && u.date <= now
    ensures u in GetApiUsageStats(log, None, None, Some(model), now)
  {
  }
}
