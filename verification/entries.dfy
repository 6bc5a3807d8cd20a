/** The subtitle entry table and `SubtitleEntryRepository`'s row-level
    operations: the eligibility query, lookups, insert, update, delete by ids
    and the bulk wanted-flag update. */
module Entries {
  import opened Wrappers
  import opened Errors
  import opened Text
  import opened Lists

  /** One tracked video file. Timestamps are integer seconds (UTC). */
  datatype Entry = Entry(
    id: int,
    series: string,
    season: string,
    fileName: string,
    filePath: string,
    isProcessed: bool,
    isWanted: bool,
    alreadyHad: bool,
    forceProcess: bool,
    lastScanned: int,
    processedAt: Option<int>,
    errorMessage: Option<string>)

  /** The `subtitle_entries` table: its rows in ascending id order (the order
      a plain SQLite scan returns them) and the id the auto-increment key
      hands out next. */
  datatype EntryTable = EntryTable(rows: seq<Entry>, nextId: int)

  /** Ids are positive, below `nextId` and strictly increasing along the
      rows, and no two rows share a file path (the unique index on
      FilePath). */
  predicate Valid(t: EntryTable) {
    && (forall i :: 0 <= i < |t.rows| ==> 0 < t.rows[i].id < t.nextId)
    && (forall i, j :: 0 <= i < j < |t.rows| ==> t.rows[i].id < t.rows[j].id)
    && (forall i, j :: 0 <= i < j < |t.rows| ==> t.rows[i].filePath != t.rows[j].filePath)
  }

  /** The message EF Core gives when a save breaks a constraint such as the
      unique file-path index. */
  const SaveFailedMessage: string :=
    "An error occurred while saving the entity changes. See the inner exception for details."

  // ---------------------------------------------------------------------
  // Eligibility for translation

  /** The eligibility rule of `GetUnprocessedWantedAsync`: wanted, not yet
      processed and without a subtitle file of its own, or forced. */
  predicate Eligible(e: Entry) {
    (!e.isProcessed && e.isWanted && !e.alreadyHad) || e.forceProcess
  }

  /** Ids strictly increase along the rows. */
  predicate IdsIncreasing(rows: seq<Entry>) {
    forall i, j :: 0 <= i < j < |rows| ==> rows[i].id < rows[j].id
  }

  /** Filtering keeps the order of the rows: ids still increase. */
  lemma {:induction false} FilterOrdered(rows: seq<Entry>, p: Entry -> bool)
    requires IdsIncreasing(rows)
    ensures IdsIncreasing(Filter(rows, p))
  {
    if |rows| > 0 {
      FilterOrdered(rows[1..], p);
      var tail := Filter(rows[1..], p);
      forall k | 0 <= k < |tail| ensures rows[0].id < tail[k].id {
        assert tail[k] in rows[1..];
        var m :| 0 <= m < |rows[1..]| && rows[1..][m] == tail[k];
        assert rows[m + 1] == tail[k];
      }
    }
  }

  /** The eligible rows, in table order. */
  function EligibleRows(rows: seq<Entry>): (r: seq<Entry>)
    ensures forall e :: e in r <==> e in rows && Eligible(e)
    ensures |r| == CountWhere(rows, Eligible)
  {
    Filter(rows, Eligible)
  }

  /** `GetUnprocessedWantedAsync(take)`: the first `take` eligible rows.
      `Take` becomes SQLite's `LIMIT`, so a zero `take` gives none and a
      negative one sets no bound at all. */
  function GetUnprocessedWanted(t: EntryTable, take: int): (r: seq<Entry>)
    ensures forall e :: e in r ==> e in t.rows && Eligible(e)
    ensures |r| == if take == 0 then 0 else if take < 0 then CountWhere(t.rows, Eligible)
      else Min(take, CountWhere(t.rows, Eligible))
    ensures take < 0 || (0 < take && |r| < take) ==> forall e :: e in t.rows && Eligible(e) ==> e in r
  {
    var all := EligibleRows(t.rows);
    if take == 0 then [] else if take < 0 then all else all[..Min(take, |all|)]
  }

  function Min(a: int, b: int): int {
    if a <= b then a else b
  }

  /** The batch of a valid table holds distinct entries in ascending id
      order. */
  lemma BatchOrdered(t: EntryTable, take: int)
    requires Valid(t)
    ensures IdsIncreasing(GetUnprocessedWanted(t, take))
  {
    FilterOrdered(t.rows, Eligible);
  }

  // ---------------------------------------------------------------------
  // Lookups

  /** The position of the row with id `id`, or -1. */
  function IndexOfId(rows: seq<Entry>, id: int): (k: int)
    ensures -1 <= k < |rows|
    ensures k >= 0 ==> rows[k].id == id
    ensures k < 0 ==> forall i :: 0 <= i < |rows| ==> rows[i].id != id
  {
    if |rows| == 0 then -1
    else if rows[|rows| - 1].id == id then |rows| - 1
    else IndexOfId(rows[..|rows| - 1], id)
  }

  /** In a valid table a row's id leads back to that row. */
  lemma IndexOfOwnId(t: EntryTable, k: int)
    requires Valid(t) && 0 <= k < |t.rows|
    ensures IndexOfId(t.rows, t.rows[k].id) == k
  {
  }

  /** The position of a row whose path is exactly `path` (the last one, if
      several), or -1. */
  function IndexOfPath(rows: seq<Entry>, path: string): (k: int)
    ensures -1 <= k < |rows|
    ensures k >= 0 ==> rows[k].filePath == path
    ensures k < 0 ==> forall i :: 0 <= i < |rows| ==> rows[i].filePath != path
  {
    if |rows| == 0 then -1
    else if rows[|rows| - 1].filePath == path then |rows| - 1
    else IndexOfPath(rows[..|rows| - 1], path)
  }

  predicate HasPath(t: EntryTable, path: string) {
    exists i :: 0 <= i < |t.rows| && t.rows[i].filePath == path
  }

  /** `GetByFilePathAsync`: the row whose path equals `path` exactly (case
      matters), or null. */
  function GetByFilePath(t: EntryTable, path: string): (r: Option<Entry>)
    ensures r.Some? ==> r.value in t.rows && r.value.filePath == path
    ensures r.None? <==> !HasPath(t, path)
  {
    var k := IndexOfPath(t.rows, path);
    if k < 0 then None else Some(t.rows[k])
  }

  /** `GetByIdAsync`: the row with the id, or the NotFound error. */
  function GetById(t: EntryTable, id: int): (r: ErrorOr<Entry>)
    ensures r.Value? ==> r.value in t.rows && r.value.id == id
    ensures r.Errors? ==> (forall e :: e in t.rows ==> e.id != id)
    ensures r.Errors? ==> r.errors == [NotFoundError("SubtitleEntryRepository.GetByIdAsync",
                                        "SubtitleEntry with Id " + IntToString(id) + " not found")]
  {
    var k := IndexOfId(t.rows, id);
    if k < 0 then
      Errors([NotFoundError("SubtitleEntryRepository.GetByIdAsync",
                            "SubtitleEntry with Id " + IntToString(id) + " not found")])
    else Value(t.rows[k])
  }

  // ---------------------------------------------------------------------
  // Insert and update

  /** `AddAsync`: inserts the entry under the next id. A path already in the
      table breaks the unique index and the save fails. */
  function Add(t: EntryTable, e: Entry): (r: Result<EntryTable, string>)
    ensures r.Ok? <==> !HasPath(t, e.filePath)
    ensures r.Ok? ==> (r.value.rows == t.rows + [e.(id := t.nextId)] && r.value.nextId == t.nextId + 1)
    ensures r.Ok? && Valid(t) && t.nextId > 0 ==> Valid(r.value)
    ensures r.Err? ==> r.error == SaveFailedMessage
  {
    if IndexOfPath(t.rows, e.filePath) >= 0 then Err(SaveFailedMessage)
    else Ok(EntryTable(t.rows + [e.(id := t.nextId)], t.nextId + 1))
  }

  /** The row `UpdateAsync` writes: every field of `e` except the id and the
      force flag, which keep the stored row's values. */
  function Overwrite(stored: Entry, e: Entry): Entry {
    e.(id := stored.id, forceProcess := stored.forceProcess)
  }

  /** `UpdateAsync`: fails when no row has the entry's id; otherwise
      overwrites every field but `Id` and `ForceProcess`. A path that another
      row already holds breaks the unique index and the save fails. */
  function Update(t: EntryTable, e: Entry): (r: Result<EntryTable, string>)
    ensures IndexOfId(t.rows, e.id) < 0 ==>
      r == Err("SubtitleEntry with Id " + IntToString(e.id) + " not found")
    ensures r.Ok? ==> var k := IndexOfId(t.rows, e.id);
      && k >= 0
      && r.value.nextId == t.nextId
      && |r.value.rows| == |t.rows|
      && r.value.rows[k].id == e.id
      && r.value.rows[k].forceProcess == t.rows[k].forceProcess
      && r.value.rows[k].(forceProcess := e.forceProcess) == e
      && (forall i :: 0 <= i < |t.rows| && i != k ==> r.value.rows[i] == t.rows[i])
    ensures r.Ok? && Valid(t) ==> Valid(r.value)
  {
    var k := IndexOfId(t.rows, e.id);
    if k < 0 then Err("SubtitleEntry with Id " + IntToString(e.id) + " not found")
    else if exists i :: 0 <= i < |t.rows| && i != k && t.rows[i].filePath == e.filePath then
      Err(SaveFailedMessage)
    else Ok(EntryTable(t.rows[k := Overwrite(t.rows[k], e)], t.nextId))
  }

  /** An update of a row with its own path never trips the unique index, so
      on a stored id it succeeds. */
  lemma UpdateKeepingPathSucceeds(t: EntryTable, e: Entry)
    requires Valid(t)
    requires IndexOfId(t.rows, e.id) >= 0
    requires e.filePath == t.rows[IndexOfId(t.rows, e.id)].filePath
    ensures Update(t, e).Ok?
  {
  }

  /** In a valid table, saving a changed copy of a row that keeps its id,
      path and force flag replaces exactly that row. */
  lemma UpdateOwnRow(t: EntryTable, k: int, e: Entry)
    requires Valid(t) && 0 <= k < |t.rows|
    requires e.id == t.rows[k].id && e.filePath == t.rows[k].filePath && e.forceProcess == t.rows[k].forceProcess
    ensures Update(t, e) == Ok(EntryTable(t.rows[k := e], t.nextId))
  {
    IndexOfOwnId(t, k);
    assert Overwrite(t.rows[k], e) == e;
  }

  /** A row of a valid table is found again by its id. */
  lemma RowPosition(t: EntryTable, e: Entry) returns (k: int)
    requires Valid(t) && e in t.rows
    ensures 0 <= k < |t.rows| && k == IndexOfId(t.rows, e.id) && t.rows[k] == e
  {
    k :| 0 <= k < |t.rows| && t.rows[k] == e;
    IndexOfOwnId(t, k);
  }

  // ---------------------------------------------------------------------
  // Delete by ids

  /** The ids `DeleteByIdsAsync` acts on: the positive ones, without
      duplicates. */
  function PositiveIds(ids: seq<int>): set<int> {
    set i | i in ids && i > 0
  }

  function RemoveIds(rows: seq<Entry>, targets: set<int>): (r: seq<Entry>)
    ensures forall e :: e in r <==> e in rows && e.id !in targets
    ensures |r| == |rows| - CountWhere(rows, (e: Entry) => e.id in targets)
  {
    var keep := (e: Entry) => e.id !in targets;
    CountComplement(rows, (e: Entry) => e.id in targets, keep);
    Filter(rows, keep)
  }

  /** `DeleteByIdsAsync`: removes the rows whose id is among the positive
      ids given and returns how many rows that was (0 when no id
      qualifies). */
  function DeleteByIds(t: EntryTable, ids: seq<int>): (r: (EntryTable, nat))
    ensures r.0.nextId == t.nextId
    ensures forall e :: e in r.0.rows <==> e in t.rows && e.id !in PositiveIds(ids)
    ensures r.1 == |t.rows| - |r.0.rows|
    ensures r.1 == CountWhere(t.rows, (e: Entry) => e.id in PositiveIds(ids))
    ensures PositiveIds(ids) == {} ==> r.0 == t && r.1 == 0
  {
    var targets := PositiveIds(ids);
    if targets == {} then
      CountNone(t.rows, (e: Entry) => e.id in targets);
      (t, 0)
    else
      var rows := RemoveIds(t.rows, targets);
      (EntryTable(rows, t.nextId), |t.rows| - |rows|)
  }

  /** Deleting rows keeps the table valid. */
  lemma DeleteByIdsKeepsValid(t: EntryTable, ids: seq<int>)
    requires Valid(t)
    ensures Valid(DeleteByIds(t, ids).0)
  {
    var r := DeleteByIds(t, ids).0;
    FilterOrdered(t.rows, (e: Entry) => e.id !in PositiveIds(ids));
    OrderedSubsetValid(t, r.rows);
  }

  /** Rows taken from a valid table, with ids still increasing, make a valid
      table with the same next id. */
  lemma OrderedSubsetValid(t: EntryTable, rows: seq<Entry>)
    requires Valid(t) && IdsIncreasing(rows)
    requires forall e :: e in rows ==> e in t.rows
    ensures Valid(EntryTable(rows, t.nextId))
  {
    forall i | 0 <= i < |rows| ensures 0 < rows[i].id < t.nextId {
      assert rows[i] in rows;
    }
    forall i, j | 0 <= i < j < |rows| ensures rows[i].filePath != rows[j].filePath {
      assert rows[i] in rows && rows[j] in rows;
      var a :| 0 <= a < |t.rows| && t.rows[a] == rows[i];
      var b :| 0 <= b < |t.rows| && t.rows[b] == rows[j];
      assert a < b;
    }
  }

  // ---------------------------------------------------------------------
  // Bulk wanted update

  /** An entry belongs to the scope of a series, or of one of its seasons
      when a season is given. */
  predicate InScope(e: Entry, series: string, season: Option<string>) {
    e.series == series && (season.None? || e.season == season.value)
  }

  /** `BulkUpdateWantedAsync`: sets `IsWanted` on every row in scope and
      nothing else, returning the number of rows in scope. */
  function BulkUpdateWanted(t: EntryTable, series: string, season: Option<string>, wanted: bool)
    : (r: (EntryTable, nat))
    ensures r.0.nextId == t.nextId && |r.0.rows| == |t.rows|
    ensures forall i :: 0 <= i < |t.rows| ==>
      r.0.rows[i] == if InScope(t.rows[i], series, season) then t.rows[i].(isWanted := wanted) else t.rows[i]
    ensures r.1 == CountWhere(t.rows, (e: Entry) => InScope(e, series, season))
    ensures Valid(t) ==> Valid(r.0)
  {
    var rows := SetWanted(t.rows, series, season, wanted);
    (EntryTable(rows, t.nextId), CountWhere(t.rows, (e: Entry) => InScope(e, series, season)))
  }

  function SetWanted(rows: seq<Entry>, series: string, season: Option<string>, wanted: bool)
    : (r: seq<Entry>)
    ensures |r| == |rows|
    ensures forall i :: 0 <= i < |rows| ==>
      r[i] == if InScope(rows[i], series, season) then rows[i].(isWanted := wanted) else rows[i]
  {
    seq(|rows|, i requires 0 <= i < |rows| =>
      if InScope(rows[i], series, season) then rows[i].(isWanted := wanted) else rows[i])
  }

  /** After a bulk update every entry in scope has the requested flag, and
      the entries outside the scope are untouched. */
  lemma BulkUpdateWantedEffect(t: EntryTable, series: string, season: Option<string>, wanted: bool)
    ensures var t' := BulkUpdateWanted(t, series, season, wanted).0;
      forall i :: 0 <= i < |t'.rows| ==>
        (InScope(t'.rows[i], series, season) ==> t'.rows[i].isWanted == wanted)
        && (!InScope(t'.rows[i], series, season) ==> t'.rows[i] == t.rows[i])
  {
  }
}
