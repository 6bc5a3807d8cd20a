/** `LibraryService`: reading one entry, flipping an entry's wanted and force
    flags, the paged listing with its parameter clamping, and the bulk
    wanted update of a series or season. Each call that writes returns the
    table afterwards together with its reply. */
module Library {
  import opened Wrappers
  import opened Errors
  import opened Text
  import opened Lists
  import opened Entries
  import opened Paging

  const DefaultPageSize: int := 50
  const MaxPageSize: int := 1000

  const BulkCode: string := "LibraryService.BulkSetWantedAsync"
  const EmptySeriesMessage: string := "Series name cannot be empty."

  // ---------------------------------------------------------------------
  // One entry

  /** `GetEntryById`: the repository's entry, or its NotFound error. */
  function GetEntryById(t: EntryTable, id: int): (r: ErrorOr<Entry>)
    ensures r.Value? <==> exists e :: e in t.rows && e.id == id
    ensures r.Value? ==> r.value in t.rows && r.value.id == id
    ensures r.Errors? ==> |r.errors| == 1 && r.errors[0].kind == NotFound
  {
    GetById(t, id)
  }

  /** In a valid table every stored entry is found by its id. */
  lemma GetEntryByIdFindsRow(t: EntryTable, e: Entry)
    requires Valid(t) && e in t.rows
    ensures GetEntryById(t, e.id) == Value(e)
  {
    var k := RowPosition(t, e);
  }

  /** The table after a one-row change and the reply: the row at `k`
      becomes `e`, and `e` is returned. */
  function Replaced(t: EntryTable, k: int, e: Entry): (EntryTable, ErrorOr<Entry>)
    requires 0 <= k < |t.rows|
  {
    (EntryTable(t.rows[k := e], t.nextId), Value(e))
  }

  /** `UpdateAsync` on a copy of the row at `k` that keeps its id: the row
      becomes the copy, except for the force flag, which stays as stored. */
  lemma UpdateStoredRow(t: EntryTable, k: int, e: Entry)
    requires 0 <= k == IndexOfId(t.rows, e.id)
    requires Update(t, e).Ok?
    ensures Update(t, e).value == EntryTable(t.rows[k := e.(forceProcess := t.rows[k].forceProcess)], t.nextId)
  {
    var u := Update(t, e).value;
    assert u.rows == t.rows[k := e.(forceProcess := t.rows[k].forceProcess)];
  }

  /** `SetWantedStatusAsync`: an unknown id leaves the table alone and
      answers NotFound; otherwise the row's wanted flag is set and saved and
      the updated entry is returned. The save can only fail when another
      row already holds the entry's path, which a valid table rules out. */
  function SetWantedStatus(t: EntryTable, id: int, wanted: bool): (r: Result<(EntryTable, ErrorOr<Entry>), string>)
    ensures GetById(t, id).Errors? ==> r == Ok((t, GetById(t, id)))
    ensures GetById(t, id).Value? && r.Ok? ==> var k := IndexOfId(t.rows, id);
      0 <= k && r.value == Replaced(t, k, t.rows[k].(isWanted := wanted))
    ensures r.Err? ==> r.error == SaveFailedMessage
    ensures Valid(t) ==> r.Ok? && Valid(r.value.0)
  {
    match GetById(t, id)
    case Errors(es) => Ok((t, Errors(es)))
    case Value(e) =>
      var e' := e.(isWanted := wanted);
      var k := IndexOfId(t.rows, id);
      match Update(t, e')
      case Err(m) => Err(m)
      case Ok(t') =>
        UpdateStoredRow(t, k, e');
        assert e'.(forceProcess := t.rows[k].forceProcess) == e';
        Ok((t', Value(e')))
  }

  /** After setting the wanted flag of a stored entry, reading the entry
      back gives the reply, which differs from the stored entry only in the
      flag; every other entry reads back as before; and setting the same
      flag again changes nothing. */
  lemma SetWantedReadBack(t: EntryTable, e: Entry, wanted: bool)
    requires Valid(t) && e in t.rows
    ensures var (t', reply) := SetWantedStatus(t, e.id, wanted).value;
      && reply == Value(e.(isWanted := wanted))
      && GetEntryById(t', e.id) == reply
      && (forall o :: o in t.rows && o.id != e.id ==> GetEntryById(t', o.id) == Value(o))
      && SetWantedStatus(t', e.id, wanted) == Ok((t', reply))
  {
    var k := RowPosition(t, e);
    var (t', reply) := SetWantedStatus(t, e.id, wanted).value;
    assert t'.rows[k] == e.(isWanted := wanted);
    GetEntryByIdFindsRow(t', t'.rows[k]);
    forall o | o in t.rows && o.id != e.id ensures GetEntryById(t', o.id) == Value(o) {
      var j := RowPosition(t, o);
      assert t'.rows[j] == o;
      GetEntryByIdFindsRow(t', o);
    }
    assert t'.rows[k := t'.rows[k]] == t'.rows;
  }

  // ---------------------------------------------------------------------
  // The force flag

  /** `SetForceProcessStatusAsync` as written: the flag is set on the
      fetched entry, which is saved and returned, but `UpdateAsync` never
      copies the force flag, so on a valid table nothing is stored: the
      table comes back unchanged while the reply shows the new flag. */
  function SetForceProcessStatusAsWritten(t: EntryTable, id: int, force: bool)
    : (r: Result<(EntryTable, ErrorOr<Entry>), string>)
    ensures GetById(t, id).Errors? ==> r == Ok((t, GetById(t, id)))
    ensures GetById(t, id).Value? && r.Ok? ==>
      r.value.1 == Value(GetById(t, id).value.(forceProcess := force))
    ensures r.Err? ==> r.error == SaveFailedMessage
    ensures Valid(t) ==> r.Ok? && r.value.0 == t
  {
    match GetById(t, id)
    case Errors(es) => Ok((t, Errors(es)))
    case Value(e) =>
      var e' := e.(forceProcess := force);
      var k := IndexOfId(t.rows, id);
      match Update(t, e')
      case Err(m) => Err(m)
      case Ok(t') =>
        UpdateStoredRow(t, k, e');
        assert e'.(forceProcess := t.rows[k].forceProcess) == t.rows[k];
        assert t.rows[k := t.rows[k]] == t.rows;
        Ok((t', Value(e')))
  }

  /** The lost flag: forcing a stored entry that is not forced answers with
      a forced entry, yet the entry read back afterwards is still not
      forced, and so stays out of the translation queue when it is
      otherwise ineligible. */
  lemma ForceFlagNotPersisted(t: EntryTable, e: Entry)
    requires Valid(t) && e in t.rows && !e.forceProcess
    ensures var (t', reply) := SetForceProcessStatusAsWritten(t, e.id, true).value;
      && reply.value.forceProcess
      && !GetEntryById(t', e.id).value.forceProcess
      && (!Eligible(e) ==> GetEntryById(t', e.id).value !in EligibleRows(t'.rows))
  {
    GetEntryByIdFindsRow(t, e);
  }

  /** `UpdateAsync` as evidently intended: every field but the id is saved,
      the force flag included. */
  function UpdateAllFields(t: EntryTable, e: Entry): (r: Result<EntryTable, string>)
    ensures r.Ok? <==> Update(t, e).Ok?
    ensures r.Ok? ==> var k := IndexOfId(t.rows, e.id);
      0 <= k && r.value == EntryTable(t.rows[k := e], t.nextId)
    ensures r.Ok? && Valid(t) ==> Valid(r.value)
  {
    match Update(t, e)
    case Err(m) => Err(m)
    case Ok(u) =>
      var k := IndexOfId(t.rows, e.id);
      UpdateStoredRow(t, k, e);
      Ok(EntryTable(u.rows[k := e], u.nextId))
  }

  /** `SetForceProcessStatusAsync` with the intended update: the force
      flag is stored like the wanted flag. */
  function SetForceProcessStatus(t: EntryTable, id: int, force: bool): (r: Result<(EntryTable, ErrorOr<Entry>), string>)
    ensures GetById(t, id).Errors? ==> r == Ok((t, GetById(t, id)))
    ensures GetById(t, id).Value? && r.Ok? ==> var k := IndexOfId(t.rows, id);
      0 <= k && r.value == Replaced(t, k, t.rows[k].(forceProcess := force))
    ensures r.Err? ==> r.error == SaveFailedMessage
    ensures Valid(t) ==> r.Ok? && Valid(r.value.0)
  {
    match GetById(t, id)
    case Errors(es) => Ok((t, Errors(es)))
    case Value(e) =>
      var e' := e.(forceProcess := force);
      match UpdateAllFields(t, e')
      case Err(m) => Err(m)
      case Ok(t') =>
        Ok((t', Value(e')))
  }

  /** With the intended update, forcing an entry is stored: it reads back as
      the reply, every other entry is untouched, and a forced entry joins
      the translation queue. */
  lemma ForceReadBack(t: EntryTable, e: Entry, force: bool)
    requires Valid(t) && e in t.rows
    ensures var (t', reply) := SetForceProcessStatus(t, e.id, force).value;
      && reply == Value(e.(forceProcess := force))
      && GetEntryById(t', e.id) == reply
      && (forall o :: o in t.rows && o.id != e.id ==> GetEntryById(t', o.id) == Value(o))
      && (force ==> reply.value in EligibleRows(t'.rows))
  {
    var k := RowPosition(t, e);
    var (t', reply) := SetForceProcessStatus(t, e.id, force).value;
    assert t'.rows[k] == e.(forceProcess := force);
    GetEntryByIdFindsRow(t', t'.rows[k]);
    forall o | o in t.rows && o.id != e.id ensures GetEntryById(t', o.id) == Value(o) {
      var j := RowPosition(t, o);
      assert t'.rows[j] == o;
      GetEntryByIdFindsRow(t', o);
    }
  }

  // ---------------------------------------------------------------------
  // Listing

  /** The page number `GetEntriesAsync` uses: below 1 becomes 1. */
  function ClampPage(page: int): (p: int)
    ensures p >= 1
    ensures page >= 1 ==> p == page
    ensures page < 1 ==> p == 1
  {
    if page < 1 then 1 else page
  }

  /** The page size `GetEntriesAsync` uses: outside 1..1000 becomes 50. */
  function ClampPageSize(pageSize: int): (s: int)
    ensures 1 <= s <= MaxPageSize
    ensures 1 <= pageSize <= MaxPageSize ==> s == pageSize
    ensures !(1 <= pageSize <= MaxPageSize) ==> s == DefaultPageSize
  {
    if pageSize < 1 || pageSize > MaxPageSize then DefaultPageSize else pageSize
  }

  /** `GetEntriesAsync` as written: the clamped page and size go to the
      repository's paging, whose skip count wraps in 32 bits. Clamping
      keeps every page from 1 to `int.MaxValue`, so the wrap is reachable.
      The page and size are the 32-bit integers of the query. */
  function GetEntriesAsWritten(t: EntryTable, page: int, pageSize: int, c: Criteria): (r: PagedResult)
    requires Int32Min <= page <= Int32Max
    ensures r.page == ClampPage(page) && r.pageSize == ClampPageSize(pageSize)
    ensures r.totalCount == CountWhere(t.rows, MatchFilter(c))
    ensures forall e :: e in r.items ==> e in t.rows && Matches(c, e)
    ensures |r.items| <= r.pageSize
    ensures forall k :: 0 <= k < |r.items| ==>
      SkipAsWritten(r.page, r.pageSize) + k < r.totalCount
      && r.items[k] == Sorted(t, c)[SkipAsWritten(r.page, r.pageSize) + k]
    ensures (r.page - 1) * r.pageSize <= Int32Max ==> r == GetEntries(t, page, pageSize, c)
  {
    GetPagedAsWritten(t, PageRequest(ClampPage(page), ClampPageSize(pageSize), c))
  }

  /** The wrap survives the clamping: page 2147483647 of size 2 lists the
      first two entries as written, while the intended page is empty for
      any table of fewer than 4294967292 rows. */
  lemma GetEntriesWrapsToFirst(t: EntryTable, c: Criteria)
    ensures GetEntriesAsWritten(t, Int32Max, 2, c).items == GetEntries(t, 1, 2, c).items
    ensures |t.rows| < 4294967292 ==> GetEntries(t, Int32Max, 2, c).items == []
  {
    LastPageWrapsToFirst(t, c);
  }

  /** `GetEntriesAsync` as intended: the clamped page of the entries
      matching the filters, skipping every earlier page. The page and size
      are the 32-bit integers of the query. */
  function GetEntries(t: EntryTable, page: int, pageSize: int, c: Criteria): (r: PagedResult)
    requires Int32Min <= page <= Int32Max
    ensures 1 <= r.page && 1 <= r.pageSize <= MaxPageSize
    ensures page >= 1 ==> r.page == page
    ensures page < 1 ==> r.page == 1
    ensures 1 <= pageSize <= MaxPageSize ==> r.pageSize == pageSize
    ensures !(1 <= pageSize <= MaxPageSize) ==> r.pageSize == DefaultPageSize
    ensures |r.items| <= MaxPageSize
    ensures r.totalCount == CountWhere(t.rows, MatchFilter(c))
    ensures forall e :: e in r.items ==> e in t.rows && Matches(c, e)
  {
    GetPaged(t, PageRequest(ClampPage(page), ClampPageSize(pageSize), c))
  }

  /** The clamping is idempotent: asking again with the page and size a
      result reports gives the same result. */
  lemma GetEntriesStable(t: EntryTable, page: int, pageSize: int, c: Criteria)
    requires Int32Min <= page <= Int32Max
    ensures var r := GetEntries(t, page, pageSize, c);
      GetEntries(t, r.page, r.pageSize, c) == r
  {
  }

  /** Out-of-range sizes all ask for the default page of 50. */
  lemma BadSizeIsDefault(t: EntryTable, page: int, pageSize: int, c: Criteria)
    requires Int32Min <= page <= Int32Max
    requires pageSize < 1 || pageSize > MaxPageSize
    ensures GetEntries(t, page, pageSize, c) == GetEntries(t, page, DefaultPageSize, c)
  {
  }

  // ---------------------------------------------------------------------
  // Bulk wanted update

  /** `BulkSetWantedAsync`: a null, empty or blank series name is a
      Validation error and nothing is written; otherwise every entry of the
      series (or of its season, when one is given) gets the flag, and the
      reply is how many entries that was. */
  function BulkSetWanted(t: EntryTable, series: Option<string>, season: Option<string>, wanted: bool)
    : (r: (EntryTable, ErrorOr<int>))
    ensures IsNullOrWhiteSpace(series) ==>
      r == (t, Errors([ValidationError(BulkCode, EmptySeriesMessage)]))
    ensures !IsNullOrWhiteSpace(series) ==>
      && r.1 == Value(CountWhere(t.rows, (e: Entry) => InScope(e, series.value, season)))
      && r.0.nextId == t.nextId && |r.0.rows| == |t.rows|
      && (forall i :: 0 <= i < |t.rows| ==>
            r.0.rows[i] == if InScope(t.rows[i], series.value, season) then t.rows[i].(isWanted := wanted) else t.rows[i])
    ensures Valid(t) ==> Valid(r.0)
  {
    if IsNullOrWhiteSpace(series) then (t, Errors([ValidationError(BulkCode, EmptySeriesMessage)]))
    else
      var (t', n) := BulkUpdateWanted(t, series.value, season, wanted);
      (t', Value(n))
  }

  /** Repeating a bulk update changes nothing more and reports the same
      count; afterwards every entry in scope has the flag. */
  lemma BulkSetWantedIdempotent(t: EntryTable, series: Option<string>, season: Option<string>, wanted: bool)
    ensures var r := BulkSetWanted(t, series, season, wanted);
      BulkSetWanted(r.0, series, season, wanted) == r
    ensures var r := BulkSetWanted(t, series, season, wanted);
      !IsNullOrWhiteSpace(series) ==>
        forall e :: e in r.0.rows && InScope(e, series.value, season) ==> e.isWanted == wanted
  {
    var r := BulkSetWanted(t, series, season, wanted);
    if !IsNullOrWhiteSpace(series) {
      var inScope := (e: Entry) => InScope(e, series.value, season);
      var r2 := BulkSetWanted(r.0, series, season, wanted);
      assert r2.0.rows == r.0.rows;
      CountPairwise(t.rows, r.0.rows, inScope);
    }
  }
}
