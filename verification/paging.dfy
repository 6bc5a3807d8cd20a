/** `SubtitleEntryRepository.GetPagedAsync`: optional flag filters and a text
    search, the total count of matches, and one page of the matches ordered by
    series, season and file name. */
module Paging {
  import opened Wrappers
  import opened Text
  import opened Like
  import opened Lists
  import opened Entries
  import opened Ordering

  /** Search text beyond this many characters (after trimming) is cut off. */
  const MaxSearchLength: nat := 100

  /** The filters of a page request; `None` means "do not filter". */
  datatype Criteria = Criteria(
    isProcessed: Option<bool>,
    isWanted: Option<bool>,
    alreadyHas: Option<bool>,
    search: Option<string>)

  datatype PageRequest = PageRequest(page: int, pageSize: int, criteria: Criteria)

  datatype PagedResult = PagedResult(
    items: seq<Entry>,
    totalCount: nat,
    page: int,
    pageSize: int,
    totalPages: int)

  /** The search text as the query uses it: trimmed, then cut to at most
      `MaxSearchLength` characters. */
  function SearchText(search: string): (r: string)
    ensures |r| == Min(|Trim(search)|, MaxSearchLength)
    ensures |r| <= |Trim(search)| && r == Trim(search)[..|r|]
    ensures |Trim(search)| <= MaxSearchLength ==> r == Trim(search)
  {
    var t := Trim(search);
    if |t| > MaxSearchLength then t[..MaxSearchLength] else t
  }

  predicate FlagMatches(filter: Option<bool>, value: bool) {
    filter.None? || filter.value == value
  }

  /** A blank search matches everything; otherwise `%text%` must match the
      file name, the series or the season. */
  predicate SearchMatches(search: Option<string>, e: Entry) {
    IsNullOrWhiteSpace(search) ||
      var p := "%" + SearchText(search.value) + "%";
      LikeMatch(e.fileName, p) || LikeMatch(e.series, p) || LikeMatch(e.season, p)
  }

  predicate Matches(c: Criteria, e: Entry) {
    && FlagMatches(c.isProcessed, e.isProcessed)
    && FlagMatches(c.isWanted, e.isWanted)
    && FlagMatches(c.alreadyHas, e.alreadyHad)
    && SearchMatches(c.search, e)
  }

  function MatchFilter(c: Criteria): Entry -> bool {
    (e: Entry) => Matches(c, e)
  }

  /** The order of a page: series, then season, then file name. */
  function SortKey(e: Entry): seq<string> {
    [e.series, e.season, e.fileName]
  }

  /** Both page parameters are 32-bit integers and the page size is positive
      (the only sizes the library service passes on). */
  predicate ValidRequest(q: PageRequest) {
    Int32Min <= q.page <= Int32Max && 1 <= q.pageSize <= Int32Max
  }

  /** The number of matches skipped, as written: `(page - 1) * pageSize` in
      unchecked 32-bit arithmetic, where a negative count skips nothing. */
  function SkipAsWritten(page: int, pageSize: int): nat {
    var o := Int32Wrap(Int32Wrap(page - 1) * pageSize);
    if o < 0 then 0 else o
  }

  /** The number of matches skipped, as intended: every earlier page. */
  function Skip(page: int, pageSize: int): nat
    requires pageSize >= 1
  {
    if page <= 1 then 0 else (page - 1) * pageSize
  }

  /** Pages needed for `total` items: the ceiling of `total / pageSize`
      (the floating-point division of the source is exact at 32-bit
      magnitudes). */
  function TotalPages(total: nat, pageSize: int): (n: nat)
    requires pageSize >= 1
    ensures n * pageSize >= total
    ensures n > 0 ==> (n - 1) * pageSize < total
  {
    var n := (total + pageSize - 1) / pageSize;
    assert total + pageSize - 1 == n * pageSize + (total + pageSize - 1) % pageSize;
    n
  }

  /** Up to `take` items after the first `skip`. */
  function Window(sorted: seq<Entry>, skip: nat, take: nat): (r: seq<Entry>)
    ensures |r| <= take
    ensures |r| > 0 <==> take > 0 && skip < |sorted|
    ensures skip <= |sorted| ==> |r| == Min(take, |sorted| - skip)
    ensures forall k :: 0 <= k < |r| ==> skip + k < |sorted| && r[k] == sorted[skip + k]
  {
    sorted[Min(skip, |sorted|)..Min(skip + take, |sorted|)]
  }

  /** The sorted matches of a request. */
  function Sorted(t: EntryTable, c: Criteria): (r: seq<Entry>)
    ensures SortedBy(r, SortKey)
    ensures multiset(r) == multiset(Filter(t.rows, MatchFilter(c)))
    ensures |r| == CountWhere(t.rows, MatchFilter(c))
  {
    SortBy(Filter(t.rows, MatchFilter(c)), SortKey)
  }

  function PageAt(t: EntryTable, q: PageRequest, skip: nat): PagedResult
    requires q.pageSize >= 1
  {
    var sorted := Sorted(t, q.criteria);
    PagedResult(Window(sorted, skip, q.pageSize), |sorted|, q.page, q.pageSize,
      TotalPages(|sorted|, q.pageSize))
  }

  /** `GetPagedAsync` as it is intended: the `page`-th run of `pageSize`
      matches in series, season, file-name order. */
  function GetPaged(t: EntryTable, q: PageRequest): (r: PagedResult)
    requires ValidRequest(q)
    ensures r.page == q.page && r.pageSize == q.pageSize
    ensures r.totalCount == CountWhere(t.rows, MatchFilter(q.criteria))
    ensures forall e :: e in r.items ==> e in t.rows && Matches(q.criteria, e)
    ensures |r.items| <= q.pageSize
    ensures SortedBy(r.items, SortKey)
    ensures |r.items| == if Skip(q.page, q.pageSize) < r.totalCount
      then Min(q.pageSize, r.totalCount - Skip(q.page, q.pageSize)) else 0
    ensures forall k :: 0 <= k < |r.items| ==>
      Skip(q.page, q.pageSize) + k < r.totalCount
      && r.items[k] == Sorted(t, q.criteria)[Skip(q.page, q.pageSize) + k]
    ensures r.totalPages * q.pageSize >= r.totalCount
    ensures r.totalPages > 0 ==> (r.totalPages - 1) * q.pageSize < r.totalCount
  {
    var r := PageAt(t, q, Skip(q.page, q.pageSize));
    WindowFacts(t, q.criteria, Skip(q.page, q.pageSize), q.pageSize);
    r
  }

  lemma WindowFacts(t: EntryTable, c: Criteria, skip: nat, take: nat)
    ensures var w := Window(Sorted(t, c), skip, take);
      (forall e :: e in w ==> e in t.rows && Matches(c, e)) && SortedBy(w, SortKey)
  {
    var sorted := Sorted(t, c);
    var w := Window(sorted, skip, take);
    forall e | e in w ensures e in t.rows && Matches(c, e) {
      var k :| 0 <= k < |w| && w[k] == e;
      assert sorted[skip + k] in multiset(Filter(t.rows, MatchFilter(c)));
    }
    forall i, j | 0 <= i < j < |w| ensures KeyLeq(SortKey(w[i]), SortKey(w[j])) {
      assert w[i] == sorted[skip + i] && w[j] == sorted[skip + j];
    }
  }

  /** `GetPagedAsync` as written: the skip count is computed in unchecked
      32-bit arithmetic. It agrees with `GetPaged` whenever that product
      does not overflow. */
  function GetPagedAsWritten(t: EntryTable, q: PageRequest): (r: PagedResult)
    requires ValidRequest(q)
    ensures r.page == q.page && r.pageSize == q.pageSize
    ensures r.totalCount == CountWhere(t.rows, MatchFilter(q.criteria))
    ensures forall e :: e in r.items ==> e in t.rows && Matches(q.criteria, e)
    ensures |r.items| <= q.pageSize
    ensures forall k :: 0 <= k < |r.items| ==>
      SkipAsWritten(q.page, q.pageSize) + k < r.totalCount
      && r.items[k] == Sorted(t, q.criteria)[SkipAsWritten(q.page, q.pageSize) + k]
    ensures q.page >= 1 && (q.page - 1) * q.pageSize <= Int32Max ==> r == GetPaged(t, q)
  {
    assert q.page >= 1 && (q.page - 1) * q.pageSize <= Int32Max ==>
      SkipAsWritten(q.page, q.pageSize) == Skip(q.page, q.pageSize);
    WindowFacts(t, q.criteria, SkipAsWritten(q.page, q.pageSize), q.pageSize);
    PageAt(t, q, SkipAsWritten(q.page, q.pageSize))
  }

  /** The overflow: asking for page 2147483647 of size 2 wraps the skip count
      to -4, which skips nothing, so the first page comes back; the intended
      page lies beyond every table of fewer than 4294967292 rows. */
  lemma LastPageWrapsToFirst(t: EntryTable, c: Criteria)
    ensures GetPagedAsWritten(t, PageRequest(Int32Max, 2, c)).items == GetPaged(t, PageRequest(1, 2, c)).items
    ensures |t.rows| < 4294967292 ==> GetPaged(t, PageRequest(Int32Max, 2, c)).items == []
  {
    assert SkipAsWritten(Int32Max, 2) == 0;
    assert Skip(Int32Max, 2) == 4294967292;
  }

  /** A page has items exactly when its number is between 1 and the page
      count. */
  lemma PageNonEmptyIff(t: EntryTable, q: PageRequest)
    requires ValidRequest(q) && q.page >= 1
    ensures |GetPaged(t, q).items| > 0 <==> q.page <= GetPaged(t, q).totalPages
  {
    var sorted := Sorted(t, q.criteria);
    var skip := Skip(q.page, q.pageSize);
    var r := GetPaged(t, q);
    assert r.items == Window(sorted, skip, q.pageSize);
    assert r.totalPages == TotalPages(|sorted|, q.pageSize);
    PagesCoverIff(|sorted|, q.pageSize, q.page);
  }

  /** Page `page` starts inside the matches exactly when it is at most the
      page count. */
  lemma PagesCoverIff(total: nat, ps: int, page: int)
    requires ps >= 1 && page >= 1
    ensures (page - 1) * ps < total <==> page <= TotalPages(total, ps)
  {
    var n := TotalPages(total, ps);
    if page <= n {
      MulMonotone(page - 1, n - 1, ps);
    } else {
      MulMonotone(n, page - 1, ps);
    }
  }

  lemma MulMonotone(a: int, b: int, c: nat)
    requires 0 <= a <= b
    ensures a * c <= b * c
  {
  }

  /** Every match is on some page between 1 and the page count: walking
      the pages shows the whole result. (A count above `Int32Max` makes
      `CountAsync` throw, so the table is taken to be smaller.) */
  lemma EveryMatchOnSomePage(t: EntryTable, q: PageRequest, e: Entry) returns (p: int)
    requires ValidRequest(q) && |t.rows| <= Int32Max
    requires e in t.rows && Matches(q.criteria, e)
    ensures 1 <= p <= GetPaged(t, q).totalPages && ValidRequest(q.(page := p))
    ensures e in GetPaged(t, q.(page := p)).items
  {
    var sorted := Sorted(t, q.criteria);
    var k := MatchPosition(t, q.criteria, e);
    var skip;
    p, skip := PageOfIndex(k, |sorted|, q.pageSize);
    var q' := q.(page := p);
    assert |sorted| <= |t.rows|;
    assert ValidRequest(q');
    var w := Window(sorted, skip, q.pageSize);
    assert GetPaged(t, q') == PageAt(t, q', skip);
    assert w[k - skip] == e;
    assert e in GetPaged(t, q').items;
    assert GetPaged(t, q).totalPages == TotalPages(|sorted|, q.pageSize);
  }

  /** The page holding the item at position `k` and the number of items
      before that page. */
  lemma PageOfIndex(k: nat, total: nat, ps: int) returns (p: int, skip: nat)
    requires k < total && ps >= 1
    ensures 1 <= p <= TotalPages(total, ps) && p <= k + 1
    ensures skip == Skip(p, ps) && skip <= k < skip + ps
  {
    p := k / ps + 1;
    assert k == (k / ps) * ps + k % ps;
    MulMonotone(1, ps, k / ps);
    skip := (k / ps) * ps;
    var n := TotalPages(total, ps);
    if p > n {
      MulMonotone(n, p - 1, ps);
    }
  }

  /** A search text free of `%` and `_` selects the entries whose file name,
      series or season contains it, ignoring case. */
  lemma SearchIsSubstring(search: string, e: Entry)
    requires !AllWhiteSpace(search) && NoWildcards(SearchText(search))
    ensures SearchMatches(Some(search), e) <==>
      var k := SearchText(search);
      ContainsIgnoreCase(e.fileName, k) || ContainsIgnoreCase(e.series, k) || ContainsIgnoreCase(e.season, k)
  {
    var k := SearchText(search);
    SubstringPattern(e.fileName, k);
    SubstringPattern(e.series, k);
    SubstringPattern(e.season, k);
  }

  /** A matching row has a place in the sorted matches. */
  lemma MatchPosition(t: EntryTable, c: Criteria, e: Entry) returns (k: int)
    requires e in t.rows && Matches(c, e)
    ensures 0 <= k < |Sorted(t, c)| && Sorted(t, c)[k] == e
  {
    var sorted := Sorted(t, c);
    assert MatchFilter(c)(e);
    assert e in multiset(Filter(t.rows, MatchFilter(c)));
    assert e in multiset(sorted);
    k :| 0 <= k < |sorted| && sorted[k] == e;
  }
}
