/**
 * The `/api/ports` query: parse the `ss -tulpn` text, keep the records
 * whose port contains the search term, sort by a whitelisted field and cut
 * out one page.
 */
module PortQuery {
  import opened Wrappers
  import opened Text
  import opened SsParser
  import opened PortSort

  // ----- search -----

  /** The records whose port contains `term`, in their original order. */
  function SearchFilter(recs: seq<PortRecord>, term: string): (r: seq<PortRecord>)
    ensures |r| <= |recs|
  {
    if recs == [] then []
    else SearchFilter(recs[..|recs| - 1], term) + Hit(recs[|recs| - 1], term)
  }

  /** `[x]` when the port of `x` contains `term`, nothing otherwise. */
  function Hit(x: PortRecord, term: string): (h: seq<PortRecord>)
    ensures h == [] || h == [x]
    ensures x in h <==> Contains(x.port, term)
  {
    if Contains(x.port, term) then [x] else []
  }

  lemma SearchFilterSnoc(recs: seq<PortRecord>, y: PortRecord, term: string)
    ensures SearchFilter(recs + [y], term) == SearchFilter(recs, term) + Hit(y, term)
  {
    assert (recs + [y])[..|recs|] == recs;
  }

  /** Filtering a concatenation filters each part: the kept records stay in order. */
  lemma {:induction false} SearchFilterAppend(a: seq<PortRecord>, b: seq<PortRecord>, term: string)
    ensures SearchFilter(a + b, term) == SearchFilter(a, term) + SearchFilter(b, term)
  {
    if b == [] {
      assert a + b == a;
    } else {
      var init := b[..|b| - 1];
      var y := b[|b| - 1];
      SearchFilterAppend(a, init, term);
      LastSplit(b);
      SnocAssoc(a, init, y);
      SearchFilterSnoc(a + init, y, term);
      SearchFilterSnoc(init, y, term);
      Assoc(SearchFilter(a, term), SearchFilter(init, term), Hit(y, term));
    }
  }

  /** A record is kept exactly when it is in the input and its port contains `term`. */
  lemma {:induction false} SearchFilterMembers(recs: seq<PortRecord>, term: string, x: PortRecord)
    ensures x in SearchFilter(recs, term) <==> x in recs && Contains(x.port, term)
  {
    if recs != [] {
      var init := recs[..|recs| - 1];
      SearchFilterMembers(init, term, x);
      assert recs == init + [recs[|recs| - 1]];
    }
  }

  /** When every port contains `term`, the filter keeps the whole list. */
  lemma {:induction false} SearchFilterKeepsAll(recs: seq<PortRecord>, term: string)
    requires forall i :: 0 <= i < |recs| ==> Contains(recs[i].port, term)
    ensures SearchFilter(recs, term) == recs
  {
    if recs != [] {
      var init := recs[..|recs| - 1];
      SearchFilterKeepsAll(init, term);
      assert recs == init + [recs[|recs| - 1]];
    }
  }

  /** Every port contains the empty term, so an empty search keeps the whole list. */
  lemma SearchEmptyTerm(recs: seq<PortRecord>)
    ensures SearchFilter(recs, []) == recs
  {
    forall i | 0 <= i < |recs|
      ensures Contains(recs[i].port, [])
    {
      ContainsEmpty(recs[i].port);
    }
    SearchFilterKeepsAll(recs, []);
  }

  /** The search step: it filters only when a non-empty term is given. */
  function ApplySearch(recs: seq<PortRecord>, search: Option<string>): (r: seq<PortRecord>)
    ensures search.None? ==> r == recs
  {
    if search.Some? && search.value != [] then SearchFilter(recs, search.value) else recs
  }

  /** Skipping the filter for an empty term changes nothing: any given term filters. */
  lemma ApplySearchGiven(recs: seq<PortRecord>, term: string)
    ensures ApplySearch(recs, Some(term)) == SearchFilter(recs, term)
  {
    if term == [] {
      SearchEmptyTerm(recs);
    }
  }

  /** After the search step, a record is there exactly when it matches the term (if any). */
  lemma ApplySearchMembers(recs: seq<PortRecord>, search: Option<string>, x: PortRecord)
    ensures x in ApplySearch(recs, search) <==> x in recs && Contains(x.port, search.GetOr([]))
  {
    if search.Some? {
      ApplySearchGiven(recs, search.value);
      SearchFilterMembers(recs, search.value, x);
    } else {
      ContainsEmpty(x.port);
    }
  }

  // ----- pagination -----

  function Min(a: int, b: int): int {
    if a <= b then a else b
  }

  /** The index of the first record of page `page` (from 1). */
  function PageStart(page: int, pageSize: int): (start: nat)
    requires page >= 1 && pageSize >= 1
  {
    (page - 1) * pageSize
  }

  /** Page `page` (from 1) of `pageSize` records: Python's slice `recs[start:start + pageSize]`. */
  function Paginate(recs: seq<PortRecord>, page: int, pageSize: int): (r: seq<PortRecord>)
    requires page >= 1 && pageSize >= 1
    ensures |r| <= pageSize
  {
    var start := PageStart(page, pageSize);
    if start >= |recs| then [] else recs[start..Min(start + pageSize, |recs|)]
  }

  /** The page holds the records from its start on, as many as fit in the page and the list. */
  lemma PaginateRecords(recs: seq<PortRecord>, page: int, pageSize: int)
    requires page >= 1 && pageSize >= 1
    ensures var start := PageStart(page, pageSize); var r := Paginate(recs, page, pageSize);
      |r| == (if start >= |recs| then 0 else Min(pageSize, |recs| - start)) &&
      forall i :: 0 <= i < |r| ==> start + i < |recs| && r[i] == recs[start + i]
  {
  }

  /** The number of pages: `total` divided by `pageSize`, rounded up. */
  function TotalPages(total: nat, pageSize: int): (n: nat)
    requires pageSize >= 1
    ensures n == 0 <==> total == 0
    ensures n <= total
  {
    TotalPagesBounds(total, pageSize);
    (total + pageSize - 1) / pageSize
  }

  lemma TotalPagesBounds(total: nat, pageSize: int)
    requires pageSize >= 1
    ensures var n := (total + pageSize - 1) / pageSize; (n == 0 <==> total == 0) && n <= total
  {
    var q := total + pageSize - 1;
    var n := q / pageSize;
    assert q == n * pageSize + q % pageSize;
    if total > 0 {
      if n > total {
        MulLe(total + 1, n, pageSize);
        MulLe(1, pageSize, total);
      }
    }
  }

  /** `TotalPages` is the ceiling of `total / pageSize`: the least page count that holds every record. */
  lemma TotalPagesIsCeiling(total: nat, pageSize: int)
    requires pageSize >= 1
    ensures TotalPages(total, pageSize) * pageSize >= total
    ensures (TotalPages(total, pageSize) - 1) * pageSize < total
  {
    var n := TotalPages(total, pageSize);
    var m := (total + pageSize - 1) % pageSize;
    assert total + pageSize - 1 == n * pageSize + m;
    assert (n - 1) * pageSize == n * pageSize - pageSize;
  }

  /** Cancelling a positive factor keeps a strict order. */
  lemma MulLessCancel(a: int, b: int, c: int)
    requires c >= 1 && a * c < b * c
    ensures a < b
  {
    assert (b - a) * c == b * c - a * c;
  }

  /** Multiplying by a non-negative factor keeps a weak order. */
  lemma MulLe(a: int, b: int, c: int)
    requires a <= b && c >= 0
    ensures a * c <= b * c
  {
    assert b * c - a * c == (b - a) * c;
  }

  /** Record `i` is on page `i / pageSize + 1`, at position `i % pageSize`, and that page exists. */
  lemma PageOfIndex(recs: seq<PortRecord>, pageSize: int, i: int)
    requires pageSize >= 1 && 0 <= i < |recs|
    ensures i / pageSize + 1 <= TotalPages(|recs|, pageSize)
    ensures var p := Paginate(recs, i / pageSize + 1, pageSize);
      i % pageSize < |p| && p[i % pageSize] == recs[i]
  {
    var q := i / pageSize;
    assert PageStart(q + 1, pageSize) + i % pageSize == i;
    TotalPagesIsCeiling(|recs|, pageSize);
    MulLessCancel(q, TotalPages(|recs|, pageSize), pageSize);
    PaginateRecords(recs, q + 1, pageSize);
  }

  /** Pages past the last are empty. */
  lemma PagesBeyondLast(recs: seq<PortRecord>, page: int, pageSize: int)
    requires page >= 1 && pageSize >= 1 && page > TotalPages(|recs|, pageSize)
    ensures Paginate(recs, page, pageSize) == []
  {
    var n := TotalPages(|recs|, pageSize);
    TotalPagesIsCeiling(|recs|, pageSize);
    MulLe(n, page - 1, pageSize);
  }

  /** Pages before the last are full. */
  lemma PagesBeforeLastFull(recs: seq<PortRecord>, page: int, pageSize: int)
    requires page >= 1 && pageSize >= 1 && page < TotalPages(|recs|, pageSize)
    ensures |Paginate(recs, page, pageSize)| == pageSize
  {
    var n := TotalPages(|recs|, pageSize);
    TotalPagesIsCeiling(|recs|, pageSize);
    MulLe(page, n - 1, pageSize);
    assert page * pageSize == PageStart(page, pageSize) + pageSize;
    PaginateRecords(recs, page, pageSize);
  }

  // ----- the query -----

  /** The response body: one page of records and the page bookkeeping. */
  datatype PortsPage = PortsPage(data: seq<PortRecord>, total: nat, page: int, pageSize: int, totalPages: nat)

  /** The arguments the endpoint accepts. */
  predicate ValidQuery(sortDirection: string, page: int, pageSize: int) {
    page >= 1 && 1 <= pageSize <= 100 && (sortDirection == "asc" || sortDirection == "desc")
  }

  /** Search, then sort, then cut out the requested page. */
  function Query(recs: seq<PortRecord>, search: Option<string>, sortField: string, sortDirection: string,
                 page: int, pageSize: int): (r: PortsPage)
    requires ValidQuery(sortDirection, page, pageSize)
    ensures |r.data| <= pageSize && r.page == page && r.pageSize == pageSize
  {
    var sorted := SortRecords(ApplySearch(recs, search), sortField, sortDirection);
    PortsPage(Paginate(sorted, page, pageSize), |sorted|, page, pageSize, TotalPages(|sorted|, pageSize))
  }

  /** `total` counts the records left after the search, and `totalPages` pages hold exactly them. */
  lemma QueryTotal(recs: seq<PortRecord>, search: Option<string>, sortField: string, sortDirection: string,
                   page: int, pageSize: int)
    requires ValidQuery(sortDirection, page, pageSize)
    ensures var r := Query(recs, search, sortField, sortDirection, page, pageSize);
      r.total == |ApplySearch(recs, search)| &&
      r.totalPages * pageSize >= r.total && (r.totalPages - 1) * pageSize < r.total
  {
    var filtered := ApplySearch(recs, search);
    SortRecordsPermutation(filtered, sortField, sortDirection);
    var sorted := SortRecords(filtered, sortField, sortDirection);
    assert |sorted| == |multiset(sorted)| == |multiset(filtered)| == |filtered|;
    TotalPagesIsCeiling(|sorted|, pageSize);
  }

  /** Every record on the page comes from the input and matches the search. */
  lemma QueryMatches(recs: seq<PortRecord>, search: Option<string>, sortField: string, sortDirection: string,
                     page: int, pageSize: int, x: PortRecord)
    requires ValidQuery(sortDirection, page, pageSize)
    requires x in Query(recs, search, sortField, sortDirection, page, pageSize).data
    ensures x in recs && Contains(x.port, search.GetOr([]))
  {
    var filtered := ApplySearch(recs, search);
    var sorted := SortRecords(filtered, sortField, sortDirection);
    SortRecordsPermutation(filtered, sortField, sortDirection);
    PaginateRecords(sorted, page, pageSize);
    var p := Paginate(sorted, page, pageSize);
    var i :| 0 <= i < |p| && p[i] == x;
    assert sorted[PageStart(page, pageSize) + i] == x;
    assert x in multiset(sorted);
    ApplySearchMembers(recs, search, x);
  }

  /** With a whitelisted field the page is in sort order. */
  lemma QuerySorted(recs: seq<PortRecord>, search: Option<string>, sortField: string, sortDirection: string,
                    page: int, pageSize: int, f: Field)
    requires ValidQuery(sortDirection, page, pageSize) && FieldNamed(sortField) == Some(f)
    ensures Sorted(Query(recs, search, sortField, sortDirection, page, pageSize).data, f, sortDirection == "desc")
  {
    var sorted := SortBy(ApplySearch(recs, search), f, sortDirection == "desc");
    SortBySorted(ApplySearch(recs, search), f, sortDirection == "desc");
    PaginateRecords(sorted, page, pageSize);
    SliceSorted(sorted, PageStart(page, pageSize), Paginate(sorted, page, pageSize), f, sortDirection == "desc");
  }

  /** A run of consecutive records of a sorted sequence is sorted. */
  lemma SliceSorted(s: seq<PortRecord>, start: nat, p: seq<PortRecord>, f: Field, desc: bool)
    requires Sorted(s, f, desc)
    requires forall i :: 0 <= i < |p| ==> start + i < |s| && p[i] == s[start + i]
    ensures Sorted(p, f, desc)
  {
    forall i, j | 0 <= i < j < |p|
      ensures Before(p[i], p[j], f, desc)
    {
      var x, y := p[i], p[j];
      assert start + i < |s| && x == s[start + i];
      assert start + j < |s| && y == s[start + j];
    }
  }

  /** With any other field the page keeps the searched records in their parsed order. */
  lemma QueryUnsorted(recs: seq<PortRecord>, search: Option<string>, sortField: string, sortDirection: string,
                      page: int, pageSize: int)
    requires ValidQuery(sortDirection, page, pageSize) && FieldNamed(sortField).None?
    ensures Query(recs, search, sortField, sortDirection, page, pageSize).data
         == Paginate(ApplySearch(recs, search), page, pageSize)
  {
  }

  // ----- the endpoint -----

  /** `Paginate` written with the start and end indices of the slice. */
  lemma PaginateSlice(recs: seq<PortRecord>, page: int, pageSize: int, start: int, end: int)
    requires page >= 1 && pageSize >= 1 && start == PageStart(page, pageSize) && end == start + pageSize
    ensures Paginate(recs, page, pageSize) == if start >= |recs| then [] else recs[start..Min(end, |recs|)]
  {
  }

  /** `Query` taken apart into its three steps. */
  lemma QueryParts(recs: seq<PortRecord>, search: Option<string>, sortField: string, sortDirection: string,
                   page: int, pageSize: int)
    requires ValidQuery(sortDirection, page, pageSize)
    ensures var sorted := SortRecords(ApplySearch(recs, search), sortField, sortDirection);
      Query(recs, search, sortField, sortDirection, page, pageSize)
        == PortsPage(Paginate(sorted, page, pageSize), |sorted|, page, pageSize, TotalPages(|sorted|, pageSize))
  {
  }

  /** The search, sort and pagination steps of the endpoint over the parsed records. */
  method QueryPorts(parsed: seq<PortRecord>, search: Option<string>,
                    sortField: string, sortDirection: string, page: int, pageSize: int)
    returns (r: PortsPage)
    requires ValidQuery(sortDirection, page, pageSize)
    ensures r == Query(parsed, search, sortField, sortDirection, page, pageSize)
  {
    var portsInfo := parsed;
    if search.Some? && search.value != [] {
      portsInfo := SearchFilter(portsInfo, search.value);
    }
    ghost var filtered := portsInfo;
    assert filtered == ApplySearch(parsed, search);
    var field := FieldNamed(sortField);
    if field.Some? {
      portsInfo := SortBy(portsInfo, field.value, sortDirection == "desc");
    }
    assert portsInfo == SortRecords(filtered, sortField, sortDirection);
    var totalCount := |portsInfo|;
    var startIndex := PageStart(page, pageSize);
    var endIndex := startIndex + pageSize;
    var paginated := if startIndex >= |portsInfo| then [] else portsInfo[startIndex..Min(endIndex, |portsInfo|)];
    PaginateSlice(portsInfo, page, pageSize, startIndex, endIndex);
    QueryParts(parsed, search, sortField, sortDirection, page, pageSize);
    r := PortsPage(paginated, totalCount, page, pageSize, TotalPages(totalCount, pageSize));
  }

  /**
   * The endpoint over the text `ss -tulpn` printed; `owner` names the user
   * owning a pid.
   */
  method GetPorts(ssStdout: string, owner: string -> Option<string>, search: Option<string>,
                  sortField: string, sortDirection: string, page: int, pageSize: int)
    returns (r: PortsPage)
    requires ValidQuery(sortDirection, page, pageSize)
    ensures r == Query(Parse(ssStdout, owner), search, sortField, sortDirection, page, pageSize)
  {
    var portsInfo := ParseSsOutput(ssStdout, owner);
    r := QueryPorts(portsInfo, search, sortField, sortDirection, page, pageSize);
  }
}
