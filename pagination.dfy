/**
 * Non-strict pagination of a query result (`paginate(page, per_page,
 * error_out=False)`): a page is a window of `per_page` consecutive records
 * starting after `(page - 1) * per_page` of them, and a page past the end is
 * empty rather than an error.
 */
module Pagination {
  import opened Wrappers
  import opened Models
  import opened Filters

  /** A page of results with its metadata. */
  datatype Page = Page(items: seq<Record>, total: nat, pages: nat, page: nat, perPage: nat)

  /** The number of pages, `ceil(total / per_page)`, which is 0 for an empty result. */
  function PageCount(total: nat, perPage: nat): (n: nat)
    requires perPage >= 1
    ensures total == 0 <==> n == 0
    ensures n * perPage >= total
    ensures n > 0 ==> (n - 1) * perPage < total
  {
    if total == 0 then 0 else (total - 1) / perPage + 1
  }

  /** The number of records before the first one of a page. */
  function Offset(page: nat, perPage: nat): nat
    requires page >= 1
  {
    (page - 1) * perPage
  }

  /** The page numbered `page` of `result`, at `perPage` records a page. */
  function Paginate(result: seq<Record>, page: nat, perPage: nat): (p: Page)
    requires page >= 1 && perPage >= 1
    ensures p.total == |result| && p.page == page && p.perPage == perPage
    ensures p.pages == PageCount(|result|, perPage)
    ensures |p.items| <= perPage
    ensures Offset(page, perPage) >= |result| ==> p.items == []
    ensures Offset(page, perPage) < |result| ==>
      |p.items| == if |result| - Offset(page, perPage) < perPage then |result| - Offset(page, perPage) else perPage
    ensures forall j :: 0 <= j < |p.items| ==> p.items[j] == result[Offset(page, perPage) + j]
  {
    var start := Offset(page, perPage);
    var items := if start >= |result| then []
      else result[start..if start + perPage < |result| then start + perPage else |result|];
    Page(items, |result|, PageCount(|result|, perPage), page, perPage)
  }

  /** A page number past the last page yields an empty page. */
  lemma PastLastPageEmpty(result: seq<Record>, page: nat, perPage: nat)
    requires page >= 1 && perPage >= 1
    requires page > PageCount(|result|, perPage)
    ensures Paginate(result, page, perPage).items == []
  {
    var n := PageCount(|result|, perPage);
    assert page - 1 >= n;
    MulMonotone(page - 1, n, perPage);
  }

  lemma MulMonotone(a: nat, b: nat, k: nat)
    requires a >= b
    ensures a * k >= b * k
  {
  }

  /** Every record on a page comes from the result, and no page is larger than `perPage`. */
  lemma PageDrawsFromResult(result: seq<Record>, page: nat, perPage: nat, r: Record)
    requires page >= 1 && perPage >= 1
    requires r in Paginate(result, page, perPage).items
    ensures r in result
  {
    var items := Paginate(result, page, perPage).items;
    var j :| 0 <= j < |items| && items[j] == r;
    assert items[j] == result[Offset(page, perPage) + j];
  }

  /** Pages 1 to `n`, one after the other. */
  function PagesUpTo(result: seq<Record>, perPage: nat, n: nat): seq<Record>
    requires perPage >= 1
  {
    if n == 0 then [] else PagesUpTo(result, perPage, n - 1) + Paginate(result, n, perPage).items
  }

  /** `k` cut down to at most `len`: a slice bound that stays inside the result. */
  function Clip(k: nat, len: nat): nat
  {
    if k < len then k else len
  }

  lemma MulStep(n: nat, k: nat)
    requires n >= 1
    ensures n * k == (n - 1) * k + k
  {
  }

  /** Page `n` is the slice of the result between its offset and the next page's offset. */
  lemma PageIsSlice(result: seq<Record>, perPage: nat, n: nat, start: nat)
    requires perPage >= 1 && n >= 1 && start == Offset(n, perPage)
    ensures Paginate(result, n, perPage).items == result[Clip(start, |result|)..Clip(start + perPage, |result|)]
  {
  }

  /** The first `n` pages together are the first `n * perPage` records (or all of them). */
  lemma {:induction false} PagesUpToPrefix(result: seq<Record>, perPage: nat, n: nat)
    requires perPage >= 1
    ensures PagesUpTo(result, perPage, n) == result[..Clip(n * perPage, |result|)]
  {
    if n > 0 {
      PagesUpToPrefix(result, perPage, n - 1);
      var start := (n - 1) * perPage;
      MulStep(n, perPage);
      PageIsSlice(result, perPage, n, start);
      SliceConcat(result, Clip(start, |result|), Clip(start + perPage, |result|));
    }
  }

  lemma SliceConcat(s: seq<Record>, a: nat, b: nat)
    requires a <= b <= |s|
    ensures s[..a] + s[a..b] == s[..b]
  {
  }

  /**
   * Concatenating pages 1 to `pages` gives back the whole result: every
   * record appears on exactly one page, and with unique keys no page shares a
   * record with another.
   */
  lemma AllPagesCoverResult(result: seq<Record>, perPage: nat)
    requires perPage >= 1
    ensures PagesUpTo(result, perPage, PageCount(|result|, perPage)) == result
  {
    var n := PageCount(|result|, perPage);
    PagesUpToPrefix(result, perPage, n);
    assert result[..|result|] == result;
  }

  /**
   * `get_paginated_data`: the dynamic filter, then the page. A page number or
   * page size below 1 is left to the pagination library: None.
   */
  function GetPaginatedData(table: seq<Record>, filters: map<string, string>, page: nat, perPage: nat): (r: Option<Page>)
    ensures r.Some? <==> page >= 1 && perPage >= 1
    ensures r.Some? ==> r.value.total == |FilterRecords(table, filters)|
    ensures r.Some? ==> r.value.page == page && r.value.perPage == perPage
    ensures r.Some? ==> |r.value.items| <= perPage
  {
    if page >= 1 && perPage >= 1 then Some(Paginate(FilterRecords(table, filters), page, perPage)) else None
  }

  /** Every record on a returned page is in the table and satisfies the filter map. */
  lemma PageRecordsMatch(table: seq<Record>, filters: map<string, string>, page: nat, perPage: nat, r: Record)
    requires page >= 1 && perPage >= 1
    requires r in GetPaginatedData(table, filters, page, perPage).value.items
    ensures r in table && MatchesAll(r, filters)
  {
    PageDrawsFromResult(FilterRecords(table, filters), page, perPage, r);
    FilterMembership(table, filters, r);
  }

  /** With unique keys in the table, the pages of a filtered result never repeat a record. */
  lemma PagesHaveNoDuplicates(table: seq<Record>, filters: map<string, string>, perPage: nat)
    requires perPage >= 1 && UniqueKeys(table)
    ensures UniqueKeys(PagesUpTo(FilterRecords(table, filters), perPage, PageCount(|FilterRecords(table, filters)|, perPage)))
  {
    var result := FilterRecords(table, filters);
    SubsequenceUniqueKeys(result, table);
    AllPagesCoverResult(result, perPage);
  }
}
