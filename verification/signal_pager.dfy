/** The signal variant of the repository-search component: the page numbers are
    computed signals that read `result()` directly, so they have a value (0 for
    the page counts) before any search has completed. */
module SignalPager {
  import opened Wrappers
  import opened SearchState
  import Decimal

  /** The page before the current one, never below the first page. */
  function PreviousPage(s: PagerState): (p: int)
    ensures p >= FirstPage
    ensures s.currentPage >= FirstPage ==> p <= s.currentPage
    ensures p == if s.currentPage - 1 > FirstPage then s.currentPage - 1 else FirstPage
  {
    if s.currentPage > 1 then s.currentPage - 1 else 1
  }

  /** The number of pages: the ceiling of the total count over the page size,
      0 while no result is present. */
  function LastPage(s: PagerState): (n: nat)
    requires Valid(s)
    ensures IsCeiling(TotalCount(s.result), s.itemsPerPage, n)
    ensures s.result.None? ==> n == 0
    ensures n == 0 <==> TotalCount(s.result) == 0
  {
    CeilDiv(TotalCount(s.result), s.itemsPerPage)
  }

  /** The page after the current one, clamped to the last page. */
  function NextPage(s: PagerState): (p: int)
    requires Valid(s)
    ensures p <= LastPage(s)
    ensures s.currentPage <= LastPage(s) ==> s.currentPage <= p
    ensures p == if s.currentPage + 1 < LastPage(s) then s.currentPage + 1 else LastPage(s)
    ensures s.currentPage >= 0 && s.result.None? ==> p == 0
  {
    var totalPages := CeilDiv(TotalCount(s.result), s.itemsPerPage);
    if s.currentPage < totalPages then s.currentPage + 1 else totalPages
  }

  /** Typing a keyword: keyword set, back to page 1 and to the default sort;
      the page size, result and in-flight flag are untouched. */
  function OnKeywordChange(s: PagerState, value: string): (r: PagerState)
    ensures r.keyword == value && r.currentPage == FirstPage
    ensures r.sortBy == DefaultSortBy && r.sortOrder == DefaultSortOrder
    ensures r.itemsPerPage == s.itemsPerPage && r.result == s.result && r.loading == s.loading
  {
    var s1 := s.(keyword := value);
    var s2 := s1.(currentPage := 1);
    var s3 := s2.(sortBy := "stars");
    s3.(sortOrder := "desc")
  }

  /** A sort-header event: sort field and direction copied from the event,
      back to page 1; keyword, page size, result and in-flight flag untouched. */
  function SortData(s: PagerState, e: SortEvent): (r: PagerState)
    ensures r.sortBy == e.active && r.sortOrder == e.direction && r.currentPage == FirstPage
    ensures r.keyword == s.keyword && r.itemsPerPage == s.itemsPerPage
    ensures r.result == s.result && r.loading == s.loading
  {
    var s1 := s.(sortBy := e.active);
    var s2 := s1.(sortOrder := e.direction);
    s2.(currentPage := 1)
  }

  /** `currentPage.set(page)` from a pagination button: only the page changes. */
  function SetCurrentPage(s: PagerState, page: int): (r: PagerState)
    ensures r.currentPage == page
    ensures SameCells(r, s.(currentPage := page)) && r.result == s.result && r.loading == s.loading
  {
    s.(currentPage := page)
  }

  /** A keyword edit leaves no trace of the cells it overwrites: the resulting
      condition depends only on the new keyword and the page size. */
  lemma KeywordChangeCondition(s: PagerState, value: string)
    ensures ConditionOf(OnKeywordChange(s, value))
         == SearchCondition(value, "1", Decimal.IntToString(s.itemsPerPage), "stars", "desc")
  {
  }

  /** Two keyword edits in a row end where the later one alone would. */
  lemma LatestKeywordWins(s: PagerState, earlier: string, later: string)
    ensures OnKeywordChange(OnKeywordChange(s, earlier), later) == OnKeywordChange(s, later)
  {
  }

  /** The derived values of the initial state and of the state after a first
      result with 95 matches arrives, at page 1 and at page 10. */
  lemma NinetyFiveMatches(items: seq<Repo>)
    ensures PreviousPage(Initial) == 1 && LastPage(Initial) == 0 && NextPage(Initial) == 0
    ensures var s := Initial.(result := Some(SearchResult(95, items)));
      && LastPage(s) == 10 && NextPage(s) == 2 && PreviousPage(s) == 1
      && NextPage(s.(currentPage := 10)) == 10 && PreviousPage(s.(currentPage := 10)) == 9
  {
    var s := Initial.(result := Some(SearchResult(95, items)));
    CeilingUnique(95, 10, 10);
    CeilingUnique(0, 10, 0);
  }
}
