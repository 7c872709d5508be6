/** The stream variant of the repository-search component. Its previous, next
    and last page numbers are `combineLatest` combinations that include the
    result stream, so none of them has a value (`None`) until the first search
    result has been emitted. The first page, `of(1)`, has its value from the start. */
module RxPager {
  import opened Wrappers
  import opened SearchState

  /** The first page is the constant stream `of(1)`. */
  function FirstPageValue(): (p: Option<int>)
    ensures p.Some? && p.value == FirstPage
  {
    Some(1)
  }

  /** `previousPage$`: the page before the current one, at least 1, once a
      result has been emitted. */
  function PreviousPage(s: PagerState): (p: Option<int>)
    ensures p.Some? <==> s.result.Some?
    ensures p.Some? ==> p.value >= FirstPage
    ensures p.Some? && s.currentPage >= FirstPage ==> p.value <= s.currentPage
    ensures p.Some? && s.currentPage > FirstPage ==> p.value == s.currentPage - 1
    ensures p.Some? && s.currentPage <= FirstPage ==> p.value == FirstPage
  {
    match s.result
    case None => None
    case Some(_) => Some(if s.currentPage > 1 then s.currentPage - 1 else 1)
  }

  /** `lastPage$`: the ceiling of the total count over the page size. */
  function LastPage(s: PagerState): (n: Option<int>)
    requires Valid(s)
    ensures n.Some? <==> s.result.Some?
    ensures n.Some? ==> n.value >= 0 && IsCeiling(s.result.value.total_count, s.itemsPerPage, n.value)
  {
    match s.result
    case None => None
    case Some(result) => Some(CeilDiv(result.total_count, s.itemsPerPage))
  }

  /** `nextPage$`: the page after the current one, clamped to the last page. */
  function NextPage(s: PagerState): (p: Option<int>)
    requires Valid(s)
    ensures p.Some? <==> s.result.Some?
    ensures p.Some? ==> p.value <= LastPage(s).value
    ensures p.Some? && s.currentPage < LastPage(s).value ==> p.value == s.currentPage + 1
    ensures p.Some? && s.currentPage >= LastPage(s).value ==> p.value == LastPage(s).value
  {
    match s.result
    case None => None
    case Some(result) =>
      var totalPages := CeilDiv(result.total_count, s.itemsPerPage);
      Some(if s.currentPage < totalPages then s.currentPage + 1 else totalPages)
  }

  /** `onKeywordChange`: four `next` calls, keyword first. */
  function OnKeywordChange(s: PagerState, value: string): (r: PagerState)
    ensures r.keyword == value && r.currentPage == FirstPage
    ensures r.sortBy == DefaultSortBy && r.sortOrder == DefaultSortOrder
    ensures r.itemsPerPage == s.itemsPerPage && r.result == s.result && r.loading == s.loading
  {
    var s1 := s.(keyword := value);
    var s2 := s1.(currentPage := 1);
    var s3 := s2.(sortBy := "stars");
    s3.(sortOrder := "desc")
  }

  /** `sortData`: sort field and direction from the event, then page 1. */
  function SortData(s: PagerState, e: SortEvent): (r: PagerState)
    ensures r.sortBy == e.active && r.sortOrder == e.direction && r.currentPage == FirstPage
    ensures r.keyword == s.keyword && r.itemsPerPage == s.itemsPerPage
    ensures r.result == s.result && r.loading == s.loading
  {
    var s1 := s.(sortBy := e.active);
    var s2 := s1.(sortOrder := e.direction);
    s2.(currentPage := 1)
  }

  /** `setCurrentPage`: only the page changes. */
  function SetCurrentPage(s: PagerState, page: int): (r: PagerState)
    ensures r.currentPage == page
    ensures SameCells(r, s.(currentPage := page)) && r.result == s.result && r.loading == s.loading
  {
    s.(currentPage := page)
  }
}
