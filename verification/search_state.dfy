/** The state shared by both variants of the repository-search component: five
    input cells, the in-flight flag and the latest search result, together with
    the search condition derived from the cells and the page arithmetic both
    variants rely on. */
module SearchState {
  import opened Wrappers
  import Decimal

  /** One repository of a result page, as the remote search returns it. */
  datatype Repo = Repo(name: string, description: Option<string>, stargazers_count: nat)

  /** A page of search results; `total_count` counts matches over all pages. */
  datatype SearchResult = SearchResult(total_count: nat, items: seq<Repo>)

  /** A sort-header event: the active column and the direction, both opaque. */
  datatype SortEvent = SortEvent(active: string, direction: string)

  /** The component's state cells. `result` is `None` until a search has
      completed; `loading` is the in-flight indicator. */
  datatype PagerState = PagerState(
    loading: bool,
    keyword: string,
    currentPage: int,
    itemsPerPage: int,
    sortBy: string,
    sortOrder: string,
    result: Option<SearchResult>)

  /** The query parameters sent to the remote search. */
  datatype SearchCondition = SearchCondition(
    q: string,
    page: string,
    per_page: string,
    sort: string,
    order: string)

  const DefaultKeyword: string := "ng"
  const DefaultSortBy: string := "stars"
  const DefaultSortOrder: string := "desc"
  const DefaultItemsPerPage: int := 10
  const FirstPage: int := 1

  /** The state a freshly created component starts in. */
  const Initial: PagerState :=
    PagerState(false, DefaultKeyword, FirstPage, DefaultItemsPerPage,
               DefaultSortBy, DefaultSortOrder, None)

  /** Every transition keeps a positive page size, so page counts are defined. */
  predicate Valid(s: PagerState) {
    s.itemsPerPage > 0
  }

  /** Two states that agree on the five cells the search condition is built from. */
  predicate SameCells(a: PagerState, b: PagerState) {
    && a.keyword == b.keyword
    && a.currentPage == b.currentPage
    && a.itemsPerPage == b.itemsPerPage
    && a.sortBy == b.sortBy
    && a.sortOrder == b.sortOrder
  }

  /** The condition: keyword, sort field and order verbatim, page number and
      page size as decimal strings that read back to the cells' values. */
  function ConditionOf(s: PagerState): (c: SearchCondition)
    ensures c.q == s.keyword && c.sort == s.sortBy && c.order == s.sortOrder
    ensures Decimal.ParseInt(c.page) == Some(s.currentPage)
    ensures Decimal.ParseInt(c.per_page) == Some(s.itemsPerPage)
  {
    Decimal.IntRoundTrip(s.currentPage);
    Decimal.IntRoundTrip(s.itemsPerPage);
    SearchCondition(
      s.keyword,
      Decimal.IntToString(s.currentPage),
      Decimal.IntToString(s.itemsPerPage),
      s.sortBy,
      s.sortOrder)
  }

  /** Two states yield the same condition exactly when their five cells agree:
      comparing conditions by value is comparing the cells. */
  lemma ConditionDeterminesCells(a: PagerState, b: PagerState)
    ensures ConditionOf(a) == ConditionOf(b) <==> SameCells(a, b)
  {
    Decimal.RenderingInjective(a.currentPage, b.currentPage);
    Decimal.RenderingInjective(a.itemsPerPage, b.itemsPerPage);
  }

  /** The condition of the initial state. */
  lemma InitialCondition()
    ensures ConditionOf(Initial) == SearchCondition("ng", "1", "10", "stars", "desc")
    ensures Valid(Initial) && !Initial.loading && Initial.result == None
  {
    assert Decimal.NatToDigits(10) == "10";
  }

  /** `result?.total_count ?? 0`. */
  function TotalCount(result: Option<SearchResult>): nat {
    match result
    case Some(r) => r.total_count
    case None => 0
  }

  /** `k` is the ceiling of `a / b`: the least multiple count covering `a`. */
  predicate IsCeiling(a: nat, b: int, k: int) {
    (k - 1) * b < a <= k * b
  }

  /** `Math.ceil(a / b)` for a non-negative integer `a` and positive integer `b`. */
  function CeilDiv(a: nat, b: int): (k: nat)
    requires b > 0
    ensures IsCeiling(a, b, k)
  {
    var k := (a + b - 1) / b;
    assert (a + b - 1) == k * b + (a + b - 1) % b;
    k
  }

  /** The ceiling is unique, so `CeilDiv` is the only value with its contract. */
  lemma CeilingUnique(a: nat, b: int, k: int)
    requires b > 0
    ensures IsCeiling(a, b, k) <==> k == CeilDiv(a, b)
  {
    var c: int := CeilDiv(a, b);
    if k < c {
      MulMonotone(k, c - 1, b);
      assert !IsCeiling(a, b, k);
    } else if k > c {
      MulMonotone(c, k - 1, b);
      assert !IsCeiling(a, b, k);
    }
  }

  lemma MulMonotone(x: int, y: int, b: int)
    requires x <= y && b > 0
    ensures x * b <= y * b
  {
  }
}
