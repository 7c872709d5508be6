/** The pagination buttons of both templates and the event-driven life of the
    search component: keyword edits, sort-header clicks, button clicks and the
    start and completion of a search. */
module Navigation {
  import opened Wrappers
  import opened SearchState
  import SignalPager
  import RxPager

  datatype Button = FirstButton | PreviousButton | NextButton | LastButton

  /** Whether the signal template renders the button at all (`@if`). */
  predicate SignalShown(s: PagerState, b: Button)
    requires Valid(s)
  {
    match b
    case PreviousButton => s.currentPage != 1
    case NextButton => s.currentPage != SignalPager.LastPage(s)
    case _ => true
  }

  /** Whether the signal template's `[disabled]` binding is false. */
  predicate SignalEnabled(s: PagerState, b: Button)
    requires Valid(s)
  {
    && !s.loading
    && match b
       case FirstButton => s.currentPage != FirstPage
       case PreviousButton => SignalPager.PreviousPage(s) != 0
       case NextButton => SignalPager.NextPage(s) != 0
       case LastButton => s.currentPage != SignalPager.LastPage(s)
  }

  /** The page the signal template's `(click)` handler sets. */
  function SignalTarget(s: PagerState, b: Button): int
    requires Valid(s)
  {
    match b
    case FirstButton => FirstPage
    case PreviousButton => SignalPager.PreviousPage(s)
    case NextButton => SignalPager.NextPage(s)
    case LastButton => SignalPager.LastPage(s)
  }

  /** A click on a button of the signal template: the page moves to the
      button's target when the button is shown and enabled, and nothing else
      changes; otherwise the click has no effect. */
  function SignalPress(s: PagerState, b: Button): (r: PagerState)
    requires Valid(s)
    ensures Valid(r) && r.(currentPage := s.currentPage) == s
    ensures r.currentPage == s.currentPage || r.currentPage == SignalTarget(s, b)
    ensures r != s ==> SignalShown(s, b) && SignalEnabled(s, b)
    ensures SignalShown(s, b) && SignalEnabled(s, b) ==> r.currentPage == SignalTarget(s, b)
  {
    if SignalShown(s, b) && SignalEnabled(s, b) then
      SignalPager.SetCurrentPage(s, SignalTarget(s, b))
    else s
  }

  /** `x ?? 0` on a stream value read through the async pipe. */
  function OrZero(v: Option<int>): int {
    v.GetOr(0)
  }

  /** The stream template's `@if` conditions; before the first result
      `lastPage$` reads as null, which differs from every page number. */
  predicate RxShown(s: PagerState, b: Button)
    requires Valid(s)
  {
    match b
    case PreviousButton => s.currentPage != 1
    case NextButton => RxPager.LastPage(s) != Some(s.currentPage)
    case _ => true
  }

  /** The stream template's `[disabled]` bindings negated: a null stream value
      disables the previous and next buttons. */
  predicate RxEnabled(s: PagerState, b: Button)
    requires Valid(s)
  {
    && !s.loading
    && match b
       case FirstButton => Some(s.currentPage) != RxPager.FirstPageValue()
       case PreviousButton => OrZero(RxPager.PreviousPage(s)) != 0
       case NextButton => OrZero(RxPager.NextPage(s)) != 0
       case LastButton => RxPager.LastPage(s) != Some(s.currentPage)
  }

  /** The page the stream template passes to `setCurrentPage`. */
  function RxTarget(s: PagerState, b: Button): int
    requires Valid(s)
  {
    match b
    case FirstButton => FirstPage
    case PreviousButton => OrZero(RxPager.PreviousPage(s))
    case NextButton => OrZero(RxPager.NextPage(s))
    case LastButton => OrZero(RxPager.LastPage(s))
  }

  /** A click on a button of the stream template. */
  function RxPress(s: PagerState, b: Button): (r: PagerState)
    requires Valid(s)
    ensures Valid(r) && r.(currentPage := s.currentPage) == s
    ensures r.currentPage == s.currentPage || r.currentPage == RxTarget(s, b)
    ensures r != s ==> RxShown(s, b) && RxEnabled(s, b)
    ensures RxShown(s, b) && RxEnabled(s, b) ==> r.currentPage == RxTarget(s, b)
  {
    if RxShown(s, b) && RxEnabled(s, b) then
      RxPager.SetCurrentPage(s, RxTarget(s, b))
    else s
  }

  /** Once a result is present both templates react to every click alike. */
  lemma PressAgreesOnceResultPresent(s: PagerState, b: Button)
    requires Valid(s) && s.result.Some?
    ensures RxPress(s, b) == SignalPress(s, b)
  {
  }

  /** In the model, with loading off, before the first result the previous-page
      button differs: the stream template disables it, the signal template's
      conditions enable it. Page 0 is where the stream template's "last" leads
      before any result. */
  lemma PreviousDiffersBeforeFirstResult()
    ensures RxPress(Initial, LastButton) == Initial.(currentPage := 0)
    ensures var s := Initial.(currentPage := 0);
      RxPress(s, PreviousButton).currentPage == 0 && SignalPress(s, PreviousButton).currentPage == 1
  {
  }

  /** Pressing "last" lands on the last page, where "last" is disabled, the
      next-page button is hidden, the next page is the last page, and pressing
      "last" again changes nothing. */
  lemma LastButtonSettles(s: PagerState)
    requires Valid(s) && SignalEnabled(s, LastButton)
    ensures var r := SignalPress(s, LastButton);
      && r.currentPage == SignalPager.LastPage(r)
      && !SignalEnabled(r, LastButton) && !SignalShown(r, NextButton)
      && SignalPager.NextPage(r) == SignalPager.LastPage(r)
      && SignalPress(r, LastButton) == r
  {
  }

  /** Pressing "first" lands on page 1, where "first" is disabled, the
      previous-page button is hidden and pressing "first" again changes nothing. */
  lemma FirstButtonSettles(s: PagerState)
    requires Valid(s) && SignalEnabled(s, FirstButton)
    ensures var r := SignalPress(s, FirstButton);
      && r.currentPage == FirstPage
      && !SignalEnabled(r, FirstButton) && !SignalShown(r, PreviousButton)
      && SignalPress(r, FirstButton) == r
  {
  }

  /** Inside the page range, every click keeps the page inside the range. */
  lemma PressKeepsPageInRange(s: PagerState, b: Button)
    requires Valid(s) && FirstPage <= s.currentPage <= SignalPager.LastPage(s)
    ensures var r := SignalPress(s, b);
      FirstPage <= r.currentPage <= SignalPager.LastPage(r)
  {
  }

  /** The last-page button with the guard the page invariant needs: it is also
      disabled while there is no page at all. */
  function GuardedPress(s: PagerState, b: Button): (r: PagerState)
    requires Valid(s)
    ensures Valid(r) && r.(currentPage := s.currentPage) == s
    ensures s.currentPage >= FirstPage ==> r.currentPage >= FirstPage
    ensures b == LastButton && SignalPager.LastPage(s) < FirstPage ==> r == s
    ensures b != LastButton || SignalPager.LastPage(s) >= FirstPage ==> r == SignalPress(s, b)
  {
    if b == LastButton && SignalPager.LastPage(s) < FirstPage then s
    else SignalPress(s, b)
  }

  /** The events the component reacts to. `SearchStarted` and
      `SearchCompleted` stand for the moments the debounced search is issued
      and its response applied. */
  datatype Event =
    | KeywordTyped(value: string)
    | SortHeaderClicked(sort: SortEvent)
    | ButtonClicked(button: Button)
    | SearchStarted
    | SearchCompleted(result: SearchResult)

  /** One event; `guardLast` selects the guarded last-page button. */
  function Step(s: PagerState, e: Event, guardLast: bool): (r: PagerState)
    requires Valid(s)
    ensures r.itemsPerPage == s.itemsPerPage
    ensures e.SearchStarted? ==> r == s.(loading := true)
    ensures e.SearchCompleted? ==> r == s.(result := Some(e.result), loading := false)
  {
    match e
    case KeywordTyped(v) => SignalPager.OnKeywordChange(s, v)
    case SortHeaderClicked(se) => SignalPager.SortData(s, se)
    case ButtonClicked(b) => if guardLast then GuardedPress(s, b) else SignalPress(s, b)
    case SearchStarted => s.(loading := true)
    case SearchCompleted(result) => s.(result := Some(result), loading := false)
  }

  /** A sequence of events, in order. No event writes the page size. */
  function Run(s: PagerState, events: seq<Event>, guardLast: bool): (r: PagerState)
    requires Valid(s)
    ensures r.itemsPerPage == s.itemsPerPage
    decreases |events|
  {
    if |events| == 0 then s
    else Run(Step(s, events[0], guardLast), events[1..], guardLast)
  }

  /** From the initial state the page size stays 10 whatever happens. */
  lemma PageSizeNeverChanges(events: seq<Event>, guardLast: bool)
    ensures Run(Initial, events, guardLast).itemsPerPage == DefaultItemsPerPage
  {
  }

  /** With the guarded last-page button the page never drops below 1. */
  lemma {:induction false} GuardedRunKeepsFirstPage(s: PagerState, events: seq<Event>)
    requires Valid(s) && s.currentPage >= FirstPage
    ensures Run(s, events, true).currentPage >= FirstPage
    decreases |events|
  {
    if |events| > 0 {
      GuardedRunKeepsFirstPage(Step(s, events[0], true), events[1..]);
    }
  }

  /** As written, a search with no matches followed by "last" sets page 0. */
  lemma LastButtonReachesPageZero()
    ensures Run(Initial, [SearchStarted, SearchCompleted(SearchResult(0, [])),
                          ButtonClicked(LastButton)], false).currentPage == 0
    ensures RxPress(Initial, LastButton).currentPage == 0
  {
    var s1 := Step(Initial, SearchStarted, false);
    var s2 := Step(s1, SearchCompleted(SearchResult(0, [])), false);
    assert SignalPager.LastPage(s2) == 0;
    var s3 := Step(s2, ButtonClicked(LastButton), false);
    assert s3.currentPage == 0;
    assert Run(s3, [], false) == s3;
  }
}
