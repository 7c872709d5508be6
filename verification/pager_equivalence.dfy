/** The two variants of the repository-search component compute the same page
    numbers and make the same state changes. */
module PagerEquivalence {
  import opened Wrappers
  import opened SearchState
  import SignalPager
  import RxPager

  /** Once a result is present, every stream value equals the signal value. */
  lemma DerivationsAgreeWithResult(s: PagerState)
    requires Valid(s) && s.result.Some?
    ensures RxPager.PreviousPage(s) == Some(SignalPager.PreviousPage(s))
    ensures RxPager.LastPage(s) == Some(SignalPager.LastPage(s))
    ensures RxPager.NextPage(s) == Some(SignalPager.NextPage(s))
    ensures RxPager.FirstPageValue() == Some(FirstPage)
  {
  }

  /** For every state with a non-negative page, the page counts the stream
      template shows (`lastPage$ | async ?? 0`, `nextPage$ | async ?? 0`)
      equal the signal values, with or without a result. */
  lemma ShownPageCountsAgree(s: PagerState)
    requires Valid(s) && s.currentPage >= 0
    ensures RxPager.LastPage(s).GetOr(0) == SignalPager.LastPage(s)
    ensures RxPager.NextPage(s).GetOr(0) == SignalPager.NextPage(s)
  {
  }

  /** Before the first result only the previous page differs: the stream has
      not emitted, while the signal already reads 1 or the page before. */
  lemma PreviousPageBeforeFirstResult(s: PagerState)
    requires s.result.None?
    ensures RxPager.PreviousPage(s) == None
    ensures SignalPager.PreviousPage(s) >= FirstPage
  {
  }

  /** Both variants' transitions produce the same state from the same state. */
  lemma TransitionsAgree(s: PagerState, value: string, e: SortEvent, page: int)
    ensures RxPager.OnKeywordChange(s, value) == SignalPager.OnKeywordChange(s, value)
    ensures RxPager.SortData(s, e) == SignalPager.SortData(s, e)
    ensures RxPager.SetCurrentPage(s, page) == SignalPager.SetCurrentPage(s, page)
  {
  }
}
