# Repository search pager and user-list edits

A Dafny model of the state logic of two demos of an Angular signals showcase.

**Repository search.** This demo exists twice: once written with RxJS streams and once with signals. Its state is five cells:
- the keyword;
- the current page;
- the page size;
- the sort field;
- the sort order.

Two more parts of the state are the in-flight flag and the latest search result. The model covers:
- the search condition built from the cells, with the page and page size as decimal strings;
- the derived page numbers (first, previous, next, last);
- the keyword, sort-header and page-button transitions;
- the pagination buttons of both templates.

Both variants share one immutable `PagerState`. In the stream variant the previous, next and last page numbers are `Option`s. They are `None` until the first result is emitted, because each is a `combineLatest` that includes the result stream. The first page, `firstPage$ = of(1)`, has its value from the start. The signal variant reads `result()` directly, so its page counts are already 0 at that point.

**Untracked demo.** The model covers the user list, the first-match lookup of the selected user's name, and the name edit. The edit maps over the list and renames the records with the selected id.

Modules: `Wrappers` (Option), `Decimal` (integer rendering and parsing), `SearchState` (shared state, condition, ceiling division), `SignalPager`, `RxPager`, `PagerEquivalence`, `Navigation` (buttons and event runs), `Users`.

Behaviour of the code worth knowing:
- Before the first result, the two templates' button conditions differ when they are read with the loading flag off. The stream template disables the previous-page button, because `previousPage$` has not emitted. The signal template's conditions, with loading off, enable it. See `Navigation.PreviousDiffersBeforeFirstResult`. In the component, the signal variant's loading flag is already on at that point, so its buttons are disabled.
- `sortData` copies the event's direction verbatim, so the sort order is a string and is not limited to `asc`/`desc`.
- `nextPage` lies between `currentPage` and `lastPage` only while `currentPage <= lastPage`. Above the last page, `nextPage` is the last page.
- The page can drop to 0; see Findings.
- `distinctUntilChanged()` compares freshly built condition objects by reference, so it filters nothing. This belongs to the stream timing, which is left out.

## Model

| member | source | states |
|---|---|---|
| Decimal.IntRoundTrip | src/app/demo/demo-01-quick-start-rxjs.component.ts:194-195 | The decimal string that `toString()` gives for any integer parses back to that integer |
| Decimal.RenderingInjective | src/app/demo/demo-01-quick-start-signal.component.ts:152-153 | Two integers render to the same string exactly when they are equal |
| SearchState.ConditionOf | src/app/demo/demo-01-quick-start-rxjs.component.ts:192-198 | `q`, `sort` and `order` are copied from the cells; `page` and `per_page` are decimal strings that parse back to the current page and the page size |
| SearchState.ConditionDeterminesCells | src/app/demo/demo-01-quick-start-signal.component.ts:150-156 | Two states give equal search conditions if and only if their five cells are equal |
| SearchState.InitialCondition | src/app/demo/demo-01-quick-start-rxjs.component.ts:177-182 | The initial state is not loading, has no result and a positive page size; its condition is q "ng", page "1", per_page "10", sort "stars", order "desc" |
| SearchState.CeilDiv | src/app/demo/demo-01-quick-start-rxjs.component.ts:230-232 | `Math.ceil(total / perPage)` as integer ceiling division: the result times perPage covers total, and one less does not |
| SearchState.CeilingUnique | src/app/demo/demo-01-quick-start-signal.component.ts:203-205 | A number is the ceiling of total/perPage if and only if it equals `CeilDiv` |
| SignalPager.PreviousPage | src/app/demo/demo-01-quick-start-signal.component.ts:190-192 | The previous page is never below 1 and, from page 1 or above, never above the current page; it equals max(1, currentPage − 1) |
| SignalPager.LastPage | src/app/demo/demo-01-quick-start-signal.component.ts:203-205 | The last page is the ceiling of total_count over the page size; it is 0 without a result, and 0 exactly when the total is 0 |
| SignalPager.NextPage | src/app/demo/demo-01-quick-start-signal.component.ts:194-201 | The next page never exceeds the last page and is at least the current page while the current page is in range; it equals min(currentPage + 1, lastPage); it is 0 without a result when the current page is not negative |
| SignalPager.OnKeywordChange | src/app/demo/demo-01-quick-start-signal.component.ts:209-214 | A keyword edit sets the keyword, page 1 and sort stars/desc; the page size, result and loading flag are unchanged |
| SignalPager.SortData | src/app/demo/demo-01-quick-start-signal.component.ts:216-220 | A sort event sets the sort field and order from the event and page 1; the keyword, page size, result and loading flag are unchanged |
| SignalPager.SetCurrentPage | src/app/demo/demo-01-quick-start-signal.component.ts:84-114 | `currentPage.set` changes the current page and nothing else |
| SignalPager.KeywordChangeCondition | src/app/demo/demo-01-quick-start-signal.component.ts:209-214 | After a keyword edit the condition depends only on the new keyword and the page size |
| SignalPager.LatestKeywordWins | src/app/demo/demo-01-quick-start-signal.component.ts:209-214 | Two keyword edits in a row end in the same state as the later edit alone |
| SignalPager.NinetyFiveMatches | src/app/demo/demo-01-quick-start-signal.component.ts:190-205 | Initially previous=1, last=0, next=0. With 95 matches at page 1: last=10, next=2, previous=1. At page 10: next stays 10 |
| RxPager.PreviousPage | src/app/demo/demo-01-quick-start-rxjs.component.ts:210-213 | `previousPage$` has a value exactly when a result has been emitted; that value is at least 1, at most the current page from page 1 up, currentPage − 1 above page 1, and 1 at or below page 1 |
| RxPager.LastPage | src/app/demo/demo-01-quick-start-rxjs.component.ts:226-233 | `lastPage$` has a value exactly when a result has been emitted; that value is the ceiling of total_count over the page size |
| RxPager.NextPage | src/app/demo/demo-01-quick-start-rxjs.component.ts:215-224 | `nextPage$` has a value exactly when a result has been emitted; it is currentPage + 1 below the last page and the last page otherwise |
| RxPager.OnKeywordChange | src/app/demo/demo-01-quick-start-rxjs.component.ts:237-242 | A keyword edit sets the keyword, page 1 and sort stars/desc; the page size, result and loading flag are unchanged |
| RxPager.SortData | src/app/demo/demo-01-quick-start-rxjs.component.ts:244-248 | A sort event sets the sort field and order from the event and page 1; the keyword, page size, result and loading flag are unchanged |
| RxPager.SetCurrentPage | src/app/demo/demo-01-quick-start-rxjs.component.ts:250-252 | `setCurrentPage` changes the current page and nothing else |
| PagerEquivalence.DerivationsAgreeWithResult | src/app/demo/demo-01-quick-start-signal.component.ts:190-207 | With a result present, the previous, last and next pages of the two variants are equal for every state, and the stream's `firstPage$ = of(1)` equals the signal's first page 1 |
| PagerEquivalence.ShownPageCountsAgree | src/app/demo/demo-01-quick-start-rxjs.component.ts:130-147 | For every state with a non-negative page, the last and next pages the stream template shows (null read as 0) equal the signal values, with or without a result |
| PagerEquivalence.PreviousPageBeforeFirstResult | src/app/demo/demo-01-quick-start-rxjs.component.ts:210-213 | Before the first result `previousPage$` has no value, while the signal's previous page is already at least 1 |
| PagerEquivalence.TransitionsAgree | src/app/demo/demo-01-quick-start-signal.component.ts:209-220 | The keyword, sort and page transitions of the two variants give the same state |
| Navigation.SignalPress | src/app/demo/demo-01-quick-start-signal.component.ts:80-118 | A click changes only the current page; it moves the page to the button's target, and has an effect only when the button is shown and enabled |
| Navigation.RxPress | src/app/demo/demo-01-quick-start-rxjs.component.ts:106-151 | The same for the stream template, where null stream values are read as 0 or disable the button |
| Navigation.PressAgreesOnceResultPresent | src/app/demo/demo-01-quick-start-rxjs.component.ts:106-151 | With a result present, a click has the same effect in both templates |
| Navigation.PreviousDiffersBeforeFirstResult | src/app/demo/demo-01-quick-start-rxjs.component.ts:117-126 | In the model, before any result, with loading off, at page 0 (where "last" leads in the stream template), the stream template ignores "previous" and the signal template's conditions move to page 1 |
| Navigation.LastButtonSettles | src/app/demo/demo-01-quick-start-signal.component.ts:101-117 | After "last": the page is the last page, "last" is disabled, "next" is hidden, the next page is the last page, and pressing "last" again changes nothing |
| Navigation.FirstButtonSettles | src/app/demo/demo-01-quick-start-signal.component.ts:81-97 | After "first": the page is 1, "first" is disabled, "previous" is hidden, and pressing "first" again changes nothing |
| Navigation.PressKeepsPageInRange | src/app/demo/demo-01-quick-start-signal.component.ts:80-118 | While 1 <= currentPage <= lastPage, every click keeps the page in that range |
| Navigation.GuardedPress | src/app/demo/demo-01-quick-start-signal.component.ts:111-117 | The corrected "last" button does nothing while there is no page (last page below 1), so the page never drops below 1; every other click behaves like the template |
| Navigation.Step | src/app/demo/demo-01-quick-start-rxjs.component.ts:204-206 | No event writes the page size. A search start sets the loading flag; a completed search stores the result and clears the flag |
| Navigation.Run | src/app/demo/demo-01-quick-start-rxjs.component.ts:237-252 | Any sequence of events keeps the page size |
| Navigation.PageSizeNeverChanges | src/app/demo/demo-01-quick-start-rxjs.component.ts:180 | From the initial state the page size stays 10 after any events, so ceiling division is always defined |
| Navigation.GuardedRunKeepsFirstPage | src/app/demo/demo-01-quick-start-signal.component.ts:111-117 | With the corrected "last" button, the page stays at least 1 after any events |
| Navigation.LastButtonReachesPageZero | src/app/demo/demo-01-quick-start-signal.component.ts:111-117 | As written, after a search with no matches, "last" sets page 0; the stream template does the same before its first result |
| Users.FindIndex | src/app/demo/demo-02-untracked.component.ts:61 | The index of the first user with the id, or none exactly when no user has it |
| Users.Find | src/app/demo/demo-02-untracked.component.ts:61 | `find` gives a user exactly when some user has the id, and then the first such user |
| Users.SelectedUserName | src/app/demo/demo-02-untracked.component.ts:60-62 | The selected name exists exactly when some user has the selected id, and is the name of the first such user |
| Users.RenameWhere | src/app/demo/demo-02-untracked.component.ts:66-72 | The map keeps the length and the id at every position. A record with the selected id gets the new name and keeps its id and age; every other record is unchanged |
| Users.SelectUser | src/app/demo/demo-02-untracked.component.ts:12-20 | A user button selects that user's id. A name is then selected, and with distinct ids it is that user's name |
| Users.UpdateUserName | src/app/demo/demo-02-untracked.component.ts:64-73 | An edit never changes the selected id, keeps the ids in place and so keeps them distinct |
| Users.FindIndexOnlyReadsIds | src/app/demo/demo-02-untracked.component.ts:61 | Two lists with the same ids in the same positions have the same first match for every id |
| Users.EditThenRead | src/app/demo/demo-02-untracked.component.ts:60-73 | After an edit the selected name is the new value if the selected id is present, and absent otherwise |
| Users.EditKeepsOtherLookups | src/app/demo/demo-02-untracked.component.ts:66-72 | An edit leaves the lookup of every other id unchanged |
| Users.LatestEditWins | src/app/demo/demo-02-untracked.component.ts:66-72 | Of two edits in a row, only the later one is visible |
| Users.InitialSelection | src/app/demo/demo-02-untracked.component.ts:52-62 | The seed ids are distinct and the initial selected name is "John" |

## Findings

| source | as written | input that shows it | evidently intended | confidence | as-written member | corrected member |
|---|---|---|---|---|---|---|
| src/app/demo/demo-01-quick-start-signal.component.ts:111-117 | The last-page button is disabled only when `currentPage() === lastPage()` or while loading | A search with `total_count` 0 gives lastPage 0 while the page is 1; clicking "last" sets page 0 (rxjs template, lines 142-147: the same before the first result arrives) | The page stays at least 1; "last" is also disabled while there is no page | medium; not executed | Navigation.LastButtonReachesPageZero | Navigation.GuardedPress |

## Left out

- Debouncing (300 ms), `distinctUntilChanged`, `switchMap` cancellation, `shareReplay` and the signal variant's raced `loading$`: these are timing and stream-operator semantics. A search start and a completed search are the events `SearchStarted` and `SearchCompleted`. No response is ever discarded in the model.
- Navigation.PreviousDiffersBeforeFirstResult: the signal variant sets its loading flag on every condition change, without the debounce (`startWith(true)`). The model sets loading only at `SearchStarted`. So the model enables signal buttons in states where the component disables them, such as before the first result.
- The intermediate conditions that the separate `next`/`set` calls of one transition emit: the debounce collapses them, so only the final state is modelled.
- The `effect` with its `untracked` read in the untracked demo: this is dependency-tracking behaviour of the framework runtime.
- The remote search service, HTTP, the URL building, templates' styling, Material components and console logging.
- The lazy-signal, output-from-observable and signal-queries demos, the app shell and the menu links: these are thin wrappers over framework and HTTP primitives.
- Floating-point arithmetic: `Math.ceil(total / perPage)` is integer ceiling division with a non-negative `total_count` and a positive page size. Page numbers are integers.
- Decimal.IntRoundTrip: covers integers only; JavaScript's exponent notation for numbers of 1e21 and above and non-integral numbers are not modelled.
