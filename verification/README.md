# Book catalog: reducer and derived view

This project models the pure core of a small client-side book catalog. The catalog is a React component backed by a reducer. It lists, adds, edits, deletes, searches and pages through book records that a REST backend stores.

The model has four modules:

- `Seqs` (`seqs.dfy`) holds generic sequence helpers. `Filter` is `Array.prototype.filter`. `Subseq` is the "order-preserving subsequence" relation. `CountWhere` counts the elements that satisfy a predicate. `Option` is the result type for `find` and for remote replies.
- `BookReducer` (`book_reducer.dfy`) holds the `Book` record, the four-variant `Action` union and `Reduce`, which is the reducer exactly as written. `SetBooks` has no case of its own. It falls through to the default branch, so it returns the prior collection. `UpdateBook` replaces every record whose id matches, not only the first. The module also holds a fold over action sequences, and `ReduceIntended`, the corrected reducer (see Findings).
- `BookView` (`book_view.dfy`) covers the derived view. The search filter is ASCII lower-casing plus a substring test. The page slice follows the clamping rules of JavaScript's `slice`, including negative bounds. The page arithmetic covers page count, Next, Previous and the two disabled predicates.
- `BookApp` (`book_app.dfy`) holds the event handlers as pure functions over an explicit state `Ui(books, term, page)`. Remote replies and the clock reading are parameters. The module also has an event type, a `Step` function and a `Run` fold. The lemmas over all reachable states use them.

Where the component's documented intent and its code disagree, the model follows the code:

- `SetBooks` does not replace the collection.
- `UpdateBook` replaces every id match, not only the first one.
- Next and its disabled test use the length of the whole collection, not the number of search results.
- On an empty collection the page count is 0. So Next is enabled on page 1 and moves to page 0, which shows nothing.

## Model

| member | source | states |
|---|---|---|
| BookReducer.Reduce | src/bookReducer.ts:15-26 | Adding grows the collection by exactly one. Update and SetBooks keep its length. Delete never grows it. |
| BookReducer.ReplaceById | src/bookReducer.ts:19-20 | The update map keeps the length. Every index whose id matches holds the new record, and every other index keeps its old record. |
| BookReducer.AddAppends | src/bookReducer.ts:17-18 | Adding appends the record at the end and keeps every earlier record at its index. The id is not checked for uniqueness: the count of that id rises by one even when it was already present. |
| BookReducer.UpdateReplacesEveryMatch | src/bookReducer.ts:19-20 | Update keeps the length, puts the new record at every index whose id matches (all of them, not just the first), and leaves the other indices unchanged. |
| BookReducer.UpdateAbsentIsIdentity | src/bookReducer.ts:20 | Updating with an id that no record carries returns the same collection. Nothing is inserted. |
| BookReducer.UpdateIdempotent | src/bookReducer.ts:20 | Applying the same update twice gives the same collection as applying it once. |
| BookReducer.DeleteRemovesEveryMatch | src/bookReducer.ts:21-22 | After a delete, no record has the id. The rest form an order-preserving subsequence with their original multiplicities, and the length drops by the number of matches. |
| BookReducer.DeleteAbsentIsIdentity | src/bookReducer.ts:22 | Deleting an id that no record carries returns the same collection. |
| BookReducer.DeleteIdempotent | src/bookReducer.ts:22 | Deleting the same id twice gives the same collection as deleting it once. |
| BookReducer.SetBooksIsIgnored | src/bookReducer.ts:13-25 | SetBooks returns the prior collection. The result equals the supplied records only when those records already equal the prior collection. |
| BookReducer.SetBooksDoesNotReplace | src/bookReducer.ts:13-25 | Loading one record into the empty collection leaves it empty. |
| BookReducer.ReduceIntended | src/bookReducer.ts:15-26 | Corrected reducer: SetBooks yields exactly the supplied records, and every other action behaves as in the reducer as written. |
| BookReducer.IntendedDiffersOnlyOnSetBooks | src/bookReducer.ts:15-26 | The corrected reducer differs from the one as written exactly on SetBooks actions whose records differ from the prior collection. |
| BookReducer.ReduceAllLength | src/bookReducer.ts:15-26 | After any sequence of actions, the collection is at most its starting length plus the number of AddBook actions. |
| BookReducer.NoAddNeverGrows | src/bookReducer.ts:15-26 | A sequence of actions without AddBook never lengthens the collection. |
| BookReducer.CountPositiveIffPresent | src/bookReducer.ts:22 | The delete predicate's match count is positive exactly when some record carries the id. |
| BookReducer.DeleteScenario | src/bookReducer.ts:21-22 | Deleting id 1 from the two-record collection of ids 1 and 2 leaves just the record with id 2. |
| Seqs.Filter | src/bookReducer.ts:22 | Every kept element comes from the input and satisfies the predicate, and every input element that satisfies it is kept. |
| Seqs.FilterIsSubseq | src/bookReducer.ts:22 | The filter keeps the survivors in their original relative order. |
| Seqs.FilterMultiplicity | src/bookReducer.ts:22 | The filter keeps every copy of a surviving element and no copy of a removed one. |
| Seqs.FilterLength | src/bookReducer.ts:22 | The filter's length equals the number of input elements that satisfy the predicate. |
| Seqs.FilterIdempotent | src/App.tsx:38-40 | Filtering twice with the same predicate gives the same result as filtering once. |
| BookView.Lower | src/App.tsx:39 | Lower-casing keeps the length and lower-cases each character in place. The result is already lower-case, so lower-casing it again changes nothing. |
| BookView.LowerChar | src/App.tsx:39 | ASCII capitals map to the matching small letter, 32 code points up. Every other character is unchanged. |
| BookView.ContainsIffOccurs | src/App.tsx:39 | The recursive includes test holds exactly when the term occurs at some position of the title. |
| BookView.Contains | src/App.tsx:39 | `includes`: the empty term is contained in every title, and a contained term is never longer than the title. |
| BookView.Filtered | src/App.tsx:38-40 | The search result is an order-preserving subsequence of the collection. Every record in it matches the term, and every matching record of the collection is in it. |
| BookView.FilteredIsMatchingSubseq | src/App.tsx:38-40 | The search result is an order-preserving subsequence of the collection. It holds exactly the records whose lower-cased title contains the lower-cased term, each with its full multiplicity. |
| BookView.EmptyTermKeepsAll | src/App.tsx:38-40 | An empty search term keeps the whole collection. |
| BookView.MatchIgnoresTermCase | src/App.tsx:39 | Lower-casing the term first does not change whether a record matches. |
| BookView.ClampIndex | src/App.tsx:41 | A slice bound resolves into the range from 0 to the length. A bound already in range is kept, one past the end becomes the length, and a negative one counts back from the end. |
| BookView.ClampIndexMonotone | src/App.tsx:41 | Two bounds of the same sign stay in order after resolution, and their gap never widens. |
| BookView.JsSlice | src/App.tsx:41 | For bounds of the same sign, the slice is no longer than the distance between them. For non-negative bounds, it is the subsequence between the bounds after each is capped at the length. |
| BookView.VisiblePage | src/App.tsx:41 | The shown page has at most five records, and each of them is a record of the collection that matches the term. |
| BookView.VisiblePageWindow | src/App.tsx:41 | For page p of 1 or more, the shown records are the search result from index (p-1)*5 up to min(p*5, count). That is at most five records, and none once (p-1)*5 reaches the count. |
| BookView.VisiblePageAtMostFive | src/App.tsx:41 | Whatever the page number, at most five records are shown. |
| BookView.PageZeroIsEmpty | src/App.tsx:41 | Page 0 shows nothing, because the slice runs from five before the end up to index 0. |
| BookView.TwelveRecordScenario | src/App.tsx:37-42 | With twelve records and an empty term: page 1 shows records 1-5, page 3 shows records 11-12, page 4 is empty, and Next is disabled on page 3. |
| BookView.PageCount | src/App.tsx:87 | The page count is the ceiling of length/5: it covers the whole collection, and the last page is non-empty. |
| BookView.NextPage | src/App.tsx:86-88 | Next never goes past the page count of the whole collection and is 0 on an empty collection. Below the last page it advances by one. From the last page or beyond, it lands on the last page. |
| BookView.PrevPage | src/App.tsx:90-92 | Previous never goes below 1 and stays at 1 from page 1. Above page 1 it steps back by one. |
| BookView.NextDisabled | src/App.tsx:126 | Next is disabled exactly on the page that holds the last record of the whole collection, or on page 0 when the collection is empty. |
| BookView.NextDisabledIffStuck | src/App.tsx:126 | On every page, Next is disabled exactly when pressing it would leave the page unchanged. |
| BookView.PrevDisabled | src/App.tsx:123 | Previous is disabled exactly on the page whose window starts at the first search result, which is page 1. |
| BookView.PrevDisabledIffStuck | src/App.tsx:123 | On every page, Previous is disabled exactly when pressing it would leave the page unchanged. |
| BookView.PrevUndoesNext | src/App.tsx:86-92 | Below the last page, Previous undoes Next. |
| BookView.NextUndoesPrev | src/App.tsx:86-92 | From page 2 up to the last page, Next undoes Previous. |
| BookView.NextOnEmptyCollection | src/App.tsx:87 | On an empty collection, Next is enabled on page 1 and moves to page 0. Previous then returns to page 1. |
| BookView.PagesStayNonNegative | src/App.tsx:86-92 | From a non-negative page, Next gives a non-negative page and Previous gives at least 1. |
| BookView.NextPastSearchResults | src/App.tsx:87 | On a collection longer than one page, a search whose results fit on page 1 leaves Next enabled. Next then moves to page 2, which shows nothing. |
| BookView.NextPastSearchResultsExample | src/App.tsx:87 | Example: six records titled "A" and the term "zz". Nothing matches, yet Next moves from page 1 to an empty page 2. |
| BookView.LastPageIntended | src/App.tsx:87 | Corrected bound: the last page of the search results, and page 1 when nothing matches. It is never below 1. |
| BookView.NextPageIntended | src/App.tsx:87 | Corrected Next: never past the corrected last page, at least 1 from any non-negative page, one step forward below the last page, and unmoved exactly when its corrected disabled test holds. |
| BookView.IntendedPageRangeShowsResults | src/App.tsx:41 | With the corrected bound, whenever something matches, every page from 1 to the last page shows records. |
| BookView.IntendedNextStaysOnResults | src/App.tsx:87 | With the corrected bound, Next from a page that shows records lands on a page between 1 and the last page, and that page shows records. |
| BookView.IntendedNextOnNoResults | src/App.tsx:87 | With the corrected bound, on six records titled "A" and the term "zz", Next is disabled on page 1, and pressing it would keep page 1. |
| BookApp.AddRequest | src/App.tsx:45-49 | A record is posted exactly when title, author and year are all non-empty. It carries the clock reading as its id, together with the three field values. |
| BookApp.HandleAdd | src/App.tsx:44-60 | If any field is empty, or the post fails, the collection is unchanged. Otherwise the record the server returns is appended. |
| BookApp.AddWithEmptyAuthorDoesNothing | src/App.tsx:48 | With an empty author nothing is posted, and the collection is unchanged whatever reply is supplied. |
| BookApp.HandleDelete | src/App.tsx:62-69 | A failed request changes nothing. A successful one removes every record with the id. The others stay in their original order with their multiplicities, so the collection shrinks by exactly the number of matches, and strictly when one was present. |
| BookApp.FindById | src/App.tsx:72 | The lookup finds nothing exactly when no record has the id. Otherwise it returns the first record that does. |
| BookApp.HandleEdit | src/App.tsx:71-79 | An absent id does nothing. Otherwise the form gets the values of the first record with that id, and the collection becomes what the delete handler yields for that id. A successful delete removes every such record, and a failed one leaves the collection unchanged. |
| BookApp.HandleLoad | src/App.tsx:28-35 | As written, the mount-time load leaves the state unchanged whatever the fetch returns. |
| BookApp.HandleLoadIntended | src/App.tsx:28-35 | With the corrected reducer, a successful fetch installs the fetched records and leaves the term and page alone. A failed fetch changes nothing. |
| BookApp.LoadLeavesCollectionEmpty | src/App.tsx:31 | After a successful fetch at mount, the collection is still empty and nothing is shown. |
| BookApp.IntendedLoadShowsFetched | src/App.tsx:31 | With the corrected reducer, the load at mount installs the fetched records, and page 1 shows the first five of them. |
| BookApp.HandleSearch | src/App.tsx:81-84 | A search stores the new term, sets the page to 1 and keeps the collection. |
| BookApp.SearchTwoOfTwelve | src/App.tsx:81-84 | A search matching two of twelve records returns to page 1 and shows exactly those two, with Previous disabled. Next stays enabled. |
| BookApp.PressNext | src/App.tsx:86-88 | Next keeps the collection and term. The page becomes `min(p+1, ceil(|books|/5))`, which is never past the whole collection's page count and stays non-negative. The disabled case agrees with this, because a disabled button's handler would not move the page. |
| BookApp.PressPrevious | src/App.tsx:90-92 | Previous keeps the collection and term. The page becomes `max(p-1, 1)`, so it is always at least 1. |
| BookApp.DisabledButtonsWouldNotMove | src/App.tsx:123-126 | When a button is disabled, its handler would leave the page where it is. |
| BookApp.Step | src/App.tsx:28-92 | One event grows the collection by at most one, and only an add can grow it. A non-negative page stays non-negative. A search sets the term and page 1. Load, add, delete and edit keep the term and page. Load, search and the page buttons keep the collection. |
| BookApp.RunKeepsPageNonNegative | src/App.tsx:81-92 | From a non-negative page, no sequence of events makes the page negative. |
| BookApp.RunLengthBound | src/App.tsx:28-79 | After any events, the collection is at most as long as before plus the number of add events. |
| BookApp.ReachableViewEmptyOnlyOffResults | src/App.tsx:37-42 | In every state reachable from mount, the page is 0 or more. The view is empty exactly on page 0 or when the page's window starts past the last search result. |

## Left out

- The HTTP calls (fetch, post, delete) and the backend URLs are network I/O. Each reply is a parameter: `None` or `false` means the request failed. The error logging is left out.
- `Date.now()` is a clock read. It is the `now` parameter of `AddRequest` and `HandleAdd`.
- The React machinery is left out: `useReducer`, `useState`, `useEffect`, `useCallback` and the re-render. The state is the explicit `Ui` value, and the visible page is recomputed by `Visible`.
- Asynchronous interleaving is left out. Each handler runs atomically against the state it starts from. In the source, two overlapping requests each dispatch against whatever state exists when they complete.
- DOM refs and input mutation are left out, as are JSX and CSS. `HandleEdit` returns the values it would write into the form. Clearing the fields after a successful add is not modelled. A missing ref (`?.value` undefined) counts as an empty field.
- BookView.Lower: lower-cases ASCII letters only. Unicode case mapping in `toLowerCase` is not modelled.
- Ids and page numbers are unbounded integers. JavaScript numbers are doubles, but at these magnitudes they are exact integers.
- The action union admits exactly the four variants, so an action outside it is not modelled. The default branch is reached only by `SetBooks`.

## Findings

| source | as written | input that shows it | evidently intended | confidence | as-written member | corrected member |
|---|---|---|---|---|---|---|
| src/bookReducer.ts:15-26 | `SET_BOOKS` is in the action union but has no case, so it falls to `default` and returns the old state. The mount-time load (src/App.tsx:31) therefore never installs the fetched records. | The fetch at mount returns one record. The collection stays `[]` and nothing is shown. | `SET_BOOKS` replaces the collection with the fetched records. | high; not executed | BookApp.LoadLeavesCollectionEmpty | BookReducer.ReduceIntended |
| src/App.tsx:86-88 | Next is bounded by `ceil(books.length / 5)`, the page count of the whole collection. The disabled test at line 126 uses the same bound. The search result is ignored. | Six records titled "A" and the search "zz". Nothing matches, yet Next is enabled on page 1 and moves to page 2, which is empty. | Bound Next and its disabled test by the page count of the search results, never below page 1. Next is then disabled when nothing matches. | medium; not executed | BookView.NextPastSearchResultsExample | BookView.NextPageIntended |

The event fold `BookApp.Run` follows the code as written. The corrected definitions sit next to the as-written ones: `ReduceIntended` with `HandleLoadIntended`, and `NextPageIntended` with `NextDisabledIntended`. On the six-record example, `IntendedNextOnNoResults` shows that the corrected Next is disabled on page 1 and keeps page 1.
