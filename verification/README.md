# Book list page: a Dafny model of its local state

The application is a browser front-end for a book catalogue. Its book list page keeps a
local copy of the catalogue (`books`), a newest-first log of the `bookAdded` /
`bookDeleted` subscription messages (`bookEvents`, kept by the `useBookEvents` hook), and
display state: a search query, a current page of eight rows, the add form, the edit row and
the delete dialog. This project models that state and every transition on it as pure
functions over immutable values, and proves what those transitions promise.

Modules, following the source's structure:

- `Catalog`: `Book`, `BookEvent`, `Option` (for `null` / `undefined`).
- `Sequences`: JavaScript's `Array.prototype.filter` (`Keep`) and `slice` (`JsSlice`, with
  negative indices and clamping), plus subsequence, suffix and reversal.
- `Text`: `toLowerCase` on ASCII letters and `String.prototype.includes`.
- `BookEvents`: the `useBookEvents` hook. Its two effects log each message with a payload
  and overwrite `lastAdded` / `lastDeleted`.
- `Reconciler`: the page's three effects on `books`. An add prepends, a delete removes every
  book with the id, and query data replaces the list.
- `Display`: the render prelude. It covers the search filter, the page slice, `totalPages`,
  the Prev/Next disabled classes, the pager's clicks and the five-event live panel.
- `BookList`: the whole page as `State` plus `Action`, with `Step`, `Run` and `Render`, and
  the properties that span several actions.

Messages, query results and the server's answers to mutations arrive as `Action`s. Their
timing is not modelled. The clock reading an event is stamped with is a parameter of each
delivery.

Some behaviour of the code is easy to miss, and the model keeps it as written:

- Ids are not kept unique. An added message for an id that is already listed adds a
  second row (`DuplicateAddShowsTwice`).
- The disabled classes do not keep the page inside `1..totalPages`. With no matching rows,
  `totalPages` is 0 and Next stays enabled on page 1 (`EmptyListNextLeavesRange`). A delete
  message never moves the page, so the open page can end up past the last one
  (`DeleteStrandsLastPage`).
- The `disabled` class sits on the pager's list item, not on its button, and stops only
  pointer clicks. Activating Previous from the keyboard on page 1 opens page 0 (empty) and
  then page -1, whose negative slice bounds show rows counted from the end
  (`KeyboardPrevLeavesRange`); Next does the same past the last page
  (`KeyboardNextLeavesRange`). With no matching rows, the first press of Previous opens
  page 0, where `0 === totalPages` disables Next while Previous is enabled
  (`KeyboardPrevOnEmptyList`). The page stays at least 1 only without such presses (`Run`).
- The page is reset only when the query's value changes. Pressing Clear on an empty box
  leaves the page where it is (`Search`).
- A confirmed delete whose request fails leaves the dialog open, because the rejection is
  not caught (`FormStep`, `DeleteFailed`).

## Model

| member | source | states |
|---|---|---|
| `Sequences.Keep` | src/Pages/BookList.js:146-149 | `filter` returns no more elements than its input, and each one passes the callback |
| `Sequences.KeepCounts` | src/Pages/BookList.js:146-149 | `filter` keeps every copy of each value that passes the callback and drops every value that fails it |
| `Sequences.KeepIsSubsequence` | src/Pages/BookList.js:146-149 | `filter` keeps its survivors in their original relative order |
| `Sequences.KeepIdempotent` | src/Pages/BookList.js:79 | filtering twice by the same callback is the same as filtering once |
| `Sequences.KeepEverything` | src/Pages/BookList.js:79 | a filter that every element passes returns its input unchanged |
| `Sequences.KeepAgreeing` | src/Pages/BookList.js:146-149 | two callbacks that agree on every element give the same filtered result |
| `Sequences.ResolveIndex` | src/Pages/BookList.js:154 | a `slice` bound resolves into `0..length`: a non-negative bound is clipped to the length, a negative one counts back from the end, and one reaching before the start becomes 0 |
| `Sequences.JsSlice` | src/Pages/BookList.js:154 | `slice` holds `hi - lo` elements for the resolved bounds `lo < hi` (none otherwise), and its `i`-th element is the input's element `lo + i` |
| `Sequences.SliceOfNaturals` | src/Pages/BookList.js:154 | with `0 <= start <= end`, `slice` is the sub-range clipped to the length and holds at most `end - start` elements |
| `Sequences.SliceOfNegatives` | src/Pages/BookList.js:154 | with `start <= end < 0` and `-start` at most the length, `slice` is the sub-range with both bounds counted back from the end |
| `Text.LowerChar` | src/Pages/BookList.js:147 | lower-casing turns `A`..`Z` into `a`..`z` and leaves every other character alone |
| `Text.Lower` | src/Pages/BookList.js:147-148 | a lower-cased string has the same length and no upper-case ASCII letter; each character that is not `A`..`Z` is kept in place, and each `A`..`Z` moves by `'a' - 'A'` |
| `Text.LowerIdempotent` | src/Pages/BookList.js:147-148 | lower-casing twice is the same as lower-casing once |
| `Text.Includes` | src/Pages/BookList.js:147-148 | `includes` holds for an empty needle, never for a needle longer than the string, and for an equally long needle exactly when the two are equal |
| `Text.IncludesIffOccurs` | src/Pages/BookList.js:147-148 | `includes` is true exactly when the needle occurs at some position of the string |
| `BookEvents.OnBookAdded` | src/CustomHooks/useBookEvents.js:34-45 | a present payload puts exactly one `added` event for that book in front of the log and becomes `lastAdded`; `lastDeleted` is unchanged; a missing payload changes nothing |
| `BookEvents.OnBookDeleted` | src/CustomHooks/useBookEvents.js:47-58 | a present payload puts exactly one `deleted` event in front of the log and becomes `lastDeleted`; `lastAdded` is unchanged; a missing payload changes nothing |
| `BookEvents.Receive` | src/CustomHooks/useBookEvents.js:34-58 | a message runs its own stream's effect: its event, if any, goes in front of the log, a present payload fills that stream's slot, and the other slot is untouched |
| `BookEvents.ReceiveAll` | src/CustomHooks/useBookEvents.js:34-58 | over any sequence of messages the old log stays a suffix of the new one, which grows by at most one event per message |
| `BookEvents.LogIsArrivalsReversed` | src/CustomHooks/useBookEvents.js:34-58 | after any interleaving of the two streams, the log is the arrival order reversed (newest first) in front of the earlier log |
| `BookEvents.LogCountsDeliveries` | src/CustomHooks/useBookEvents.js:34-58 | after N messages with payloads, starting from mount, the log holds exactly N events, newest first |
| `BookEvents.ArrivalsOfPresentPayloads` | src/CustomHooks/useBookEvents.js:35-48 | each message with a payload contributes exactly one event |
| `BookEvents.SlotsHoldLatest` | src/CustomHooks/useBookEvents.js:43-56 | after any interleaving, `lastAdded` and `lastDeleted` each hold the newest payload from their own stream, or their earlier value |
| `Reconciler.RemoveId` | src/Pages/BookList.js:79 | removing an id leaves no book with that id, keeps the others in relative order, and keeps every copy of every other book |
| `Reconciler.OnLastAdded` | src/Pages/BookList.js:70-74 | a present `lastAdded` makes the list one longer, with that book first and the old list after it |
| `Reconciler.OnLastDeleted` | src/Pages/BookList.js:77-81 | a present `lastDeleted` leaves a subsequence of the list with no book of that id and every copy of every book with another id; `null` changes nothing |
| `Reconciler.OnData` | src/Pages/BookList.js:83-87 | a fetched list, even an empty one, becomes the list; missing data changes nothing |
| `Reconciler.DeleteIdempotent` | src/Pages/BookList.js:79 | deleting the same id twice is the same as deleting it once |
| `Reconciler.DeleteAbsentId` | src/Pages/BookList.js:79 | deleting an id that no book has leaves the list unchanged |
| `Reconciler.DeleteAfterAdd` | src/Pages/BookList.js:70-81 | a delete of an id cancels an add of that id made just before it |
| `Reconciler.AddKeepsDuplicates` | src/Pages/BookList.js:70-74 | an add raises the count of its id by one, so an id that is already listed appears twice |
| `Display.FilterBooks` | src/Pages/BookList.js:146-149 | the filtered list is a subsequence of `books`, holds exactly the matching books with their copies, and an empty query keeps everything |
| `Display.Matches` | src/Pages/BookList.js:146-149 | the filter callback accepts every book for an empty query, and accepts a book only if its title or author is at least as long as the query |
| `Display.MatchesIffOccurs` | src/Pages/BookList.js:146-149 | a book matches exactly when the lower-cased query occurs in its lower-cased title or in its lower-cased author |
| `Display.FilterIgnoresCase` | src/Pages/BookList.js:146-149 | two queries that lower-case to the same string filter the same way |
| `Display.QueryCaseIrrelevant` | src/Pages/BookList.js:146-149 | filtering by the lower-cased query gives the same result as filtering by the query |
| `Display.FilterIdempotent` | src/Pages/BookList.js:146-149 | filtering the filtered list again by the same query changes nothing |
| `Display.CurrentData` | src/Pages/BookList.js:152-154 | page `p >= 1` shows rows `(p-1)*8` up to `min(p*8, L)`, or nothing past the end; page 0 shows nothing; a page `p < 0` shows rows `max(L + 8(p-1), 0)` up to `max(L + 8p, 0)`, counted back from the end; never more than 8 rows |
| `Display.TotalPages` | src/Pages/BookList.js:156 | `totalPages` is `ceil(L/8)`: the smallest page count whose pages of 8 hold all `L` rows |
| `Display.PrevDisabled` | src/Pages/BookList.js:327 | on a page of at least 1, Previous is disabled exactly when no earlier page exists; below page 1 it is never disabled |
| `Display.NextDisabled` | src/Pages/BookList.js:337 | inside `1..totalPages`, Next is disabled exactly when no later page exists; past the last page, or on a page of at least 1 with no pages, it is not disabled; below page 1 it is disabled only on page 0 with no pages |
| `Display.AfterPrev` | src/Pages/BookList.js:327-328 | a pointer click on Previous goes back one page unless it is disabled on page 1, so such clicks never take the page below 1 |
| `Display.AfterNext` | src/Pages/BookList.js:337-338 | a pointer click on Next goes forward exactly one page unless it is disabled (page equals `totalPages`); a page inside `1..totalPages` stays inside |
| `Display.AfterPageButton` | src/Pages/BookList.js:331-335 | a numbered button selects its page; only the buttons `1..totalPages` exist |
| `Display.LiveEvents` | src/Pages/BookList.js:170-171 | the panel shows the first `min(5, n)` entries of an `n`-event log, which are the newest ones |
| `Display.PagesUpToIsPrefix` | src/Pages/BookList.js:152-154 | pages `1..k` in order are the first `8k` rows |
| `Display.PagesPartition` | src/Pages/BookList.js:152-156 | pages `1..totalPages` in order give back exactly the filtered list |
| `Display.PageOfRow` | src/Pages/BookList.js:152-156 | row `i` appears on page `i/8 + 1` at position `i%8`, that page lies within `1..totalPages`, position `j` of any page `p >= 1` shows row `(p-1)*8 + j`, so no other page and position shows row `i` |
| `Display.PagerDisabledAtEnds` | src/Pages/BookList.js:327-338 | on a non-empty list, each of Previous and Next is enabled exactly when its click moves to another page inside `1..totalPages` |
| `Display.PagesBelowOne` | src/Pages/BookList.js:152-154 | a page `p < 0` of a list with at least `8(1 - p)` rows shows the eight rows ending `-8p` rows before the end of the list |
| `Display.EmptyListLeavesNextEnabled` | src/Pages/BookList.js:337 | with no rows `totalPages` is 0, so Next is not disabled on page 1 |
| `BookList.ErrorMessage` | src/Pages/BookList.js:122 | the banner text is the error's message, or `'Failed to add book'` when that message is missing or empty, and is never empty |
| `BookList.Notify` | src/Pages/BookList.js:67-81 | a message runs the hook's effect, then prepends (added) or removes by id (deleted); a missing payload changes nothing; page, query and form are untouched |
| `BookList.Search` | src/Pages/BookList.js:96-98 | a changed query resets the page to 1; re-entering the same query changes nothing |
| `BookList.Submit` | src/Pages/BookList.js:100-105 | a submit with both inputs filled hides the banner and returns to page 1, leaving the rest of the form as it was; with an input empty the browser blocks it and nothing changes |
| `BookList.FormStep` | src/Pages/BookList.js:100-140 | each control changes only its own fields: typing sets one input, add success clears the inputs and highlights the new id, a failure only sets the (non-empty) banner, edit start copies the book into the edit row, edit cancel and update success only close it, the dialog opens and closes, a failed delete changes nothing |
| `BookList.Step` | src/Pages/BookList.js:69-338 | only messages change the log, which never shrinks; only messages and query data change the list; a keyboard press moves the page by one whatever its class; the page drops below 1 only by a keyboard press of Previous on page 1 |
| `BookList.Run` | src/Pages/BookList.js:69-338 | over any history the old log stays a suffix of the new one, and without keyboard presses of Previous the page stays at least 1 |
| `BookList.Render` | src/Pages/BookList.js:146-338 | a render shows exactly the matching books in list order, the open page's rows of them on every page number (including 0 and below, where the slice bounds count back from the end), `ceil(L/8)` pages, Previous disabled on page 1, Next disabled on page `totalPages`, the newest five events, and the banner exactly when the error is non-empty |
| `BookList.RunFeedsHook` | src/Pages/BookList.js:67 | over any history the page's hook state is the hook's own fold over just the subscription messages |
| `BookList.LogAfterHistory` | src/CustomHooks/useBookEvents.js:34-58 | from mount, after any history the log is the logged arrivals reversed |
| `BookList.FetchWins` | src/Pages/BookList.js:83-87 | after a query result the list is exactly the fetched list, whatever came before |
| `BookList.FetchForgetsHistory` | src/Pages/BookList.js:83-87 | two histories that end in the same query result agree on the list |
| `BookList.AddedNotification` | src/Pages/BookList.js:70-74 | an added message puts its book first in the list and its event first in the log and in the live panel, and sets `lastAdded` without touching `lastDeleted` |
| `BookList.DeletedNotificationHidesId` | src/Pages/BookList.js:77-81 | after a deleted message for id X, no page of the table shows a row with id X |
| `BookList.CurrentDataFromFiltered` | src/Pages/BookList.js:154 | every row a page shows comes from the filtered list |
| `BookList.AddSubmittedResetsPage` | src/Pages/BookList.js:100-105 | submitting a filled-in add form goes to page 1 and hides the banner |
| `BookList.FailureShowsBanner` | src/Pages/BookList.js:121-139 | a failed add or update shows the error's message, or the default text, in the banner |
| `BookList.PagerKeepsPageInRange` | src/Pages/BookList.js:327-338 | on a non-empty list, Prev, Next and the numbered buttons keep a page inside `1..totalPages` inside it |
| `BookList.KeyboardPrevLeavesRange` | src/Pages/BookList.js:327-328 | from page 1 a keyboard press of Previous opens page 0, which is empty with Previous enabled; a second opens page -1, showing rows `L-16` up to `L-8` |
| `BookList.KeyboardPrevOnEmptyList` | src/Pages/BookList.js:327-338 | with no matching rows, a keyboard press of Previous on page 1 opens page 0, which is empty, with Next disabled and Previous enabled |
| `BookList.KeyboardNextLeavesRange` | src/Pages/BookList.js:337-338 | on the last page a keyboard press of Next opens page `totalPages + 1`, which shows nothing |
| `BookList.EmptyListNextLeavesRange` | src/Pages/BookList.js:337-338 | with no matching rows, Next is enabled on page 1 and leads to page 2, beyond `totalPages` = 0 |
| `BookList.DeleteStrandsLastPage` | src/Pages/BookList.js:77-81 | a delete message that shrinks nine rows to eight leaves page 2 open although `totalPages` is 1; the page shows nothing and Next stays enabled |
| `BookList.DuplicateAddShowsTwice` | src/Pages/BookList.js:70-74 | an added message for an id listed once leaves that id listed twice |
| `BookList.DeleteRaceConverges` | src/Pages/BookList.js:377-383 | if the refetched list lacks the id, a confirmed delete's notification and its refetch reach the same list in either order |
| `BookList.FetchThenAddScenario` | src/Pages/BookList.js:70-87 | loading `[book 1]` and then receiving an added message for book 2 gives `[book 2, book 1]` and one `added` event |

## Left out

- `src/index.js` (Apollo client, HTTP and WebSocket links, auth header, `split`) is not
  part of this model. It only wires external libraries and the network.
- `src/App.js` (router) and `src/Pages/Logs.js` are not part of this model. The Logs page
  calls `useBookEvents` itself, so it holds its own subscriptions and its own log, which
  starts empty whenever that route mounts.
- Navigation between routes. The model covers one mount of the book list page: the
  router shows one page at a time, so leaving the list and coming back remounts it with
  an empty log and an empty book list. "The log never shrinks" (`Step`, `Run`) holds
  within one mount, not across such a remount.
- The remote calls behind `addBook`, `updateBook` and `deleteBook`. Only their local
  effects on success and failure are modelled (`AddSucceeded`, `UpdateFailed`, ...). The
  update and the delete each start a `refetch()`, whose result arrives later as a separate
  `DataChanged` action; the add's `refetch()` is commented out.
- The `console.error` calls in the add and update error handlers. They only write to
  the browser console and change no state.
- The 5-second `setTimeout`s that clear the banner and the highlight. They are wall-clock
  timers.
- `new Date().toISOString()` and `toLocaleString`. The time is an opaque string passed in
  with each delivery.
- Text.Lower: lower-cases ASCII letters only. JavaScript's `toLowerCase` also maps
  non-ASCII letters, and full Unicode case mapping is out of scope.
- React's effect scheduling and identity-based change detection. Each message with a
  payload is a fresh object, so delivering it runs the hook's effect and then the page's
  effect, as one `Notify` step. A redelivered identical object, which React would ignore,
  is not modelled.
- Apollo's cache and loading flags. The `loading` and `error` early returns render
  nothing of the model, and `data` changes only through `DataChanged`.
- The subscription payloads' `createdTime` field, which nothing reads.
- The JSX markup, apart from the disabled classes and the banner condition that `Render`
  captures and the numbered buttons `1..totalPages` that `AfterPageButton` models.
  Bootstrap's `disabled` class on a pager item stops pointer clicks (`PrevClicked`,
  `NextClicked` do nothing there) but not keyboard activation of the button inside it
  (`PrevKeyPressed`, `NextKeyPressed`). No other input method is modelled.
