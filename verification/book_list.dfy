/** The book list page as one state machine: the hook's log, the local book list, the
    pager and search box, and the local effects of the add, edit and delete controls. */
module BookList {
  import opened Catalog
  import opened Sequences
  import opened BookEvents
  import opened Reconciler
  import opened Display

  /** The page's form-level state: add inputs, error banner, highlighted row, the row
      being edited and its buffers, and the book staged in the delete dialog. An
      `addError` of `null` and of `''` render alike, so both are the empty string here. */
  datatype Form = Form(
    title: string,
    author: string,
    addError: string,
    highlightedBookId: Option<BookId>,
    editingId: Option<BookId>,
    editTitle: string,
    editAuthor: string,
    bookToDelete: Option<Book>)

  datatype State = State(hook: HookState, books: seq<Book>, currentPage: int, searchQuery: string, form: Form)

  const EmptyForm := Form("", "", "", None, None, "", "", None)

  /** The page when it mounts, before the first query result arrives. */
  const Initial := State(Mounted, [], 1, "", EmptyForm)

  /** Everything that can happen to the page, one at a time. A remote call's outcome
      (`AddSucceeded`, `UpdateFailed`, ...) is decided by the server and arrives as its own action.
      `PrevClicked` / `NextClicked` are pointer clicks, which a `disabled` item swallows;
      `PrevKeyPressed` / `NextKeyPressed` activate the same buttons from the keyboard, which
      the `disabled` class on the enclosing item does not stop. */
  datatype Action =
    | Notified(d: Delivery)
    | DataChanged(fetched: Option<seq<Book>>)
    | SearchChanged(query: string)
    | PrevClicked
    | NextClicked
    | PrevKeyPressed
    | NextKeyPressed
    | PageClicked(n: int)
    | TitleTyped(title: string)
    | AuthorTyped(author: string)
    | AddSubmitted
    | AddSucceeded(newId: BookId)
    | AddFailed(message: Option<string>)
    | EditStarted(book: Book)
    | EditTitleTyped(editTitle: string)
    | EditAuthorTyped(editAuthor: string)
    | EditCancelled
    | UpdateSucceeded
    | UpdateFailed(message: Option<string>)
    | DeleteRequested(book: Book)
    | DeleteCancelled
    | DeleteSucceeded
    | DeleteFailed

  const DefaultError := "Failed to add book"

  /** `err?.message || 'Failed to add book'`: the error's message unless it is missing or empty. */
  function ErrorMessage(message: Option<string>): (r: string)
    ensures r != ""
    ensures message.Some? && message.value != "" ==> r == message.value
    ensures message.None? || message.value == "" ==> r == DefaultError
  {
    if message.Some? && message.value != "" then message.value else DefaultError
  }

  function Filtered(s: State): seq<Book>
  {
    FilterBooks(s.books, s.searchQuery)
  }

  function PageCount(s: State): nat
  {
    TotalPages(|Filtered(s)|)
  }

  /** A subscription message runs the hook's effect and, when it changed `lastAdded`
      or `lastDeleted`, the page's matching effect on the book list. */
  function Notify(s: State, d: Delivery): (r: State)
    ensures r.hook == Receive(s.hook, d)
    ensures d.payload.None? ==> r == s
    ensures d.payload.Some? && d.stream == Added ==> r.books == [d.payload.value] + s.books
    ensures d.payload.Some? && d.stream == Deleted ==> r.books == RemoveId(s.books, d.payload.value.id)
    ensures r.currentPage == s.currentPage && r.searchQuery == s.searchQuery && r.form == s.form
  {
    var h := Receive(s.hook, d);
    var books :=
      if d.payload.None? then s.books
      else if d.stream == Added then OnLastAdded(s.books, h.lastAdded)
      else OnLastDeleted(s.books, h.lastDeleted);
    s.(hook := h, books := books)
  }

  /** The search box's change (typing, or Clear with `''`); the page-reset effect runs
      only when the query's value actually changes. */
  function Search(s: State, q: string): (r: State)
    ensures q != s.searchQuery ==> r.currentPage == 1 && r.searchQuery == q
    ensures q == s.searchQuery ==> r == s
    ensures r.books == s.books && r.hook == s.hook && r.form == s.form
  {
    if q == s.searchQuery then s else s.(searchQuery := q, currentPage := 1)
  }

  /** Submitting the add form. Both inputs are `required`, so the browser refuses to
      submit while either is empty; otherwise the handler hides the banner and returns to
      page 1 before it sends the mutation. */
  function Submit(s: State): (r: State)
    ensures s.form.title == "" || s.form.author == "" ==> r == s
    ensures s.form.title != "" && s.form.author != "" ==> r.currentPage == 1 && r.form == s.form.(addError := "")
    ensures r.books == s.books && r.hook == s.hook && r.searchQuery == s.searchQuery
  {
    if s.form.title == "" || s.form.author == "" then s
    else s.(form := s.form.(addError := ""), currentPage := 1)
  }

  /** The actions that touch only the form-level state. */
  predicate IsFormAction(a: Action)
  {
    !(a.Notified? || a.DataChanged? || a.SearchChanged? || a.PrevClicked? || a.NextClicked? ||
      a.PrevKeyPressed? || a.NextKeyPressed? || a.PageClicked? || a.AddSubmitted?)
  }

  /** The local effects of the inputs and of the add, edit and delete controls. */
  function FormStep(f: Form, a: Action): (r: Form)
    requires IsFormAction(a)
    ensures a.TitleTyped? ==> r == f.(title := a.title)
    ensures a.AuthorTyped? ==> r == f.(author := a.author)
    ensures a.AddSucceeded? ==> r == f.(title := "", author := "", addError := "", highlightedBookId := Some(a.newId))
    ensures a.AddFailed? || a.UpdateFailed? ==> r == f.(addError := ErrorMessage(a.message)) && r.addError != ""
    ensures a.EditStarted? ==> r == f.(editingId := Some(a.book.id), editTitle := a.book.title, editAuthor := a.book.author)
    ensures a.EditTitleTyped? ==> r == f.(editTitle := a.editTitle)
    ensures a.EditAuthorTyped? ==> r == f.(editAuthor := a.editAuthor)
    ensures a.EditCancelled? || a.UpdateSucceeded? ==> r == f.(editingId := None)
    ensures a.DeleteRequested? ==> r == f.(bookToDelete := Some(a.book))
    ensures a.DeleteCancelled? || a.DeleteSucceeded? ==> r == f.(bookToDelete := None)
    ensures a.DeleteFailed? ==> r == f
  {
    match a
    case TitleTyped(t) => f.(title := t)
    case AuthorTyped(t) => f.(author := t)
    case AddSucceeded(id) => f.(title := "", author := "", addError := "", highlightedBookId := Some(id))
    case AddFailed(m) => f.(addError := ErrorMessage(m))
    case EditStarted(b) => f.(editingId := Some(b.id), editTitle := b.title, editAuthor := b.author)
    case EditTitleTyped(t) => f.(editTitle := t)
    case EditAuthorTyped(t) => f.(editAuthor := t)
    case EditCancelled => f.(editingId := None)
    case UpdateSucceeded => f.(editingId := None)
    case UpdateFailed(m) => f.(addError := ErrorMessage(m))
    case DeleteRequested(b) => f.(bookToDelete := Some(b))
    case DeleteCancelled => f.(bookToDelete := None)
    case DeleteSucceeded => f.(bookToDelete := None)
    case DeleteFailed => f
  }

  /** One action. Only subscription messages touch the event log; only they and query
      results touch the book list. The current page drops below 1 only when Previous is
      activated from the keyboard on page 1. */
  function Step(s: State, a: Action): (r: State)
    ensures s.currentPage >= 1 && !(a.PrevKeyPressed? && s.currentPage == 1) ==> r.currentPage >= 1
    ensures a.PrevKeyPressed? ==> r == s.(currentPage := s.currentPage - 1)
    ensures a.NextKeyPressed? ==> r == s.(currentPage := s.currentPage + 1)
    ensures !a.Notified? ==> r.hook == s.hook
    ensures !a.Notified? && !a.DataChanged? ==> r.books == s.books
    ensures IsSuffix(s.hook.bookEvents, r.hook.bookEvents)
  {
    match a
    case Notified(d) => Notify(s, d)
    case DataChanged(fetched) => s.(books := OnData(s.books, fetched))
    case SearchChanged(q) => Search(s, q)
    case PrevClicked => s.(currentPage := AfterPrev(s.currentPage))
    case NextClicked => s.(currentPage := AfterNext(s.currentPage, PageCount(s)))
    case PrevKeyPressed => s.(currentPage := s.currentPage - 1)
    case NextKeyPressed => s.(currentPage := s.currentPage + 1)
    case PageClicked(n) => s.(currentPage := AfterPageButton(s.currentPage, n, PageCount(s)))
    case AddSubmitted => Submit(s)
    case _ => s.(form := FormStep(s.form, a))
  }

  /** No action of `acts` activates Previous from the keyboard. */
  predicate NoPrevKey(acts: seq<Action>)
  {
    forall i :: 0 <= i < |acts| ==> !acts[i].PrevKeyPressed?
  }

  /** The page after the actions `acts`, in order. Without keyboard activation of
      Previous the page never drops below 1. */
  function Run(s: State, acts: seq<Action>): (r: State)
    ensures s.currentPage >= 1 && NoPrevKey(acts) ==> r.currentPage >= 1
    ensures IsSuffix(s.hook.bookEvents, r.hook.bookEvents)
    decreases |acts|
  {
    if |acts| == 0 then s else Step(Run(s, acts[..|acts| - 1]), acts[|acts| - 1])
  }

  /** The subscription messages among `acts`, in order. */
  function Deliveries(acts: seq<Action>): seq<Delivery>
    decreases |acts|
  {
    if |acts| == 0 then []
    else Deliveries(acts[..|acts| - 1]) + (if acts[|acts| - 1].Notified? then [acts[|acts| - 1].d] else [])
  }

  /** What one render shows. */
  datatype View = View(
    filtered: seq<Book>,
    currentData: seq<Book>,
    totalPages: nat,
    prevDisabled: bool,
    nextDisabled: bool,
    liveEvents: seq<BookEvent>,
    banner: Option<string>)

  /** The render: the matching books, the open page's rows, the page count, the pager's
      disabled classes, the newest events and the banner (shown only for a non-empty error). */
  function Render(s: State): (r: View)
    ensures forall b :: multiset(r.filtered)[b] == if Matches(b, s.searchQuery) then multiset(s.books)[b] else 0
    ensures IsSubsequence(r.filtered, s.books)
    ensures r.totalPages * ItemsPerPage >= |r.filtered| && (r.totalPages == 0 || (r.totalPages - 1) * ItemsPerPage < |r.filtered|)
    ensures |r.currentData| <= ItemsPerPage
    ensures s.currentPage >= 1 && (s.currentPage - 1) * ItemsPerPage < |r.filtered| ==>
      r.currentData == r.filtered[(s.currentPage - 1) * ItemsPerPage..Min(s.currentPage * ItemsPerPage, |r.filtered|)]
    ensures s.currentPage >= 1 && (s.currentPage - 1) * ItemsPerPage >= |r.filtered| ==> r.currentData == []
    ensures s.currentPage == 0 ==> r.currentData == []
    ensures s.currentPage < 0 ==>
      r.currentData == r.filtered[Max(|r.filtered| + (s.currentPage - 1) * ItemsPerPage, 0)..Max(|r.filtered| + s.currentPage * ItemsPerPage, 0)]
    ensures r.prevDisabled <==> s.currentPage == 1
    ensures r.nextDisabled <==> s.currentPage == r.totalPages
    ensures r.liveEvents == s.hook.bookEvents[..Min(LiveEventsShown, |s.hook.bookEvents|)]
    ensures r.banner.Some? <==> s.form.addError != ""
    ensures r.banner.Some? ==> r.banner.value == s.form.addError
  {
    var filtered := Filtered(s);
    var currentData := CurrentData(filtered, s.currentPage);
    var totalPages := TotalPages(|filtered|);
    View(
      filtered,
      currentData,
      totalPages,
      PrevDisabled(s.currentPage),
      NextDisabled(s.currentPage, totalPages),
      LiveEvents(s.hook.bookEvents),
      if s.form.addError == "" then None else Some(s.form.addError))
  }

  /** The page's hook sees exactly the subscription messages among the actions:
      its state is the hook's own fold over them, whatever else was interleaved. */
  lemma {:induction false} RunFeedsHook(s: State, acts: seq<Action>)
    ensures Run(s, acts).hook == ReceiveAll(s.hook, Deliveries(acts))
    decreases |acts|
  {
    if |acts| > 0 {
      var prefix, a := acts[..|acts| - 1], acts[|acts| - 1];
      RunFeedsHook(s, prefix);
      StepFeedsHook(Run(s, prefix), a);
      assert Run(s, acts) == Step(Run(s, prefix), a);
      var ds := Deliveries(acts);
      if a.Notified? {
        assert ds[..|ds| - 1] == Deliveries(prefix) && ds[|ds| - 1] == a.d;
      } else {
        assert ds == Deliveries(prefix);
      }
    }
  }

  lemma StepFeedsHook(s: State, a: Action)
    ensures Step(s, a).hook == if a.Notified? then Receive(s.hook, a.d) else s.hook
  {
  }

  /** After any history the log holds one event per present payload, newest first. */
  lemma LogAfterHistory(acts: seq<Action>)
    ensures Run(Initial, acts).hook.bookEvents == Reverse(Arrivals(Deliveries(acts)))
  {
    RunFeedsHook(Initial, acts);
    LogIsArrivalsReversed(Mounted, Deliveries(acts));
  }

  /** A query result replaces the list outright: after it the list is the fetched one,
      whatever adds and deletes came before. */
  lemma FetchWins(s: State, acts: seq<Action>, list: seq<Book>)
    ensures Run(s, acts + [DataChanged(Some(list))]).books == list
  {
    assert (acts + [DataChanged(Some(list))])[..|acts|] == acts;
  }

  /** Two histories that end in the same query result agree on the book list. */
  lemma FetchForgetsHistory(s1: State, acts1: seq<Action>, s2: State, acts2: seq<Action>, list: seq<Book>)
    ensures Run(s1, acts1 + [DataChanged(Some(list))]).books == Run(s2, acts2 + [DataChanged(Some(list))]).books
  {
    FetchWins(s1, acts1, list);
    FetchWins(s2, acts2, list);
  }

  /** An added notification prepends its book to the list and its event to the log, and
      the panel then shows that event first. */
  lemma AddedNotification(s: State, b: Book, t: Timestamp)
    ensures var r := Step(s, Notified(Delivery(Added, Some(b), t)));
      && r.books == [b] + s.books
      && r.hook.bookEvents == [BookEvent(Added, b, t)] + s.hook.bookEvents
      && r.hook.lastAdded == Some(b)
      && r.hook.lastDeleted == s.hook.lastDeleted
      && LiveEvents(r.hook.bookEvents)[0] == BookEvent(Added, b, t)
  {
  }

  /** After a deleted notification for id `x` no page of the table shows a row with id `x`. */
  lemma DeletedNotificationHidesId(s: State, b: Book, t: Timestamp, page: int)
    ensures var r := Step(s, Notified(Delivery(Deleted, Some(b), t)));
      forall i :: 0 <= i < |CurrentData(Filtered(r), page)| ==> CurrentData(Filtered(r), page)[i].id != b.id
  {
    var r := Step(s, Notified(Delivery(Deleted, Some(b), t)));
    var shown := CurrentData(Filtered(r), page);
    forall i | 0 <= i < |shown|
      ensures shown[i].id != b.id
    {
      var row := shown[i];
      CurrentDataFromFiltered(Filtered(r), page, i);
      assert multiset(Filtered(r))[row] > 0;
      assert multiset(r.books)[row] > 0;
    }
  }

  /** Every row a page shows is a row of the list it pages. */
  lemma CurrentDataFromFiltered(filtered: seq<Book>, page: int, i: int)
    requires 0 <= i < |CurrentData(filtered, page)|
    ensures CurrentData(filtered, page)[i] in filtered
  {
    var lo := ResolveIndex(page * ItemsPerPage - ItemsPerPage, |filtered|);
    assert CurrentData(filtered, page)[i] == filtered[lo + i];
  }

  /** Submitting a filled-in add form resets the page to 1 and hides the banner. */
  lemma AddSubmittedResetsPage(s: State)
    requires s.form.title != "" && s.form.author != ""
    ensures Step(s, AddSubmitted).currentPage == 1
    ensures Render(Step(s, AddSubmitted)).banner.None?
  {
    assert Step(s, AddSubmitted) == Submit(s);
  }

  /** A failed add or update shows a non-empty banner: the error's own message, or the default. */
  lemma FailureShowsBanner(s: State, m: Option<string>)
    ensures Render(Step(s, AddFailed(m))).banner == Some(ErrorMessage(m))
    ensures Render(Step(s, UpdateFailed(m))).banner == Some(ErrorMessage(m))
    ensures m.Some? && m.value != "" ==> Render(Step(s, AddFailed(m))).banner == Some(m.value)
  {
    var ra, ru := Step(s, AddFailed(m)), Step(s, UpdateFailed(m));
    assert ra == s.(form := FormStep(s.form, AddFailed(m)));
    assert ru == s.(form := FormStep(s.form, UpdateFailed(m)));
    assert ra.form.addError == ErrorMessage(m) && ru.form.addError == ErrorMessage(m);
  }

  /** On a non-empty list, a page inside `1..totalPages` stays inside it whatever the pager does. */
  lemma PagerKeepsPageInRange(s: State, a: Action)
    requires a.PrevClicked? || a.NextClicked? || a.PageClicked?
    requires PageCount(s) >= 1 && 1 <= s.currentPage <= PageCount(s)
    ensures 1 <= Step(s, a).currentPage <= PageCount(Step(s, a))
  {
    var r := Step(s, a);
    assert r.books == s.books && r.searchQuery == s.searchQuery;
    assert PageCount(r) == PageCount(s);
  }

  /** Keyboard activation of Previous on page 1 is not stopped by the `disabled` class:
      it opens page 0, which shows nothing and has Previous enabled again; a second press
      opens page -1, whose negative slice bounds show eight rows counted from the end. */
  lemma KeyboardPrevLeavesRange(s: State)
    requires s.currentPage == 1 && |Filtered(s)| >= 2 * ItemsPerPage
    ensures Render(s).prevDisabled
    ensures var r1 := Step(s, PrevKeyPressed);
      && r1.currentPage == 0 && Render(r1).currentData == [] && !Render(r1).prevDisabled
    ensures var r2 := Step(Step(s, PrevKeyPressed), PrevKeyPressed);
      var f, n := Filtered(s), |Filtered(s)|;
      && r2.currentPage == -1 && Render(r2).currentData == f[n - 2 * ItemsPerPage..n - ItemsPerPage]
  {
    var r1 := Step(s, PrevKeyPressed);
    var r2 := Step(r1, PrevKeyPressed);
    assert Filtered(r1) == Filtered(s) && Filtered(r2) == Filtered(s);
    PagesBelowOne(Filtered(s), -1);
  }

  /** With no matching rows, keyboard activation of Previous on page 1 opens page 0,
      where Next is disabled (`0 === totalPages`) and Previous is enabled. */
  lemma KeyboardPrevOnEmptyList(s: State)
    requires |Filtered(s)| == 0 && s.currentPage == 1
    ensures var r := Step(s, PrevKeyPressed);
      && r.currentPage == 0 && PageCount(r) == 0
      && Render(r).nextDisabled && !Render(r).prevDisabled && Render(r).currentData == []
  {
    var r := Step(s, PrevKeyPressed);
    assert r == s.(currentPage := 0);
    assert Filtered(r) == Filtered(s);
  }

  /** Keyboard activation of Next on the last page opens the page after it, which shows nothing. */
  lemma KeyboardNextLeavesRange(s: State)
    requires PageCount(s) >= 1 && s.currentPage == PageCount(s)
    ensures Render(s).nextDisabled
    ensures var r := Step(s, NextKeyPressed);
      && r.currentPage == PageCount(r) + 1 && Render(r).currentData == []
  {
    var r := Step(s, NextKeyPressed);
    assert Filtered(r) == Filtered(s);
  }

  /** With no matching rows Next stays enabled on page 1, so the pager can reach page 2
      although there are no pages at all. */
  lemma EmptyListNextLeavesRange(s: State)
    requires |Filtered(s)| == 0 && s.currentPage == 1
    ensures PageCount(s) == 0
    ensures !Render(s).nextDisabled
    ensures Step(s, NextClicked).currentPage == 2
    ensures Step(s, NextClicked).currentPage > PageCount(Step(s, NextClicked))
  {
    EmptyListLeavesNextEnabled();
    var r := Step(s, NextClicked);
    assert r == s.(currentPage := AfterNext(1, 0));
    assert Filtered(r) == Filtered(s);
  }

  /** A delete notification does not move the page: with nine rows on two pages and the
      second page open, deleting another row leaves the page beyond `totalPages`,
      showing no rows, with Next still enabled. */
  lemma DeleteStrandsLastPage(s: State, x: Book, t: Timestamp)
    requires s.searchQuery == "" && s.currentPage == 2
    requires |s.books| == 9 && s.books[0] == x
    requires forall i :: 1 <= i < 9 ==> s.books[i].id != x.id
    ensures PageCount(s) == 2 && |Render(s).currentData| == 1
    ensures var r := Step(s, Notified(Delivery(Deleted, Some(x), t)));
      && PageCount(r) == 1 && r.currentPage == 2
      && Render(r).currentData == [] && !Render(r).nextDisabled
  {
    var r := Step(s, Notified(Delivery(Deleted, Some(x), t)));
    var rest := s.books[1..];
    assert r.books == RemoveId(s.books, x.id);
    assert RemoveId(s.books, x.id) == RemoveId(rest, x.id);
    DeleteAbsentId(rest, x.id);
    assert Filtered(r) == rest;
  }

  /** Ids are not kept unique: an added notification for an id already listed shows it twice. */
  lemma DuplicateAddShowsTwice(s: State, b: Book, t: Timestamp)
    requires CountId(s.books, b.id) == 1
    ensures CountId(Step(s, Notified(Delivery(Added, Some(b), t))).books, b.id) == 2
  {
    AddKeepsDuplicates(s.books, b);
  }

  /** A confirmed delete races its own notification against the refetch it starts; if the
      refetched list no longer has the id, both arrival orders end with that list. */
  lemma DeleteRaceConverges(s: State, b: Book, t: Timestamp, list: seq<Book>)
    requires forall i :: 0 <= i < |list| ==> list[i].id != b.id
    ensures var notifyFirst := Step(Step(s, Notified(Delivery(Deleted, Some(b), t))), DataChanged(Some(list)));
      var fetchFirst := Step(Step(s, DataChanged(Some(list))), Notified(Delivery(Deleted, Some(b), t)));
      notifyFirst.books == list && fetchFirst.books == list
  {
    var deleted := Notified(Delivery(Deleted, Some(b), t));
    var s1 := Step(s, deleted);
    assert Step(s1, DataChanged(Some(list))) == s1.(books := OnData(s1.books, Some(list)));
    var s2 := Step(s, DataChanged(Some(list)));
    assert s2 == s.(books := OnData(s.books, Some(list)));
    assert s2.books == list;
    assert Step(s2, deleted) == Notify(s2, deleted.d);
    DeleteAbsentId(list, b.id);
  }

  /** First load of one book, then an added notification for a second: the list holds
      the new book in front of the old one and the log holds one added event. */
  lemma FetchThenAddScenario(t: Timestamp)
    ensures var one := Book("1", "A", "X");
      var two := Book("2", "B", "Y");
      var r := Run(Initial, [DataChanged(Some([one])), Notified(Delivery(Added, Some(two), t))]);
      r.books == [two, one] && r.hook.bookEvents == [BookEvent(Added, two, t)]
  {
    var one := Book("1", "A", "X");
    var two := Book("2", "B", "Y");
    var first, second := DataChanged(Some([one])), Notified(Delivery(Added, Some(two), t));
    var acts := [first, second];
    assert acts[..1] == [first];
    assert [first][..0] == [];
    var loaded := Run(Initial, [first]);
    assert Run(Initial, []) == Initial;
    assert loaded == Step(Run(Initial, []), first);
    assert loaded.books == [one] && loaded.hook == Mounted;
    assert Run(Initial, acts) == Step(loaded, second);
    assert Step(loaded, second).hook.bookEvents == [BookEvent(Added, two, t)] + [];
  }
}
