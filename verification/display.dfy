/** What the book list page derives from its state on each render: the search filter,
    the page slice, the page count, the pager's disabled controls and the live-events panel. */
module Display {
  import opened Catalog
  import opened Sequences
  import opened Text

  /** Rows per table page. */
  const ItemsPerPage: nat := 8

  /** Events shown in the live-events panel. */
  const LiveEventsShown: nat := 5

  /** The search test: the lower-cased query occurs in the lower-cased title or in the
      lower-cased author. An empty query matches every book, and a match needs a title
      or an author at least as long as the query. */
  function Matches(b: Book, query: string): (r: bool)
    ensures query == "" ==> r
    ensures r ==> |query| <= |b.title| || |query| <= |b.author|
  {
    Includes(Lower(b.title), Lower(query)) || Includes(Lower(b.author), Lower(query))
  }

  function MatchesQuery(query: string): Book -> bool
  {
    (b: Book) => Matches(b, query)
  }

  /** `filtereddata`: the books that match the query, in list order. Nothing that
      matches is dropped, nothing that does not is kept, and an empty query keeps all. */
  function FilterBooks(books: seq<Book>, query: string): (r: seq<Book>)
    ensures IsSubsequence(r, books)
    ensures forall i :: 0 <= i < |r| ==> Matches(r[i], query)
    ensures forall b :: multiset(r)[b] == if Matches(b, query) then multiset(books)[b] else 0
    ensures query == "" ==> r == books
  {
    KeepIsSubsequence(books, MatchesQuery(query));
    assert forall b :: multiset(Keep(books, MatchesQuery(query)))[b] == if Matches(b, query) then multiset(books)[b] else 0 by {
      forall b {
        KeepCounts(books, MatchesQuery(query), b);
      }
    }
    assert query == "" ==> Keep(books, MatchesQuery(query)) == books by {
      if query == "" {
        KeepEverything(books, MatchesQuery(query));
      }
    }
    Keep(books, MatchesQuery(query))
  }

  /** The search matches a book exactly when the lower-cased query occurs at some
      position of its lower-cased title or of its lower-cased author. */
  lemma MatchesIffOccurs(b: Book, query: string)
    ensures Matches(b, query) <==>
      (exists i :: OccursAt(Lower(b.title), Lower(query), i)) || (exists i :: OccursAt(Lower(b.author), Lower(query), i))
  {
    IncludesIffOccurs(Lower(b.title), Lower(query));
    IncludesIffOccurs(Lower(b.author), Lower(query));
  }

  /** The search ignores letter case: queries that lower-case alike filter alike. */
  lemma FilterIgnoresCase(books: seq<Book>, q1: string, q2: string)
    requires Lower(q1) == Lower(q2)
    ensures FilterBooks(books, q1) == FilterBooks(books, q2)
  {
    KeepAgreeing(books, MatchesQuery(q1), MatchesQuery(q2));
  }

  /** Lower-casing the query first makes no difference to the result. */
  lemma QueryCaseIrrelevant(books: seq<Book>, query: string)
    ensures FilterBooks(books, Lower(query)) == FilterBooks(books, query)
  {
    LowerIdempotent(query);
    FilterIgnoresCase(books, Lower(query), query);
  }

  /** Filtering the filtered list again by the same query changes nothing. */
  lemma FilterIdempotent(books: seq<Book>, query: string)
    ensures FilterBooks(FilterBooks(books, query), query) == FilterBooks(books, query)
  {
    KeepIdempotent(books, MatchesQuery(query));
  }

  /** `currentData`: the slice from `(page - 1) * 8` up to `page * 8` of the filtered list.
      Page 0 ends its slice at 0 and shows nothing; a page below 0 has both bounds negative,
      so they count back from the end, the start clamped to 0 on a short list. */
  function CurrentData<T>(filtered: seq<T>, page: int): (r: seq<T>)
    ensures |r| <= ItemsPerPage
    ensures page >= 1 && (page - 1) * ItemsPerPage < |filtered| ==>
      r == filtered[(page - 1) * ItemsPerPage..Min(page * ItemsPerPage, |filtered|)]
    ensures page >= 1 && (page - 1) * ItemsPerPage >= |filtered| ==> r == []
    ensures page == 0 ==> r == []
    ensures page < 0 ==>
      r == filtered[Max(|filtered| + (page - 1) * ItemsPerPage, 0)..Max(|filtered| + page * ItemsPerPage, 0)]
  {
    var indexOfLastItem := page * ItemsPerPage;
    var indexOfFirstItem := indexOfLastItem - ItemsPerPage;
    assert page >= 1 ==> |JsSlice(filtered, indexOfFirstItem, indexOfLastItem)| <= ItemsPerPage by {
      if page >= 1 {
        SliceOfNaturals(filtered, indexOfFirstItem, indexOfLastItem);
      }
    }
    JsSlice(filtered, indexOfFirstItem, indexOfLastItem)
  }

  /** `Math.ceil(count / 8)`: the fewest pages of eight that hold `count` rows. */
  function TotalPages(count: nat): (r: nat)
    ensures r * ItemsPerPage >= count
    ensures r == 0 || (r - 1) * ItemsPerPage < count
  {
    (count + ItemsPerPage - 1) / ItemsPerPage
  }

  /** The Previous control carries `disabled` exactly on page 1. On a page of at least 1
      that is exactly when no earlier page exists; below page 1 it is never disabled. */
  function PrevDisabled(currentPage: int): (r: bool)
    ensures currentPage >= 1 ==> (r <==> currentPage - 1 < 1)
    ensures currentPage < 1 ==> !r
  {
    currentPage == 1
  }

  /** The Next control carries `disabled` exactly when the current page equals the page
      count. Inside `1..totalPages` that is exactly when no later page exists; past the
      last page, or with no pages at all on a page of at least 1, it is not disabled.
      Below page 1 it is disabled only on page 0 with no pages, where `0 === 0`. */
  function NextDisabled(currentPage: int, totalPages: nat): (r: bool)
    ensures 1 <= currentPage <= totalPages ==> (r <==> currentPage + 1 > totalPages)
    ensures currentPage > totalPages ==> !r
    ensures totalPages == 0 && currentPage >= 1 ==> !r
    ensures currentPage < 1 ==> (r <==> currentPage == 0 && totalPages == 0)
  {
    currentPage == totalPages
  }

  /** The Previous button's click: one page back, unless the control is disabled. */
  function AfterPrev(currentPage: int): (r: int)
    ensures currentPage >= 1 ==> r >= 1
    ensures PrevDisabled(currentPage) <==> r == currentPage
    ensures !PrevDisabled(currentPage) ==> r == currentPage - 1
  {
    if PrevDisabled(currentPage) then currentPage else currentPage - 1
  }

  /** The Next button's click: one page forward, unless the control is disabled. On a
      page inside `1..totalPages` it stays inside. */
  function AfterNext(currentPage: int, totalPages: nat): (r: int)
    ensures 1 <= currentPage <= totalPages ==> 1 <= r <= totalPages
    ensures NextDisabled(currentPage, totalPages) <==> r == currentPage
    ensures !NextDisabled(currentPage, totalPages) ==> r == currentPage + 1
    ensures currentPage >= 1 ==> r >= 1
  {
    if NextDisabled(currentPage, totalPages) then currentPage else currentPage + 1
  }

  /** A numbered button's click. Buttons exist only for `1..totalPages`; any other
      number names no button and changes nothing. */
  function AfterPageButton(currentPage: int, n: int, totalPages: nat): (r: int)
    ensures 1 <= n <= totalPages ==> r == n
    ensures !(1 <= n <= totalPages) ==> r == currentPage
  {
    if 1 <= n <= totalPages then n else currentPage
  }

  /** `bookEvents.slice(0, 5)`: the newest five events, or all of them when there are fewer. */
  function LiveEvents(events: seq<BookEvent>): (r: seq<BookEvent>)
    ensures |r| == Min(LiveEventsShown, |events|)
    ensures r == events[..|r|]
  {
    JsSlice(events, 0, LiveEventsShown)
  }

  /** Pages `1..k` of the filtered list, concatenated. */
  function PagesUpTo<T>(filtered: seq<T>, k: nat): seq<T>
  {
    if k == 0 then [] else PagesUpTo(filtered, k - 1) + CurrentData(filtered, k)
  }

  /** The first `k` pages are the first `8 * k` rows. */
  lemma {:induction false} PagesUpToIsPrefix<T>(filtered: seq<T>, k: nat)
    ensures PagesUpTo(filtered, k) == filtered[..Min(k * ItemsPerPage, |filtered|)]
  {
    if k > 0 {
      PagesUpToIsPrefix(filtered, k - 1);
      var lo := Min((k - 1) * ItemsPerPage, |filtered|);
      var hi := Min(k * ItemsPerPage, |filtered|);
      assert filtered[..hi] == filtered[..lo] + filtered[lo..hi];
    }
  }

  /** The pages `1..totalPages` partition the filtered list: concatenated in order they give it back. */
  lemma PagesPartition<T>(filtered: seq<T>)
    ensures PagesUpTo(filtered, TotalPages(|filtered|)) == filtered
  {
    PagesUpToIsPrefix(filtered, TotalPages(|filtered|));
  }

  /** Row `i` of the filtered list is shown on exactly one page, `i / 8 + 1`, at position
      `i % 8`, and that page is one the pager offers: position `j` of page `p >= 1` shows
      row `(p - 1) * 8 + j`, which is `i` only on that page and at that position. */
  lemma PageOfRow<T>(filtered: seq<T>, i: nat)
    requires i < |filtered|
    ensures 1 <= i / ItemsPerPage + 1 <= TotalPages(|filtered|)
    ensures CurrentData(filtered, i / ItemsPerPage + 1)[i % ItemsPerPage] == filtered[i]
    ensures forall p :: 1 <= p && p != i / ItemsPerPage + 1 ==>
      (p - 1) * ItemsPerPage > i || p * ItemsPerPage <= i
    ensures forall p, j :: 1 <= p && 0 <= j < |CurrentData(filtered, p)| ==>
      && CurrentData(filtered, p)[j] == filtered[(p - 1) * ItemsPerPage + j]
      && ((p - 1) * ItemsPerPage + j == i ==> p == i / ItemsPerPage + 1 && j == i % ItemsPerPage)
  {
    forall p, j | 1 <= p && 0 <= j < |CurrentData(filtered, p)|
      ensures CurrentData(filtered, p)[j] == filtered[(p - 1) * ItemsPerPage + j]
      ensures (p - 1) * ItemsPerPage + j == i ==> p == i / ItemsPerPage + 1 && j == i % ItemsPerPage
    {
      PageRow(filtered, p, j);
      if (p - 1) * ItemsPerPage + j == i {
        DivideRow(p - 1, j, i);
      }
    }
  }

  /** Position `j` of page `p >= 1` holds row `(p - 1) * 8 + j`. */
  lemma PageRow<T>(filtered: seq<T>, p: int, j: int)
    requires 1 <= p && 0 <= j < |CurrentData(filtered, p)|
    ensures j < ItemsPerPage && (p - 1) * ItemsPerPage + j < |filtered|
    ensures CurrentData(filtered, p)[j] == filtered[(p - 1) * ItemsPerPage + j]
  {
    assert (p - 1) * ItemsPerPage < |filtered|;
  }

  /** Row `q * 8 + j` with `0 <= j < 8` sits on page index `q` at position `j`. */
  lemma DivideRow(q: int, j: int, i: int)
    requires 0 <= q && 0 <= j < ItemsPerPage && i == q * ItemsPerPage + j
    ensures i / ItemsPerPage == q && i % ItemsPerPage == j
  {
  }

  /** On a non-empty list each of the two controls is enabled exactly when its click
      moves to another page inside `1..totalPages`. */
  lemma PagerDisabledAtEnds(count: nat, page: int)
    requires count > 0 && 1 <= page <= TotalPages(count)
    ensures TotalPages(count) >= 1
    ensures !PrevDisabled(page) <==> 1 <= AfterPrev(page) < page
    ensures !NextDisabled(page, TotalPages(count)) <==> page < AfterNext(page, TotalPages(count)) <= TotalPages(count)
  {
  }

  /** On a list long enough for it, a page `p < 0` shows the eight rows ending `-8 * p`
      rows before the end of the list. */
  lemma PagesBelowOne<T>(filtered: seq<T>, page: int)
    requires page < 0 && |filtered| + (page - 1) * ItemsPerPage >= 0
    ensures CurrentData(filtered, page) ==
      filtered[|filtered| + (page - 1) * ItemsPerPage..|filtered| + page * ItemsPerPage]
  {
    SliceOfNegatives(filtered, (page - 1) * ItemsPerPage, page * ItemsPerPage);
  }

  /** With no rows there are no pages, so Next is not disabled on page 1. */
  lemma EmptyListLeavesNextEnabled()
    ensures TotalPages(0) == 0
    ensures !NextDisabled(1, TotalPages(0))
    ensures forall books: seq<Book> :: |books| == 0 ==> CurrentData(books, 1) == []
  {
  }
}
