/** The three effects of the book list page that keep its local `books` array in step
    with the hook's `lastAdded` / `lastDeleted` and with the query's `data`. */
module Reconciler {
  import opened Catalog
  import opened Sequences

  /** The filter callback of the delete effect: keep a book unless its id is `id`. */
  function HasOtherId(id: BookId): Book -> bool
  {
    (b: Book) => b.id != id
  }

  /** How many entries of `books` carry `id`. */
  function CountId(books: seq<Book>, id: BookId): nat
  {
    if |books| == 0 then 0 else (if books[0].id == id then 1 else 0) + CountId(books[1..], id)
  }

  /** Every entry of `books` whose id is `id` removed; the rest kept, in order. */
  function RemoveId(books: seq<Book>, id: BookId): (r: seq<Book>)
    ensures forall i :: 0 <= i < |r| ==> r[i].id != id
    ensures IsSubsequence(r, books)
    ensures forall b :: multiset(r)[b] == if b.id == id then 0 else multiset(books)[b]
  {
    KeepIsSubsequence(books, HasOtherId(id));
    assert forall b :: multiset(Keep(books, HasOtherId(id)))[b] == if b.id == id then 0 else multiset(books)[b] by {
      forall b {
        KeepCounts(books, HasOtherId(id), b);
      }
    }
    Keep(books, HasOtherId(id))
  }

  /** The `lastAdded` effect: a present book goes in front of the list, even when a
      book with the same id is already there. */
  function OnLastAdded(books: seq<Book>, lastAdded: Option<Book>): (r: seq<Book>)
    ensures lastAdded.None? ==> r == books
    ensures lastAdded.Some? ==> |r| == |books| + 1 && r[0] == lastAdded.value && r[1..] == books
  {
    match lastAdded
    case None => books
    case Some(b) => [b] + books
  }

  /** The `lastDeleted` effect: every book with the deleted payload's id goes. */
  function OnLastDeleted(books: seq<Book>, lastDeleted: Option<Book>): (r: seq<Book>)
    ensures lastDeleted.None? ==> r == books
    ensures lastDeleted.Some? ==> forall i :: 0 <= i < |r| ==> r[i].id != lastDeleted.value.id
    ensures lastDeleted.Some? ==> forall b :: multiset(r)[b] == if b.id == lastDeleted.value.id then 0 else multiset(books)[b]
    ensures IsSubsequence(r, books)
  {
    match lastDeleted
    case None => SubsequenceReflexive(books); books
    case Some(b) => RemoveId(books, b.id)
  }

  /** The `data` effect: a fetched list (even an empty one) replaces the local list outright. */
  function OnData(books: seq<Book>, fetched: Option<seq<Book>>): (r: seq<Book>)
    ensures fetched.Some? ==> r == fetched.value
    ensures fetched.None? ==> r == books
  {
    match fetched
    case None => books
    case Some(list) => list
  }

  /** Deleting the same id a second time changes nothing. */
  lemma DeleteIdempotent(books: seq<Book>, id: BookId)
    ensures RemoveId(RemoveId(books, id), id) == RemoveId(books, id)
  {
    KeepIdempotent(books, HasOtherId(id));
  }

  /** Deleting an id nobody has returns the list unchanged. */
  lemma DeleteAbsentId(books: seq<Book>, id: BookId)
    requires forall i :: 0 <= i < |books| ==> books[i].id != id
    ensures RemoveId(books, id) == books
  {
    KeepEverything(books, HasOtherId(id));
  }

  /** A delete undoes every add of the same id that preceded it. */
  lemma DeleteAfterAdd(books: seq<Book>, b: Book)
    ensures RemoveId(OnLastAdded(books, Some(b)), b.id) == RemoveId(books, b.id)
  {
    assert ([b] + books)[1..] == books;
  }

  /** An add of an id already present is not merged: that id then occurs once more than before. */
  lemma AddKeepsDuplicates(books: seq<Book>, b: Book)
    ensures CountId(OnLastAdded(books, Some(b)), b.id) == CountId(books, b.id) + 1
  {
    assert ([b] + books)[1..] == books;
  }
}
