/** The Library page (src/pages/Library.tsx): its statistics, its wording,
    and the handlers it gives each of its two shelves. */
module Library {
  import opened Books
  import opened ReadingLists
  import opened ReadingListStore
  import CinemaShelf
  import opened Arith

  function TotalBooks(s: Lists): nat
  {
    |s.toRead| + |s.alreadyRead|
  }

  /** The ids in a list. */
  function IdSet(list: seq<Book>): set<int>
  {
    set b | b in list :: b.id
  }

  lemma {:induction false} UniqueIdsCount(list: seq<Book>)
    requires UniqueIds(list)
    ensures |IdSet(list)| == |list|
  {
    if list != [] {
      var tail := list[1..];
      assert UniqueIds(tail) by {
        forall i, j | 0 <= i < j < |tail| ensures tail[i].id != tail[j].id {
          assert tail[i] == list[i + 1] && tail[j] == list[j + 1];
        }
      }
      UniqueIdsCount(tail);
      assert list == [list[0]] + tail;
      assert IdSet(list) == {list[0].id} + IdSet(tail);
      forall b | b in tail ensures b.id != list[0].id {
        var k :| 0 <= k < |tail| && tail[k] == b;
        assert list[k + 1] == b;
      }
    }
  }

  /** Under the invariant, `totalBooks` is the number of distinct books in the
      library: no book is counted twice. */
  lemma TotalBooksCountsDistinctBooks(s: Lists)
    requires Valid(s)
    ensures TotalBooks(s) == |IdSet(s.toRead) + IdSet(s.alreadyRead)|
  {
    UniqueIdsCount(s.toRead);
    UniqueIdsCount(s.alreadyRead);
    assert IdSet(s.toRead) * IdSet(s.alreadyRead) == {} by {
      forall x | x in IdSet(s.toRead) ensures x !in IdSet(s.alreadyRead) {
        assert PlaceOf(s, x) != InBoth;
      }
    }
  }

  /** `completedPercentage`: the share of books already read, in whole
      percent, rounded half up; 0 for an empty library. */
  function CompletedPercentage(s: Lists): (r: int)
    ensures 0 <= r <= 100
    ensures TotalBooks(s) == 0 ==> r == 0
    ensures |s.alreadyRead| == 0 ==> r == 0
    ensures |s.toRead| == 0 && TotalBooks(s) > 0 ==> r == 100
  {
    var total, read := TotalBooks(s), |s.alreadyRead|;
    if total > 0 then
      RoundedBounds(200 * read + total, 2 * total, read, total);
      (200 * read + total) / (2 * total)
    else 0
  }

  /** The quotient the percentage takes: bounded by 100, 0 with nothing read,
      100 with everything read. */
  lemma RoundedBounds(x: int, d: int, read: nat, total: nat)
    requires total > 0 && read <= total && x == 200 * read + total && d == 2 * total
    ensures 0 <= x / d <= 100
    ensures read == 0 ==> x / d == 0
    ensures read == total ==> x / d == 100
  {
    MulMonotone(read, total, 200);
    QuotientBelow(x, d, 100);
    if read == 0 {
      QuotientBelow(x, d, 0);
    }
    if read == total {
      assert x == d * 100 + total;
      DivModUnique(x, d, 100, total);
    }
  }

  /** "book" for exactly one, "books" otherwise. */
  function Noun(count: nat): (w: string)
    ensures w == "book" <==> count == 1
    ensures w == "books" <==> count != 1
  {
    if count == 1 then "book" else "books"
  }

  /** The empty-library view is shown exactly when both lists are empty; the
      progress panel exactly when there is a book. */
  function ShowsEmptyState(s: Lists): (r: bool)
    ensures r <==> TotalBooks(s) == 0
  {
    !(|s.toRead| > 0 || |s.alreadyRead| > 0)
  }

  function ShowsProgress(s: Lists): (r: bool)
    ensures r <==> !ShowsEmptyState(s)
  {
    TotalBooks(s) > 0
  }

  // ---------------------------------------------------------------------
  // The handlers it passes to each shelf

  datatype Shelf = ToReadShelf | AlreadyReadShelf

  /** `onToggleStatus` of a shelf: the To Read shelf moves its book to Already
      Read, the Already Read shelf moves it back to To Read. */
  function ShelfToggle(shelf: Shelf, s: Lists, book: Book): Lists
  {
    match shelf
    case ToReadShelf => AddToAlreadyRead(RemoveFromToRead(s, book.id), book)
    case AlreadyReadShelf => AddToToRead(RemoveFromAlreadyRead(s, book.id), book)
  }

  /** `onRemove` of a shelf: remove from that shelf's list only. */
  function ShelfRemove(shelf: Shelf, s: Lists, id: int): Lists
  {
    match shelf
    case ToReadShelf => RemoveFromToRead(s, id)
    case AlreadyReadShelf => RemoveFromAlreadyRead(s, id)
  }

  /** A toggle click on a book of a shelf: the shelf hands the click to the
      handler, which then runs remove-then-add. */
  method ToggleClick(store: Store, shelf: Shelf, book: Book)
    modifies store
    ensures store.Partialize() == ShelfToggle(shelf, old(store.Partialize()), book)
  {
    var delegated := CinemaShelf.LibraryToggleClick(store, book, true);
    if delegated {
      match shelf
      case ToReadShelf =>
        store.RemoveFromToRead(book.id);
        store.AddToAlreadyRead(book);
      case AlreadyReadShelf =>
        store.RemoveFromAlreadyRead(book.id);
        store.AddToToRead(book);
    }
  }

  method RemoveClick(store: Store, shelf: Shelf, book: Book)
    modifies store
    ensures store.Partialize() == ShelfRemove(shelf, old(store.Partialize()), book.id)
  {
    var delegated := CinemaShelf.LibraryRemoveClick(store, book, true);
    if delegated {
      match shelf
      case ToReadShelf => store.RemoveFromToRead(book.id);
      case AlreadyReadShelf => store.RemoveFromAlreadyRead(book.id);
    }
  }

  /** The To Read shelf's toggle always lands the book in Already Read only,
      and the Already Read shelf's in To Read only. Other books stay where
      they were. */
  lemma ShelfTogglePlace(shelf: Shelf, s: Lists, book: Book, x: int)
    ensures PlaceOf(ShelfToggle(shelf, s, book), x) ==
            if x != book.id then PlaceOf(s, x)
            else if shelf == ToReadShelf then InAlreadyRead else InToRead
  {
    RemoveFromToReadPlace(s, book.id, x);
    AddToAlreadyReadPlace(RemoveFromToRead(s, book.id), book, x);
    RemoveFromAlreadyReadPlace(s, book.id, x);
    AddToToReadPlace(RemoveFromAlreadyRead(s, book.id), book, x);
  }

  /** On a book in To Read (To Read shelf) or only in Already Read (Already
      Read shelf) the shelf's toggle is the store's `toggleStatus`. A book in
      both lists is shown on the Already Read shelf too, and there the two
      differ: the shelf sends it to To Read, `toggleStatus` to Already Read. */
  lemma ShelfToggleIsToggleStatus(s: Lists, book: Book)
    ensures HasId(s.toRead, book.id) ==> ShelfToggle(ToReadShelf, s, book) == ToggleStatus(s, book)
    ensures PlaceOf(s, book.id) == InAlreadyRead ==>
            ShelfToggle(AlreadyReadShelf, s, book) == ToggleStatus(s, book)
    ensures PlaceOf(s, book.id) == InBoth ==>
            PlaceOf(ShelfToggle(AlreadyReadShelf, s, book), book.id) == InToRead &&
            PlaceOf(ToggleStatus(s, book), book.id) == InAlreadyRead
  {
    ShelfTogglePlace(AlreadyReadShelf, s, book, book.id);
    ToggleStatusPlace(s, book, book.id);
  }

  lemma ShelfToggleKeepsValid(shelf: Shelf, s: Lists, book: Book)
    requires Valid(s)
    ensures Valid(ShelfToggle(shelf, s, book))
  {
    RemovedKeepsIdsUnique(s.toRead, book.id);
    RemovedKeepsIdsUnique(s.alreadyRead, book.id);
    AddedKeepsIdsUnique(s.toRead, book, ToReadStatus);
    AddedKeepsIdsUnique(s.alreadyRead, book, AlreadyReadStatus);
    forall x ensures PlaceOf(ShelfToggle(shelf, s, book), x) != InBoth {
      ShelfTogglePlace(shelf, s, book, x);
    }
  }

  /** Each shelf's remove takes the book out of its own list and leaves the
      other list as it is. */
  lemma ShelfRemoveOwnListOnly(shelf: Shelf, s: Lists, id: int)
    ensures shelf == ToReadShelf ==>
      ShelfRemove(shelf, s, id).alreadyRead == s.alreadyRead && !HasId(ShelfRemove(shelf, s, id).toRead, id)
    ensures shelf == AlreadyReadShelf ==>
      ShelfRemove(shelf, s, id).toRead == s.toRead && !HasId(ShelfRemove(shelf, s, id).alreadyRead, id)
  {
  }
}
