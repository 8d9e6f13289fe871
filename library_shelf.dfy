/** The store-facing logic of the library shelf
    (src/organisms/LibraryShelf.tsx): its toggle handler, its remove button and
    the three-way look of the toggle. */
module LibraryShelf {
  import opened Books
  import opened ReadingLists
  import opened ReadingListStore

  /** The toggle button runs remove-then-add in sequence; the result is the
      store's `toggleStatus` on every state. */
  method ToggleClick(store: Store, book: Book)
    modifies store
    ensures store.Partialize() == ToggleStatus(old(store.Partialize()), book)
    ensures Valid(old(store.Partialize())) ==> Valid(store.Partialize())
  {
    ghost var before := store.Partialize();
    if store.IsInToRead(book.id) {
      store.RemoveFromToRead(book.id);
      store.AddToAlreadyRead(book);
    } else if store.IsInAlreadyRead(book.id) {
      store.RemoveFromAlreadyRead(book.id);
      store.AddToToRead(book);
    } else {
      store.AddToToRead(book);
    }
    if Valid(before) {
      ToggleStatusKeepsValid(before, book);
    }
  }

  /** The remove button only hands the click to an `onRemove` prop; without
      one it does nothing. It never touches the store itself. */
  method RemoveClick(store: Store, book: Book, hasHandler: bool) returns (delegated: bool)
    ensures delegated == hasHandler
  {
    delegated := hasHandler;
  }

  /** The colour and icon of the toggle: one of three, by where the book is. */
  datatype ToggleLook = GreenBookOpen | GrayPlus | DarkGrayBookOpen

  function ToggleLookOf(s: Lists, id: int): (r: ToggleLook)
    ensures r == GreenBookOpen <==> PlaceOf(s, id) in {InToRead, InBoth}
    ensures r == GrayPlus <==> PlaceOf(s, id) == InAlreadyRead
    ensures r == DarkGrayBookOpen <==> PlaceOf(s, id) == Absent
  {
    if HasId(s.toRead, id) then GreenBookOpen
    else if HasId(s.alreadyRead, id) then GrayPlus
    else DarkGrayBookOpen
  }
}
