/** The store-facing logic of the horizontally scrolling shelf
    (src/organisms/CinemaShelf.tsx): the click handlers
    of its two button pairs and the label of the library-view toggle. */
module CinemaShelf {
  import opened Books
  import opened ReadingLists
  import opened ReadingListStore

  // ---------------------------------------------------------------------
  // The library view: toggle and remove, each replaced by a prop when given

  /** The toggle button of the library view. With an `onToggleStatus` prop the
      click is handed to it (`delegated`) and the shelf changes nothing itself;
      otherwise the fallback runs remove-then-add, which is exactly the store's
      `toggleStatus`. */
  method LibraryToggleClick(store: Store, book: Book, hasHandler: bool) returns (delegated: bool)
    modifies store
    ensures delegated == hasHandler
    ensures hasHandler ==> store.Partialize() == old(store.Partialize())
    ensures !hasHandler ==> store.Partialize() == ToggleStatus(old(store.Partialize()), book)
  {
    if hasHandler {
      return true;
    }
    delegated := false;
    if store.IsInToRead(book.id) {
      store.RemoveFromToRead(book.id);
      store.AddToAlreadyRead(book);
    } else if store.IsInAlreadyRead(book.id) {
      store.RemoveFromAlreadyRead(book.id);
      store.AddToToRead(book);
    } else {
      store.AddToToRead(book);
    }
  }

  /** The remove fallback: from To Read if the book is there, otherwise from
      Already Read. */
  function FallbackRemove(s: Lists, id: int): Lists
  {
    if HasId(s.toRead, id) then RemoveFromToRead(s, id)
    else if HasId(s.alreadyRead, id) then RemoveFromAlreadyRead(s, id)
    else s
  }

  function StepFallbackRemove(p: Place): Place
  {
    match p
    case InToRead => Absent
    case InAlreadyRead => Absent
    case InBoth => InAlreadyRead
    case Absent => Absent
  }

  /** The remove button of the library view; a given `onRemove` prop replaces
      the fallback. */
  method LibraryRemoveClick(store: Store, book: Book, hasHandler: bool) returns (delegated: bool)
    modifies store
    ensures delegated == hasHandler
    ensures hasHandler ==> store.Partialize() == old(store.Partialize())
    ensures !hasHandler ==> store.Partialize() == FallbackRemove(old(store.Partialize()), book.id)
  {
    if hasHandler {
      return true;
    }
    delegated := false;
    if store.IsInToRead(book.id) {
      store.RemoveFromToRead(book.id);
    } else if store.IsInAlreadyRead(book.id) {
      store.RemoveFromAlreadyRead(book.id);
    }
  }

  lemma FallbackRemovePlace(s: Lists, id: int, x: int)
    ensures PlaceOf(FallbackRemove(s, id), x) ==
            if x == id then StepFallbackRemove(PlaceOf(s, id)) else PlaceOf(s, x)
  {
    RemoveFromToReadPlace(s, id, x);
    RemoveFromAlreadyReadPlace(s, id, x);
  }

  /** The remove fallback takes from one list only: never from both. */
  lemma FallbackRemoveOneList(s: Lists, id: int)
    ensures FallbackRemove(s, id).toRead == s.toRead || FallbackRemove(s, id).alreadyRead == s.alreadyRead
    ensures HasId(s.toRead, id) ==> FallbackRemove(s, id).alreadyRead == s.alreadyRead
    ensures PlaceOf(s, id) != InBoth ==> PlaceOf(FallbackRemove(s, id), id) == Absent
  {
    FallbackRemovePlace(s, id, id);
  }

  lemma FallbackRemoveKeepsValid(s: Lists, id: int)
    requires Valid(s)
    ensures Valid(FallbackRemove(s, id))
  {
    RemovesKeepValid(s, id);
  }

  /** The label of the library-view toggle. */
  datatype ToggleLabel = MoveToAlreadyRead | MoveToToRead | AddToToReadLabel

  function ToggleLabelOf(s: Lists, id: int): ToggleLabel
  {
    if HasId(s.toRead, id) then MoveToAlreadyRead
    else if HasId(s.alreadyRead, id) then MoveToToRead
    else AddToToReadLabel
  }

  /** The `aria-label`/`title` text of the toggle. */
  function ToggleLabelText(tag: ToggleLabel, title: string): string
  {
    match tag
    case MoveToAlreadyRead => "Move " + title + " to Already Read"
    case MoveToToRead => "Move " + title + " to To Read"
    case AddToToReadLabel => "Add " + title + " to To Read"
  }

  /** The label announces what the fallback toggle does: "Move … to Already
      Read" exactly when the book ends in Already Read, "Move … to To Read"
      exactly when it starts there, "Add … to To Read" exactly when it is in
      no list. */
  lemma ToggleLabelDescribesToggle(s: Lists, book: Book)
    ensures ToggleLabelOf(s, book.id) == MoveToAlreadyRead <==>
            PlaceOf(ToggleStatus(s, book), book.id) == InAlreadyRead
    ensures ToggleLabelOf(s, book.id) == MoveToToRead <==> PlaceOf(s, book.id) == InAlreadyRead
    ensures ToggleLabelOf(s, book.id) == AddToToReadLabel <==> PlaceOf(s, book.id) == Absent
  {
    ToggleStatusPlace(s, book, book.id);
  }

  // ---------------------------------------------------------------------
  // The regular view: separate To Read and Already Read buttons

  /** The To Read button: out of To Read if it is there; otherwise out of
      Already Read (if there) and into To Read. */
  function ToReadButton(s: Lists, book: Book): Lists
  {
    if HasId(s.toRead, book.id) then RemoveFromToRead(s, book.id)
    else AddToToRead(if HasId(s.alreadyRead, book.id) then RemoveFromAlreadyRead(s, book.id) else s, book)
  }

  /** The Already Read button, symmetric. */
  function AlreadyReadButton(s: Lists, book: Book): Lists
  {
    if HasId(s.alreadyRead, book.id) then RemoveFromAlreadyRead(s, book.id)
    else AddToAlreadyRead(if HasId(s.toRead, book.id) then RemoveFromToRead(s, book.id) else s, book)
  }

  function StepToReadButton(p: Place): Place
  {
    match p
    case InToRead => Absent
    case InBoth => InAlreadyRead
    case InAlreadyRead => InToRead
    case Absent => InToRead
  }

  function StepAlreadyReadButton(p: Place): Place
  {
    match p
    case InAlreadyRead => Absent
    case InBoth => InToRead
    case InToRead => InAlreadyRead
    case Absent => InAlreadyRead
  }

  method ToReadButtonClick(store: Store, book: Book)
    modifies store
    ensures store.Partialize() == ToReadButton(old(store.Partialize()), book)
  {
    if store.IsInToRead(book.id) {
      store.RemoveFromToRead(book.id);
    } else {
      if store.IsInAlreadyRead(book.id) {
        store.RemoveFromAlreadyRead(book.id);
      }
      store.AddToToRead(book);
    }
  }

  method AlreadyReadButtonClick(store: Store, book: Book)
    modifies store
    ensures store.Partialize() == AlreadyReadButton(old(store.Partialize()), book)
  {
    if store.IsInAlreadyRead(book.id) {
      store.RemoveFromAlreadyRead(book.id);
    } else {
      if store.IsInToRead(book.id) {
        store.RemoveFromToRead(book.id);
      }
      store.AddToAlreadyRead(book);
    }
  }

  lemma ToReadButtonPlace(s: Lists, book: Book, x: int)
    ensures PlaceOf(ToReadButton(s, book), x) ==
            if x == book.id then StepToReadButton(PlaceOf(s, x)) else PlaceOf(s, x)
  {
    var s1 := if HasId(s.alreadyRead, book.id) then RemoveFromAlreadyRead(s, book.id) else s;
    RemoveFromToReadPlace(s, book.id, x);
    RemoveFromAlreadyReadPlace(s, book.id, x);
    AddToToReadPlace(s1, book, x);
  }

  lemma AlreadyReadButtonPlace(s: Lists, book: Book, x: int)
    ensures PlaceOf(AlreadyReadButton(s, book), x) ==
            if x == book.id then StepAlreadyReadButton(PlaceOf(s, x)) else PlaceOf(s, x)
  {
    var s1 := if HasId(s.toRead, book.id) then RemoveFromToRead(s, book.id) else s;
    RemoveFromToReadPlace(s, book.id, x);
    RemoveFromAlreadyReadPlace(s, book.id, x);
    AddToAlreadyReadPlace(s1, book, x);
  }

  /** From Absent, pressing To Read twice gives back the very same state. */
  lemma ToReadButtonTwice(s: Lists, book: Book)
    requires PlaceOf(s, book.id) == Absent
    ensures ToReadButton(ToReadButton(s, book), book) == s
  {
    var t := Tagged(book, ToReadStatus);
    assert ToReadButton(s, book) == s.(toRead := s.toRead + [t]);
    assert t in s.toRead + [t];
    RemovedAfterAppend(s.toRead, t);
  }

  lemma AlreadyReadButtonTwice(s: Lists, book: Book)
    requires PlaceOf(s, book.id) == Absent
    ensures AlreadyReadButton(AlreadyReadButton(s, book), book) == s
  {
    var t := Tagged(book, AlreadyReadStatus);
    assert AlreadyReadButton(s, book) == s.(alreadyRead := s.alreadyRead + [t]);
    assert t in s.alreadyRead + [t];
    RemovedAfterAppend(s.alreadyRead, t);
  }

  /** Both buttons keep ids unique and the lists disjoint; the book ends in
      at most one list. */
  lemma ButtonsKeepValid(s: Lists, book: Book)
    requires Valid(s)
    ensures Valid(ToReadButton(s, book)) && Valid(AlreadyReadButton(s, book))
  {
    RemovedKeepsIdsUnique(s.toRead, book.id);
    RemovedKeepsIdsUnique(s.alreadyRead, book.id);
    AddedKeepsIdsUnique(s.toRead, book, ToReadStatus);
    AddedKeepsIdsUnique(s.alreadyRead, book, AlreadyReadStatus);
    AddedKeepsIdsUnique(Removed(s.toRead, book.id), book, ToReadStatus);
    AddedKeepsIdsUnique(Removed(s.alreadyRead, book.id), book, AlreadyReadStatus);
    forall x ensures PlaceOf(ToReadButton(s, book), x) != InBoth
                  && PlaceOf(AlreadyReadButton(s, book), x) != InBoth {
      ToReadButtonPlace(s, book, x);
      AlreadyReadButtonPlace(s, book, x);
    }
  }

  /** Regular-view button labels: "Remove …" exactly when the click takes the
      book out of that button's list. */
  function ToReadButtonRemoves(s: Lists, id: int): bool
  {
    HasId(s.toRead, id)
  }

  function AlreadyReadButtonRemoves(s: Lists, id: int): bool
  {
    HasId(s.alreadyRead, id)
  }

  function ToReadButtonText(s: Lists, book: Book): string
  {
    if ToReadButtonRemoves(s, book.id) then "Remove " + book.title + " from To Read"
    else "Add " + book.title + " to To Read"
  }

  function AlreadyReadButtonText(s: Lists, book: Book): string
  {
    if AlreadyReadButtonRemoves(s, book.id) then "Remove " + book.title + " from Already Read"
    else "Add " + book.title + " to Already Read"
  }

  lemma ButtonLabelsDescribeClicks(s: Lists, book: Book)
    ensures ToReadButtonRemoves(s, book.id) <==> !HasId(ToReadButton(s, book).toRead, book.id)
    ensures AlreadyReadButtonRemoves(s, book.id) <==> !HasId(AlreadyReadButton(s, book).alreadyRead, book.id)
  {
    ToReadButtonPlace(s, book, book.id);
    AlreadyReadButtonPlace(s, book, book.id);
  }
}
