/** The store-facing logic of the book detail modal
    (src/components/BookModal.tsx): its "Add to List" button, whose cycle
    differs from `toggleStatus`: an already-read book is removed, not moved
    back. */
module BookModal {
  import opened Books
  import opened ReadingLists
  import opened ReadingListStore

  /** The list button: To Read moves to Already Read, Already Read is removed,
      no list adds to To Read. */
  function ListButton(s: Lists, book: Book): Lists
  {
    if HasId(s.toRead, book.id) then AddToAlreadyRead(RemoveFromToRead(s, book.id), book)
    else if HasId(s.alreadyRead, book.id) then RemoveFromAlreadyRead(s, book.id)
    else AddToToRead(s, book)
  }

  function StepListButton(p: Place): Place
  {
    match p
    case Absent => InToRead
    case InToRead => InAlreadyRead
    case InBoth => InAlreadyRead
    case InAlreadyRead => Absent
  }

  method ListButtonClick(store: Store, book: Book)
    modifies store
    ensures store.Partialize() == ListButton(old(store.Partialize()), book)
  {
    if store.IsInToRead(book.id) {
      store.RemoveFromToRead(book.id);
      store.AddToAlreadyRead(book);
    } else if store.IsInAlreadyRead(book.id) {
      store.RemoveFromAlreadyRead(book.id);
    } else {
      store.AddToToRead(book);
    }
  }

  lemma ListButtonPlace(s: Lists, book: Book, x: int)
    ensures PlaceOf(ListButton(s, book), x) ==
            if x == book.id then StepListButton(PlaceOf(s, x)) else PlaceOf(s, x)
  {
    var s1 := RemoveFromToRead(s, book.id);
    RemoveFromToReadPlace(s, book.id, x);
    AddToAlreadyReadPlace(s1, book, x);
    RemoveFromAlreadyReadPlace(s, book.id, x);
    AddToToReadPlace(s, book, x);
  }

  /** Three presses from Absent visit To Read, Already Read and Absent, and
      the third gives back exactly the state the first started from. */
  lemma ListButtonCycle(s: Lists, book: Book)
    requires PlaceOf(s, book.id) == Absent
    ensures PlaceOf(ListButton(s, book), book.id) == InToRead
    ensures PlaceOf(ListButton(ListButton(s, book), book), book.id) == InAlreadyRead
    ensures ListButton(ListButton(ListButton(s, book), book), book) == s
  {
    var tr := Tagged(book, ToReadStatus);
    var ar := Tagged(book, AlreadyReadStatus);
    var s1 := ListButton(s, book);
    assert s1 == s.(toRead := s.toRead + [tr]);
    assert tr in s1.toRead;
    RemovedAfterAppend(s.toRead, tr);
    var s2 := ListButton(s1, book);
    assert s2 == Lists(s.toRead, s.alreadyRead + [ar]);
    assert ar in s2.alreadyRead;
    RemovedAfterAppend(s.alreadyRead, ar);
    ListButtonPlace(s, book, book.id);
    ListButtonPlace(s1, book, book.id);
  }

  lemma ListButtonKeepsValid(s: Lists, book: Book)
    requires Valid(s)
    ensures Valid(ListButton(s, book))
  {
    RemovedKeepsIdsUnique(s.toRead, book.id);
    RemovedKeepsIdsUnique(s.alreadyRead, book.id);
    AddedKeepsIdsUnique(s.toRead, book, ToReadStatus);
    AddedKeepsIdsUnique(s.alreadyRead, book, AlreadyReadStatus);
    forall x ensures PlaceOf(ListButton(s, book), x) != InBoth {
      ListButtonPlace(s, book, x);
    }
  }

  /** The button's caption and its variant. */
  datatype Caption = InToReadCaption | AlreadyReadCaption | AddToListCaption
  datatype Variant = NetflixSecondary | NetflixAccent

  function CaptionOf(s: Lists, id: int): Caption
  {
    if HasId(s.toRead, id) then InToReadCaption
    else if HasId(s.alreadyRead, id) then AlreadyReadCaption
    else AddToListCaption
  }

  function CaptionText(c: Caption): string
  {
    match c
    case InToReadCaption => "In To Read"
    case AlreadyReadCaption => "Already Read"
    case AddToListCaption => "Add to List"
  }

  function VariantOf(s: Lists, id: int): (v: Variant)
    ensures v == NetflixSecondary <==> InAnyList(s, id)
  {
    if InAnyList(s, id) then NetflixSecondary else NetflixAccent
  }

  /** The caption names the book's place, and agrees with the variant: "Add to
      List" exactly on the accent variant, which is exactly when a press adds. */
  lemma CaptionAgreesWithState(s: Lists, book: Book)
    ensures CaptionOf(s, book.id) == InToReadCaption <==> PlaceOf(s, book.id) in {InToRead, InBoth}
    ensures CaptionOf(s, book.id) == AlreadyReadCaption <==> PlaceOf(s, book.id) == InAlreadyRead
    ensures CaptionOf(s, book.id) == AddToListCaption <==> VariantOf(s, book.id) == NetflixAccent
    ensures CaptionOf(s, book.id) == AddToListCaption <==>
            PlaceOf(ListButton(s, book), book.id) == InToRead
  {
    ListButtonPlace(s, book, book.id);
  }
}
