/** The reading-list store itself (src/hooks/useReadingList.ts): one object
    whose two list fields every mutation replaces with a new list. */
module ReadingListStore {
  import opened Books
  import opened ReadingLists

  class Store {
    var toReadList: seq<Book>
    var alreadyReadList: seq<Book>

    /** A fresh store starts with two empty lists. */
    constructor ()
      ensures Partialize() == Empty
    {
      toReadList := [];
      alreadyReadList := [];
    }

    /** `partialize`: the part of the state that is persisted, which is
        exactly the two lists. */
    function Partialize(): (p: Lists)
      reads this
      ensures p.toRead == toReadList && p.alreadyRead == alreadyReadList
    {
      Lists(toReadList, alreadyReadList)
    }

    /** `isInToRead`: a membership test on the current state. */
    function IsInToRead(id: int): (r: bool)
      reads this
      ensures r <==> PlaceOf(Partialize(), id) in {InToRead, InBoth}
    {
      HasId(toReadList, id)
    }

    /** `isInAlreadyRead` */
    function IsInAlreadyRead(id: int): (r: bool)
      reads this
      ensures r <==> PlaceOf(Partialize(), id) in {InAlreadyRead, InBoth}
    {
      HasId(alreadyReadList, id)
    }

    /** `addToToRead`: append `book`, tagged 'to-read', unless its id is
        already in `toReadList`; `alreadyReadList` is neither read nor changed. */
    method AddToToRead(book: Book)
      modifies this
      ensures HasId(old(toReadList), book.id) ==> toReadList == old(toReadList)
      ensures !HasId(old(toReadList), book.id) ==> toReadList == old(toReadList) + [Tagged(book, ToReadStatus)]
      ensures alreadyReadList == old(alreadyReadList)
      ensures Partialize() == ReadingLists.AddToToRead(old(Partialize()), book)
    {
      toReadList := if HasId(toReadList, book.id) then toReadList
                    else toReadList + [Tagged(book, ToReadStatus)];
    }

    /** `addToAlreadyRead`, the same against `alreadyReadList`. */
    method AddToAlreadyRead(book: Book)
      modifies this
      ensures HasId(old(alreadyReadList), book.id) ==> alreadyReadList == old(alreadyReadList)
      ensures !HasId(old(alreadyReadList), book.id) ==>
                alreadyReadList == old(alreadyReadList) + [Tagged(book, AlreadyReadStatus)]
      ensures toReadList == old(toReadList)
      ensures Partialize() == ReadingLists.AddToAlreadyRead(old(Partialize()), book)
    {
      alreadyReadList := if HasId(alreadyReadList, book.id) then alreadyReadList
                         else alreadyReadList + [Tagged(book, AlreadyReadStatus)];
    }

    /** `removeFromToRead`: drop every entry with `id`, keep the others in order. */
    method RemoveFromToRead(id: int)
      modifies this
      ensures forall b :: b in toReadList <==> b in old(toReadList) && b.id != id
      ensures Seqs.IsSubsequence(toReadList, old(toReadList))
      ensures alreadyReadList == old(alreadyReadList)
      ensures Partialize() == ReadingLists.RemoveFromToRead(old(Partialize()), id)
    {
      toReadList := Removed(toReadList, id);
    }

    /** `removeFromAlreadyRead` */
    method RemoveFromAlreadyRead(id: int)
      modifies this
      ensures forall b :: b in alreadyReadList <==> b in old(alreadyReadList) && b.id != id
      ensures Seqs.IsSubsequence(alreadyReadList, old(alreadyReadList))
      ensures toReadList == old(toReadList)
      ensures Partialize() == ReadingLists.RemoveFromAlreadyRead(old(Partialize()), id)
    {
      alreadyReadList := Removed(alreadyReadList, id);
    }

    /** `toggleStatus`: reads the state once, then installs both new lists. */
    method ToggleStatus(book: Book)
      modifies this
      ensures Partialize() == ReadingLists.ToggleStatus(old(Partialize()), book)
      ensures PlaceOf(Partialize(), book.id) == StepToggle(PlaceOf(old(Partialize()), book.id))
      ensures forall x :: x != book.id ==> PlaceOf(Partialize(), x) == PlaceOf(old(Partialize()), x)
      ensures Valid(old(Partialize())) ==> Valid(Partialize())
    {
      ghost var before := Partialize();
      var toRead, alreadyRead := toReadList, alreadyReadList;
      var isInToRead := HasId(toRead, book.id);
      var isInAlreadyRead := HasId(alreadyRead, book.id);
      if isInToRead {
        toReadList, alreadyReadList := Removed(toRead, book.id),
          if HasId(alreadyRead, book.id) then alreadyRead
          else alreadyRead + [Tagged(book, AlreadyReadStatus)];
      } else if isInAlreadyRead {
        alreadyReadList, toReadList := Removed(alreadyRead, book.id),
          if HasId(toRead, book.id) then toRead
          else toRead + [Tagged(book, ToReadStatus)];
      } else {
        toReadList := toRead + [Tagged(book, ToReadStatus)];
      }
      forall x ensures PlaceOf(Partialize(), x) ==
                       if x == book.id then StepToggle(PlaceOf(before, x)) else PlaceOf(before, x) {
        ToggleStatusPlace(before, book, x);
      }
      if Valid(before) {
        ToggleStatusKeepsValid(before, book);
      }
    }
  }

  /** A worked example: a fresh store, add, toggle, remove. */
  method Scenario(book: Book)
  {
    var store := new Store();
    assert !store.IsInToRead(book.id) && !store.IsInAlreadyRead(book.id);
    store.AddToToRead(book);
    assert store.toReadList == [Tagged(book, ToReadStatus)] && store.alreadyReadList == [];
    store.ToggleStatus(book);
    assert Tagged(book, ToReadStatus) in [Tagged(book, ToReadStatus)];
    assert store.toReadList == [] && store.alreadyReadList == [Tagged(book, AlreadyReadStatus)];
    store.RemoveFromAlreadyRead(book.id);
    assert store.Partialize() == Empty;
  }
}
