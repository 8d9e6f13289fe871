/** The pure part of the reading-list store (src/hooks/useReadingList.ts):
    the two lists as a value, the list computations each store operation
    performs, and the per-book state machine they implement. */
module ReadingLists {
  import opened Wrappers
  import opened Seqs
  import opened Books

  /** The store's persisted state: the two ordered lists. */
  datatype Lists = Lists(toRead: seq<Book>, alreadyRead: seq<Book>)

  /** The initial state: both lists empty. */
  const Empty := Lists([], [])

  /** `list.some(b => b.id === id)` */
  predicate HasId(list: seq<Book>, id: int)
  {
    exists b :: b in list && b.id == id
  }

  /** No two entries of `list` share an id. */
  predicate UniqueIds(list: seq<Book>)
  {
    forall i, j :: 0 <= i < j < |list| ==> list[i].id != list[j].id
  }

  /** `{ ...book, status }` */
  function Tagged(book: Book, status: Status): Book
  {
    book.(status := Some(status))
  }

  /** The list after the store's guarded append: unchanged when an entry with
      `book.id` is there, otherwise `book`, tagged with `status`, at the end. */
  function Added(list: seq<Book>, book: Book, status: Status): (r: seq<Book>)
    ensures forall x :: HasId(r, x) <==> HasId(list, x) || x == book.id
    ensures forall b :: b in r ==> b in list || b == Tagged(book, status)
  {
    if HasId(list, book.id) then list
    else
      var t := Tagged(book, status);
      assert t in list + [t];
      list + [t]
  }

  /** `list.filter(b => b.id !== id)` */
  function Removed(list: seq<Book>, id: int): (r: seq<Book>)
    ensures forall b :: b in r <==> b in list && b.id != id
    ensures forall x :: HasId(r, x) <==> HasId(list, x) && x != id
    ensures IsSubsequence(r, list)
    ensures forall b: Book :: b.id != id ==> multiset(r)[b] == multiset(list)[b]
  {
    var keep := (b: Book) => b.id != id;
    FilterMultiplicity(list, keep);
    FilterMembership(list, keep);
    FilterIsSubsequence(list, keep);
    Filter(list, keep)
  }

  // ---------------------------------------------------------------------
  // The store operations, as functions of the state

  function AddToToRead(s: Lists, book: Book): Lists
  {
    s.(toRead := Added(s.toRead, book, ToReadStatus))
  }

  function AddToAlreadyRead(s: Lists, book: Book): Lists
  {
    s.(alreadyRead := Added(s.alreadyRead, book, AlreadyReadStatus))
  }

  function RemoveFromToRead(s: Lists, id: int): Lists
  {
    s.(toRead := Removed(s.toRead, id))
  }

  function RemoveFromAlreadyRead(s: Lists, id: int): Lists
  {
    s.(alreadyRead := Removed(s.alreadyRead, id))
  }

  /** `toggleStatus`: both tests are made on one snapshot of the state. */
  function ToggleStatus(s: Lists, book: Book): Lists
  {
    if HasId(s.toRead, book.id) then
      Lists(Removed(s.toRead, book.id), Added(s.alreadyRead, book, AlreadyReadStatus))
    else if HasId(s.alreadyRead, book.id) then
      Lists(Added(s.toRead, book, ToReadStatus), Removed(s.alreadyRead, book.id))
    else
      s.(toRead := s.toRead + [Tagged(book, ToReadStatus)])
  }

  // ---------------------------------------------------------------------
  // Where one book id stands, and the state machine over that

  /** InBoth is not reachable through `toggleStatus` and the removes, but a
      bare add of a book that is in the other list reaches it. */
  datatype Place = Absent | InToRead | InAlreadyRead | InBoth

  function PlaceOf(s: Lists, id: int): Place
  {
    var t, a := HasId(s.toRead, id), HasId(s.alreadyRead, id);
    if t && a then InBoth else if t then InToRead else if a then InAlreadyRead else Absent
  }

  /** In at least one list: the shelf's `isBookInList` and the modal's
      `isInList` both compute this. */
  function InAnyList(s: Lists, id: int): (r: bool)
    ensures r <==> PlaceOf(s, id) != Absent
  {
    HasId(s.toRead, id) || HasId(s.alreadyRead, id)
  }

  function StepAddToRead(p: Place): Place
  {
    match p
    case Absent => InToRead
    case InAlreadyRead => InBoth
    case _ => p
  }

  function StepAddAlreadyRead(p: Place): Place
  {
    match p
    case Absent => InAlreadyRead
    case InToRead => InBoth
    case _ => p
  }

  function StepRemoveToRead(p: Place): Place
  {
    match p
    case InToRead => Absent
    case InBoth => InAlreadyRead
    case _ => p
  }

  function StepRemoveAlreadyRead(p: Place): Place
  {
    match p
    case InAlreadyRead => Absent
    case InBoth => InToRead
    case _ => p
  }

  /** The three-way toggle: Absent and AlreadyRead go to ToRead, ToRead goes
      to AlreadyRead (and so does the unreachable InBoth). */
  function StepToggle(p: Place): Place
  {
    match p
    case Absent => InToRead
    case InToRead => InAlreadyRead
    case InAlreadyRead => InToRead
    case InBoth => InAlreadyRead
  }

  /** Never in both lists. */
  ghost predicate Disjoint(s: Lists)
  {
    forall id :: PlaceOf(s, id) != InBoth
  }

  /** The invariant: ids unique within each list, and the two lists disjoint. */
  ghost predicate Valid(s: Lists)
  {
    UniqueIds(s.toRead) && UniqueIds(s.alreadyRead) && Disjoint(s)
  }

  /** Every entry carries the status tag of the list it is in. */
  ghost predicate TagsConsistent(s: Lists)
  {
    (forall b :: b in s.toRead ==> b.status == Some(ToReadStatus)) &&
    (forall b :: b in s.alreadyRead ==> b.status == Some(AlreadyReadStatus))
  }

  // ---------------------------------------------------------------------
  // Each operation refines its step of the state machine, and leaves every
  // other id where it was.

  lemma AddToToReadPlace(s: Lists, book: Book, x: int)
    ensures PlaceOf(AddToToRead(s, book), x) ==
            if x == book.id then StepAddToRead(PlaceOf(s, x)) else PlaceOf(s, x)
  {
  }

  lemma AddToAlreadyReadPlace(s: Lists, book: Book, x: int)
    ensures PlaceOf(AddToAlreadyRead(s, book), x) ==
            if x == book.id then StepAddAlreadyRead(PlaceOf(s, x)) else PlaceOf(s, x)
  {
  }

  lemma RemoveFromToReadPlace(s: Lists, id: int, x: int)
    ensures PlaceOf(RemoveFromToRead(s, id), x) ==
            if x == id then StepRemoveToRead(PlaceOf(s, x)) else PlaceOf(s, x)
  {
  }

  lemma RemoveFromAlreadyReadPlace(s: Lists, id: int, x: int)
    ensures PlaceOf(RemoveFromAlreadyRead(s, id), x) ==
            if x == id then StepRemoveAlreadyRead(PlaceOf(s, x)) else PlaceOf(s, x)
  {
  }

  lemma ToggleStatusPlace(s: Lists, book: Book, x: int)
    ensures PlaceOf(ToggleStatus(s, book), x) ==
            if x == book.id then StepToggle(PlaceOf(s, x)) else PlaceOf(s, x)
  {
    var t := Tagged(book, ToReadStatus);
    assert t in s.toRead + [t];
    assert forall b :: b in s.toRead + [t] <==> b in s.toRead || b == t;
  }

  // ---------------------------------------------------------------------
  // List-level facts

  lemma {:induction false} FilterKeepsIdsUnique(list: seq<Book>, keep: Book -> bool)
    requires UniqueIds(list)
    ensures UniqueIds(Filter(list, keep))
  {
    if list != [] {
      var tail := list[1..];
      assert UniqueIds(tail) by {
        forall i, j | 0 <= i < j < |tail| ensures tail[i].id != tail[j].id {
          assert tail[i] == list[i + 1] && tail[j] == list[j + 1];
        }
      }
      FilterKeepsIdsUnique(tail, keep);
      FilterMembership(tail, keep);
      var rest := Filter(tail, keep);
      forall b | b in rest ensures b.id != list[0].id {
        var k :| 0 <= k < |tail| && tail[k] == b;
        assert list[k + 1] == b;
      }
      if keep(list[0]) {
        var r := [list[0]] + rest;
        assert Filter(list, keep) == r;
        forall i, j | 0 <= i < j < |r| ensures r[i].id != r[j].id {
          if i == 0 {
            assert r[j] == rest[j - 1] && r[j] in rest;
          } else {
            assert r[i] == rest[i - 1] && r[j] == rest[j - 1];
          }
        }
      } else {
        assert Filter(list, keep) == rest;
      }
    }
  }

  lemma RemovedKeepsIdsUnique(list: seq<Book>, id: int)
    requires UniqueIds(list)
    ensures UniqueIds(Removed(list, id))
  {
    FilterKeepsIdsUnique(list, (b: Book) => b.id != id);
  }

  lemma AddedKeepsIdsUnique(list: seq<Book>, book: Book, status: Status)
    requires UniqueIds(list)
    ensures UniqueIds(Added(list, book, status))
  {
    if !HasId(list, book.id) {
      var r := list + [Tagged(book, status)];
      forall i, j | 0 <= i < j < |r| ensures r[i].id != r[j].id {
        if j == |list| {
          assert r[i] == list[i] && r[i] in list;
        } else {
          assert r[i] == list[i] && r[j] == list[j];
        }
      }
    }
  }

  /** Removing an id that is absent keeps the list as it is. */
  lemma {:induction false} RemovedAbsent(list: seq<Book>, id: int)
    requires !HasId(list, id)
    ensures Removed(list, id) == list
  {
    var keep := (b: Book) => b.id != id;
    forall i | 0 <= i < |list| ensures keep(list[i]) {
      assert list[i] in list;
    }
    FilterKeepsAll(list, keep);
  }

  /** Removing the id of an entry just appended to a list without it gives the list back. */
  lemma {:induction false} RemovedAfterAppend(list: seq<Book>, t: Book)
    requires !HasId(list, t.id)
    ensures Removed(list + [t], t.id) == list
  {
    var keep := (b: Book) => b.id != t.id;
    FilterAppend(list, [t], keep);
    RemovedAbsent(list, t.id);
    assert Filter([t], keep) == [];
  }

  // ---------------------------------------------------------------------
  // Properties of the store operations

  /** `addToToRead` is idempotent: a second call, or a call for an id already
      in `toReadList`, changes nothing. */
  lemma AddToToReadIdempotent(s: Lists, book: Book)
    ensures HasId(s.toRead, book.id) ==> AddToToRead(s, book) == s
    ensures AddToToRead(AddToToRead(s, book), book) == AddToToRead(s, book)
  {
  }

  lemma AddToAlreadyReadIdempotent(s: Lists, book: Book)
    ensures HasId(s.alreadyRead, book.id) ==> AddToAlreadyRead(s, book) == s
    ensures AddToAlreadyRead(AddToAlreadyRead(s, book), book) == AddToAlreadyRead(s, book)
  {
  }

  /** Removing an id that is absent is a no-op; removing twice is removing once. */
  lemma RemoveFromToReadNoop(s: Lists, id: int)
    ensures !HasId(s.toRead, id) ==> RemoveFromToRead(s, id) == s
    ensures RemoveFromToRead(RemoveFromToRead(s, id), id) == RemoveFromToRead(s, id)
  {
    if !HasId(s.toRead, id) {
      RemovedAbsent(s.toRead, id);
    }
    RemovedAbsent(Removed(s.toRead, id), id);
  }

  lemma RemoveFromAlreadyReadNoop(s: Lists, id: int)
    ensures !HasId(s.alreadyRead, id) ==> RemoveFromAlreadyRead(s, id) == s
    ensures RemoveFromAlreadyRead(RemoveFromAlreadyRead(s, id), id) == RemoveFromAlreadyRead(s, id)
  {
    if !HasId(s.alreadyRead, id) {
      RemovedAbsent(s.alreadyRead, id);
    }
    RemovedAbsent(Removed(s.alreadyRead, id), id);
  }

  /** A bare add does not look at the other list: it keeps the lists disjoint
      exactly when the book is not in the other list. */
  lemma AddToToReadDisjoint(s: Lists, book: Book)
    requires Disjoint(s)
    ensures Disjoint(AddToToRead(s, book)) <==> !HasId(s.alreadyRead, book.id)
  {
    if !HasId(s.alreadyRead, book.id) {
      forall x ensures PlaceOf(AddToToRead(s, book), x) != InBoth {
        AddToToReadPlace(s, book, x);
      }
    } else {
      AddToToReadPlace(s, book, book.id);
    }
  }

  lemma AddToAlreadyReadDisjoint(s: Lists, book: Book)
    requires Disjoint(s)
    ensures Disjoint(AddToAlreadyRead(s, book)) <==> !HasId(s.toRead, book.id)
  {
    if !HasId(s.toRead, book.id) {
      forall x ensures PlaceOf(AddToAlreadyRead(s, book), x) != InBoth {
        AddToAlreadyReadPlace(s, book, x);
      }
    } else {
      AddToAlreadyReadPlace(s, book, book.id);
    }
  }

  /** A concrete state that shows it: a book in Already Read, added bare to To Read. */
  lemma BareAddReachesBoth(book: Book)
    ensures Valid(Lists([], [book]))
    ensures PlaceOf(AddToToRead(Lists([], [book]), book), book.id) == InBoth
  {
    var s := Lists([], [book]);
    assert book in s.alreadyRead;
    forall x ensures PlaceOf(s, x) != InBoth {
    }
    AddToToReadPlace(s, book, book.id);
  }

  /** Both removes keep the invariant. */
  lemma RemovesKeepValid(s: Lists, id: int)
    requires Valid(s)
    ensures Valid(RemoveFromToRead(s, id)) && Valid(RemoveFromAlreadyRead(s, id))
  {
    RemovedKeepsIdsUnique(s.toRead, id);
    RemovedKeepsIdsUnique(s.alreadyRead, id);
    forall x ensures PlaceOf(RemoveFromToRead(s, id), x) != InBoth
                  && PlaceOf(RemoveFromAlreadyRead(s, id), x) != InBoth {
      RemoveFromToReadPlace(s, id, x);
      RemoveFromAlreadyReadPlace(s, id, x);
    }
  }

  /** `toggleStatus` keeps ids unique in each list and the lists disjoint. */
  lemma ToggleStatusKeepsValid(s: Lists, book: Book)
    requires Valid(s)
    ensures Valid(ToggleStatus(s, book))
  {
    var r := ToggleStatus(s, book);
    if HasId(s.toRead, book.id) {
      RemovedKeepsIdsUnique(s.toRead, book.id);
      AddedKeepsIdsUnique(s.alreadyRead, book, AlreadyReadStatus);
    } else if HasId(s.alreadyRead, book.id) {
      AddedKeepsIdsUnique(s.toRead, book, ToReadStatus);
      RemovedKeepsIdsUnique(s.alreadyRead, book.id);
    } else {
      assert r.toRead == Added(s.toRead, book, ToReadStatus);
      AddedKeepsIdsUnique(s.toRead, book, ToReadStatus);
    }
    forall x ensures PlaceOf(r, x) != InBoth {
      ToggleStatusPlace(s, book, x);
    }
  }

  /** Whatever the state, `toggleStatus` never leaves its own book in both lists. */
  lemma ToggleStatusNeverBoth(s: Lists, book: Book)
    ensures PlaceOf(ToggleStatus(s, book), book.id) != InBoth
  {
    ToggleStatusPlace(s, book, book.id);
  }

  /** From Absent, three toggles visit ToRead, AlreadyRead and ToRead again. */
  lemma ToggleStatusCycle(s: Lists, book: Book)
    requires PlaceOf(s, book.id) == Absent
    ensures PlaceOf(ToggleStatus(s, book), book.id) == InToRead
    ensures PlaceOf(ToggleStatus(ToggleStatus(s, book), book), book.id) == InAlreadyRead
    ensures PlaceOf(ToggleStatus(ToggleStatus(ToggleStatus(s, book), book), book), book.id) == InToRead
  {
    var s1 := ToggleStatus(s, book);
    var s2 := ToggleStatus(s1, book);
    ToggleStatusPlace(s, book, book.id);
    ToggleStatusPlace(s1, book, book.id);
    ToggleStatusPlace(s2, book, book.id);
  }

  /** Every operation keeps each entry tagged with the status of its list. */
  lemma OperationsKeepTags(s: Lists, book: Book, id: int)
    requires TagsConsistent(s)
    ensures TagsConsistent(AddToToRead(s, book)) && TagsConsistent(AddToAlreadyRead(s, book))
    ensures TagsConsistent(RemoveFromToRead(s, id)) && TagsConsistent(RemoveFromAlreadyRead(s, id))
    ensures TagsConsistent(ToggleStatus(s, book))
  {
    var t := Tagged(book, ToReadStatus);
    assert forall b :: b in s.toRead + [t] ==> b in s.toRead || b == t;
  }
}
