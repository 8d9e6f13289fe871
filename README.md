# Bookflix reading list, in Dafny

This project models the logic of Bookflix, a Netflix-style book browser written in TypeScript and React. Its centre is the **reading-list store** (`useReadingList`). The store holds two ordered lists of books, *To Read* and *Already Read*. Each book id is in one of three places: in no list, in To Read, or in Already Read. The store's two bare adds do not look at the other list, so a fourth place, in both lists, can also be reached. The model states exactly when that happens instead of assuming it away.

Around the store sit the UI handlers that combine store calls:
- the shelf buttons (`CinemaShelf`, `LibraryShelf`);
- the book modal's list button;
- the Library page's per-shelf handlers and statistics.

Smaller cores are modelled as well:
- the featured carousel's index and progress bar;
- the mock catalog API (search with 20-item pages, lookup by id, the two home feeds);
- description truncation to 30 words;
- keyboard-shortcut matching and the application's shortcut table;
- the five-star rating display.

Layout, one module per source file:

- `reading_lists.dfy` (`ReadingLists`) holds the pure model:
  - the state `Lists(toRead, alreadyRead)` and each store operation as a function of it;
  - the per-id state machine `Place` (`Absent | InToRead | InAlreadyRead | InBoth`);
  - lemmas showing that every operation moves its own id by one step of that machine and leaves every other id where it was;
  - the invariant `Valid`: ids unique within each list, and the lists disjoint.
- `reading_list_store.dfy` (`ReadingListStore`) holds the store as a class `Store` with two `seq<Book>` fields. Each mutating method is proved to produce the pure model's next state of `Partialize()`.
- `cinema_shelf.dfy`, `library_shelf.dfy`, `book_modal.dfy` and `library.dfy` hold the UI handlers. Each handler is a method that calls the store's methods in the source's order. It is proved equal to a pure transition, whose properties are lemmas: its step on the state machine, the invariant it keeps, its cycles.
- `featured_carousel.dfy` holds the carousel as a class whose methods are the handlers and the interval callbacks.
- `books_api.dfy`, `expandable_description.dfy`, `use_keyboard_shortcuts.dfy`, `keyboard_shortcuts.dfy` and `star_rating.dfy` model the pure cores. The shortcut dispatch loop is a method with a loop invariant.
- Shared helpers live in four more files:
  - `seqs.dfy`: `filter` and subsequences;
  - `ascii.dfy`: lower-casing;
  - `arith.dfy`: division facts;
  - `wrappers.dfy`: `Option`/`Result`.
- `books.dfy` holds the `Book` record of `src/utils/constants.ts`.

Modelling conventions:
- A React callback prop such as `onToggleStatus` or `onRemove` becomes a flag `hasHandler`. The shelf method returns `delegated`, and its caller (the Library page) then runs its own handler against the same store.
- The catalog `src/data/books` is not part of this model. Every API function takes the catalog as a parameter.

## Model

| member | source | states |
|---|---|---|
| ReadingLists.HasId | src/hooks/useReadingList.ts:25 | `list.some(b => b.id === id)`: some entry carries the id (definition; used by every contract below) |
| ReadingLists.PlaceOf | src/hooks/useReadingList.ts:43-48 | where an id stands: in no list, To Read, Already Read, or both (definition; the state of the per-id machine) |
| ReadingLists.Added | src/hooks/useReadingList.ts:23-34 | the guarded append leaves exactly the old ids plus `book.id`, and every entry is an old entry or the book tagged with the list's status |
| ReadingLists.Removed | src/hooks/useReadingList.ts:35-42 | `filter(b => b.id !== id)` keeps exactly the entries with another id, each as many times as before, so the id is gone and every other id stays; the result is a subsequence of the list (order kept) |
| ReadingLists.AddToToRead | src/hooks/useReadingList.ts:23-28 | the state after `addToToRead` (definition; properties in AddToToReadPlace, AddToToReadIdempotent, AddToToReadDisjoint) |
| ReadingLists.AddToAlreadyRead | src/hooks/useReadingList.ts:29-34 | the state after `addToAlreadyRead` (definition; properties in AddToAlreadyReadPlace, AddToAlreadyReadIdempotent, AddToAlreadyReadDisjoint) |
| ReadingLists.RemoveFromToRead | src/hooks/useReadingList.ts:35-38 | the state after `removeFromToRead` (definition; properties in RemoveFromToReadPlace, RemoveFromToReadNoop, RemovesKeepValid) |
| ReadingLists.RemoveFromAlreadyRead | src/hooks/useReadingList.ts:39-42 | the state after `removeFromAlreadyRead` (definition; properties in RemoveFromAlreadyReadPlace, RemoveFromAlreadyReadNoop, RemovesKeepValid) |
| ReadingLists.ToggleStatus | src/hooks/useReadingList.ts:45-72 | the state after `toggleStatus`, both tests made on one snapshot (definition; properties in ToggleStatusPlace, ToggleStatusKeepsValid, ToggleStatusCycle) |
| ReadingListStore.Store.constructor | src/hooks/useReadingList.ts:21-22 | a new store holds two empty lists |
| ReadingListStore.Store.Partialize | src/hooks/useReadingList.ts:77-80 | the persisted projection consists of exactly the two lists |
| ReadingListStore.Store.IsInToRead | src/hooks/useReadingList.ts:43 | true iff the id's place is To Read (or both) |
| ReadingListStore.Store.IsInAlreadyRead | src/hooks/useReadingList.ts:44 | true iff the id's place is Already Read (or both) |
| ReadingListStore.Store.AddToToRead | src/hooks/useReadingList.ts:23-28 | To Read is unchanged if the id is there, otherwise the book tagged 'to-read' is appended; Already Read is untouched; the new state is the pure model's `AddToToRead` |
| ReadingListStore.Store.AddToAlreadyRead | src/hooks/useReadingList.ts:29-34 | the same for Already Read with tag 'already-read'; To Read is untouched |
| ReadingListStore.Store.RemoveFromToRead | src/hooks/useReadingList.ts:35-38 | the new To Read holds exactly the old entries with another id, in their old order; Already Read is untouched |
| ReadingListStore.Store.RemoveFromAlreadyRead | src/hooks/useReadingList.ts:39-42 | the same for Already Read; To Read is untouched |
| ReadingListStore.Store.ToggleStatus | src/hooks/useReadingList.ts:45-72 | gives the pure `ToggleStatus` of the old state; the book takes one toggle step (Absent or AlreadyRead to ToRead, ToRead to AlreadyRead); every other id keeps its place; the invariant is preserved |
| ReadingLists.AddToToReadPlace | src/hooks/useReadingList.ts:23-28 | the bare add moves its id Absent to ToRead and AlreadyRead to Both, and changes no other id |
| ReadingLists.AddToAlreadyReadPlace | src/hooks/useReadingList.ts:29-34 | symmetric: Absent to AlreadyRead, ToRead to Both; no other id changes |
| ReadingLists.RemoveFromToReadPlace | src/hooks/useReadingList.ts:35-38 | the id leaves To Read (ToRead to Absent, Both to AlreadyRead); no other id changes |
| ReadingLists.RemoveFromAlreadyReadPlace | src/hooks/useReadingList.ts:39-42 | the id leaves Already Read; no other id changes |
| ReadingLists.ToggleStatusPlace | src/hooks/useReadingList.ts:45-72 | the toggled id takes the three-way toggle step and every other id keeps its place |
| ReadingLists.FilterKeepsIdsUnique | src/hooks/useReadingList.ts:37 | filtering a list whose ids are unique leaves ids unique |
| ReadingLists.RemovedKeepsIdsUnique | src/hooks/useReadingList.ts:35-42 | removing keeps ids unique in the list |
| ReadingLists.AddedKeepsIdsUnique | src/hooks/useReadingList.ts:23-34 | the guarded append keeps ids unique in the list |
| ReadingLists.RemovedAbsent | src/hooks/useReadingList.ts:35-42 | removing an id that is not in the list returns the same list |
| ReadingLists.RemovedAfterAppend | src/hooks/useReadingList.ts:23-42 | removing the id of an entry just appended to a list that lacked it restores the list exactly |
| ReadingLists.AddToToReadIdempotent | src/hooks/useReadingList.ts:25-27 | with the id already in To Read the add changes nothing, and adding twice is adding once |
| ReadingLists.AddToAlreadyReadIdempotent | src/hooks/useReadingList.ts:31-33 | the same for Already Read |
| ReadingLists.RemoveFromToReadNoop | src/hooks/useReadingList.ts:35-38 | removing an absent id is a no-op; removing twice is removing once |
| ReadingLists.RemoveFromAlreadyReadNoop | src/hooks/useReadingList.ts:39-42 | the same for Already Read |
| ReadingLists.AddToToReadDisjoint | src/hooks/useReadingList.ts:23-28 | from disjoint lists, the bare add keeps them disjoint if and only if the book is not in Already Read |
| ReadingLists.AddToAlreadyReadDisjoint | src/hooks/useReadingList.ts:29-34 | from disjoint lists, the bare add keeps them disjoint if and only if the book is not in To Read |
| ReadingLists.BareAddReachesBoth | src/hooks/useReadingList.ts:23-28 | a concrete valid state (the book only in Already Read) from which the bare To Read add puts the book in both lists |
| ReadingLists.RemovesKeepValid | src/hooks/useReadingList.ts:35-42 | both removes preserve unique ids and disjointness |
| ReadingLists.ToggleStatusKeepsValid | src/hooks/useReadingList.ts:45-72 | `toggleStatus` preserves unique ids in each list and disjointness |
| ReadingLists.ToggleStatusNeverBoth | src/hooks/useReadingList.ts:45-72 | from any state, even an invalid one, the toggled book never ends in both lists |
| ReadingLists.ToggleStatusCycle | src/hooks/useReadingList.ts:45-72 | from Absent, three toggles visit ToRead, AlreadyRead, ToRead |
| ReadingLists.OperationsKeepTags | src/hooks/useReadingList.ts:23-72 | every operation keeps each entry tagged with the status of the list it is in |
| ReadingLists.InAnyList | src/organisms/CinemaShelf.tsx:44-46 | `isBookInList` (and the modal's identical `isInList`, src/components/BookModal.tsx:25) is true iff the id is in at least one list |
| CinemaShelf.LibraryToggleClick | src/organisms/CinemaShelf.tsx:155-175 | with an `onToggleStatus` prop the click is delegated and the shelf leaves the store unchanged; otherwise the remove-then-add fallback yields exactly the store's `toggleStatus` |
| CinemaShelf.LibraryRemoveClick | src/organisms/CinemaShelf.tsx:200-213 | with an `onRemove` prop the click is delegated and the store is unchanged; otherwise the store takes the remove fallback |
| CinemaShelf.FallbackRemove | src/organisms/CinemaShelf.tsx:207-211 | the remove fallback: from To Read if there, else from Already Read (definition; properties in FallbackRemovePlace, FallbackRemoveOneList) |
| CinemaShelf.FallbackRemovePlace | src/organisms/CinemaShelf.tsx:207-211 | the remove fallback sends ToRead and AlreadyRead to Absent (Both to AlreadyRead) and leaves other ids alone |
| CinemaShelf.FallbackRemoveOneList | src/organisms/CinemaShelf.tsx:207-211 | the fallback changes at most one list, Already Read not at all when the book is in To Read, and leaves a not-in-both book in no list |
| CinemaShelf.FallbackRemoveKeepsValid | src/organisms/CinemaShelf.tsx:207-211 | the remove fallback preserves the invariant |
| CinemaShelf.ToggleLabelOf | src/organisms/CinemaShelf.tsx:183-188 | which of the three toggle labels is shown (definition; property in ToggleLabelDescribesToggle) |
| CinemaShelf.ToggleLabelText | src/organisms/CinemaShelf.tsx:183-188 | the label text for a tag and a title (definition) |
| CinemaShelf.ToggleLabelDescribesToggle | src/organisms/CinemaShelf.tsx:183-188 | "Move … to Already Read" iff the toggle lands the book in Already Read; "Move … to To Read" iff it starts in Already Read; "Add … to To Read" iff it is in no list |
| CinemaShelf.ToReadButton | src/organisms/CinemaShelf.tsx:228-236 | the state after the To Read button (definition; properties in ToReadButtonPlace, ToReadButtonTwice) |
| CinemaShelf.AlreadyReadButton | src/organisms/CinemaShelf.tsx:256-264 | the state after the Already Read button (definition; properties in AlreadyReadButtonPlace, AlreadyReadButtonTwice) |
| CinemaShelf.ToReadButtonClick | src/organisms/CinemaShelf.tsx:225-237 | the To Read button's store calls give the pure `ToReadButton` transition |
| CinemaShelf.AlreadyReadButtonClick | src/organisms/CinemaShelf.tsx:253-265 | the Already Read button's store calls give the pure `AlreadyReadButton` transition |
| CinemaShelf.ToReadButtonPlace | src/organisms/CinemaShelf.tsx:228-236 | To Read button: a book in To Read (alone, or also in Already Read) is removed from To Read, so ToRead goes to Absent and Both to AlreadyRead; Absent or AlreadyRead goes to ToRead only; other ids unchanged |
| CinemaShelf.AlreadyReadButtonPlace | src/organisms/CinemaShelf.tsx:256-264 | Already Read button: a book in Already Read (alone, or also in To Read) is removed from Already Read, so AlreadyRead goes to Absent and Both to ToRead; Absent or ToRead goes to AlreadyRead only; other ids unchanged |
| CinemaShelf.ToReadButtonTwice | src/organisms/CinemaShelf.tsx:228-236 | from Absent, two presses of To Read give back exactly the original state |
| CinemaShelf.AlreadyReadButtonTwice | src/organisms/CinemaShelf.tsx:256-264 | from Absent, two presses of Already Read give back exactly the original state |
| CinemaShelf.ButtonsKeepValid | src/organisms/CinemaShelf.tsx:225-265 | both regular-view buttons keep ids unique and the lists disjoint |
| CinemaShelf.ToReadButtonText | src/organisms/CinemaShelf.tsx:243-244 | "Remove … from To Read" or "Add … to To Read" (definition; property in ButtonLabelsDescribeClicks) |
| CinemaShelf.AlreadyReadButtonText | src/organisms/CinemaShelf.tsx:271-272 | "Remove … from Already Read" or "Add … to Already Read" (definition; property in ButtonLabelsDescribeClicks) |
| CinemaShelf.ButtonLabelsDescribeClicks | src/organisms/CinemaShelf.tsx:243-272 | a button reads "Remove …" iff the click leaves the book out of that button's list |
| LibraryShelf.ToggleClick | src/organisms/LibraryShelf.tsx:115-130 | the remove-then-add sequence equals the store's `toggleStatus` on every state and preserves the invariant |
| LibraryShelf.RemoveClick | src/organisms/LibraryShelf.tsx:150-155 | the click is handed to `onRemove` exactly when one is given; the shelf never touches the store itself |
| LibraryShelf.ToggleLookOf | src/organisms/LibraryShelf.tsx:131-144 | exactly one of three looks: green/book for To Read, gray/plus for Already Read only, dark gray/book for no list |
| BookModal.ListButton | src/components/BookModal.tsx:130-137 | the state after the modal's list button (definition; properties in ListButtonPlace, ListButtonCycle, ListButtonKeepsValid) |
| BookModal.ListButtonClick | src/components/BookModal.tsx:126-138 | the handler's store calls give the pure `ListButton` transition |
| BookModal.ListButtonPlace | src/components/BookModal.tsx:130-137 | ToRead to AlreadyRead, AlreadyRead to Absent (removed, not moved back), Absent to ToRead; other ids unchanged |
| BookModal.ListButtonCycle | src/components/BookModal.tsx:130-137 | three presses from Absent visit ToRead, AlreadyRead, and return the exact starting state |
| BookModal.ListButtonKeepsValid | src/components/BookModal.tsx:130-137 | the handler keeps ids unique and the lists disjoint |
| BookModal.CaptionOf | src/components/BookModal.tsx:148-160 | which of the three captions is shown (definition; property in CaptionAgreesWithState) |
| BookModal.CaptionText | src/components/BookModal.tsx:148-160 | "In To Read", "Already Read" or "Add to List" (definition) |
| BookModal.VariantOf | src/components/BookModal.tsx:139 | the variant is `netflixSecondary` iff the book is in a list |
| BookModal.CaptionAgreesWithState | src/components/BookModal.tsx:139-160 | "In To Read" iff in To Read, "Already Read" iff only in Already Read, "Add to List" iff the accent variant iff a press adds to To Read |
| Library.TotalBooks | src/pages/Library.tsx:22 | `totalBooks`, the sum of the two list lengths (definition; property in TotalBooksCountsDistinctBooks) |
| Library.TotalBooksCountsDistinctBooks | src/pages/Library.tsx:22 | under the invariant, `totalBooks` equals the number of distinct book ids in the library |
| Library.CompletedPercentage | src/pages/Library.tsx:23-26 | lies in 0..100; 0 with no books or nothing read; 100 when To Read is empty and there is a book |
| Library.Noun | src/pages/Library.tsx:36 | "book" iff the count is 1, "books" otherwise (also lines 72 and 98) |
| Library.ShowsEmptyState | src/pages/Library.tsx:61 | the empty view is shown iff both lists are empty |
| Library.ShowsProgress | src/pages/Library.tsx:42 | the progress panel shows iff the empty view does not |
| Library.ShelfToggle | src/pages/Library.tsx:78-108 | each shelf's `onToggleStatus`: remove from its list, add to the other (definition; properties in ShelfTogglePlace, ShelfToggleKeepsValid) |
| Library.ShelfRemove | src/pages/Library.tsx:83-109 | each shelf's `onRemove` (definition; property in ShelfRemoveOwnListOnly) |
| Library.ToggleClick | src/pages/Library.tsx:75-111 | delegating through the shelf, the To Read shelf's handler gives remove-from-To-Read then add-to-Already-Read, the Already Read shelf's the reverse |
| Library.RemoveClick | src/pages/Library.tsx:83-109 | delegating through the shelf, each shelf's remove takes from its own list |
| Library.ShelfTogglePlace | src/pages/Library.tsx:78-108 | the To Read shelf's toggle always lands the book in Already Read only, the Already Read shelf's in To Read only; other ids unchanged |
| Library.ShelfToggleIsToggleStatus | src/pages/Library.tsx:78-108 | on a book in To Read (To Read shelf), or only in Already Read (Already Read shelf), the shelf's toggle is the store's `toggleStatus`; a book in both lists, shown on the Already Read shelf, goes to To Read there while `toggleStatus` sends it to Already Read |
| Library.ShelfToggleKeepsValid | src/pages/Library.tsx:78-108 | both shelf toggles preserve the invariant |
| Library.ShelfRemoveOwnListOnly | src/pages/Library.tsx:83-109 | each shelf's remove takes the book out of its own list and leaves the other list unchanged |
| FeaturedCarousel.NextIndex | src/components/FeaturedCarousel.tsx:64-67 | the next index lies in 0..n-1 |
| FeaturedCarousel.PrevIndex | src/components/FeaturedCarousel.tsx:69-74 | the previous index (wrapping to n-1 at 0) lies in 0..n-1 |
| FeaturedCarousel.PrevNextInverse | src/components/FeaturedCarousel.tsx:64-74 | prev after next and next after prev both give back the index |
| FeaturedCarousel.NextTimesShifts | src/components/FeaturedCarousel.tsx:64-67 | k advances from i reach (i+k) mod n |
| FeaturedCarousel.NextFullCircle | src/components/FeaturedCarousel.tsx:64-67 | n advances return to the starting index |
| FeaturedCarousel.Carousel.constructor | src/components/FeaturedCarousel.tsx:13-14 | starts at index 0 with progress 0 |
| FeaturedCarousel.Carousel.Next | src/components/FeaturedCarousel.tsx:64-67 | index becomes the next index, progress resets to 0, the state stays in range |
| FeaturedCarousel.Carousel.Prev | src/components/FeaturedCarousel.tsx:69-74 | index becomes the previous index, progress resets to 0 |
| FeaturedCarousel.Carousel.DotClick | src/components/FeaturedCarousel.tsx:98-101 | index becomes the clicked dot, progress resets to 0 |
| FeaturedCarousel.Carousel.AutoAdvance | src/components/FeaturedCarousel.tsx:20-48 | the rotation advances the index; progress resets exactly when the index changed |
| FeaturedCarousel.Carousel.ProgressTick | src/components/FeaturedCarousel.tsx:30-37 | the bar's percentage `Progress()` goes up by 0.5, or back to 0 once at 100; the index is untouched |
| FeaturedCarousel.Carousel.KeyDown | src/components/FeaturedCarousel.tsx:51-78 | one handling of a keydown: ArrowLeft goes back, ArrowRight forward, and either resets progress to 0; other keys change neither index nor progress |
| FeaturedCarousel.Carousel.FocusedKeyDown | src/components/FeaturedCarousel.tsx:104-113 | a keydown on the focused carousel as written: the element handler and the window listener both move the index, so one arrow moves two slides and resets progress; other keys change neither index nor progress |
| FeaturedCarousel.Carousel.Dots | src/components/FeaturedCarousel.tsx:191-197 | one dot per book, exactly the current one highlighted |
| FeaturedCarousel.FocusedArrowSkipsSlide | src/components/FeaturedCarousel.tsx:107-113 | with three or more books, one focused ArrowRight from slide 0 lands on slide 2 instead of slide 1 |
| Ascii.Lower | src/services/api/books.ts:33-37 | `toLowerCase` on ASCII letters, length kept (also used for shortcut keys) |
| BooksApi.Contains | src/services/api/books.ts:35-37 | `includes`: the needle occurs at some offset (definition) |
| BooksApi.Matches | src/services/api/books.ts:33-37 | the search predicate on title, author, genre (definition; property in ResultsAreMatches) |
| BooksApi.Results | src/services/api/books.ts:34-38 | the filtered catalog (definition; properties in ResultsAreMatches, EmptyQueryMatchesAll) |
| BooksApi.Slice | src/services/api/books.ts:41 | `slice(start, end)` for 0 <= start <= end, clipped to the length (definition) |
| BooksApi.ResultsAreMatches | src/services/api/books.ts:33-38 | a book is a result iff it is in the catalog and the lowercased query occurs in its lowercased title, author or genre; catalog order is kept |
| BooksApi.EmptyQueryMatchesAll | src/services/api/books.ts:33-38 | the empty query returns the whole catalog |
| BooksApi.SearchBooks | src/services/api/books.ts:27-47 | a page holds at most 20 books, all of them matches, and a full page whenever more follow |
| BooksApi.SearchPageIsWindow | src/services/api/books.ts:39-44 | page p is the results from (p-1)*20 up to min(p*20, length), empty past the end; `hasMore` iff p*20 is below the result count |
| BooksApi.PagesFromAreTheRest | src/services/api/books.ts:39-44 | reading pages from p while `hasMore` yields every result from (p-1)*20 on, in order |
| BooksApi.AllPagesAreAllResults | src/services/api/books.ts:39-44 | paging from 1 until `hasMore` is false yields every result exactly once, in order |
| BooksApi.FindBook | src/services/api/books.ts:18 | finds the first catalog entry with the id, and nothing iff no entry has it |
| BooksApi.FetchBook | src/services/api/books.ts:15-25 | resolves to the first catalog book with the parsed id (the one `FindBook` finds), or rejects with "Book not found" iff the id is NaN or no entry has it |
| BooksApi.FetchBookFindsEachBook | src/services/api/books.ts:18-20 | with unique ids, fetching a catalog book's id returns that book |
| BooksApi.FetchTrending | src/services/api/books.ts:5-8 | `slice(0, 6)` of the catalog (definition; property in FeedsSplitCatalog) |
| BooksApi.FetchNewNoteworthy | src/services/api/books.ts:10-13 | `slice(6, 12)` of the catalog (definition; property in FeedsSplitCatalog) |
| BooksApi.FeedsSplitCatalog | src/services/api/books.ts:5-13 | Trending is the first min(6, n) books, New & Noteworthy at most 6, together exactly the first min(12, n) in order; the second feed is empty for 6 books or fewer |
| ExpandableDescription.Split | src/components/ExpandableDescription.tsx:9 | splitting on single spaces gives at least one piece and no piece holds a space |
| ExpandableDescription.Join | src/components/ExpandableDescription.tsx:10 | `join(' ')` (definition; properties in JoinSplit, SplitJoin) |
| ExpandableDescription.JoinSplit | src/components/ExpandableDescription.tsx:9-10 | joining the pieces with single spaces gives the text back |
| ExpandableDescription.SplitJoin | src/components/ExpandableDescription.tsx:9-10 | splitting a space-join of space-free words gives the words back |
| ExpandableDescription.Collapsed | src/components/ExpandableDescription.tsx:10 | `truncatedText` (definition; property in CollapsedIsFirstWords) |
| ExpandableDescription.CollapsedIsFirstWords | src/components/ExpandableDescription.tsx:10 | up to 30 words the collapsed text is the text; beyond, it is a prefix of the text holding exactly its first 30 words, followed by "...", and differs from the text |
| ExpandableDescription.ShownText | src/components/ExpandableDescription.tsx:15 | the paragraph: full text when expanded, collapsed otherwise (definition) |
| ExpandableDescription.Button | src/components/ExpandableDescription.tsx:17-23 | the button, rendered beyond 30 words, labelled "Show Less" or "Read More" (definition; property in ButtonIffHiddenText) |
| ExpandableDescription.Click | src/components/ExpandableDescription.tsx:19 | `setExpanded(!expanded)` (definition; property in ClickSwitchesView) |
| ExpandableDescription.ButtonIffHiddenText | src/components/ExpandableDescription.tsx:14-24 | the toggle button is rendered iff the expanded and collapsed views differ; without it the full text shows |
| ExpandableDescription.ClickSwitchesView | src/components/ExpandableDescription.tsx:17-23 | a click shows the other view with the other label, the full text once expanded |
| UseKeyboardShortcuts.Flag | src/hooks/useKeyboardShortcuts.ts:19-21 | `!!flag`: an undefined modifier counts as false (definition) |
| UseKeyboardShortcuts.Matches | src/hooks/useKeyboardShortcuts.ts:17-22 | keys equal after lower-casing and each modifier equal to the event's (definition; used by FirstMatch and HandleKeyDown) |
| UseKeyboardShortcuts.FirstMatch | src/hooks/useKeyboardShortcuts.ts:14-27 | the index of a matching shortcut with no earlier match, or none iff no shortcut matches |
| UseKeyboardShortcuts.HandleKeyDown | src/hooks/useKeyboardShortcuts.ts:13-28 | the loop fires the first match and only that one; `preventDefault` is called iff a shortcut fired |
| UseKeyboardShortcuts.FirstMatchWins | src/hooks/useKeyboardShortcuts.ts:14-26 | if any shortcut matches, one at or before it fires |
| UseKeyboardShortcuts.UniqueMatchFires | src/hooks/useKeyboardShortcuts.ts:14-26 | when only one shortcut matches, that one fires, whatever the list order |
| KeyboardShortcuts.Dispatch | src/components/KeyboardShortcuts.tsx:11-59 | over the six-entry constant `Table` (keys k, /, g, d, l, Escape with their modifiers and actions), an event gets an action iff some table entry matches it |
| KeyboardShortcuts.AtMostOneEntryMatches | src/components/KeyboardShortcuts.tsx:11-59 | no two entries share lowercased key and modifiers, so at most one entry matches an event |
| KeyboardShortcuts.DispatchEntry | src/components/KeyboardShortcuts.tsx:11-59 | an event matching an entry gets that entry's action |
| KeyboardShortcuts.SearchShortcuts | src/components/KeyboardShortcuts.tsx:12-27 | Ctrl+K (either case) and an unmodified "/" open the search |
| KeyboardShortcuts.NavigationShortcuts | src/components/KeyboardShortcuts.tsx:28-51 | Ctrl+G, Ctrl+D, Ctrl+L navigate to "/", "/discover", "/library" |
| KeyboardShortcuts.EscapeDoesNothing | src/components/KeyboardShortcuts.tsx:52-58 | an unmodified Escape matches the entry whose action does nothing |
| KeyboardShortcuts.ShiftOrAltMatchesNothing | src/components/KeyboardShortcuts.tsx:11-59 | with Shift or Alt held no entry matches |
| StarRating.Stars | src/components/StarRating.tsx:10-15 | five stars, star n filled when n <= value (definition; properties in StarsArePrefix, StarsMonotone) |
| StarRating.FilledFor | src/components/StarRating.tsx:10-15 | the filled count is the whole part of the value clamped to 0..5: 0 below 1, 5 from 5 on |
| StarRating.StarsArePrefix | src/components/StarRating.tsx:10-15 | exactly 5 stars; star n is filled iff n is at most the filled count, so the filled stars are 1..k |
| StarRating.FilledStarsCount | src/components/StarRating.tsx:10-15 | the number of filled stars is the filled count |
| StarRating.StarsMonotone | src/components/StarRating.tsx:10-15 | a higher value fills every star a lower one fills, and never fewer |

## Left out

- Persistence: the `persist` middleware, JSON storage and `localStorage` are foreign library code and I/O; only the `partialize` projection is modelled.
- React and rendering: hooks, re-rendering, the store binding, animations, markup and class names. Of the shelves and the modal only the handlers and the label, look and variant choices are modelled.
- DOM scroll checks in the two shelves depend on element geometry.
- Timers: the carousel's `setInterval`s, the 300 ms API latency, the search-box debounce and the home-page loader are timing. The interval callbacks are modelled as methods `AutoAdvance` and `ProgressTick` run at arbitrary moments, and the API functions as plain functions.
- FeaturedCarousel.Carousel.AutoAdvance: restarting the intervals after a manual move (`resetIntervals`) is timing and is not modelled, so which tick comes next is left to the caller.
- Library.CompletedPercentage: `Math.round` of a floating-point ratio is modelled as the integer round-half-up `(200*read + total) / (2*total)`; this can differ from the float result where the product is not exact, and only the bounds and the 0 and 100 cases are stated.
- FeaturedCarousel.Carousel.ProgressTick: the progress step 100 / (20000 / 100) = 0.5 is exact in binary, so progress is kept as half-percent ticks; the bar's animation is left out.
- FeaturedCarousel.NextIndex: requires at least one book. With none, the component throws at `currentFeaturedBook.id` (src/components/FeaturedCarousel.tsx:130) on its first render, before any `% 0` could matter, so the empty carousel is not modelled.
- BooksApi.SearchBooks: requires `page >= 1`; a page of 0 or below gives a negative `slice` start, which JavaScript counts from the end. The default `page = 1` is not modelled: callers pass the page explicitly.
- BooksApi.FetchBook: `parseInt` is abstracted as an `Option<int>` handed in by the caller, `None` standing for NaN.
- Book ids are JavaScript numbers, modelled as unbounded `int`s; fractional, NaN and very large ids are not modelled.
- StarRating.Stars: a book's `rating` and the star `value` are JavaScript numbers, modelled as `real`; NaN, which fills no star, and infinities cannot be expressed.
- Lower-casing covers ASCII letters only; `toLowerCase` on other characters and `includes` on UTF-16 code units are not modelled.
- The catalog `src/data/books` is not part of this model and is a parameter; so is the fuzzy search of `useBookSearch` (Fuse.js, a third-party library).
- Shortcut callbacks are tags (`OpenSearch`, `Navigate(path)`, `DoNothing`); `useNavigate` and the search dialog are outside the model. The hook's listener registration and removal are left out.
- Routing, layouts, skeletons, dialogs, the command palette, the sign-up page and Home's page composition are view wiring with no logic of their own.

## Findings

| source | as written | input that shows it | evidently intended | confidence | as-written member | corrected member |
|---|---|---|---|---|---|---|
| src/components/FeaturedCarousel.tsx:51-62, 107-113 | the window `keydown` listener and the element's `onKeyDown` both call `handleNext`/`handlePrev`, each a functional state update, so a keydown on the focused carousel is handled twice | three or more books, carousel focused at slide 0, one ArrowRight: the index goes 0, 1, 2 and lands on slide 2 | one arrow press moves one slide | medium: not executed; depends on the event reaching both handlers, which it does unless propagation is stopped | FeaturedCarousel.Carousel.FocusedKeyDown, FeaturedCarousel.FocusedArrowSkipsSlide | FeaturedCarousel.Carousel.KeyDown |
