/** The mock API (src/services/api/books.ts) with the catalog passed in and the
    300 ms delay left out: search with pagination, lookup by id, and the two
    home-page feeds. */
module BooksApi {
  import opened Wrappers
  import opened Seqs
  import opened Books
  import opened Ascii

  const PageSize: nat := 20

  function Min(a: int, b: int): int
  {
    if a <= b then a else b
  }

  /** `needle` occurs in `hay` starting at offset `i`. */
  predicate OccursAt(hay: string, needle: string, i: nat)
  {
    i + |needle| <= |hay| && hay[i..i + |needle|] == needle
  }

  /** `hay.includes(needle)` */
  predicate Contains(hay: string, needle: string)
  {
    exists i: nat :: i <= |hay| && OccursAt(hay, needle, i)
  }

  /** The search predicate: the lowercased query occurs in the lowercased
      title, author or genre. */
  predicate Matches(book: Book, q: string)
  {
    var query := Lower(q);
    Contains(Lower(book.title), query) || Contains(Lower(book.author), query) ||
    Contains(Lower(book.genre), query)
  }

  /** All matching books, in catalog order. */
  function Results(catalog: seq<Book>, q: string): seq<Book>
  {
    Filter(catalog, (b: Book) => Matches(b, q))
  }

  /** A book is a result exactly when it is in the catalog and matches; the
      results keep catalog order. */
  lemma ResultsAreMatches(catalog: seq<Book>, q: string)
    ensures forall b :: b in Results(catalog, q) <==> b in catalog && Matches(b, q)
    ensures IsSubsequence(Results(catalog, q), catalog)
  {
    FilterMembership(catalog, (b: Book) => Matches(b, q));
    FilterIsSubsequence(catalog, (b: Book) => Matches(b, q));
  }

  /** The empty query matches every book. */
  lemma EmptyQueryMatchesAll(catalog: seq<Book>)
    ensures Results(catalog, "") == catalog
  {
    forall i | 0 <= i < |catalog| ensures Matches(catalog[i], "") {
      assert Lower("") == "";
      var title := Lower(catalog[i].title);
      assert OccursAt(title, Lower(""), 0);
    }
    FilterKeepsAll(catalog, (b: Book) => Matches(b, ""));
  }

  /** One page of results and whether another follows. */
  datatype Page = Page(items: seq<Book>, hasMore: bool)

  /** `results.slice(start, end)` for `0 <= start <= end`. */
  function Slice(s: seq<Book>, start: nat, end: nat): seq<Book>
    requires start <= end
  {
    s[Min(start, |s|)..Min(end, |s|)]
  }

  /** `searchBooks(q, page)` for page numbers from 1. */
  function SearchBooks(catalog: seq<Book>, q: string, page: nat): (r: Page)
    requires page >= 1
    ensures |r.items| <= PageSize
    ensures r.hasMore ==> |r.items| == PageSize
    ensures forall b :: b in r.items ==> b in catalog && Matches(b, q)
  {
    var results := Results(catalog, q);
    ResultsAreMatches(catalog, q);
    var start := (page - 1) * PageSize;
    var end := start + PageSize;
    Page(Slice(results, start, end), end < |results|)
  }

  /** Every result from page `page` on, read page by page while `hasMore`. */
  function PagesFrom(catalog: seq<Book>, q: string, page: nat): seq<Book>
    requires page >= 1
    decreases |Results(catalog, q)| - (page - 1) * PageSize
  {
    var p := SearchBooks(catalog, q, page);
    if p.hasMore then p.items + PagesFrom(catalog, q, page + 1) else p.items
  }

  lemma {:induction false} PagesFromAreTheRest(catalog: seq<Book>, q: string, page: nat)
    requires page >= 1 && (page - 1) * PageSize <= |Results(catalog, q)|
    ensures PagesFrom(catalog, q, page) == Results(catalog, q)[(page - 1) * PageSize..]
    decreases |Results(catalog, q)| - (page - 1) * PageSize
  {
    var results := Results(catalog, q);
    var start := (page - 1) * PageSize;
    var p := SearchBooks(catalog, q, page);
    assert p.items == results[start..Min(start + PageSize, |results|)];
    if p.hasMore {
      assert page * PageSize == start + PageSize;
      PagesFromAreTheRest(catalog, q, page + 1);
      assert results[start..] == results[start..start + PageSize] + results[start + PageSize..];
    } else {
      assert Min(start + PageSize, |results|) == |results|;
    }
  }

  /** Paging from page 1 until `hasMore` is false reads every result exactly
      once, in order. */
  lemma AllPagesAreAllResults(catalog: seq<Book>, q: string)
    ensures PagesFrom(catalog, q, 1) == Results(catalog, q)
  {
    PagesFromAreTheRest(catalog, q, 1);
  }

  /** Page `page` is the slice from `(page-1)*20` and more follows exactly when
      results remain past `page*20`. */
  lemma SearchPageIsWindow(catalog: seq<Book>, q: string, page: nat)
    requires page >= 1
    ensures var results := Results(catalog, q);
            var p := SearchBooks(catalog, q, page);
            && (p.hasMore <==> page * PageSize < |results|)
            && ((page - 1) * PageSize <= |results| ==>
                p.items == results[(page - 1) * PageSize..Min(page * PageSize, |results|)])
            && ((page - 1) * PageSize >= |results| ==> p.items == [])
  {
  }

  /** `booksData.find(b => b.id === id)` */
  function FindBook(catalog: seq<Book>, id: int): (r: Option<Book>)
    ensures r.Some? ==> exists i :: 0 <= i < |catalog| && catalog[i] == r.value && r.value.id == id &&
                                    forall j :: 0 <= j < i ==> catalog[j].id != id
    ensures r.None? <==> forall j :: 0 <= j < |catalog| ==> catalog[j].id != id
  {
    if catalog == [] then None
    else if catalog[0].id == id then Some(catalog[0])
    else
      var r := FindBook(catalog[1..], id);
      assert forall j :: 1 <= j < |catalog| ==> catalog[j] == catalog[1..][j - 1];
      r
  }

  /** `fetchBook(id)`: `parsedId` is `parseInt(id, 10)`, None when that is NaN
      (which equals no id). Rejects with "Book not found" when nothing matches. */
  function FetchBook(catalog: seq<Book>, parsedId: Option<int>): (r: Result<Book, string>)
    ensures r.Failure? ==> r.error == "Book not found"
    ensures parsedId.None? ==> r.Failure?
    ensures r.Success? ==> parsedId.Some? && r.value in catalog && r.value.id == parsedId.value
    ensures r.Success? ==> FindBook(catalog, parsedId.value) == Some(r.value)
    ensures parsedId.Some? ==>
              (r.Failure? <==> forall j :: 0 <= j < |catalog| ==> catalog[j].id != parsedId.value)
  {
    match parsedId
    case None => Failure("Book not found")
    case Some(id) =>
      match FindBook(catalog, id)
      case Some(book) => Success(book)
      case None => Failure("Book not found")
  }

  /** With unique ids, looking up a catalog book's id finds that book. */
  lemma FetchBookFindsEachBook(catalog: seq<Book>, i: nat)
    requires i < |catalog|
    requires forall j, k :: 0 <= j < k < |catalog| ==> catalog[j].id != catalog[k].id
    ensures FetchBook(catalog, Some(catalog[i].id)) == Success(catalog[i])
  {
    var r := FindBook(catalog, catalog[i].id);
    assert r.Some?;
    var k :| 0 <= k < |catalog| && catalog[k] == r.value && r.value.id == catalog[i].id &&
             forall j :: 0 <= j < k ==> catalog[j].id != catalog[i].id;
    assert k == i;
  }

  /** `fetchTrending`: `booksData.slice(0, 6)` */
  function FetchTrending(catalog: seq<Book>): seq<Book>
  {
    catalog[..Min(6, |catalog|)]
  }

  /** `fetchNewNoteworthy`: `booksData.slice(6, 12)` */
  function FetchNewNoteworthy(catalog: seq<Book>): seq<Book>
  {
    catalog[Min(6, |catalog|)..Min(12, |catalog|)]
  }

  /** The two feeds hold at most six books each and together are the first
      twelve of the catalog, in order and without overlap. */
  lemma FeedsSplitCatalog(catalog: seq<Book>)
    ensures |FetchTrending(catalog)| == Min(6, |catalog|)
    ensures |FetchNewNoteworthy(catalog)| <= 6
    ensures FetchTrending(catalog) + FetchNewNoteworthy(catalog) == catalog[..Min(12, |catalog|)]
    ensures |catalog| <= 6 ==> FetchNewNoteworthy(catalog) == []
  {
  }
}
