/** app/order/series/name/page.tsx: every book of the catalog tagged with
    its series name and sorted by title (`allBooks`), the search filter
    (`filteredBooks`), the pages of 20 (`totalPages`, `paginatedBooks`) and
    the page state that the Previous and Next buttons and the search box
    change. */
module OrderByName {
  import opened Prelude
  import opened Catalog

  /** `itemsPerPage`. */
  const PageSize: nat := 20

  /** `{ ...book, seriesName: series.name }`. */
  datatype BookWithSeries = BookWithSeries(book: Book, seriesName: string)

  /** The books of one series, each tagged with the series name. */
  function TagSeries(s: Series): (r: seq<BookWithSeries>)
    ensures |r| == |s.books|
    ensures forall k :: 0 <= k < |r| ==> r[k] == BookWithSeries(s.books[k], s.name)
  {
    seq(|s.books|, k requires 0 <= k < |s.books| => BookWithSeries(s.books[k], s.name))
  }

  /** What the nested `forEach` pushes, in push order. */
  function Tagged(meta: seq<Series>): seq<BookWithSeries> {
    if meta == [] then [] else Tagged(meta[..|meta| - 1]) + TagSeries(meta[|meta| - 1])
  }

  function ByTitle(): (BookWithSeries, BookWithSeries) -> bool {
    (a: BookWithSeries, b: BookWithSeries) => StrLe(a.book.title, b.book.title)
  }

  /** `allBooks`: the nested loops that push every tagged book, then the
      sort by title. */
  method AllBooksByTitle(meta: seq<Series>) returns (r: seq<BookWithSeries>)
    ensures r == SortBy(Tagged(meta), ByTitle())
  {
    var books: seq<BookWithSeries> := [];
    var i := 0;
    while i < |meta|
      invariant 0 <= i <= |meta|
      invariant books == Tagged(meta[..i])
    {
      var series := meta[i];
      ghost var before := books;
      var j := 0;
      while j < |series.books|
        invariant 0 <= j <= |series.books|
        invariant books == before + TagSeries(series)[..j]
      {
        books := books + [BookWithSeries(series.books[j], series.name)];
        assert TagSeries(series)[..j + 1] == TagSeries(series)[..j] + [TagSeries(series)[j]];
        j := j + 1;
      }
      assert TagSeries(series)[..j] == TagSeries(series);
      assert meta[..i + 1][..i] == meta[..i];
      i := i + 1;
    }
    assert meta[..i] == meta;
    r := SortBy(books, ByTitle());
  }

  /** Position by position, the tagged list carries the books of
      `AllBooks`, each with the name of the series it came from. */
  lemma {:induction false} TaggedBooks(meta: seq<Series>)
    ensures |Tagged(meta)| == |AllBooks(meta)|
    ensures forall k :: 0 <= k < |Tagged(meta)| ==> Tagged(meta)[k].book == AllBooks(meta)[k]
  {
    if meta != [] {
      var init := meta[..|meta| - 1];
      var last := meta[|meta| - 1];
      TaggedBooks(init);
      assert meta == init + [last];
      AllBooksAppend(init, last);
    }
  }

  lemma {:induction false} TaggedMembers(meta: seq<Series>)
    ensures forall i, j :: 0 <= i < |meta| && 0 <= j < |meta[i].books| ==>
      BookWithSeries(meta[i].books[j], meta[i].name) in Tagged(meta)
    ensures forall x :: x in Tagged(meta) ==>
      exists i, j :: 0 <= i < |meta| && 0 <= j < |meta[i].books| && x == BookWithSeries(meta[i].books[j], meta[i].name)
  {
    if meta != [] {
      var n := |meta| - 1;
      var init := meta[..n];
      TaggedMembers(init);
      var t := Tagged(meta);
      assert t == Tagged(init) + TagSeries(meta[n]);
      forall i, j | 0 <= i < |meta| && 0 <= j < |meta[i].books|
        ensures BookWithSeries(meta[i].books[j], meta[i].name) in t
      {
        if i < n {
          assert init[i] == meta[i];
        } else {
          assert TagSeries(meta[n])[j] == BookWithSeries(meta[i].books[j], meta[i].name);
        }
      }
      forall x | x in t
        ensures exists i, j :: 0 <= i < |meta| && 0 <= j < |meta[i].books| && x == BookWithSeries(meta[i].books[j], meta[i].name)
      {
        if x in Tagged(init) {
          var i, j :| 0 <= i < |init| && 0 <= j < |init[i].books| && x == BookWithSeries(init[i].books[j], init[i].name);
          assert init[i] == meta[i];
        } else {
          var k :| 0 <= k < |TagSeries(meta[n])| && TagSeries(meta[n])[k] == x;
          assert x == BookWithSeries(meta[n].books[k], meta[n].name);
        }
      }
    }
  }

  /** `allBooks` has exactly one entry per book of the catalog, each tagged
      with its series' name, and is in title order. */
  lemma AllBooksByTitleCorrect(meta: seq<Series>)
    ensures var r := SortBy(Tagged(meta), ByTitle());
      && |r| == |AllBooks(meta)|
      && multiset(r) == multiset(Tagged(meta))
      && (forall i, j :: 0 <= i < |meta| && 0 <= j < |meta[i].books| ==>
            BookWithSeries(meta[i].books[j], meta[i].name) in r)
      && (forall x :: x in r ==>
            exists i, j :: 0 <= i < |meta| && 0 <= j < |meta[i].books| && x == BookWithSeries(meta[i].books[j], meta[i].name))
      && (forall i, j :: 0 <= i < j < |r| ==> StrLe(r[i].book.title, r[j].book.title))
  {
    ByTitleIsPreorder();
    TaggedBooks(meta);
    TaggedMembers(meta);
    SortByIsSorted(Tagged(meta), ByTitle());
    SortByMembers(Tagged(meta), ByTitle());
  }

  lemma ByTitleIsPreorder()
    ensures TotalPreorder(ByTitle())
  {
    var le := ByTitle();
    forall a: BookWithSeries, b: BookWithSeries ensures le(a, b) || le(b, a) {
      StrLeTotal(a.book.title, b.book.title);
    }
    forall a: BookWithSeries, b: BookWithSeries, c: BookWithSeries | le(a, b) && le(b, c) ensures le(a, c) {
      StrLeTrans(a.book.title, b.book.title, c.book.title);
    }
  }

  /** The title or the author contains the lower-cased query, ignoring case. */
  predicate MatchesQuery(b: BookWithSeries, query: string) {
    Contains(Lower(b.book.title), Lower(query)) || Contains(Lower(b.book.author), Lower(query))
  }

  /** `filteredBooks`: an empty query keeps every book. */
  function FilteredBooks(all: seq<BookWithSeries>, query: string): seq<BookWithSeries> {
    if query == "" then all else Filter(all, (b: BookWithSeries) => MatchesQuery(b, query))
  }

  /** An empty query keeps the list; otherwise a book is kept iff it
      matches, and the kept books keep their relative order (filtering the
      two halves of a list separately gives the two halves of the result). */
  lemma FilteredBooksCorrect(all: seq<BookWithSeries>, query: string)
    ensures query == "" ==> FilteredBooks(all, query) == all
    ensures query != "" ==>
      && (forall k :: 0 <= k < |FilteredBooks(all, query)| ==>
            FilteredBooks(all, query)[k] in all && MatchesQuery(FilteredBooks(all, query)[k], query))
      && (forall k :: 0 <= k < |all| && MatchesQuery(all[k], query) ==> all[k] in FilteredBooks(all, query))
      && (forall n :: 0 <= n <= |all| ==>
            FilteredBooks(all, query) == FilteredBooks(all[..n], query) + FilteredBooks(all[n..], query))
  {
    if query != "" {
      forall n | 0 <= n <= |all|
        ensures FilteredBooks(all, query) == FilteredBooks(all[..n], query) + FilteredBooks(all[n..], query)
      {
        assert all == all[..n] + all[n..];
        FilterAppend(all[..n], all[n..], (b: BookWithSeries) => MatchesQuery(b, query));
      }
    }
  }

  /** `Math.ceil(n / itemsPerPage)`. */
  function TotalPages(n: nat): (pages: nat)
    ensures pages * PageSize >= n
    ensures pages == 0 || (pages - 1) * PageSize < n
  {
    (n + PageSize - 1) / PageSize
  }

  /** `paginatedBooks`: the slice starting at `(currentPage - 1) * 20`. */
  function Paginate<T>(xs: seq<T>, page: int): (r: seq<T>)
    ensures |r| <= PageSize
  {
    var start := (page - 1) * PageSize;
    Slice(xs, start, start + PageSize)
  }

  /** Pages `1..k` laid end to end. */
  function Pages<T>(xs: seq<T>, k: nat): seq<T> {
    if k == 0 then [] else Pages(xs, k - 1) + Paginate(xs, k)
  }

  lemma {:induction false} PagesPrefix<T>(xs: seq<T>, k: nat)
    ensures Pages(xs, k) == xs[..if k * PageSize < |xs| then k * PageSize else |xs|]
  {
    if k > 0 {
      PagesPrefix(xs, k - 1);
      var a := (k - 1) * PageSize;
      var b := k * PageSize;
      if a < |xs| {
        var e := if b < |xs| then b else |xs|;
        assert Paginate(xs, k) == xs[a..e];
        assert xs[..a] + xs[a..e] == xs[..e];
      } else {
        assert Paginate(xs, k) == [];
      }
    }
  }

  /** The pages `1..totalPages` partition the list: each holds at most 20
      books, and laid end to end they give the list back. */
  lemma PagesPartition<T>(xs: seq<T>)
    ensures Pages(xs, TotalPages(|xs|)) == xs
    ensures forall p :: 1 <= p <= TotalPages(|xs|) ==> 0 < |Paginate(xs, p)| <= PageSize
  {
    PagesPrefix(xs, TotalPages(|xs|));
    assert xs[..|xs|] == xs;
    forall p | 1 <= p <= TotalPages(|xs|) ensures 0 < |Paginate(xs, p)| {
      assert (p - 1) * PageSize <= (TotalPages(|xs|) - 1) * PageSize;
    }
  }

  /** `p => Math.max(1, p - 1)`. */
  function PreviousPage(p: int): int {
    if p - 1 > 1 then p - 1 else 1
  }

  /** `p => Math.min(totalPages, p + 1)`. */
  function NextPage(p: int, totalPages: nat): int {
    if p + 1 < totalPages then p + 1 else totalPages
  }

  /** The page state of the component: the search box and the current
      page. */
  class Browser {
    var searchQuery: string
    var currentPage: int

    constructor ()
      ensures searchQuery == "" && currentPage == 1
    {
      searchQuery := "";
      currentPage := 1;
    }

    /** Typing in the search box; the effect on `searchQuery` sends the
        page back to 1. */
    method SetQuery(q: string)
      modifies this
      ensures searchQuery == q && currentPage == 1
    {
      searchQuery := q;
      currentPage := 1;
    }

    /** Previous. */
    method Previous()
      modifies this
      ensures searchQuery == old(searchQuery)
      ensures currentPage == PreviousPage(old(currentPage))
    {
      currentPage := if currentPage - 1 > 1 then currentPage - 1 else 1;
    }

    /** Next. */
    method Next(totalPages: nat)
      modifies this
      ensures searchQuery == old(searchQuery)
      ensures currentPage == NextPage(old(currentPage), totalPages)
    {
      currentPage := if currentPage + 1 < totalPages then currentPage + 1 else totalPages;
    }

    /** A page number button. */
    method GoTo(page: int)
      modifies this
      ensures searchQuery == old(searchQuery) && currentPage == page
    {
      currentPage := page;
    }
  }

  /** The buttons are shown only when there is more than one page; from a
      page in range both keep the page in range, Previous stays on page 1
      and Next stays on the last page. */
  lemma PageButtonsStayInRange(p: int, totalPages: nat)
    requires 1 < totalPages && 1 <= p <= totalPages
    ensures 1 <= PreviousPage(p) <= totalPages && 1 <= NextPage(p, totalPages) <= totalPages
    ensures PreviousPage(p) == (if p == 1 then 1 else p - 1)
    ensures NextPage(p, totalPages) == (if p == totalPages then totalPages else p + 1)
  {
  }
}
