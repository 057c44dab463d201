/** lib/bookData.ts: the catalog (`metadata.series`) joined with the
    tracker (`readingTracker.readingData`), both passed in as values. */
module BookData {
  import opened Prelude
  import opened Catalog

  /** `BookWithStatus`: the book's own fields plus the tracker's view of it. */
  datatype BookWithStatus = BookWithStatus(
    book: Book,
    readingStatus: string,
    rating: Option<int>,
    notes: Option<string>,
    startedAt: Option<Timestamp>,
    completedAt: Option<Timestamp>)

  /** `metadata.series.find(s => s.id === seriesId)`: the first series with
      that id. */
  function FindSeries(meta: seq<Series>, seriesId: string): (r: Option<Series>)
    ensures r.Some? ==> r.value in meta && r.value.id == seriesId
    ensures r.None? <==> forall i :: 0 <= i < |meta| ==> meta[i].id != seriesId
  {
    if meta == [] then None
    else if meta[0].id == seriesId then Some(meta[0])
    else FindSeries(meta[1..], seriesId)
  }

  /** One element of the `map` in `getBooksWithStatus`. */
  function WithStatus(b: Book, data: seq<ReadingEntry>): (r: BookWithStatus)
    ensures r.book == b && r.readingStatus == StatusOf(data, b.id)
    ensures FindEntry(data, b.id).None? ==>
      r.rating.None? && r.notes.None? && r.startedAt.None? && r.completedAt.None?
    ensures FindEntry(data, b.id).Some? ==>
      var e := FindEntry(data, b.id).value;
      r.rating == e.rating && r.notes == e.notes && r.startedAt == e.startedAt && r.completedAt == e.completedAt
  {
    var e := FindEntry(data, b.id);
    if e.None? then BookWithStatus(b, StatusOf(data, b.id), None, None, None, None)
    else BookWithStatus(b, StatusOf(data, b.id), e.value.rating, e.value.notes, e.value.startedAt, e.value.completedAt)
  }

  function MapWithStatus(books: seq<Book>, data: seq<ReadingEntry>): (r: seq<BookWithStatus>)
    ensures |r| == |books|
    ensures forall i :: 0 <= i < |books| ==> r[i] == WithStatus(books[i], data)
  {
    if books == [] then [] else [WithStatus(books[0], data)] + MapWithStatus(books[1..], data)
  }

  /** `getBooksWithStatus(seriesId)`: `[]` for an unknown series, otherwise
      its books in order, each with its status. */
  function GetBooksWithStatus(meta: seq<Series>, data: seq<ReadingEntry>, seriesId: string)
    : (r: seq<BookWithStatus>)
    ensures FindSeries(meta, seriesId).None? ==> r == []
    ensures FindSeries(meta, seriesId).Some? ==>
      var books := FindSeries(meta, seriesId).value.books;
      && |r| == |books|
      && forall i :: 0 <= i < |books| ==> r[i].book == books[i] && r[i].readingStatus == StatusOf(data, books[i].id)
    ensures forall i :: 0 <= i < |r| ==> r[i].readingStatus == StatusOf(data, r[i].book.id)
  {
    var s := FindSeries(meta, seriesId);
    if s.None? then [] else MapWithStatus(s.value.books, data)
  }

  // ------------------------------------------------------------------
  // getSeriesProgress

  function IsUnread(b: BookWithStatus): bool { b.readingStatus == UNREAD }

  function ByOrder(): (BookWithStatus, BookWithStatus) -> bool {
    (a: BookWithStatus, b: BookWithStatus) => a.book.orderInSeries <= b.book.orderInSeries
  }

  /** `filter(unread).sort(by orderInSeries)[0]`. */
  function NextToRead(bs: seq<BookWithStatus>): Option<BookWithStatus> {
    var sorted := SortBy(Filter(bs, IsUnread), ByOrder());
    if sorted == [] then None else Some(sorted[0])
  }

  /** The next book to read is an unread book of the list with the least
      `orderInSeries`, and there is none exactly when nothing is unread. */
  lemma NextToReadIsFirstUnread(bs: seq<BookWithStatus>)
    ensures NextToRead(bs).None? <==> forall i :: 0 <= i < |bs| ==> bs[i].readingStatus != UNREAD
    ensures NextToRead(bs).Some? ==>
      var n := NextToRead(bs).value;
      && n in bs && n.readingStatus == UNREAD
      && forall i :: 0 <= i < |bs| && bs[i].readingStatus == UNREAD ==> n.book.orderInSeries <= bs[i].book.orderInSeries
  {
    var unread := Filter(bs, IsUnread);
    var le := ByOrder();
    var sorted := SortBy(unread, le);
    SortByMembers(unread, le);
    if sorted != [] {
      assert sorted[0] in sorted;
      SortByIsSorted(unread, le);
      forall i | 0 <= i < |bs| && bs[i].readingStatus == UNREAD
        ensures sorted[0].book.orderInSeries <= bs[i].book.orderInSeries
      {
        assert bs[i] in unread;
        var k :| 0 <= k < |sorted| && sorted[k] == bs[i];
        if k > 0 { assert le(sorted[0], sorted[k]); }
      }
    }
  }

  /** `SeriesProgress` without the floating-point `percentComplete`. */
  datatype SeriesProgress = SeriesProgress(
    seriesId: string,
    seriesName: string,
    totalBooks: nat,
    completedBooks: nat,
    currentlyReading: nat,
    nextToRead: Option<BookWithStatus>)

  function CountWithStatus(bs: seq<BookWithStatus>, st: string): nat {
    |Filter(bs, (b: BookWithStatus) => b.readingStatus == st)|
  }

  /** `getSeriesProgress(seriesId)`: null for an unknown series; otherwise the
      counts of its books by status and its next book to read. */
  function GetSeriesProgress(meta: seq<Series>, data: seq<ReadingEntry>, seriesId: string)
    : (r: Option<SeriesProgress>)
    ensures r.None? <==> FindSeries(meta, seriesId).None?
    ensures r.Some? ==>
      var bs := GetBooksWithStatus(meta, data, seriesId);
      && r.value.seriesId == seriesId
      && r.value.seriesName == FindSeries(meta, seriesId).value.name
      && r.value.totalBooks == |FindSeries(meta, seriesId).value.books|
      && r.value.completedBooks + r.value.currentlyReading <= r.value.totalBooks
      && r.value.completedBooks == CountWithStatus(bs, COMPLETED)
      && r.value.currentlyReading == CountWithStatus(bs, READING)
      && r.value.nextToRead == NextToRead(bs)
  {
    var s := FindSeries(meta, seriesId);
    if s.None? then None
    else
      var bs := GetBooksWithStatus(meta, data, seriesId);
      FilterDisjointLength(bs, (b: BookWithStatus) => b.readingStatus == COMPLETED,
                           (b: BookWithStatus) => b.readingStatus == READING);
      Some(SeriesProgress(s.value.id, s.value.name, |bs|, CountWithStatus(bs, COMPLETED),
                          CountWithStatus(bs, READING), NextToRead(bs)))
  }

  // ------------------------------------------------------------------
  // getRecommendedNextBooks

  const SeriesOrder: seq<string> := ["horus-heresy", "siege-of-terra", "primarchs"]

  /** The default of the `limit` parameter of `getRecommendedNextBooks`. */
  const DefaultLimit: int := 3

  /** `s.books.some(book => book.id === bookId)`. */
  predicate HoldsBook(s: Series, bookId: string) {
    exists j :: 0 <= j < |s.books| && s.books[j].id == bookId
  }

  /** `metadata.series.find(s => s.books.some(book => book.id === bookId))`:
      the first series holding the book, none iff no series holds it. */
  function SeriesOfBook(meta: seq<Series>, bookId: string): (r: Option<Series>)
    ensures r.Some? ==> r.value in meta && HoldsBook(r.value, bookId)
    ensures r.Some? ==>
      exists i :: 0 <= i < |meta| && meta[i] == r.value && forall j :: 0 <= j < i ==> !HoldsBook(meta[j], bookId)
    ensures r.None? <==> forall i :: 0 <= i < |meta| ==> !HoldsBook(meta[i], bookId)
  {
    if meta == [] then None
    else if HoldsBook(meta[0], bookId) then Some(meta[0])
    else
      var r := SeriesOfBook(meta[1..], bookId);
      assert forall i :: 1 <= i < |meta| ==> meta[i] == meta[1..][i - 1];
      assert r.Some? ==>
        exists i :: 0 <= i < |meta| && meta[i] == r.value && forall j :: 0 <= j < i ==> !HoldsBook(meta[j], bookId)
      by {
        if r.Some? {
          var i :| 0 <= i < |meta[1..]| && meta[1..][i] == r.value &&
            forall j :: 0 <= j < i ==> !HoldsBook(meta[1..][j], bookId);
          assert meta[i + 1] == r.value;
        }
      }
      r
  }

  /** The sort key: the index of the book's first series in SeriesOrder, and
      -1 for a series not listed there. */
  function Rank(meta: seq<Series>, b: BookWithStatus): (k: int)
    ensures -1 <= k < |SeriesOrder|
    ensures k >= 0 ==> SeriesOfBook(meta, b.book.id).Some? && SeriesOfBook(meta, b.book.id).value.id == SeriesOrder[k]
  {
    var s := SeriesOfBook(meta, b.book.id);
    IndexOf(SeriesOrder, if s.Some? then s.value.id else "")
  }

  function ByRank(meta: seq<Series>): (BookWithStatus, BookWithStatus) -> bool {
    (a: BookWithStatus, b: BookWithStatus) => Rank(meta, a) <= Rank(meta, b)
  }

  /** `bs.find(b => b.id === bookId)`: the first book with the id, none iff
      no book has it. */
  function FindBook(bs: seq<BookWithStatus>, bookId: string): (r: Option<BookWithStatus>)
    ensures r.Some? ==> r.value in bs && r.value.book.id == bookId
    ensures r.Some? ==>
      exists i :: 0 <= i < |bs| && bs[i] == r.value && forall j :: 0 <= j < i ==> bs[j].book.id != bookId
    ensures r.None? <==> forall i :: 0 <= i < |bs| ==> bs[i].book.id != bookId
  {
    if bs == [] then None
    else if bs[0].book.id == bookId then Some(bs[0])
    else
      var r := FindBook(bs[1..], bookId);
      assert forall i :: 1 <= i < |bs| ==> bs[i] == bs[1..][i - 1];
      assert r.Some? ==>
        exists i :: 0 <= i < |bs| && bs[i] == r.value && forall j :: 0 <= j < i ==> bs[j].book.id != bookId
      by {
        if r.Some? {
          var i :| 0 <= i < |bs[1..]| && bs[1..][i] == r.value &&
            forall j :: 0 <= j < i ==> bs[1..][j].book.id != bookId;
          assert bs[i + 1] == r.value;
        }
      }
      r
  }

  /** The series has a next book to read, which by NextToReadIsFirstUnread
      is exactly when one of its books is unread. */
  predicate HasUnread(meta: seq<Series>, data: seq<ReadingEntry>, s: Series) {
    NextToRead(GetBooksWithStatus(meta, data, s.id)).Some?
  }

  /** A listed book carries the status of its id. */
  lemma StatusOfListed(meta: seq<Series>, data: seq<ReadingEntry>, seriesId: string, x: BookWithStatus)
    requires x in GetBooksWithStatus(meta, data, seriesId)
    ensures x.readingStatus == StatusOf(data, x.book.id)
  {
  }

  /** What one iteration of the series loop pushes: nothing, or the book of
      the series whose id is that of the series' next book to read. */
  function Pick(meta: seq<Series>, data: seq<ReadingEntry>, s: Series): (r: seq<BookWithStatus>)
    ensures |r| <= 1
  {
    var progress := GetSeriesProgress(meta, data, s.id);
    if progress.Some? && progress.value.nextToRead.Some? then
      var found := FindBook(GetBooksWithStatus(meta, data, s.id), progress.value.nextToRead.value.book.id);
      if found.Some? then [found.value] else []
    else []
  }

  /** A series contributes a book exactly when it has an unread book: its
      next book to read is one of its books, so the lookup by id finds it. */
  lemma PickComplete(meta: seq<Series>, data: seq<ReadingEntry>, s: Series)
    ensures |Pick(meta, data, s)| == 1 <==> HasUnread(meta, data, s)
  {
    var bs := GetBooksWithStatus(meta, data, s.id);
    var progress := GetSeriesProgress(meta, data, s.id);
    if HasUnread(meta, data, s) {
      var n := NextToRead(bs).value;
      assert n in bs by { NextToReadIsFirstUnread(bs); }
      assert progress.Some? && progress.value.nextToRead == Some(n);
      var k :| 0 <= k < |bs| && bs[k] == n;
      assert FindBook(bs, n.book.id).Some?;
    } else if progress.Some? {
      assert progress.value.nextToRead.None?;
    }
  }

  /** The recommendations pushed for the series `ss`, in order. */
  function Candidates(meta: seq<Series>, data: seq<ReadingEntry>, ss: seq<Series>): (r: seq<BookWithStatus>)
    ensures |r| <= |ss|
    decreases |ss|
  {
    if ss == [] then [] else Candidates(meta, data, ss[..|ss| - 1]) + Pick(meta, data, ss[|ss| - 1])
  }

  lemma CandidatesStep(meta: seq<Series>, data: seq<ReadingEntry>, i: int)
    requires 0 <= i < |meta|
    ensures Candidates(meta, data, meta[..i + 1]) == Candidates(meta, data, meta[..i]) + Pick(meta, data, meta[i])
  {
    assert meta[..i + 1][..i] == meta[..i];
  }

  /** The body of the series loop: the book it pushes, if any. */
  method SeriesRecommendation(meta: seq<Series>, data: seq<ReadingEntry>, series: Series)
    returns (pushed: seq<BookWithStatus>)
    ensures pushed == Pick(meta, data, series)
  {
    pushed := [];
    var progress := GetSeriesProgress(meta, data, series.id);
    if progress.Some? && progress.value.nextToRead.Some? {
      var bookWithStatus := FindBook(GetBooksWithStatus(meta, data, series.id),
                                     progress.value.nextToRead.value.book.id);
      if bookWithStatus.Some? {
        pushed := [bookWithStatus.value];
      }
    }
  }

  /** `getRecommendedNextBooks(limit)`: the loop over the series pushes the
      candidates; a stable sort by Rank and `slice(0, limit)` follow. An
      omitted `limit` (None) is DefaultLimit. */
  method GetRecommendedNextBooks(meta: seq<Series>, data: seq<ReadingEntry>, limit: Option<int>)
    returns (r: seq<BookWithStatus>)
    ensures r == SliceTo(SortBy(Candidates(meta, data, meta), ByRank(meta)),
                         if limit.Some? then limit.value else DefaultLimit)
  {
    var recommendations: seq<BookWithStatus> := [];
    var i := 0;
    while i < |meta|
      invariant 0 <= i <= |meta|
      invariant recommendations == Candidates(meta, data, meta[..i])
    {
      var pushed := SeriesRecommendation(meta, data, meta[i]);
      recommendations := recommendations + pushed;
      CandidatesStep(meta, data, i);
      i := i + 1;
    }
    assert meta[..i] == meta;
    recommendations := SortBy(recommendations, ByRank(meta));
    var end := if limit.Some? then limit.value else DefaultLimit;
    r := SliceTo(recommendations, end);
  }

  /** What a series contributes is unread and is, by id, its next book. */
  lemma PickIsNextBook(meta: seq<Series>, data: seq<ReadingEntry>, s: Series)
    ensures forall c :: c in Pick(meta, data, s) ==>
      && c.readingStatus == UNREAD
      && NextToRead(GetBooksWithStatus(meta, data, s.id)).Some?
      && NextToRead(GetBooksWithStatus(meta, data, s.id)).value.book.id == c.book.id
  {
    var progress := GetSeriesProgress(meta, data, s.id);
    if progress.Some? && progress.value.nextToRead.Some? {
      var bs := GetBooksWithStatus(meta, data, s.id);
      var found := FindBook(bs, progress.value.nextToRead.value.book.id);
      if found.Some? {
        var n := NextToRead(bs).value;
        assert n in bs && n.readingStatus == UNREAD by { NextToReadIsFirstUnread(bs); }
        StatusOfListed(meta, data, s.id, n);
        StatusOfListed(meta, data, s.id, found.value);
        assert Pick(meta, data, s) == [found.value];
      }
    }
  }

  predicate IsNextBookOf(meta: seq<Series>, data: seq<ReadingEntry>, ss: seq<Series>, c: BookWithStatus) {
    exists s :: s in ss && NextToRead(GetBooksWithStatus(meta, data, s.id)).Some?
                && NextToRead(GetBooksWithStatus(meta, data, s.id)).value.book.id == c.book.id
  }

  /** Every candidate is unread and is, by id, the next book to read of a
      series of the catalog. */
  lemma {:induction false} CandidatesAreNextBooks(meta: seq<Series>, data: seq<ReadingEntry>, ss: seq<Series>)
    ensures forall c :: c in Candidates(meta, data, ss) ==>
      c.readingStatus == UNREAD && IsNextBookOf(meta, data, ss, c)
    decreases |ss|
  {
    if ss != [] {
      var init := ss[..|ss| - 1];
      var last := ss[|ss| - 1];
      CandidatesAreNextBooks(meta, data, init);
      PickIsNextBook(meta, data, last);
      forall c | c in Candidates(meta, data, ss)
        ensures c.readingStatus == UNREAD && IsNextBookOf(meta, data, ss, c)
      {
        if c in Candidates(meta, data, init) {
          var s :| s in init && NextToRead(GetBooksWithStatus(meta, data, s.id)).Some?
                   && NextToRead(GetBooksWithStatus(meta, data, s.id)).value.book.id == c.book.id;
          assert s in ss;
        } else {
          assert c in Pick(meta, data, last);
          assert last in ss;
        }
      }
    }
  }

  /** The number of series of `ss` with an unread book. */
  function SeriesWithUnread(meta: seq<Series>, data: seq<ReadingEntry>, ss: seq<Series>): nat
    decreases |ss|
  {
    if ss == [] then 0
    else SeriesWithUnread(meta, data, ss[..|ss| - 1]) + (if HasUnread(meta, data, ss[|ss| - 1]) then 1 else 0)
  }

  /** The loop pushes one book for each series with an unread book, and no
      other. */
  lemma {:induction false} CandidatesCount(meta: seq<Series>, data: seq<ReadingEntry>, ss: seq<Series>)
    ensures |Candidates(meta, data, ss)| == SeriesWithUnread(meta, data, ss)
    decreases |ss|
  {
    if ss != [] {
      CandidatesCount(meta, data, ss[..|ss| - 1]);
      PickComplete(meta, data, ss[|ss| - 1]);
    }
  }

  /** Some book of `cs` has the id `bookId`. */
  predicate Offers(cs: seq<BookWithStatus>, bookId: string) {
    exists j :: 0 <= j < |cs| && cs[j].book.id == bookId
  }

  lemma OffersKept(a: seq<BookWithStatus>, b: seq<BookWithStatus>, bookId: string)
    requires forall x :: x in a ==> x in b
    ensures Offers(a, bookId) ==> Offers(b, bookId)
  {
    if Offers(a, bookId) {
      var j :| 0 <= j < |a| && a[j].book.id == bookId;
      assert a[j] in b;
      var m :| 0 <= m < |b| && b[m] == a[j];
    }
  }

  /** The id of the next book to read of a series with an unread book. */
  function NextBookId(meta: seq<Series>, data: seq<ReadingEntry>, s: Series): string
    requires HasUnread(meta, data, s)
  {
    NextToRead(GetBooksWithStatus(meta, data, s.id)).value.book.id
  }

  /** What the series `ss[k]` contributes is among the candidates. */
  lemma {:induction false} PickInCandidates(meta: seq<Series>, data: seq<ReadingEntry>, ss: seq<Series>, k: int)
    requires 0 <= k < |ss|
    ensures forall c :: c in Pick(meta, data, ss[k]) ==> c in Candidates(meta, data, ss)
    decreases |ss|
  {
    var init := ss[..|ss| - 1];
    if k < |init| {
      assert init[k] == ss[k];
      PickInCandidates(meta, data, init, k);
    }
  }

  /** A series of `ss` with an unread book has its next book to read, by
      id, among the candidates. */
  lemma CandidatesCompleteAt(meta: seq<Series>, data: seq<ReadingEntry>, ss: seq<Series>, k: int)
    requires 0 <= k < |ss| && HasUnread(meta, data, ss[k])
    ensures Offers(Candidates(meta, data, ss), NextBookId(meta, data, ss[k]))
  {
    PickInCandidates(meta, data, ss, k);
    PickComplete(meta, data, ss[k]);
    PickIsNextBook(meta, data, ss[k]);
    var c := Pick(meta, data, ss[k])[0];
    assert c in Pick(meta, data, ss[k]);
    var cs := Candidates(meta, data, ss);
    var m :| 0 <= m < |cs| && cs[m] == c;
  }

  /** Every series of `ss` with an unread book has its next book to read,
      by id, among the candidates. */
  lemma CandidatesComplete(meta: seq<Series>, data: seq<ReadingEntry>, ss: seq<Series>)
    ensures forall k :: 0 <= k < |ss| && HasUnread(meta, data, ss[k]) ==>
      Offers(Candidates(meta, data, ss), NextBookId(meta, data, ss[k]))
  {
    forall k | 0 <= k < |ss| && HasUnread(meta, data, ss[k])
      ensures Offers(Candidates(meta, data, ss), NextBookId(meta, data, ss[k]))
    {
      CandidatesCompleteAt(meta, data, ss, k);
    }
  }

  /** The recommendations hold exactly `min(limit, n)` books for `n` series
      with an unread book, and when `limit` reaches `n` every such series'
      next book is among them. */
  lemma RecommendationsComplete(meta: seq<Series>, data: seq<ReadingEntry>, limit: int)
    ensures var r := SliceTo(SortBy(Candidates(meta, data, meta), ByRank(meta)), limit);
      var n := SeriesWithUnread(meta, data, meta);
      && (limit >= 0 ==> |r| == if limit < n then limit else n)
      && (limit >= n ==> forall k :: 0 <= k < |meta| && HasUnread(meta, data, meta[k]) ==>
            Offers(r, NextBookId(meta, data, meta[k])))
  {
    var cands := Candidates(meta, data, meta);
    var le := ByRank(meta);
    var sorted := SortBy(cands, le);
    var r := SliceTo(sorted, limit);
    var n := SeriesWithUnread(meta, data, meta);
    CandidatesCount(meta, data, meta);
    assert |sorted| == n;
    if limit >= n {
      assert r == sorted;
      CandidatesComplete(meta, data, meta);
      SortByMembers(cands, le);
      forall k | 0 <= k < |meta| && HasUnread(meta, data, meta[k])
        ensures Offers(r, NextBookId(meta, data, meta[k]))
      {
        OffersKept(cands, r, NextBookId(meta, data, meta[k]));
      }
    }
  }

  /** The recommendations: at most `limit` of them (at most one per series
      in any case), each an unread next book of some series, ordered by the
      rank of its series with unlisted series first. */
  lemma RecommendationsCorrect(meta: seq<Series>, data: seq<ReadingEntry>, limit: int)
    ensures var r := SliceTo(SortBy(Candidates(meta, data, meta), ByRank(meta)), limit);
      && (limit >= 0 ==> |r| <= limit)
      && |r| <= |meta|
      && (forall i, j :: 0 <= i < j < |r| ==> Rank(meta, r[i]) <= Rank(meta, r[j]))
      && forall c :: c in r ==> c.readingStatus == UNREAD && IsNextBookOf(meta, data, meta, c)
  {
    CandidatesAreNextBooks(meta, data, meta);
    RankedSlice(meta, Candidates(meta, data, meta), limit);
  }

  /** Sorting books by Rank and keeping the first `limit` keeps only books
      of `cands` and leaves them in rank order. */
  lemma RankedSlice(meta: seq<Series>, cands: seq<BookWithStatus>, limit: int)
    ensures var r := SliceTo(SortBy(cands, ByRank(meta)), limit);
      && (forall i, j :: 0 <= i < j < |r| ==> Rank(meta, r[i]) <= Rank(meta, r[j]))
      && forall c :: c in r ==> c in cands
  {
    var le := ByRank(meta);
    var sorted := SortBy(cands, le);
    var r := SliceTo(sorted, limit);
    assert TotalPreorder(le);
    SortByIsSorted(cands, le);
    SortByMembers(cands, le);
    forall i, j | 0 <= i < j < |r| ensures Rank(meta, r[i]) <= Rank(meta, r[j]) {
      assert r[i] == sorted[i] && r[j] == sorted[j];
      assert le(sorted[i], sorted[j]);
    }
    forall c | c in r ensures c in cands {
      var k :| 0 <= k < |r| && r[k] == c;
      assert sorted[k] == c;
    }
  }

  // ------------------------------------------------------------------
  // getBooksByChronologicalOrder and searchBooks

  /** `getAllBooksWithStatus()`: for each series, `getBooksWithStatus` of
      its id (so the first series with a given id is the one used). */
  function AllBooksWithStatus(meta: seq<Series>, data: seq<ReadingEntry>, ss: seq<Series>)
    : seq<BookWithStatus>
  {
    if ss == [] then [] else GetBooksWithStatus(meta, data, ss[0].id) + AllBooksWithStatus(meta, data, ss[1..])
  }

  function HasChronology(b: BookWithStatus): bool { b.book.chronologicalOrder.Some? }

  function Chronology(b: BookWithStatus): int {
    if b.book.chronologicalOrder.Some? then b.book.chronologicalOrder.value else 0
  }

  function ByChronology(): (BookWithStatus, BookWithStatus) -> bool {
    (a: BookWithStatus, b: BookWithStatus) => Chronology(a) <= Chronology(b)
  }

  function GetBooksByChronologicalOrder(meta: seq<Series>, data: seq<ReadingEntry>): seq<BookWithStatus> {
    SortBy(Filter(AllBooksWithStatus(meta, data, meta), HasChronology), ByChronology())
  }

  /** Exactly the books with a `chronologicalOrder`, each as often as in the
      full list, ascending by it. */
  lemma ChronologicalOrderCorrect(meta: seq<Series>, data: seq<ReadingEntry>)
    ensures var all := AllBooksWithStatus(meta, data, meta);
      var r := GetBooksByChronologicalOrder(meta, data);
      && multiset(r) == multiset(Filter(all, HasChronology))
      && (forall i :: 0 <= i < |r| ==> r[i].book.chronologicalOrder.Some? && r[i] in all)
      && (forall i :: 0 <= i < |all| && all[i].book.chronologicalOrder.Some? ==> all[i] in r)
      && forall i, j :: 0 <= i < j < |r| ==>
           r[i].book.chronologicalOrder.value <= r[j].book.chronologicalOrder.value
  {
    var all := AllBooksWithStatus(meta, data, meta);
    var kept := Filter(all, HasChronology);
    var le := ByChronology();
    var r := SortBy(kept, le);
    assert TotalPreorder(le);
    SortByIsSorted(kept, le);
    SortByMembers(kept, le);
    forall i | 0 <= i < |r| ensures r[i].book.chronologicalOrder.Some? && r[i] in all {
      assert r[i] in kept;
    }
    forall i, j | 0 <= i < j < |r|
      ensures r[i].book.chronologicalOrder.value <= r[j].book.chronologicalOrder.value
    {
      assert r[i] in kept && r[j] in kept;
      assert le(r[i], r[j]);
    }
  }

  predicate AnyContains(labels: Option<seq<string>>, term: string) {
    labels.Some? && exists i :: 0 <= i < |labels.value| && Contains(Lower(labels.value[i]), term)
  }

  /** The search test of `searchBooks` for an already lower-cased term. */
  predicate Matches(b: BookWithStatus, term: string) {
    || Contains(Lower(b.book.title), term)
    || Contains(Lower(b.book.author), term)
    || AnyContains(b.book.tags, term)
    || AnyContains(b.book.legion, term)
  }

  function SearchBooks(meta: seq<Series>, data: seq<ReadingEntry>, query: string): seq<BookWithStatus> {
    var term := Lower(query);
    Filter(AllBooksWithStatus(meta, data, meta), (b: BookWithStatus) => Matches(b, term))
  }

  /** A book is found iff the lower-cased query occurs in its lower-cased
      title, author, a tag or a legion; the empty query finds every book. */
  lemma SearchBooksCorrect(meta: seq<Series>, data: seq<ReadingEntry>, query: string)
    ensures var all := AllBooksWithStatus(meta, data, meta);
      var r := SearchBooks(meta, data, query);
      && (forall i :: 0 <= i < |r| ==> r[i] in all && Matches(r[i], Lower(query)))
      && (forall i :: 0 <= i < |all| && Matches(all[i], Lower(query)) ==> all[i] in r)
      && (query == "" ==> r == all)
  {
    var all := AllBooksWithStatus(meta, data, meta);
    if query == "" {
      forall i | 0 <= i < |all| ensures Matches(all[i], Lower(query)) {
        ContainsEmpty(Lower(all[i].book.title));
      }
      FilterAllKept(all, (b: BookWithStatus) => Matches(b, Lower(query)));
    }
  }
}
