/** The catalog and tracker shapes of lib/types.ts that the views work on,
    and the lookup of a book's tracker entry (`readingData.find`,
    `readingData.findIndex`) shared by every view. */
module Catalog {
  import opened Prelude

  /** A book of a series. Optional array fields are `None` when absent. */
  datatype Book = Book(
    id: string,
    title: string,
    author: string,
    orderInSeries: int,
    chronologicalOrder: Option<int>,
    faction: Option<seq<string>>,
    tags: Option<seq<string>>,
    legion: Option<seq<string>>)

  datatype Series = Series(id: string, name: string, description: string, books: seq<Book>)

  /** One entry of `readingTracker.readingData`. */
  datatype ReadingEntry = ReadingEntry(
    bookId: string,
    status: string,
    rating: Option<int>,
    notes: Option<string>,
    startedAt: Option<Timestamp>,
    completedAt: Option<Timestamp>)

  /** `readingData.findIndex(r => r.bookId === bookId)`: the first index
      holding `bookId`, or -1 when no entry does. */
  function FindIndex(data: seq<ReadingEntry>, bookId: string): (i: int)
    ensures -1 <= i < |data|
    ensures i >= 0 ==> data[i].bookId == bookId
    ensures i >= 0 ==> forall j :: 0 <= j < i ==> data[j].bookId != bookId
    ensures i == -1 ==> forall j :: 0 <= j < |data| ==> data[j].bookId != bookId
  {
    if data == [] then -1
    else if data[0].bookId == bookId then 0
    else
      var i := FindIndex(data[1..], bookId);
      if i == -1 then -1 else i + 1
  }

  /** `readingData.find(r => r.bookId === bookId)`. */
  function FindEntry(data: seq<ReadingEntry>, bookId: string): (e: Option<ReadingEntry>)
    ensures e.Some? ==> e.value in data && e.value.bookId == bookId
    ensures e.None? <==> forall j :: 0 <= j < |data| ==> data[j].bookId != bookId
  {
    var i := FindIndex(data, bookId);
    if i >= 0 then Some(data[i]) else None
  }

  /** `entry?.status || 'unread'`: the status of the first entry for the
      book, and `unread` when there is none (or its status is empty). */
  function StatusOf(data: seq<ReadingEntry>, bookId: string): (s: string)
    ensures s != ""
    ensures FindEntry(data, bookId).None? ==> s == UNREAD
    ensures FindEntry(data, bookId).Some? && FindEntry(data, bookId).value.status != "" ==>
      s == FindEntry(data, bookId).value.status
  {
    var e := FindEntry(data, bookId);
    if e.Some? && e.value.status != "" then e.value.status else UNREAD
  }

  /** `series.flatMap(s => s.books)`: every book of every series, in order. */
  function AllBooks(series: seq<Series>): (r: seq<Book>)
    ensures forall b :: b in r <==> exists s :: s in series && b in s.books
  {
    if series == [] then [] else series[0].books + AllBooks(series[1..])
  }

  /** `books.filter(b => status(b) === st).length`. */
  function CountStatus(books: seq<Book>, data: seq<ReadingEntry>, st: string): (n: nat)
    ensures n <= |books|
  {
    if books == [] then 0
    else (if StatusOf(data, books[0].id) == st then 1 else 0) + CountStatus(books[1..], data, st)
  }

  /** Counting one more book adds one exactly when it has the status. */
  lemma {:induction false} CountStatusAppend(books: seq<Book>, b: Book, data: seq<ReadingEntry>, st: string)
    ensures CountStatus(books + [b], data, st) == CountStatus(books, data, st) + (if StatusOf(data, b.id) == st then 1 else 0)
  {
    if books != [] {
      assert (books + [b])[1..] == books[1..] + [b];
      CountStatusAppend(books[1..], b, data, st);
    }
  }

  lemma {:induction false} AllBooksAppend(series: seq<Series>, s: Series)
    ensures AllBooks(series + [s]) == AllBooks(series) + s.books
  {
    if series != [] {
      assert (series + [s])[1..] == series[1..] + [s];
      AllBooksAppend(series[1..], s);
    }
  }
}
