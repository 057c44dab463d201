/** components/SeriesView.tsx: a book's status, the click that cycles it,
    and the count of completed books of a series. */
module SeriesView {
  import opened Prelude
  import opened Catalog

  /** `statusOrder`. */
  const StatusOrder: seq<string> := [UNREAD, READING, COMPLETED]

  /** `statusOrder[(statusOrder.indexOf(current) + 1) % statusOrder.length]`:
      the next status in the cycle; a status not in the list has index -1
      and so is followed by `unread`. */
  function CycleStatus(current: string): (next: string)
    ensures current == UNREAD ==> next == READING
    ensures current == READING ==> next == COMPLETED
    ensures current == COMPLETED ==> next == UNREAD
    ensures current !in StatusOrder ==> next == UNREAD
    ensures next in StatusOrder
  {
    var i := IndexOf(StatusOrder, current);
    StatusOrder[(i + 1) % |StatusOrder|]
  }

  /** Three clicks bring a book back to its status; a book with a status
      outside the cycle ends on `completed`. */
  lemma CycleThrice(s: string)
    ensures CycleStatus(CycleStatus(CycleStatus(s))) == if s in StatusOrder then s else COMPLETED
  {
    if s !in StatusOrder {
      assert CycleStatus(s) == UNREAD;
    } else {
      assert s == UNREAD || s == READING || s == COMPLETED;
    }
  }

  /** The cycle is a bijection on the three statuses: different statuses
      move to different ones. */
  lemma CycleInjective(a: string, b: string)
    requires a in StatusOrder && b in StatusOrder && a != b
    ensures CycleStatus(a) != CycleStatus(b)
  {
  }

  /** `series.books.filter(book => getStatus(book.id) === 'completed').length`. */
  function CompletedCount(s: Series, data: seq<ReadingEntry>): (n: nat)
    ensures n <= |s.books|
    ensures n == |Filter(s.books, (b: Book) => StatusOf(data, b.id) == COMPLETED)|
  {
    CountStatusIsFilterLength(s.books, data, COMPLETED);
    CountStatus(s.books, data, COMPLETED)
  }

  lemma {:induction false} CountStatusIsFilterLength(books: seq<Book>, data: seq<ReadingEntry>, st: string)
    ensures CountStatus(books, data, st) == |Filter(books, (b: Book) => StatusOf(data, b.id) == st)|
  {
    if books != [] {
      CountStatusIsFilterLength(books[1..], data, st);
    }
  }
}
