/** components/Dashboard.tsx, lines 9-57: the overall `stats` counters and
    the per-series `seriesStats`, filled by walking every book of every
    series, and each series' next book to read. A missing tracker is the
    empty `readingData`. */
module Dashboard {
  import opened Prelude
  import opened Catalog

  datatype Stats = Stats(total: nat, completed: nat, reading: nat, unread: nat)

  /** `{ title, orderInSeries }` of the next book. */
  datatype NextBook = NextBook(title: string, orderInSeries: int)

  datatype SeriesStats = SeriesStats(
    name: string,
    total: nat,
    completed: nat,
    reading: nat,
    nextBook: Option<NextBook>)

  /** Books whose status is neither `completed` nor `reading`: the `else`
      branch, which counts them as unread whatever their status string. */
  function CountOther(books: seq<Book>, data: seq<ReadingEntry>): (n: nat)
    ensures n <= |books|
  {
    if books == [] then 0
    else
      var st := StatusOf(data, books[0].id);
      (if st != COMPLETED && st != READING then 1 else 0) + CountOther(books[1..], data)
  }

  lemma {:induction false} CountOtherAppend(books: seq<Book>, b: Book, data: seq<ReadingEntry>)
    ensures CountOther(books + [b], data) == CountOther(books, data)
      + (if StatusOf(data, b.id) != COMPLETED && StatusOf(data, b.id) != READING then 1 else 0)
  {
    if books != [] {
      assert (books + [b])[1..] == books[1..] + [b];
      CountOtherAppend(books[1..], b, data);
    }
  }

  /** The counters after the books `books` have been walked. */
  function StatsOf(books: seq<Book>, data: seq<ReadingEntry>): Stats {
    Stats(|books|, CountStatus(books, data, COMPLETED), CountStatus(books, data, READING), CountOther(books, data))
  }

  /** Every book lands in exactly one of the three counters. */
  lemma {:induction false} StatsPartition(books: seq<Book>, data: seq<ReadingEntry>)
    ensures var s := StatsOf(books, data);
      s.completed + s.reading + s.unread == s.total
  {
    if books != [] {
      StatsPartition(books[1..], data);
    }
  }

  /** `!entry || entry.status === 'unread'`: unlike the counters, an entry
      whose status is some other string (even empty) does not qualify. */
  predicate NotStarted(data: seq<ReadingEntry>, b: Book) {
    FindEntry(data, b.id).None? || FindEntry(data, b.id).value.status == UNREAD
  }

  function ByOrder(): (Book, Book) -> bool {
    (a: Book, b: Book) => a.orderInSeries <= b.orderInSeries
  }

  /** `books.filter(NotStarted).sort(by orderInSeries)[0]`. */
  function NextToRead(books: seq<Book>, data: seq<ReadingEntry>): Option<Book> {
    var sorted := SortBy(Filter(books, (b: Book) => NotStarted(data, b)), ByOrder());
    if sorted == [] then None else Some(sorted[0])
  }

  /** The next book is a not-started book of the series with the least
      `orderInSeries`, and there is none iff every book has been started. */
  lemma NextToReadIsLeast(books: seq<Book>, data: seq<ReadingEntry>)
    ensures NextToRead(books, data).None? <==> forall i :: 0 <= i < |books| ==> !NotStarted(data, books[i])
    ensures NextToRead(books, data).Some? ==>
      var n := NextToRead(books, data).value;
      && n in books && NotStarted(data, n)
      && forall i :: 0 <= i < |books| && NotStarted(data, books[i]) ==> n.orderInSeries <= books[i].orderInSeries
  {
    var p := (b: Book) => NotStarted(data, b);
    var kept := Filter(books, p);
    var le := ByOrder();
    if kept != [] {
      SortedHeadIsLeast(kept, le);
      var n := SortBy(kept, le)[0];
      forall i | 0 <= i < |books| && NotStarted(data, books[i]) ensures n.orderInSeries <= books[i].orderInSeries {
        assert p(books[i]);
        var k :| 0 <= k < |kept| && kept[k] == books[i];
        assert le(n, kept[k]);
      }
    } else {
      forall i | 0 <= i < |books| ensures !NotStarted(data, books[i]) {
        assert !(books[i] in kept) ==> !p(books[i]);
      }
    }
  }

  /** The finished `seriesStats` of one series. */
  function SeriesStatsOf(s: Series, data: seq<ReadingEntry>): (r: SeriesStats)
    ensures r.name == s.name && r.total == |s.books|
    ensures r.completed + r.reading <= r.total
  {
    var next := NextToRead(s.books, data);
    StatsPartition(s.books, data);
    SeriesStats(s.name, |s.books|, CountStatus(s.books, data, COMPLETED), CountStatus(s.books, data, READING),
                if next.Some? then Some(NextBook(next.value.title, next.value.orderInSeries)) else None)
  }

  /** What walking one book with status `st` does to the counters. */
  function Bump(s: Stats, st: string): Stats {
    if st == COMPLETED then s.(total := s.total + 1, completed := s.completed + 1)
    else if st == READING then s.(total := s.total + 1, reading := s.reading + 1)
    else s.(total := s.total + 1, unread := s.unread + 1)
  }

  lemma StatsOfAppend(books: seq<Book>, b: Book, data: seq<ReadingEntry>)
    ensures StatsOf(books + [b], data) == Bump(StatsOf(books, data), StatusOf(data, b.id))
  {
    CountStatusAppend(books, b, data, COMPLETED);
    CountStatusAppend(books, b, data, READING);
    CountOtherAppend(books, b, data);
  }

  /** The body of the `forEach`: count the book overall, then under its
      status, overall and in its series. */
  method Tally(stats0: Stats, series0: SeriesStats, status: string) returns (stats: Stats, seriesStats: SeriesStats)
    ensures stats == Bump(stats0, status)
    ensures seriesStats == series0.(completed := series0.completed + (if status == COMPLETED then 1 else 0),
                                    reading := series0.reading + (if status == READING then 1 else 0))
  {
    stats := stats0.(total := stats0.total + 1);
    seriesStats := series0;
    if status == COMPLETED {
      seriesStats := seriesStats.(completed := seriesStats.completed + 1);
      stats := stats.(completed := stats.completed + 1);
    } else if status == READING {
      seriesStats := seriesStats.(reading := seriesStats.reading + 1);
      stats := stats.(reading := stats.reading + 1);
    } else {
      stats := stats.(unread := stats.unread + 1);
    }
  }

  /** The `forEach` over one series' books: bumps the overall counters
      (which so far count the books `walked`) and the series' own. */
  method WalkSeries(series: Series, data: seq<ReadingEntry>, ghost walked: seq<Book>, stats0: Stats)
    returns (stats: Stats, seriesStats: SeriesStats)
    requires stats0 == StatsOf(walked, data)
    ensures stats == StatsOf(walked + series.books, data)
    ensures seriesStats == SeriesStats(series.name, |series.books|,
      CountStatus(series.books, data, COMPLETED), CountStatus(series.books, data, READING), None)
  {
    stats := stats0;
    seriesStats := SeriesStats(series.name, |series.books|, 0, 0, None);
    ghost var seen := walked;
    ghost var own: seq<Book> := [];
    var j := 0;
    while j < |series.books|
      invariant 0 <= j <= |series.books|
      invariant seen == walked + series.books[..j] && own == series.books[..j]
      invariant stats == StatsOf(seen, data)
      invariant seriesStats == SeriesStats(series.name, |series.books|,
        CountStatus(own, data, COMPLETED), CountStatus(own, data, READING), None)
    {
      var book := series.books[j];
      StatsOfAppend(seen, book, data);
      CountStatusAppend(own, book, data, COMPLETED);
      CountStatusAppend(own, book, data, READING);
      stats, seriesStats := Tally(stats, seriesStats, StatusOf(data, book.id));
      seen := seen + [book];
      own := own + [book];
      assert series.books[..j + 1] == series.books[..j] + [book];
      j := j + 1;
    }
    assert series.books[..j] == series.books;
  }

  lemma AllBooksPrefix(meta: seq<Series>, i: int)
    requires 0 <= i < |meta|
    ensures AllBooks(meta[..i + 1]) == AllBooks(meta[..i]) + meta[i].books
  {
    assert meta[..i + 1] == meta[..i] + [meta[i]];
    AllBooksAppend(meta[..i], meta[i]);
  }

  /** The component's counting pass, as written: one walk over every book of
      every series, bumping the counters. */
  method Compute(meta: seq<Series>, data: seq<ReadingEntry>) returns (stats: Stats, seriesProgress: seq<SeriesStats>)
    ensures stats == StatsOf(AllBooks(meta), data)
    ensures |seriesProgress| == |meta|
    ensures forall i :: 0 <= i < |meta| ==> seriesProgress[i] == SeriesStatsOf(meta[i], data)
  {
    stats := Stats(0, 0, 0, 0);
    seriesProgress := [];
    var i := 0;
    while i < |meta|
      invariant 0 <= i <= |meta|
      invariant stats == StatsOf(AllBooks(meta[..i]), data)
      invariant |seriesProgress| == i
      invariant forall k :: 0 <= k < i ==> seriesProgress[k] == SeriesStatsOf(meta[k], data)
    {
      var series := meta[i];
      var seriesStats;
      stats, seriesStats := WalkSeries(series, data, AllBooks(meta[..i]), stats);
      var nextToRead := NextToRead(series.books, data);
      if nextToRead.Some? {
        seriesStats := seriesStats.(nextBook := Some(NextBook(nextToRead.value.title, nextToRead.value.orderInSeries)));
      }
      assert seriesStats == SeriesStatsOf(series, data);
      ghost var done := seriesProgress;
      seriesProgress := seriesProgress + [seriesStats];
      forall k | 0 <= k < i + 1 ensures seriesProgress[k] == SeriesStatsOf(meta[k], data) {
        if k < i { assert seriesProgress[k] == done[k]; }
      }
      AllBooksPrefix(meta, i);
      i := i + 1;
    }
    assert meta[..i] == meta;
  }

  function SumTotals(ss: seq<SeriesStats>): nat {
    if ss == [] then 0 else ss[0].total + SumTotals(ss[1..])
  }

  function SeriesStatsAll(meta: seq<Series>, data: seq<ReadingEntry>): (r: seq<SeriesStats>)
    ensures |r| == |meta|
    ensures forall i :: 0 <= i < |meta| ==> r[i] == SeriesStatsOf(meta[i], data)
  {
    if meta == [] then [] else [SeriesStatsOf(meta[0], data)] + SeriesStatsAll(meta[1..], data)
  }

  /** The overall total is the sum of the per-series totals, and the three
      overall counters add up to it. */
  lemma {:induction false} TotalsAgree(meta: seq<Series>, data: seq<ReadingEntry>)
    ensures StatsOf(AllBooks(meta), data).total == SumTotals(SeriesStatsAll(meta, data))
    ensures var s := StatsOf(AllBooks(meta), data);
      s.completed + s.reading + s.unread == s.total
  {
    StatsPartition(AllBooks(meta), data);
    if meta != [] {
      TotalsAgree(meta[1..], data);
    }
  }
}
