/** lib/supabase/queries.ts: `upsertReadingProgress`, which writes the
    `reading_progress` table with the same timestamp rules as the category
    routes but spreads a caller-supplied partial record into the row, and
    `getSeriesWithBooks`, which orders each series' books and reshapes them. */
module ProgressQueries {
  import opened Prelude
  import opened Catalog

  /** `Partial<ReadingProgress>`: every column optional. */
  datatype Updates = Updates(
    userId: Option<string>,
    bookId: Option<string>,
    status: Option<string>,
    rating: Option<int>,
    notes: Option<string>,
    startedAt: Option<Timestamp>,
    completedAt: Option<Timestamp>,
    updatedAt: Option<Timestamp>)

  /** One row of `reading_progress`; `None` is SQL null. */
  datatype Row = Row(
    userId: string,
    bookId: string,
    status: Option<string>,
    rating: Option<int>,
    notes: Option<string>,
    startedAt: Option<Timestamp>,
    completedAt: Option<Timestamp>,
    updatedAt: Option<Timestamp>)

  datatype Key = Key(userId: string, bookId: string)

  type Store = map<Key, Row>

  /** The record handed to `upsert`: `user_id` and `book_id` always, the other
      columns only when present (a column that is `None` here is not written). */
  type Patch = Updates

  function Or<T>(a: Option<T>, b: T): T { if a.Some? then a.value else b }

  function Lookup(store: Store, k: Key): Option<Row> {
    if k in store then Some(store[k]) else None
  }

  function Pick<T>(written: Option<T>, kept: Option<T>): Option<T> {
    if written.Some? then written else kept
  }

  /** The upsert on `(user_id, book_id)`: the patch's columns are written;
      on conflict the others keep their values, on insert they are null. */
  function Merge(store: Store, p: Patch): (store': Store)
    requires p.userId.Some? && p.bookId.Some?
    ensures store'.Keys == store.Keys + {Key(p.userId.value, p.bookId.value)}
    ensures forall k :: k in store && k != Key(p.userId.value, p.bookId.value) ==> store'[k] == store[k]
    // a column the patch names is written; any other keeps the stored value, null on insert
    ensures var k := Key(p.userId.value, p.bookId.value);
      var r := store'[k];
      && r.userId == k.userId && r.bookId == k.bookId
      && (p.status.Some? ==> r.status == p.status)
      && (p.rating.Some? ==> r.rating == p.rating)
      && (p.notes.Some? ==> r.notes == p.notes)
      && (p.startedAt.Some? ==> r.startedAt == p.startedAt)
      && (p.completedAt.Some? ==> r.completedAt == p.completedAt)
      && (p.updatedAt.Some? ==> r.updatedAt == p.updatedAt)
      && (p.status.None? ==> r.status == (if k in store then store[k].status else None))
      && (p.rating.None? ==> r.rating == (if k in store then store[k].rating else None))
      && (p.notes.None? ==> r.notes == (if k in store then store[k].notes else None))
      && (p.startedAt.None? ==> r.startedAt == (if k in store then store[k].startedAt else None))
      && (p.completedAt.None? ==> r.completedAt == (if k in store then store[k].completedAt else None))
      && (p.updatedAt.None? ==> r.updatedAt == (if k in store then store[k].updatedAt else None))
  {
    var k := Key(p.userId.value, p.bookId.value);
    var e := Lookup(store, k);
    var r := if e.Some? then e.value else Row(k.userId, k.bookId, None, None, None, None, None, None);
    store[k := Row(k.userId, k.bookId, Pick(p.status, r.status), Pick(p.rating, r.rating),
                   Pick(p.notes, r.notes), Pick(p.startedAt, r.startedAt),
                   Pick(p.completedAt, r.completedAt), Pick(p.updatedAt, r.updatedAt))]
  }

  /** `{ user_id, book_id, ...updates }` followed by the timestamp rules.
      The spread comes last, so a `user_id` or `book_id` in `updates` wins. */
  function PatchFor(existing: Option<Row>, userId: string, bookId: string, u: Updates, now: Timestamp)
    : (p: Patch)
    ensures p.userId == Some(Or(u.userId, userId)) && p.bookId == Some(Or(u.bookId, bookId))
    ensures p.status == u.status && p.rating == u.rating && p.notes == u.notes
    ensures p.updatedAt == u.updatedAt
    // an existing started_at overrides anything in updates
    ensures existing.Some? && existing.value.startedAt.Some? ==> p.startedAt == existing.value.startedAt
    ensures (existing.None? || existing.value.startedAt.None?) ==>
      p.startedAt == (if u.status == Some(READING) then Some(now) else u.startedAt)
    // completed_at is now on `completed`, else the existing one, else updates'
    ensures u.status == Some(COMPLETED) ==> p.completedAt == Some(now)
    ensures u.status != Some(COMPLETED) && existing.Some? && existing.value.completedAt.Some? ==>
      p.completedAt == existing.value.completedAt
    ensures u.status != Some(COMPLETED) && (existing.None? || existing.value.completedAt.None?) ==>
      p.completedAt == u.completedAt
  {
    var priorStart := if existing.Some? then existing.value.startedAt else None;
    var priorDone := if existing.Some? then existing.value.completedAt else None;
    u.(userId := Some(Or(u.userId, userId)), bookId := Some(Or(u.bookId, bookId)),
       startedAt := if u.status == Some(READING) && priorStart.None? then Some(now)
                    else if priorStart.Some? then priorStart else u.startedAt,
       completedAt := if u.status == Some(COMPLETED) then Some(now)
                      else if priorDone.Some? then priorDone else u.completedAt)
  }

  datatype Outcome = Stored(row: Row) | Thrown

  /** `upsertReadingProgress(userId, bookId, updates)`: reads the existing
      row, builds the record to upsert field by field, and upserts it; a
      store error is thrown to the caller and nothing is written. The error
      of the read is ignored, so a failed read (`readOk` false) builds the
      record as if there were no row. */
  method UpsertReadingProgress(store: Store, userId: string, bookId: string, u: Updates,
                               now: Timestamp, readOk: bool, accepted: bool)
    returns (out: Outcome, store': Store)
    ensures !accepted ==> out == Thrown && store' == store
    ensures accepted ==>
      var seen := if readOk then Lookup(store, Key(userId, bookId)) else None;
      var p := PatchFor(seen, userId, bookId, u, now);
      && store' == Merge(store, p)
      && out == Stored(store'[Key(p.userId.value, p.bookId.value)])
  {
    var existing := if readOk then Lookup(store, Key(userId, bookId)) else None;
    var data := u.(userId := Some(Or(u.userId, userId)), bookId := Some(Or(u.bookId, bookId)));
    if u.status == Some(READING) && (existing.None? || existing.value.startedAt.None?) {
      data := data.(startedAt := Some(now));
    } else if existing.Some? && existing.value.startedAt.Some? {
      data := data.(startedAt := existing.value.startedAt);
    }
    if u.status == Some(COMPLETED) {
      data := data.(completedAt := Some(now));
    } else if existing.Some? && existing.value.completedAt.Some? {
      data := data.(completedAt := existing.value.completedAt);
    }
    if !accepted {
      return Thrown, store;
    }
    store' := Merge(store, data);
    out := Stored(store'[Key(data.userId.value, data.bookId.value)]);
  }

  /** When `updates` names neither `user_id` nor `book_id`, the row written
      is the one under `(userId, bookId)`, its `started_at` is never lost
      and a `completed` write stamps it with `now`. */
  lemma UpsertOnNaturalKey(store: Store, userId: string, bookId: string, u: Updates, now: Timestamp)
    requires u.userId.None? && u.bookId.None?
    ensures var k := Key(userId, bookId);
      var store' := Merge(store, PatchFor(Lookup(store, k), userId, bookId, u, now));
      && store'.Keys == store.Keys + {k}
      && (k in store && store[k].startedAt.Some? ==> store'[k].startedAt == store[k].startedAt)
      && (u.status == Some(COMPLETED) ==> store'[k].completedAt == Some(now))
      && (k in store && store[k].completedAt.Some? ==> store'[k].completedAt.Some?)
  {
  }

  /** After a failed read a `reading` write stamps `started_at` with `now`,
      overwriting the value the stored row already had; a write of any other
      status leaves both timestamps as they were stored. */
  lemma FailedReadRestartsReading(store: Store, userId: string, bookId: string, u: Updates, now: Timestamp)
    requires u.userId.None? && u.bookId.None? && u.startedAt.None? && u.completedAt.None?
    ensures var k := Key(userId, bookId);
      var store' := Merge(store, PatchFor(None, userId, bookId, u, now));
      && (u.status == Some(READING) ==> store'[k].startedAt == Some(now))
      && (u.status != Some(READING) ==> store'[k].startedAt == (if k in store then store[k].startedAt else None))
      && (u.status != Some(COMPLETED) ==> store'[k].completedAt == (if k in store then store[k].completedAt else None))
  {
  }

  // ------------------------------------------------------------------
  // getSeriesWithBooks

  /** A `books` row as the `series` query embeds it. */
  datatype DbBook = DbBook(id: string, title: string, author: string, orderInSeries: int,
                           legion: Option<seq<string>>, tags: Option<seq<string>>)

  datatype DbSeries = DbSeries(id: string, name: string, description: string, books: seq<DbBook>)

  /** The per-book reshaping: `order_in_series` becomes `orderInSeries`;
      `legion` and `tags` are copied, and no other field is carried. */
  function ToBook(b: DbBook): (r: Book)
    ensures r.id == b.id && r.title == b.title && r.author == b.author
    ensures r.orderInSeries == b.orderInSeries && r.legion == b.legion && r.tags == b.tags
    ensures r.faction.None? && r.chronologicalOrder.None?
  {
    Book(b.id, b.title, b.author, b.orderInSeries, None, None, b.tags, b.legion)
  }

  function ByOrder(): (DbBook, DbBook) -> bool {
    (a: DbBook, b: DbBook) => a.orderInSeries <= b.orderInSeries
  }

  function MapToBook(bs: seq<DbBook>): (r: seq<Book>)
    ensures |r| == |bs|
    ensures forall i :: 0 <= i < |bs| ==> r[i] == ToBook(bs[i])
  {
    if bs == [] then [] else [ToBook(bs[0])] + MapToBook(bs[1..])
  }

  /** One series: fields passed through, books sorted by `order_in_series`. */
  function ShapeSeries(s: DbSeries): Series {
    Series(s.id, s.name, s.description, MapToBook(SortBy(s.books, ByOrder())))
  }

  /** `getSeriesWithBooks()` after the query: series in query order. */
  function GetSeriesWithBooks(data: seq<DbSeries>): (r: seq<Series>)
    ensures |r| == |data|
    ensures forall i :: 0 <= i < |data| ==> r[i] == ShapeSeries(data[i])
  {
    if data == [] then [] else [ShapeSeries(data[0])] + GetSeriesWithBooks(data[1..])
  }

  /** Each shaped series keeps its id, name and description and lists its
      own books, every one exactly once, ascending by `orderInSeries`. */
  lemma ShapeSeriesCorrect(s: DbSeries)
    ensures var r := ShapeSeries(s);
      && r.id == s.id && r.name == s.name && r.description == s.description
      && |r.books| == |s.books|
      && (forall i, j :: 0 <= i < j < |r.books| ==> r.books[i].orderInSeries <= r.books[j].orderInSeries)
      && multiset(r.books) == multiset(MapToBook(s.books))
  {
    var le := ByOrder();
    assert TotalPreorder(le);
    var sorted := SortBy(s.books, le);
    SortByIsSorted(s.books, le);
    MapToBookSort(s.books, le);
  }

  lemma {:induction false} MapToBookInsert(x: DbBook, s: seq<DbBook>, le: (DbBook, DbBook) -> bool)
    ensures multiset(MapToBook(Insert(x, s, le))) == multiset(MapToBook(s)) + multiset{ToBook(x)}
    decreases |s|
  {
    if s == [] || le(x, s[0]) {
      assert ([x] + s)[1..] == s;
    } else {
      MapToBookInsert(x, s[1..], le);
      var t := Insert(x, s[1..], le);
      assert ([s[0]] + t)[1..] == t;
      assert MapToBook(s) == [ToBook(s[0])] + MapToBook(s[1..]);
    }
  }

  lemma {:induction false} MapToBookSort(s: seq<DbBook>, le: (DbBook, DbBook) -> bool)
    ensures multiset(MapToBook(SortBy(s, le))) == multiset(MapToBook(s))
    decreases |s|
  {
    if s != [] {
      MapToBookSort(s[1..], le);
      MapToBookInsert(s[0], SortBy(s[1..], le), le);
    }
  }
}
