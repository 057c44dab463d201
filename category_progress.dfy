/** The `POST` handlers of app/api/reading/anthologies/route.ts and
    app/api/reading/singles/route.ts, which are the same code over two tables:
    read the existing row for `(user, book)`, build the row to upsert field
    by field, derive `started_at` and `completed_at` from the status, and
    upsert on the natural key. The store is passed in and returned; whether
    the store accepts the write is a parameter, and so is "now". */
module CategoryProgress {
  import opened Prelude
  import opened ProgressRows

  /** The value of `started_at` before this write, null if there is no row. */
  function PriorStarted(existing: Option<Row>): Option<Timestamp> {
    if existing.Some? then existing.value.startedAt else None
  }

  function PriorCompleted(existing: Option<Row>): Option<Timestamp> {
    if existing.Some? then existing.value.completedAt else None
  }

  /** The row a successful write stores, given the row already there. */
  function NextRow(existing: Option<Row>, user: UserId, body: Body, now: Timestamp): (r: Row)
    ensures r.userId == user && r.itemId == body.bookId
    ensures r.status == StoredStatus(body.status)
    ensures r.rating == StoredRating(body.rating) && r.notes == StoredNotes(body.notes)
    ensures r.updatedAt == now
    // started_at is sticky: once set it is carried over, whatever the status
    ensures PriorStarted(existing).Some? ==> r.startedAt == PriorStarted(existing)
    ensures PriorStarted(existing).None? ==>
      r.startedAt == (if body.status == READING then Some(now) else None)
    // completed_at is refreshed on every `completed`, otherwise carried over
    ensures body.status == COMPLETED ==> r.completedAt == Some(now)
    ensures body.status != COMPLETED ==> r.completedAt == PriorCompleted(existing)
  {
    var started :=
      if body.status == READING && PriorStarted(existing).None? then Some(now)
      else PriorStarted(existing);
    var completed :=
      if body.status == COMPLETED then Some(now) else PriorCompleted(existing);
    Row(user, body.bookId, StoredStatus(body.status), StoredRating(body.rating),
        StoredNotes(body.notes), started, completed, now)
  }

  /** One successful write of `body` by `user`: the upsert replaces or adds
      the row under `(user, bookId)` and touches no other key. */
  function Apply(store: Store, user: UserId, body: Body, now: Timestamp): Store
    requires body.bookId != ""
  {
    var k := Key(user, body.bookId);
    store[k := NextRow(Lookup(store, k), user, body, now)]
  }

  /** The row the upsert leaves under the key when the handler saw `seen`
      while the table held `actual`. The handler puts `started_at` and
      `completed_at` into the upserted object only when it has a value for
      them, and the upsert keeps a column it is not given. */
  function Upserted(actual: Option<Row>, seen: Option<Row>, user: UserId, body: Body, now: Timestamp): (r: Row)
    ensures r.userId == user && r.itemId == body.bookId
    ensures r.status == StoredStatus(body.status)
    ensures r.rating == StoredRating(body.rating) && r.notes == StoredNotes(body.notes)
    ensures r.updatedAt == now
    ensures PriorStarted(seen).Some? ==> r.startedAt == PriorStarted(seen)
    ensures PriorStarted(seen).None? && body.status == READING ==> r.startedAt == Some(now)
    ensures PriorStarted(seen).None? && body.status != READING ==> r.startedAt == PriorStarted(actual)
    ensures body.status == COMPLETED ==> r.completedAt == Some(now)
    ensures body.status != COMPLETED && PriorCompleted(seen).Some? ==> r.completedAt == PriorCompleted(seen)
    ensures body.status != COMPLETED && PriorCompleted(seen).None? ==> r.completedAt == PriorCompleted(actual)
  {
    var started :=
      if body.status == READING && PriorStarted(seen).None? then Some(now)
      else if PriorStarted(seen).Some? then PriorStarted(seen) else PriorStarted(actual);
    var completed :=
      if body.status == COMPLETED then Some(now)
      else if PriorCompleted(seen).Some? then PriorCompleted(seen) else PriorCompleted(actual);
    Row(user, body.bookId, StoredStatus(body.status), StoredRating(body.rating),
        StoredNotes(body.notes), started, completed, now)
  }

  /** When the handler saw the row that is stored, the upsert leaves
      exactly NextRow of it. */
  lemma UpsertedAfterRead(existing: Option<Row>, user: UserId, body: Body, now: Timestamp)
    ensures Upserted(existing, existing, user, body, now) == NextRow(existing, user, body, now)
  {
  }

  /** The error of the read is ignored, so a failed read looks like a
      missing row: a `reading` write then overwrites a `started_at` that the
      stored row already had. */
  lemma FailedReadRestartsReading(store: Store, user: UserId, body: Body, now: Timestamp)
    requires body.status == READING
    requires Key(user, body.bookId) in store
    requires store[Key(user, body.bookId)].startedAt.Some?
    ensures Upserted(Lookup(store, Key(user, body.bookId)), None, user, body, now).startedAt == Some(now)
    ensures NextRow(Lookup(store, Key(user, body.bookId)), user, body, now).startedAt
            == store[Key(user, body.bookId)].startedAt
  {
  }

  /** `POST`: 401 without a user and 400 without `bookId`, both before any
      storage access; then the existing row is read, and a failed read is
      taken for a missing row; 500 when the store rejects the upsert;
      otherwise the one row under `(user, bookId)` is replaced. After a
      successful read that row is NextRow of the old one. */
  method Post(store: Store, user: Option<UserId>, body: Body, now: Timestamp, readOk: bool, accepted: bool)
    returns (resp: Response, store': Store)
    ensures user.None? ==> resp == Failed(401, "Unauthorized") && store' == store
    ensures user.Some? && body.bookId == "" ==>
      resp == Failed(400, "bookId is required") && store' == store
    ensures user.Some? && body.bookId != "" && !accepted ==>
      resp == Failed(500, "Failed to update reading progress") && store' == store
    ensures user.Some? && body.bookId != "" && accepted ==>
      var k := Key(user.value, body.bookId);
      && store' == store[k := Upserted(Lookup(store, k), if readOk then Lookup(store, k) else None,
                                       user.value, body, now)]
      && resp == Saved(store'[k])
    ensures user.Some? && body.bookId != "" && accepted && readOk ==>
      store' == Apply(store, user.value, body, now)
  {
    if user.None? {
      return Failed(401, "Unauthorized"), store;
    }
    if body.bookId == "" {
      return Failed(400, "bookId is required"), store;
    }
    var k := Key(user.value, body.bookId);
    var existing := if readOk then Lookup(store, k) else None;
    // the optional columns of the upserted object; None leaves the key out
    var started: Option<Timestamp> := None;
    var completed: Option<Timestamp> := None;
    if body.status == READING && PriorStarted(existing).None? {
      started := Some(now);
    } else if PriorStarted(existing).Some? {
      started := PriorStarted(existing);
    }
    if body.status == COMPLETED {
      completed := Some(now);
    } else if PriorCompleted(existing).Some? {
      completed := PriorCompleted(existing);
    }
    if !accepted {
      return Failed(500, "Failed to update reading progress"), store;
    }
    var stored := Lookup(store, k);
    var row := Row(user.value, body.bookId, StoredStatus(body.status), StoredRating(body.rating),
                   StoredNotes(body.notes),
                   if started.Some? then started else PriorStarted(stored),
                   if completed.Some? then completed else PriorCompleted(stored), now);
    store' := store[k := row];
    resp := Saved(row);
    if readOk {
      UpsertedAfterRead(stored, user.value, body, now);
    }
  }

  // ------------------------------------------------------------------
  // Histories of successful writes

  datatype Write = Write(user: UserId, body: Body, now: Timestamp)

  function KeyOf(w: Write): Key { Key(w.user, w.body.bookId) }

  /** The store after a sequence of accepted writes, in order; a write
      without `bookId` is answered 400 and changes nothing. */
  function Replay(store: Store, ws: seq<Write>): Store
    decreases |ws|
  {
    if ws == [] then store
    else
      var w := ws[0];
      var next := if w.body.bookId == "" then store else Apply(store, w.user, w.body, w.now);
      Replay(next, ws[1..])
  }

  /** The time of the first `reading` write to `k`, if any. */
  function FirstReading(ws: seq<Write>, k: Key): Option<Timestamp> {
    if ws == [] then None
    else if KeyOf(ws[0]) == k && ws[0].body.bookId != "" && ws[0].body.status == READING then Some(ws[0].now)
    else FirstReading(ws[1..], k)
  }

  /** The time of the last `completed` write to `k`, if any. */
  function LastCompleted(ws: seq<Write>, k: Key): Option<Timestamp> {
    if ws == [] then None
    else
      var later := LastCompleted(ws[1..], k);
      if later.Some? then later
      else if KeyOf(ws[0]) == k && ws[0].body.bookId != "" && ws[0].body.status == COMPLETED then Some(ws[0].now)
      else None
  }

  predicate Targets(ws: seq<Write>, k: Key) {
    exists i | 0 <= i < |ws| :: KeyOf(ws[i]) == k && ws[i].body.bookId != ""
  }

  /** Upsert on the natural key: after any history there is exactly one row
      per pair that was in the store or was written, and no other. */
  lemma {:induction false} ReplayKeys(store: Store, ws: seq<Write>, k: Key)
    ensures k in Replay(store, ws) <==> k in store || Targets(ws, k)
    decreases |ws|
  {
    if ws != [] {
      var w := ws[0];
      var next := if w.body.bookId == "" then store else Apply(store, w.user, w.body, w.now);
      ReplayKeys(next, ws[1..], k);
      assert k in next <==> k in store || (KeyOf(w) == k && w.body.bookId != "");
      if Targets(ws[1..], k) {
        var i :| 0 <= i < |ws[1..]| && KeyOf(ws[1..][i]) == k && ws[1..][i].body.bookId != "";
        assert KeyOf(ws[i + 1]) == k && ws[i + 1].body.bookId != "";
      }
      if Targets(ws, k) && !(KeyOf(w) == k && w.body.bookId != "") {
        var i :| 0 <= i < |ws| && KeyOf(ws[i]) == k && ws[i].body.bookId != "";
        assert i > 0 && ws[1..][i - 1] == ws[i];
      }
    }
  }

  /** `started_at` is the time of the first `reading` write, unless the row
      already had one: it is set once, never cleared and never overwritten. */
  lemma {:induction false} StartedAtIsFirstReading(store: Store, ws: seq<Write>, k: Key)
    requires k in Replay(store, ws)
    ensures Replay(store, ws)[k].startedAt ==
      (if PriorStarted(Lookup(store, k)).Some? then PriorStarted(Lookup(store, k)) else FirstReading(ws, k))
    decreases |ws|
  {
    if ws != [] {
      var w := ws[0];
      var next := if w.body.bookId == "" then store else Apply(store, w.user, w.body, w.now);
      StartedAtIsFirstReading(next, ws[1..], k);
    }
  }

  /** `completed_at` is the time of the last `completed` write, and without
      one it is whatever the row had: a regression never clears it. */
  lemma {:induction false} CompletedAtIsLastCompletion(store: Store, ws: seq<Write>, k: Key)
    requires k in Replay(store, ws)
    ensures Replay(store, ws)[k].completedAt ==
      (if LastCompleted(ws, k).Some? then LastCompleted(ws, k) else PriorCompleted(Lookup(store, k)))
    decreases |ws|
  {
    if ws != [] {
      var w := ws[0];
      var next := if w.body.bookId == "" then store else Apply(store, w.user, w.body, w.now);
      CompletedAtIsLastCompletion(next, ws[1..], k);
    }
  }
}
