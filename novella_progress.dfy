/** The `POST` handler of app/api/reading/novellas/route.ts. Unlike the
    anthologies and singles routes it passes one object literal to the
    upsert and does no timestamp bookkeeping. The upsert writes only the
    columns the literal names: on conflict the other columns of the row
    keep their values, and a new row has them null. */
module NovellaProgress {
  import opened Prelude
  import opened ProgressRows

  /** The object literal given to `upsert`: these six columns and no other. */
  datatype Payload = Payload(
    userId: UserId,
    novellaId: string,
    status: string,
    rating: Option<int>,
    notes: Option<string>,
    updatedAt: Timestamp)

  function PayloadOf(user: UserId, body: Body, now: Timestamp): (p: Payload)
    ensures p.userId == user && p.novellaId == body.bookId
    ensures p.status == StoredStatus(body.status)
    ensures p.rating == StoredRating(body.rating) && p.notes == StoredNotes(body.notes)
    ensures p.updatedAt == now
  {
    Payload(user, body.bookId, StoredStatus(body.status), StoredRating(body.rating),
            StoredNotes(body.notes), now)
  }

  /** Upsert on `(user_id, novella_id)`: the payload's columns are written,
      `started_at` and `completed_at` are those of the existing row (null
      for a new row), and no other key is touched. */
  function Upsert(store: Store, p: Payload): (store': Store)
    ensures store'.Keys == store.Keys + {Key(p.userId, p.novellaId)}
    ensures forall k :: k in store && k != Key(p.userId, p.novellaId) ==> store'[k] == store[k]
    ensures var k := Key(p.userId, p.novellaId);
      store'[k] == Row(p.userId, p.novellaId, p.status, p.rating, p.notes,
                       if k in store then store[k].startedAt else None,
                       if k in store then store[k].completedAt else None,
                       p.updatedAt)
  {
    var k := Key(p.userId, p.novellaId);
    var old_ := Lookup(store, k);
    var started := if old_.Some? then old_.value.startedAt else None;
    var completed := if old_.Some? then old_.value.completedAt else None;
    store[k := Row(p.userId, p.novellaId, p.status, p.rating, p.notes, started, completed, p.updatedAt)]
  }

  /** `POST`: 401 without a user, 400 without `bookId`, 500 when the store
      rejects the write, otherwise the payload is upserted. */
  function Post(store: Store, user: Option<UserId>, body: Body, now: Timestamp, accepted: bool)
    : (out: (Response, Store))
    ensures user.None? ==> out == (Failed(401, "Unauthorized"), store)
    ensures user.Some? && body.bookId == "" ==> out == (Failed(400, "bookId is required"), store)
    ensures user.Some? && body.bookId != "" && !accepted ==>
      out == (Failed(500, "Failed to update reading progress"), store)
    ensures user.Some? && body.bookId != "" && accepted ==>
      var k := Key(user.value, body.bookId);
      && out.1 == Upsert(store, PayloadOf(user.value, body, now))
      && out.0 == Saved(out.1[k])
  {
    if user.None? then (Failed(401, "Unauthorized"), store)
    else if body.bookId == "" then (Failed(400, "bookId is required"), store)
    else if !accepted then (Failed(500, "Failed to update reading progress"), store)
    else
      var store' := Upsert(store, PayloadOf(user.value, body, now));
      (Saved(store'[Key(user.value, body.bookId)]), store')
  }

  /** The store after a history of `POST` calls by signed-in users whose
      writes the store accepted. */
  function Replay(store: Store, ws: seq<(UserId, Body, Timestamp)>): Store
    decreases |ws|
  {
    if ws == [] then store
    else Replay(Post(store, Some(ws[0].0), ws[0].1, ws[0].2, true).1, ws[1..])
  }

  /** Whatever statuses are written, this route never sets, clears or
      changes `started_at` or `completed_at`: every row keeps the values it
      had, and a row it creates has neither. */
  lemma {:induction false} TimestampsUntouched(store: Store, ws: seq<(UserId, Body, Timestamp)>, k: Key)
    requires k in Replay(store, ws)
    ensures Replay(store, ws)[k].startedAt == (if k in store then store[k].startedAt else None)
    ensures Replay(store, ws)[k].completedAt == (if k in store then store[k].completedAt else None)
    decreases |ws|
  {
    if ws != [] {
      var next := Post(store, Some(ws[0].0), ws[0].1, ws[0].2, true).1;
      TimestampsUntouched(next, ws[1..], k);
    }
  }
}
