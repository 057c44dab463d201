/** Rows of the per-category reading-progress tables and the request body
    of the progress routes, shared by the anthologies, singles and novellas
    handlers. Storage is a map keyed by the natural key `(user_id, item id)`,
    which is the upsert conflict target of every one of these tables. */
module ProgressRows {
  import opened Prelude

  type UserId = string

  /** `(user_id, anthology_id)`, `(user_id, single_id)` or `(user_id, novella_id)`. */
  datatype Key = Key(userId: UserId, itemId: string)

  /** One row of a `reading_progress_*` table; `None` is SQL null. */
  datatype Row = Row(
    userId: UserId,
    itemId: string,
    status: string,
    rating: Option<int>,
    notes: Option<string>,
    startedAt: Option<Timestamp>,
    completedAt: Option<Timestamp>,
    updatedAt: Timestamp)

  type Store = map<Key, Row>

  /** The JSON body `{ bookId, status, rating, notes }`. A missing string
      field is the empty string, so a falsy string is exactly "". */
  datatype Body = Body(bookId: string, status: string, rating: Option<int>, notes: string)

  /** A row as `GET` returns it: every column plus `book_id`. */
  datatype ClientRow = ClientRow(row: Row, bookId: string)

  datatype Response =
    | Saved(row: Row)
    | Listed(rows: seq<ClientRow>)
    | Failed(code: int, error: string)

  /** `status || 'unread'`. */
  function StoredStatus(status: string): (r: string)
    ensures r != ""
    ensures status != "" ==> r == status
  {
    if status == "" then UNREAD else status
  }

  /** `rating || null`: a missing rating and the falsy rating 0 become null. */
  function StoredRating(rating: Option<int>): (r: Option<int>)
    ensures r.Some? <==> rating.Some? && rating.value != 0
    ensures r.Some? ==> r == rating
  {
    if rating.Some? && rating.value != 0 then rating else None
  }

  /** `notes || null`: missing or empty notes become null. */
  function StoredNotes(notes: string): (r: Option<string>)
    ensures r.Some? <==> notes != ""
    ensures r.Some? ==> r.value == notes
  {
    if notes == "" then None else Some(notes)
  }

  function Lookup(store: Store, k: Key): Option<Row> {
    if k in store then Some(store[k]) else None
  }

  /** The `book_id` remapping of `GET`: the rows of one user, each returned
      unchanged together with `book_id` equal to its item id. */
  function RemapForClient(table: seq<Row>, user: UserId): (out: seq<ClientRow>)
    ensures |out| <= |table|
    ensures forall c :: c in out ==> c.row in table && c.row.userId == user && c.bookId == c.row.itemId
    ensures forall r :: r in table && r.userId == user ==> ClientRow(r, r.itemId) in out
  {
    if table == [] then []
    else
      var rest := RemapForClient(table[1..], user);
      if table[0].userId == user then [ClientRow(table[0], table[0].itemId)] + rest else rest
  }

  /** The `GET` handler shared by the three category routes: 401 without a
      user, 500 when the query fails, otherwise the user's remapped rows. */
  function Get(user: Option<UserId>, table: seq<Row>, queryOk: bool): (r: Response)
    ensures user.None? ==> r == Failed(401, "Unauthorized")
    ensures user.Some? && !queryOk ==> r == Failed(500, "Failed to fetch reading progress")
    ensures user.Some? && queryOk ==> r.Listed?
    ensures user.Some? && queryOk ==>
      forall c :: c in r.rows ==> c.row in table && c.row.userId == user.value && c.bookId == c.row.itemId
    ensures user.Some? && queryOk ==>
      forall row :: row in table && row.userId == user.value ==> ClientRow(row, row.itemId) in r.rows
  {
    if user.None? then Failed(401, "Unauthorized")
    else if !queryOk then Failed(500, "Failed to fetch reading progress")
    else Listed(RemapForClient(table, user.value))
  }
}
