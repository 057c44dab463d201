/** app/api/reading/route.ts: the file-backed tracker. `POST` looks the book
    up in `tracker.readingData`, overwrites that entry in place with a merge
    of the old entry and the request body, or pushes a new entry; then the
    tracker is saved. Reading and saving the file are not modelled beyond
    whether they succeed. */
module FileTracker {
  import opened Prelude
  import opened Catalog

  /** `Partial<ReadingEntry>`: each field present or absent. */
  datatype EntryBody = EntryBody(
    bookId: string,
    status: Option<string>,
    rating: Option<int>,
    notes: Option<string>,
    startedAt: Option<Timestamp>,
    completedAt: Option<Timestamp>)

  /** `{ ...existing, ...body, bookId, startedAt, completedAt }`: fields the
      body carries override the entry's, fields it lacks are kept, and the
      two timestamps follow the status rules whatever the body says. */
  function Merged(existing: ReadingEntry, body: EntryBody, now: Timestamp): (e: ReadingEntry)
    ensures e.bookId == body.bookId
    ensures body.status.Some? ==> e.status == body.status.value
    ensures body.status.None? ==> e.status == existing.status
    ensures e.rating == (if body.rating.Some? then body.rating else existing.rating)
    ensures e.notes == (if body.notes.Some? then body.notes else existing.notes)
    ensures existing.startedAt.Some? ==> e.startedAt == existing.startedAt
    ensures existing.startedAt.None? ==> (e.startedAt.Some? <==> body.status == Some(READING))
    ensures e.startedAt.Some? && existing.startedAt.None? ==> e.startedAt == Some(now)
    ensures body.status == Some(COMPLETED) ==> e.completedAt == Some(now)
    ensures body.status != Some(COMPLETED) ==> e.completedAt == existing.completedAt
  {
    ReadingEntry(
      body.bookId,
      if body.status.Some? then body.status.value else existing.status,
      if body.rating.Some? then body.rating else existing.rating,
      if body.notes.Some? then body.notes else existing.notes,
      if body.status == Some(READING) && existing.startedAt.None? then Some(now) else existing.startedAt,
      if body.status == Some(COMPLETED) then Some(now) else existing.completedAt)
  }

  /** The entry pushed for a book the tracker does not know yet. */
  function NewEntry(body: EntryBody, now: Timestamp): (e: ReadingEntry)
    ensures e.bookId == body.bookId
    ensures e.status == (if body.status.Some? && body.status.value != "" then body.status.value else UNREAD)
    ensures e.rating == body.rating && e.notes == body.notes
    ensures e.startedAt.Some? <==> body.status == Some(READING)
    ensures e.completedAt.Some? <==> body.status == Some(COMPLETED)
    ensures e.startedAt.Some? ==> e.startedAt == Some(now)
    ensures e.completedAt.Some? ==> e.completedAt == Some(now)
  {
    ReadingEntry(
      body.bookId,
      if body.status.Some? && body.status.value != "" then body.status.value else UNREAD,
      body.rating,
      body.notes,
      if body.status == Some(READING) then Some(now) else None,
      if body.status == Some(COMPLETED) then Some(now) else None)
  }

  /** The tracker's entries after a successful `POST` of `body`. */
  function Upserted(data: seq<ReadingEntry>, body: EntryBody, now: Timestamp): (r: seq<ReadingEntry>)
    ensures FindIndex(data, body.bookId) >= 0 ==>
      var i := FindIndex(data, body.bookId);
      && |r| == |data|
      && r[i] == Merged(data[i], body, now)
      && (forall j :: 0 <= j < |data| && j != i ==> r[j] == data[j])
    ensures FindIndex(data, body.bookId) < 0 ==> r == data + [NewEntry(body, now)]
  {
    var i := FindIndex(data, body.bookId);
    if i >= 0 then data[i := Merged(data[i], body, now)] else data + [NewEntry(body, now)]
  }

  /** After a `POST` the book has exactly the entry it had before (now
      merged), or the new one: the tracker never holds a second entry for a
      book it already had. */
  lemma UpsertedFindsBook(data: seq<ReadingEntry>, body: EntryBody, now: Timestamp)
    ensures var r := Upserted(data, body, now);
      var i := FindIndex(data, body.bookId);
      && FindIndex(r, body.bookId) == (if i >= 0 then i else |data|)
      && (forall j :: 0 <= j < |r| && r[j].bookId == body.bookId && i >= 0 ==> j == i || data[j].bookId == body.bookId)
  {
    var r := Upserted(data, body, now);
    var i := FindIndex(data, body.bookId);
    var k := FindIndex(r, body.bookId);
    if i >= 0 {
      assert r[i].bookId == body.bookId;
    } else {
      assert r[|data|].bookId == body.bookId;
    }
  }

  /** The tracker file's contents, held as the array `readingData`. */
  class Tracker {
    var readingData: seq<ReadingEntry>

    constructor (data: seq<ReadingEntry>)
      ensures readingData == data
    {
      readingData := data;
    }

    /** `POST /api/reading`: 400 and no change without `bookId`; 500 and no
        change when the file cannot be read or written; otherwise the entry
        at the found index is replaced in place, or a new one is pushed. */
    method Post(body: EntryBody, now: Timestamp, fileOk: bool) returns (code: int)
      modifies this
      ensures body.bookId == "" ==> code == 400 && readingData == old(readingData)
      ensures body.bookId != "" && !fileOk ==> code == 500 && readingData == old(readingData)
      ensures body.bookId != "" && fileOk ==>
        code == 200 && readingData == Upserted(old(readingData), body, now)
    {
      if body.bookId == "" {
        return 400;
      }
      if !fileOk {
        return 500;
      }
      var existingIndex := FindIndex(readingData, body.bookId);
      if existingIndex >= 0 {
        var existing := readingData[existingIndex];
        readingData := readingData[existingIndex := Merged(existing, body, now)];
      } else {
        readingData := readingData + [NewEntry(body, now)];
      }
      code := 200;
    }
  }
}
