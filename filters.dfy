/** app/api/filters/route.ts: the distinct tags and factions of the book
    rows, each list sorted. The `faction, tags` query is the `fetch`
    parameter. */
module Filters {
  import opened Prelude

  /** The label columns of a book: `faction` and `tags`, `None` when null
      or absent. */
  datatype LabelledBook = LabelledBook(faction: Option<seq<string>>, tags: Option<seq<string>>)

  /** `labels?.forEach(...)` walks nothing for a null array. */
  function OrEmpty(labels: Option<seq<string>>): seq<string> {
    if labels.Some? then labels.value else []
  }

  /** The set after walking the books `books`, adding each book's `pick`. */
  function Seen(books: seq<LabelledBook>, pick: LabelledBook -> seq<string>): seq<string> {
    if books == [] then [] else SetAddAll(Seen(books[..|books| - 1], pick), pick(books[|books| - 1]))
  }

  function Tags(): LabelledBook -> seq<string> {
    (b: LabelledBook) => OrEmpty(b.tags)
  }

  function Factions(): LabelledBook -> seq<string> {
    (b: LabelledBook) => OrEmpty(b.faction)
  }

  /** One book's turn in the `forEach`: its tags into `tagsSet`, its
      factions into `factionsSet`. */
  method AddLabels(tags0: seq<string>, factions0: seq<string>, book: LabelledBook)
    returns (tags: seq<string>, factions: seq<string>)
    ensures tags == SetAddAll(tags0, Tags()(book)) && factions == SetAddAll(factions0, Factions()(book))
  {
    tags := tags0;
    factions := factions0;
    if book.tags.Some? {
      tags := AddEach(tags, book.tags.value);
    }
    if book.faction.Some? {
      factions := AddEach(factions, book.faction.value);
    }
  }

  /** `books?.forEach(...)`: the two sets in insertion order. */
  method CollectLabels(books: seq<LabelledBook>) returns (tags: seq<string>, factions: seq<string>)
    ensures tags == Seen(books, Tags()) && factions == Seen(books, Factions())
  {
    tags := [];
    factions := [];
    var i := 0;
    while i < |books|
      invariant 0 <= i <= |books|
      invariant tags == Seen(books[..i], Tags()) && factions == Seen(books[..i], Factions())
    {
      assert books[..i + 1][..i] == books[..i];
      tags, factions := AddLabels(tags, factions, books[i]);
      i := i + 1;
    }
    assert books[..i] == books;
  }

  /** The set holds each label of some book, once, and nothing else. */
  lemma {:induction false} SeenCorrect(books: seq<LabelledBook>, pick: LabelledBook -> seq<string>)
    ensures NoDuplicates(Seen(books, pick))
    ensures forall x :: x in Seen(books, pick) <==> exists i :: 0 <= i < |books| && x in pick(books[i])
  {
    if books != [] {
      var n := |books| - 1;
      var init := books[..n];
      SeenCorrect(init, pick);
      SetAddAllCorrect(Seen(init, pick), pick(books[n]));
      forall x | x in Seen(books, pick) ensures exists i :: 0 <= i < |books| && x in pick(books[i]) {
        if x in Seen(init, pick) {
          var i :| 0 <= i < |init| && x in pick(init[i]);
          assert books[i] == init[i];
        }
      }
      forall x | exists i :: 0 <= i < |books| && x in pick(books[i]) ensures x in Seen(books, pick) {
        var i :| 0 <= i < |books| && x in pick(books[i]);
        if i < n {
          assert books[i] == init[i];
        }
      }
    }
  }

  /** `Array.from(set).sort()` of what the books carry under `pick`: every
      such label once, in strictly ascending order. */
  lemma SortedLabelsCorrect(books: seq<LabelledBook>, pick: LabelledBook -> seq<string>)
    ensures StrictlyIncreasing(SortStrings(Seen(books, pick)))
    ensures forall x :: x in SortStrings(Seen(books, pick)) <==> exists i :: 0 <= i < |books| && x in pick(books[i])
  {
    SeenCorrect(books, pick);
    SortStringsCorrect(Seen(books, pick));
  }

  /** What the query returns: an error, or the rows (`null` when there
      are none). */
  datatype Fetch = FetchError | Fetched(books: Option<seq<LabelledBook>>)

  datatype Response = Failure(status: int, error: string) | LabelLists(tags: seq<string>, factions: seq<string>)

  /** `GET`: 500 on a query error; otherwise the sorted distinct tags and
      factions. */
  method Get(fetch: Fetch) returns (res: Response)
    ensures fetch.FetchError? ==> res == Failure(500, "Failed to fetch filters")
    ensures fetch.Fetched? ==>
      var books := if fetch.books.Some? then fetch.books.value else [];
      res == LabelLists(SortStrings(Seen(books, Tags())), SortStrings(Seen(books, Factions())))
  {
    if fetch.FetchError? {
      return Failure(500, "Failed to fetch filters");
    }
    var books := if fetch.books.Some? then fetch.books.value else [];
    var tagsSet, factionsSet := CollectLabels(books);
    res := LabelLists(SortStrings(tagsSet), SortStrings(factionsSet));
  }
}
