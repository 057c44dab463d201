/** scripts/validate-book-ids.js: `validateAllIds`, which records the IDs of
    the series books and of the singles, novellas and anthologies files,
    table by table, and fails on a missing ID, an unreadable file or an ID
    that occurs twice in one table. An ID shared by two tables is only a
    warning. Directory listings and file contents are parameters; each
    table keeps the number of occurrences of each ID. */
module ValidateIds {
  import opened Prelude

  /** The four ID tables, in the order the script checks them. */
  datatype Table = SeriesBooks | Singles | Novellas | Anthologies

  const Tables: seq<Table> := [SeriesBooks, Singles, Novellas, Anthologies]

  /** A book of a series file; `""` is a missing (falsy) ID. */
  datatype BookJson = BookJson(id: string, title: string)

  /** A series file: `Unreadable` when reading or parsing throws; `books`
      is `None` when it is missing or not an array. */
  datatype SeriesJson = Unreadable | SeriesFile(name: string, books: Option<seq<BookJson>>)

  /** A singles, novellas or anthologies file. */
  datatype ItemJson = UnreadableItem | ItemFile(id: string, title: string)

  /** The occurrences recorded per ID, and the `hasErrors` flag. */
  datatype Tally = Tally(table: map<string, nat>, hasErrors: bool)

  const Start: Tally := Tally(map[], false)

  function Count(t: map<string, nat>, id: string): nat {
    if id in t then t[id] else 0
  }

  /** `if (!map.has(id)) map.set(id, []); map.get(id).push(...)`. */
  function Record(t: map<string, nat>, id: string): map<string, nat> {
    t[id := Count(t, id) + 1]
  }

  /** `f.endsWith('.json') && !f.startsWith('_')`. */
  predicate Checked(f: string) {
    EndsWith(f, ".json") && !StartsWith(f, "_")
  }

  function CheckedFiles(names: seq<string>): (r: seq<string>)
    ensures forall f :: f in r <==> f in names && Checked(f)
  {
    var r := Filter(names, (f: string) => Checked(f));
    assert forall f :: f in names && Checked(f) ==> f in r by {
      forall f | f in names && Checked(f) ensures f in r {
        var i :| 0 <= i < |names| && names[i] == f;
      }
    }
    r
  }

  // ---------------------------------------------------------------- series books

  function BookStep(st: Tally, b: BookJson): Tally {
    if b.id == "" then st.(hasErrors := true) else st.(table := Record(st.table, b.id))
  }

  function BooksStep(st: Tally, bs: seq<BookJson>): Tally {
    if bs == [] then st else BookStep(BooksStep(st, bs[..|bs| - 1]), bs[|bs| - 1])
  }

  /** One series file: an unreadable one sets the flag, one without a
      `books` array is skipped. */
  function SeriesFileStep(st: Tally, c: SeriesJson): Tally {
    match c
    case Unreadable => st.(hasErrors := true)
    case SeriesFile(_, books) => if books.None? then st else BooksStep(st, books.value)
  }

  function SeriesWalk(st: Tally, files: seq<string>, read: string -> SeriesJson): Tally {
    if files == [] then st else SeriesFileStep(SeriesWalk(st, files[..|files| - 1], read), read(files[|files| - 1]))
  }

  /** `content.books.forEach(...)`. */
  method RecordBooks(st0: Tally, bs: seq<BookJson>) returns (st: Tally)
    ensures st == BooksStep(st0, bs)
  {
    st := st0;
    var k := 0;
    while k < |bs|
      invariant 0 <= k <= |bs|
      invariant st == BooksStep(st0, bs[..k])
    {
      assert bs[..k + 1][..k] == bs[..k];
      var book := bs[k];
      if book.id == "" {
        st := st.(hasErrors := true);
      } else {
        st := st.(table := Record(st.table, book.id));
      }
      k := k + 1;
    }
    assert bs[..k] == bs;
  }

  /** The `files.forEach` over the series directory. */
  method WalkSeriesFiles(files: seq<string>, read: string -> SeriesJson) returns (st: Tally)
    ensures st == SeriesWalk(Start, files, read)
  {
    st := Start;
    var i := 0;
    while i < |files|
      invariant 0 <= i <= |files|
      invariant st == SeriesWalk(Start, files[..i], read)
    {
      assert files[..i + 1][..i] == files[..i];
      var content := read(files[i]);
      if content.Unreadable? {
        st := st.(hasErrors := true);
      } else if content.books.Some? {
        st := RecordBooks(st, content.books.value);
      }
      i := i + 1;
    }
    assert files[..i] == files;
  }

  /** How often `id` occurs among the books `bs`. */
  function Occurrences(bs: seq<BookJson>, id: string): nat {
    if bs == [] then 0 else Occurrences(bs[..|bs| - 1], id) + (if bs[|bs| - 1].id == id then 1 else 0)
  }

  predicate MissingId(bs: seq<BookJson>) {
    exists k :: 0 <= k < |bs| && bs[k].id == ""
  }

  /** Walking books counts every non-empty ID once per occurrence, never
      records the empty ID, and raises the flag iff some book lacks an ID. */
  lemma {:induction false} BooksStepFacts(st: Tally, bs: seq<BookJson>)
    ensures forall id :: id != "" ==> Count(BooksStep(st, bs).table, id) == Count(st.table, id) + Occurrences(bs, id)
    ensures "" !in st.table ==> "" !in BooksStep(st, bs).table
    ensures BooksStep(st, bs).hasErrors <==> st.hasErrors || MissingId(bs)
  {
    if bs != [] {
      var init := bs[..|bs| - 1];
      BooksStepFacts(st, init);
      if MissingId(bs) {
        var k :| 0 <= k < |bs| && bs[k].id == "";
        if k < |init| {
          assert init[k] == bs[k];
        }
      }
      if MissingId(init) {
        var k :| 0 <= k < |init| && init[k].id == "";
        assert bs[k] == init[k];
      }
    }
  }

  /** The books a series file contributes: none unless it is readable and
      has a `books` array. */
  function FileBooks(c: SeriesJson): seq<BookJson> {
    if c.SeriesFile? && c.books.Some? then c.books.value else []
  }

  /** A series file that raises the flag: unreadable, or with a book that
      has no ID. */
  predicate SeriesFileFails(c: SeriesJson) {
    c.Unreadable? || MissingId(FileBooks(c))
  }

  function SeriesOccurrences(files: seq<string>, read: string -> SeriesJson, id: string): nat {
    if files == [] then 0
    else SeriesOccurrences(files[..|files| - 1], read, id) + Occurrences(FileBooks(read(files[|files| - 1])), id)
  }

  /** After the series directory: each ID's count is its number of
      occurrences in the usable files, the empty ID is never recorded, and
      the flag is up iff some file fails. */
  lemma {:induction false} SeriesWalkFacts(files: seq<string>, read: string -> SeriesJson)
    ensures forall id :: id != "" ==> Count(SeriesWalk(Start, files, read).table, id) == SeriesOccurrences(files, read, id)
    ensures "" !in SeriesWalk(Start, files, read).table
    ensures SeriesWalk(Start, files, read).hasErrors <==> exists i :: 0 <= i < |files| && SeriesFileFails(read(files[i]))
  {
    if files != [] {
      var n := |files| - 1;
      var init := files[..n];
      SeriesWalkFacts(init, read);
      var before := SeriesWalk(Start, init, read);
      BooksStepFacts(before, FileBooks(read(files[n])));
      assert forall i :: 0 <= i < n ==> files[i] == init[i];
      if exists i :: 0 <= i < |files| && SeriesFileFails(read(files[i])) {
        var i :| 0 <= i < |files| && SeriesFileFails(read(files[i]));
        if i < n {
          assert SeriesFileFails(read(init[i]));
        }
      }
    }
  }

  // ---------------------------------------------------------------- singles, novellas, anthologies

  function ItemStep(st: Tally, c: ItemJson): Tally {
    match c
    case UnreadableItem => st.(hasErrors := true)
    case ItemFile(id, _) => if id == "" then st.(hasErrors := true) else st.(table := Record(st.table, id))
  }

  function ItemWalk(st: Tally, files: seq<string>, read: string -> ItemJson): Tally {
    if files == [] then st else ItemStep(ItemWalk(st, files[..|files| - 1], read), read(files[|files| - 1]))
  }

  /** The `files.forEach` over one category directory. */
  method WalkItemFiles(files: seq<string>, read: string -> ItemJson) returns (st: Tally)
    ensures st == ItemWalk(Start, files, read)
  {
    st := Start;
    var i := 0;
    while i < |files|
      invariant 0 <= i <= |files|
      invariant st == ItemWalk(Start, files[..i], read)
    {
      assert files[..i + 1][..i] == files[..i];
      var content := read(files[i]);
      if content.UnreadableItem? || content.id == "" {
        st := st.(hasErrors := true);
      } else {
        st := st.(table := Record(st.table, content.id));
      }
      i := i + 1;
    }
    assert files[..i] == files;
  }

  predicate ItemFails(c: ItemJson) {
    c.UnreadableItem? || c.id == ""
  }

  function ItemOccurrences(files: seq<string>, read: string -> ItemJson, id: string): nat {
    if files == [] then 0
    else
      var c := read(files[|files| - 1]);
      ItemOccurrences(files[..|files| - 1], read, id) + (if c.ItemFile? && c.id == id then 1 else 0)
  }

  /** After a category directory: each ID's count is the number of files
      holding it, the empty ID is never recorded, and the flag is up iff
      some file is unreadable or has no ID. */
  lemma {:induction false} ItemWalkFacts(files: seq<string>, read: string -> ItemJson)
    ensures forall id :: id != "" ==> Count(ItemWalk(Start, files, read).table, id) == ItemOccurrences(files, read, id)
    ensures "" !in ItemWalk(Start, files, read).table
    ensures ItemWalk(Start, files, read).hasErrors <==> exists i :: 0 <= i < |files| && ItemFails(read(files[i]))
  {
    if files != [] {
      var n := |files| - 1;
      var init := files[..n];
      ItemWalkFacts(init, read);
      assert forall i :: 0 <= i < n ==> files[i] == init[i];
      if exists i :: 0 <= i < |files| && ItemFails(read(files[i])) {
        var i :| 0 <= i < |files| && ItemFails(read(files[i]));
        if i < n {
          assert ItemFails(read(init[i]));
        }
      }
    }
  }

  // ---------------------------------------------------------------- verdict

  /** The tally of one table; a missing directory leaves it empty. */
  function Phase(t: Table, dirs: Table -> Option<seq<string>>, readSeries: string -> SeriesJson,
                 readItem: Table -> string -> ItemJson): Tally {
    var dir := dirs(t);
    if dir.None? then Start
    else if t == SeriesBooks then SeriesWalk(Start, CheckedFiles(dir.value), readSeries)
    else ItemWalk(Start, CheckedFiles(dir.value), readItem(t))
  }

  predicate HasDuplicate(t: map<string, nat>) {
    exists id :: id in t && t[id] > 1
  }

  predicate Overlap(t1: map<string, nat>, t2: map<string, nat>) {
    exists id :: id in t1 && id in t2
  }

  /** `validateAllIds`: the exit code (1 on failure, 0 otherwise) and
      whether a cross-table warning was printed. */
  method ValidateAllIds(dirs: Table -> Option<seq<string>>, readSeries: string -> SeriesJson,
                        readItem: Table -> string -> ItemJson)
    returns (exitCode: int, hasWarnings: bool)
    ensures var ph := seq(4, p requires 0 <= p < 4 => Phase(Tables[p], dirs, readSeries, readItem));
      && (exitCode == 1 <==> exists p :: 0 <= p < 4 && (ph[p].hasErrors || HasDuplicate(ph[p].table)))
      && (exitCode == 0 || exitCode == 1)
      && (hasWarnings <==> exists p, q :: 0 <= p < q < 4 && Overlap(ph[p].table, ph[q].table))
  {
    ghost var ph := seq(4, p requires 0 <= p < 4 => Phase(Tables[p], dirs, readSeries, readItem));
    var tallies: seq<Tally> := [];
    var t := 0;
    while t < 4
      invariant 0 <= t <= 4
      invariant |tallies| == t && forall p :: 0 <= p < t ==> tallies[p] == ph[p]
    {
      var table := Tables[t];
      var st := Start;
      var dir := dirs(table);
      if dir.Some? {
        var files := CheckedFiles(dir.value);
        if table == SeriesBooks {
          st := WalkSeriesFiles(files, readSeries);
        } else {
          st := WalkItemFiles(files, readItem(table));
        }
      }
      tallies := tallies + [st];
      t := t + 1;
    }
    var hasErrors := false;
    t := 0;
    while t < 4
      invariant 0 <= t <= 4
      invariant hasErrors <==> exists p :: 0 <= p < t && (ph[p].hasErrors || HasDuplicate(ph[p].table))
    {
      var ids := tallies[t].table;
      if tallies[t].hasErrors {
        hasErrors := true;
      }
      if exists id :: id in ids && ids[id] > 1 {
        hasErrors := true;
      }
      t := t + 1;
    }
    hasWarnings := false;
    var i := 0;
    while i < 4
      invariant 0 <= i <= 4
      invariant hasWarnings <==> exists p, q :: 0 <= p < i && p < q < 4 && Overlap(ph[p].table, ph[q].table)
    {
      var j := i + 1;
      while j < 4
        invariant i + 1 <= j <= 4
        invariant hasWarnings <==> exists p, q :: ((0 <= p < i && p < q < 4) || (p == i && i < q < j)) && Overlap(ph[p].table, ph[q].table)
      {
        var table1 := tallies[i].table;
        var table2 := tallies[j].table;
        if exists id :: id in table1 && id in table2 {
          hasWarnings := true;
        }
        j := j + 1;
      }
      i := i + 1;
    }
    exitCode := if hasErrors then 1 else 0;
  }

  /** A series directory makes the script fail iff one of its checked
      files fails or some ID occurs twice among its books. */
  lemma SeriesVerdict(files: seq<string>, read: string -> SeriesJson)
    ensures var st := SeriesWalk(Start, files, read);
      && (st.hasErrors <==> exists i :: 0 <= i < |files| && SeriesFileFails(read(files[i])))
      && (HasDuplicate(st.table) <==> exists id :: id != "" && SeriesOccurrences(files, read, id) > 1)
  {
    var st := SeriesWalk(Start, files, read);
    SeriesWalkFacts(files, read);
    if HasDuplicate(st.table) {
      var id :| id in st.table && st.table[id] > 1;
      assert id != "" && SeriesOccurrences(files, read, id) > 1;
    }
    if exists id :: id != "" && SeriesOccurrences(files, read, id) > 1 {
      var id :| id != "" && SeriesOccurrences(files, read, id) > 1;
      assert Count(st.table, id) > 1;
    }
  }

  /** A singles, novellas or anthologies directory makes the script fail
      iff one of its checked files is unreadable or has no ID, or two of
      them hold the same ID. */
  lemma ItemVerdict(files: seq<string>, read: string -> ItemJson)
    ensures var st := ItemWalk(Start, files, read);
      && (st.hasErrors <==> exists i :: 0 <= i < |files| && ItemFails(read(files[i])))
      && (HasDuplicate(st.table) <==> exists id :: id != "" && ItemOccurrences(files, read, id) > 1)
  {
    var st := ItemWalk(Start, files, read);
    ItemWalkFacts(files, read);
    if HasDuplicate(st.table) {
      var id :| id in st.table && st.table[id] > 1;
      assert id != "" && ItemOccurrences(files, read, id) > 1;
    }
    if exists id :: id != "" && ItemOccurrences(files, read, id) > 1 {
      var id :| id != "" && ItemOccurrences(files, read, id) > 1;
      assert Count(st.table, id) > 1;
    }
  }
}
