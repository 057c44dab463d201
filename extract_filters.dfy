/** scripts/extract-filters.js: the distinct tags and factions of every book
    of every series file, sorted, as written to `tags.json` and
    `factions.json`. The directory listing and the file contents are
    parameters; a file that does not parse, or has no `books` array, makes
    the script throw before anything is written. */
module ExtractFilters {
  import opened Prelude
  import opened Filters

  /** A series file as `JSON.parse` sees it. */
  datatype SeriesFile = Malformed | Json(books: Option<seq<LabelledBook>>)

  predicate Usable(f: SeriesFile) {
    f.Json? && f.books.Some?
  }

  /** `readdirSync(...).filter(f => f.endsWith('.json'))`. */
  function JsonFiles(names: seq<string>): (r: seq<string>)
    ensures forall f :: f in r <==> f in names && EndsWith(f, ".json")
  {
    var r := Filter(names, (f: string) => EndsWith(f, ".json"));
    assert forall f :: f in names && EndsWith(f, ".json") ==> f in r by {
      forall f | f in names && EndsWith(f, ".json") ensures f in r {
        var i :| 0 <= i < |names| && names[i] == f;
      }
    }
    r
  }

  /** The books of `files` in reading order, or `None` when one of them
      makes the script throw. */
  function FileBooks(files: seq<string>, read: string -> SeriesFile): Option<seq<LabelledBook>> {
    if files == [] then Some([])
    else
      var before := FileBooks(files[..|files| - 1], read);
      var last := read(files[|files| - 1]);
      if before.None? || !Usable(last) then None else Some(before.value + last.books.value)
  }

  /** The script's output: the two sorted lists. */
  datatype Output = Output(tags: seq<string>, factions: seq<string>)

  function ExpectedOutput(names: seq<string>, read: string -> SeriesFile): Option<Output> {
    var books := FileBooks(JsonFiles(names), read);
    if books.None? then None
    else Some(Output(SortStrings(Seen(books.value, Tags())), SortStrings(Seen(books.value, Factions()))))
  }

  lemma SeenAppend(books: seq<LabelledBook>, b: LabelledBook, pick: LabelledBook -> seq<string>)
    ensures Seen(books + [b], pick) == SetAddAll(Seen(books, pick), pick(b))
  {
    assert (books + [b])[..|books|] == books;
  }

  /** The inner `forEach` over one file's books. */
  method AddFileBooks(tags0: seq<string>, factions0: seq<string>, ghost walked: seq<LabelledBook>, books: seq<LabelledBook>)
    returns (tags: seq<string>, factions: seq<string>)
    requires tags0 == Seen(walked, Tags()) && factions0 == Seen(walked, Factions())
    ensures tags == Seen(walked + books, Tags()) && factions == Seen(walked + books, Factions())
  {
    tags, factions := tags0, factions0;
    assert walked + books[..0] == walked;
    var j := 0;
    while j < |books|
      invariant 0 <= j <= |books|
      invariant tags == Seen(walked + books[..j], Tags()) && factions == Seen(walked + books[..j], Factions())
    {
      SeenAppend(walked + books[..j], books[j], Tags());
      SeenAppend(walked + books[..j], books[j], Factions());
      assert walked + books[..j + 1] == (walked + books[..j]) + [books[j]];
      tags, factions := AddLabels(tags, factions, books[j]);
      j := j + 1;
    }
    assert books[..j] == books;
  }

  /** The script: `None` when it throws, otherwise what it writes. */
  method Extract(names: seq<string>, read: string -> SeriesFile) returns (out: Option<Output>)
    ensures out == ExpectedOutput(names, read)
  {
    var files := JsonFiles(names);
    var tagsSet: seq<string> := [];
    var factionsSet: seq<string> := [];
    ghost var walked: seq<LabelledBook> := [];
    var i := 0;
    while i < |files|
      invariant 0 <= i <= |files|
      invariant FileBooks(files[..i], read) == Some(walked)
      invariant tagsSet == Seen(walked, Tags()) && factionsSet == Seen(walked, Factions())
    {
      assert files[..i + 1][..i] == files[..i];
      var series := read(files[i]);
      if !Usable(series) {
        FileBooksAbort(files, read, i);
        return None;
      }
      tagsSet, factionsSet := AddFileBooks(tagsSet, factionsSet, walked, series.books.value);
      walked := walked + series.books.value;
      i := i + 1;
    }
    assert files[..i] == files;
    out := Some(Output(SortStrings(tagsSet), SortStrings(factionsSet)));
  }

  lemma {:induction false} FileBooksAbort(files: seq<string>, read: string -> SeriesFile, i: int)
    requires 0 <= i < |files| && !Usable(read(files[i]))
    ensures FileBooks(files, read).None?
  {
    if i < |files| - 1 {
      FileBooksAbort(files[..|files| - 1], read, i);
    }
  }

  /** The script throws iff some file is unusable; otherwise the books are
      exactly the books of the files. */
  lemma {:induction false} FileBooksCorrect(files: seq<string>, read: string -> SeriesFile)
    ensures FileBooks(files, read).None? <==> exists i :: 0 <= i < |files| && !Usable(read(files[i]))
    ensures FileBooks(files, read).Some? ==> forall b :: b in FileBooks(files, read).value <==>
      exists i :: 0 <= i < |files| && Usable(read(files[i])) && b in read(files[i]).books.value
  {
    if files != [] {
      var n := |files| - 1;
      var init := files[..n];
      FileBooksCorrect(init, read);
      if exists i :: 0 <= i < |files| && !Usable(read(files[i])) {
        var i :| 0 <= i < |files| && !Usable(read(files[i]));
        FileBooksAbort(files, read, i);
      } else {
        var bs := FileBooks(files, read).value;
        forall b | b in bs ensures exists i :: 0 <= i < |files| && Usable(read(files[i])) && b in read(files[i]).books.value {
          if b in FileBooks(init, read).value {
            var i :| 0 <= i < |init| && Usable(read(init[i])) && b in read(init[i]).books.value;
            assert files[i] == init[i];
          }
        }
        forall b | exists i :: 0 <= i < |files| && Usable(read(files[i])) && b in read(files[i]).books.value ensures b in bs {
          var i :| 0 <= i < |files| && Usable(read(files[i])) && b in read(files[i]).books.value;
          if i < n {
            assert files[i] == init[i];
          }
        }
      }
    }
  }

  /** Some book of some usable `.json` file of `names` carries `x` under
      `pick`. */
  predicate CarriedInFiles(names: seq<string>, read: string -> SeriesFile, pick: LabelledBook -> seq<string>, x: string) {
    exists f, b :: f in names && EndsWith(f, ".json") && Usable(read(f)) && b in read(f).books.value && x in pick(b)
  }

  predicate CarriedInBooks(bs: seq<LabelledBook>, pick: LabelledBook -> seq<string>, x: string) {
    exists k :: 0 <= k < |bs| && x in pick(bs[k])
  }

  /** What the script writes: no output iff some `.json` file is unusable;
      otherwise each list is strictly ascending and holds a label iff some
      book of some `.json` file carries it. */
  lemma ExtractCorrect(names: seq<string>, read: string -> SeriesFile)
    ensures ExpectedOutput(names, read).None? <==>
      exists f :: f in names && EndsWith(f, ".json") && !Usable(read(f))
    ensures ExpectedOutput(names, read).Some? ==>
      var out := ExpectedOutput(names, read).value;
      && StrictlyIncreasing(out.tags) && StrictlyIncreasing(out.factions)
      && (forall x :: x in out.tags <==> CarriedInFiles(names, read, Tags(), x))
      && (forall x :: x in out.factions <==> CarriedInFiles(names, read, Factions(), x))
  {
    var files := JsonFiles(names);
    FileBooksCorrect(files, read);
    if (exists f :: f in names && EndsWith(f, ".json") && !Usable(read(f))) {
      var f :| f in names && EndsWith(f, ".json") && !Usable(read(f));
      var i :| 0 <= i < |files| && files[i] == f;
    }
    var books := FileBooks(files, read);
    if books.Some? {
      var bs := books.value;
      SortedLabelsCorrect(bs, Tags());
      SortedLabelsCorrect(bs, Factions());
      LabelsFromFiles(names, read, bs, Tags());
      LabelsFromFiles(names, read, bs, Factions());
    }
  }

  lemma LabelsFromFiles(names: seq<string>, read: string -> SeriesFile, bs: seq<LabelledBook>, pick: LabelledBook -> seq<string>)
    requires forall i :: 0 <= i < |JsonFiles(names)| ==> Usable(read(JsonFiles(names)[i]))
    requires forall b :: b in bs <==>
      exists i :: 0 <= i < |JsonFiles(names)| && Usable(read(JsonFiles(names)[i])) && b in read(JsonFiles(names)[i]).books.value
    ensures forall x :: CarriedInBooks(bs, pick, x) <==> CarriedInFiles(names, read, pick, x)
  {
    var files := JsonFiles(names);
    forall x ensures CarriedInBooks(bs, pick, x) <==> CarriedInFiles(names, read, pick, x) {
      if CarriedInBooks(bs, pick, x) {
        var k :| 0 <= k < |bs| && x in pick(bs[k]);
        assert bs[k] in bs;
        var i :| 0 <= i < |files| && Usable(read(files[i])) && bs[k] in read(files[i]).books.value;
        assert files[i] in files;
      }
      if CarriedInFiles(names, read, pick, x) {
        var f, b :| f in names && EndsWith(f, ".json") && Usable(read(f)) && b in read(f).books.value && x in pick(b);
        var i :| 0 <= i < |files| && files[i] == f;
        assert b in bs;
        var k :| 0 <= k < |bs| && bs[k] == b;
      }
    }
  }
}
