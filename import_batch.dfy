/** app/api/import/route.ts: the catalog import batch. Each selected file is
    read and parsed, its series upserted, then each of its books upserted;
    failures are recorded as messages and the loop goes on. The file system
    and the database's refusals are given as an environment of total
    functions; the database is a pair of maps keyed by `id`, the conflict
    target of both upserts. */
module ImportBatch {
  import opened Prelude

  /** One entry of the request's `files` list. */
  datatype FileRef = FileRef(folder: string, file: string)

  /** A book as the series file spells it; `faction` and `tags` may be absent. */
  datatype BookData = BookData(
    id: string,
    title: string,
    author: string,
    orderInSeries: int,
    faction: Option<seq<string>>,
    tags: Option<seq<string>>)

  /** A parsed series file; `books` is `None` when the file has no `books`
      array, which makes the book loop throw. */
  datatype SeriesData = SeriesData(id: string, name: string, description: string,
                                   books: Option<seq<BookData>>)

  /** Reading and parsing one file: the parsed object, or the message of the
      error thrown by `readFile` or `JSON.parse`. */
  datatype Loaded = Parsed(data: SeriesData) | Thrown(message: string)

  datatype SeriesRow = SeriesRow(id: string, name: string, description: string)

  datatype BookRow = BookRow(
    id: string,
    seriesId: string,
    title: string,
    author: string,
    orderInSeries: int,
    faction: seq<string>,
    tags: seq<string>)

  datatype Db = Db(series: map<string, SeriesRow>, books: map<string, BookRow>)

  /** What the outside world answers: file contents, and the error message
      (if any) the database returns for each upsert. */
  datatype Env = Env(
    load: FileRef -> Loaded,
    seriesError: SeriesRow -> Option<string>,
    bookError: BookRow -> Option<string>)

  /** The message of the `TypeError` thrown by iterating a missing `books`. */
  const BooksNotIterable: string := "seriesData.books is not iterable"

  datatype ImportError =
    | SeriesFailed(seriesId: string, message: string)
    | BookFailed(bookId: string, message: string)
    | FileFailed(source: FileRef, message: string)

  /** The strings pushed onto `importResults.errors`; the three kinds are
      told apart by their first word. */
  function Render(e: ImportError): (s: string)
    ensures e.SeriesFailed? <==> StartsWith(s, "Series ")
    ensures e.BookFailed? <==> StartsWith(s, "Book ")
    ensures e.FileFailed? <==> StartsWith(s, "File ")
    ensures EndsWith(s, ": " + e.message)
  {
    var s := match e
      case SeriesFailed(id, msg) => "Series " + id + ": " + msg
      case BookFailed(id, msg) => "Book " + id + ": " + msg
      case FileFailed(f, msg) => "File " + f.folder + "/" + f.file + ": " + msg;
    assert s[0] == (if e.SeriesFailed? then 'S' else if e.BookFailed? then 'B' else 'F');
    s
  }

  datatype Results = Results(series: nat, books: nat, errors: seq<ImportError>)

  datatype State = State(results: Results, db: Db)

  function SeriesRowOf(d: SeriesData): SeriesRow {
    SeriesRow(d.id, d.name, d.description)
  }

  /** The `books` row written for `b`: a missing `faction` or `tags` is
      stored as the empty list, a present one verbatim. */
  function BookRowOf(seriesId: string, b: BookData): (r: BookRow)
    ensures r.id == b.id && r.seriesId == seriesId
    ensures b.faction.None? ==> r.faction == []
    ensures b.faction.Some? ==> r.faction == b.faction.value
    ensures b.tags.None? ==> r.tags == []
    ensures b.tags.Some? ==> r.tags == b.tags.value
  {
    BookRow(b.id, seriesId, b.title, b.author, b.orderInSeries,
            if b.faction.Some? then b.faction.value else [],
            if b.tags.Some? then b.tags.value else [])
  }

  function AddError(st: State, e: ImportError): State {
    st.(results := st.results.(errors := st.results.errors + [e]))
  }

  /** One book: an error, or the row upserted and `books` counted. */
  function BookStep(st: State, seriesId: string, b: BookData, env: Env): State {
    var row := BookRowOf(seriesId, b);
    var err := env.bookError(row);
    if err.Some? then AddError(st, BookFailed(b.id, err.value))
    else State(st.results.(books := st.results.books + 1), st.db.(books := st.db.books[row.id := row]))
  }

  /** The book loop of one series, as a left fold. */
  function BooksStep(st: State, seriesId: string, books: seq<BookData>, env: Env): State
    decreases |books|
  {
    if books == [] then st else BooksStep(BookStep(st, seriesId, books[0], env), seriesId, books[1..], env)
  }

  /** One selected file. */
  function FileStep(st: State, f: FileRef, env: Env): State {
    match env.load(f)
    case Thrown(msg) => AddError(st, FileFailed(f, msg))
    case Parsed(d) =>
      var row := SeriesRowOf(d);
      var err := env.seriesError(row);
      if err.Some? then AddError(st, SeriesFailed(d.id, err.value))
      else
        var counted := State(st.results.(series := st.results.series + 1),
                             st.db.(series := st.db.series[row.id := row]));
        if d.books.None? then AddError(counted, FileFailed(f, BooksNotIterable))
        else BooksStep(counted, d.id, d.books.value, env)
  }

  /** The file loop, as a left fold. */
  function FilesStep(st: State, files: seq<FileRef>, env: Env): State
    decreases |files|
  {
    if files == [] then st else FilesStep(FileStep(st, files[0], env), files[1..], env)
  }

  /** The loop of lines 59-108, written as the source writes it. */
  method ImportSelection(db: Db, files: seq<FileRef>, env: Env) returns (res: Results, db': Db)
    ensures State(res, db') == FilesStep(State(Results(0, 0, []), db), files, env)
  {
    res := Results(0, 0, []);
    db' := db;
    var i := 0;
    while i < |files|
      invariant 0 <= i <= |files|
      invariant FilesStep(State(res, db'), files[i..], env) == FilesStep(State(Results(0, 0, []), db), files, env)
    {
      var f := files[i];
      ghost var before := State(res, db');
      var loaded := env.load(f);
      if loaded.Thrown? {
        res := res.(errors := res.errors + [FileFailed(f, loaded.message)]);
      } else {
        var d := loaded.data;
        var seriesRow := SeriesRow(d.id, d.name, d.description);
        var seriesError := env.seriesError(seriesRow);
        if seriesError.Some? {
          res := res.(errors := res.errors + [SeriesFailed(d.id, seriesError.value)]);
        } else {
          db' := db'.(series := db'.series[d.id := seriesRow]);
          res := res.(series := res.series + 1);
          if d.books.None? {
            res := res.(errors := res.errors + [FileFailed(f, BooksNotIterable)]);
          } else {
            var books := d.books.value;
            ghost var counted := State(res, db');
            var j := 0;
            while j < |books|
              invariant 0 <= j <= |books|
              invariant BooksStep(State(res, db'), d.id, books[j..], env) == BooksStep(counted, d.id, books, env)
            {
              var book := books[j];
              var bookRow := BookRowOf(d.id, book);
              var bookError := env.bookError(bookRow);
              if bookError.Some? {
                res := res.(errors := res.errors + [BookFailed(book.id, bookError.value)]);
              } else {
                db' := db'.(books := db'.books[book.id := bookRow]);
                res := res.(books := res.books + 1);
              }
              assert books[j..][1..] == books[j + 1..];
              j := j + 1;
            }
            assert books[j..] == [];
          }
        }
      }
      assert State(res, db') == FileStep(before, f, env);
      assert files[i..][1..] == files[i + 1..];
      i := i + 1;
    }
    assert files[i..] == [];
  }

  /** `Import completed: {series} series, {books} books`. */
  function Summary(r: Results): string {
    "Import completed: " + NatToString(r.series) + " series, " + NatToString(r.books) + " books"
  }

  datatype Response =
    | Failure(status: int, error: string)
    | Completed(message: string, results: Results)

  /** `POST /api/import`: 401 without a user, 500 without the service
      configuration, `success: false` (status 200) for an empty selection,
      all three before any write; otherwise every file is processed and the
      summary is returned with `success: true`, whatever errors occurred. */
  method Post(db: Db, signedIn: bool, configured: bool, files: seq<FileRef>, env: Env)
    returns (resp: Response, db': Db)
    ensures !signedIn ==> resp == Failure(401, "Unauthorized") && db' == db
    ensures signedIn && !configured ==> resp == Failure(500, "Missing Supabase configuration") && db' == db
    ensures signedIn && configured && files == [] ==>
      resp == Failure(200, "No files selected for import") && db' == db
    ensures signedIn && configured && files != [] ==>
      var st := FilesStep(State(Results(0, 0, []), db), files, env);
      resp == Completed(Summary(st.results), st.results) && db' == st.db
  {
    if !signedIn {
      return Failure(401, "Unauthorized"), db;
    }
    if !configured {
      return Failure(500, "Missing Supabase configuration"), db;
    }
    if |files| == 0 {
      return Failure(200, "No files selected for import"), db;
    }
    var results;
    results, db' := ImportSelection(db, files, env);
    resp := Completed(Summary(results), results);
  }

  // ------------------------------------------------------------------
  // Accounting

  function CountBookErrors(es: seq<ImportError>): nat {
    if es == [] then 0 else (if es[0].BookFailed? then 1 else 0) + CountBookErrors(es[1..])
  }

  lemma {:induction false} CountBookErrorsAppend(es: seq<ImportError>, e: ImportError)
    ensures CountBookErrors(es + [e]) == CountBookErrors(es) + (if e.BookFailed? then 1 else 0)
  {
    if es != [] {
      assert (es + [e])[1..] == es[1..] + [e];
      CountBookErrorsAppend(es[1..], e);
    }
  }

  /** The book loop of a series whose upsert succeeded: every book adds
      exactly one of a counted book or a `Book …` error, nothing else is
      recorded, and the series count does not move. */
  lemma {:induction false} BooksStepAccounting(st: State, id: string, books: seq<BookData>, env: Env)
    ensures var r := BooksStep(st, id, books, env);
      && r.results.series == st.results.series
      && r.results.books + CountBookErrors(r.results.errors)
         == st.results.books + CountBookErrors(st.results.errors) + |books|
      && |r.results.errors| - |st.results.errors| == CountBookErrors(r.results.errors) - CountBookErrors(st.results.errors)
      && r.db.series == st.db.series
    decreases |books|
  {
    if books != [] {
      var next := BookStep(st, id, books[0], env);
      var row := BookRowOf(id, books[0]);
      if env.bookError(row).Some? {
        CountBookErrorsAppend(st.results.errors, BookFailed(books[0].id, env.bookError(row).value));
      }
      BooksStepAccounting(next, id, books[1..], env);
    }
  }

  /** Errors are only ever appended, counters only grow, and no stored
      series or book disappears. */
  predicate Grows(a: State, b: State) {
    && a.results.series <= b.results.series
    && a.results.books <= b.results.books
    && a.results.errors <= b.results.errors
    && a.db.series.Keys <= b.db.series.Keys
    && a.db.books.Keys <= b.db.books.Keys
  }

  lemma {:induction false} BooksStepGrows(st: State, id: string, books: seq<BookData>, env: Env)
    ensures Grows(st, BooksStep(st, id, books, env))
    decreases |books|
  {
    if books != [] {
      BooksStepGrows(BookStep(st, id, books[0], env), id, books[1..], env);
    }
  }

  /** One file leaves exactly one trace: its series is counted (and then its
      books accounted for as above), or one error is recorded. A file that
      cannot be read records `File …` with the thrown message; a failed
      series upsert records `Series …` and skips all the file's books; a
      stored series without a `books` array is counted and then records
      `File …` for the loop's `TypeError`. */
  lemma FileStepOutcome(st: State, f: FileRef, env: Env)
    ensures var r := FileStep(st, f, env);
      && Grows(st, r)
      && (r.results.series == st.results.series + 1 || r.results.series == st.results.series)
      && (r.results.series == st.results.series ==>
            && |r.results.errors| == |st.results.errors| + 1
            && r.results.books == st.results.books && r.db.books == st.db.books)
      && (env.load(f).Parsed? && env.seriesError(SeriesRowOf(env.load(f).data)).Some? ==>
            r.results.series == st.results.series
            && r.results.errors == st.results.errors
               + [SeriesFailed(env.load(f).data.id, env.seriesError(SeriesRowOf(env.load(f).data)).value)])
      && (env.load(f).Parsed? && env.seriesError(SeriesRowOf(env.load(f).data)).None? ==>
            r.results.series == st.results.series + 1
            && env.load(f).data.id in r.db.series
            && r.db.series[env.load(f).data.id] == SeriesRowOf(env.load(f).data))
      && (env.load(f).Thrown? ==>
            r.results == st.results.(errors := st.results.errors + [FileFailed(f, env.load(f).message)])
            && r.db == st.db)
      && (env.load(f).Parsed? && env.seriesError(SeriesRowOf(env.load(f).data)).None?
          && env.load(f).data.books.None? ==>
            r.results.books == st.results.books
            && r.results.errors == st.results.errors + [FileFailed(f, BooksNotIterable)]
            && r.db.books == st.db.books)
  {
    match env.load(f)
    case Thrown(_) =>
    case Parsed(d) =>
      if env.seriesError(SeriesRowOf(d)).None? {
        var counted := State(st.results.(series := st.results.series + 1),
                             st.db.(series := st.db.series[d.id := SeriesRowOf(d)]));
        if d.books.Some? {
          BooksStepGrows(counted, d.id, d.books.value, env);
          BooksStepAccounting(counted, d.id, d.books.value, env);
        }
      }
  }

  /** Over the whole selection the `series` counter never exceeds the number
      of files, every file not counted leaves an error, and nothing recorded
      earlier is lost. */
  lemma {:induction false} FilesStepBounds(st: State, files: seq<FileRef>, env: Env)
    ensures var r := FilesStep(st, files, env);
      && Grows(st, r)
      && r.results.series <= st.results.series + |files|
      && (r.results.series - st.results.series) + (|r.results.errors| - |st.results.errors|) >= |files|
    decreases |files|
  {
    if files != [] {
      FileStepOutcome(st, files[0], env);
      FilesStepBounds(FileStep(st, files[0], env), files[1..], env);
    }
  }

  /** Whatever the failures, the series of every file that parsed and whose
      series upsert succeeded is in the database afterwards. */
  lemma {:induction false} ImportedSeriesStored(st: State, files: seq<FileRef>, env: Env, k: int)
    requires 0 <= k < |files|
    requires env.load(files[k]).Parsed? && env.seriesError(SeriesRowOf(env.load(files[k]).data)).None?
    ensures env.load(files[k]).data.id in FilesStep(st, files, env).db.series
    decreases |files|
  {
    var next := FileStep(st, files[0], env);
    FileStepOutcome(st, files[0], env);
    if k == 0 {
      FilesStepBounds(next, files[1..], env);
    } else {
      ImportedSeriesStored(next, files[1..], env, k - 1);
    }
  }
}
