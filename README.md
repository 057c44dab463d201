# Codex Librarium in Dafny

A model of the logic core of Codex Librarium, a reading tracker for a
catalog of book series (plus singles, novellas and anthologies). The model
covers:

- **The progress routes.** The per-category routes under
  `app/api/reading/` and `upsertReadingProgress` store a user's status,
  rating and notes for a book. They derive `started_at` and
  `completed_at` from the status and upsert on the natural key
  `(user, book)`. The file-backed route updates `reading-tracker.json` in
  place.
- **The catalog import.** `app/api/import/route.ts` upserts the series
  and books of the selected files and records an error message for every
  failure.
- **The read-side views.** These are `lib/bookData.ts`, the dashboard
  counters, the series view, the singles dashboard, the series filter
  page, the title-ordered book list with its pagination, the faction
  index and the requests page.
- **The filter lists.** The filter API and the `extract-filters` script
  both list the distinct tags and factions.
- **The maintenance scripts.** These validate book IDs and look for
  missing numbers in series.
- **The administrator allow-list.**

Storage, the file system, the clock and the environment are not modelled
as such:

- A database table is a `map` keyed by its upsert conflict target.
- Whether the store accepts a write is a boolean parameter.
- "Now" is an integer timestamp parameter.
- A directory listing is a sequence of names, and a file's contents are a
  function from name to a parsed datatype. That datatype has a case for a
  file that does not parse.

Code that loops and updates variables is written as Dafny methods with
loop invariants. Each method is proved equal to a prefix-recursive
specification function, and the lemmas are stated about those functions.
The tracker file of `app/api/reading/route.ts` is a class whose
`readingData` field is updated in place. The page state of the
title-ordered list is also a class.

Strings are `seq<char>`. Lower-casing and trimming work on ASCII only.
`localeCompare` and the default `sort()` are both a lexicographic order
on characters (`StrLe`). `Array.prototype.sort` is a stable insertion sort
(`SortBy`). A JavaScript `Set` is a duplicate-free sequence in insertion
order.

## Model

| member | source | states |
|---|---|---|
| Catalog.FindIndex | app/api/reading/route.ts:26 | The result is -1 iff no entry has the book; otherwise it is the first index holding it. |
| Catalog.FindEntry | lib/bookData.ts:13-15 | `find` returns an entry for the book, and returns none iff no entry has the book. |
| Catalog.StatusOf | lib/bookData.ts:8-11 | `getReadingStatus` is never empty. It is `unread` without an entry, and otherwise the entry's (non-empty) status. |
| Catalog.AllBooks | lib/bookData.ts:34-36 | A book is in the flattened list iff some series holds it. |
| Catalog.CountStatus | components/SeriesView.tsx:35-37 | The count of books with a status is at most the number of books. |
| Catalog.CountStatusAppend | components/Dashboard.tsx:25-39 | One more book adds one to the count exactly when it has the status. |
| Catalog.AllBooksAppend | lib/bookData.ts:34-36 | Flattening one more series appends that series' books. |
| ProgressRows.StoredStatus | app/api/reading/anthologies/route.ts:33 | `status \|\| 'unread'`: never empty, and a non-empty status is kept. |
| ProgressRows.StoredRating | app/api/reading/anthologies/route.ts:34 | `rating \|\| null`: the rating is kept iff it is present and non-zero; otherwise it is null. |
| ProgressRows.StoredNotes | app/api/reading/anthologies/route.ts:35 | `notes \|\| null`: the notes are kept iff they are non-empty. |
| ProgressRows.RemapForClient | app/api/reading/anthologies/route.ts:108-111 | Every row of the user comes back unchanged with `book_id` equal to its item id, and nothing else comes back. |
| ProgressRows.Get | app/api/reading/anthologies/route.ts:79-113 | `GET` answers 401 without a user and 500 when the query fails. Otherwise it lists exactly the user's rows: every row of the user comes back, nothing else does, and each carries `book_id` equal to its item id. |
| CategoryProgress.NextRow | app/api/reading/anthologies/route.ts:29-50 | The row stores the defaulted status, rating and notes, with `updated_at` = now. `started_at` keeps an existing value; without one it is set iff the status is `reading`. `completed_at` is now on `completed` and otherwise carried over. |
| CategoryProgress.Post | app/api/reading/anthologies/route.ts:4-69 | 401 without a user and 400 without `bookId`, both with the store unchanged. 500 when the upsert is refused. Otherwise exactly the row under `(user, bookId)` is added or replaced, and no other row changes. The handler builds that row from what its read returned; the read's error is ignored, so a failed read counts as no row. After a successful read the row is `NextRow` of the stored one. The singles route (app/api/reading/singles/route.ts:4-69) is the same code. |
| CategoryProgress.Upserted | app/api/reading/anthologies/route.ts:22-58 | The row the upsert leaves when the handler saw one row and the table held another. The defaulted status, rating and notes are written, with `updated_at` = now. `started_at` is the seen value if there was one, else now on `reading`, else the column is not written and keeps the stored value. `completed_at` is now on `completed`, else the seen value, else the stored one. |
| CategoryProgress.UpsertedAfterRead | app/api/reading/anthologies/route.ts:22-58 | When the handler saw the stored row, the upsert leaves exactly `NextRow` of it. |
| CategoryProgress.FailedReadRestartsReading | app/api/reading/anthologies/route.ts:22-44 | The read's error is ignored. After a failed read, a `reading` write sets `started_at` to now, although the stored row had a `started_at` that a successful read would have kept. |
| CategoryProgress.ReplayKeys | app/api/reading/anthologies/route.ts:53-58 | Upsert on `(user_id, anthology_id)`: after any history of writes, a key has a row iff it had one before or some write targeted it. |
| CategoryProgress.StartedAtIsFirstReading | app/api/reading/anthologies/route.ts:40-44 | After any history, `started_at` is the pre-existing value if there was one, else the time of the first `reading` write. It is never cleared or overwritten. |
| CategoryProgress.CompletedAtIsLastCompletion | app/api/reading/anthologies/route.ts:46-50 | After any history, `completed_at` is the time of the last `completed` write. Without such a write it is the old value, so a regression never clears it. |
| NovellaProgress.PayloadOf | app/api/reading/novellas/route.ts:24-31 | The object literal holds the user, the novella, the defaulted status, rating and notes, and `updated_at` = now. |
| NovellaProgress.Upsert | app/api/reading/novellas/route.ts:22-35 | Upsert on `(user_id, novella_id)`: the key set gains exactly that key and every other row is unchanged. The row under the key holds the payload's six columns. Its `started_at` and `completed_at` are the stored row's, or null for a new row. |
| NovellaProgress.Post | app/api/reading/novellas/route.ts:4-45 | 401, 400 and 500 with the store unchanged; otherwise the payload is upserted and the stored row returned. |
| NovellaProgress.TimestampsUntouched | app/api/reading/novellas/route.ts:23-31 | Whatever statuses are written, `started_at` and `completed_at` keep the values they had; a row created by this route has neither. |
| ProgressQueries.Merge | lib/supabase/queries.ts:100-104 | Upsert on `(user_id, book_id)`: the key set gains exactly that key and every other row is unchanged. Under the key, each column the patch names is written. Every other column keeps the stored value, or is null for a new row. |
| ProgressQueries.PatchFor | lib/supabase/queries.ts:81-98 | `updates` is spread after `user_id` and `book_id`. An existing `started_at` overrides `updates`; without one it is now iff the status is `reading`. `completed_at` is now on `completed`, else the existing one, else that of `updates`. |
| ProgressQueries.UpsertReadingProgress | lib/supabase/queries.ts:65-110 | A refused upsert throws and writes nothing. Otherwise the store is merged with the patch and the stored row is returned. The patch is built from what the read returned, and a failed read (error ignored) counts as no row. |
| ProgressQueries.FailedReadRestartsReading | lib/supabase/queries.ts:73-98 | After a failed read, a `reading` write stamps `started_at` with now and overwrites the stored value. A write of any other status leaves both timestamps as stored. |
| ProgressQueries.UpsertOnNaturalKey | lib/supabase/queries.ts:81-104 | After a successful read, when `updates` names neither key, the row written is the one under `(userId, bookId)`. Its `started_at` is never lost, its `completed_at` is never cleared, and a `completed` write stamps it with now. |
| ProgressQueries.ToBook | lib/supabase/queries.ts:43-50 | A book keeps its id, title, author, `legion` and `tags`; `orderInSeries` equals `order_in_series`. |
| ProgressQueries.MapToBook | lib/supabase/queries.ts:36-50 | The books are mapped one for one, in order. |
| ProgressQueries.GetSeriesWithBooks | lib/supabase/queries.ts:28-31 | One result per series, in query order, each the shaped series. |
| ProgressQueries.ShapeSeriesCorrect | lib/supabase/queries.ts:28-50 | `id`, `name` and `description` pass through. The books are a permutation of the mapped books, ascending by `orderInSeries`. |
| ProgressQueries.MapToBookInsert | lib/supabase/queries.ts:33-35 | Inserting one book and then mapping adds exactly that book's mapped form. |
| ProgressQueries.MapToBookSort | lib/supabase/queries.ts:33-50 | Sorting before mapping does not change the multiset of mapped books. |
| FileTracker.Merged | app/api/reading/route.ts:33-40 | Body fields override and absent fields keep the entry's value. `startedAt` is set to now only on `reading` with none before, and otherwise kept. `completedAt` is now on `completed`, otherwise kept. |
| FileTracker.NewEntry | app/api/reading/route.ts:44-51 | The status is the body's or `unread`. `startedAt` is set iff the status is `reading` and `completedAt` iff it is `completed`, both to now. |
| FileTracker.Upserted | app/api/reading/route.ts:30-53 | With an entry for the book, only that index changes and the length is kept. Otherwise exactly one entry is appended at the end. |
| FileTracker.UpsertedFindsBook | app/api/reading/route.ts:26-53 | Afterwards the book's first entry is at its old index, or at the end if it is new. No second entry is created for a known book. |
| FileTracker.Tracker.constructor | app/api/reading/route.ts:8-11 | The tracker holds the entries read from the file. |
| FileTracker.Tracker.Post | app/api/reading/route.ts:17-61 | 400 without `bookId` and 500 when the file fails, both with `readingData` unchanged. Otherwise `readingData` becomes the upserted array. |
| ImportBatch.Render | app/api/import/route.ts:76-107 | The three error strings start with `Series `, `Book ` and `File ` respectively, and end with `: ` and the message. |
| ImportBatch.BookRowOf | app/api/import/route.ts:87-94 | The row has the book's id and the series id; a missing `faction` or `tags` is stored as `[]`, a present one verbatim. |
| ImportBatch.ImportSelection | app/api/import/route.ts:59-108 | The nested file and book loops compute exactly the left fold `FilesStep` of the per-file step. |
| ImportBatch.Post | app/api/import/route.ts:13-114 | 401 without a user, 500 without configuration, and `No files selected for import` for an empty list, all before any write. Otherwise the summary `Import completed: …` is returned whatever errors occurred. |
| ImportBatch.CountBookErrorsAppend | app/api/import/route.ts:100 | Appending an error adds one book error exactly when it is a `Book` error. |
| ImportBatch.BooksStepAccounting | app/api/import/route.ts:84-104 | Each book adds exactly one of a counted book or a `Book …` error; the series count and the series table are untouched. |
| ImportBatch.BooksStepGrows | app/api/import/route.ts:84-104 | The book loop only appends errors, only increases counters and never removes a stored row. |
| ImportBatch.FileStepOutcome | app/api/import/route.ts:59-107 | A file either counts its series or adds exactly one error and no book. A file that cannot be read records `File …` with the thrown message and touches no table. A failed series upsert records `Series …` and skips all the file's books. A successful one stores the series row. A stored series without `books` is counted and then records `File …` with the `TypeError`, adding no book. |
| ImportBatch.FilesStepBounds | app/api/import/route.ts:59-108 | The `series` counter never exceeds the number of files, every uncounted file leaves an error, and nothing recorded earlier is lost. |
| ImportBatch.ImportedSeriesStored | app/api/import/route.ts:66-81 | The series of every file that parsed and whose upsert succeeded is in the database afterwards. |
| BookData.FindSeries | lib/bookData.ts:18 | Returns a series with the id, and returns none iff no series has it. |
| BookData.WithStatus | lib/bookData.ts:21-30 | The book with its status; rating, notes and dates come from the entry, absent when there is none. |
| BookData.MapWithStatus | lib/bookData.ts:21-31 | One element per book, in the same order. |
| BookData.GetBooksWithStatus | lib/bookData.ts:17-32 | `[]` for an unknown series; otherwise one element per book of the series, in order, each with its status. |
| BookData.NextToReadIsFirstUnread | lib/bookData.ts:48-50 | `nextToRead` is an unread book with minimal `orderInSeries`, and is undefined iff no book is unread. |
| BookData.GetSeriesProgress | lib/bookData.ts:38-61 | null iff the series is unknown. Otherwise it carries the series' name and book count, the counts by status (`completed + reading <= total`) and the next book to read. |
| BookData.SeriesOfBook | lib/bookData.ts:89 | `find` returns the first series holding a book with the id, and returns none iff no series holds it. |
| BookData.Rank | lib/bookData.ts:86-93 | The sort key is in `[-1, 3)`. A key ≥ 0 is the index in `seriesOrder` of the book's first series; unlisted series give -1. |
| BookData.FindBook | lib/bookData.ts:76-78 | `find` returns the first book with the id, and returns none iff no book has it. |
| BookData.Pick | lib/bookData.ts:74-82 | One loop iteration pushes at most one book. |
| BookData.PickComplete | lib/bookData.ts:74-82 | A series pushes a book exactly when it has a next book to read, that is when one of its books is unread: the lookup by the next book's id always finds it among the series' books. |
| BookData.Candidates | lib/bookData.ts:73-83 | At most one recommendation per series. |
| BookData.CandidatesStep | lib/bookData.ts:73-83 | Walking one more series appends what that series pushes. |
| BookData.SeriesRecommendation | lib/bookData.ts:74-82 | The loop body pushes exactly the series' pick. |
| BookData.GetRecommendedNextBooks | lib/bookData.ts:69-98 | The loop and sort return the first `limit` of the candidates sorted by series rank; an omitted `limit` (None) is 3 (`DefaultLimit`). |
| BookData.PickIsNextBook | lib/bookData.ts:74-82 | What a series pushes is unread and is, by id, that series' `nextToRead`. |
| BookData.CandidatesAreNextBooks | lib/bookData.ts:73-83 | Every candidate is unread and is, by id, the next book of some series. |
| BookData.RecommendationsCorrect | lib/bookData.ts:73-97 | At most `limit` books and at most one per series, each an unread next book of some series, ordered by ascending series rank with unlisted series (-1) first. |
| BookData.CandidatesCount | lib/bookData.ts:73-83 | The loop pushes exactly one book per series with an unread book (`SeriesWithUnread`). |
| BookData.PickInCandidates | lib/bookData.ts:73-83 | What any one series pushes stays among the candidates. |
| BookData.CandidatesCompleteAt | lib/bookData.ts:73-83 | A series with an unread book has its next book to read, by id, among the candidates. |
| BookData.CandidatesComplete | lib/bookData.ts:73-83 | Every series with an unread book has its next book to read, by id, among the candidates. |
| BookData.RecommendationsComplete | lib/bookData.ts:73-97 | For `limit >= 0` the result holds exactly `min(limit, n)` books, `n` being the number of series with an unread book; when `limit >= n` every such series' next book is in it. |
| BookData.ChronologicalOrderCorrect | lib/bookData.ts:100-105 | Exactly the books with a `chronologicalOrder`, as a permutation, ascending by it. |
| BookData.SearchBooksCorrect | lib/bookData.ts:107-115 | A book is found iff the lower-cased query occurs in its lower-cased title, author, a tag or a legion; the empty query finds every book. |
| Dashboard.CountOther | components/Dashboard.tsx:36-38 | Books counted as unread (neither completed nor reading) are at most all books. |
| Dashboard.CountOtherAppend | components/Dashboard.tsx:36-38 | One more book adds one exactly when its status is neither `completed` nor `reading`. |
| Dashboard.StatsPartition | components/Dashboard.tsx:25-39 | Every book lands in exactly one counter: `total = completed + reading + unread`, and a book with no entry counts as unread. |
| Dashboard.NextToReadIsLeast | components/Dashboard.tsx:42-54 | `nextBook` is a book with no entry or an `unread` entry, with minimal `orderInSeries`. It is null iff there is none. |
| Dashboard.SeriesStatsOf | components/Dashboard.tsx:17-36 | A series' stats carry its name and `books.length`, with `completed + reading <= total`. |
| Dashboard.StatsOfAppend | components/Dashboard.tsx:25-39 | Walking one more book bumps the counters by that book's status. |
| Dashboard.Tally | components/Dashboard.tsx:26-38 | The loop body bumps the overall counters, and the series counters for `completed` and `reading`. |
| Dashboard.WalkSeries | components/Dashboard.tsx:25-39 | The `forEach` over a series' books leaves the counters of all books walked so far and the series' finished stats. |
| Dashboard.AllBooksPrefix | components/Dashboard.tsx:16-25 | The books of the first i+1 series are those of the first i followed by series i. |
| Dashboard.Compute | components/Dashboard.tsx:9-57 | The counting pass yields the counters of all books of the catalog, and one stats record per series, in order. |
| Dashboard.SeriesStatsAll | components/Dashboard.tsx:16-57 | One stats record per series, in order. |
| Dashboard.TotalsAgree | components/Dashboard.tsx:16-39 | `stats.total` is the sum of the per-series totals, and the three overall counters add up to it. |
| SeriesView.CycleStatus | components/SeriesView.tsx:27-33 | unread → reading → completed → unread; a status outside the cycle (index -1) goes to unread. |
| SeriesView.CycleThrice | components/SeriesView.tsx:29-31 | Three clicks return to the original status; a status outside the cycle ends on `completed`. |
| SeriesView.CycleInjective | components/SeriesView.tsx:29-31 | Different statuses of the cycle move to different statuses. |
| SeriesView.CompletedCount | components/SeriesView.tsx:35-37 | The count equals the number of books whose status is `completed` and is at most `books.length`. |
| SeriesView.CountStatusIsFilterLength | components/SeriesView.tsx:35-37 | The recursive count equals `filter(...).length`. |
| SinglesDashboard.RowsWith | app/dashboard/singles/page.tsx:65-67 | A count of rows is at most the number of rows. |
| SinglesDashboard.ComputeStats | app/dashboard/singles/page.tsx:63-68 | `total` is the number of singles, `completed` and `reading` count rows with that status, and `unread = singles − rows + unread rows`. |
| SinglesDashboard.RowsPartition | app/dashboard/singles/page.tsx:63-68 | When every row has one of the three statuses, the three row counts add up to the number of rows. |
| SinglesDashboard.StatsAddUp | app/dashboard/singles/page.tsx:63-68 | Under that condition `completed + reading + unread = total`. |
| SinglesDashboard.FindSingle | app/dashboard/singles/page.tsx:75 | Returns a single with the id, and returns none iff none has it. |
| SinglesDashboard.GetBooksByStatus | app/dashboard/singles/page.tsx:72-77 | Only catalog singles whose id matches a row with the status; every such row with a matching single gives its single; at most one per such row. |
| SinglesDashboard.LookUpRows | app/dashboard/singles/page.tsx:75 | `map(find)`: one lookup per row, in row order. |
| SinglesDashboard.GetBooksByStatusIsPipeline | app/dashboard/singles/page.tsx:72-77 | `getBooksByStatus` equals the filter, `map(find)`, `filter(Boolean)` chain. That is exactly one single per row with the status whose single is in the catalog, in row order, repeated when rows repeat. |
| SeriesFilter.Narrow | app/series/page.tsx:101-125 | A narrowed series keeps its id, name and description. |
| SeriesFilter.NarrowAll | app/series/page.tsx:99-125 | One narrowed series per series, in order. |
| SeriesFilter.NameOrdersArePreorders | app/series/page.tsx:129-133 | Both name comparators are total preorders. |
| SeriesFilter.SurvivingCorrect | app/series/page.tsx:99-126 | A series is shown only if non-empty and all its books pass the three tests. Every series with a passing book is shown, narrowed in book order. |
| SeriesFilter.FilteredSeriesCorrect | app/series/page.tsx:99-135 | The same facts after sorting, which permutes. `default` keeps catalog order; `name-asc` and `name-desc` sort ascending and descending by name. |
| SeriesFilter.Toggle | app/series/page.tsx:138-148 | A selected label is removed, leaving the others. An unselected label is appended. No repeats are introduced. |
| SeriesFilter.FilterNoDuplicates | app/series/page.tsx:140 | Filtering a duplicate-free selection leaves it duplicate-free. |
| SeriesFilter.ToggleTwice | app/series/page.tsx:138-142 | Toggling the same label twice selects the same labels again. |
| SeriesFilter.ActiveFilterCountFacts | app/series/page.tsx:150-157 | The badge is 0 iff the state is the cleared one. Selecting a label adds one, and deselecting it subtracts one. |
| SeriesFilter.RemoveOneLength | app/series/page.tsx:140 | Removing a label present once shortens the selection by one. |
| OrderByName.TagSeries | app/order/series/name/page.tsx:97-102 | One tagged book per book of the series, in order, each with the series name. |
| OrderByName.AllBooksByTitle | app/order/series/name/page.tsx:90-106 | The nested push loops and the sort give the tagged books sorted by title. |
| OrderByName.TaggedBooks | app/order/series/name/page.tsx:95-103 | Position by position, the pushed list holds the books of the flattened catalog. |
| OrderByName.TaggedMembers | app/order/series/name/page.tsx:95-103 | Every book is pushed with its series name, and nothing else is pushed. |
| OrderByName.AllBooksByTitleCorrect | app/order/series/name/page.tsx:90-106 | `allBooks` has one entry per catalog book, as a permutation of the pushed list, each tagged with its series name and sorted by title. |
| OrderByName.ByTitleIsPreorder | app/order/series/name/page.tsx:105 | The title comparator is a total preorder. |
| OrderByName.FilteredBooksCorrect | app/order/series/name/page.tsx:109-118 | An empty query keeps the list. Otherwise a book is kept iff its title or author contains the query, ignoring case, in the same order. |
| OrderByName.TotalPages | app/order/series/name/page.tsx:121 | `ceil(n / 20)` with `itemsPerPage` 20: the least number of pages of 20 that holds n items. |
| OrderByName.Paginate | app/order/series/name/page.tsx:122-125 | A page holds at most 20 items. |
| OrderByName.PagesPrefix | app/order/series/name/page.tsx:122-125 | Pages 1..k laid end to end are the first 20k items. |
| OrderByName.PagesPartition | app/order/series/name/page.tsx:121-125 | Pages 1..totalPages partition the list, and each of them holds between 1 and 20 items. |
| OrderByName.Browser.constructor | app/order/series/name/page.tsx:15-17 | The search box starts empty on page 1. |
| OrderByName.Browser.SetQuery | app/order/series/name/page.tsx:127-130 | Changing the query resets the page to 1. |
| OrderByName.Browser.Previous | app/order/series/name/page.tsx:234 | Previous is `max(1, p - 1)` and the query is unchanged. |
| OrderByName.Browser.Next | app/order/series/name/page.tsx:262 | Next is `min(totalPages, p + 1)` and the query is unchanged. |
| OrderByName.Browser.GoTo | app/order/series/name/page.tsx:249 | A page button sets that page. |
| OrderByName.PageButtonsStayInRange | app/order/series/name/page.tsx:234-262 | From a page in range both buttons stay in range; Previous clamps at 1 and Next at `totalPages`. |
| FactionIndex.GroupOfAppend | app/order/factions/page.tsx:96-112 | Walking one more book files it under each of its factions. |
| FactionIndex.FileBook | app/order/factions/page.tsx:103-110 | The inner loop files the book under each of its factions, and under none when it has none. |
| FactionIndex.FileSeries | app/order/factions/page.tsx:97-111 | The loop over a series' books continues the grouping of the books walked so far. |
| FactionIndex.GroupBooks | app/order/factions/page.tsx:94-112 | The nested loops build exactly the grouping of all tagged books. |
| FactionIndex.AddFactionsFacts | app/order/factions/page.tsx:104-109 | Filing a book keeps the map consistent, adds the book under each of its factions and adds keys only for them. |
| FactionIndex.GroupOfKeys | app/order/factions/page.tsx:103-110 | A faction is a key iff some book carries it; keys are listed once each. |
| FactionIndex.GroupOfListed | app/order/factions/page.tsx:96-112 | Every book is listed under each faction in its `faction` array. |
| FactionIndex.GroupOfSound | app/order/factions/page.tsx:96-112 | A book listed under a faction carries it, so books without factions appear under no key. |
| FactionIndex.BooksByFaction | app/order/factions/page.tsx:90-120 | The keys are the grouping's keys sorted, and the groups are the grouping's groups. |
| FactionIndex.BooksByFactionCorrect | app/order/factions/page.tsx:96-117 | In catalog terms: the keys are strictly ascending, a key exists iff some catalog book carries it, and every listed book is a catalog book carrying the key. |
| FactionIndex.FilteredFactions | app/order/factions/page.tsx:123-130 | An empty query gives all keys. Otherwise exactly the keys whose lower-cased form contains the lower-cased query. |
| FactionIndex.CycleAdvancesIndex | app/order/factions/page.tsx:77-81 | The next status has index `(index + 1) mod 3` in `['unread','reading','completed']`. |
| Requests.RequestsByTabCorrect | app/dashboard/requests/page.tsx:59-70 | A request is shown under a tab iff its status is the tab. The list is descending by `created_at` for `newest` and ascending for `oldest`. |
| Requests.StatusChange | app/dashboard/requests/page.tsx:72-89 | Nothing is sent iff no request is selected or `refused` has a blank comment. The comment is sent iff the status is `refused`, and is then non-blank. |
| Requests.CreateRequest | app/dashboard/requests/page.tsx:114-131 | Nothing is sent iff the title or the author is blank once trimmed; otherwise the fields are sent as typed. |
| Requests.UsernameFromEmailCorrect | app/dashboard/requests/page.tsx:151-154 | `Unknown` without an address. Otherwise the text before the first `@`: a prefix of the address without `@`, followed by `@` unless it is the whole address. |
| Filters.AddLabels | app/api/filters/route.ts:26-27 | One book adds its tags to the tag set and its factions to the faction set; a null array adds nothing. |
| Filters.CollectLabels | app/api/filters/route.ts:22-28 | The `forEach` builds the two sets of all rows. |
| Filters.SeenCorrect | app/api/filters/route.ts:22-28 | The set holds each label of some book exactly once, and nothing else. |
| Filters.SortedLabelsCorrect | app/api/filters/route.ts:31-32 | Each output list is strictly ascending (sorted, no duplicates) and holds a label iff some row carries it. |
| Filters.Get | app/api/filters/route.ts:4-34 | A query error gives 500 `Failed to fetch filters`. Otherwise the two sorted lists, with no rows read as none. |
| ExtractFilters.JsonFiles | scripts/extract-filters.js:6 | Exactly the names ending in `.json`. |
| ExtractFilters.SeenAppend | scripts/extract-filters.js:15-22 | Walking one more book adds its labels to the set. |
| ExtractFilters.AddFileBooks | scripts/extract-filters.js:15-22 | The loop over one file's books continues the sets of the books walked so far. |
| ExtractFilters.Extract | scripts/extract-filters.js:6-27 | The script's output is `ExpectedOutput`: none when it throws, otherwise the two sorted lists. |
| ExtractFilters.FileBooksAbort | scripts/extract-filters.js:13-15 | A file that does not parse or has no `books` array makes the script throw. |
| ExtractFilters.FileBooksCorrect | scripts/extract-filters.js:11-23 | The script throws iff some file is unusable; otherwise the books walked are exactly those of the files. |
| ExtractFilters.ExtractCorrect | scripts/extract-filters.js:6-27 | No output iff some `.json` file is unusable. Otherwise both lists are strictly ascending, and each holds a label iff some book of some `.json` file carries it. |
| ExtractFilters.LabelsFromFiles | scripts/extract-filters.js:11-23 | A label is carried by a walked book iff it is carried by a book of some `.json` file. |
| ValidateIds.CheckedFiles | scripts/validate-book-ids.js:28 | Exactly the names ending in `.json` and not starting with `_`. |
| ValidateIds.RecordBooks | scripts/validate-book-ids.js:39-55 | The loop over a file's books computes `BooksStep`. |
| ValidateIds.WalkSeriesFiles | scripts/validate-book-ids.js:30-60 | The loop over the series files computes `SeriesWalk`. |
| ValidateIds.BooksStepFacts | scripts/validate-book-ids.js:39-55 | Each non-empty ID is counted once per occurrence. A book without an ID is never recorded and raises the flag, and the flag is up iff some book lacks an ID. |
| ValidateIds.SeriesWalkFacts | scripts/validate-book-ids.js:30-60 | Counts are occurrences in the readable files with a `books` array. The flag is up iff some file is unreadable or has a book without an ID, and a file without `books` is skipped. |
| ValidateIds.WalkItemFiles | scripts/validate-book-ids.js:70-93 | The loop over a category's files computes `ItemWalk`. |
| ValidateIds.ItemWalkFacts | scripts/validate-book-ids.js:70-93 | Each ID's count is the number of files holding it. The flag is up iff some file is unreadable or has no ID. |
| ValidateIds.ValidateAllIds | scripts/validate-book-ids.js:14-166 | Exit 1 iff some table has an error or an ID occurring twice, and exit 0 otherwise. A cross-table overlap only sets the warning, which holds iff two tables share an ID. |
| ValidateIds.SeriesVerdict | scripts/validate-book-ids.js:30-113 | The series table fails iff some file fails or some ID occurs twice among its books. |
| ValidateIds.ItemVerdict | scripts/validate-book-ids.js:70-113 | A category table fails iff some file fails or two of its files hold the same ID. |
| MissingNumbers.Defined | scripts/check-missing-numbers.js:38 | Exactly the orders that are defined. |
| MissingNumbers.OrdersCorrect | scripts/check-missing-numbers.js:36-39 | `orders` is a permutation of the defined orders, sorted ascending. |
| MissingNumbers.Min | scripts/check-missing-numbers.js:46 | `Math.min`: an element no larger than any other. |
| MissingNumbers.Max | scripts/check-missing-numbers.js:47 | `Math.max`: an element no smaller than any other. |
| MissingNumbers.FindMissing | scripts/check-missing-numbers.js:48-54 | The `for` loop pushes exactly `Gaps(orders, min, max)`. |
| MissingNumbers.GapsCorrect | scripts/check-missing-numbers.js:46-55 | A number is reported iff it lies in `[min, max]` and is not an order; the report is strictly ascending. |
| MissingNumbers.ConsecutiveHasNoGaps | scripts/check-missing-numbers.js:50-54 | Orders covering their whole range, duplicates allowed, report nothing. |
| MissingNumbers.SumOverPositive | scripts/check-missing-numbers.js:57-63 | A sum over files is positive iff some file contributes. |
| MissingNumbers.CheckFile | scripts/check-missing-numbers.js:28-66 | One file contributes its number of gaps: none when it lacks `books` or has no defined order. |
| MissingNumbers.CheckMissingNumbers | scripts/check-missing-numbers.js:14-81 | Exit 1 without the directory. Otherwise exit 1 iff the gaps summed over the checked files are positive. |
| MissingNumbers.TotalGapsPositive | scripts/check-missing-numbers.js:57-80 | The total is positive iff some checked file reports a missing number. |
| MissingNumbers.UnreadableFilesAddNothing | scripts/check-missing-numbers.js:68-70 | Files that fail to parse add nothing to the total. |
| Admin.TrimmedParts | lib/admin.ts:8 | One trimmed part per comma-separated part, in order. |
| Admin.AdminEmails | lib/admin.ts:6-9 | An address is listed iff it is non-empty and is a trimmed part of the variable. |
| Admin.AdminEmailsWellFormed | lib/admin.ts:8 | Every entry is non-empty, has no comma, and neither starts nor ends with white space. |
| Admin.UnsetListIsEmpty | lib/admin.ts:7 | An unset or empty variable lists nobody. |
| Admin.IsAdminCorrect | lib/admin.ts:14-19 | True iff the address is present and non-empty and its lower-cased form is literally one of the trimmed parts. |
| Admin.UppercaseEntryNeverMatches | lib/admin.ts:17-18 | Entries are not lower-cased, so an entry with an upper-case letter matches no address. |
| Admin.LowerOfLowercase | lib/admin.ts:18 | Lower-casing a string without upper-case letters changes nothing. |
| Admin.LowercaseEntryMatchesAnyCase | lib/admin.ts:17-18 | An all-lower-case entry admits every capitalisation of itself. |
| Admin.CheckIsAdmin | lib/admin.ts:24-26 | `checkIsAdmin` answers exactly as `isAdmin`. |
| Prelude.Lower | lib/admin.ts:18 | `toLowerCase` keeps the length and lower-cases each ASCII letter. |
| Prelude.LowerHasNoUpper | lib/admin.ts:18 | A lower-cased string has no upper-case letter. |
| Prelude.ContainsEmpty | lib/bookData.ts:110 | `includes('')` is true of every string. |
| Prelude.Trim | lib/admin.ts:8 | `trim` gives a substring that neither starts nor ends with white space. |
| Prelude.TrimEmptyIffBlank | app/dashboard/requests/page.tsx:75 | A string trims to `''` iff it is all white space. |
| Prelude.Split | app/dashboard/requests/page.tsx:153 | `split` gives at least one part, and no part contains the separator. |
| Prelude.JoinSplit | app/dashboard/requests/page.tsx:153 | Joining the parts with the separator rebuilds the string. |
| Prelude.SplitHeadIsBeforeFirst | app/dashboard/requests/page.tsx:153 | The first part is the text before the first separator. |
| Prelude.NatToString | app/api/import/route.ts:112 | A counter is printed as a non-empty string of decimal digits. |
| Prelude.NatToStringRoundTrip | app/api/import/route.ts:112 | Reading the printed digits back gives the counter. |
| Prelude.SortBy | lib/bookData.ts:87-95 | `sort` keeps the length and the multiset of elements. |
| Prelude.SortByIsSorted | lib/bookData.ts:87-95 | Under a total preorder the result is sorted. |
| Prelude.SortByMembers | lib/bookData.ts:87-95 | Sorting keeps exactly the same members. |
| Prelude.SortedHeadIsLeast | lib/bookData.ts:48-50 | `sort(...)[0]` is an element no greater than any other. |
| Prelude.StrLeIsTotalPreorder | app/series/page.tsx:130 | The string order standing for `localeCompare` is a total preorder. |
| Prelude.IndexOf | components/SeriesView.tsx:30 | `indexOf` is the first index of the element, and -1 iff it is absent. |
| Prelude.SliceTo | lib/bookData.ts:97 | `slice(0, limit)` is a prefix of length `min(limit, n)`, counting from the end for a negative limit. |
| Prelude.Slice | app/order/series/name/page.tsx:124 | `slice(start, end)` is the subrange when it is in bounds, and never longer than `end - start`. |
| Prelude.SetAdd | app/api/filters/route.ts:26 | `Set.add` keeps the set free of repeats and adds exactly the element. |
| Prelude.SetAddAllCorrect | app/api/filters/route.ts:26-27 | Adding a list keeps the set free of repeats and adds exactly the list's elements. |
| Prelude.AddEach | app/api/filters/route.ts:26 | The `forEach` that adds each element computes `SetAddAll`. |
| Prelude.SortStringsCorrect | app/api/filters/route.ts:31-32 | `Array.from(set).sort()` is strictly ascending, with the same elements. |

## Left out

- Floating point: `percentComplete`, `completionRate` and `progressPercent`, including the division by zero on an empty series in the series view, and the rounding done for display.
- Locale and Unicode: `localeCompare` and the default `sort()` are both the character order `StrLe`, although the default sort compares UTF-16 code units. `toLowerCase` and `trim` act on ASCII only.
- Dates: `created_at` is an integer timestamp, so an unparsable date (NaN in the comparator) is not modelled. "Now" is a parameter.
- Rendering, React state hooks other than the page state of the title-ordered list, `fetch`, toasts, modals and console output. This includes the printed duplicate and overlap details of the ID validator and the per-series report of the missing-numbers script.
- Authentication and storage clients: the user, the store's acceptance of a write, the success of the existing-row read before an upsert, and the success of the `GET` query are parameters. In the importer an unparsable body becomes `{}` and so "No files selected" (app/api/import/route.ts:40-44), as modelled; its outer `catch` (500 `Failed to import data`, lines 115-124), reached when a client or authentication call throws or when the body is JSON `null`, is not modelled.
- Unparsable request bodies: the progress routes (app/api/reading/anthologies/route.ts:14, the same line in the novellas and singles routes, app/api/reading/route.ts:19) and the request routes parse the body with no local `catch`, so a malformed or `null` body ends in the route's 500 `catch` block. `Body`, `EntryBody` and the request bodies are already-parsed objects, so that path is not modelled.
- ProgressQueries.Updates: it has no `id` and no `created_at` column, although `Partial<ReadingProgress>` allows both and the spread of the updates into the upserted object (lib/supabase/queries.ts:80-84) would write them. No caller in the repository passes them.
- ImportBatch: a book element that is not an object, or a non-string ID, is not modelled. A parsed file without `books` records the `TypeError` message of iterating `undefined`.
- ValidateIds: only the ID and the title of a book or item are read. A `null` element of a `books` array (which throws inside the loop) is not modelled.
- MissingNumbers: orders are integers. Fractional or non-numeric `orderInSeries` values and `null` book elements are not modelled.
- ProgressRows: `rating` is an integer and `notes` a string; any other JSON type in the request body is not modelled.
- The text-to-speech server under `tts/`, the thin API wrappers, the per-category page variants that repeat the modelled pages, and the request API routes whose handlers are not part of this model.
- The file tracker's `GET` and the file read and write themselves: only whether they succeed is modelled.
