/** app/dashboard/requests/page.tsx: the requests shown under a tab
    (`getRequestsByTab`), the checks made before a status change or a new
    request is sent, and the user name shown for a request
    (`getUsernameFromEmail`). `created_at` is read as a timestamp. */
module Requests {
  import opened Prelude

  /** `SubTab`. */
  datatype SubTab = Pending | Approved | Waitlist | Refused

  function TabName(t: SubTab): string {
    match t
    case Pending => "pending"
    case Approved => "approved"
    case Waitlist => "waitlist"
    case Refused => "refused"
  }

  datatype SortOrder = Newest | Oldest

  /** The fields of a `BookRequest` the page reads. */
  datatype BookRequest = BookRequest(id: string, status: string, createdAt: Timestamp, userEmail: Option<string>)

  /** The comparator `dateB - dateA` (newest first) or `dateA - dateB`
      (oldest first), read as "may come first". */
  function ByDate(order: SortOrder): (BookRequest, BookRequest) -> bool {
    match order
    case Newest => (a: BookRequest, b: BookRequest) => b.createdAt <= a.createdAt
    case Oldest => (a: BookRequest, b: BookRequest) => a.createdAt <= b.createdAt
  }

  /** `getRequestsByTab`: the requests with the tab's status, sorted by
      date (the sort is stable). */
  function RequestsByTab(requests: seq<BookRequest>, tab: SubTab, order: SortOrder): seq<BookRequest> {
    SortBy(Filter(requests, (r: BookRequest) => r.status == TabName(tab)), ByDate(order))
  }

  /** A request is shown under a tab iff its status is the tab's, and the
      list runs from newest to oldest or from oldest to newest. */
  lemma RequestsByTabCorrect(requests: seq<BookRequest>, tab: SubTab, order: SortOrder)
    ensures var r := RequestsByTab(requests, tab, order);
      && (forall x :: x in r <==> x in requests && x.status == TabName(tab))
      && (order == Newest ==> forall i, j :: 0 <= i < j < |r| ==> r[j].createdAt <= r[i].createdAt)
      && (order == Oldest ==> forall i, j :: 0 <= i < j < |r| ==> r[i].createdAt <= r[j].createdAt)
  {
    var p := (r: BookRequest) => r.status == TabName(tab);
    var kept := Filter(requests, p);
    assert TotalPreorder(ByDate(order));
    SortByIsSorted(kept, ByDate(order));
    SortByMembers(kept, ByDate(order));
    forall x | x in requests && x.status == TabName(tab) ensures x in kept {
      var i :| 0 <= i < |requests| && requests[i] == x;
    }
  }

  /** `!s.trim()`: the string is empty once trimmed. */
  predicate Blank(s: string) {
    forall i :: 0 <= i < |s| ==> IsSpace(s[i])
  }

  /** The body of the status-change request. */
  datatype StatusPatch = StatusPatch(status: string, refusalComment: Option<string>)

  /** `handleStatusChange`, up to the request it sends: nothing without a
      selected request, nothing for `refused` with a blank comment, and
      the comment sent only with `refused`. */
  function StatusChange(selected: Option<BookRequest>, newStatus: string, refusalComment: string): (r: Option<StatusPatch>)
    ensures r.None? <==> selected.None? || (newStatus == "refused" && Blank(refusalComment))
    ensures r.Some? ==> r.value.status == newStatus
    ensures r.Some? ==> (r.value.refusalComment.Some? <==> newStatus == "refused")
    ensures r.Some? && r.value.refusalComment.Some? ==>
      r.value.refusalComment.value == refusalComment && !Blank(refusalComment)
  {
    TrimEmptyIffBlank(refusalComment);
    if selected.None? then None
    else if newStatus == "refused" && Trim(refusalComment) == "" then None
    else Some(StatusPatch(newStatus, if newStatus == "refused" then Some(refusalComment) else None))
  }

  /** The body of a new request. */
  datatype NewRequest = NewRequest(title: string, author: string, bookType: string, additionalInfo: string)

  /** `handleCreateRequest`, up to the request it sends: nothing when the
      title or the author is blank once trimmed; otherwise the fields as
      typed, untrimmed. */
  function CreateRequest(title: string, author: string, bookType: string, info: string): (r: Option<NewRequest>)
    ensures r.None? <==> Blank(title) || Blank(author)
    ensures r.Some? ==> r.value == NewRequest(title, author, bookType, info)
  {
    TrimEmptyIffBlank(title);
    TrimEmptyIffBlank(author);
    if Trim(title) == "" || Trim(author) == "" then None
    else Some(NewRequest(title, author, bookType, info))
  }

  /** `getUsernameFromEmail`: `Unknown` for a missing or empty address,
      otherwise `email.split('@')[0]`. */
  function UsernameFromEmail(email: Option<string>): string {
    if email.None? || email.value == "" then "Unknown" else Split(email.value, '@')[0]
  }

  /** The name is the text before the first `@`: a prefix of the address
      without `@`, followed in the address by `@` unless it is all of it. */
  lemma UsernameFromEmailCorrect(email: Option<string>)
    ensures email.None? || email.value == "" ==> UsernameFromEmail(email) == "Unknown"
    ensures email.Some? && email.value != "" ==>
      var name := UsernameFromEmail(email);
      && StartsWith(email.value, name) && '@' !in name
      && (|name| < |email.value| ==> email.value[|name|] == '@')
  {
    if email.Some? && email.value != "" {
      SplitHeadIsBeforeFirst(email.value, '@');
    }
  }
}
