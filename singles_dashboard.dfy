/** app/dashboard/singles/page.tsx: the `stats` of the singles dashboard,
    computed from the catalog of singles and the user's progress rows, and
    the list of singles in a given status. */
module SinglesDashboard {
  import opened Prelude

  datatype Single = Single(id: string, title: string, author: string, faction: seq<string>, tags: seq<string>)

  /** A progress row as the page receives it. */
  datatype ProgressRow = ProgressRow(singleId: string, status: string)

  /** `unread` is an `int`: the formula can go negative when there are rows
      for singles outside the catalog. */
  datatype Stats = Stats(total: int, completed: int, reading: int, unread: int)

  function RowsWith(progress: seq<ProgressRow>, st: string): (n: nat)
    ensures n <= |progress|
  {
    |Filter(progress, (p: ProgressRow) => p.status == st)|
  }

  /** `stats`: completed and reading count the rows with that status, and
      `unread` is the singles without a row plus the rows marked unread. */
  function ComputeStats(singles: seq<Single>, progress: seq<ProgressRow>): (s: Stats)
    ensures s.total == |singles|
    ensures s.completed == RowsWith(progress, COMPLETED) && s.reading == RowsWith(progress, READING)
    ensures s.unread == |singles| - |progress| + RowsWith(progress, UNREAD)
  {
    Stats(|singles|, RowsWith(progress, COMPLETED), RowsWith(progress, READING),
          |singles| - |progress| + RowsWith(progress, UNREAD))
  }

  predicate KnownStatus(p: ProgressRow) {
    p.status == UNREAD || p.status == READING || p.status == COMPLETED
  }

  lemma {:induction false} RowsPartition(progress: seq<ProgressRow>)
    requires forall i :: 0 <= i < |progress| ==> KnownStatus(progress[i])
    ensures RowsWith(progress, COMPLETED) + RowsWith(progress, READING) + RowsWith(progress, UNREAD) == |progress|
  {
    if progress != [] {
      RowsPartition(progress[1..]);
    }
  }

  /** When every row carries one of the three statuses the counters add up
      to the number of singles, whatever the rows refer to. */
  lemma StatsAddUp(singles: seq<Single>, progress: seq<ProgressRow>)
    requires forall i :: 0 <= i < |progress| ==> KnownStatus(progress[i])
    ensures var s := ComputeStats(singles, progress);
      s.completed + s.reading + s.unread == s.total
  {
    RowsPartition(progress);
  }

  /** `singles.find(s => s.id === id)`. */
  function FindSingle(singles: seq<Single>, id: string): (r: Option<Single>)
    ensures r.Some? ==> r.value in singles && r.value.id == id
    ensures r.None? <==> forall i :: 0 <= i < |singles| ==> singles[i].id != id
  {
    if singles == [] then None
    else if singles[0].id == id then Some(singles[0])
    else FindSingle(singles[1..], id)
  }

  /** `getBooksByStatus(status)`: for each row with the status, in row
      order, the catalog single it names; rows naming no single are
      dropped. */
  function GetBooksByStatus(singles: seq<Single>, progress: seq<ProgressRow>, st: string): (r: seq<Single>)
    ensures |r| <= RowsWith(progress, st)
    ensures forall k :: 0 <= k < |r| ==>
      r[k] in singles && exists i :: 0 <= i < |progress| && progress[i].status == st && progress[i].singleId == r[k].id
    ensures forall i :: 0 <= i < |progress| && progress[i].status == st && FindSingle(singles, progress[i].singleId).Some? ==>
      FindSingle(singles, progress[i].singleId).value in r
  {
    if progress == [] then []
    else
      var rest := GetBooksByStatus(singles, progress[1..], st);
      var found := FindSingle(singles, progress[0].singleId);
      var r := if progress[0].status == st && found.Some? then [found.value] + rest else rest;
      assert forall k :: 0 <= k < |rest| ==> exists i :: 0 <= i < |progress| && progress[i].status == st && progress[i].singleId == rest[k].id by {
        forall k | 0 <= k < |rest|
          ensures exists i :: 0 <= i < |progress| && progress[i].status == st && progress[i].singleId == rest[k].id
        {
          var i :| 0 <= i < |progress[1..]| && progress[1..][i].status == st && progress[1..][i].singleId == rest[k].id;
          assert progress[i + 1] == progress[1..][i];
        }
      }
      assert forall i :: 1 <= i < |progress| ==> progress[i] == progress[1..][i - 1];
      r
  }

  // The same list computed stage by stage, as the source chains it.

  /** `.filter(p => p.status === status)`. */
  function HasStatus(st: string): ProgressRow -> bool {
    (p: ProgressRow) => p.status == st
  }

  /** `.map(p => singles.find(s => s.id === p.single_id))`: one lookup per
      row, in row order. */
  function LookUpRows(singles: seq<Single>, rows: seq<ProgressRow>): (r: seq<Option<Single>>)
    ensures |r| == |rows|
    ensures forall i :: 0 <= i < |rows| ==> r[i] == FindSingle(singles, rows[i].singleId)
  {
    if rows == [] then [] else [FindSingle(singles, rows[0].singleId)] + LookUpRows(singles, rows[1..])
  }

  /** `.filter(Boolean)`: the singles that were found, in order. */
  function Found(xs: seq<Option<Single>>): (r: seq<Single>)
    ensures |r| <= |xs|
  {
    if xs == [] then [] else (if xs[0].Some? then [xs[0].value] else []) + Found(xs[1..])
  }

  /** `getBooksByStatus` is the filter-map-filter chain: exactly one single
      per row with the status whose single is in the catalog, in row order,
      repeated when rows repeat. */
  lemma {:induction false} GetBooksByStatusIsPipeline(singles: seq<Single>, progress: seq<ProgressRow>, st: string)
    ensures GetBooksByStatus(singles, progress, st) == Found(LookUpRows(singles, Filter(progress, HasStatus(st))))
  {
    if progress != [] {
      GetBooksByStatusIsPipeline(singles, progress[1..], st);
      var rows := Filter(progress[1..], HasStatus(st));
      if progress[0].status == st {
        var l := LookUpRows(singles, [progress[0]] + rows);
        assert ([progress[0]] + rows)[1..] == rows;
        assert l == [FindSingle(singles, progress[0].singleId)] + LookUpRows(singles, rows);
        assert l[1..] == LookUpRows(singles, rows);
      } else {
        assert Filter(progress, HasStatus(st)) == rows;
      }
    }
  }
}
