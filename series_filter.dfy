/** app/series/page.tsx: the `filteredSeries` computation (filter each
    series' books, drop emptied series, optionally sort by name), the tag
    and faction toggles, and the active-filter badge count. */
module SeriesFilter {
  import opened Prelude
  import opened Catalog

  datatype SortOption = Default | NameAsc | NameDesc

  /** The page's filter state. */
  datatype Criteria = Criteria(query: string, tags: seq<string>, factions: seq<string>, sortBy: SortOption)

  /** `selected.some(x => labels?.includes(x))`. */
  predicate HasAny(labels: Option<seq<string>>, selected: seq<string>) {
    labels.Some? && exists i :: 0 <= i < |selected| && selected[i] in labels.value
  }

  predicate MatchesName(b: Book, query: string) {
    Contains(Lower(b.title), Lower(query)) || Contains(Lower(b.author), Lower(query))
  }

  /** The book filter: each of the three tests applies only when its part
      of the state is non-empty. */
  predicate Keep(c: Criteria, b: Book) {
    && (c.query != "" ==> MatchesName(b, c.query))
    && (c.tags != [] ==> HasAny(b.tags, c.tags))
    && (c.factions != [] ==> HasAny(b.faction, c.factions))
  }

  function Narrow(c: Criteria, s: Series): (r: Series)
    ensures r.id == s.id && r.name == s.name && r.description == s.description
  {
    s.(books := Filter(s.books, (b: Book) => Keep(c, b)))
  }

  function NarrowAll(c: Criteria, ss: seq<Series>): (r: seq<Series>)
    ensures |r| == |ss|
    ensures forall i :: 0 <= i < |ss| ==> r[i] == Narrow(c, ss[i])
  {
    if ss == [] then [] else [Narrow(c, ss[0])] + NarrowAll(c, ss[1..])
  }

  /** The series that still have a book, before sorting. */
  function Surviving(c: Criteria, meta: seq<Series>): seq<Series> {
    Filter(NarrowAll(c, meta), (s: Series) => |s.books| > 0)
  }

  function ByNameAsc(): (Series, Series) -> bool {
    (a: Series, b: Series) => StrLe(a.name, b.name)
  }

  function ByNameDesc(): (Series, Series) -> bool {
    (a: Series, b: Series) => StrLe(b.name, a.name)
  }

  function FilteredSeries(c: Criteria, meta: seq<Series>): seq<Series> {
    var result := Surviving(c, meta);
    match c.sortBy
    case Default => result
    case NameAsc => SortBy(result, ByNameAsc())
    case NameDesc => SortBy(result, ByNameDesc())
  }

  lemma NameOrdersArePreorders()
    ensures TotalPreorder(ByNameAsc()) && TotalPreorder(ByNameDesc())
  {
    forall a: Series, b: Series ensures ByNameAsc()(a, b) || ByNameAsc()(b, a) {
      StrLeTotal(a.name, b.name);
    }
    forall a: Series, b: Series, d: Series | ByNameAsc()(a, b) && ByNameAsc()(b, d)
      ensures ByNameAsc()(a, d)
    {
      StrLeTrans(a.name, b.name, d.name);
    }
    forall a: Series, b: Series ensures ByNameDesc()(a, b) || ByNameDesc()(b, a) {
      StrLeTotal(a.name, b.name);
    }
    forall a: Series, b: Series, d: Series | ByNameDesc()(a, b) && ByNameDesc()(b, d)
      ensures ByNameDesc()(a, d)
    {
      StrLeTrans(d.name, b.name, a.name);
    }
  }

  /** Before sorting: every surviving series has books, all passing the
      filter, and every series with a passing book survives, narrowed. */
  lemma SurvivingCorrect(c: Criteria, meta: seq<Series>)
    ensures var r := Surviving(c, meta);
      && (forall s :: s in r ==> |s.books| > 0 && forall j :: 0 <= j < |s.books| ==> Keep(c, s.books[j]))
      && (forall i :: 0 <= i < |meta| && (exists j :: 0 <= j < |meta[i].books| && Keep(c, meta[i].books[j])) ==>
            Narrow(c, meta[i]) in r)
  {
    var narrowed := NarrowAll(c, meta);
    var r := Surviving(c, meta);
    forall s | s in r ensures |s.books| > 0 && forall j :: 0 <= j < |s.books| ==> Keep(c, s.books[j]) {
      var k :| 0 <= k < |r| && r[k] == s;
      var m :| 0 <= m < |narrowed| && narrowed[m] == s;
    }
    forall i | 0 <= i < |meta| && (exists j :: 0 <= j < |meta[i].books| && Keep(c, meta[i].books[j]))
      ensures Narrow(c, meta[i]) in r
    {
      var j :| 0 <= j < |meta[i].books| && Keep(c, meta[i].books[j]);
      assert meta[i].books[j] in Narrow(c, meta[i]).books;
      assert narrowed[i] == Narrow(c, meta[i]);
    }
  }

  /** Every shown series has books, all of which pass the filter; every
      series with a passing book is shown, narrowed to its passing books;
      `default` keeps catalog order and the two name orders are ascending
      and descending. */
  lemma FilteredSeriesCorrect(c: Criteria, meta: seq<Series>)
    ensures var r := FilteredSeries(c, meta);
      && (forall s :: s in r ==> |s.books| > 0 && forall j :: 0 <= j < |s.books| ==> Keep(c, s.books[j]))
      && (forall i :: 0 <= i < |meta| && (exists j :: 0 <= j < |meta[i].books| && Keep(c, meta[i].books[j])) ==>
            Narrow(c, meta[i]) in r)
      && multiset(r) == multiset(Surviving(c, meta))
      && (c.sortBy == Default ==> r == Surviving(c, meta))
      && (c.sortBy == NameAsc ==> forall i, j :: 0 <= i < j < |r| ==> StrLe(r[i].name, r[j].name))
      && (c.sortBy == NameDesc ==> forall i, j :: 0 <= i < j < |r| ==> StrLe(r[j].name, r[i].name))
  {
    var result := Surviving(c, meta);
    SurvivingCorrect(c, meta);
    NameOrdersArePreorders();
    match c.sortBy {
      case Default =>
      case NameAsc =>
        SortByIsSorted(result, ByNameAsc());
        SortByMembers(result, ByNameAsc());
      case NameDesc =>
        SortByIsSorted(result, ByNameDesc());
        SortByMembers(result, ByNameDesc());
    }
  }

  /** `toggleTag` and `toggleFaction`: drop the label if it is selected,
      otherwise append it. */
  function Toggle(prev: seq<string>, x: string): (r: seq<string>)
    ensures x in prev ==> x !in r && forall y :: y != x ==> (y in r <==> y in prev)
    ensures x !in prev ==> r == prev + [x]
    ensures NoDuplicates(prev) ==> NoDuplicates(r)
  {
    if x in prev then
      var r := Filter(prev, (t: string) => t != x);
      assert forall y :: y != x && y in prev ==> y in r by {
        forall y | y != x && y in prev ensures y in r {
          var i :| 0 <= i < |prev| && prev[i] == y;
        }
      }
      assert NoDuplicates(prev) ==> NoDuplicates(r) by {
        if NoDuplicates(prev) {
          FilterNoDuplicates(prev, (t: string) => t != x);
        }
      }
      r
    else prev + [x]
  }

  lemma {:induction false} FilterNoDuplicates(s: seq<string>, p: string -> bool)
    requires NoDuplicates(s)
    ensures NoDuplicates(Filter(s, p))
  {
    if s != [] {
      FilterNoDuplicates(s[1..], p);
      var rest := Filter(s[1..], p);
      if p(s[0]) {
        assert s[0] !in s[1..];
        forall k | 0 <= k < |rest| ensures rest[k] != s[0] {
          assert rest[k] in s[1..];
        }
      }
    }
  }

  /** Toggling the same label twice selects the same labels again. */
  lemma ToggleTwice(prev: seq<string>, x: string)
    ensures forall y :: y in Toggle(Toggle(prev, x), x) <==> y in prev
  {
  }

  /** `activeFilterCount`. */
  function ActiveFilterCount(c: Criteria): nat {
    (if c.query != "" then 1 else 0) + |c.tags| + |c.factions| + (if c.sortBy != Default then 1 else 0)
  }

  /** The state `clearFilters` sets. */
  const Cleared: Criteria := Criteria("", [], [], Default)

  /** The badge shows zero exactly for the cleared state, and the count
      goes up by one when a label is selected and down by one when it is
      deselected (without repeats). */
  lemma ActiveFilterCountFacts(c: Criteria, t: string)
    ensures ActiveFilterCount(c) == 0 <==> c == Cleared
    ensures t !in c.tags ==> ActiveFilterCount(c.(tags := Toggle(c.tags, t))) == ActiveFilterCount(c) + 1
    ensures NoDuplicates(c.tags) && t in c.tags ==>
      ActiveFilterCount(c.(tags := Toggle(c.tags, t))) + 1 == ActiveFilterCount(c)
  {
    if NoDuplicates(c.tags) && t in c.tags {
      RemoveOneLength(c.tags, t);
    }
  }

  lemma {:induction false} RemoveOneLength(s: seq<string>, x: string)
    requires NoDuplicates(s) && x in s
    ensures |Filter(s, (t: string) => t != x)| + 1 == |s|
  {
    if s[0] == x {
      assert x !in s[1..];
      FilterAllKept(s[1..], (t: string) => t != x);
    } else {
      assert NoDuplicates(s[1..]);
      RemoveOneLength(s[1..], x);
    }
  }
}
