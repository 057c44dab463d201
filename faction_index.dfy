/** app/order/factions/page.tsx: `booksByFaction` (every book listed under
    each of its factions, then the factions sorted), `filteredFactions` and
    the status click `cycleStatus`. */
module FactionIndex {
  import opened Prelude
  import opened Catalog
  import opened OrderByName
  import SeriesView

  /** A JavaScript `Map<string, BookWithSeries[]>`: `keys` in insertion
      order, `groups` the value under each key. */
  datatype Grouping = Grouping(keys: seq<string>, groups: map<string, seq<BookWithSeries>>)

  const EmptyGrouping: Grouping := Grouping([], map[])

  /** The keys are listed once each, and are exactly the map's keys. */
  ghost predicate Valid(g: Grouping) {
    NoDuplicates(g.keys) && forall f :: f in g.keys <==> f in g.groups
  }

  /** `book.faction`, with a missing array read as empty (the guard
      `book.faction && book.faction.length > 0` skips both). */
  function FactionsOf(b: BookWithSeries): seq<string> {
    if b.book.faction.Some? then b.book.faction.value else []
  }

  /** `if (!map.has(f)) map.set(f, []); map.get(f)!.push(b)`. */
  function AddTo(g: Grouping, f: string, b: BookWithSeries): Grouping {
    if f in g.groups then Grouping(g.keys, g.groups[f := g.groups[f] + [b]])
    else Grouping(g.keys + [f], g.groups[f := [b]])
  }

  /** The inner `forEach` over the factions `fs` of one book. */
  function AddFactions(g: Grouping, fs: seq<string>, b: BookWithSeries): Grouping {
    if fs == [] then g else AddTo(AddFactions(g, fs[..|fs| - 1], b), fs[|fs| - 1], b)
  }

  /** The map after the books `bs` have been walked, in order. */
  function GroupOf(bs: seq<BookWithSeries>): Grouping {
    if bs == [] then EmptyGrouping
    else AddFactions(GroupOf(bs[..|bs| - 1]), FactionsOf(bs[|bs| - 1]), bs[|bs| - 1])
  }

  lemma GroupOfAppend(bs: seq<BookWithSeries>, b: BookWithSeries)
    ensures GroupOf(bs + [b]) == AddFactions(GroupOf(bs), FactionsOf(b), b)
  {
    assert (bs + [b])[..|bs|] == bs;
  }

  /** The innermost `forEach`: the book under each of its factions. */
  method FileBook(g0: Grouping, b: BookWithSeries) returns (g: Grouping)
    ensures g == AddFactions(g0, FactionsOf(b), b)
  {
    g := g0;
    if b.book.faction.Some? && |b.book.faction.value| > 0 {
      var fs := b.book.faction.value;
      var k := 0;
      while k < |fs|
        invariant 0 <= k <= |fs|
        invariant g == AddFactions(g0, fs[..k], b)
      {
        assert fs[..k + 1][..k] == fs[..k];
        g := AddTo(g, fs[k], b);
        k := k + 1;
      }
      assert fs[..k] == fs;
    }
  }

  /** The `forEach` over one series' books, after the books `walked`. */
  method FileSeries(g0: Grouping, series: Series, ghost walked: seq<BookWithSeries>) returns (g: Grouping)
    requires g0 == GroupOf(walked)
    ensures g == GroupOf(walked + TagSeries(series))
  {
    g := g0;
    assert walked + TagSeries(series)[..0] == walked;
    var j := 0;
    while j < |series.books|
      invariant 0 <= j <= |series.books|
      invariant g == GroupOf(walked + TagSeries(series)[..j])
    {
      var bookWithSeries := BookWithSeries(series.books[j], series.name);
      ghost var seen := walked + TagSeries(series)[..j];
      g := FileBook(g, bookWithSeries);
      GroupOfAppend(seen, bookWithSeries);
      assert TagSeries(series)[..j + 1] == TagSeries(series)[..j] + [bookWithSeries];
      assert walked + TagSeries(series)[..j + 1] == seen + [bookWithSeries];
      j := j + 1;
    }
    assert TagSeries(series)[..j] == TagSeries(series);
  }

  /** The nested `forEach` loops over series, books and factions. */
  method GroupBooks(meta: seq<Series>) returns (g: Grouping)
    ensures g == GroupOf(Tagged(meta))
  {
    g := EmptyGrouping;
    var i := 0;
    while i < |meta|
      invariant 0 <= i <= |meta|
      invariant g == GroupOf(Tagged(meta[..i]))
    {
      g := FileSeries(g, meta[i], Tagged(meta[..i]));
      assert meta[..i + 1][..i] == meta[..i];
      i := i + 1;
    }
    assert meta[..i] == meta;
  }

  /** Walking one book's factions adds the book under each of them, adds
      exactly the new factions as keys, and changes nothing else. */
  lemma {:induction false} AddFactionsFacts(g: Grouping, fs: seq<string>, b: BookWithSeries)
    requires Valid(g)
    ensures var r := AddFactions(g, fs, b);
      && Valid(r)
      && (forall f :: f in r.groups <==> f in g.groups || f in fs)
      && (forall f :: f in fs ==> b in r.groups[f])
      && (forall f, x :: f in r.groups && x in r.groups[f] ==> (f in g.groups && x in g.groups[f]) || (x == b && f in fs))
      && (forall f, x :: f in g.groups && x in g.groups[f] ==> x in r.groups[f])
  {
    if fs != [] {
      var init := fs[..|fs| - 1];
      var f0 := fs[|fs| - 1];
      AddFactionsFacts(g, init, b);
      var m := AddFactions(g, init, b);
      var r := AddTo(m, f0, b);
      assert fs == init + [f0];
      if f0 !in m.groups {
        assert f0 !in m.keys;
        forall p, q | 0 <= p < q < |r.keys| ensures r.keys[p] != r.keys[q] {
          if q == |m.keys| {
            assert r.keys[p] == m.keys[p];
          }
        }
      }
      forall f, x | f in r.groups && x in r.groups[f]
        ensures (f in g.groups && x in g.groups[f]) || (x == b && f in fs)
      {
        if f == f0 {
          if f0 in m.groups && x in m.groups[f0] {
          } else {
            assert x == b;
          }
        }
      }
    }
  }

  /** A faction is a key of the map after walking `bs` iff some book of
      `bs` carries it. */
  lemma {:induction false} GroupOfKeys(bs: seq<BookWithSeries>)
    ensures Valid(GroupOf(bs))
    ensures forall f :: f in GroupOf(bs).groups <==> exists k :: 0 <= k < |bs| && f in FactionsOf(bs[k])
  {
    if bs != [] {
      var n := |bs| - 1;
      var init := bs[..n];
      GroupOfKeys(init);
      var m := GroupOf(init);
      AddFactionsFacts(m, FactionsOf(bs[n]), bs[n]);
      var g := GroupOf(bs);
      forall f | f in g.groups ensures exists k :: 0 <= k < |bs| && f in FactionsOf(bs[k]) {
        if f in m.groups {
          var k :| 0 <= k < |init| && f in FactionsOf(init[k]);
          assert bs[k] == init[k];
        } else {
          assert f in FactionsOf(bs[n]);
        }
      }
      forall f | exists k :: 0 <= k < |bs| && f in FactionsOf(bs[k]) ensures f in g.groups {
        var k :| 0 <= k < |bs| && f in FactionsOf(bs[k]);
        if k < n {
          assert init[k] == bs[k];
        }
      }
    }
  }

  /** Every book of `bs` is listed under each of its factions. */
  lemma {:induction false} GroupOfListed(bs: seq<BookWithSeries>)
    ensures forall k, f :: 0 <= k < |bs| && f in FactionsOf(bs[k]) ==> f in GroupOf(bs).groups && bs[k] in GroupOf(bs).groups[f]
  {
    if bs != [] {
      var n := |bs| - 1;
      var init := bs[..n];
      GroupOfListed(init);
      GroupOfKeys(init);
      var m := GroupOf(init);
      AddFactionsFacts(m, FactionsOf(bs[n]), bs[n]);
      var g := GroupOf(bs);
      forall k, f | 0 <= k < |bs| && f in FactionsOf(bs[k]) ensures f in g.groups && bs[k] in g.groups[f] {
        if k < n {
          assert init[k] == bs[k];
        }
      }
    }
  }

  /** A book listed under a faction is a book of `bs` carrying it. */
  lemma {:induction false} GroupOfSound(bs: seq<BookWithSeries>)
    ensures forall f, x :: f in GroupOf(bs).groups && x in GroupOf(bs).groups[f] ==> x in bs && f in FactionsOf(x)
  {
    if bs != [] {
      var n := |bs| - 1;
      var init := bs[..n];
      GroupOfSound(init);
      GroupOfKeys(init);
      var m := GroupOf(init);
      AddFactionsFacts(m, FactionsOf(bs[n]), bs[n]);
      var g := GroupOf(bs);
      forall f, x | f in g.groups && x in g.groups[f] ensures x in bs && f in FactionsOf(x) {
        if f in m.groups && x in m.groups[f] {
          assert x in init;
          var k :| 0 <= k < |init| && init[k] == x;
          assert bs[k] == x;
        } else {
          assert bs[n] == x;
        }
      }
    }
  }

  /** `booksByFaction`: the groups, with the keys in ascending order. */
  method BooksByFaction(meta: seq<Series>) returns (keys: seq<string>, groups: map<string, seq<BookWithSeries>>)
    ensures keys == SortStrings(GroupOf(Tagged(meta)).keys) && groups == GroupOf(Tagged(meta)).groups
  {
    var g := GroupBooks(meta);
    keys := SortStrings(g.keys);
    groups := g.groups;
  }

  /** In terms of the catalog: the keys are strictly ascending, and a
      faction is a key iff some book of some series carries it; each book,
      tagged with its series name, is listed under each of its factions,
      and a listed book carries the faction. */
  lemma BooksByFactionCorrect(meta: seq<Series>)
    ensures var g := GroupOf(Tagged(meta));
      var keys := SortStrings(g.keys);
      && StrictlyIncreasing(keys)
      && (forall f :: f in keys <==> f in g.groups)
      && (forall f :: f in g.groups <==>
            exists i, j :: 0 <= i < |meta| && 0 <= j < |meta[i].books| && f in FactionsOf(BookWithSeries(meta[i].books[j], meta[i].name)))
      && (forall i, j, f :: 0 <= i < |meta| && 0 <= j < |meta[i].books| && f in FactionsOf(BookWithSeries(meta[i].books[j], meta[i].name)) ==>
            f in g.groups && BookWithSeries(meta[i].books[j], meta[i].name) in g.groups[f])
      && (forall f, x :: f in g.groups && x in g.groups[f] ==> f in FactionsOf(x))
  {
    var bs := Tagged(meta);
    var g := GroupOf(bs);
    GroupOfKeys(bs);
    GroupOfListed(bs);
    GroupOfSound(bs);
    TaggedMembers(meta);
    SortStringsCorrect(g.keys);
    forall f | f in g.groups
      ensures exists i, j :: 0 <= i < |meta| && 0 <= j < |meta[i].books| && f in FactionsOf(BookWithSeries(meta[i].books[j], meta[i].name))
    {
      var k :| 0 <= k < |bs| && f in FactionsOf(bs[k]);
      assert bs[k] in bs;
    }
    forall i, j, f | 0 <= i < |meta| && 0 <= j < |meta[i].books| && f in FactionsOf(BookWithSeries(meta[i].books[j], meta[i].name))
      ensures f in g.groups && BookWithSeries(meta[i].books[j], meta[i].name) in g.groups[f]
    {
      var x := BookWithSeries(meta[i].books[j], meta[i].name);
      var k :| 0 <= k < |bs| && bs[k] == x;
    }
  }

  /** `filteredFactions`: an empty query keeps every key. */
  function FilteredFactions(keys: seq<string>, query: string): (r: seq<string>)
    ensures query == "" ==> r == keys
    ensures query != "" ==> forall f :: f in r <==> f in keys && Contains(Lower(f), Lower(query))
  {
    if query == "" then keys
    else
      var r := Filter(keys, (f: string) => Contains(Lower(f), Lower(query)));
      assert forall f :: f in keys && Contains(Lower(f), Lower(query)) ==> f in r by {
        forall f | f in keys && Contains(Lower(f), Lower(query)) ensures f in r {
          var i :| 0 <= i < |keys| && keys[i] == f;
        }
      }
      r
  }

  /** `cycleStatus` on this page is the one of the series view: the index
      of the status in `['unread', 'reading', 'completed']` goes up by one
      modulo 3, a status outside the list counting as index -1. */
  lemma CycleAdvancesIndex(data: seq<ReadingEntry>, bookId: string)
    ensures var current := StatusOf(data, bookId);
      IndexOf(SeriesView.StatusOrder, SeriesView.CycleStatus(current))
        == (IndexOf(SeriesView.StatusOrder, current) + 1) % 3
  {
    var current := StatusOf(data, bookId);
    var order := SeriesView.StatusOrder;
    var next := SeriesView.CycleStatus(current);
    if current == UNREAD {
      assert IndexOf(order, current) == 0 && IndexOf(order, next) == 1;
    } else if current == READING {
      assert IndexOf(order, current) == 1 && IndexOf(order, next) == 2;
    } else if current == COMPLETED {
      assert IndexOf(order, current) == 2 && IndexOf(order, next) == 0;
    } else {
      assert IndexOf(order, current) == -1 && IndexOf(order, next) == 0;
    }
  }
}
