/** scripts/check-missing-numbers.js: `checkMissingNumbers`, which lists, for
    each series file, the numbers between the smallest and the largest
    `orderInSeries` that no book carries, and fails when any are missing.
    The directory listing and the file contents are parameters; orders are
    integers. */
module MissingNumbers {
  import opened Prelude
  import ValidateIds

  /** A series file: `Unreadable` when reading or parsing throws; `books`
      is `None` when it is missing or not an array; each book's
      `orderInSeries` is `None` when undefined or null. */
  datatype GapFile = Unreadable | SeriesFile(books: Option<seq<Option<int>>>)

  /** `.filter(order => order !== undefined && order !== null)`. */
  function Defined(orders: seq<Option<int>>): (r: seq<int>)
    ensures forall x :: x in r <==> Some(x) in orders
  {
    if orders == [] then []
    else
      var rest := Defined(orders[1..]);
      assert forall x :: Some(x) in orders <==> Some(x) == orders[0] || Some(x) in orders[1..] by {
        assert orders == [orders[0]] + orders[1..];
      }
      if orders[0].Some? then [orders[0].value] + rest else rest
  }

  function ByValue(): (int, int) -> bool {
    (a: int, b: int) => a <= b
  }

  /** `.sort((a, b) => a - b)`. */
  function Orders(books: seq<Option<int>>): seq<int> {
    SortBy(Defined(books), ByValue())
  }

  /** `orders` holds exactly the defined orders, ascending. */
  lemma OrdersCorrect(books: seq<Option<int>>)
    ensures multiset(Orders(books)) == multiset(Defined(books))
    ensures forall x :: x in Orders(books) <==> Some(x) in books
    ensures forall i, j :: 0 <= i < j < |Orders(books)| ==> Orders(books)[i] <= Orders(books)[j]
  {
    SortByIsSorted(Defined(books), ByValue());
    SortByMembers(Defined(books), ByValue());
  }

  /** `Math.min(...orders)`. */
  function Min(s: seq<int>): (m: int)
    requires s != []
    ensures m in s && forall i :: 0 <= i < |s| ==> m <= s[i]
  {
    if |s| == 1 then s[0]
    else
      var m := Min(s[1..]);
      assert forall i :: 1 <= i < |s| ==> s[i] == s[1..][i - 1];
      if s[0] <= m then s[0] else m
  }

  /** `Math.max(...orders)`. */
  function Max(s: seq<int>): (m: int)
    requires s != []
    ensures m in s && forall i :: 0 <= i < |s| ==> s[i] <= m
  {
    if |s| == 1 then s[0]
    else
      var m := Max(s[1..]);
      assert forall i :: 1 <= i < |s| ==> s[i] == s[1..][i - 1];
      if s[0] >= m then s[0] else m
  }

  /** The numbers from `lo` to `hi` that `orders` lacks, in ascending
      order. */
  function Gaps(orders: seq<int>, lo: int, hi: int): seq<int>
    decreases hi - lo
  {
    if hi < lo then [] else Gaps(orders, lo, hi - 1) + (if hi in orders then [] else [hi])
  }

  /** `for (let i = min; i <= max; i++) if (!orders.includes(i)) missing.push(i)`. */
  method FindMissing(orders: seq<int>, min: int, max: int) returns (missing: seq<int>)
    ensures missing == Gaps(orders, min, max)
  {
    missing := [];
    var i := min;
    while i <= max
      invariant min <= i <= if max + 1 > min then max + 1 else min
      invariant missing == Gaps(orders, min, i - 1)
      decreases max - i
    {
      if !(i in orders) {
        missing := missing + [i];
      }
      i := i + 1;
    }
  }

  /** A number is reported iff it lies between `lo` and `hi` and no book
      carries it; the report is strictly ascending. */
  lemma {:induction false} GapsCorrect(orders: seq<int>, lo: int, hi: int)
    ensures forall x :: x in Gaps(orders, lo, hi) <==> lo <= x <= hi && x !in orders
    ensures forall i, j :: 0 <= i < j < |Gaps(orders, lo, hi)| ==> Gaps(orders, lo, hi)[i] < Gaps(orders, lo, hi)[j]
    decreases hi - lo
  {
    if hi >= lo {
      GapsCorrect(orders, lo, hi - 1);
      var prev := Gaps(orders, lo, hi - 1);
      var g := Gaps(orders, lo, hi);
      forall i, j | 0 <= i < j < |g| ensures g[i] < g[j] {
        if j >= |prev| {
          assert g[i] == prev[i] && prev[i] in prev;
        }
      }
    }
  }

  /** Orders that cover every number from their minimum to their maximum,
      repeats allowed, leave no gap. */
  lemma ConsecutiveHasNoGaps(orders: seq<int>)
    requires orders != []
    requires forall x :: Min(orders) <= x <= Max(orders) ==> x in orders
    ensures Gaps(orders, Min(orders), Max(orders)) == []
  {
    GapsCorrect(orders, Min(orders), Max(orders));
    if Gaps(orders, Min(orders), Max(orders)) != [] {
      assert Gaps(orders, Min(orders), Max(orders))[0] in Gaps(orders, Min(orders), Max(orders));
    }
  }

  /** The numbers one file reports: none for an unreadable file, a file
      without `books`, or one whose books carry no order. */
  function FileGaps(c: GapFile): seq<int> {
    if c.Unreadable? || c.books.None? then []
    else
      var orders := Orders(c.books.value);
      if orders == [] then [] else Gaps(orders, Min(orders), Max(orders))
  }

  /** The sum of `count` over `files`. */
  function SumOver(files: seq<string>, count: string -> nat): nat {
    if files == [] then 0 else SumOver(files[..|files| - 1], count) + count(files[|files| - 1])
  }

  /** The sum is positive iff some file counts something. */
  lemma {:induction false} SumOverPositive(files: seq<string>, count: string -> nat)
    ensures SumOver(files, count) > 0 <==> exists i :: 0 <= i < |files| && count(files[i]) > 0
  {
    if files != [] {
      var n := |files| - 1;
      var init := files[..n];
      SumOverPositive(init, count);
      if SumOver(init, count) > 0 {
        var i :| 0 <= i < |init| && count(init[i]) > 0;
        assert files[i] == init[i];
      }
      if exists i :: 0 <= i < |files| && count(files[i]) > 0 {
        var i :| 0 <= i < |files| && count(files[i]) > 0;
        if i < n {
          assert files[i] == init[i];
        }
      }
    }
  }

  /** How many numbers the file `f` reports. */
  function GapCount(read: string -> GapFile): string -> nat {
    (f: string) => |FileGaps(read(f))|
  }

  /** `totalGaps` once every file is checked. */
  function TotalGaps(files: seq<string>, read: string -> GapFile): nat {
    SumOver(files, GapCount(read))
  }

  /** One turn of the `files.forEach`: the number of missing orders. */
  method CheckFile(content: GapFile) returns (gaps: nat)
    ensures gaps == |FileGaps(content)|
  {
    if content.Unreadable? || content.books.None? {
      return 0;
    }
    var orders := SortBy(Defined(content.books.value), ByValue());
    if |orders| == 0 {
      return 0;
    }
    var missing := FindMissing(orders, Min(orders), Max(orders));
    gaps := |missing|;
  }

  /** `checkMissingNumbers`: the exit code, 1 for a missing directory or
      when some number is missing, 0 otherwise. */
  method CheckMissingNumbers(dir: Option<seq<string>>, read: string -> GapFile) returns (exitCode: int)
    ensures dir.None? ==> exitCode == 1
    ensures dir.Some? ==> exitCode == (if TotalGaps(ValidateIds.CheckedFiles(dir.value), read) > 0 then 1 else 0)
  {
    if dir.None? {
      return 1;
    }
    var files := ValidateIds.CheckedFiles(dir.value);
    var totalGaps := 0;
    var i := 0;
    while i < |files|
      invariant 0 <= i <= |files|
      invariant totalGaps == SumOver(files[..i], GapCount(read))
    {
      assert files[..i + 1][..i] == files[..i];
      var gaps := CheckFile(read(files[i]));
      totalGaps := totalGaps + gaps;
      i := i + 1;
    }
    assert files[..i] == files;
    exitCode := if totalGaps > 0 then 1 else 0;
  }

  /** The total is positive iff some checked file reports a missing
      number. */
  lemma TotalGapsPositive(files: seq<string>, read: string -> GapFile)
    ensures TotalGaps(files, read) > 0 <==> exists i :: 0 <= i < |files| && FileGaps(read(files[i])) != []
  {
    SumOverPositive(files, GapCount(read));
  }

  /** Files that cannot be read add nothing to the total. */
  lemma UnreadableFilesAddNothing(files: seq<string>, read: string -> GapFile)
    requires forall i :: 0 <= i < |files| ==> read(files[i]).Unreadable?
    ensures TotalGaps(files, read) == 0
  {
    TotalGapsPositive(files, read);
  }
}
