/**
 `collectAnalyticsRollupBatches` (src/routes/analytics.ts): batches of a year's rows
 are collected by keyset until a short one comes, and a cursor that does not move is
 an error. The table stamps rows in microseconds; a cursor keeps whole milliseconds.
 */
module AnalyticsRollup {
  import opened Common
  import opened Keyset

  const ANALYTICS_ROLLUP_BATCH_SIZE: nat := 500

  datatype RollupCursor = RollupCursor(createdAt: int, id: string)

  /** `new Date(last.createdAt)` and the id. */
  function CursorOf(key: RollupCursor): RollupCursor {
    RollupCursor(MillisecondOf(key.createdAt), key.id)
  }

  predicate WholeMillisecond(key: RollupCursor) {
    MillisecondOf(key.createdAt) == key.createdAt
  }

  /** A collector between two queries, or how it ended. */
  datatype Collector<+V> =
    | Collecting(results: seq<Row<RollupCursor, V>>, cursor: Option<RollupCursor>)
    | Collected(rows: seq<Row<RollupCursor, V>>)
    | CursorDidNotAdvance

  /** The cursor filter: later, or at the same time with a greater id. */
  predicate PastCursor(before: (string, string) -> bool, cursor: RollupCursor, at: RollupCursor) {
    at.createdAt > cursor.createdAt || (at.createdAt == cursor.createdAt && before(cursor.id, at.id))
  }

  function Order(before: (string, string) -> bool): (RollupCursor, RollupCursor) -> bool {
    (a: RollupCursor, b: RollupCursor) => PastCursor(before, a, b)
  }

  lemma OrderIsTotal(before: (string, string) -> bool)
    requires TotalOrder(before)
    ensures TotalOrder(Order(before))
  {
    var lt := Order(before);
    forall a, b
      ensures lt(a, b) || a == b || lt(b, a)
    {
      assert PastCursor(before, a, b) || a == b || PastCursor(before, b, a);
    }
    forall a, b, c | lt(a, b) && lt(b, c)
      ensures lt(a, c)
    {
      assert PastCursor(before, a, b) && PastCursor(before, b, c);
    }
    forall a
      ensures !lt(a, a)
    {
      assert !PastCursor(before, a, a);
    }
  }

  /** The table at each query; rows are only inserted, and at most `bound` in all. */
  ghost predicate Growing<V>(before: (string, string) -> bool, world: nat -> seq<Row<RollupCursor, V>>, bound: nat) {
    && TotalOrder(before)
    && (forall k :: Ascending(Order(before), world(k)) && |world(k)| <= bound)
    && (forall j, k | j <= k :: GrowsTo(world(j), world(k)))
  }

  ghost predicate WholeMilliseconds<V>(world: nat -> seq<Row<RollupCursor, V>>) {
    forall k, r | r in world(k) :: WholeMillisecond(r.key)
  }

  function FetchPage<V>(before: (string, string) -> bool, t: seq<Row<RollupCursor, V>>, keep: Row<RollupCursor, V> -> bool,
                        cursor: Option<RollupCursor>): seq<Row<RollupCursor, V>> {
    Take(Where(t, Wanted(Order(before), keep, cursor)), ANALYTICS_ROLLUP_BATCH_SIZE)
  }

  lemma CursorAdvances<V(!new)>(before: (string, string) -> bool, t: seq<Row<RollupCursor, V>>, keep: Row<RollupCursor, V> -> bool,
                                cursor: Option<RollupCursor>)
    requires TotalOrder(before) && Ascending(Order(before), t)
    ensures var page := FetchPage(before, t, keep, cursor); page != [] ==> cursor != LastKey(page)
  {
    var page := FetchPage(before, t, keep, cursor);
    PageIsWanted(Order(before), keep, t, cursor, page);
    if page != [] {
      assert page[|page| - 1] in page;
    }
  }

  /**
   Why the timestamps must be whole milliseconds: the query after a page selects the
   last row of that page again exactly when that row is stamped between two.
   */
  lemma LastRowRepeatsIffInexact<V(!new)>(before: (string, string) -> bool, t: seq<Row<RollupCursor, V>>,
                                          keep: Row<RollupCursor, V> -> bool, last: Row<RollupCursor, V>)
    requires TotalOrder(before) && last in t && keep(last)
    ensures last in Where(t, Wanted(Order(before), keep, Some(CursorOf(last.key)))) <==> !WholeMillisecond(last.key)
  {
    WhereSelects(Order(before), t, Wanted(Order(before), keep, Some(CursorOf(last.key))));
  }

  /** What one turn of the loop keeps, and how far it gets. */
  lemma Round<V(!new)>(before: (string, string) -> bool, world: nat -> seq<Row<RollupCursor, V>>, keep: Row<RollupCursor, V> -> bool,
                       bound: nat, k: nat, c: Client<RollupCursor, V>, page: seq<Row<RollupCursor, V>>, finished: bool)
    requires Growing(before, world, bound) && WholeMilliseconds(world) && !c.finished
    requires Faithful(Order(before), keep, world(0), world(k), c)
    requires page == FetchPage(before, world(k), keep, c.cursor)
    requires finished <==> |page| < ANALYTICS_ROLLUP_BATCH_SIZE
    ensures Faithful(Order(before), keep, world(0), world(k), Turn(c, page, finished))
    ensures Faithful(Order(before), keep, world(0), world(k + 1), Turn(c, page, finished))
    ensures page != [] ==> c.cursor != LastKey(page) == Some(CursorOf(page[|page| - 1].key))
    ensures |c.got + page| <= bound
  {
    hide TotalOrder, Ascending, GrowsTo, Faithful, Where;
    OrderIsTotal(before);
    PageKeepsFaithful(Order(before), keep, world(0), world(k), c, page, finished);
    GrowthKeepsFaithful(Order(before), keep, world(0), world(k), world(k + 1), Turn(c, page, finished));
    FaithfulFits(Order(before), keep, world(0), world(k), Turn(c, page, finished));
    CursorAdvances(before, world(k), keep, c.cursor);
    PageIsWanted(Order(before), keep, world(k), c.cursor, page);
    assert page != [] ==> page[|page| - 1] in page;
  }

  /** What the rows of a finished collector are. */
  ghost predicate Complete<V(!new)>(before: (string, string) -> bool, keep: Row<RollupCursor, V> -> bool,
                                    first: seq<Row<RollupCursor, V>>, t: seq<Row<RollupCursor, V>>, rows: seq<Row<RollupCursor, V>>) {
    && Ascending(Order(before), rows)
    && (forall row | row in first && keep(row) :: row in rows)
    && (forall row | row in rows :: keep(row) && row in t)
    && (t == first ==> rows == Where(first, keep))
  }

  lemma FinishedIsComplete<V(!new)>(before: (string, string) -> bool, keep: Row<RollupCursor, V> -> bool,
                                    first: seq<Row<RollupCursor, V>>, t: seq<Row<RollupCursor, V>>, c: Client<RollupCursor, V>)
    requires TotalOrder(before) && Ascending(Order(before), t)
    requires Faithful(Order(before), keep, first, t, c) && c.finished
    ensures Complete(before, keep, first, t, c.got)
  {
    OrderIsTotal(before);
    if t == first {
      FinishedHasAll(Order(before), keep, t, c);
    }
  }

  // ---------------------------------------------------------------------------
  // The collector
  // ---------------------------------------------------------------------------

  /** What one query makes of a collector that is still collecting. */
  function Absorb<V>(results: seq<Row<RollupCursor, V>>, cursor: Option<RollupCursor>, page: seq<Row<RollupCursor, V>>): Collector<V> {
    if |page| < ANALYTICS_ROLLUP_BATCH_SIZE then Collected(results + page)
    else
      var next := Some(CursorOf(page[|page| - 1].key));
      if cursor == next then CursorDidNotAdvance else Collecting(results + page, next)
  }

  /** The collector after `n` queries, or as it ended before. */
  function Collect<V>(before: (string, string) -> bool, world: nat -> seq<Row<RollupCursor, V>>,
                      keep: Row<RollupCursor, V> -> bool, n: nat): Collector<V>
  {
    if n == 0 then Collecting([], None) else
      match Collect(before, world, keep, n - 1)
      case Collecting(results, cursor) => Absorb(results, cursor, FetchPage(before, world(n - 1), keep, cursor))
      case ended => ended
  }

  lemma CollectStarts<V(!new)>(before: (string, string) -> bool, world: nat -> seq<Row<RollupCursor, V>>,
                               keep: Row<RollupCursor, V> -> bool)
    ensures Collect(before, world, keep, 0) == Collecting([], None)
  {
  }

  lemma CollectOneMore<V(!new)>(before: (string, string) -> bool, world: nat -> seq<Row<RollupCursor, V>>,
                                keep: Row<RollupCursor, V> -> bool, k: nat)
    requires Collect(before, world, keep, k).Collecting?
    ensures var c := Collect(before, world, keep, k);
            Collect(before, world, keep, k + 1) == Absorb(c.results, c.cursor, FetchPage(before, world(k), keep, c.cursor))
  {
  }

  /** The loop, watched for its first `n` queries. */
  method CollectRollupBatches<V(!new)>(before: (string, string) -> bool, world: nat -> seq<Row<RollupCursor, V>>,
                                       keep: Row<RollupCursor, V> -> bool, n: nat)
    returns (r: Collector<V>)
    ensures r == Collect(before, world, keep, n)
  {
    hide Collect, FetchPage;
    var results: seq<Row<RollupCursor, V>>, cursor := [], None;
    CollectStarts(before, world, keep);
    for k := 0 to n
      invariant Collect(before, world, keep, k) == Collecting(results, cursor)
    {
      var page := FetchPage(before, world(k), keep, cursor);
      CollectOneMore(before, world, keep, k);
      if page == [] {
        assert results + page == results;
        EndedStays(before, world, keep, k + 1, n);
        return Collected(results);
      }
      results := results + page;
      if |page| < ANALYTICS_ROLLUP_BATCH_SIZE {
        EndedStays(before, world, keep, k + 1, n);
        return Collected(results);
      }
      var nextCursor := Some(CursorOf(page[|page| - 1].key));
      if cursor.Some? && cursor == nextCursor {
        EndedStays(before, world, keep, k + 1, n);
        return CursorDidNotAdvance;
      }
      cursor := nextCursor;
    }
    r := Collecting(results, cursor);
  }

  lemma {:induction false} EndedStays<V(!new)>(before: (string, string) -> bool, world: nat -> seq<Row<RollupCursor, V>>,
                                               keep: Row<RollupCursor, V> -> bool, m: nat, n: nat)
    requires m <= n && !Collect(before, world, keep, m).Collecting?
    ensures Collect(before, world, keep, n) == Collect(before, world, keep, m)
  {
    if m < n {
      EndedStays(before, world, keep, m, n - 1);
    }
  }

  /** Where a collector over whole milliseconds stands. */
  ghost predicate OnCourse<V(!new)>(before: (string, string) -> bool, world: nat -> seq<Row<RollupCursor, V>>,
                                    keep: Row<RollupCursor, V> -> bool, bound: nat, n: nat, c: Collector<V>) {
    match c
    case Collecting(results, cursor) =>
      && Faithful(Order(before), keep, world(0), world(n), Client(results, cursor, false))
      && |results| == n * ANALYTICS_ROLLUP_BATCH_SIZE <= bound
    case Collected(rows) => exists k: nat | k < n :: Complete(before, keep, world(0), world(k), rows)
    case CursorDidNotAdvance => false
  }

  lemma QueryStaysOnCourse<V(!new)>(before: (string, string) -> bool, world: nat -> seq<Row<RollupCursor, V>>,
                                    keep: Row<RollupCursor, V> -> bool, bound: nat, n: nat,
                                    results: seq<Row<RollupCursor, V>>, cursor: Option<RollupCursor>)
    requires Growing(before, world, bound) && WholeMilliseconds(world)
    requires OnCourse(before, world, keep, bound, n, Collecting(results, cursor))
    ensures OnCourse(before, world, keep, bound, n + 1, Absorb(results, cursor, FetchPage(before, world(n), keep, cursor)))
  {
    var page := FetchPage(before, world(n), keep, cursor);
    var c, finished := Client(results, cursor, false), |page| < ANALYTICS_ROLLUP_BATCH_SIZE;
    Round(before, world, keep, bound, n, c, page, finished);
    if finished {
      FinishedIsComplete(before, keep, world(0), world(n), Turn(c, page, finished));
    }
  }

  /**
   Over rows stamped at whole milliseconds the collector never reports a stalled
   cursor, ends once it has asked often enough, and then repeats no row, holds every
   matching row of the first table and, if nothing was inserted, just those.
   */
  lemma {:induction false} CollectorIsExact<V(!new)>(before: (string, string) -> bool, world: nat -> seq<Row<RollupCursor, V>>,
                                                     keep: Row<RollupCursor, V> -> bool, bound: nat, n: nat)
    requires Growing(before, world, bound) && WholeMilliseconds(world)
    ensures OnCourse(before, world, keep, bound, n, Collect(before, world, keep, n))
    ensures bound < n * ANALYTICS_ROLLUP_BATCH_SIZE ==> Collect(before, world, keep, n).Collected?
  {
    if n == 0 {
      CollectStarts(before, world, keep);
    } else {
      CollectorIsExact(before, world, keep, bound, n - 1);
      var c := Collect(before, world, keep, n - 1);
      if c.Collecting? {
        CollectOneMore(before, world, keep, n - 1);
        hide Collect, FetchPage, Growing, WholeMilliseconds, Faithful;
        QueryStaysOnCourse(before, world, keep, bound, n - 1, c.results, c.cursor);
      } else {
        EndedStays(before, world, keep, n - 1, n);
      }
    }
  }

  // ---------------------------------------------------------------------------
  // Rows stamped between two milliseconds
  // ---------------------------------------------------------------------------

  /** Whatever comes after a row comes after the cursor made of it. */
  lemma CursorIsNoLater(before: (string, string) -> bool, key: RollupCursor, later: RollupCursor)
    requires PastCursor(before, key, later)
    ensures PastCursor(before, CursorOf(key), later)
  {
  }

  /** Every matching row of `first` is collected or still to come. */
  ghost predicate NothingLost<V(!new)>(before: (string, string) -> bool, keep: Row<RollupCursor, V> -> bool,
                                       first: seq<Row<RollupCursor, V>>, t: seq<Row<RollupCursor, V>>, c: Collector<V>) {
    match c
    case Collecting(results, cursor) =>
      && Unread(Order(before), keep, first, Client(results, cursor, false))
      && forall row | row in results :: keep(row) && row in t
    case Collected(rows) =>
      && (forall row | row in first && keep(row) :: row in rows)
      && forall row | row in rows :: keep(row) && row in t
    case CursorDidNotAdvance => true
  }

  lemma QueryLosesNothing<V(!new)>(before: (string, string) -> bool, keep: Row<RollupCursor, V> -> bool,
                                   first: seq<Row<RollupCursor, V>>, t: seq<Row<RollupCursor, V>>,
                                   results: seq<Row<RollupCursor, V>>, cursor: Option<RollupCursor>)
    requires TotalOrder(before) && Ascending(Order(before), t) && GrowsTo(first, t)
    requires NothingLost(before, keep, first, t, Collecting(results, cursor))
    ensures NothingLost(before, keep, first, t, Absorb(results, cursor, FetchPage(before, t, keep, cursor)))
  {
    var page, lt := FetchPage(before, t, keep, cursor), Order(before);
    var c, finished := Client(results, cursor, false), |page| < ANALYTICS_ROLLUP_BATCH_SIZE;
    PageIsWanted(lt, keep, t, cursor, page);
    PageKeepsUnread(lt, keep, first, t, c, page, finished);
    if !finished {
      var last := page[|page| - 1].key;
      forall r | r in first && keep(r) && r !in results + page
        ensures Beyond(lt, Some(CursorOf(last)), r.key)
      {
        CursorIsNoLater(before, last, r.key);
      }
    }
  }

  lemma MoreTablesLoseNothing<V(!new)>(before: (string, string) -> bool, keep: Row<RollupCursor, V> -> bool,
                                       first: seq<Row<RollupCursor, V>>, t: seq<Row<RollupCursor, V>>,
                                       u: seq<Row<RollupCursor, V>>, c: Collector<V>)
    requires NothingLost(before, keep, first, t, c) && GrowsTo(t, u)
    ensures NothingLost(before, keep, first, u, c)
  {
  }

  /** However the rows are stamped, the collector loses none: a cursor is never later than its row. */
  lemma {:induction false} CollectorLosesNothing<V(!new)>(before: (string, string) -> bool, world: nat -> seq<Row<RollupCursor, V>>,
                                                          keep: Row<RollupCursor, V> -> bool, bound: nat, n: nat)
    requires Growing(before, world, bound)
    ensures NothingLost(before, keep, world(0), world(n), Collect(before, world, keep, n))
  {
    if n == 0 {
      CollectStarts(before, world, keep);
    } else {
      CollectorLosesNothing(before, world, keep, bound, n - 1);
      var c := Collect(before, world, keep, n - 1);
      if c.Collecting? {
        CollectOneMore(before, world, keep, n - 1);
        QueryLosesNothing(before, keep, world(0), world(n - 1), c.results, c.cursor);
      } else {
        EndedStays(before, world, keep, n - 1, n);
      }
      hide Collect, NothingLost;
      MoreTablesLoseNothing(before, keep, world(0), world(n - 1), world(n), Collect(before, world, keep, n));
    }
  }

  /** The rows at which a still table is cut into full pages are stamped at whole milliseconds, up to page `j`. */
  ghost predicate ExactBoundaries<V>(all: seq<Row<RollupCursor, V>>, j: nat) {
    forall i: nat | 0 < i <= j && i * ANALYTICS_ROLLUP_BATCH_SIZE <= |all| ::
      WholeMillisecond(all[i * ANALYTICS_ROLLUP_BATCH_SIZE - 1].key)
  }

  lemma RestHas<V(!new)>(before: (string, string) -> bool, t: seq<Row<RollupCursor, V>>, keep: Row<RollupCursor, V> -> bool, i: nat,
                         r: Row<RollupCursor, V>)
    requires TotalOrder(Order(before)) && Ascending(Order(before), Where(t, keep)) && i <= |Where(t, keep)|
    ensures var all := Where(t, keep);
            r in all[i..] <==> r in all && Beyond(Order(before), LastKey(all[..i]), r.key)
  {
    hide Where;
    var lt, all := Order(before), Where(t, keep);
    if r in all {
      var j :| 0 <= j < |all| && all[j] == r;
      if j >= i {
        assert all[i..][j - i] == r;
      } else {
        assert j < i - 1 ==> lt(all[j].key, all[i - 1].key);
      }
    }
  }

  lemma RestIsWanted<V(!new)>(before: (string, string) -> bool, t: seq<Row<RollupCursor, V>>, keep: Row<RollupCursor, V> -> bool, i: nat)
    requires TotalOrder(before) && Ascending(Order(before), t) && i <= |Where(t, keep)|
    ensures var all := Where(t, keep); Where(t, Wanted(Order(before), keep, LastKey(all[..i]))) == all[i..]
  {
    hide Where, Ascending, TotalOrder;
    var lt, all := Order(before), Where(t, keep);
    var wanted := Wanted(lt, keep, LastKey(all[..i]));
    OrderIsTotal(before);
    WhereSelects(lt, t, keep);
    WhereSelects(lt, t, wanted);
    forall r
      ensures r in all[i..] <==> r in Where(t, wanted)
    {
      RestHas(before, t, keep, i, r);
    }
    SuffixAscends(lt, all, i);
    SameRowsSameTable(lt, Where(t, wanted), all[i..]);
  }

  /** The state of the collector of a still table after `j` full pages with exact boundaries. */
  function AfterPages<V>(all: seq<Row<RollupCursor, V>>, j: nat): Collector<V>
    requires j * ANALYTICS_ROLLUP_BATCH_SIZE <= |all|
  {
    var read := all[..j * ANALYTICS_ROLLUP_BATCH_SIZE];
    Collecting(read, LastKey(read))
  }

  ghost predicate Still<V(!new)>(world: nat -> seq<Row<RollupCursor, V>>, t: seq<Row<RollupCursor, V>>) {
    forall k :: world(k) == t
  }

  lemma NextPage<V(!new)>(before: (string, string) -> bool, t: seq<Row<RollupCursor, V>>, keep: Row<RollupCursor, V> -> bool, i: nat)
    requires TotalOrder(before) && Ascending(Order(before), t) && i <= |Where(t, keep)|
    ensures var all := Where(t, keep);
            FetchPage(before, t, keep, LastKey(all[..i])) == all[i..Min(i + ANALYTICS_ROLLUP_BATCH_SIZE, |all|)]
  {
    RestIsWanted(before, t, keep, i);
  }

  lemma OnePageMore<V(!new)>(before: (string, string) -> bool, t: seq<Row<RollupCursor, V>>, keep: Row<RollupCursor, V> -> bool, j: nat)
    requires TotalOrder(before) && Ascending(Order(before), t) && 0 < j
    requires var all := Where(t, keep); j * ANALYTICS_ROLLUP_BATCH_SIZE <= |all| && ExactBoundaries(all, j)
    ensures var c := AfterPages(Where(t, keep), j - 1);
            Absorb(c.results, c.cursor, FetchPage(before, t, keep, c.cursor)) == AfterPages(Where(t, keep), j)
  {
    hide Where, FetchPage, TotalOrder, Ascending;
    OrderIsTotal(before);
    WhereSelects(Order(before), t, keep);
    NextPage(before, t, keep, (j - 1) * ANALYTICS_ROLLUP_BATCH_SIZE);
    FullPageMoves(before, Where(t, keep), j);
  }

  lemma {:induction false} ExactPages<V(!new)>(before: (string, string) -> bool, world: nat -> seq<Row<RollupCursor, V>>,
                                               t: seq<Row<RollupCursor, V>>, keep: Row<RollupCursor, V> -> bool, j: nat)
    requires TotalOrder(before) && Ascending(Order(before), t) && Still(world, t)
    requires var all := Where(t, keep); j * ANALYTICS_ROLLUP_BATCH_SIZE <= |all| && ExactBoundaries(all, j)
    ensures Collect(before, world, keep, j) == AfterPages(Where(t, keep), j)
  {
    if j == 0 {
      assert Where(t, keep)[..0] == [];
    } else {
      ExactPages(before, world, t, keep, j - 1);
      CollectOneMore(before, world, keep, j - 1);
      hide Collect, Where, TotalOrder, Ascending, AfterPages;
      OnePageMore(before, t, keep, j);
    }
  }

  lemma FullPageMoves<V(!new)>(before: (string, string) -> bool, all: seq<Row<RollupCursor, V>>, j: nat)
    requires 0 < j && j * ANALYTICS_ROLLUP_BATCH_SIZE <= |all|
    requires TotalOrder(Order(before)) && Ascending(Order(before), all)
    requires WholeMillisecond(all[j * ANALYTICS_ROLLUP_BATCH_SIZE - 1].key)
    ensures var c, i := AfterPages(all, j - 1), (j - 1) * ANALYTICS_ROLLUP_BATCH_SIZE;
            Absorb(c.results, c.cursor, all[i..i + ANALYTICS_ROLLUP_BATCH_SIZE]) == AfterPages(all, j)
  {
    var size := ANALYTICS_ROLLUP_BATCH_SIZE;
    var i := (j - 1) * size;
    assert i + size == j * size;
    var page := all[i..i + size];
    assert all[..i] + page == all[..i + size];
    assert page[size - 1] == all[i + size - 1];
    if i > 0 {
      assert Order(before)(all[i - 1].key, all[i + size - 1].key);
    }
  }

  /** Behind exact boundaries the short page, or none at all, ends the collector with all rows. */
  lemma LastPageEnds<V(!new)>(before: (string, string) -> bool, world: nat -> seq<Row<RollupCursor, V>>,
                              t: seq<Row<RollupCursor, V>>, keep: Row<RollupCursor, V> -> bool)
    requires TotalOrder(before) && Ascending(Order(before), t) && Still(world, t)
    requires ExactBoundaries(Where(t, keep), |Where(t, keep)|)
    ensures Collect(before, world, keep, |Where(t, keep)| / ANALYTICS_ROLLUP_BATCH_SIZE + 1) == Collected(Where(t, keep))
  {
    hide Collect, Where, FetchPage, TotalOrder, Ascending, ExactBoundaries, Absorb;
    var all := Where(t, keep);
    var j := |all| / ANALYTICS_ROLLUP_BATCH_SIZE;
    var i := j * ANALYTICS_ROLLUP_BATCH_SIZE;
    FewerBoundaries(all, j);
    ExactPages(before, world, t, keep, j);
    CollectOneMore(before, world, keep, j);
    NextPage(before, t, keep, i);
    ShortPageEnds(all, i, LastKey(all[..i]));
  }

  lemma FewerBoundaries<V(!new)>(all: seq<Row<RollupCursor, V>>, j: nat)
    requires ExactBoundaries(all, |all|) && j <= |all|
    ensures ExactBoundaries(all, j)
  {
  }

  lemma ShortPageEnds<V(!new)>(all: seq<Row<RollupCursor, V>>, i: nat, cursor: Option<RollupCursor>)
    requires i <= |all| < i + ANALYTICS_ROLLUP_BATCH_SIZE
    ensures Absorb(all[..i], cursor, all[i..|all|]) == Collected(all)
  {
    assert all[..i] + all[i..|all|] == all;
  }

  /** The collector has gone wrong at row `i`: past it, without `all` as its outcome any more. */
  ghost predicate Astray<V(!new)>(all: seq<Row<RollupCursor, V>>, i: nat, c: Collector<V>) {
    match c
    case Collecting(results, _) => i < |results| && (i < |all| ==> results[i] != all[i])
    case Collected(rows) => i < |rows| && (i < |all| ==> rows[i] != all[i])
    case CursorDidNotAdvance => true
  }

  lemma {:induction false} AstrayStays<V(!new)>(before: (string, string) -> bool, world: nat -> seq<Row<RollupCursor, V>>,
                                                keep: Row<RollupCursor, V> -> bool, all: seq<Row<RollupCursor, V>>, i: nat,
                                                m: nat, n: nat)
    requires m <= n && Astray(all, i, Collect(before, world, keep, m))
    ensures Astray(all, i, Collect(before, world, keep, n))
  {
    if m < n {
      AstrayStays(before, world, keep, all, i, m, n - 1);
      if Collect(before, world, keep, n - 1).Collecting? {
        CollectOneMore(before, world, keep, n - 1);
      } else {
        EndedStays(before, world, keep, n - 1, n);
      }
    }
  }

  /** The page after an inexact boundary starts with a row that was collected before. */
  lemma InexactPageRepeats<V(!new)>(before: (string, string) -> bool, t: seq<Row<RollupCursor, V>>,
                                    keep: Row<RollupCursor, V> -> bool, i: nat)
    requires TotalOrder(before) && Ascending(Order(before), t) && 0 < i <= |Where(t, keep)|
    requires !WholeMillisecond(Where(t, keep)[i - 1].key)
    ensures var all := Where(t, keep);
            var page := FetchPage(before, t, keep, Some(CursorOf(all[i - 1].key)));
            page != [] && (i < |all| ==> page[0] != all[i])
  {
    var lt, all := Order(before), Where(t, keep);
    var last, cursor := all[i - 1], Some(CursorOf(all[i - 1].key));
    var wanted := Where(t, Wanted(lt, keep, cursor));
    OrderIsTotal(before);
    WhereSelects(lt, t, keep);
    WhereSelects(lt, t, Wanted(lt, keep, cursor));
    LastRowRepeatsIffInexact(before, t, keep, last);
    var j :| 0 <= j < |wanted| && wanted[j] == last;
    assert j > 0 ==> lt(wanted[0].key, wanted[j].key);
    assert i < |all| ==> lt(last.key, all[i].key);
  }

  /** The first boundary that is not exact, if there is one. */
  lemma FirstInexact<V(!new)>(all: seq<Row<RollupCursor, V>>) returns (j: nat)
    requires !ExactBoundaries(all, |all|)
    ensures 0 < j && j * ANALYTICS_ROLLUP_BATCH_SIZE <= |all| && ExactBoundaries(all, j - 1)
    ensures !WholeMillisecond(all[j * ANALYTICS_ROLLUP_BATCH_SIZE - 1].key)
  {
    j := 1;
    while ExactBoundaries(all, j)
      invariant 0 < j <= |all| + 1 && ExactBoundaries(all, j - 1)
      decreases |all| + 1 - j
    {
      assert j == |all| ==> false;
      j := j + 1;
    }
  }

  lemma InexactPage<V(!new)>(all: seq<Row<RollupCursor, V>>, i: nat, cursor: Option<RollupCursor>)
    requires i + ANALYTICS_ROLLUP_BATCH_SIZE <= |all|
    ensures var next := i + ANALYTICS_ROLLUP_BATCH_SIZE;
            var c := Absorb(all[..i], cursor, all[i..next]);
            c == CursorDidNotAdvance || c == Collecting(all[..next], Some(CursorOf(all[next - 1].key)))
  {
    var next := i + ANALYTICS_ROLLUP_BATCH_SIZE;
    assert all[..i] + all[i..next] == all[..next] && all[i..next][next - i - 1] == all[next - 1];
  }

  lemma RepeatGoesAstray<V(!new)>(all: seq<Row<RollupCursor, V>>, i: nat, cursor: Option<RollupCursor>,
                                  page: seq<Row<RollupCursor, V>>)
    requires i <= |all| && page != [] && (i < |all| ==> page[0] != all[i])
    ensures Astray(all, i, Absorb(all[..i], cursor, page))
  {
  }

  lemma InexactGoesAstray<V(!new)>(before: (string, string) -> bool, world: nat -> seq<Row<RollupCursor, V>>,
                                   t: seq<Row<RollupCursor, V>>, keep: Row<RollupCursor, V> -> bool, j: nat)
    requires TotalOrder(before) && Ascending(Order(before), t) && Still(world, t)
    requires var all, i := Where(t, keep), j * ANALYTICS_ROLLUP_BATCH_SIZE;
             0 < j && i <= |all| && ExactBoundaries(all, j - 1) && !WholeMillisecond(all[i - 1].key)
    ensures Astray(Where(t, keep), j * ANALYTICS_ROLLUP_BATCH_SIZE, Collect(before, world, keep, j + 1))
  {
    hide Collect, Where, FetchPage, TotalOrder, Ascending, ExactBoundaries, Absorb, Astray, CursorOf;
    var all, i, next := Where(t, keep), (j - 1) * ANALYTICS_ROLLUP_BATCH_SIZE, j * ANALYTICS_ROLLUP_BATCH_SIZE;
    ExactPages(before, world, t, keep, j - 1);
    CollectOneMore(before, world, keep, j - 1);
    NextPage(before, t, keep, i);
    InexactPage(all, i, LastKey(all[..i]));
    InexactPageRepeats(before, t, keep, next);
    var cursor := Some(CursorOf(all[next - 1].key));
    if Collect(before, world, keep, j) == Collecting(all[..next], cursor) {
      CollectOneMore(before, world, keep, j);
      RepeatGoesAstray(all, next, cursor, FetchPage(before, t, keep, cursor));
    } else {
      StallIsAstray(all, next);
      EndedStays(before, world, keep, j, j + 1);
    }
  }

  lemma StallIsAstray<V(!new)>(all: seq<Row<RollupCursor, V>>, i: nat)
    ensures Astray(all, i, CursorDidNotAdvance)
  {
  }

  /** A table that stands still is collected exactly when each of its page boundaries is at a whole millisecond. */
  lemma StillTableCollectedIff<V(!new)>(before: (string, string) -> bool, world: nat -> seq<Row<RollupCursor, V>>,
                                        t: seq<Row<RollupCursor, V>>, keep: Row<RollupCursor, V> -> bool)
    requires TotalOrder(before) && Ascending(Order(before), t) && Still(world, t)
    ensures (exists n :: Collect(before, world, keep, n) == Collected(Where(t, keep)))
        <==> ExactBoundaries(Where(t, keep), |Where(t, keep)|)
  {
    hide Where, Ascending, TotalOrder, ExactBoundaries, Collect, Still, Astray;
    var all := Where(t, keep);
    if ExactBoundaries(all, |all|) {
      LastPageEnds(before, world, t, keep);
    } else {
      var j := FirstInexact(all);
      var i := j * ANALYTICS_ROLLUP_BATCH_SIZE;
      InexactGoesAstray(before, world, t, keep, j);
      forall n: nat
        ensures Collect(before, world, keep, n) != Collected(all)
      {
        AstrayIsNotAll(all, i, Collect(before, world, keep, if j < n then n else j + 1));
        if j < n {
          AstrayStays(before, world, keep, all, i, j + 1, n);
        } else if Collect(before, world, keep, n) == Collected(all) {
          EndedStays(before, world, keep, n, j + 1);
        }
      }
    }
  }

  lemma AstrayIsNotAll<V(!new)>(all: seq<Row<RollupCursor, V>>, i: nat, c: Collector<V>)
    ensures Astray(all, i, c) ==> c != Collected(all)
  {
  }
}
