/**
 The escrow balance replay (src/routes/escrow.ts): pages of indexed events are read
 by offset from a table that may grow between the reads, events already seen are
 skipped by id, and the signed sum is clamped at zero.
 */
module EscrowBalance {
  import opened Common
  import opened Keyset

  const ESCROW_BALANCE_BATCH_SIZE: nat := 100

  datatype Position = Position(blockNumber: int, id: string)
  datatype Payload = Payload(eventType: string, amount: nat)
  type Event = Row<Position, Payload>

  /** What one page query meets: the rows of the agreement in sort order, or a database error. */
  datatype Read = Rows(table: seq<Event>) | DbError

  datatype Source = Indexed | Contract
  datatype Balance = Balance(amount: int, source: Source)

  // ---------------------------------------------------------------------------
  // The table
  // ---------------------------------------------------------------------------

  /** `ORDER BY block_number, id`, for the collation `before` of the id column. */
  predicate Precedes(before: (string, string) -> bool, a: Position, b: Position) {
    a.blockNumber < b.blockNumber || (a.blockNumber == b.blockNumber && before(a.id, b.id))
  }

  function Order(before: (string, string) -> bool): (Position, Position) -> bool {
    (a: Position, b: Position) => Precedes(before, a, b)
  }

  lemma OrderIsTotal(before: (string, string) -> bool)
    requires TotalOrder(before)
    ensures TotalOrder(Order(before))
  {
    var lt := Order(before);
    forall a, b
      ensures lt(a, b) || a == b || lt(b, a)
    {
      assert Precedes(before, a, b) || a == b || Precedes(before, b, a);
    }
    forall a, b, c | lt(a, b) && lt(b, c)
      ensures lt(a, c)
    {
      assert Precedes(before, a, b) && Precedes(before, b, c);
    }
    forall a
      ensures !lt(a, a)
    {
      assert !Precedes(before, a, a);
    }
  }

  /** `id` is the primary key. */
  ghost predicate Keyed(t: seq<Event>) {
    forall i, j | 0 <= i < |t| && 0 <= j < |t| && t[i].key.id == t[j].key.id :: i == j
  }

  /** A table the indexer adds to while the pages are read; `bound` caps it. */
  ghost predicate Growing(before: (string, string) -> bool, world: nat -> Read, bound: nat) {
    && TotalOrder(before)
    && (forall k :: world(k).Rows? ==>
          Ascending(Order(before), world(k).table) && Keyed(world(k).table) && |world(k).table| <= bound)
    && (forall j, k | j <= k :: world(j).Rows? && world(k).Rows? ==> GrowsTo(world(j).table, world(k).table))
  }

  // ---------------------------------------------------------------------------
  // The replay
  // ---------------------------------------------------------------------------

  function PageAt(t: seq<Event>, offset: nat, size: nat): seq<Event> {
    if |t| <= offset then [] else t[offset..Min(offset + size, |t|)]
  }

  /** The ids remembered so far; an event with an empty id is never remembered. */
  function IdsOf(counted: seq<Event>): set<string> {
    set e | e in counted && e.key.id != "" :: e.key.id
  }

  function CountOne(counted: seq<Event>, e: Event): seq<Event> {
    if e.key.id in IdsOf(counted) then counted else counted + [e]
  }

  function CountPage(counted: seq<Event>, page: seq<Event>): seq<Event> {
    if page == [] then counted else CountOne(CountPage(counted, page[..|page| - 1]), page[|page| - 1])
  }

  /** How the paging ends: the events counted, and the query that ended it. */
  datatype Ending = Failed | Counted(events: seq<Event>, last: nat)

  ghost predicate Bounded(world: nat -> Read, bound: nat) {
    forall k :: world(k).Rows? ==> |world(k).table| <= bound
  }

  ghost function Replay(world: nat -> Read, size: nat, bound: nat, k: nat, offset: nat, counted: seq<Event>): Ending
    requires 0 < size && Bounded(world, bound)
    decreases bound - offset
  {
    match world(k)
    case DbError => Failed
    case Rows(t) =>
      var page := PageAt(t, offset, size);
      var all := CountPage(counted, page);
      if |page| < size then Counted(all, k) else Replay(world, size, bound, k + 1, offset + size, all)
  }

  function Signed(e: Event): int {
    if e.data.eventType == "Funded" then e.data.amount
    else if e.data.eventType == "Released" || e.data.eventType == "Refunded" then -(e.data.amount as int)
    else 0
  }

  function Net(events: seq<Event>): int {
    if events == [] then 0 else Net(events[..|events| - 1]) + Signed(events[|events| - 1])
  }

  /** The amounts of one kind of event. */
  ghost function Sum(events: seq<Event>, kind: string): nat {
    if events == [] then 0 else
      Sum(events[..|events| - 1], kind) + if events[|events| - 1].data.eventType == kind then events[|events| - 1].data.amount else 0
  }

  /** What went in, less what was released and refunded. */
  ghost function Held(events: seq<Event>): int {
    Sum(events, "Funded") - Sum(events, "Released") - Sum(events, "Refunded")
  }

  lemma {:induction false} NetIsHeld(events: seq<Event>)
    ensures Net(events) == Held(events)
  {
    if events == [] {
    } else {
      NetIsHeld(events[..|events| - 1]);
    }
  }

  lemma CountNext(counted: seq<Event>, page: seq<Event>, i: nat)
    requires i < |page|
    ensures CountPage(counted, page[..i + 1]) == CountOne(CountPage(counted, page[..i]), page[i])
  {
    assert page[..i + 1][..i] == page[..i];
  }

  lemma AddOne(counted: seq<Event>, e: Event)
    ensures IdsOf(CountOne(counted, e)) == IdsOf(counted) + (if e.key.id == "" then {} else {e.key.id})
    ensures Net(CountOne(counted, e)) == Net(counted) + (if e.key.id in IdsOf(counted) then 0 else Signed(e))
  {
    assert (counted + [e])[..|counted|] == counted;
    forall c | c in counted + [e]
      ensures c in counted || c == e
    {
    }
    assert e in counted + [e];
    assert forall c | c in counted :: c in counted + [e];
  }

  /** One fetched page, event by event. */
  method ReplayPage(page: seq<Event>, seen: set<string>, balance: int, ghost counted: seq<Event>)
    returns (seen': set<string>, balance': int)
    requires seen == IdsOf(counted) && balance == Net(counted)
    ensures seen' == IdsOf(CountPage(counted, page)) && balance' == Net(CountPage(counted, page))
  {
    seen', balance' := seen, balance;
    ghost var now := counted;
    for i := 0 to |page|
      invariant now == CountPage(counted, page[..i])
      invariant seen' == IdsOf(now) && balance' == Net(now)
    {
      var event := page[i];
      CountNext(counted, page, i);
      AddOne(now, event);
      now := CountOne(now, event);
      if event.key.id != "" {
        if event.key.id in seen' {
          continue;
        }
        seen' := seen' + {event.key.id};
      }
      if event.data.eventType == "Funded" {
        balance' := balance' + event.data.amount;
      } else if event.data.eventType == "Released" || event.data.eventType == "Refunded" {
        balance' := balance' - event.data.amount;
      }
    }
    assert page[..|page|] == page;
  }

  /**
   `contract` is what the contract answers, used only as the fallback.  On a table that
   stands still the balance is what its events sum up to, but never negative.
   */
  method GetAgreementBalance(world: nat -> Read, contract: int, ghost bound: nat) returns (balance: Balance)
    requires Bounded(world, bound)
    ensures
      match Replay(world, ESCROW_BALANCE_BATCH_SIZE, bound, 0, 0, [])
      case Failed => balance == Balance(contract, Contract)
      case Counted(events, _) =>
        balance == if events == [] then Balance(contract, Contract) else Balance(Max(0, Held(events)), Indexed)
    ensures forall t | Still(world, t) && Keyed(t) ::
      balance == if t == [] then Balance(contract, Contract)
                 else Balance(Max(0, Sum(t, "Funded") - Sum(t, "Released") - Sum(t, "Refunded")), Indexed)
  {
    forall t | Still(world, t) && Keyed(t)
      ensures Replay(world, ESCROW_BALANCE_BATCH_SIZE, bound, 0, 0, []).Counted?
      ensures Replay(world, ESCROW_BALANCE_BATCH_SIZE, bound, 0, 0, []).events == t
    {
      StillTableIsOnePass(world, t, ESCROW_BALANCE_BATCH_SIZE, bound);
    }
    var k: nat, offset: nat, total, seen, sum := 0, 0, 0, {}, 0;
    ghost var counted: seq<Event> := [];
    ghost var ending := Replay(world, ESCROW_BALANCE_BATCH_SIZE, bound, 0, 0, []);
    while true
      invariant ending == Replay(world, ESCROW_BALANCE_BATCH_SIZE, bound, k, offset, counted)
      invariant seen == IdsOf(counted) && sum == Net(counted)
      invariant 0 <= total && (total == 0 <==> counted == [])
      decreases bound - offset
    {
      var read := world(k);
      if read.DbError? {
        return Balance(contract, Contract);
      }
      var page := PageAt(read.table, offset, ESCROW_BALANCE_BATCH_SIZE);
      if page == [] {
        break;
      }
      total := total + |page|;
      seen, sum := ReplayPage(page, seen, sum, counted);
      CountedKeepsOld(counted, page);
      counted := CountPage(counted, page);
      if |page| < ESCROW_BALANCE_BATCH_SIZE {
        break;
      }
      k, offset := k + 1, offset + ESCROW_BALANCE_BATCH_SIZE;
    }
    NetIsHeld(counted);
    if total > 0 {
      if sum < 0 {
        sum := 0;
      }
      return Balance(sum, Indexed);
    }
    return Balance(contract, Contract);
  }

  // ---------------------------------------------------------------------------
  // What is counted
  // ---------------------------------------------------------------------------

  lemma CountOneKeeps(counted: seq<Event>, e: Event)
    ensures counted <= CountOne(counted, e) && IdsOf(counted) <= IdsOf(CountOne(counted, e))
    ensures forall x | x in CountOne(counted, e) :: x in counted || x == e
    ensures e in CountOne(counted, e) || e.key.id in IdsOf(CountOne(counted, e))
  {
    var now := CountOne(counted, e);
    assert forall c | c in counted :: c in now;
    assert e.key.id in IdsOf(counted) || now == counted + [e];
    assert e in counted + [e];
  }

  lemma {:induction false} CountedGrows(counted: seq<Event>, page: seq<Event>)
    ensures counted <= CountPage(counted, page)
    ensures counted == [] && page != [] ==> CountPage(counted, page) != []
  {
    hide CountOne, IdsOf;
    if page == [] {
    } else {
      var rest, last := page[..|page| - 1], page[|page| - 1];
      CountedGrows(counted, rest);
      CountOneKeeps(CountPage(counted, rest), last);
      CountsSomething(last);
    }
  }

  lemma {:induction false} CountedComesFrom(counted: seq<Event>, page: seq<Event>, e: Event)
    requires e in CountPage(counted, page)
    ensures e in counted || e in page
  {
    hide CountOne, IdsOf;
    if page == [] {
    } else {
      var rest, last := page[..|page| - 1], page[|page| - 1];
      CountOneKeeps(CountPage(counted, rest), last);
      if e in CountPage(counted, rest) {
        CountedComesFrom(counted, rest, e);
      }
    }
  }

  lemma {:induction false} CountedCovers(counted: seq<Event>, page: seq<Event>, e: Event)
    requires e in page
    ensures e in CountPage(counted, page) || e.key.id in IdsOf(CountPage(counted, page))
  {
    hide CountOne, IdsOf;
    var rest, last := page[..|page| - 1], page[|page| - 1];
    assert page == rest + [last];
    CountOneKeeps(CountPage(counted, rest), last);
    if e in rest {
      CountedCovers(counted, rest, e);
    }
  }

  /** Nothing is dropped again, and every event of the page is covered by its id or by itself. */
  lemma CountedKeepsOld(counted: seq<Event>, page: seq<Event>)
    ensures counted <= CountPage(counted, page)
    ensures counted == [] && page != [] ==> CountPage(counted, page) != []
    ensures forall e | e in CountPage(counted, page) :: e in counted || e in page
    ensures forall e | e in page :: e in CountPage(counted, page) || e.key.id in IdsOf(CountPage(counted, page))
  {
    hide CountPage, IdsOf;
    CountedGrows(counted, page);
    forall e | e in CountPage(counted, page)
      ensures e in counted || e in page
    {
      CountedComesFrom(counted, page, e);
    }
    forall e | e in page
      ensures e in CountPage(counted, page) || e.key.id in IdsOf(CountPage(counted, page))
    {
      CountedCovers(counted, page, e);
    }
  }

  lemma CountsSomething(e: Event)
    ensures CountOne([], e) != []
  {
  }

  /** In a keyed table an id names one event, so the page is counted in full. */
  lemma PageIsCounted(t: seq<Event>, counted: seq<Event>, page: seq<Event>)
    requires Keyed(t) && (forall e | e in counted :: e in t) && (forall e | e in page :: e in t)
    ensures forall e | e in page :: e in CountPage(counted, page)
    ensures forall e | e in CountPage(counted, page) :: e in t
  {
    CountedKeepsOld(counted, page);
    var all := CountPage(counted, page);
    forall e | e in page
      ensures e in all
    {
      if e.key.id in IdsOf(all) {
        var c :| c in all && c.key.id == e.key.id;
        assert c in t && e in t;
      }
    }
  }

  ghost predicate NoneTwice(counted: seq<Event>) {
    forall i, j | 0 <= i < |counted| && 0 <= j < |counted| && counted[i] == counted[j] :: i == j
  }

  lemma {:induction false} PageAddsNoneTwice(counted: seq<Event>, page: seq<Event>)
    requires NoneTwice(counted) && forall e | e in page :: e.key.id != ""
    ensures NoneTwice(CountPage(counted, page))
  {
    if page == [] {
    } else {
      var rest, last := page[..|page| - 1], page[|page| - 1];
      assert page == rest + [last];
      PageAddsNoneTwice(counted, rest);
    }
  }

  /** What is still to come lies at or past the offset, in this and every later table. */
  ghost predicate Pending(first: seq<Event>, t: seq<Event>, offset: nat, counted: seq<Event>) {
    forall e | e in first :: e in counted || (exists i | offset <= i < |t| :: t[i] == e)
  }

  lemma PendingAfterPage(first: seq<Event>, t: seq<Event>, offset: nat, size: nat, counted: seq<Event>)
    requires Keyed(t) && (forall e | e in counted :: e in t)
    requires Pending(first, t, offset, counted)
    ensures Pending(first, t, offset + size, CountPage(counted, PageAt(t, offset, size)))
  {
    var page := PageAt(t, offset, size);
    PageIsCounted(t, counted, page);
    CountedKeepsOld(counted, page);
    var all := CountPage(counted, page);
    forall e | e in first
      ensures e in all || exists i | offset + size <= i < |t| :: t[i] == e
    {
      if e !in counted {
        var i :| offset <= i < |t| && t[i] == e;
        if i < offset + size {
          assert page[i - offset] == e;
        }
      }
    }
  }

  lemma PendingWhenGrown(before: (string, string) -> bool, first: seq<Event>, t: seq<Event>, u: seq<Event>, offset: nat,
                         counted: seq<Event>)
    requires TotalOrder(before) && Ascending(Order(before), t) && Ascending(Order(before), u) && GrowsTo(t, u)
    requires Pending(first, t, offset, counted)
    ensures Pending(first, u, offset, counted)
  {
    forall e | e in first && e !in counted
      ensures exists i | offset <= i < |u| :: u[i] == e
    {
      var i :| offset <= i < |t| && t[i] == e;
      assert e in u;
      var j :| 0 <= j < |u| && u[j] == e;
      OrderIsTotal(before);
      RankOnlyRises(Order(before), t, u, i, j);
    }
  }

  /** The state before query `k`. */
  ghost predicate Midway(world: nat -> Read, k: nat, offset: nat, counted: seq<Event>) {
    && world(0).Rows?
    && (world(k).Rows? ==>
          && Pending(world(0).table, world(k).table, offset, counted)
          && forall e | e in counted :: e in world(k).table)
  }

  lemma MidwayStep(before: (string, string) -> bool, world: nat -> Read, size: nat, bound: nat, k: nat, offset: nat,
                   counted: seq<Event>)
    requires 0 < size && Growing(before, world, bound) && Midway(world, k, offset, counted) && world(k).Rows?
    ensures var all := CountPage(counted, PageAt(world(k).table, offset, size));
            && Pending(world(0).table, world(k).table, offset + size, all)
            && (forall e | e in all :: e in world(k).table)
            && Midway(world, k + 1, offset + size, all)
  {
    var t := world(k).table;
    var all := CountPage(counted, PageAt(t, offset, size));
    PageIsCounted(t, counted, PageAt(t, offset, size));
    PendingAfterPage(world(0).table, t, offset, size, counted);
    if world(k + 1).Rows? {
      PendingWhenGrown(before, world(0).table, t, world(k + 1).table, offset + size, all);
    }
  }

  lemma {:induction false} ReplayFrom(before: (string, string) -> bool, world: nat -> Read, size: nat, bound: nat, k: nat,
                                      offset: nat, counted: seq<Event>)
    requires 0 < size && Growing(before, world, bound) && Midway(world, k, offset, counted)
    ensures
      match Replay(world, size, bound, k, offset, counted)
      case Failed => true
      case Counted(events, last) =>
        && world(last).Rows?
        && (forall e | e in world(0).table :: e in events)
        && (forall e | e in events :: e in world(last).table)
    decreases bound - offset
  {
    if world(k).Rows? {
      MidwayStep(before, world, size, bound, k, offset, counted);
      var page := PageAt(world(k).table, offset, size);
      if size <= |page| {
        ReplayFrom(before, world, size, bound, k + 1, offset + size, CountPage(counted, page));
      }
    }
  }

  /**
   While events are inserted anywhere in the order, every event of the first table is
   counted, and nothing is counted that the last table read does not hold.
   */
  lemma EveryInitialEventCounted(before: (string, string) -> bool, world: nat -> Read, size: nat, bound: nat)
    requires 0 < size && Growing(before, world, bound)
    ensures
      match Replay(world, size, bound, 0, 0, [])
      case Failed => exists k :: world(k) == DbError
      case Counted(events, last) =>
        && world(0).Rows? && world(last).Rows?
        && (forall e | e in world(0).table :: e in events)
        && (forall e | e in events :: e in world(last).table)
  {
    if world(0).Rows? {
      ReplayFrom(before, world, size, bound, 0, 0, []);
      FailureIsADbError(world, size, bound, 0, 0, []);
    }
  }

  lemma {:induction false} FailureIsADbError(world: nat -> Read, size: nat, bound: nat, k: nat, offset: nat,
                                             counted: seq<Event>)
    requires 0 < size && Bounded(world, bound)
    ensures Replay(world, size, bound, k, offset, counted) == Failed ==> exists j :: world(j) == DbError
    decreases bound - offset
  {
    if world(k).Rows? {
      var page := PageAt(world(k).table, offset, size);
      if size <= |page| {
        FailureIsADbError(world, size, bound, k + 1, offset + size, CountPage(counted, page));
      }
    } else {
      assert world(k) == DbError;
    }
  }

  /** Every row carries an id, as the indexer writes them. */
  ghost predicate Named(world: nat -> Read) {
    forall k :: world(k).Rows? ==> forall e | e in world(k).table :: e.key.id != ""
  }

  /** No event is counted twice, however the rows move between the pages. */
  lemma {:induction false} NoneCountedTwice(world: nat -> Read, size: nat, bound: nat, k: nat, offset: nat,
                                            counted: seq<Event>)
    requires 0 < size && Bounded(world, bound) && Named(world) && NoneTwice(counted)
    ensures
      match Replay(world, size, bound, k, offset, counted)
      case Failed => true
      case Counted(events, _) => NoneTwice(events)
    decreases bound - offset
  {
    if world(k).Rows? {
      var page := PageAt(world(k).table, offset, size);
      assert forall e | e in page :: e in world(k).table;
      PageAddsNoneTwice(counted, page);
      if size <= |page| {
        NoneCountedTwice(world, size, bound, k + 1, offset + size, CountPage(counted, page));
      }
    }
  }

  /** Inserting a row ahead of a page boundary moves the row at the boundary into the next page. */
  function InsertedAfterFirst(t: seq<Event>, u: seq<Event>): nat -> Read {
    (k: nat) => if k == 0 then Rows(t) else Rows(u)
  }

  /** Without an id the moved row is counted again: the hypothesis of `NoneCountedTwice` is needed. */
  lemma EmptyIdCountedTwice(t: seq<Event>, y: Event)
    requires 1 < |t| && Keyed([y] + t) && t[|t| - 1].key.id == ""
    ensures var world := InsertedAfterFirst(t, [y] + t);
            && Bounded(world, |t| + 1)
            && Replay(world, |t|, |t| + 1, 0, 0, []) == Counted(t + [t[|t| - 1]], 1)
            && !NoneTwice(t + [t[|t| - 1]])
  {
    var size, x, u := |t|, t[|t| - 1], [y] + t;
    assert forall i | 0 <= i < size :: u[i + 1] == t[i];
    MovedRowIsRead(InsertedAfterFirst(t, u), t, u, x, size);
    var twice := t + [x];
    assert twice[size] == twice[size - 1];
  }

  lemma MovedRowIsRead(world: nat -> Read, t: seq<Event>, u: seq<Event>, x: Event, size: nat)
    requires 1 < size == |t| && |u| == size + 1 && u[size] == x && x.key.id == "" && Keyed(t)
    requires world(0) == Rows(t) && world(1) == Rows(u) && Bounded(world, size + 1)
    ensures Replay(world, size, size + 1, 0, 0, []) == Counted(t + [x], 1)
  {
    StillPage(t, 0, size, []);
    assert t[..size] == t;
    var page := PageAt(u, size, size);
    assert page == [x];
    assert CountPage(t, page) == t + [x] by {
      assert page[..0] == [];
      assert CountPage(t, []) == t;
      assert x.key.id !in IdsOf(t);
    }
    assert Replay(world, size, size + 1, 1, size, t) == Counted(t + [x], 1);
  }

  // ---------------------------------------------------------------------------
  // Exactly the events without id can be counted twice; the indexer writes none
  // ---------------------------------------------------------------------------

  ghost predicate AtMostOnce(s: seq<Event>, x: Event) {
    forall i, j | 0 <= i < |s| && 0 <= j < |s| && s[i] == x && s[j] == x :: i == j
  }

  lemma {:induction false} PageAddsOnce(counted: seq<Event>, page: seq<Event>, x: Event)
    requires AtMostOnce(counted, x) && x.key.id != ""
    ensures AtMostOnce(CountPage(counted, page), x)
  {
    if page == [] {
    } else {
      PageAddsOnce(counted, page[..|page| - 1], x);
    }
  }

  lemma {:induction false} CountedOnceById(world: nat -> Read, size: nat, bound: nat, k: nat, offset: nat, counted: seq<Event>,
                                           x: Event)
    requires 0 < size && Bounded(world, bound) && AtMostOnce(counted, x) && x.key.id != ""
    ensures
      match Replay(world, size, bound, k, offset, counted)
      case Failed => true
      case Counted(events, _) => AtMostOnce(events, x)
    decreases bound - offset
  {
    if world(k).Rows? {
      var page := PageAt(world(k).table, offset, size);
      PageAddsOnce(counted, page, x);
      if size <= |page| {
        CountedOnceById(world, size, bound, k + 1, offset + size, CountPage(counted, page), x);
      }
    }
  }

  /** The tables met by the queries, the last of them from then on. */
  function World(tables: seq<seq<Event>>): nat -> Read
    requires tables != []
  {
    (k: nat) => Rows(tables[Min(k, |tables| - 1)])
  }

  ghost predicate CountedTwice(before: (string, string) -> bool, size: nat, x: Event, tables: seq<seq<Event>>, bound: nat)
    requires 0 < size
  {
    && tables != [] && Growing(before, World(tables), bound)
    && match Replay(World(tables), size, bound, 0, 0, []) {
         case Failed => false
         case Counted(events, _) => !AtMostOnce(events, x)
       }
  }

  /** Events of earlier blocks, as many as a page holds with `x` at its end. */
  function Filler(x: Event, i: int): Event {
    Row(Position(x.key.blockNumber - 1 - i, seq(Max(i, 0) + 1, _ => 'f')), x.data)
  }

  function PageEndingIn(x: Event, size: nat): (t: seq<Event>)
    requires 0 < size
    ensures |t| == size && t[size - 1] == x
    ensures forall i | 0 <= i < size - 1 :: t[i] == Filler(x, size - 2 - i)
  {
    seq(size - 1, i requires 0 <= i < size - 1 => Filler(x, size - 2 - i)) + [x]
  }

  lemma PageIsTable(before: (string, string) -> bool, x: Event, size: nat)
    requires 0 < size && x.key.id == ""
    ensures var u := [Filler(x, size - 1)] + PageEndingIn(x, size);
            Ascending(Order(before), u) && Keyed(u)
  {
    var u := [Filler(x, size - 1)] + PageEndingIn(x, size);
    forall i | 0 <= i < size
      ensures u[i] == Filler(x, size - 1 - i)
    {
    }
    forall i, j | 0 <= i < j < |u|
      ensures Order(before)(u[i].key, u[j].key)
    {
      assert u[i].key.blockNumber < u[j].key.blockNumber;
    }
    forall i, j | 0 <= i < |u| && 0 <= j < |u| && u[i].key.id == u[j].key.id
      ensures i == j
    {
      assert i < size ==> |u[i].key.id| == size - i;
      assert j < size ==> |u[j].key.id| == size - j;
    }
  }

  lemma TailIsTable(before: (string, string) -> bool, y: Event, t: seq<Event>)
    requires Ascending(Order(before), [y] + t) && Keyed([y] + t)
    ensures Ascending(Order(before), t) && Keyed(t) && GrowsTo(t, [y] + t)
  {
    assert forall i | 0 <= i < |t| :: ([y] + t)[i + 1] == t[i];
  }

  /** Some growing table makes the replay count an event twice exactly when the event has no id. */
  lemma CountedTwiceIffNoId(before: (string, string) -> bool, size: nat, x: Event)
    requires TotalOrder(before) && 1 < size
    ensures (exists tables, bound :: CountedTwice(before, size, x, tables, bound)) <==> x.key.id == ""
  {
    if x.key.id == "" {
      var y, t := Filler(x, size - 1), PageEndingIn(x, size);
      var u := [y] + t;
      PageIsTable(before, x, size);
      TailIsTable(before, y, t);
      var world := World([t, u]);
      assert world(0) == Rows(t) && world(1) == Rows(u);
      assert Growing(before, world, size + 1);
      MovedRowIsRead(world, t, u, x, size);
      var twice := t + [x];
      assert twice[size] == twice[size - 1] == x;
      assert CountedTwice(before, size, x, [t, u], size + 1);
    } else {
      forall tables, bound | tables != [] && Growing(before, World(tables), bound)
        ensures !CountedTwice(before, size, x, tables, bound)
      {
        assert Bounded(World(tables), bound);
        CountedOnceById(World(tables), size, bound, 0, 0, [], x);
      }
    }
  }

  // ---------------------------------------------------------------------------
  // The sum does not depend on the order of counting
  // ---------------------------------------------------------------------------

  lemma TakenOut(s: seq<Event>, i: nat)
    requires i < |s|
    ensures multiset(s[..i] + s[i + 1..]) == multiset(s) - multiset{s[i]}
  {
    assert s == s[..i] + [s[i]] + s[i + 1..];
  }

  lemma SameRest(a: seq<Event>, b: seq<Event>) returns (i: nat)
    requires multiset(a) == multiset(b) && a != []
    ensures i < |b| && b[i] == a[|a| - 1]
    ensures multiset(a[..|a| - 1]) == multiset(b[..i] + b[i + 1..])
  {
    var n := |a| - 1;
    assert a[n] in multiset(b);
    i :| 0 <= i < |b| && b[i] == a[n];
    TakenOut(a, n);
    TakenOut(b, i);
    assert a[..n] + a[n + 1..] == a[..n];
  }

  lemma {:induction false} SumOfPermutation(a: seq<Event>, b: seq<Event>, kind: string)
    requires multiset(a) == multiset(b)
    ensures Sum(a, kind) == Sum(b, kind)
  {
    if a == [] {
      assert |multiset(b)| == 0;
    } else {
      var i := SameRest(a, b);
      SumOfPermutation(a[..|a| - 1], b[..i] + b[i + 1..], kind);
      SumSplits(b, i, kind);
    }
  }

  /** The order in which events are counted does not matter. */
  lemma SumsOfPermutation(a: seq<Event>, b: seq<Event>)
    requires multiset(a) == multiset(b)
    ensures Held(a) == Held(b) && forall kind :: Sum(a, kind) == Sum(b, kind)
  {
    forall kind
      ensures Sum(a, kind) == Sum(b, kind)
    {
      SumOfPermutation(a, b, kind);
    }
  }

  function Restrict(t: seq<Event>, chosen: seq<Event>): seq<Event> {
    if t == [] then [] else Restrict(t[..|t| - 1], chosen) + if t[|t| - 1] in chosen then [t[|t| - 1]] else []
  }

  lemma {:induction false} RestrictCounts(t: seq<Event>, chosen: seq<Event>, e: Event)
    ensures multiset(Restrict(t, chosen))[e] == if e in chosen then multiset(t)[e] else 0
  {
    if t == [] {
    } else {
      RestrictCounts(t[..|t| - 1], chosen, e);
      assert t == t[..|t| - 1] + [t[|t| - 1]];
    }
  }

  lemma {:induction false} NoneTwiceCounts(s: seq<Event>, e: Event)
    requires NoneTwice(s)
    ensures multiset(s)[e] == if e in s then 1 else 0
  {
    if s == [] {
    } else {
      var rest := s[..|s| - 1];
      assert s == rest + [s[|s| - 1]];
      NoneTwiceCounts(rest, e);
    }
  }

  /**
   The balance of a table that grows underneath: what is held by the last table read,
   restricted to a set of its events that holds all of the first table's.  So for every
   kind of event the amount counted lies between those of the two tables.
   */
  lemma BalanceIsSandwiched(before: (string, string) -> bool, world: nat -> Read, size: nat, bound: nat)
    requires 0 < size && Growing(before, world, bound) && Named(world)
    ensures
      match Replay(world, size, bound, 0, 0, [])
      case Failed => exists k :: world(k) == DbError
      case Counted(events, last) =>
        && world(0).Rows? && world(last).Rows?
        && (forall e | e in world(0).table :: e in events)
        && Held(events) == Held(Restrict(world(last).table, events))
        && forall kind ::
             Sum(world(0).table, kind) <= Sum(events, kind) == Sum(Restrict(world(last).table, events), kind)
             <= Sum(world(last).table, kind)
  {
    EveryInitialEventCounted(before, world, size, bound);
    assert NoneTwice([]);
    assert Bounded(world, bound);
    NoneCountedTwice(world, size, bound, 0, 0, []);
    match Replay(world, size, bound, 0, 0, [])
    case Failed =>
    case Counted(events, last) =>
      SumOverLastTable(world(last).table, events);
      forall kind
        ensures Sum(world(0).table, kind) <= Sum(events, kind) <= Sum(world(last).table, kind)
      {
        assert NoneTwice(world(0).table) && NoneTwice(world(last).table);
        SubsetSumsLess(world(0).table, events, kind);
        SubsetSumsLess(events, world(last).table, kind);
      }
  }

  lemma {:induction false} SumSplits(s: seq<Event>, i: nat, kind: string)
    requires i < |s|
    ensures Sum(s, kind) == Sum(s[..i] + s[i + 1..], kind) + if s[i].data.eventType == kind then s[i].data.amount else 0
  {
    var n := |s| - 1;
    if i < n {
      SumSplits(s[..n], i, kind);
      var without := s[..i] + s[i + 1..];
      assert without[..n - 1] == s[..n][..i] + s[..n][i + 1..];
      assert without[n - 1] == s[n];
    } else {
      assert s[..i] + s[i + 1..] == s[..n];
    }
  }

  /** Different events, all of them among others, sum up to no more. */
  lemma {:induction false} SubsetSumsLess(a: seq<Event>, b: seq<Event>, kind: string)
    requires NoneTwice(a) && forall e | e in a :: e in b
    ensures Sum(a, kind) <= Sum(b, kind)
  {
    if a == [] {
    } else {
      var rest, last := a[..|a| - 1], a[|a| - 1];
      assert last in a && last in b;
      var i :| 0 <= i < |b| && b[i] == last;
      forall e | e in rest
        ensures e in b[..i] + b[i + 1..]
      {
        assert e in a && e in b;
        var j :| 0 <= j < |b| && b[j] == e;
        assert e != last;
        assert (b[..i] + b[i + 1..])[if j < i then j else j - 1] == e;
      }
      SubsetSumsLess(rest, b[..i] + b[i + 1..], kind);
      SumSplits(b, i, kind);
    }
  }

  lemma SumOverLastTable(t: seq<Event>, events: seq<Event>)
    requires Keyed(t) && NoneTwice(events) && forall e | e in events :: e in t
    ensures Held(events) == Held(Restrict(t, events))
    ensures forall kind :: Sum(events, kind) == Sum(Restrict(t, events), kind)
  {
    forall e: Event
      ensures multiset(events)[e] == multiset(Restrict(t, events))[e]
    {
      RestrictCounts(t, events, e);
      NoneTwiceCounts(t, e);
      NoneTwiceCounts(events, e);
    }
    assert multiset(events) == multiset(Restrict(t, events));
    SumsOfPermutation(events, Restrict(t, events));
  }

  // ---------------------------------------------------------------------------
  // A table that stands still
  // ---------------------------------------------------------------------------

  lemma NextRowIsNew(t: seq<Event>, i: nat)
    requires Keyed(t) && i < |t|
    ensures CountOne(t[..i], t[i]) == t[..i + 1]
  {
    assert t[i].key.id !in IdsOf(t[..i]);
    assert t[..i + 1] == t[..i] + [t[i]];
  }

  lemma {:induction false} FreshPageIsAppended(t: seq<Event>, offset: nat, n: nat)
    requires Keyed(t) && offset + n <= |t|
    ensures CountPage(t[..offset], t[offset..offset + n]) == t[..offset + n]
  {
    hide CountOne;
    var page := t[offset..offset + n];
    if n == 0 {
      assert page == [];
    } else {
      assert page[..n - 1] == t[offset..offset + (n - 1)] && page[n - 1] == t[offset + (n - 1)];
      FreshPageIsAppended(t, offset, n - 1);
      NextRowIsNew(t, offset + (n - 1));
    }
  }

  ghost predicate Still(world: nat -> Read, t: seq<Event>) {
    forall k :: world(k) == Rows(t)
  }

  lemma StillPage(t: seq<Event>, offset: nat, size: nat, counted: seq<Event>)
    requires 0 < size && Keyed(t) && counted == t[..Min(offset, |t|)]
    ensures CountPage(counted, PageAt(t, offset, size)) == t[..Min(offset + size, |t|)]
    ensures |PageAt(t, offset, size)| < size <==> |t| < offset + size
  {
    if offset < |t| {
      var n := Min(size, |t| - offset);
      assert PageAt(t, offset, size) == t[offset..offset + n];
      FreshPageIsAppended(t, offset, n);
    }
  }

  lemma {:induction false} StillFrom(world: nat -> Read, t: seq<Event>, size: nat, bound: nat, k: nat, offset: nat,
                                     counted: seq<Event>)
    requires 0 < size && Bounded(world, bound) && Keyed(t) && Still(world, t)
    requires counted == t[..Min(offset, |t|)]
    ensures
      match Replay(world, size, bound, k, offset, counted)
      case Failed => false
      case Counted(events, _) => events == t
    decreases bound - offset
  {
    hide CountPage, PageAt, Keyed;
    assert world(k) == Rows(t);
    StillPage(t, offset, size, counted);
    var all := t[..Min(offset + size, |t|)];
    if offset + size <= |t| {
      StillFrom(world, t, size, bound, k + 1, offset + size, all);
    } else {
      assert all == t;
    }
  }

  /** On a table that stands still the result is the one-pass fold, whatever the batch size. */
  lemma StillTableIsOnePass(world: nat -> Read, t: seq<Event>, size: nat, bound: nat)
    requires 0 < size && Bounded(world, bound) && Keyed(t) && Still(world, t)
    ensures Replay(world, size, bound, 0, 0, []).Counted?
    ensures Replay(world, size, bound, 0, 0, []).events == t
  {
    StillFrom(world, t, size, bound, 0, 0, []);
  }
}
