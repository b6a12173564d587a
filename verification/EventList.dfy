/**
 `GET /events/list` (src/routes/events.ts): the keyset condition, one page with its
 cursor, and clients that follow the cursors while the table grows.
 */
module EventList {
  import opened Common
  import opened Keyset

  datatype Position = Position(blockNumber: int, eventIndex: int, id: string)
  datatype Data = Data(agreementId: string, eventType: string)
  type Event = Row<Position, Data>

  datatype Filter = Filter(agreementId: Option<string>, eventType: Option<string>)
  datatype Response = Response(events: seq<Event>, nextCursor: Option<Position>, hasMore: bool, count: nat)

  /** `ORDER BY block_number, event_index, id`: the first column that differs decides. */
  predicate Precedes(before: (string, string) -> bool, a: Position, b: Position) {
    if a.blockNumber != b.blockNumber then a.blockNumber < b.blockNumber
    else if a.eventIndex != b.eventIndex then a.eventIndex < b.eventIndex
    else before(a.id, b.id)
  }

  function Order(before: (string, string) -> bool): (Position, Position) -> bool {
    (a: Position, b: Position) => Precedes(before, a, b)
  }

  /** The cursor condition as the query spells it out. */
  predicate PastCursor(before: (string, string) -> bool, at: Position, cursor: Position) {
    || at.blockNumber > cursor.blockNumber
    || (at.blockNumber == cursor.blockNumber && at.eventIndex > cursor.eventIndex)
    || (at.blockNumber == cursor.blockNumber && at.eventIndex == cursor.eventIndex && before(cursor.id, at.id))
  }

  lemma OrderIsTotal(before: (string, string) -> bool)
    requires TotalOrder(before)
    ensures TotalOrder(Order(before))
  {
    var lt := Order(before);
    forall a, b
      ensures lt(a, b) || a == b || lt(b, a)
    {
      assert Precedes(before, a, b) || a == b || Precedes(before, b, a);
    }
    forall a, b, c | lt(a, b) && lt(b, c)
      ensures lt(a, c)
    {
      assert Precedes(before, a, b) && Precedes(before, b, c);
    }
    forall a
      ensures !lt(a, a)
    {
      assert !Precedes(before, a, a);
    }
  }

  predicate Matches(filter: Filter, data: Data) {
    && (filter.agreementId.Some? ==> data.agreementId == filter.agreementId.value)
    && (filter.eventType.Some? ==> data.eventType == filter.eventType.value)
  }

  function Keeps(filter: Filter): Event -> bool {
    (e: Event) => Matches(filter, e.data)
  }

  predicate All(conditions: seq<Event -> bool>, e: Event) {
    forall i | 0 <= i < |conditions| :: conditions[i](e)
  }

  lemma {:induction false} WhereAgrees(t: seq<Event>, p: Event -> bool, q: Event -> bool)
    requires forall e :: p(e) == q(e)
    ensures Where(t, p) == Where(t, q)
  {
    if t == [] {
    } else {
      WhereAgrees(t[1..], p, q);
    }
  }

  lemma PushOne(conditions: seq<Event -> bool>, p: Event -> bool)
    ensures forall e :: All(conditions + [p], e) <==> All(conditions, e) && p(e)
  {
    forall e
      ensures All(conditions + [p], e) <==> All(conditions, e) && p(e)
    {
      var more := conditions + [p];
      assert more[|conditions|] == p;
      assert forall i | 0 <= i < |conditions| :: more[i] == conditions[i];
    }
  }

  /** The conditions of the query, pushed one by one; together they mean "wanted". */
  method BuildConditions(before: (string, string) -> bool, filter: Filter, cursor: Option<Position>)
    returns (conditions: seq<Event -> bool>)
    ensures forall e :: All(conditions, e) <==> Wanted(Order(before), Keeps(filter), cursor)(e)
  {
    conditions := [];
    if filter.agreementId.Some? {
      var byAgreement := (e: Event) => e.data.agreementId == filter.agreementId.value;
      PushOne(conditions, byAgreement);
      conditions := conditions + [byAgreement];
    }
    if filter.eventType.Some? {
      var byType := (e: Event) => e.data.eventType == filter.eventType.value;
      PushOne(conditions, byType);
      conditions := conditions + [byType];
    }
    if cursor.Some? {
      var past := (e: Event) => PastCursor(before, e.key, cursor.value);
      PushOne(conditions, past);
      conditions := conditions + [past];
    }
    forall e: Event
      ensures All(conditions, e) <==> Wanted(Order(before), Keeps(filter), cursor)(e)
    {
      assert All(conditions, e) <==> Matches(filter, e.data) && (cursor.Some? ==> PastCursor(before, e.key, cursor.value));
      if cursor.Some? {
        assert Order(before)(cursor.value, e.key) == PastCursor(before, e.key, cursor.value);
      }
      assert Keeps(filter)(e) == Matches(filter, e.data);
    }
  }

  function AllOf(conditions: seq<Event -> bool>): Event -> bool {
    (e: Event) => All(conditions, e)
  }

  lemma ConditionsSelect(t: seq<Event>, conditions: seq<Event -> bool>, wanted: Event -> bool)
    requires forall e :: All(conditions, e) <==> wanted(e)
    ensures Where(t, AllOf(conditions)) == Where(t, wanted)
  {
    WhereAgrees(t, AllOf(conditions), wanted);
  }

  /** The handler: one row more than the limit is fetched to see whether there is a next page. */
  method ListEvents(before: (string, string) -> bool, t: seq<Event>, filter: Filter, cursor: Option<Position>, limit: nat)
    returns (r: Response)
    requires 0 < limit
    ensures r == PageOf(before, t, filter, cursor, limit)
  {
    hide Where, All, Wanted, AllOf;
    var conditions := BuildConditions(before, filter, cursor);
    ConditionsSelect(t, conditions, Wanted(Order(before), Keeps(filter), cursor));
    var rows := Take(Where(t, AllOf(conditions)), limit + 1);
    var hasMore := |rows| > limit;
    var events := if hasMore then rows[..limit] else rows;
    var nextCursor := None;
    if hasMore && |events| > 0 {
      nextCursor := Some(events[|events| - 1].key);
    }
    r := Response(events, nextCursor, hasMore, |events|);
  }

  /** The page in terms of the order: the first matching rows strictly after the cursor. */
  function PageOf(before: (string, string) -> bool, t: seq<Event>, filter: Filter, cursor: Option<Position>, limit: nat): Response {
    var wanted := Where(t, Wanted(Order(before), Keeps(filter), cursor));
    var events := Take(wanted, limit);
    var hasMore := limit < |wanted|;
    Response(events, if hasMore then LastKey(events) else None, hasMore, |events|)
  }

  // ---------------------------------------------------------------------------
  // Following the cursors
  // ---------------------------------------------------------------------------

  type EventClient = Client<Position, Data>

  /** A client asks for the next page until it is told there is none. */
  function Ask(before: (string, string) -> bool, t: seq<Event>, filter: Filter, limit: nat, c: EventClient): EventClient {
    if c.finished then c else
      var r := PageOf(before, t, filter, c.cursor, limit);
      Client(c.got + r.events, if r.hasMore then r.nextCursor else c.cursor, !r.hasMore)
  }

  /** Request `i` meets table `tables[i]`. */
  function Follow(before: (string, string) -> bool, tables: seq<seq<Event>>, filter: Filter, limit: nat): EventClient {
    if tables == [] then Start()
    else Ask(before, tables[|tables| - 1], filter, limit, Follow(before, tables[..|tables| - 1], filter, limit))
  }

  ghost predicate Growing(before: (string, string) -> bool, tables: seq<seq<Event>>) {
    && TotalOrder(before)
    && (forall i | 0 <= i < |tables| :: Ascending(Order(before), tables[i]))
    && (forall i, j | 0 <= i <= j < |tables| :: GrowsTo(tables[i], tables[j]))
  }

  lemma AskKeepsFaithful(before: (string, string) -> bool, first: seq<Event>, t: seq<Event>, filter: Filter, limit: nat, c: EventClient)
    requires TotalOrder(before) && 0 < limit && Ascending(Order(before), t) && GrowsTo(first, t)
    requires Faithful(Order(before), Keeps(filter), first, t, c)
    ensures Faithful(Order(before), Keeps(filter), first, t, Ask(before, t, filter, limit, c))
  {
    if !c.finished {
      OrderIsTotal(before);
      var r := PageOf(before, t, filter, c.cursor, limit);
      PageKeepsFaithful(Order(before), Keeps(filter), first, t, c, r.events, !r.hasMore);
    }
  }

  /**
   However many rows are inserted, anywhere, between the requests: the client never
   sees a row twice or out of order, and when it is told there is no more it has
   every matching row that was there at its first request.
   */
  lemma {:induction false} NothingLostOrRepeated(before: (string, string) -> bool, tables: seq<seq<Event>>, filter: Filter, limit: nat)
    requires tables != [] && Growing(before, tables) && 0 < limit
    ensures Faithful(Order(before), Keeps(filter), tables[0], tables[|tables| - 1], Follow(before, tables, filter, limit))
  {
    var n := |tables| - 1;
    var prefix, t := tables[..n], tables[n];
    var c := Follow(before, prefix, filter, limit);
    if n == 0 {
    } else {
      NothingLostOrRepeated(before, prefix, filter, limit);
      GrowthKeepsFaithful(Order(before), Keeps(filter), tables[0], tables[n - 1], t, c);
    }
    AskKeepsFaithful(before, tables[0], t, filter, limit, c);
  }

  lemma OneMorePage(n: nat, limit: nat)
    ensures (n + 1) * limit == n * limit + limit
    ensures 0 < limit ==> n <= n * limit
  {
  }

  lemma {:induction false} FullPagesUntilFinished(before: (string, string) -> bool, tables: seq<seq<Event>>, filter: Filter, limit: nat)
    ensures var c := Follow(before, tables, filter, limit); !c.finished ==> |c.got| == |tables| * limit
  {
    if tables == [] {
    } else {
      var n := |tables| - 1;
      FullPagesUntilFinished(before, tables[..n], filter, limit);
      OneMorePage(n, limit);
    }
  }

  /** A page that is not the last leaves a row of the table unread. */
  lemma UnfinishedLeavesARow(before: (string, string) -> bool, first: seq<Event>, t: seq<Event>, filter: Filter, limit: nat, c: EventClient)
    requires TotalOrder(before) && Ascending(Order(before), t)
    requires Faithful(Order(before), Keeps(filter), first, t, c)
    requires !Ask(before, t, filter, limit, c).finished
    ensures |Ask(before, t, filter, limit, c).got| < |t|
  {
    hide Where, TotalOrder;
    OrderIsTotal(before);
    var wanted := Where(t, Wanted(Order(before), Keeps(filter), c.cursor));
    var page := Take(wanted, limit + 1);
    PageIsWanted(Order(before), Keeps(filter), t, c.cursor, page);
    AppendAscending(Order(before), c.got, page);
    NoMoreRows(Order(before), c.got + page, t);
  }

  /** The client is through after as many requests as the last table fills pages. */
  lemma FollowEnds(before: (string, string) -> bool, tables: seq<seq<Event>>, filter: Filter, limit: nat)
    requires tables != [] && Growing(before, tables) && 0 < limit
    requires |tables[|tables| - 1]| <= |tables| * limit
    ensures Follow(before, tables, filter, limit).finished
  {
    var n := |tables| - 1;
    var prefix, t := tables[..n], tables[n];
    var c := Follow(before, prefix, filter, limit);
    FullPagesUntilFinished(before, tables, filter, limit);
    if n > 0 {
      NothingLostOrRepeated(before, prefix, filter, limit);
      GrowthKeepsFaithful(Order(before), Keeps(filter), tables[0], tables[n - 1], t, c);
    }
    if !Follow(before, tables, filter, limit).finished {
      UnfinishedLeavesARow(before, tables[0], t, filter, limit, c);
    }
  }

  /** On a table that stands still the pages concatenate to the matching rows, in order. */
  lemma StillTableIsListed(before: (string, string) -> bool, t: seq<Event>, n: nat, filter: Filter, limit: nat)
    requires TotalOrder(before) && Ascending(Order(before), t) && 0 < limit && 0 < n && |t| <= n * limit
    ensures Follow(before, seq(n, i => t), filter, limit).got == Where(t, Keeps(filter))
  {
    var tables := seq(n, i => t);
    NothingLostOrRepeated(before, tables, filter, limit);
    FollowEnds(before, tables, filter, limit);
    OrderIsTotal(before);
    FinishedHasAll(Order(before), Keeps(filter), t, Follow(before, tables, filter, limit));
  }

  /** The row is what the client asked for. */
  ghost predicate AskedFor(filter: Filter, e: Event) {
    && (filter.agreementId == None || filter.agreementId == Some(e.data.agreementId))
    && (filter.eventType == None || filter.eventType == Some(e.data.eventType))
  }

  /** `a` comes first by block, then by index within it, then by id. */
  ghost predicate ComesFirst(before: (string, string) -> bool, a: Position, b: Position) {
    || a.blockNumber < b.blockNumber
    || (a.blockNumber == b.blockNumber && a.eventIndex < b.eventIndex)
    || (a.blockNumber == b.blockNumber && a.eventIndex == b.eventIndex && before(a.id, b.id))
  }

  /** The row is asked for and past the cursor. */
  ghost predicate StillToList(before: (string, string) -> bool, filter: Filter, cursor: Option<Position>, e: Event) {
    AskedFor(filter, e) && (cursor.Some? ==> ComesFirst(before, cursor.value, e.key))
  }

  ghost predicate InOrder(before: (string, string) -> bool, t: seq<Event>) {
    forall i, j | 0 <= i < j < |t| :: ComesFirst(before, t[i].key, t[j].key)
  }

  lemma WantedIsStillToList(before: (string, string) -> bool, t: seq<Event>, filter: Filter, cursor: Option<Position>)
    requires Ascending(Order(before), t)
    ensures var wanted := Where(t, Wanted(Order(before), Keeps(filter), cursor));
            && (forall e :: e in wanted <==> e in t && StillToList(before, filter, cursor, e))
            && InOrder(before, wanted)
  {
    hide Where;
    var wanted := Where(t, Wanted(Order(before), Keeps(filter), cursor));
    WhereSelects(Order(before), t, Wanted(Order(before), Keeps(filter), cursor));
    forall e: Event
      ensures Wanted(Order(before), Keeps(filter), cursor)(e) <==> StillToList(before, filter, cursor, e)
    {
      assert Keeps(filter)(e) == AskedFor(filter, e);
      assert cursor.Some? ==> Order(before)(cursor.value, e.key) == ComesFirst(before, cursor.value, e.key);
    }
    forall i, j | 0 <= i < j < |wanted|
      ensures ComesFirst(before, wanted[i].key, wanted[j].key)
    {
      assert Order(before)(wanted[i].key, wanted[j].key);
    }
  }

  /** Cutting rows in order: what is left out comes later than all that is kept. */
  lemma CutInOrder(before: (string, string) -> bool, wanted: seq<Event>, n: nat)
    requires TotalOrder(before) && n <= |wanted| && InOrder(before, wanted)
    ensures InOrder(before, wanted[..n])
    ensures forall e, got | e in wanted && e !in wanted[..n] && got in wanted[..n] :: ComesFirst(before, got.key, e.key)
    ensures n < |wanted| <==> exists e :: e in wanted && e !in wanted[..n]
  {
    forall e, got | e in wanted && e !in wanted[..n] && got in wanted[..n]
      ensures ComesFirst(before, got.key, e.key)
    {
      var j :| 0 <= j < |wanted| && wanted[j] == e;
      var i :| 0 <= i < n && wanted[i] == got;
      assert j < n ==> e == wanted[..n][j];
    }
    if n < |wanted| {
      assert wanted[n] in wanted;
      assert forall i | 0 <= i < n :: ComesFirst(before, wanted[i].key, wanted[n].key);
      assert wanted[n] !in wanted[..n];
    } else {
      assert wanted[..n] == wanted;
    }
  }

  /**
   One page: rows of the table that are asked for and past the cursor, in order, none of
   which is skipped; and `hasMore` says whether any is left, to be asked for after the last.
   */
  lemma PageIsWhatWasAskedFor(before: (string, string) -> bool, t: seq<Event>, filter: Filter, cursor: Option<Position>, limit: nat)
    requires TotalOrder(before) && Ascending(Order(before), t) && 0 < limit
    ensures var r := PageOf(before, t, filter, cursor, limit);
            && (forall e | e in r.events :: e in t && StillToList(before, filter, cursor, e))
            && InOrder(before, r.events)
            && (forall e, got | e in t && StillToList(before, filter, cursor, e) && e !in r.events && got in r.events ::
                  ComesFirst(before, got.key, e.key))
            && (r.hasMore <==> exists e :: e in t && StillToList(before, filter, cursor, e) && e !in r.events)
            && |r.events| <= limit && r.count == |r.events|
            && (r.hasMore ==> |r.events| == limit && r.nextCursor == Some(r.events[limit - 1].key))
            && (!r.hasMore ==> r.nextCursor == None)
  {
    hide Where, TotalOrder, Ascending, InOrder, StillToList;
    var wanted := Where(t, Wanted(Order(before), Keeps(filter), cursor));
    WantedIsStillToList(before, t, filter, cursor);
    CutInOrder(before, wanted, Min(limit, |wanted|));
  }

  /** Following the cursors over a table that stands still lists exactly the rows asked for. */
  lemma ListsWhatWasAskedFor(before: (string, string) -> bool, t: seq<Event>, n: nat, filter: Filter, limit: nat, e: Event)
    requires TotalOrder(before) && Ascending(Order(before), t) && 0 < limit && 0 < n && |t| <= n * limit
    ensures e in Follow(before, seq(n, i => t), filter, limit).got <==> e in t && AskedFor(filter, e)
  {
    StillTableIsListed(before, t, n, filter, limit);
    WhereSelects(Order(before), t, Keeps(filter));
    assert Keeps(filter)(e) == AskedFor(filter, e);
  }
}
