/**
 Keyset paging over rows with a totally ordered key, shared by the event list
 (src/routes/events.ts) and the analytics collector (src/routes/analytics.ts).
 A table is the sequence of its rows in key order.
 */
module Keyset {
  import opened Common

  datatype Row<+K, +V> = Row(key: K, data: V)

  ghost predicate TotalOrder<K(!new)>(lt: (K, K) -> bool) {
    && (forall a :: !lt(a, a))
    && (forall a, b, c :: lt(a, b) && lt(b, c) ==> lt(a, c))
    && (forall a, b :: lt(a, b) || a == b || lt(b, a))
  }

  /** Keys are unique, so a table is strictly ascending. */
  ghost predicate Ascending<K, V>(lt: (K, K) -> bool, t: seq<Row<K, V>>) {
    forall i, j | 0 <= i < j < |t| :: lt(t[i].key, t[j].key)
  }

  /** Rows are only inserted, anywhere in the order. */
  ghost predicate GrowsTo<K, V>(t: seq<Row<K, V>>, u: seq<Row<K, V>>) {
    forall r | r in t :: r in u
  }

  function Where<K, V>(t: seq<Row<K, V>>, p: Row<K, V> -> bool): seq<Row<K, V>> {
    if t == [] then [] else (if p(t[0]) then [t[0]] else []) + Where(t[1..], p)
  }

  function Take<K, V>(t: seq<Row<K, V>>, n: nat): seq<Row<K, V>> {
    t[..Min(n, |t|)]
  }

  lemma {:induction false} WhereSelects<K(!new), V(!new)>(lt: (K, K) -> bool, t: seq<Row<K, V>>, p: Row<K, V> -> bool)
    ensures forall r :: r in Where(t, p) <==> r in t && p(r)
    ensures Ascending(lt, t) ==> Ascending(lt, Where(t, p))
  {
    if t == [] {
    } else {
      WhereSelects(lt, t[1..], p);
      assert t == [t[0]] + t[1..];
      var rest := Where(t[1..], p);
      if Ascending(lt, t) {
        assert forall i | 0 <= i < |t[1..]| :: t[1..][i] == t[i + 1];
        assert forall r | r in t[1..] :: lt(t[0].key, r.key);
        assert forall i | 0 <= i < |rest| :: rest[i] in rest;
      }
    }
  }

  lemma SuffixAscends<K, V>(lt: (K, K) -> bool, t: seq<Row<K, V>>, i: nat)
    requires Ascending(lt, t) && i <= |t|
    ensures Ascending(lt, t[i..])
  {
  }

  /** In a table holding all rows of another, no row comes earlier. */
  lemma {:induction false} RankOnlyRises<K(!new), V(!new)>(lt: (K, K) -> bool, a: seq<Row<K, V>>, b: seq<Row<K, V>>, i: nat, j: nat)
    requires TotalOrder(lt) && Ascending(lt, a) && Ascending(lt, b) && GrowsTo(a, b)
    requires i < |a| && j < |b| && a[i] == b[j]
    ensures i <= j
  {
    if i == 0 {
    } else {
      assert a[i - 1] in b;
      var h :| 0 <= h < |b| && b[h] == a[i - 1];
      RankOnlyRises(lt, a, b, i - 1, h);
    }
  }

  lemma NoMoreRows<K(!new), V(!new)>(lt: (K, K) -> bool, a: seq<Row<K, V>>, b: seq<Row<K, V>>)
    requires TotalOrder(lt) && Ascending(lt, a) && Ascending(lt, b) && GrowsTo(a, b)
    ensures |a| <= |b|
  {
    if a != [] {
      assert a[|a| - 1] in b;
      var j :| 0 <= j < |b| && b[j] == a[|a| - 1];
      RankOnlyRises(lt, a, b, |a| - 1, j);
    }
  }

  lemma SameRowsSameTable<K(!new), V(!new)>(lt: (K, K) -> bool, a: seq<Row<K, V>>, b: seq<Row<K, V>>)
    requires TotalOrder(lt) && Ascending(lt, a) && Ascending(lt, b)
    requires GrowsTo(a, b) && GrowsTo(b, a)
    ensures a == b
  {
    NoMoreRows(lt, a, b);
    NoMoreRows(lt, b, a);
    forall i | 0 <= i < |a|
      ensures a[i] == b[i]
    {
      assert a[i] in b;
      var j :| 0 <= j < |b| && b[j] == a[i];
      RankOnlyRises(lt, a, b, i, j);
      RankOnlyRises(lt, b, a, j, i);
    }
  }

  // ---------------------------------------------------------------------------
  // A client that follows cursors
  // ---------------------------------------------------------------------------

  predicate Beyond<K>(lt: (K, K) -> bool, cursor: Option<K>, key: K) {
    cursor.Some? ==> lt(cursor.value, key)
  }

  function Wanted<K, V>(lt: (K, K) -> bool, keep: Row<K, V> -> bool, cursor: Option<K>): Row<K, V> -> bool {
    (r: Row<K, V>) => keep(r) && Beyond(lt, cursor, r.key)
  }

  /** What was read so far, where the next page starts, and whether there is one. */
  datatype Client<+K, +V> = Client(got: seq<Row<K, V>>, cursor: Option<K>, finished: bool)

  function Start<K, V>(): Client<K, V> {
    Client([], None, false)
  }

  /**
   Measured against `first`, the table at the first page, and `t`, the table now:
   nothing is repeated or invented, and what is not yet read lies past the cursor.
   */
  ghost predicate Faithful<K, V>(lt: (K, K) -> bool, keep: Row<K, V> -> bool, first: seq<Row<K, V>>, t: seq<Row<K, V>>,
                                 c: Client<K, V>) {
    && Ascending(lt, c.got)
    && (forall r | r in c.got :: r in t && keep(r))
    && Unread(lt, keep, first, c)
    && (!c.finished ==> c.cursor == LastKey(c.got))
  }

  /** Every matching row of `first` was read or is still to come. */
  ghost predicate Unread<K, V>(lt: (K, K) -> bool, keep: Row<K, V> -> bool, first: seq<Row<K, V>>, c: Client<K, V>) {
    forall r | r in first && keep(r) :: r in c.got || (!c.finished && Beyond(lt, c.cursor, r.key))
  }

  function LastKey<K, V>(rows: seq<Row<K, V>>): Option<K> {
    if rows == [] then None else Some(rows[|rows| - 1].key)
  }

  lemma PageIsWanted<K(!new), V(!new)>(lt: (K, K) -> bool, keep: Row<K, V> -> bool, t: seq<Row<K, V>>, cursor: Option<K>,
                                       page: seq<Row<K, V>>)
    requires Ascending(lt, t) && page <= Where(t, Wanted(lt, keep, cursor))
    ensures Ascending(lt, page)
    ensures forall r | r in page :: r in t && keep(r) && Beyond(lt, cursor, r.key)
  {
    WhereSelects(lt, t, Wanted(lt, keep, cursor));
    assert forall i | 0 <= i < |page| :: page[i] in Where(t, Wanted(lt, keep, cursor));
  }

  lemma AppendAscending<K(!new), V(!new)>(lt: (K, K) -> bool, got: seq<Row<K, V>>, page: seq<Row<K, V>>)
    requires TotalOrder(lt) && Ascending(lt, got) && Ascending(lt, page)
    requires forall r | r in page :: Beyond(lt, LastKey(got), r.key)
    ensures Ascending(lt, got + page)
  {
    forall i, j | 0 <= i < j < |got + page|
      ensures lt((got + page)[i].key, (got + page)[j].key)
    {
      if i < |got| <= j {
        var last, r := got[|got| - 1], page[j - |got|];
        assert r in page;
        assert i < |got| - 1 ==> lt(got[i].key, last.key);
      }
    }
  }

  /** What a page leaves out comes after its last row. */
  lemma LeftOutComesLater<K(!new), V(!new)>(lt: (K, K) -> bool, keep: Row<K, V> -> bool, t: seq<Row<K, V>>, cursor: Option<K>,
                                            page: seq<Row<K, V>>, r: Row<K, V>)
    requires Ascending(lt, t) && page <= Where(t, Wanted(lt, keep, cursor))
    requires r in t && keep(r) && Beyond(lt, cursor, r.key) && r !in page
    ensures page != Where(t, Wanted(lt, keep, cursor))
    ensures Beyond(lt, LastKey(page), r.key)
  {
    var wanted := Where(t, Wanted(lt, keep, cursor));
    WhereSelects(lt, t, Wanted(lt, keep, cursor));
    assert r in wanted;
    assert forall k | 0 <= k < |page| :: wanted[k] == page[k] && page[k] in page;
    var i :| 0 <= i < |wanted| && wanted[i] == r;
  }

  function Turn<K, V>(c: Client<K, V>, page: seq<Row<K, V>>, finished: bool): Client<K, V> {
    Client(c.got + page, if finished then c.cursor else LastKey(page), finished)
  }

  lemma PageKeepsUnread<K(!new), V(!new)>(lt: (K, K) -> bool, keep: Row<K, V> -> bool, first: seq<Row<K, V>>, t: seq<Row<K, V>>,
                                          c: Client<K, V>, page: seq<Row<K, V>>, finished: bool)
    requires Ascending(lt, t) && GrowsTo(first, t) && Unread(lt, keep, first, c) && !c.finished
    requires page <= Where(t, Wanted(lt, keep, c.cursor))
    requires finished ==> page == Where(t, Wanted(lt, keep, c.cursor))
    ensures Unread(lt, keep, first, Turn(c, page, finished))
  {
    forall r | r in first && keep(r) && r !in c.got + page
      ensures !finished && Beyond(lt, LastKey(page), r.key)
    {
      LeftOutComesLater(lt, keep, t, c.cursor, page, r);
    }
  }

  /** Reading one page keeps the client faithful, provided it stops only when nothing is left. */
  lemma PageKeepsFaithful<K(!new), V(!new)>(lt: (K, K) -> bool, keep: Row<K, V> -> bool, first: seq<Row<K, V>>, t: seq<Row<K, V>>,
                                            c: Client<K, V>, page: seq<Row<K, V>>, finished: bool)
    requires TotalOrder(lt) && Ascending(lt, t) && GrowsTo(first, t)
    requires Faithful(lt, keep, first, t, c) && !c.finished
    requires page <= Where(t, Wanted(lt, keep, c.cursor))
    requires finished ==> page == Where(t, Wanted(lt, keep, c.cursor))
    requires !finished ==> page != []
    ensures Faithful(lt, keep, first, t, Turn(c, page, finished))
  {
    PageIsWanted(lt, keep, t, c.cursor, page);
    AppendAscending(lt, c.got, page);
    PageKeepsUnread(lt, keep, first, t, c, page, finished);
    var got := c.got + page;
    assert !finished ==> LastKey(got) == LastKey(page);
    assert forall r | r in got :: r in c.got || r in page;
  }

  lemma GrowthKeepsFaithful<K(!new), V(!new)>(lt: (K, K) -> bool, keep: Row<K, V> -> bool, first: seq<Row<K, V>>, t: seq<Row<K, V>>,
                                              u: seq<Row<K, V>>, c: Client<K, V>)
    requires Faithful(lt, keep, first, t, c) && GrowsTo(t, u)
    ensures Faithful(lt, keep, first, u, c)
  {
  }

  /** A finished client of a table that stood still has exactly the matching rows, in order. */
  lemma FinishedHasAll<K(!new), V(!new)>(lt: (K, K) -> bool, keep: Row<K, V> -> bool, t: seq<Row<K, V>>, c: Client<K, V>)
    requires TotalOrder(lt) && Ascending(lt, t) && Faithful(lt, keep, t, t, c) && c.finished
    ensures c.got == Where(t, keep)
  {
    WhereSelects(lt, t, keep);
    SameRowsSameTable(lt, c.got, Where(t, keep));
  }

  /** A faithful client has no more rows than the table. */
  lemma FaithfulFits<K(!new), V(!new)>(lt: (K, K) -> bool, keep: Row<K, V> -> bool, first: seq<Row<K, V>>, t: seq<Row<K, V>>,
                                       c: Client<K, V>)
    requires TotalOrder(lt) && Ascending(lt, t) && Faithful(lt, keep, first, t, c)
    ensures |c.got| <= |t|
  {
    NoMoreRows(lt, c.got, t);
  }
}
