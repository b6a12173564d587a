/**
 What the key comparison decides: for which comparisons the fingerprint of a body is
 independent of the order of its keys (src/middleware/idempotency-store.ts).
 `Object.entries` lists array indices first, in ascending order, and other keys as
 inserted, and the sort is stable.
 */
module KeyTies {
  import opened StableSerialize
  import Text

  /** With a tie-free key comparison the printed text decides equality. */
  lemma SerializeDecidesEquality(leq: KeyOrder, a: Json, b: Json)
    requires TotalPreorder(leq) && Antisymmetric(leq)
    requires WellFormed(a) && WellFormed(b)
    ensures Serialize(leq, a) == Serialize(leq, b) <==> Same(a, b)
  {
    if Same(a, b) {
      SameMeansEqualCanon(leq, a, b);
      SerializePrintsCanon(leq, a);
      SerializePrintsCanon(leq, b);
    } else if Serialize(leq, a) == Serialize(leq, b) {
      EqualTextMeansSame(leq, a, b);
    }
  }

  // ----------------------------------------------------- the order of enumeration

  const MAX_ARRAY_LENGTH: nat := 0xFFFF_FFFF

  /** A canonical decimal numeral below 2^32 - 1. */
  ghost predicate ArrayIndex(key: string) {
    exists n: nat :: n < MAX_ARRAY_LENGTH && key == Text.Decimal(n)
  }

  /** `a` is listed before `b` in any object that has both. */
  ghost predicate ListedBefore(a: string, b: string) {
    ArrayIndex(a) && (ArrayIndex(b) ==> Text.Value(a) < Text.Value(b))
  }

  ghost predicate ListedInOrder(entries: seq<Entry>) {
    forall i, j | 0 <= i < j < |entries| :: !ListedBefore(entries[j].key, entries[i].key)
  }

  /** A value whose objects list their entries as `Object.entries` does. */
  ghost predicate Enumerated(v: Json) {
    match v
    case Arr(items) => forall item <- items :: Enumerated(item)
    case Obj(entries) => ListedInOrder(entries) && forall e <- entries :: Enumerated(e.value)
    case _ => true
  }

  /** Two distinct keys tie only if one of them is an array index. */
  ghost predicate TiesNeedIndices(leq: KeyOrder) {
    forall a, b | leq(a, b) && leq(b, a) && !ArrayIndex(a) && !ArrayIndex(b) :: a == b
  }

  /** The comparison that a stable sort of enumerated entries amounts to. */
  ghost function TiesAsListed(leq: KeyOrder): KeyOrder {
    (a, b) => leq(a, b) && !(leq(b, a) && ListedBefore(b, a))
  }

  lemma IndexOfItsValue(key: string)
    requires ArrayIndex(key)
    ensures key == Text.Decimal(Text.Value(key))
  {
    var n: nat :| n < MAX_ARRAY_LENGTH && key == Text.Decimal(n);
    Text.DecimalDenotes(n);
  }

  lemma TiesAsListedIsOrder(leq: KeyOrder)
    requires TotalPreorder(leq)
    ensures TotalPreorder(TiesAsListed(leq))
    ensures TiesNeedIndices(leq) ==> Antisymmetric(TiesAsListed(leq))
  {
    var order := TiesAsListed(leq);
    forall a, b, c | order(a, b) && order(b, c)
      ensures order(a, c)
    {
      assert leq(a, c);
    }
    forall a, b | TiesNeedIndices(leq) && order(a, b) && order(b, a)
      ensures a == b
    {
      if ArrayIndex(a) && ArrayIndex(b) {
        IndexOfItsValue(a);
        IndexOfItsValue(b);
      }
    }
  }

  lemma {:induction false} InsertAsListed(leq: KeyOrder, e: Entry, s: seq<Entry>)
    requires forall f | f in s :: !ListedBefore(f.key, e.key)
    ensures Insert(leq, e, s) == Insert(TiesAsListed(leq), e, s)
  {
    if s == [] {
    } else {
      assert s[0] in s;
      InsertAsListed(leq, e, s[1..]);
    }
  }

  /** On entries in the order of enumeration a stable sort breaks ties by that order. */
  lemma {:induction false} SortAsListed(leq: KeyOrder, s: seq<Entry>)
    requires ListedInOrder(s)
    ensures Sort(leq, s) == Sort(TiesAsListed(leq), s)
  {
    if s == [] {
    } else {
      SortAsListed(leq, s[1..]);
      forall f | f in Sort(leq, s[1..])
        ensures !ListedBefore(f.key, s[0].key)
      {
        assert f in multiset(Sort(leq, s[1..]));
        var j :| 0 <= j < |s[1..]| && s[1..][j] == f;
        assert s[j + 1] == f;
      }
      InsertAsListed(leq, s[0], Sort(leq, s[1..]));
    }
  }

  lemma {:induction false} CanonAsListed(leq: KeyOrder, v: Json)
    requires Enumerated(v)
    ensures Canon(leq, v) == Canon(TiesAsListed(leq), v)
  {
    var order := TiesAsListed(leq);
    match v
    case Arr(items) =>
      forall i | 0 <= i < |items|
        ensures Canon(leq, items[i]) == Canon(order, items[i])
      {
        assert items[i] in items;
        CanonAsListed(leq, items[i]);
      }
      assert CanonItems(leq, items) == CanonItems(order, items);
    case Obj(entries) =>
      forall i | 0 <= i < |entries|
        ensures Canon(leq, entries[i].value) == Canon(order, entries[i].value)
      {
        assert entries[i] in entries;
        CanonAsListed(leq, entries[i].value);
      }
      assert CanonEntries(leq, entries) == CanonEntries(order, entries);
      SortAsListed(leq, CanonEntries(leq, entries));
    case _ =>
  }

  /** For values as the language lists them, a comparison that ties array indices decides equality too. */
  lemma ListedTextDecidesEquality(leq: KeyOrder, a: Json, b: Json)
    requires TotalPreorder(leq) && TiesNeedIndices(leq)
    requires WellFormed(a) && WellFormed(b) && Enumerated(a) && Enumerated(b)
    ensures Serialize(leq, a) == Serialize(leq, b) <==> Same(a, b)
  {
    var order := TiesAsListed(leq);
    TiesAsListedIsOrder(leq);
    CanonAsListed(leq, a);
    CanonAsListed(leq, b);
    SerializePrintsCanon(leq, a);
    SerializePrintsCanon(leq, b);
    SerializePrintsCanon(order, a);
    SerializePrintsCanon(order, b);
    SerializeDecidesEquality(order, a, b);
  }

  ghost predicate KeyOrderInvariant(leq: KeyOrder) {
    forall a, b | WellFormed(a) && WellFormed(b) && Enumerated(a) && Enumerated(b) && Same(a, b) ::
      Serialize(leq, a) == Serialize(leq, b)
  }

  lemma PairCanon(leq: KeyOrder, k: string, l: string)
    requires leq(k, l)
    ensures var v := Obj([Entry(k, Null), Entry(l, Null)]); Canon(leq, v) == v
  {
    var e, f := Entry(k, Null), Entry(l, Null);
    assert [e, f][1..] == [f] && [f][1..] == [];
    assert CanonEntries(leq, [f]) == [f];
    assert CanonEntries(leq, [e, f]) == [e, f];
    assert Sort(leq, [f]) == [f];
    assert Sort(leq, [e, f]) == Insert(leq, e, [f]) == [e, f];
  }

  lemma SwappedPairSame(k: string, l: string)
    requires k != l && !ArrayIndex(k) && !ArrayIndex(l)
    ensures var a, b := Obj([Entry(k, Null), Entry(l, Null)]), Obj([Entry(l, Null), Entry(k, Null)]);
            WellFormed(a) && WellFormed(b) && Enumerated(a) && Enumerated(b) && Same(a, b) && a != b
  {
    var e, f := Entry(k, Null), Entry(l, Null);
    assert [e, f][0] != [f, e][0];
    assert KeySet([e, f]) == KeySet([f, e]) by {
      assert forall g :: g in [e, f] <==> g in [f, e];
    }
  }

  /** Two distinct keys that tie and are no array indices print in insertion order. */
  lemma TieBreaksInvariance(leq: KeyOrder, k: string, l: string)
    requires k != l && !ArrayIndex(k) && !ArrayIndex(l) && leq(k, l) && leq(l, k)
    ensures !KeyOrderInvariant(leq)
  {
    var a, b := Obj([Entry(k, Null), Entry(l, Null)]), Obj([Entry(l, Null), Entry(k, Null)]);
    SwappedPairSame(k, l);
    PairCanon(leq, k, l);
    PairCanon(leq, l, k);
    SerializePrintsCanon(leq, a);
    SerializePrintsCanon(leq, b);
    if Print(a) == Print(b) {
      PrintInjective(a, b);
    }
    assert Serialize(leq, a) != Serialize(leq, b);
  }

  /** Key-order invariance holds exactly for the comparisons that tie no two keys listed as inserted. */
  lemma InvariantIffNoTies(leq: KeyOrder)
    requires TotalPreorder(leq)
    ensures KeyOrderInvariant(leq) <==> TiesNeedIndices(leq)
  {
    if TiesNeedIndices(leq) {
      forall a, b | WellFormed(a) && WellFormed(b) && Enumerated(a) && Enumerated(b) && Same(a, b)
        ensures Serialize(leq, a) == Serialize(leq, b)
      {
        ListedTextDecidesEquality(leq, a, b);
      }
    } else {
      var k, l :| leq(k, l) && leq(l, k) && !ArrayIndex(k) && !ArrayIndex(l) && k != l;
      TieBreaksInvariance(leq, k, l);
    }
  }

  /** SHA-256 is a parameter; only its injectivity is used. */
  function ComputeFingerprint(sha256: string -> string, leq: KeyOrder, body: Json): string {
    sha256(Serialize(leq, body))
  }

  lemma FingerprintDecidesEquality(sha256: string -> string, leq: KeyOrder, a: Json, b: Json)
    requires forall s, t :: sha256(s) == sha256(t) ==> s == t
    requires TotalPreorder(leq) && TiesNeedIndices(leq)
    requires WellFormed(a) && WellFormed(b) && Enumerated(a) && Enumerated(b)
    ensures ComputeFingerprint(sha256, leq, a) == ComputeFingerprint(sha256, leq, b) <==> Same(a, b)
  {
    ListedTextDecidesEquality(leq, a, b);
  }
}
