/**
 The request printer behind the idempotency fingerprint
 (src/middleware/idempotency-store.ts): two request bodies get the same
 fingerprint exactly when they are the same JSON value up to the order of
 object keys.

 A number is represented by the token `JSON.stringify` prints for it, so -0 and
 0 are one value and NaN is no value.  The comparison that sorts the keys
 (`localeCompare`) is a parameter: any total preorder on strings.
 */
module StableSerialize {

  datatype Entry = Entry(key: string, value: Json)

  datatype Json =
    | Undefined
    | Null
    | Bool(b: bool)
    | Num(literal: string)
    | Str(text: string)
    | Arr(items: seq<Json>)
    | Obj(entries: seq<Entry>)

  type KeyOrder = (string, string) -> bool

  ghost predicate TotalPreorder(leq: KeyOrder) {
    && (forall a, b :: leq(a, b) || leq(b, a))
    && (forall a, b, c :: leq(a, b) && leq(b, c) ==> leq(a, c))
  }

  /** No two distinct keys tie. */
  ghost predicate Antisymmetric(leq: KeyOrder) {
    forall a, b :: leq(a, b) && leq(b, a) ==> a == b
  }

  // ---------------------------------------------------------------- printing

  function HexDigit(n: int): char
    requires 0 <= n < 16
  {
    "0123456789abcdef"[n]
  }

  /** How JSON.stringify writes one character inside a string. */
  function EscapeChar(c: char): string {
    if c == '\"' then "\\\""
    else if c == '\\' then "\\\\"
    else if c == '\n' then "\\n"
    else if c == '\r' then "\\r"
    else if c == '\t' then "\\t"
    else if c as int == 8 then "\\b"
    else if c as int == 12 then "\\f"
    else if c as int < 32 then "\\u00" + [HexDigit(c as int / 16), HexDigit(c as int % 16)]
    else [c]
  }

  function Escape(s: string): string {
    if s == [] then [] else EscapeChar(s[0]) + Escape(s[1..])
  }

  function Quote(s: string): string {
    "\"" + Escape(s) + "\""
  }

  function Insert(leq: KeyOrder, e: Entry, s: seq<Entry>): (r: seq<Entry>)
    ensures multiset(r) == multiset{e} + multiset(s)
  {
    if s == [] then [e]
    else if leq(e.key, s[0].key) then [e] + s
    else
      assert s == [s[0]] + s[1..];
      [s[0]] + Insert(leq, e, s[1..])
  }

  /** The stable sort of an object's entries by key. */
  function Sort(leq: KeyOrder, s: seq<Entry>): (r: seq<Entry>)
    ensures multiset(r) == multiset(s)
  {
    if s == [] then []
    else
      assert s == [s[0]] + s[1..];
      Insert(leq, s[0], Sort(leq, s[1..]))
  }

  lemma SortedFrom(leq: KeyOrder, s: seq<Entry>)
    ensures forall i | 0 <= i < |Sort(leq, s)| :: exists j :: 0 <= j < |s| && s[j] == Sort(leq, s)[i]
  {
    forall i | 0 <= i < |Sort(leq, s)|
      ensures exists j :: 0 <= j < |s| && s[j] == Sort(leq, s)[i]
    {
      assert Sort(leq, s)[i] in multiset(Sort(leq, s));
      assert Sort(leq, s)[i] in s;
    }
  }

  function Serialize(leq: KeyOrder, v: Json): string
    decreases v, 1, 0
  {
    match v
    case Undefined => "undefined"
    case Null => "null"
    case Bool(b) => if b then "true" else "false"
    case Num(literal) => literal
    case Str(text) => Quote(text)
    case Arr(items) => "[" + SerializeItems(leq, items, v) + "]"
    case Obj(entries) =>
      var sorted := Sort(leq, entries);
      assert forall i | 0 <= i < |sorted| :: sorted[i].value < v by { SortedFrom(leq, entries); }
      "{" + SerializeEntries(leq, sorted, v) + "}"
  }

  /** Elements of `items`, all below `root`, joined by commas. */
  function SerializeItems(leq: KeyOrder, items: seq<Json>, ghost root: Json): string
    requires forall i | 0 <= i < |items| :: items[i] < root
    decreases root, 0, |items|
  {
    if items == [] then ""
    else if |items| == 1 then Serialize(leq, items[0])
    else Serialize(leq, items[0]) + "," + SerializeItems(leq, items[1..], root)
  }

  function SerializeEntries(leq: KeyOrder, entries: seq<Entry>, ghost root: Json): string
    requires forall i | 0 <= i < |entries| :: entries[i].value < root
    decreases root, 0, |entries|
  {
    if entries == [] then ""
    else
      var first := Quote(entries[0].key) + ":" + Serialize(leq, entries[0].value);
      if |entries| == 1 then first
      else first + "," + SerializeEntries(leq, entries[1..], root)
  }

  // -------------------------------------------------- equality of JSON values

  ghost predicate NumberChar(c: char) {
    '0' <= c <= '9' || c == '-' || c == '+' || c == '.' || c == 'e'
  }

  ghost predicate NumberToken(s: string) {
    s != [] && (s[0] == '-' || '0' <= s[0] <= '9') && forall c <- s :: NumberChar(c)
  }

  ghost predicate DistinctKeys(entries: seq<Entry>) {
    forall i, j | 0 <= i < j < |entries| :: entries[i].key != entries[j].key
  }

  ghost predicate WellFormed(v: Json) {
    match v
    case Num(literal) => NumberToken(literal)
    case Arr(items) => forall item <- items :: WellFormed(item)
    case Obj(entries) => DistinctKeys(entries) && forall e <- entries :: WellFormed(e.value)
    case _ => true
  }

  ghost function KeySet(entries: seq<Entry>): set<string> {
    set e | e in entries :: e.key
  }

  /** Equality of JSON values: objects are unordered collections of entries. */
  ghost predicate Same(a: Json, b: Json)
    decreases a
  {
    match (a, b)
    case (Arr(x), Arr(y)) => |x| == |y| && forall i | 0 <= i < |x| :: Same(x[i], y[i])
    case (Obj(x), Obj(y)) =>
      && KeySet(x) == KeySet(y)
      && forall i, j | 0 <= i < |x| && 0 <= j < |y| && x[i].key == y[j].key ::
           Same(x[i].value, y[j].value)
    case _ => a == b
  }

  // ------------------------------------- serializing = printing a canonical form

  /** The value with every object's entries sorted. */
  ghost function Canon(leq: KeyOrder, v: Json): Json {
    match v
    case Arr(items) => Arr(CanonItems(leq, items))
    case Obj(entries) => Obj(Sort(leq, CanonEntries(leq, entries)))
    case _ => v
  }

  ghost function CanonItems(leq: KeyOrder, items: seq<Json>): (r: seq<Json>)
    ensures |r| == |items|
    ensures forall i | 0 <= i < |r| :: r[i] == Canon(leq, items[i])
  {
    if items == [] then [] else [Canon(leq, items[0])] + CanonItems(leq, items[1..])
  }

  ghost function CanonEntries(leq: KeyOrder, entries: seq<Entry>): (r: seq<Entry>)
    ensures |r| == |entries|
    ensures forall i | 0 <= i < |r| :: r[i] == Entry(entries[i].key, Canon(leq, entries[i].value))
  {
    if entries == [] then []
    else [Entry(entries[0].key, Canon(leq, entries[0].value))] + CanonEntries(leq, entries[1..])
  }

  /** Prints a value in the entry order it has. */
  ghost function Print(v: Json): string {
    match v
    case Undefined => "undefined"
    case Null => "null"
    case Bool(b) => if b then "true" else "false"
    case Num(literal) => literal
    case Str(text) => Quote(text)
    case Arr(items) => "[" + PrintItems(items) + "]"
    case Obj(entries) => "{" + PrintEntries(entries) + "}"
  }

  ghost function PrintItems(items: seq<Json>): string {
    if items == [] then ""
    else if |items| == 1 then Print(items[0])
    else Print(items[0]) + "," + PrintItems(items[1..])
  }

  ghost function PrintEntry(e: Entry): string {
    Quote(e.key) + ":" + Print(e.value)
  }

  ghost function PrintEntries(entries: seq<Entry>): string {
    if entries == [] then ""
    else if |entries| == 1 then PrintEntry(entries[0])
    else PrintEntry(entries[0]) + "," + PrintEntries(entries[1..])
  }

  lemma {:induction false} InsertCommutesWithCanon(leq: KeyOrder, e: Entry, s: seq<Entry>)
    ensures CanonEntries(leq, Insert(leq, e, s))
         == Insert(leq, Entry(e.key, Canon(leq, e.value)), CanonEntries(leq, s))
  {
    if s != [] && !leq(e.key, s[0].key) {
      InsertCommutesWithCanon(leq, e, s[1..]);
      assert CanonEntries(leq, s)[1..] == CanonEntries(leq, s[1..]);
    }
  }

  lemma {:induction false} SortCommutesWithCanon(leq: KeyOrder, s: seq<Entry>)
    ensures CanonEntries(leq, Sort(leq, s)) == Sort(leq, CanonEntries(leq, s))
  {
    if s == [] {
    } else {
      SortCommutesWithCanon(leq, s[1..]);
      InsertCommutesWithCanon(leq, s[0], Sort(leq, s[1..]));
      assert CanonEntries(leq, s)[1..] == CanonEntries(leq, s[1..]);
    }
  }

  lemma {:induction false} SerializePrintsCanon(leq: KeyOrder, v: Json)
    ensures Serialize(leq, v) == Print(Canon(leq, v))
    decreases v, 1, 0
  {
    match v
    case Arr(items) => SerializeItemsPrintsCanon(leq, items, v);
    case Obj(entries) =>
      SortedFrom(leq, entries);
      SerializeEntriesPrintsCanon(leq, Sort(leq, entries), v);
      SortCommutesWithCanon(leq, entries);
    case _ =>
  }

  lemma {:induction false} SerializeItemsPrintsCanon(leq: KeyOrder, items: seq<Json>, root: Json)
    requires forall i | 0 <= i < |items| :: items[i] < root
    ensures SerializeItems(leq, items, root) == PrintItems(CanonItems(leq, items))
    decreases root, 0, |items|
  {
    if items == [] {
    } else {
      SerializePrintsCanon(leq, items[0]);
      SerializeItemsPrintsCanon(leq, items[1..], root);
      assert CanonItems(leq, items)[1..] == CanonItems(leq, items[1..]);
    }
  }

  lemma {:induction false} SerializeEntriesPrintsCanon(leq: KeyOrder, entries: seq<Entry>, root: Json)
    requires forall i | 0 <= i < |entries| :: entries[i].value < root
    ensures SerializeEntries(leq, entries, root) == PrintEntries(CanonEntries(leq, entries))
    decreases root, 0, |entries|
  {
    if entries == [] {
    } else {
      SerializePrintsCanon(leq, entries[0].value);
      SerializeEntriesPrintsCanon(leq, entries[1..], root);
      assert CanonEntries(leq, entries)[1..] == CanonEntries(leq, entries[1..]);
    }
  }

  // ------------------------------------------------- the printer is unambiguous

  /** What may follow a value inside a printed text. */
  ghost predicate Follows(s: string) {
    s == [] || s[0] == ',' || s[0] == ']' || s[0] == '}'
  }

  ghost function HexValue(c: char): int {
    if '0' <= c <= '9' then c as int - '0' as int else c as int - 'a' as int + 10
  }

  /** The code and the length of the escaped character at the head of `u`. */
  ghost function Decode(u: string): (int, nat)
    requires u != []
  {
    if u[0] != '\\' || |u| == 1 then (u[0] as int, 1)
    else if u[1] == 'u' && |u| > 5 then (HexValue(u[4]) * 16 + HexValue(u[5]), 6)
    else
      var code :=
        if u[1] == 'n' then 10
        else if u[1] == 'r' then 13
        else if u[1] == 't' then 9
        else if u[1] == 'b' then 8
        else if u[1] == 'f' then 12
        else u[1] as int;
      (code, 2)
  }

  lemma HexDigitValue(n: int)
    requires 0 <= n < 16
    ensures HexValue(HexDigit(n)) == n
  {
    assert n == 0 || n == 1 || n == 2 || n == 3 || n == 4 || n == 5 || n == 6 || n == 7
        || n == 8 || n == 9 || n == 10 || n == 11 || n == 12 || n == 13 || n == 14 || n == 15;
  }

  lemma DecodeEscaped(c: char, s: string)
    ensures Decode(EscapeChar(c) + s) == (c as int, |EscapeChar(c)|)
  {
    var e := EscapeChar(c);
    if |e| == 6 {
      DecodeUnicode(c, s);
    } else {
      var u := e + s;
      assert forall k | 0 <= k < |e| :: u[k] == e[k];
    }
  }

  lemma DecodeUnicode(c: char, s: string)
    requires c as int < 32
    ensures var e := "\\u00" + [HexDigit(c as int / 16), HexDigit(c as int % 16)];
            Decode(e + s) == (c as int, 6)
  {
    var e := "\\u00" + [HexDigit(c as int / 16), HexDigit(c as int % 16)];
    var u := e + s;
    assert forall k | 0 <= k < 6 :: u[k] == e[k];
    HexDigitValue(c as int / 16);
    HexDigitValue(c as int % 16);
  }

  lemma EscapeCharSelfDelimiting(c: char, d: char, s: string, t: string)
    requires EscapeChar(c) + s == EscapeChar(d) + t
    ensures c == d && s == t
  {
    DecodeEscaped(c, s);
    DecodeEscaped(d, t);
    var e, f := EscapeChar(c), EscapeChar(d);
    assert s == (e + s)[|e|..] && t == (f + t)[|f|..];
  }

  /** An escaped text meets its closing quote only at its end. */
  lemma EscapeEnds(a: string, s: string)
    ensures (Escape(a) + ("\"" + s))[0] == '\"' <==> a == []
  {
    if a != [] {
      assert EscapeChar(a[0]) != [] && EscapeChar(a[0])[0] != '\"';
    }
  }

  lemma EscapeStep(a: string, p: string)
    requires a != []
    ensures Escape(a) + p == EscapeChar(a[0]) + (Escape(a[1..]) + p)
  {
  }

  lemma {:induction false} EscapeSelfDelimiting(a: string, b: string, s: string, t: string)
    requires Escape(a) + ("\"" + s) == Escape(b) + ("\"" + t)
    ensures a == b && s == t
  {
    var p, q := "\"" + s, "\"" + t;
    EscapeEnds(a, s);
    EscapeEnds(b, t);
    if a == [] {
      assert [] + p == p && [] + q == q;
      assert s == p[1..] && t == q[1..];
    } else {
      EscapeStep(a, p);
      EscapeStep(b, q);
      EscapeCharSelfDelimiting(a[0], b[0], Escape(a[1..]) + p, Escape(b[1..]) + q);
      EscapeSelfDelimiting(a[1..], b[1..], s, t);
      assert a == [a[0]] + a[1..] && b == [b[0]] + b[1..];
    }
  }

  /** Drops the one-character opening bracket of a bracketed text. */
  lemma Unwrap(open: string, inner: string, close: string, s: string)
    requires |open| == |close| == 1
    ensures (open + inner + close + s)[1..] == inner + (close + s)
    ensures (close + s)[0] == close[0] && (close + s)[1..] == s
  {
  }

  lemma QuoteSelfDelimiting(a: string, b: string, s: string, t: string)
    requires Quote(a) + s == Quote(b) + t
    ensures a == b && s == t
  {
    Unwrap("\"", Escape(a), "\"", s);
    Unwrap("\"", Escape(b), "\"", t);
    EscapeSelfDelimiting(a, b, s, t);
  }

  /** The number token at the head of `u` ends where its number characters end. */
  lemma {:induction false} NumberSelfDelimiting(a: string, b: string, s: string, t: string)
    requires forall c <- a :: NumberChar(c)
    requires forall c <- b :: NumberChar(c)
    requires Follows(s) && Follows(t)
    requires a + s == b + t
    ensures a == b && s == t
  {
    NumberHead(a, s);
    NumberHead(b, t);
    if a == [] {
    } else {
      assert (a + s)[1..] == a[1..] + s && (b + t)[1..] == b[1..] + t;
      NumberSelfDelimiting(a[1..], b[1..], s, t);
      assert a == [a[0]] + a[1..] && b == [b[0]] + b[1..];
    }
  }

  lemma NumberHead(a: string, s: string)
    requires forall c <- a :: NumberChar(c)
    requires Follows(s)
    ensures a == [] ==> a + s == s
    ensures a != [] ==> (a + s)[0] == a[0] && !Follows(a + s)
  {
    assert a != [] ==> NumberChar(a[0]);
  }

  /** The first character of a printed value tells its constructor. */
  ghost function Head(v: Json): char
    requires v.Num? ==> v.literal != []
  {
    match v
    case Undefined => 'u'
    case Null => 'n'
    case Bool(b) => if b then 't' else 'f'
    case Num(literal) => literal[0]
    case Str(_) => '\"'
    case Arr(_) => '['
    case Obj(_) => '{'
  }

  lemma PrintHead(v: Json, s: string)
    requires WellFormed(v)
    ensures Print(v) != [] && (Print(v) + s)[0] == Head(v)
    ensures !Follows(Print(v) + s)
  {
  }

  lemma SameHead(x: Json, y: Json)
    requires WellFormed(x) && WellFormed(y)
    requires Head(x) == Head(y)
    ensures x.Num? <==> y.Num?
    ensures x.Str? <==> y.Str?
    ensures x.Arr? <==> y.Arr?
    ensures x.Obj? <==> y.Obj?
    ensures x.Num? || x.Str? || x.Arr? || x.Obj? || x == y
  {
  }

  lemma {:induction false} PrintSelfDelimiting(x: Json, y: Json, s: string, t: string)
    requires WellFormed(x) && WellFormed(y)
    requires Follows(s) && Follows(t)
    requires Print(x) + s == Print(y) + t
    ensures x == y && s == t
    decreases x, 1
  {
    PrintHead(x, s);
    PrintHead(y, t);
    SameHead(x, y);
    if x.Num? {
      NumberSelfDelimiting(x.literal, y.literal, s, t);
    } else if x.Str? {
      QuoteSelfDelimiting(x.text, y.text, s, t);
    } else if x.Arr? {
      ArraySelfDelimiting(x, y, s, t);
    } else if x.Obj? {
      ObjectSelfDelimiting(x, y, s, t);
    } else {
      assert s == (Print(x) + s)[|Print(x)|..] && t == (Print(y) + t)[|Print(y)|..];
    }
  }

  lemma {:induction false} ArraySelfDelimiting(x: Json, y: Json, s: string, t: string)
    requires x.Arr? && y.Arr? && WellFormed(x) && WellFormed(y)
    requires Print(x) + s == Print(y) + t
    ensures x == y && s == t
    decreases x, 0
  {
    var a, b := x.items, y.items;
    Unwrap("[", PrintItems(a), "]", s);
    Unwrap("[", PrintItems(b), "]", t);
    PrintItemsSelfDelimiting(a, b, "]" + s, "]" + t);
  }

  lemma {:induction false} ObjectSelfDelimiting(x: Json, y: Json, s: string, t: string)
    requires x.Obj? && y.Obj? && WellFormed(x) && WellFormed(y)
    requires Print(x) + s == Print(y) + t
    ensures x == y && s == t
    decreases x, 0
  {
    var a, b := x.entries, y.entries;
    Unwrap("{", PrintEntries(a), "}", s);
    Unwrap("{", PrintEntries(b), "}", t);
    PrintEntriesSelfDelimiting(a, b, "}" + s, "}" + t);
  }

  lemma {:induction false} PrintItemsSelfDelimiting(x: seq<Json>, y: seq<Json>, s: string, t: string)
    requires forall item <- x :: WellFormed(item)
    requires forall item <- y :: WellFormed(item)
    requires s != [] && s[0] == ']' && t != [] && t[0] == ']'
    requires PrintItems(x) + s == PrintItems(y) + t
    ensures x == y && s == t
    decreases x, 2
  {
    hide Print, WellFormed, PrintItems;
    ItemsHead(x, s);
    ItemsHead(y, t);
    if x == [] {
    } else {
      PrintItemsStep(x, s);
      PrintItemsStep(y, t);
      PrintSelfDelimiting(x[0], y[0], AfterFirstItem(x, s), AfterFirstItem(y, t));
      if |x| > 1 {
        assert |y| > 1 by { assert AfterFirstItem(x, s)[0] == AfterFirstItem(y, t)[0]; }
        CommaAssociates("", PrintItems(x[1..]), s);
        CommaAssociates("", PrintItems(y[1..]), t);
        PrintItemsSelfDelimiting(x[1..], y[1..], s, t);
      }
      assert x == [x[0]] + x[1..] && y == [y[0]] + y[1..];
    }
  }

  /** What follows the first item of `x` in a printed array. */
  ghost function AfterFirstItem(x: seq<Json>, s: string): string
    requires x != []
  {
    if |x| == 1 then s else "," + (PrintItems(x[1..]) + s)
  }

  lemma PrintItemsStep(x: seq<Json>, s: string)
    requires x != []
    ensures PrintItems(x) + s == Print(x[0]) + AfterFirstItem(x, s)
  {
    if |x| > 1 {
      CommaAssociates(Print(x[0]), PrintItems(x[1..]), s);
    }
  }

  lemma ItemsHead(x: seq<Json>, s: string)
    requires x != [] ==> WellFormed(x[0])
    ensures x == [] ==> PrintItems(x) + s == s
    ensures x != [] ==> !Follows(PrintItems(x) + s)
  {
    if x != [] {
      PrintItemsStep(x, s);
      PrintHead(x[0], AfterFirstItem(x, s));
    }
  }

  lemma {:induction false} PrintEntrySelfDelimiting(e: Entry, f: Entry, p: string, q: string)
    requires WellFormed(e.value) && WellFormed(f.value)
    requires Follows(p) && Follows(q)
    requires PrintEntry(e) + p == PrintEntry(f) + q
    ensures e == f && p == q
    decreases e.value, 2
  {
    var k, l, v, w := Quote(e.key), Quote(f.key), Print(e.value), Print(f.value);
    Reassociate(k, v, p);
    Reassociate(l, w, q);
    QuoteSelfDelimiting(e.key, f.key, ":" + (v + p), ":" + (w + q));
    assert v + p == (":" + (v + p))[1..] && w + q == (":" + (w + q))[1..];
    PrintSelfDelimiting(e.value, f.value, p, q);
  }

  lemma Reassociate(k: string, v: string, p: string)
    ensures k + ":" + v + p == k + (":" + (v + p))
  {
  }

  lemma PrintEntryHead(e: Entry)
    ensures PrintEntry(e) != [] && PrintEntry(e)[0] == '\"'
  {
    assert Quote(e.key)[0] == '\"';
  }

  /** What follows the first entry of `x` in a printed object. */
  ghost function AfterFirst(x: seq<Entry>, s: string): string
    requires x != []
  {
    if |x| == 1 then s else "," + (PrintEntries(x[1..]) + s)
  }

  lemma PrintEntriesStep(x: seq<Entry>, s: string)
    requires x != []
    ensures PrintEntries(x) + s == PrintEntry(x[0]) + AfterFirst(x, s)
  {
    if |x| > 1 {
      CommaAssociates(PrintEntry(x[0]), PrintEntries(x[1..]), s);
    }
  }

  lemma CommaAssociates(first: string, rest: string, s: string)
    ensures first + "," + rest + s == first + ("," + (rest + s))
    ensures ("," + (rest + s))[0] == ',' && ("," + (rest + s))[1..] == rest + s
  {
  }

  lemma {:induction false} PrintEntriesSelfDelimiting(x: seq<Entry>, y: seq<Entry>, s: string, t: string)
    requires forall e <- x :: WellFormed(e.value)
    requires forall e <- y :: WellFormed(e.value)
    requires s != [] && s[0] == '}' && t != [] && t[0] == '}'
    requires PrintEntries(x) + s == PrintEntries(y) + t
    ensures x == y && s == t
    decreases x, 2
  {
    PrintEntriesHead(x, s);
    PrintEntriesHead(y, t);
    if x != [] {
      PrintEntriesStep(x, s);
      PrintEntriesStep(y, t);
      PrintEntrySelfDelimiting(x[0], y[0], AfterFirst(x, s), AfterFirst(y, t));
      if |x| > 1 {
        assert |y| > 1 by { assert AfterFirst(x, s)[0] == AfterFirst(y, t)[0]; }
        PrintEntriesTail(x, y, s, t);
      }
      assert x == [x[0]] + x[1..] && y == [y[0]] + y[1..];
    }
  }

  lemma {:induction false} PrintEntriesTail(x: seq<Entry>, y: seq<Entry>, s: string, t: string)
    requires |x| > 1 && |y| > 1
    requires forall e <- x :: WellFormed(e.value)
    requires forall e <- y :: WellFormed(e.value)
    requires s != [] && s[0] == '}' && t != [] && t[0] == '}'
    requires AfterFirst(x, s) == AfterFirst(y, t)
    ensures x[1..] == y[1..] && s == t
    decreases x, 1
  {
    assert PrintEntries(x[1..]) + s == AfterFirst(x, s)[1..];
    assert PrintEntries(y[1..]) + t == AfterFirst(y, t)[1..];
    PrintEntriesSelfDelimiting(x[1..], y[1..], s, t);
  }

  lemma PrintEntriesHead(x: seq<Entry>, s: string)
    ensures x == [] ==> PrintEntries(x) + s == s
    ensures x != [] ==> PrintEntries(x) + s != [] && (PrintEntries(x) + s)[0] == '\"'
  {
    if x != [] {
      PrintEntryHead(x[0]);
      PrintEntriesStep(x, s);
    }
  }

  // ------------------------------------------ canonical forms decide equality

  lemma SortedKeepsElements(leq: KeyOrder, s: seq<Entry>, e: Entry)
    ensures e in Sort(leq, s) <==> e in s
  {
    assert e in Sort(leq, s) <==> e in multiset(Sort(leq, s));
  }

  lemma {:induction false} CanonWellFormed(leq: KeyOrder, v: Json)
    requires WellFormed(v)
    ensures WellFormed(Canon(leq, v))
  {
    match v
    case Arr(items) =>
      forall i | 0 <= i < |items| ensures WellFormed(Canon(leq, items[i])) {
        CanonWellFormed(leq, items[i]);
      }
    case Obj(entries) =>
      var canon := CanonEntries(leq, entries);
      forall i | 0 <= i < |entries| ensures WellFormed(canon[i].value) {
        CanonWellFormed(leq, entries[i].value);
      }
      forall e | e in Sort(leq, canon) ensures WellFormed(e.value) {
        SortedKeepsElements(leq, canon, e);
      }
      DistinctKeysPermute(canon, Sort(leq, canon));
    case _ =>
  }

  lemma DistinctKeysPermute(s: seq<Entry>, t: seq<Entry>)
    requires DistinctKeys(s) && multiset(s) == multiset(t)
    ensures DistinctKeys(t)
  {
    forall i, j | 0 <= i < j < |t| ensures t[i].key != t[j].key {
      if t[i].key == t[j].key {
        assert t[i] in multiset(t) && t[j] in multiset(t);
        assert t[i] in s && t[j] in s;
        assert t[i] == t[j];
        assert t == t[..i] + [t[i]] + t[i+1..j] + [t[j]] + t[j+1..];
        assert multiset(t)[t[i]] >= 2;
        OneOccurrence(s, t[i]);
      }
    }
  }

  lemma {:induction false} OneOccurrence(s: seq<Entry>, e: Entry)
    requires DistinctKeys(s)
    ensures multiset(s)[e] <= 1
  {
    if s == [] {
    } else {
      assert s == [s[0]] + s[1..];
      OneOccurrence(s[1..], e);
      assert s[0] == e ==> e !in s[1..];
    }
  }

  lemma EqualCanonKeys(leq: KeyOrder, x: seq<Entry>, y: seq<Entry>)
    requires DistinctKeys(x) && DistinctKeys(y)
    requires Canon(leq, Obj(x)) == Canon(leq, Obj(y))
    ensures KeySet(x) == KeySet(y)
  {
    SortedMeansSameElements(leq, CanonEntries(leq, x), CanonEntries(leq, y));
    KeysIncluded(leq, x, y);
    KeysIncluded(leq, y, x);
  }

  lemma EqualCanonValues(leq: KeyOrder, x: seq<Entry>, y: seq<Entry>)
    requires DistinctKeys(y)
    requires Canon(leq, Obj(x)) == Canon(leq, Obj(y))
    ensures forall i, j | 0 <= i < |x| && 0 <= j < |y| && x[i].key == y[j].key ::
              Canon(leq, x[i].value) == Canon(leq, y[j].value)
  {
    SortedMeansSameElements(leq, CanonEntries(leq, x), CanonEntries(leq, y));
    ValuesAgree(leq, x, y);
  }

  lemma {:induction false} EqualCanonMeansSame(leq: KeyOrder, a: Json, b: Json)
    requires WellFormed(a) && WellFormed(b)
    requires Canon(leq, a) == Canon(leq, b)
    ensures Same(a, b)
    decreases a
  {
    match (a, b)
    case (Arr(x), Arr(y)) =>
      forall i | 0 <= i < |x| ensures Same(x[i], y[i]) {
        assert CanonItems(leq, x)[i] == CanonItems(leq, y)[i];
        EqualCanonMeansSame(leq, x[i], y[i]);
      }
    case (Obj(x), Obj(y)) =>
      EqualCanonValues(leq, x, y);
      forall i, j | 0 <= i < |x| && 0 <= j < |y| && x[i].key == y[j].key
        ensures Same(x[i].value, y[j].value)
      {
        EqualCanonMeansSame(leq, x[i].value, y[j].value);
      }
      EqualCanonKeys(leq, x, y);
    case _ =>
  }

  lemma SortedMeansSameElements(leq: KeyOrder, s: seq<Entry>, t: seq<Entry>)
    requires Sort(leq, s) == Sort(leq, t)
    ensures forall e :: e in s <==> e in t
  {
    forall e ensures e in s <==> e in t {
      SortedKeepsElements(leq, s, e);
      SortedKeepsElements(leq, t, e);
    }
  }

  /** Every key of `x` is a key of `y`, with the same canonical value. */
  lemma CanonEntryFound(leq: KeyOrder, x: seq<Entry>, y: seq<Entry>, i: nat)
    requires i < |x| && CanonEntries(leq, x)[i] in CanonEntries(leq, y)
    requires DistinctKeys(y)
    ensures x[i].key in KeySet(y)
    ensures forall j | 0 <= j < |y| && x[i].key == y[j].key ::
              Canon(leq, x[i].value) == Canon(leq, y[j].value)
  {
    var cy := CanonEntries(leq, y);
    var j :| 0 <= j < |cy| && cy[j] == CanonEntries(leq, x)[i];
    assert y[j] in y;
  }

  lemma KeysIncluded(leq: KeyOrder, x: seq<Entry>, y: seq<Entry>)
    requires DistinctKeys(y)
    requires forall e :: e in CanonEntries(leq, x) ==> e in CanonEntries(leq, y)
    ensures KeySet(x) <= KeySet(y)
  {
    forall i: nat | i < |x| ensures x[i].key in KeySet(y) {
      assert CanonEntries(leq, x)[i] in CanonEntries(leq, x);
      CanonEntryFound(leq, x, y, i);
    }
  }

  lemma ValuesAgree(leq: KeyOrder, x: seq<Entry>, y: seq<Entry>)
    requires DistinctKeys(y)
    requires forall e :: e in CanonEntries(leq, x) ==> e in CanonEntries(leq, y)
    ensures forall i, j | 0 <= i < |x| && 0 <= j < |y| && x[i].key == y[j].key ::
              Canon(leq, x[i].value) == Canon(leq, y[j].value)
  {
    forall i: nat, j | i < |x| && 0 <= j < |y| && x[i].key == y[j].key
      ensures Canon(leq, x[i].value) == Canon(leq, y[j].value)
    {
      assert CanonEntries(leq, x)[i] in CanonEntries(leq, x);
      CanonEntryFound(leq, x, y, i);
    }
  }

  ghost predicate Sorted(leq: KeyOrder, s: seq<Entry>) {
    forall i, j | 0 <= i < j < |s| :: leq(s[i].key, s[j].key)
  }

  lemma {:induction false} InsertSorted(leq: KeyOrder, e: Entry, s: seq<Entry>)
    requires TotalPreorder(leq) && Sorted(leq, s)
    ensures Sorted(leq, Insert(leq, e, s))
  {
    if s != [] && !leq(e.key, s[0].key) {
      InsertSorted(leq, e, s[1..]);
      var r := Insert(leq, e, s[1..]);
      forall i | 0 <= i < |r| ensures leq(s[0].key, r[i].key) {
        assert r[i] in multiset(r);
        assert r[i] == e || r[i] in s[1..];
      }
    }
  }

  lemma {:induction false} SortSorted(leq: KeyOrder, s: seq<Entry>)
    requires TotalPreorder(leq)
    ensures Sorted(leq, Sort(leq, s))
  {
    if s == [] {
    } else {
      SortSorted(leq, s[1..]);
      InsertSorted(leq, s[0], Sort(leq, s[1..]));
    }
  }

  lemma EmptyTogether(s: seq<Entry>, t: seq<Entry>)
    requires forall e :: e in s <==> e in t
    ensures s == [] <==> t == []
  {
    if s != [] { assert s[0] in s; }
    if t != [] { assert t[0] in t; }
  }

  /** Without ties a set of entries has one sorted arrangement. */
  lemma {:induction false} SortedUnique(leq: KeyOrder, s: seq<Entry>, t: seq<Entry>)
    requires TotalPreorder(leq) && Antisymmetric(leq)
    requires Sorted(leq, s) && Sorted(leq, t) && DistinctKeys(s) && DistinctKeys(t)
    requires forall e :: e in s <==> e in t
    ensures s == t
  {
    EmptyTogether(s, t);
    if s == [] {
    } else {
      assert s[0] in t;
      assert t[0] in s;
      assert s[0].key == t[0].key;
      assert s[0] == t[0];
      forall e ensures e in s[1..] <==> e in t[1..] {
        assert e in s <==> e == s[0] || e in s[1..];
        assert e in t <==> e == t[0] || e in t[1..];
      }
      SortedUnique(leq, s[1..], t[1..]);
      assert s == [s[0]] + s[1..] && t == [t[0]] + t[1..];
    }
  }

  lemma SortIgnoresOrder(leq: KeyOrder, s: seq<Entry>, t: seq<Entry>)
    requires TotalPreorder(leq) && Antisymmetric(leq)
    requires DistinctKeys(s) && DistinctKeys(t)
    requires forall e :: e in s <==> e in t
    ensures Sort(leq, s) == Sort(leq, t)
  {
    forall e ensures e in Sort(leq, s) <==> e in Sort(leq, t) {
      SortedKeepsElements(leq, s, e);
      SortedKeepsElements(leq, t, e);
    }
    SortSorted(leq, s);
    SortSorted(leq, t);
    DistinctKeysPermute(s, Sort(leq, s));
    DistinctKeysPermute(t, Sort(leq, t));
    SortedUnique(leq, Sort(leq, s), Sort(leq, t));
  }

  lemma SameCanonEntries(leq: KeyOrder, x: seq<Entry>, y: seq<Entry>)
    requires KeySet(x) <= KeySet(y)
    requires forall i, j | 0 <= i < |x| && 0 <= j < |y| && x[i].key == y[j].key ::
               Canon(leq, x[i].value) == Canon(leq, y[j].value)
    ensures forall e :: e in CanonEntries(leq, x) ==> e in CanonEntries(leq, y)
  {
    var cx, cy := CanonEntries(leq, x), CanonEntries(leq, y);
    forall e | e in cx ensures e in cy {
      var i :| 0 <= i < |cx| && cx[i] == e;
      assert x[i] in x && x[i].key in KeySet(y);
      var j :| 0 <= j < |y| && y[j].key == x[i].key;
      assert cy[j] == cx[i];
    }
  }

  lemma {:induction false} SameMeansEqualCanon(leq: KeyOrder, a: Json, b: Json)
    requires TotalPreorder(leq) && Antisymmetric(leq)
    requires WellFormed(a) && WellFormed(b) && Same(a, b)
    ensures Canon(leq, a) == Canon(leq, b)
    decreases a
  {
    match (a, b)
    case (Arr(x), Arr(y)) =>
      forall i | 0 <= i < |x| ensures CanonItems(leq, x)[i] == CanonItems(leq, y)[i] {
        SameMeansEqualCanon(leq, x[i], y[i]);
      }
      assert CanonItems(leq, x) == CanonItems(leq, y);
    case (Obj(x), Obj(y)) =>
      forall i, j | 0 <= i < |x| && 0 <= j < |y| && x[i].key == y[j].key
        ensures Canon(leq, x[i].value) == Canon(leq, y[j].value)
      {
        SameMeansEqualCanon(leq, x[i].value, y[j].value);
      }
      SameCanonEntries(leq, x, y);
      SameCanonEntries(leq, y, x);
      SortIgnoresOrder(leq, CanonEntries(leq, x), CanonEntries(leq, y));
    case _ =>
  }

  // --------------------------------------------------------------- main results

  lemma PrintInjective(x: Json, y: Json)
    requires WellFormed(x) && WellFormed(y) && Print(x) == Print(y)
    ensures x == y
  {
    assert Print(x) + [] == Print(y) + [];
    PrintSelfDelimiting(x, y, [], []);
  }

  /** Two bodies that print alike are the same value, whatever the key order. */
  lemma EqualTextMeansSame(leq: KeyOrder, a: Json, b: Json)
    requires WellFormed(a) && WellFormed(b)
    requires Serialize(leq, a) == Serialize(leq, b)
    ensures Same(a, b)
  {
    SerializePrintsCanon(leq, a);
    SerializePrintsCanon(leq, b);
    CanonWellFormed(leq, a);
    CanonWellFormed(leq, b);
    PrintInjective(Canon(leq, a), Canon(leq, b));
    EqualCanonMeansSame(leq, a, b);
  }
}
