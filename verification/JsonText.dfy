/**
 The serialised body is a JSON text of the body: read by the grammar of RFC 8259 it is
 the same value, with the members of every object in the order of the key comparison.
 */
module JsonText {
  import opened StableSerialize

  /** The number of a hexadecimal digit (section 7 of RFC 8259). */
  ghost function DigitOf(c: char): int {
    if '0' <= c <= '9' then c as int - 48
    else if 'a' <= c <= 'f' then c as int - 87
    else if 'A' <= c <= 'F' then c as int - 55
    else -1
  }

  /** `piece` stands for the character `c` inside a string: unescaped, a two-character escape, or `\u`. */
  ghost predicate StandsFor(piece: string, c: char) {
    || (piece == [c] && c as int >= 0x20 && c as int != 0x22 && c as int != 0x5C)
    || (|piece| == 2 && piece[0] as int == 0x5C &&
          match piece[1]
          case 'b' => c as int == 8
          case 'f' => c as int == 12
          case 'n' => c as int == 10
          case 'r' => c as int == 13
          case 't' => c as int == 9
          case other => other == c && (c as int == 0x22 || c as int == 0x5C))
    || (|piece| == 6 && piece[0] as int == 0x5C && piece[1] == 'u'
        && (forall i | 2 <= i < 6 :: DigitOf(piece[i]) >= 0)
        && c as int == 4096 * DigitOf(piece[2]) + 256 * DigitOf(piece[3]) + 16 * DigitOf(piece[4]) + DigitOf(piece[5]))
  }

  ghost predicate SpellsCharacters(body: string, text: string)
    decreases |text|
  {
    if text == [] then body == []
    else exists n :: 0 < n <= |body| && StandsFor(body[..n], text[0]) && SpellsCharacters(body[n..], text[1..])
  }

  ghost predicate SpellsString(s: string, text: string) {
    |s| >= 2 && s[0] as int == 0x22 && s[|s| - 1] as int == 0x22 && SpellsCharacters(s[1..|s| - 1], text)
  }

  /** Parts separated by commas. */
  ghost function Joined(parts: seq<string>): string {
    if parts == [] then "" else if |parts| == 1 then parts[0] else parts[0] + [','] + Joined(parts[1..])
  }

  /** A JSON text of the value; the member `undefined`, which JSON lacks, is written as such. */
  ghost predicate Spells(s: string, v: Json)
    decreases v, 2
  {
    match v
    case Undefined => s == "undefined"
    case Null => s == "null"
    case Bool(b) => s == if b then "true" else "false"
    case Num(literal) => s == literal
    case Str(text) => SpellsString(s, text)
    case Arr(items) => exists parts :: s == ['['] + Joined(parts) + [']'] && SpellsItems(parts, items, v)
    case Obj(entries) => exists parts :: s == ['{'] + Joined(parts) + ['}'] && SpellsEntries(parts, entries, v)
  }

  ghost predicate SpellsItems(parts: seq<string>, items: seq<Json>, root: Json)
    requires forall i | 0 <= i < |items| :: items[i] < root
    decreases root, 1
  {
    |parts| == |items| && forall i | 0 <= i < |items| :: Spells(parts[i], items[i])
  }

  ghost predicate SpellsEntries(parts: seq<string>, entries: seq<Entry>, root: Json)
    requires forall i | 0 <= i < |entries| :: entries[i].value < root
    decreases root, 1
  {
    |parts| == |entries| && forall i | 0 <= i < |entries| :: SpellsMember(parts[i], entries[i], root)
  }

  /** A member: its key as a string, a colon and its value. */
  ghost predicate SpellsMember(part: string, e: Entry, root: Json)
    requires e.value < root
    decreases root, 0
  {
    exists key, value :: part == key + [':'] + value && SpellsString(key, e.key) && Spells(value, e.value)
  }

  lemma EscapeStandsFor(c: char)
    ensures StandsFor(EscapeChar(c), c)
  {
    var n := c as int;
    if n < 32 && n != 8 && n != 9 && n != 10 && n != 12 && n != 13 {
      HexDigitIs(n / 16);
      HexDigitIs(n % 16);
    }
  }

  /** As short as it can be: two characters where there is such an escape, six otherwise, in lower case, and only where one is needed. */
  lemma EscapeIsShort(c: char)
    ensures var n, piece := c as int, EscapeChar(c);
            && |piece| == (if n == 8 || n == 9 || n == 10 || n == 12 || n == 13 || n == 0x22 || n == 0x5C then 2
                           else if n < 0x20 then 6 else 1)
            && (|piece| == 6 ==> forall i | 0 <= i < 6 :: !('A' <= piece[i] <= 'Z'))
  {
    var n := c as int;
    if n < 32 && n != 8 && n != 9 && n != 10 && n != 12 && n != 13 {
      HexDigitIs(n / 16);
      HexDigitIs(n % 16);
    }
  }

  lemma HexDigitIs(n: int)
    requires 0 <= n < 16
    ensures DigitOf(HexDigit(n)) == n && !('A' <= HexDigit(n) <= 'Z')
  {
  }

  lemma {:induction false} EscapeSpells(text: string)
    ensures SpellsCharacters(Escape(text), text)
  {
    if text == [] {
    } else {
      var piece, rest := EscapeChar(text[0]), Escape(text[1..]);
      EscapeStandsFor(text[0]);
      EscapeSpells(text[1..]);
      var n := |piece|;
      assert (piece + rest)[..n] == piece && (piece + rest)[n..] == rest;
    }
  }

  lemma QuoteSpells(text: string)
    ensures SpellsString(Quote(text), text)
  {
    EscapeSpells(text);
    var s := Quote(text);
    assert s[1..|s| - 1] == Escape(text);
  }

  lemma {:induction false} PrintSpells(v: Json)
    ensures Spells(Print(v), v)
  {
    match v
    case Str(text) => QuoteSpells(text);
    case Arr(items) =>
      forall i | 0 <= i < |items|
        ensures Spells(Print(items[i]), items[i])
      {
        PrintSpells(items[i]);
      }
      ArraySpells(items, v);
    case Obj(entries) =>
      forall i | 0 <= i < |entries|
        ensures Spells(Print(entries[i].value), entries[i].value)
      {
        PrintSpells(entries[i].value);
      }
      ObjectSpells(entries, v);
    case _ =>
  }

  lemma ArraySpells(items: seq<Json>, v: Json)
    requires v == Arr(items) && forall i | 0 <= i < |items| :: Spells(Print(items[i]), items[i])
    ensures Spells(Print(v), v)
  {
    var parts := seq(|items|, i requires 0 <= i < |items| => Print(items[i]));
    ItemsJoin(items, parts);
    assert SpellsItems(parts, items, v);
    assert Print(v) == ['['] + Joined(parts) + [']'];
  }

  lemma ObjectSpells(entries: seq<Entry>, v: Json)
    requires v == Obj(entries) && forall i | 0 <= i < |entries| :: Spells(Print(entries[i].value), entries[i].value)
    ensures Spells(Print(v), v)
  {
    hide Print, Quote, SpellsString, Spells;
    var parts := seq(|entries|, i requires 0 <= i < |entries| => PrintEntry(entries[i]));
    EntriesJoin(entries, parts);
    forall i | 0 <= i < |entries|
      ensures SpellsMember(parts[i], entries[i], v)
    {
      QuoteSpells(entries[i].key);
      assert parts[i] == Quote(entries[i].key) + [':'] + Print(entries[i].value);
    }
    assert SpellsEntries(parts, entries, v);
    ObjectOfParts(entries, v, parts);
  }

  lemma ObjectOfParts(entries: seq<Entry>, v: Json, parts: seq<string>)
    requires v == Obj(entries) && SpellsEntries(parts, entries, v) && PrintEntries(entries) == Joined(parts)
    ensures Spells(Print(v), v)
  {
    hide SpellsEntries, Joined, PrintEntries;
    assert Print(v) == ['{'] + Joined(parts) + ['}'];
  }

  lemma {:induction false} ItemsJoin(items: seq<Json>, parts: seq<string>)
    requires |parts| == |items| && forall i | 0 <= i < |items| :: parts[i] == Print(items[i])
    ensures PrintItems(items) == Joined(parts)
  {
    if |items| > 1 {
      ItemsJoin(items[1..], parts[1..]);
    }
  }

  lemma {:induction false} EntriesJoin(entries: seq<Entry>, parts: seq<string>)
    requires |parts| == |entries| && forall i | 0 <= i < |entries| :: parts[i] == PrintEntry(entries[i])
    ensures PrintEntries(entries) == Joined(parts)
  {
    if |entries| > 1 {
      EntriesJoin(entries[1..], parts[1..]);
    }
  }

  /** The members of every object are in the order of the comparison. */
  ghost predicate InKeyOrder(leq: KeyOrder, v: Json) {
    match v
    case Arr(items) => forall i | 0 <= i < |items| :: InKeyOrder(leq, items[i])
    case Obj(entries) =>
      && (forall i, j | 0 <= i < j < |entries| :: leq(entries[i].key, entries[j].key))
      && (forall i | 0 <= i < |entries| :: InKeyOrder(leq, entries[i].value))
    case _ => true
  }

  lemma {:induction false} CanonInKeyOrder(leq: KeyOrder, v: Json)
    requires TotalPreorder(leq)
    ensures InKeyOrder(leq, Canon(leq, v))
    decreases v
  {
    match v
    case Arr(items) =>
      forall i | 0 <= i < |items|
        ensures InKeyOrder(leq, Canon(leq, items[i]))
      {
        CanonInKeyOrder(leq, items[i]);
      }
    case Obj(entries) =>
      var s := CanonEntries(leq, entries);
      var sorted := Sort(leq, s);
      SortSorted(leq, s);
      SortedFrom(leq, s);
      forall i | 0 <= i < |sorted|
        ensures InKeyOrder(leq, sorted[i].value)
      {
        var j :| 0 <= j < |s| && s[j] == sorted[i];
        CanonInKeyOrder(leq, entries[j].value);
      }
    case _ =>
  }

  /** The text is JSON for the same value, with every object's members in order. */
  lemma SerializedIsJson(leq: KeyOrder, v: Json)
    requires TotalPreorder(leq) && WellFormed(v)
    ensures exists w :: Spells(Serialize(leq, v), w) && InKeyOrder(leq, w) && Same(v, w)
  {
    var w := Canon(leq, v);
    SerializePrintsCanon(leq, v);
    PrintSpells(w);
    CanonInKeyOrder(leq, v);
    CanonIsSame(leq, v);
  }

  lemma {:induction false} CanonIsSame(leq: KeyOrder, v: Json)
    requires WellFormed(v)
    ensures Same(v, Canon(leq, v))
    decreases v
  {
    match v
    case Arr(items) =>
      forall i | 0 <= i < |items|
        ensures Same(items[i], Canon(leq, items[i]))
      {
        assert items[i] in items;
        CanonIsSame(leq, items[i]);
      }
    case Obj(entries) =>
      var s := CanonEntries(leq, entries);
      var sorted := Sort(leq, s);
      SortedKeys(leq, entries);
      forall i, j | 0 <= i < |entries| && 0 <= j < |sorted| && entries[i].key == sorted[j].key
        ensures Same(entries[i].value, sorted[j].value)
      {
        SortedFrom(leq, s);
        var k :| 0 <= k < |s| && s[k] == sorted[j];
        assert entries[k].key == entries[i].key;
        assert k == i;
        assert entries[i] in entries;
        CanonIsSame(leq, entries[i].value);
      }
    case _ =>
  }

  lemma SortedKeys(leq: KeyOrder, entries: seq<Entry>)
    ensures KeySet(entries) == KeySet(Sort(leq, CanonEntries(leq, entries)))
  {
    var s := CanonEntries(leq, entries);
    var sorted := Sort(leq, s);
    assert forall e :: e in sorted <==> e in multiset(sorted);
    assert multiset(sorted) == multiset(s);
    assert forall e :: e in s <==> e in multiset(s);
    assert forall e :: e in sorted <==> e in s;
    forall key
      ensures key in KeySet(entries) <==> key in KeySet(sorted)
    {
      if e :| e in entries && e.key == key {
        var i :| 0 <= i < |entries| && entries[i] == e;
        assert s[i] in s && s[i].key == key;
        assert s[i] in sorted;
      }
      if f :| f in sorted && f.key == key {
        var i :| 0 <= i < |s| && s[i] == f;
        assert entries[i] in entries;
      }
    }
  }
}
