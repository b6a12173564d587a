/**
 Address normalisation behind a bounded cache of recently used inputs
 (src/utils/address.ts). The checksum function of the Starknet library is a parameter.
 */
module AddressCache {
  import opened Common
  import opened RecentlyUsed
  import opened Text

  const STARKNET_ADDRESS_HEX_LENGTH: nat := 64
  const ADDRESS_NORMALIZATION_CACHE_MAX_ENTRIES: nat := 1024

  datatype Rejection = Required | NotHex | TooLong | BadChecksum
  datatype Result = Ok(canonical: string) | Err(why: Rejection)

  // ---------------------------------------------------------------------------
  // The canonical form
  // ---------------------------------------------------------------------------

  function LowerChar(c: char): char {
    if 'A' <= c <= 'Z' then (c as int + 32) as char else c
  }

  function Lower(s: string): (r: string)
    ensures |r| == |s|
    ensures forall i | 0 <= i < |s| :: r[i] == LowerChar(s[i])
  {
    if s == [] then [] else Lower(s[..|s| - 1]) + [LowerChar(s[|s| - 1])]
  }

  predicate HasPrefix(s: string, c: char) {
    2 <= |s| && s[0] == '0' && s[1] == c
  }

  /** The digits of a lower-case input, after an optional `0x`. */
  function HexPart(trimmed: string): string {
    var lower := Lower(trimmed);
    if HasPrefix(lower, 'x') then lower[2..] else lower
  }

  predicate IsHexDigit(c: char) {
    '0' <= c <= '9' || 'a' <= c <= 'f'
  }

  predicate IsHex(s: string) {
    forall i | 0 <= i < |s| :: IsHexDigit(s[i])
  }

  function StripZeros(s: string): string {
    if s != [] && s[0] == '0' then StripZeros(s[1..]) else s
  }

  function Stripped(s: string): string {
    if StripZeros(s) == [] then "0" else StripZeros(s)
  }

  function RawHex(trimmed: string): string {
    if HasPrefix(trimmed, 'x') || HasPrefix(trimmed, 'X') then trimmed[2..] else trimmed
  }

  /** A mixed-case input asserts a checksum. */
  predicate AssertsChecksum(raw: string) {
    && (exists i | 0 <= i < |raw| :: 'A' <= raw[i] <= 'F')
    && (exists i | 0 <= i < |raw| :: 'a' <= raw[i] <= 'f')
  }

  function Canonical(hex: string): string {
    "0x" + Padded(Stripped(hex), STARKNET_ADDRESS_HEX_LENGTH)
  }

  /** Everything after the cache lookup. */
  function Canonicalize(checksum: string -> string, trimmed: string): Result {
    var hex := HexPart(trimmed);
    if hex == [] || !IsHex(hex) then Err(NotHex)
    else if |Stripped(hex)| > STARKNET_ADDRESS_HEX_LENGTH then Err(TooLong)
    else
      var raw := RawHex(trimmed);
      if AssertsChecksum(raw) && "0x" + Padded(Stripped(raw), STARKNET_ADDRESS_HEX_LENGTH) != checksum(Canonical(hex)) then Err(BadChecksum)
      else Ok(Canonical(hex))
  }

  /** The function without the cache. */
  function Normalize(checksum: string -> string, address: string): Result {
    if Trim(address) == [] then Err(Required) else Canonicalize(checksum, Trim(address))
  }

  // ---------------------------------------------------------------------------
  // The canonical form is a number
  // ---------------------------------------------------------------------------

  function HexValue(s: string): nat {
    Numeral(16, s)
  }

  /** The number an accepted input denotes. */
  function Number(checksum: string -> string, address: string): nat
    requires Normalize(checksum, address).Ok?
  {
    HexValue(HexPart(Trim(address)))
  }

  lemma {:induction false} StripOnlyZeros(s: string) returns (n: nat)
    ensures n <= |s| && s == Zeros(n) + StripZeros(s)
  {
    if s != [] && s[0] == '0' {
      var m := StripOnlyZeros(s[1..]);
      ZeroFirst(m);
      assert s == "0" + s[1..];
      n := m + 1;
    } else {
      n := 0;
    }
  }

  lemma {:induction false} ZeroFirst(n: nat)
    ensures "0" + Zeros(n) == Zeros(n + 1)
  {
    if n == 0 {
    } else {
      ZeroFirst(n - 1);
    }
  }

  lemma StrippedDenotes(hex: string)
    requires IsHex(hex)
    ensures IsHex(Stripped(hex)) && HexValue(Stripped(hex)) == HexValue(hex)
  {
    var n := StripOnlyZeros(hex);
    var stripped := StripZeros(hex);
    assert forall i | 0 <= i < |stripped| :: stripped[i] == hex[n + i];
    ZerosAreZero(16, n);
    NothingInFront(16, Zeros(n), stripped);
    if stripped == [] {
      PushDigit(16, [], '0');
      assert [] + ['0'] == "0";
    }
  }

  lemma CanonicalDenotes(hex: string)
    requires IsHex(hex) && |Stripped(hex)| <= STARKNET_ADDRESS_HEX_LENGTH
    ensures var digits := Padded(Stripped(hex), STARKNET_ADDRESS_HEX_LENGTH);
            && Canonical(hex) == "0x" + digits && |digits| == STARKNET_ADDRESS_HEX_LENGTH
            && IsHex(digits) && HexValue(digits) == HexValue(hex)
  {
    StrippedDenotes(hex);
    PaddingKeepsValue(16, Stripped(hex), STARKNET_ADDRESS_HEX_LENGTH);
  }

  lemma {:induction false} SameWidthSameDigits(a: string, b: string)
    requires |a| == |b| && IsHex(a) && IsHex(b) && HexValue(a) == HexValue(b)
    ensures a == b
  {
    if a == [] {
    } else {
      var n := |a| - 1;
      assert DigitValue(a[n]) < 16 && DigitValue(b[n]) < 16;
      assert HexValue(a[..n]) == HexValue(b[..n]);
      assert a[n] == b[n];
      SameWidthSameDigits(a[..n], b[..n]);
      assert a == a[..n] + [a[n]] && b == b[..n] + [b[n]];
    }
  }

  /** Two accepted inputs get one key exactly when they denote one number. */
  lemma SameKeyIffSameNumber(checksum: string -> string, a: string, b: string)
    requires Normalize(checksum, a).Ok? && Normalize(checksum, b).Ok?
    ensures Normalize(checksum, a) == Normalize(checksum, b) <==> Number(checksum, a) == Number(checksum, b)
  {
    var x, y := HexPart(Trim(a)), HexPart(Trim(b));
    CanonicalDenotes(x);
    CanonicalDenotes(y);
    var p, q := Padded(Stripped(x), STARKNET_ADDRESS_HEX_LENGTH), Padded(Stripped(y), STARKNET_ADDRESS_HEX_LENGTH);
    if HexValue(x) == HexValue(y) {
      SameWidthSameDigits(p, q);
    }
    assert ("0x" + p)[2..] == p && ("0x" + q)[2..] == q;
  }

  lemma {:induction false} LowerKeepsLowerCase(s: string)
    requires forall i | 0 <= i < |s| :: !('A' <= s[i] <= 'Z')
    ensures Lower(s) == s
  {
  }

  /** A lower-case `0x` form is read as its digits, and asserts no checksum. */
  lemma LowerFormIsRead(digits: string)
    requires IsHex(digits)
    ensures var c := "0x" + digits; Trim(c) == c && HexPart(c) == digits && RawHex(c) == digits && !AssertsChecksum(digits)
  {
    var c := "0x" + digits;
    forall i | 0 <= i < |c|
      ensures !IsSpace(c[i]) && !('A' <= c[i] <= 'Z')
    {
      assert i >= 2 ==> c[i] == digits[i - 2] && IsHexDigit(digits[i - 2]);
    }
    TrimKeepsSolid(c);
    LowerKeepsLowerCase(c);
    assert c[2..] == digits;
    assert forall i | 0 <= i < |digits| :: IsHexDigit(digits[i]);
  }

  lemma FullWidthIsCanonical(digits: string)
    requires IsHex(digits) && |digits| == STARKNET_ADDRESS_HEX_LENGTH
    ensures |Stripped(digits)| <= STARKNET_ADDRESS_HEX_LENGTH && Canonical(digits) == "0x" + digits
  {
    ShortWhenStripped(digits);
    CanonicalDenotes(digits);
    SameWidthSameDigits(Padded(Stripped(digits), STARKNET_ADDRESS_HEX_LENGTH), digits);
  }

  /** Normalising twice changes nothing. */
  lemma NormalizeIsIdempotent(checksum: string -> string, address: string)
    requires Normalize(checksum, address).Ok?
    ensures Normalize(checksum, Normalize(checksum, address).canonical) == Normalize(checksum, address)
  {
    var hex := HexPart(Trim(address));
    CanonicalDenotes(hex);
    var digits := Padded(Stripped(hex), STARKNET_ADDRESS_HEX_LENGTH);
    LowerFormIsRead(digits);
    FullWidthIsCanonical(digits);
  }

  lemma {:induction false} ShortWhenStripped(s: string)
    ensures |StripZeros(s)| <= |s|
  {
    if s != [] && s[0] == '0' {
      ShortWhenStripped(s[1..]);
    }
  }

  // ---------------------------------------------------------------------------
  // The cache
  // ---------------------------------------------------------------------------

  /** A `Map` keeps its entries in insertion order; the first is the oldest. */
  datatype Entry = Entry(input: string, canonical: string)

  function Inputs(entries: seq<Entry>): (r: seq<string>)
    ensures |r| == |entries|
    ensures forall i | 0 <= i < |entries| :: r[i] == entries[i].input
  {
    if entries == [] then [] else Inputs(entries[..|entries| - 1]) + [entries[|entries| - 1].input]
  }

  /** `Map.prototype.get`. */
  function Get(entries: seq<Entry>, input: string): Option<string> {
    if entries == [] then None else
      var last := entries[|entries| - 1];
      if last.input == input then Some(last.canonical) else Get(entries[..|entries| - 1], input)
  }

  /** `Map.prototype.delete`. */
  function Delete(entries: seq<Entry>, input: string): seq<Entry> {
    if entries == [] then [] else
      var rest, last := Delete(entries[..|entries| - 1], input), entries[|entries| - 1];
      if last.input == input then rest else rest + [last]
  }

  lemma {:induction false} GetFinds(entries: seq<Entry>, input: string)
    ensures Get(entries, input).Some? <==> input in Inputs(entries)
    ensures Get(entries, input).Some? ==> Entry(input, Get(entries, input).value) in entries
  {
    if entries == [] {
    } else {
      var n := |entries| - 1;
      GetFinds(entries[..n], input);
      assert Inputs(entries) == Inputs(entries[..n]) + [entries[n].input];
    }
  }

  lemma {:induction false} DeleteDeletes(entries: seq<Entry>, input: string)
    ensures Inputs(Delete(entries, input)) == Without(Inputs(entries), input)
    ensures forall e | e in Delete(entries, input) :: e in entries
  {
    if entries == [] {
    } else {
      var n := |entries| - 1;
      DeleteDeletes(entries[..n], input);
      assert Inputs(entries)[..n] == Inputs(entries[..n]);
    }
  }

  ghost predicate AllCanonical(checksum: string -> string, entries: seq<Entry>) {
    forall e | e in entries :: Canonicalize(checksum, e.input) == Ok(e.canonical)
  }

  lemma SetUses(checksum: string -> string, entries: seq<Entry>, input: string, normalized: string)
    requires AllCanonical(checksum, entries) && Canonicalize(checksum, input) == Ok(normalized)
    ensures AllCanonical(checksum, Delete(entries, input) + [Entry(input, normalized)])
    ensures Inputs(Delete(entries, input) + [Entry(input, normalized)]) == Used(Inputs(entries), input)
  {
    DeleteDeletes(entries, input);
  }

  /** The inputs a cache of full size should hold after `history`. */
  function Remembered(history: seq<string>): seq<string> {
    Newest(ByLastUse(history), ADDRESS_NORMALIZATION_CACHE_MAX_ENTRIES)
  }

  lemma RememberedAfterUse(history: seq<string>, input: string)
    ensures Remembered(history + [input])
         == Newest(Used(Remembered(history), input), ADDRESS_NORMALIZATION_CACHE_MAX_ENTRIES)
  {
    assert (history + [input])[..|history|] == history;
    ByLastUseIsDistinct(history);
    NewestOfUsed(ByLastUse(history), input, ADDRESS_NORMALIZATION_CACHE_MAX_ENTRIES);
  }

  lemma RememberedSize(history: seq<string>)
    ensures |Remembered(history)| == Min(1024, |ByLastUse(history)|)
  {
  }

  /** The entries hold canonical forms, and once enough of them are evicted just those of `inputs`. */
  ghost predicate Holds(checksum: string -> string, entries: seq<Entry>, inputs: seq<string>) {
    && AllCanonical(checksum, entries)
    && Newest(Inputs(entries), ADDRESS_NORMALIZATION_CACHE_MAX_ENTRIES) == inputs
  }

  lemma EmptyHolds(checksum: string -> string, entries: seq<Entry>, history: seq<string>)
    requires entries == [] && history == []
    ensures Holds(checksum, entries, Remembered(history))
  {
  }

  lemma SetHolds(checksum: string -> string, was: seq<Entry>, entries: seq<Entry>, history: seq<string>, input: string)
    requires AllCanonical(checksum, entries) && Inputs(was) == Remembered(history)
    requires Inputs(entries) == Used(Inputs(was), input)
    ensures Holds(checksum, entries, Remembered(history + [input]))
  {
    hide Canonicalize;
    RememberedAfterUse(history, input);
  }

  lemma EvictionHolds(checksum: string -> string, entries: seq<Entry>, inputs: seq<string>)
    requires Holds(checksum, entries, inputs) && |entries| > ADDRESS_NORMALIZATION_CACHE_MAX_ENTRIES
    ensures Holds(checksum, entries[1..], inputs)
  {
    hide Canonicalize;
    var all := Inputs(entries);
    assert Inputs(entries[1..]) == all[1..];
    assert all == all[..1] + all[1..];
    NewestOfSuffix(all[..1], all[1..], ADDRESS_NORMALIZATION_CACHE_MAX_ENTRIES);
  }

  class NormalizedAddressCache {
    const checksum: string -> string
    var entries: seq<Entry>
    ghost var history: seq<string>

    /** The cache holds the most recently used of all inputs accepted so far, with their canonical forms. */
    ghost predicate Valid()
      reads this
    {
      Holds(checksum, entries, Remembered(history)) && |entries| <= ADDRESS_NORMALIZATION_CACHE_MAX_ENTRIES
    }

    constructor (checksum: string -> string)
      ensures Valid() && history == [] && this.checksum == checksum
    {
      this.checksum, entries, history := checksum, [], [];
      new;
      EmptyHolds(checksum, entries, history);
    }

    method ClearAddressNormalizationCache()
      modifies this
      ensures Valid() && history == []
    {
      entries, history := [], [];
      EmptyHolds(checksum, entries, history);
    }

    /** Delete, append, and evict from the front while there are too many. */
    method CacheAddress(input: string, normalized: string)
      requires Valid() && Canonicalize(checksum, input) == Ok(normalized)
      modifies this
      ensures Valid() && history == old(history) + [input]
    {
      assert Inputs(entries) == Remembered(history);
      SetUses(checksum, entries, input, normalized);
      SetHolds(checksum, entries, Delete(entries, input) + [Entry(input, normalized)], history, input);
      entries := Delete(entries, input) + [Entry(input, normalized)];
      history := history + [input];
      while |entries| > ADDRESS_NORMALIZATION_CACHE_MAX_ENTRIES
        invariant Holds(checksum, entries, Remembered(history)) && history == old(history) + [input]
      {
        EvictionHolds(checksum, entries, Remembered(history));
        entries := entries[1..];
      }
    }

    method GetCachedAddress(input: string) returns (cached: Option<string>)
      requires Valid()
      modifies this
      ensures Valid()
      ensures cached.Some? <==> input in Remembered(old(history))
      ensures cached.Some? ==> Canonicalize(checksum, input) == Ok(cached.value)
      ensures history == if cached.Some? then old(history) + [input] else old(history)
    {
      cached := Get(entries, input);
      GetFinds(entries, input);
      if cached.None? {
        return;
      }
      CacheAddress(input, cached.value);
    }

    /** With the cache in front, every call returns what the uncached function returns. */
    method NormalizeStarknetAddress(address: string) returns (r: Result)
      requires Valid()
      modifies this
      ensures Valid()
      ensures r == Normalize(checksum, address)
      ensures history == if r.Ok? then old(history) + [Trim(address)] else old(history)
    {
      var trimmed := Trim(address);
      if trimmed == [] {
        return Err(Required);
      }
      var cached := GetCachedAddress(trimmed);
      if cached.Some? {
        return Ok(cached.value);
      }
      var hex := HexPart(trimmed);
      if hex == [] || !IsHex(hex) {
        return Err(NotHex);
      }
      var canonicalHex := Stripped(hex);
      if |canonicalHex| > STARKNET_ADDRESS_HEX_LENGTH {
        return Err(TooLong);
      }
      var canonical := "0x" + Padded(canonicalHex, STARKNET_ADDRESS_HEX_LENGTH);
      var rawHex := RawHex(trimmed);
      if AssertsChecksum(rawHex) {
        var paddedOriginal := "0x" + Padded(Stripped(rawHex), STARKNET_ADDRESS_HEX_LENGTH);
        if paddedOriginal != checksum(canonical) {
          return Err(BadChecksum);
        }
      }
      CacheAddress(trimmed, canonical);
      r := Ok(canonical);
    }
  }
}
