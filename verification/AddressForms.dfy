/**
 What `normalizeStarknetAddress` makes of every text (src/utils/address.ts), in terms
 of how an address is written: an optional prefix, redundant zeros, and the digits.
 */
module AddressForms {
  import opened Common
  import opened Text
  import opened AddressCache

  ghost predicate UpperHex(c: char) {
    'A' <= c <= 'F'
  }

  ghost predicate LowerHex(c: char) {
    'a' <= c <= 'f'
  }

  ghost predicate HexOfEitherCase(s: string) {
    forall i | 0 <= i < |s| :: '0' <= s[i] <= '9' || UpperHex(s[i]) || LowerHex(s[i])
  }

  ghost predicate HasUpper(s: string) {
    exists i :: 0 <= i < |s| && UpperHex(s[i])
  }

  ghost predicate HasLower(s: string) {
    exists i :: 0 <= i < |s| && LowerHex(s[i])
  }

  /** Upper- and lower-case letters together assert a checksum. */
  ghost predicate MixesCases(s: string) {
    HasUpper(s) && HasLower(s)
  }

  /** An address as it is written: `zeros` redundant zeros in front of the digits that count. */
  datatype Written = Written(prefix: string, zeros: nat, digits: string)

  ghost function Spelled(w: Written): string {
    w.prefix + Zeros(w.zeros) + w.digits
  }

  ghost predicate IsAddress(w: Written) {
    && (w.prefix == "" || w.prefix == "0x" || w.prefix == "0X")
    && HexOfEitherCase(w.digits) && (w.digits != [] ==> w.digits[0] != '0')
    && 0 < w.zeros + |w.digits|
  }

  /** The same digits, as written, at full width. */
  ghost function Wide(w: Written): string
    requires |w.digits| <= 64
  {
    "0x" + Zeros(64 - |w.digits|) + w.digits
  }

  /** What the function answers: only a wrong width or a wrong checksum of a mixed-case address is refused. */
  ghost function Answer(checksum: string -> string, w: Written): Result {
    if |w.digits| > 64 then Err(TooLong)
    else if MixesCases(w.digits) && Wide(w) != checksum(Lower(Wide(w))) then Err(BadChecksum)
    else Ok(Lower(Wide(w)))
  }

  lemma {:induction false} ZerosThenDigits(z: nat, d: string)
    requires d != [] ==> d[0] != '0'
    ensures StripZeros(Zeros(z) + d) == d
  {
    if z == 0 {
      assert Zeros(0) + d == d;
    } else {
      ZeroFirst(z - 1);
      assert (Zeros(z) + d)[0] == '0' && (Zeros(z) + d)[1..] == Zeros(z - 1) + d;
      ZerosThenDigits(z - 1, d);
    }
  }

  lemma StrippedAndPadded(z: nat, d: string)
    requires (d != [] ==> d[0] != '0') && |d| <= 64
    ensures Padded(Stripped(Zeros(z) + d), 64) == Zeros(64 - |d|) + d
  {
    ZerosThenDigits(z, d);
    if d == [] {
      assert Zeros(63) + "0" == Zeros(64) && Zeros(64) + d == Zeros(64);
    } else if |d| == 64 {
      assert Zeros(0) + d == d;
    }
  }

  lemma LowerOfParts(a: string, b: string)
    ensures Lower(a + b) == Lower(a) + Lower(b)
  {
  }

  lemma LowerOfZeros(z: nat)
    ensures Lower(Zeros(z)) == Zeros(z)
  {
  }

  lemma ZerosAreHex(z: nat, d: string)
    requires HexOfEitherCase(d)
    ensures HexOfEitherCase(Zeros(z) + d)
  {
  }

  lemma NoPrefixInHex(s: string)
    requires HexOfEitherCase(s)
    ensures !HasPrefix(s, 'x') && !HasPrefix(s, 'X') && !HasPrefix(Lower(s), 'x')
  {
    if 2 <= |s| {
      assert LowerChar(s[1]) != 'x';
    }
  }

  lemma PrefixInFront(prefix: string, s: string)
    requires prefix == "0x" || prefix == "0X"
    ensures HasPrefix(Lower(prefix + s), 'x') && (HasPrefix(prefix + s, 'x') || HasPrefix(prefix + s, 'X'))
    ensures (prefix + s)[2..] == s && Lower(prefix + s)[2..] == Lower(s)
  {
    LowerOfParts(prefix, s);
    assert LowerChar('0') == '0' && LowerChar('x') == 'x' && LowerChar('X') == 'x';
  }

  lemma SpelledIsRead(w: Written)
    requires IsAddress(w)
    ensures HexPart(Spelled(w)) == Zeros(w.zeros) + Lower(w.digits)
    ensures RawHex(Spelled(w)) == Zeros(w.zeros) + w.digits
  {
    hide Lower, HexOfEitherCase, Zeros, HasPrefix;
    var tail := Zeros(w.zeros) + w.digits;
    assert Spelled(w) == w.prefix + tail;
    ZerosAreHex(w.zeros, w.digits);
    NoPrefixInHex(tail);
    LowerOfParts(Zeros(w.zeros), w.digits);
    LowerOfZeros(w.zeros);
    if w.prefix == "" {
      assert Spelled(w) == tail;
    } else {
      PrefixInFront(w.prefix, tail);
    }
  }

  lemma LowerIsHex(d: string)
    requires HexOfEitherCase(d)
    ensures IsHex(Lower(d))
  {
    forall i | 0 <= i < |d|
      ensures IsHexDigit(Lower(d)[i])
    {
      assert Lower(d)[i] == LowerChar(d[i]);
    }
  }

  lemma LowerStartsAlike(d: string)
    requires d != []
    ensures Lower(d) != [] && (Lower(d)[0] == '0' <==> d[0] == '0')
  {
    assert Lower(d)[0] == LowerChar(d[0]);
  }

  lemma ZerosAreLowHex(z: nat, d: string)
    requires IsHex(d)
    ensures IsHex(Zeros(z) + d)
  {
    forall i | 0 <= i < |Zeros(z) + d|
      ensures IsHexDigit((Zeros(z) + d)[i])
    {
      assert i >= z ==> (Zeros(z) + d)[i] == d[i - z];
    }
  }

  lemma DigitsBehindZeros(z: nat, d: string)
    ensures |Zeros(z) + d| == z + |d|
    ensures forall i | 0 <= i < |d| :: (Zeros(z) + d)[z + i] == d[i]
    ensures forall i | 0 <= i < z :: (Zeros(z) + d)[i] == '0'
  {
  }

  lemma UpperBehindZeros(z: nat, d: string)
    ensures HasUpper(Zeros(z) + d) <==> HasUpper(d)
  {
    hide Zeros;
    DigitsBehindZeros(z, d);
    var tail := Zeros(z) + d;
    if i :| 0 <= i < |d| && UpperHex(d[i]) {
      assert UpperHex(tail[z + i]);
    }
  }

  lemma LowerBehindZeros(z: nat, d: string)
    ensures HasLower(Zeros(z) + d) <==> HasLower(d)
  {
    hide Zeros;
    DigitsBehindZeros(z, d);
    var tail := Zeros(z) + d;
    if i :| 0 <= i < |d| && LowerHex(d[i]) {
      assert LowerHex(tail[z + i]);
    }
  }

  lemma ChecksumIsMixing(s: string)
    ensures AssertsChecksum(s) <==> MixesCases(s)
  {
  }

  lemma ZerosMixNothing(z: nat, d: string)
    ensures AssertsChecksum(Zeros(z) + d) <==> MixesCases(d)
  {
    hide Zeros, AssertsChecksum, HasUpper, HasLower;
    UpperBehindZeros(z, d);
    LowerBehindZeros(z, d);
    ChecksumIsMixing(Zeros(z) + d);
  }

  lemma DigitsStayHex(w: Written)
    requires IsAddress(w)
    ensures IsHex(Zeros(w.zeros) + Lower(w.digits))
    ensures Lower(w.digits) != [] ==> Lower(w.digits)[0] != '0'
    ensures AssertsChecksum(Zeros(w.zeros) + w.digits) <==> MixesCases(w.digits)
  {
    hide Lower, IsHex, HexOfEitherCase, Zeros, AssertsChecksum, MixesCases;
    LowerIsHex(w.digits);
    ZerosAreLowHex(w.zeros, Lower(w.digits));
    ZerosMixNothing(w.zeros, w.digits);
    if w.digits != [] {
      LowerStartsAlike(w.digits);
    }
  }

  /** The canonical form of the lower-case digits, and the wide form of the digits as written. */
  lemma WideForms(w: Written)
    requires IsAddress(w) && |w.digits| <= 64
    ensures Canonical(Zeros(w.zeros) + Lower(w.digits)) == Lower(Wide(w))
    ensures "0x" + Padded(Stripped(Zeros(w.zeros) + w.digits), 64) == Wide(w)
  {
    hide Lower, HexOfEitherCase, Zeros, Stripped, Padded;
    var pad := Zeros(64 - |w.digits|);
    if w.digits != [] {
      LowerStartsAlike(w.digits);
    }
    StrippedAndPadded(w.zeros, Lower(w.digits));
    StrippedAndPadded(w.zeros, w.digits);
    assert Wide(w) == "0x" + (pad + w.digits);
    LowerOfParts("0x", pad + w.digits);
    LowerOfParts(pad, w.digits);
    LowerOfZeros(64 - |w.digits|);
    LowerOfPrefix();
  }

  lemma LowerOfPrefix()
    ensures Lower("0x") == "0x"
  {
    assert LowerChar('0') == '0' && LowerChar('x') == 'x';
  }

  lemma StrippedWidth(z: nat, d: string)
    requires d != [] ==> d[0] != '0'
    ensures |Stripped(Zeros(z) + d)| == if d == [] then 1 else |d|
  {
    ZerosThenDigits(z, d);
  }

  /** Whatever stands around it, an address is answered by its digits as they are written. */
  lemma AddressIsAnswered(checksum: string -> string, text: string, w: Written)
    requires IsAddress(w) && Trim(text) == Spelled(w)
    ensures Normalize(checksum, text) == Answer(checksum, w)
  {
    hide Trim, HexPart, RawHex, IsHex, Stripped, AssertsChecksum, MixesCases, Lower, Zeros, Canonical, Padded, HexOfEitherCase, Wide;
    SpelledIsRead(w);
    DigitsStayHex(w);
    StrippedWidth(w.zeros, Lower(w.digits));
    if |w.digits| <= 64 {
      WideForms(w);
    }
  }

  /** How a hexadecimal text is written. */
  lemma {:induction false} ReadZeros(s: string) returns (z: nat)
    ensures z <= |s| && s == Zeros(z) + s[z..] && (s[z..] != [] ==> s[z] != '0')
  {
    hide Zeros;
    if s != [] && s[0] == '0' {
      var m := ReadZeros(s[1..]);
      ZeroFirst(m);
      assert "0" + (Zeros(m) + s[1..][m..]) == Zeros(m + 1) + s[1..][m..];
      assert s == "0" + s[1..];
      assert s[1..][m..] == s[m + 1..];
      z := m + 1;
    } else {
      z := 0;
      assert s[0..] == s && Zeros(0) == [] && [] + s == s;
    }
  }

  lemma LowerHexIsHex(d: string)
    requires IsHex(Lower(d))
    ensures HexOfEitherCase(d)
  {
    forall i | 0 <= i < |d|
      ensures '0' <= d[i] <= '9' || UpperHex(d[i]) || LowerHex(d[i])
    {
      assert IsHexDigit(Lower(d)[i]) && Lower(d)[i] == LowerChar(d[i]);
    }
  }

  lemma LowerOfRest(t: string)
    requires |t| >= 2
    ensures Lower(t)[2..] == Lower(t[2..])
  {
    hide Lower, LowerChar;
  }

  lemma TwoCharacters(t: string)
    requires |t| >= 2 && t[0] == '0' && (t[1] == 'x' || t[1] == 'X')
    ensures t[..2] == "0x" || t[..2] == "0X"
  {
  }

  lemma PrefixIsWritten(t: string)
    requires HasPrefix(Lower(t), 'x')
    ensures |t| >= 2 && (t[..2] == "0x" || t[..2] == "0X") && Lower(t)[2..] == Lower(t[2..])
  {
    hide Lower, LowerChar;
    assert |Lower(t)| == |t|;
    assert Lower(t)[0] == LowerChar(t[0]);
    assert Lower(t)[1] == LowerChar(t[1]);
    LoweredFrom(t[0]);
    LoweredFrom(t[1]);
    TwoCharacters(t);
    LowerOfRest(t);
  }

  lemma LoweredFrom(c: char)
    ensures LowerChar(c) == 'x' ==> c == 'x' || c == 'X'
    ensures LowerChar(c) == '0' ==> c == '0'
  {
  }

  lemma TailIsWritten(prefix: string, tail: string)
    requires prefix == "" || prefix == "0x" || prefix == "0X"
    requires tail != [] && HexOfEitherCase(tail)
    ensures exists w :: IsAddress(w) && prefix + tail == Spelled(w)
  {
    var z := ReadZeros(tail);
    var digits := tail[z..];
    assert HexOfEitherCase(digits) by {
      assert forall i | 0 <= i < |digits| :: digits[i] == tail[z + i];
    }
    var w := Written(prefix, z, digits);
    assert digits != [] ==> digits[0] == tail[z];
    hide Zeros;
    assert prefix + tail == prefix + (Zeros(z) + digits) == Spelled(w);
    assert IsAddress(w);
  }

  lemma HexIsWritten(t: string)
    requires HexPart(t) != [] && IsHex(HexPart(t))
    ensures exists w :: IsAddress(w) && t == Spelled(w)
  {
    hide Lower, IsHex, HexOfEitherCase, IsAddress, HasPrefix, Spelled;
    if HasPrefix(Lower(t), 'x') {
      PrefixIsWritten(t);
      LowerHexIsHex(t[2..]);
      assert t == t[..2] + t[2..];
      assert Lower(t[2..]) != [] ==> t[2..] != [] by { EmptyLower(t[2..]); }
      TailIsWritten(t[..2], t[2..]);
    } else {
      LowerHexIsHex(t);
      EmptyLower(t);
      assert "" + t == t;
      TailIsWritten("", t);
    }
  }

  lemma EmptyLower(t: string)
    ensures Lower(t) == [] <==> t == []
  {
  }

  /** Every other text is refused: as missing if it is blank, otherwise as not hexadecimal. */
  lemma OthersAreRefused(checksum: string -> string, text: string)
    ensures Normalize(checksum, text) == Err(Required) <==> Trim(text) == []
    ensures Normalize(checksum, text) == Err(NotHex) <==>
              Trim(text) != [] && !exists w :: IsAddress(w) && Trim(text) == Spelled(w)
  {
    hide Trim, HexPart, IsHex, IsAddress, Spelled;
    var t := Trim(text);
    if w :| IsAddress(w) && t == Spelled(w) {
      AddressIsAnswered(checksum, text, w);
      assert Answer(checksum, w) != Err(NotHex);
    } else if t != [] && HexPart(t) != [] && IsHex(HexPart(t)) {
      HexIsWritten(t);
    }
  }

  // ------------------------------------------------------------ white space

  lemma {:induction false} LeadingSpaceGoes(space: string, s: string)
    requires (forall i | 0 <= i < |space| :: IsSpace(space[i])) && (s != [] ==> !IsSpace(s[0]))
    ensures TrimStart(space + s) == s
  {
    if space == [] {
      assert space + s == s;
    } else {
      LeadingSpaceGoes(space[1..], s);
      assert (space + s)[1..] == space[1..] + s;
    }
  }

  lemma {:induction false} TrailingSpaceGoes(s: string, space: string)
    requires (forall i | 0 <= i < |space| :: IsSpace(space[i])) && (s != [] ==> !IsSpace(s[|s| - 1]))
    ensures TrimEnd(s + space) == s
  {
    if space == [] {
      assert s + space == s;
    } else {
      var n := |space| - 1;
      TrailingSpaceGoes(s, space[..n]);
      assert (s + space)[..|s + space| - 1] == s + space[..n];
    }
  }

  /** WhiteSpace and LineTerminator of ECMA-262, by code point. */
  const WHITE_SPACE: set<int> := {
    0x9, 0xA, 0xB, 0xC, 0xD, 0x20, 0xA0, 0x1680, 0x2000, 0x2001, 0x2002, 0x2003, 0x2004, 0x2005, 0x2006, 0x2007,
    0x2008, 0x2009, 0x200A, 0x2028, 0x2029, 0x202F, 0x205F, 0x3000, 0xFEFF }

  ghost predicate Blank(s: string) {
    forall i | 0 <= i < |s| :: s[i] as int in WHITE_SPACE
  }

  lemma SpaceIsWhiteSpace(c: char)
    ensures IsSpace(c) <==> c as int in WHITE_SPACE
  {
  }

  lemma BlankIsSpace(s: string)
    requires Blank(s)
    ensures forall i | 0 <= i < |s| :: IsSpace(s[i])
  {
    hide IsSpace;
    forall i | 0 <= i < |s|
      ensures IsSpace(s[i])
    {
      SpaceIsWhiteSpace(s[i]);
    }
  }

  /** Trimming takes off white space at both ends and nothing else. */
  lemma TrimKeepsTheMiddle(before: string, s: string, after: string)
    requires Blank(before) && Blank(after)
    requires s != [] ==> s[0] as int !in WHITE_SPACE && s[|s| - 1] as int !in WHITE_SPACE
    ensures Trim(before + s + after) == s
  {
    hide IsSpace;
    BlankIsSpace(before);
    BlankIsSpace(after);
    if s == [] {
      assert before + s + after == before + after + [];
      LeadingSpaceGoes(before + after, []);
    } else {
      SpaceIsWhiteSpace(s[0]);
      SpaceIsWhiteSpace(s[|s| - 1]);
      assert before + s + after == before + (s + after);
      assert (s + after)[0] == s[0];
      LeadingSpaceGoes(before, s + after);
      TrailingSpaceGoes(s, after);
    }
  }
}
