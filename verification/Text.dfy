/** Trimming, padding, positional numerals and decimals, shared by the text-handling code. */
module Text {

  /** White space and line ends, as `String.prototype.trim` removes them. */
  predicate IsSpace(c: char) {
    var n := c as int;
    || 9 <= n <= 13 || n == 0x20 || n == 0xA0 || n == 0x1680 || 0x2000 <= n <= 0x200A
    || n == 0x2028 || n == 0x2029 || n == 0x202F || n == 0x205F || n == 0x3000 || n == 0xFEFF
  }

  function TrimStart(s: string): string {
    if s != [] && IsSpace(s[0]) then TrimStart(s[1..]) else s
  }

  function TrimEnd(s: string): string {
    if s != [] && IsSpace(s[|s| - 1]) then TrimEnd(s[..|s| - 1]) else s
  }

  function Trim(s: string): string {
    TrimEnd(TrimStart(s))
  }

  lemma TrimKeepsSolid(s: string)
    requires forall i | 0 <= i < |s| :: !IsSpace(s[i])
    ensures Trim(s) == s
  {
  }

  function Zeros(n: nat): (r: string)
    ensures |r| == n
    ensures forall i | 0 <= i < n :: r[i] == '0'
  {
    if n == 0 then [] else Zeros(n - 1) + "0"
  }

  /** `padStart(width, "0")`. */
  function Padded(s: string, width: nat): string {
    if |s| < width then Zeros(width - |s|) + s else s
  }

  function DigitValue(c: char): nat {
    if '0' <= c <= '9' then c as int - '0' as int
    else if 'a' <= c <= 'f' then c as int - 'a' as int + 10
    else 0
  }

  /** The number a string of digits denotes. */
  function Numeral(base: nat, s: string): nat {
    if s == [] then 0 else base * Numeral(base, s[..|s| - 1]) + DigitValue(s[|s| - 1])
  }

  lemma PushDigit(base: nat, s: string, c: char)
    ensures Numeral(base, s + [c]) == base * Numeral(base, s) + DigitValue(c)
  {
    assert (s + [c])[..|s|] == s;
  }

  lemma {:induction false} ZerosAreZero(base: nat, n: nat)
    ensures Numeral(base, Zeros(n)) == 0
  {
    if n == 0 {
    } else {
      hide Numeral;
      ZerosAreZero(base, n - 1);
      PushDigit(base, Zeros(n - 1), '0');
      assert Zeros(n) == Zeros(n - 1) + ['0'] && base * 0 == 0;
    }
  }

  lemma {:induction false} NothingInFront(base: nat, z: string, s: string)
    requires Numeral(base, z) == 0
    ensures Numeral(base, z + s) == Numeral(base, s)
  {
    if s == [] {
      assert z + s == z;
    } else {
      var rest, last := s[..|s| - 1], s[|s| - 1];
      NothingInFront(base, z, rest);
      PushDigit(base, z + rest, last);
      assert z + s == (z + rest) + [last];
    }
  }

  lemma PaddingKeepsValue(base: nat, s: string, width: nat)
    ensures Numeral(base, Padded(s, width)) == Numeral(base, s)
    ensures |s| <= width ==> |Padded(s, width)| == width
  {
    if |s| < width {
      ZerosAreZero(base, width - |s|);
      NothingInFront(base, Zeros(width - |s|), s);
    }
  }

  predicate IsDigit(c: char) {
    '0' <= c <= '9'
  }

  predicate IsDigits(s: string) {
    forall i | 0 <= i < |s| :: IsDigit(s[i])
  }

  function Digit(n: nat): (c: char)
    requires n < 10
    ensures IsDigit(c) && c as int - '0' as int == n
  {
    ('0' as int + n) as char
  }

  /** `BigInt.prototype.toString` of a non-negative number. */
  function Decimal(n: nat): (s: string)
    ensures s != [] && IsDigits(s)
  {
    if n < 10 then [Digit(n)] else Decimal(n / 10) + [Digit(n % 10)]
  }

  /** What a string of digits denotes. */
  function Value(s: string): nat {
    Numeral(10, s)
  }

  lemma {:induction false} DecimalDenotes(n: nat)
    ensures Value(Decimal(n)) == n
  {
    if n < 10 {
      PushDigit(10, [], Digit(n));
      assert [] + [Digit(n)] == Decimal(n);
    } else {
      DecimalDenotes(n / 10);
      PushDigit(10, Decimal(n / 10), Digit(n % 10));
    }
  }
}
