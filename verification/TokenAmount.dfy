/**
 Exact printing of token amounts (src/utils/codec.ts): base units divided by a power
 of ten and rendered without rounding.
 */
module TokenAmount {
  import opened Common
  import opened Text

  // ---------------------------------------------------------------------------
  // Decimal notation
  // ---------------------------------------------------------------------------

  function ToString(n: int): string {
    if n < 0 then "-" + Decimal(-n) else Decimal(n)
  }

  function Pow10(n: nat): (r: nat)
    ensures 0 < r
  {
    if n == 0 then 1 else 10 * Pow10(n - 1)
  }

  function DropTrailingZeros(s: string): string {
    if s != [] && s[|s| - 1] == '0' then DropTrailingZeros(s[..|s| - 1]) else s
  }

  // ---------------------------------------------------------------------------
  // The printer
  // ---------------------------------------------------------------------------

  datatype Raw = Untrusted(text: string) | Big(amount: int)
  datatype Formatted = Formatted(text: string) | RangeError | TypeError

  /** `/^-?\d+$/`. */
  predicate IsDecimalInteger(s: string) {
    var digits := if s != [] && s[0] == '-' then s[1..] else s;
    digits != [] && IsDigits(digits)
  }

  /** `BigInt(s)`. */
  function ParseInteger(s: string): int
    requires IsDecimalInteger(s)
  {
    if s[0] == '-' then -(Value(s[1..]) as int) else Value(s)
  }

  function Fraction(n: nat, decimals: nat): string {
    DropTrailingZeros(Padded(Decimal(n), decimals))
  }

  /** `BigInt` division and remainder of non-negative numbers. */
  function DivMod(n: nat, divisor: nat): (r: (nat, nat))
    requires 0 < divisor
    ensures n == r.0 * divisor + r.1 && r.1 < divisor
  {
    (n / divisor, n % divisor)
  }

  function FormatAmount(amount: int, decimals: nat): string {
    if decimals == 0 then ToString(amount) else
      var abs: nat := if amount < 0 then -amount else amount;
      var (whole, fraction) := DivMod(abs, Pow10(decimals));
      var sign := if amount < 0 then "-" else "";
      if fraction == 0 then sign + Decimal(whole)
      else sign + (Decimal(whole) + "." + Fraction(fraction, decimals))
  }

  /** A non-negative integer. */
  predicate IsPrecision(decimals: real) {
    decimals.Floor as real == decimals && decimals >= 0.0
  }

  function FormatTokenAmount(raw: Raw, decimals: real): Formatted {
    if !IsPrecision(decimals) then RangeError else
      match raw
      case Big(amount) => Formatted(FormatAmount(amount, decimals.Floor))
      case Untrusted(text) =>
        if IsDecimalInteger(Trim(text)) then Formatted(FormatAmount(ParseInteger(Trim(text)), decimals.Floor))
        else TypeError
  }

  // ---------------------------------------------------------------------------
  // The number a decimal string denotes
  // ---------------------------------------------------------------------------

  /** The digits before the point, and those after it. */
  function Split(s: string): (string, string) {
    if s == [] then ([], [])
    else if s[0] == '.' then ([], s[1..])
    else var (whole, fraction) := Split(s[1..]); ([s[0]] + whole, fraction)
  }

  /** An unsigned decimal string in units of `10^-decimals`. */
  function Units(s: string, decimals: nat): Option<nat> {
    var (whole, fraction) := Split(s);
    if whole == [] || !IsDigits(whole) || !IsDigits(fraction) || decimals < |fraction| then None
    else Some(Value(whole) * Pow10(decimals) + Value(fraction) * Pow10(decimals - |fraction|))
  }

  /** Reading an amount back, independently of how it was printed. */
  function ParseAmount(s: string, decimals: nat): Option<int> {
    if s != [] && s[0] == '-' then
      var u := Units(s[1..], decimals);
      if u.Some? then Some(-(u.value as int)) else None
    else
      var u := Units(s, decimals);
      if u.Some? then Some(u.value as int) else None
  }

  lemma PaddedDenotes(s: string, width: nat)
    requires IsDigits(s) && |s| <= width
    ensures IsDigits(Padded(s, width)) && |Padded(s, width)| == width && Value(Padded(s, width)) == Value(s)
  {
    PaddingKeepsValue(10, s, width);
  }

  lemma {:induction false} DecimalFits(n: nat, width: nat)
    requires n < Pow10(width) && 0 < width
    ensures |Decimal(n)| <= width
  {
    if n >= 10 {
      DecimalFits(n / 10, width - 1);
    }
  }

  lemma TenTimes(v: nat, p: nat)
    ensures 10 * (v * p) == v * (10 * p)
  {
  }

  /** Dropping trailing zeros is dividing by ten as often. */
  lemma {:induction false} DroppedDenotes(s: string)
    requires IsDigits(s)
    ensures |DropTrailingZeros(s)| <= |s| && IsDigits(DropTrailingZeros(s))
    ensures Value(s) == Value(DropTrailingZeros(s)) * Pow10(|s| - |DropTrailingZeros(s)|)
  {
    if s != [] && s[|s| - 1] == '0' {
      var rest := s[..|s| - 1];
      DroppedDenotes(rest);
      var t := DropTrailingZeros(rest);
      assert s == rest + ['0'];
      PushDigit(10, rest, '0');
      TenTimes(Value(t), Pow10(|rest| - |t|));
    }
  }

  lemma {:induction false} DroppedEndsWell(s: string)
    ensures DropTrailingZeros(s) != [] ==> DropTrailingZeros(s)[|DropTrailingZeros(s)| - 1] != '0'
  {
    if s != [] && s[|s| - 1] == '0' {
      DroppedEndsWell(s[..|s| - 1]);
    }
  }

  /** The printed fraction, read at the same precision, is the remainder. */
  lemma FractionDenotes(n: nat, decimals: nat)
    requires 0 < n < Pow10(decimals) && 0 < decimals
    ensures var t := Fraction(n, decimals);
            && 0 < |t| <= decimals && IsDigits(t) && t[|t| - 1] != '0'
            && Value(t) * Pow10(decimals - |t|) == n
  {
    DecimalDenotes(n);
    DecimalFits(n, decimals);
    PaddedDenotes(Decimal(n), decimals);
    DroppedDenotes(Padded(Decimal(n), decimals));
    DroppedEndsWell(Padded(Decimal(n), decimals));
  }

  lemma {:induction false} SplitWhole(s: string)
    requires IsDigits(s)
    ensures Split(s) == (s, [])
  {
    if s == [] {
    } else {
      SplitWhole(s[1..]);
      assert s == [s[0]] + s[1..];
    }
  }

  lemma {:induction false} SplitPoint(whole: string, fraction: string)
    requires IsDigits(whole)
    ensures Split(whole + "." + fraction) == (whole, fraction)
  {
    var s := whole + "." + fraction;
    if whole == [] {
      assert s[1..] == fraction;
    } else {
      SplitPoint(whole[1..], fraction);
      assert s[1..] == whole[1..] + "." + fraction;
      assert whole == [whole[0]] + whole[1..];
    }
  }

  function Unsigned(abs: nat, decimals: nat): string {
    var (whole, fraction) := DivMod(abs, Pow10(decimals));
    if fraction == 0 then Decimal(whole) else Decimal(whole) + "." + Fraction(fraction, decimals)
  }

  lemma WholeReadsBack(whole: nat, decimals: nat)
    ensures Units(Decimal(whole), decimals) == Some(whole * Pow10(decimals))
  {
    DecimalDenotes(whole);
    SplitWhole(Decimal(whole));
    assert Value([]) == 0;
  }

  lemma PointReadsBack(whole: nat, fraction: string, decimals: nat)
    requires IsDigits(fraction) && |fraction| <= decimals
    ensures Units(Decimal(whole) + "." + fraction, decimals)
         == Some(whole * Pow10(decimals) + Value(fraction) * Pow10(decimals - |fraction|))
  {
    DecimalDenotes(whole);
    SplitPoint(Decimal(whole), fraction);
  }

  lemma UnsignedReadsBack(abs: nat, decimals: nat)
    ensures Unsigned(abs, decimals) != [] && IsDigit(Unsigned(abs, decimals)[0])
    ensures Units(Unsigned(abs, decimals), decimals) == Some(abs)
  {
    hide Units, Fraction, Decimal, Value;
    var (whole, fraction) := DivMod(abs, Pow10(decimals));
    if fraction == 0 {
      WholeReadsBack(whole, decimals);
    } else {
      FractionDenotes(fraction, decimals);
      PointReadsBack(whole, Fraction(fraction, decimals), decimals);
    }
  }

  lemma FormatIsSigned(amount: int, decimals: nat)
    ensures FormatAmount(amount, decimals)
         == if amount < 0 then "-" + Unsigned(-amount, decimals) else Unsigned(amount, decimals)
  {
    if amount >= 0 && decimals != 0 {
      assert "" + Unsigned(amount, decimals) == Unsigned(amount, decimals);
    }
  }

  /** Every amount, printed at any precision and read back at it, is itself. */
  lemma PrintingIsExact(amount: int, decimals: nat)
    ensures ParseAmount(FormatAmount(amount, decimals), decimals) == Some(amount)
  {
    var abs: nat := if amount < 0 then -amount else amount;
    FormatIsSigned(amount, decimals);
    UnsignedReadsBack(abs, decimals);
    assert ("-" + Unsigned(abs, decimals))[1..] == Unsigned(abs, decimals);
  }

  /** No fraction ends in a zero, and none is empty. */
  lemma NoTrailingFractionZero(amount: int, decimals: nat)
    ensures var s := FormatAmount(amount, decimals); '.' in s ==> s[|s| - 1] != '0' && s[|s| - 1] != '.'
  {
    var abs: nat := if amount < 0 then -amount else amount;
    FormatIsSigned(amount, decimals);
    var (whole, fraction) := DivMod(abs, Pow10(decimals));
    if fraction != 0 {
      FractionDenotes(fraction, decimals);
    }
  }

  // ---------------------------------------------------------------------------
  // The text depends on the quantity alone
  // ---------------------------------------------------------------------------

  lemma {:induction false} TimesGrows(q: nat, more: nat, p: nat)
    requires 0 < more
    ensures q * p + p <= (q + more) * p
  {
    if more > 1 {
      TimesGrows(q, more - 1, p);
    }
    assert (q + more) * p == (q + (more - 1)) * p + p;
  }

  lemma DivisionIsUnique(q: nat, r: nat, q': nat, r': nat, p: nat)
    requires q * p + r == q' * p + r' && r < p && r' < p
    ensures q == q' && r == r'
  {
    if q < q' {
      TimesGrows(q, q' - q, p);
    } else if q' < q {
      TimesGrows(q', q - q', p);
    }
  }

  lemma TenfoldDivMod(n: nat, p: nat)
    requires 0 < p
    ensures DivMod(10 * n, 10 * p) == (DivMod(n, p).0, 10 * DivMod(n, p).1)
  {
    var (q, r) := DivMod(n, p);
    var (q', r') := DivMod(10 * n, 10 * p);
    TenTimes(q, p);
    DivisionIsUnique(q', r', q, 10 * r, 10 * p);
  }

  lemma TenfoldFraction(n: nat, decimals: nat)
    requires 0 < n < Pow10(decimals) && 0 < decimals
    ensures Fraction(10 * n, decimals + 1) == Fraction(n, decimals)
  {
    DecimalFits(n, decimals);
    var padded := Padded(Decimal(n), decimals);
    assert Decimal(10 * n) == Decimal(n) + "0";
    assert Padded(Decimal(10 * n), decimals + 1) == padded + "0";
    assert (padded + "0")[..|padded|] == padded;
  }

  lemma TenfoldUnsigned(abs: nat, decimals: nat)
    ensures Unsigned(10 * abs, decimals + 1) == Unsigned(abs, decimals)
  {
    TenfoldDivMod(abs, Pow10(decimals));
    var (_, fraction) := DivMod(abs, Pow10(decimals));
    if fraction != 0 {
      TenfoldFraction(fraction, decimals);
    }
  }

  /** A tenfold amount at one more decimal is printed alike. */
  lemma TenfoldPrintsAlike(amount: int, decimals: nat)
    ensures FormatAmount(10 * amount, decimals + 1) == FormatAmount(amount, decimals)
  {
    TenfoldUnsigned(if amount < 0 then -amount else amount, decimals);
    FormatIsSigned(amount, decimals);
    FormatIsSigned(10 * amount, decimals + 1);
  }

  lemma TenTimesSigned(v: int, p: int)
    ensures 10 * (v * p) == v * (10 * p)
  {
  }

  lemma {:induction false} ScaledPrintsAlike(amount: int, decimals: nat, k: nat)
    ensures FormatAmount(amount * Pow10(k), decimals + k) == FormatAmount(amount, decimals)
    decreases k
  {
    hide FormatAmount;
    if k == 0 {
    } else {
      ScaledPrintsAlike(amount, decimals, k - 1);
      TenTimesSigned(amount, Pow10(k - 1));
      TenfoldPrintsAlike(amount * Pow10(k - 1), decimals + (k - 1));
    }
  }

  lemma SameTextAtOnePrecision(x: int, y: int, decimals: nat)
    ensures FormatAmount(x, decimals) == FormatAmount(y, decimals) <==> x == y
  {
    PrintingIsExact(x, decimals);
    PrintingIsExact(y, decimals);
  }

  /** Two amounts at two precisions are printed alike exactly when they are the same quantity. */
  lemma SameTextIffSameQuantity(a: int, d: nat, b: int, e: nat)
    ensures FormatAmount(a, d) == FormatAmount(b, e) <==> a * Pow10(e) == b * Pow10(d)
  {
    hide FormatAmount;
    ScaledPrintsAlike(a, d, e);
    ScaledPrintsAlike(b, e, d);
    SameTextAtOnePrecision(a * Pow10(e), b * Pow10(d), d + e);
  }

  lemma IntegerReadsBack(amount: int)
    ensures IsDecimalInteger(ToString(amount)) && ParseInteger(ToString(amount)) == amount
    ensures Trim(ToString(amount)) == ToString(amount)
  {
    var abs: nat := if amount < 0 then -amount else amount;
    DecimalDenotes(abs);
    var s := ToString(amount);
    assert amount < 0 ==> s[1..] == Decimal(abs);
    TrimKeepsSolid(s);
  }

  /** An untrusted decimal text is printed like the integer it denotes; what is malformed is refused. */
  lemma UntrustedIsValidated(text: string, amount: int, decimals: real)
    ensures FormatTokenAmount(Untrusted(text), decimals).Formatted? <==> IsPrecision(decimals) && IsDecimalInteger(Trim(text))
    ensures FormatTokenAmount(Untrusted(text), decimals) == TypeError <==> IsPrecision(decimals) && !IsDecimalInteger(Trim(text))
    ensures FormatTokenAmount(Untrusted(ToString(amount)), decimals) == FormatTokenAmount(Big(amount), decimals)
  {
    IntegerReadsBack(amount);
  }

  ghost predicate SpellsNatural(s: string) {
    s != [] && forall i | 0 <= i < |s| :: '0' <= s[i] <= '9'
  }

  /** An optional sign and at least one digit. */
  ghost predicate SpellsInteger(s: string) {
    if s != [] && s[0] == '-' then SpellsNatural(s[1..]) else SpellsNatural(s)
  }

  lemma SpelledIsDecimal(s: string)
    ensures SpellsInteger(s) <==> IsDecimalInteger(s)
  {
    var digits := if s != [] && s[0] == '-' then s[1..] else s;
    assert SpellsNatural(digits) <==> digits != [] && IsDigits(digits);
  }

  /** What a whole number of units reads like, without a point. */
  lemma WholeTextDenotes(s: string)
    requires IsDecimalInteger(s)
    ensures ParseAmount(s, 0) == Some(ParseInteger(s))
  {
    var digits := if s[0] == '-' then s[1..] else s;
    SplitWhole(digits);
    assert Value([]) == 0;
  }

  /**
   The exported printer: a bad precision is a range error and a text that is no integer
   a type error, in this order; otherwise the printed text, read at the given precision, is
   the amount, and has no fraction that is empty or ends in a zero.
   */
  lemma PrintedTextDenotes(raw: Raw, decimals: real)
    ensures var r := FormatTokenAmount(raw, decimals);
            && (r == RangeError <==> decimals < 0.0 || decimals != decimals.Floor as real)
            && (r == TypeError <==> r != RangeError && raw.Untrusted? && !SpellsInteger(Trim(raw.text)))
            && (r.Formatted? ==>
                  && ParseAmount(r.text, decimals.Floor)
                     == (if raw.Big? then Some(raw.amount) else ParseAmount(Trim(raw.text), 0))
                  && ParseAmount(r.text, decimals.Floor).Some?
                  && ('.' in r.text ==> r.text[|r.text| - 1] != '0' && r.text[|r.text| - 1] != '.'))
  {
    var r := FormatTokenAmount(raw, decimals);
    if raw.Untrusted? {
      SpelledIsDecimal(Trim(raw.text));
    }
    if r.Formatted? {
      if raw.Untrusted? {
        WholeTextDenotes(Trim(raw.text));
      }
      var amount := if raw.Big? then raw.amount else ParseInteger(Trim(raw.text));
      PrintingIsExact(amount, decimals.Floor);
      NoTrailingFractionZero(amount, decimals.Floor);
    }
  }
}
