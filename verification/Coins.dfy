/** Coin amounts as text. The printer writes six decimals, the parser scales to nine. */
module Coins {
  import opened Prelude
  import opened Text

  const MAX_COIN_DECIMALS: nat := 1_000_000
  const MAX_COIN: nat := 1_000_000_000_000_000
  const TWO_128: nat := 0x1_0000_0000_0000_0000_0000_0000_0000_0000

  datatype CoinError = ExceedsMaximum | InvalidNumber | InvalidFormat

  function NewCoin(amount: nat): Result<nat, CoinError> {
    if amount > MAX_COIN then Err(ExceedsMaximum) else Ok(amount)
  }

  function PadLeft(s: string, width: nat): (r: string)
    ensures |r| >= width && |r| >= |s|
  {
    if |s| >= width then s else seq(width - |s|, _ => '0') + s
  }

  /** Whole coins without a point; otherwise the fraction padded to six digits. */
  function ToDecimalString(amount: nat): string {
    var whole, fraction := amount / MAX_COIN_DECIMALS, amount % MAX_COIN_DECIMALS;
    if fraction == 0 then Decimal(whole) else Decimal(whole) + "." + PadLeft(Decimal(fraction), 6)
  }

  /** An optional `+`, then digits, within 128 bits. */
  function ParseU128(s: string): Option<nat> {
    var digits := if StartsWith(s, "+") then s[1..] else s;
    if digits == "" || !(forall i :: 0 <= i < |digits| ==> IsDigit(digits[i])) then None
    else if DecimalValue(digits) >= TWO_128 then None
    else Some(DecimalValue(digits))
  }

  function Pow10(k: nat): nat {
    if k == 0 then 1 else 10 * Pow10(k - 1)
  }

  /** Whole coins and a nine-digit fraction in base units; arithmetic wraps at 128 bits, as in an optimised build. */
  function BaseUnits(whole: nat, fraction: nat, width: nat): nat
    requires width <= 9
  {
    (whole * MAX_COIN_DECIMALS % TWO_128 + fraction * Pow10(9 - width)) % TWO_128
  }

  function FromParts(parts: seq<string>): Result<nat, CoinError> {
    if |parts| == 1 then
      match ParseU128(parts[0])
      case None => Err(InvalidNumber)
      case Some(whole) => NewCoin(whole * MAX_COIN_DECIMALS % TWO_128)
    else if |parts| == 2 then
      match ParseU128(parts[0])
      case None => Err(InvalidNumber)
      case Some(whole) =>
        var digits := if |parts[1]| > 9 then parts[1][..9] else parts[1];
        match ParseU128(digits)
        case None => Err(InvalidNumber)
        case Some(fraction) => NewCoin(BaseUnits(whole, fraction, |digits|))
    else Err(InvalidFormat)
  }

  function FromString(s: string): Result<nat, CoinError> {
    FromParts(Split(s, '.'))
  }

  lemma DecimalIsAtom(n: nat)
    ensures '.' !in Decimal(n) && !StartsWith(Decimal(n), "+")
  {
    var s := Decimal(n);
    assert forall i :: 0 <= i < |s| ==> IsDigit(s[i]);
    assert IsDigit(s[0]) && s[..1][0] == s[0];
  }

  lemma ParsesDecimal(n: nat)
    requires n < TWO_128
    ensures ParseU128(Decimal(n)) == Some(n)
  {
    DecimalIsAtom(n);
    DecimalRoundTrip(n);
  }

  lemma {:induction false} DecimalLength(n: nat, k: nat)
    requires n < Pow10(k) && k > 0
    ensures |Decimal(n)| <= k
    decreases k
  {
    if n >= 10 {
      DecimalLength(n / 10, k - 1);
    }
  }

  lemma {:induction false} LeadingZerosAreWorthless(z: string, s: string)
    requires forall i :: 0 <= i < |z| ==> z[i] == '0'
    requires forall i :: 0 <= i < |s| ==> IsDigit(s[i])
    ensures DecimalValue(z + s) == DecimalValue(s)
    decreases |z| + |s|
  {
    if s != "" {
      var n := |s| - 1;
      assert (z + s)[..|z + s| - 1] == z + s[..n];
      LeadingZerosAreWorthless(z, s[..n]);
    } else if z != "" {
      assert z + s == z;
      assert z[..|z| - 1] + "" == z[..|z| - 1];
      LeadingZerosAreWorthless(z[..|z| - 1], "");
    } else {
      assert z + s == "";
    }
  }

  /** The padded fraction: exactly six digits, worth the fraction. */
  lemma PaddedFraction(fraction: nat)
    requires fraction < MAX_COIN_DECIMALS
    ensures var s := PadLeft(Decimal(fraction), 6);
            |s| == 6 && '.' !in s && ParseU128(s) == Some(fraction)
  {
    assert Pow10(2) == 100 && Pow10(4) == 100 * Pow10(2) && Pow10(6) == 100 * Pow10(4);
    DecimalLength(fraction, 6);
    var d := Decimal(fraction);
    var z := seq(6 - |d|, _ => '0');
    var s := z + d;
    assert PadLeft(d, 6) == s by {
      if |d| == 6 { assert z == "" && s == d; }
    }
    forall i | 0 <= i < |s|
      ensures IsDigit(s[i])
    {
      assert s[i] == if i < |z| then '0' else d[i - |z|];
    }
    assert !StartsWith(s, "+") by { assert IsDigit(s[0]) && s[..1][0] == s[0]; }
    LeadingZerosAreWorthless(z, d);
    DecimalRoundTrip(fraction);
  }

  lemma ParseWhole(whole: nat)
    requires whole < TWO_128
    ensures FromString(Decimal(whole)) == NewCoin(whole * MAX_COIN_DECIMALS % TWO_128)
  {
    ParsesDecimal(whole);
    DecimalIsAtom(whole);
    SplitAtom(Decimal(whole), '.');
  }

  lemma SmallBaseUnits(whole: nat, fraction: nat)
    requires whole * MAX_COIN_DECIMALS <= MAX_COIN && fraction < MAX_COIN_DECIMALS
    ensures BaseUnits(whole, fraction, 6) == whole * MAX_COIN_DECIMALS + fraction * 1000
  {
    assert Pow10(3) == 1000;
  }

  lemma ParseFraction(whole: nat, fraction: nat)
    requires whole * MAX_COIN_DECIMALS <= MAX_COIN && fraction < MAX_COIN_DECIMALS
    ensures FromString(Decimal(whole) + "." + PadLeft(Decimal(fraction), 6)) ==
            NewCoin(whole * MAX_COIN_DECIMALS + fraction * 1000)
  {
    var head, tail := Decimal(whole), PadLeft(Decimal(fraction), 6);
    ParsesDecimal(whole);
    DecimalIsAtom(whole);
    PaddedFraction(fraction);
    TwoPieces(head, tail);
    SixDigitParts(head, tail, whole, fraction);
    SmallBaseUnits(whole, fraction);
    assert head + "." + tail == head + ['.'] + tail;
  }

  lemma SixDigitParts(head: string, tail: string, whole: nat, fraction: nat)
    requires ParseU128(head) == Some(whole) && ParseU128(tail) == Some(fraction) && |tail| == 6
    ensures FromParts([head, tail]) == NewCoin(BaseUnits(whole, fraction, 6))
  {
  }

  lemma TwoPieces(head: string, tail: string)
    requires '.' !in head && '.' !in tail
    ensures Split(head + ['.'] + tail, '.') == [head, tail]
  {
    SplitCons(head, tail, '.');
    SplitAtom(tail, '.');
  }

  /** What the parser makes of a printed amount: the fraction comes back a thousand times too large. */
  lemma ParsePrinted(amount: nat)
    requires amount <= MAX_COIN
    ensures FromString(ToDecimalString(amount)) ==
            NewCoin(amount / MAX_COIN_DECIMALS * MAX_COIN_DECIMALS + amount % MAX_COIN_DECIMALS * 1000)
  {
    var whole, fraction := amount / MAX_COIN_DECIMALS, amount % MAX_COIN_DECIMALS;
    if fraction == 0 {
      ParseWhole(whole);
    } else {
      ParseFraction(whole, fraction);
    }
  }

  /** The text round trip returns the amount exactly for whole coins, and for no fractional amount. */
  lemma RoundTripExactly(amount: nat)
    requires amount <= MAX_COIN
    ensures FromString(ToDecimalString(amount)) == Ok(amount) <==> amount % MAX_COIN_DECIMALS == 0
  {
    ParsePrinted(amount);
  }

  /** One and a half coins come back as five hundred and one. */
  lemma OneAndAHalf()
    ensures FromString(ToDecimalString(1_500_000)) == Ok(501_000_000)
  {
    ParsePrinted(1_500_000);
  }

  // ----- Wrap-around -----

  /** The base units a string stands for, in exact arithmetic, or why it is no number. */
  function Units(s: string): Result<nat, CoinError> {
    UnitsOf(Split(s, '.'))
  }

  function UnitsOf(parts: seq<string>): Result<nat, CoinError> {
    if |parts| == 1 then
      match ParseU128(parts[0])
      case None => Err(InvalidNumber)
      case Some(whole) => Ok(whole * MAX_COIN_DECIMALS)
    else if |parts| == 2 then
      match ParseU128(parts[0])
      case None => Err(InvalidNumber)
      case Some(whole) =>
        var digits := if |parts[1]| > 9 then parts[1][..9] else parts[1];
        match ParseU128(digits)
        case None => Err(InvalidNumber)
        case Some(fraction) => Ok(whole * MAX_COIN_DECIMALS + fraction * Pow10(9 - |digits|))
    else Err(InvalidFormat)
  }

  /** The parser as it would be without wrap-around. */
  function ExactFromString(s: string): Result<nat, CoinError> {
    match Units(s)
    case Err(e) => Err(e)
    case Ok(u) => NewCoin(u)
  }

  lemma ModAdd(a: nat, b: nat)
    ensures (a % TWO_128 + b) % TWO_128 == (a + b) % TWO_128
  {
    var q, r := a / TWO_128, a % TWO_128;
    assert a == q * TWO_128 + r;
    AddMultiple(r + b, q);
  }

  lemma {:induction false} AddMultiple(x: nat, q: nat)
    ensures (x + q * TWO_128) % TWO_128 == x % TWO_128
  {
    if q > 0 {
      AddMultiple(x, q - 1);
      assert x + q * TWO_128 == (x + (q - 1) * TWO_128) + TWO_128;
    }
  }

  lemma BaseUnitsModulo(whole: nat, fraction: nat, width: nat)
    requires width <= 9
    ensures BaseUnits(whole, fraction, width) == (whole * MAX_COIN_DECIMALS + fraction * Pow10(9 - width)) % TWO_128
  {
    ModAdd(whole * MAX_COIN_DECIMALS, fraction * Pow10(9 - width));
  }

  lemma PartsModulo(parts: seq<string>)
    ensures FromParts(parts) == match UnitsOf(parts) case Err(e) => Err(e) case Ok(u) => NewCoin(u % TWO_128)
  {
    if |parts| == 2 {
      var whole, digits := ParseU128(parts[0]), if |parts[1]| > 9 then parts[1][..9] else parts[1];
      var fraction := ParseU128(digits);
      if whole.Some? && fraction.Some? {
        BaseUnitsModulo(whole.value, fraction.value, |digits|);
      }
    }
  }

  /** What an optimised build computes for any string: the exact units modulo 2^128. */
  lemma ParsesModulo(s: string)
    ensures FromString(s) == match Units(s) case Err(e) => Err(e) case Ok(u) => NewCoin(u % TWO_128)
  {
    PartsModulo(Split(s, '.'));
  }

  lemma HarmlessExactly(u: nat)
    ensures NewCoin(u % TWO_128) == NewCoin(u) <==> u < TWO_128 || u % TWO_128 > MAX_COIN
  {
  }

  /**
   For every string: the answer is right exactly when the units fit 128 bits, or wrap to an amount
   that is refused anyway.
   */
  lemma ParsesRightExactly(s: string)
    ensures FromString(s) == ExactFromString(s) <==>
            Units(s).Err? || Units(s).value < TWO_128 || Units(s).value % TWO_128 > MAX_COIN
  {
    ParsesModulo(s);
    if Units(s).Ok? {
      HarmlessExactly(Units(s).value);
    }
  }

  /** On the other side: a whole part beyond 128 bits that comes back as less than one coin. */
  lemma HugeWholeWrapsAround()
    ensures FromString(Decimal(340282366920938463463374607431769)) == Ok(788544)
    ensures ExactFromString(Decimal(340282366920938463463374607431769)) == Err(ExceedsMaximum)
  {
    var whole := 340282366920938463463374607431769;
    ParsesDecimal(whole);
    DecimalIsAtom(whole);
    SplitAtom(Decimal(whole), '.');
    ParseWhole(whole);
    Wraps(whole * MAX_COIN_DECIMALS, 788544);
  }

  lemma Wraps(x: nat, rest: nat)
    requires x == TWO_128 + rest && rest < TWO_128
    ensures x % TWO_128 == rest
  {
  }

  /** Digits of the fraction beyond the ninth are ignored. */
  lemma ExtraDigitsAreIgnored(head: string, tail: string)
    requires '.' !in head && '.' !in tail && |tail| > 9
    ensures FromString(head + ['.'] + tail) == FromString(head + ['.'] + tail[..9])
  {
    TwoPieces(head, tail);
    TwoPieces(head, tail[..9]);
    assert tail[..9][..9] == tail[..9];
  }

  /** The printed form: whole coins in base ten, then a six-digit fraction unless it is zero. */
  lemma PrintedExactly(amount: nat)
    ensures var whole, fraction := amount / 1_000_000, amount % 1_000_000;
            if fraction == 0 then DecimalValue(ToDecimalString(amount)) == whole && '.' !in ToDecimalString(amount)
            else exists tail :: |tail| == 6 && ParseU128(tail) == Some(fraction) && ToDecimalString(amount) == Decimal(whole) + "." + tail
  {
    DecimalRoundTrip(amount / 1_000_000);
    DecimalIsAtom(amount / 1_000_000);
    PaddedFraction(amount % 1_000_000);
  }

  /** Amounts up to a thousand million coins of a million units each, and no others. */
  lemma CoinLimit(amount: nat)
    ensures NewCoin(amount) == if amount <= 1_000_000_000 * 1_000_000 then Ok(amount) else Err(ExceedsMaximum)
  {
  }
}
