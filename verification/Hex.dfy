/** Fixed-width hexadecimal identifiers: optional `0x` / `0X` prefix on input, lowercase on output. */
module Hex {
  import opened Prelude
  import opened Text

  predicate IsHexDigit(c: char) {
    '0' <= c <= '9' || 'a' <= c <= 'f' || 'A' <= c <= 'F'
  }

  ghost predicate AllHex(s: string) {
    forall i :: 0 <= i < |s| ==> IsHexDigit(s[i])
  }

  function DigitValue(c: char): (v: nat)
    requires IsHexDigit(c)
    ensures v < 16
  {
    if c <= '9' then c as int - '0' as int
    else if c <= 'F' then c as int - 'A' as int + 10
    else c as int - 'a' as int + 10
  }

  function Digit(v: nat): (c: char)
    requires v < 16
    ensures IsHexDigit(c) && DigitValue(c) == v && !('A' <= c <= 'F')
  {
    if v < 10 then ('0' as int + v) as char else ('a' as int + v - 10) as char
  }

  /** Lowercase hex, two digits per byte. */
  function Encode(bytes: seq<byte>): (s: string)
    ensures |s| == 2 * |bytes| && AllHex(s)
    ensures forall i :: 0 <= i < |s| ==> !('A' <= s[i] <= 'F')
  {
    if bytes == [] then "" else [Digit(bytes[0] / 16), Digit(bytes[0] % 16)] + Encode(bytes[1..])
  }

  /** `None` on an odd number of characters or a character that is no hex digit. */
  function Decode(s: string): (r: Option<seq<byte>>)
    ensures r.Some? ==> 2 * |r.value| == |s|
    decreases |s|
  {
    if s == "" then Some([])
    else if |s| == 1 || !IsHexDigit(s[0]) || !IsHexDigit(s[1]) then None
    else
      match Decode(s[2..])
      case None => None
      case Some(rest) => Some([16 * DigitValue(s[0]) + DigitValue(s[1])] + rest)
  }

  function StripOptionalPrefix(s: string): string {
    if |s| >= 2 && s[0] == '0' && (s[1] == 'x' || s[1] == 'X') then s[2..] else s
  }

  /** Exactly `n` bytes, or `None`. */
  function DecodeFixed(n: nat, s: string): Option<seq<byte>> {
    var body := StripOptionalPrefix(s);
    if body == "" then None
    else
      match Decode(body)
      case None => None
      case Some(bytes) => if |bytes| == n then Some(bytes) else None
  }

  /** The accepted spellings of `n` bytes. */
  ghost predicate Spells(s: string, n: nat, prefix: string, body: string) {
    prefix in {"", "0x", "0X"} && s == prefix + body && |body| == 2 * n && AllHex(body)
  }

  lemma {:induction false} DecodeAcceptsExactly(s: string)
    ensures Decode(s).Some? <==> |s| % 2 == 0 && AllHex(s)
    decreases |s|
  {
    if |s| >= 2 {
      DecodeAcceptsExactly(s[2..]);
      assert forall i :: 0 <= i < |s[2..]| ==> s[2..][i] == s[i + 2];
      assert AllHex(s) <==> IsHexDigit(s[0]) && IsHexDigit(s[1]) && AllHex(s[2..]) by {
        if IsHexDigit(s[0]) && IsHexDigit(s[1]) && AllHex(s[2..]) {
          forall i | 0 <= i < |s|
            ensures IsHexDigit(s[i])
          {
            if i >= 2 { assert s[i] == s[2..][i - 2]; }
          }
        }
      }
    }
  }

  lemma DecodeCons(b: byte, s: string)
    ensures var t := [Digit(b / 16), Digit(b % 16)] + s;
            Decode(t) == match Decode(s) case None => None case Some(rest) => Some([b] + rest)
  {
    var t := [Digit(b / 16), Digit(b % 16)] + s;
    assert t[0] == Digit(b / 16) && t[1] == Digit(b % 16) && t[2..] == s;
  }

  lemma {:induction false} DecodeInvertsEncode(bytes: seq<byte>)
    ensures Decode(Encode(bytes)) == Some(bytes)
  {
    if bytes != [] {
      DecodeInvertsEncode(bytes[1..]);
      DecodeCons(bytes[0], Encode(bytes[1..]));
      assert bytes == [bytes[0]] + bytes[1..];
    }
  }

  /** Printing what was read gives the input back in lowercase. */
  lemma {:induction false} EncodeInvertsDecode(s: string)
    requires Decode(s).Some?
    ensures Encode(Decode(s).value) == LowerAll(s)
    decreases |s|
  {
    if s != "" {
      EncodeInvertsDecode(s[2..]);
      var v, w := DigitValue(s[0]), DigitValue(s[1]);
      EncodeCons(v, w, Decode(s[2..]).value);
      DigitLower(s[0]);
      DigitLower(s[1]);
      LowerPair(s);
    }
  }

  lemma LowerPair(s: string)
    requires |s| >= 2
    ensures LowerAll(s) == [Lower(s[0]), Lower(s[1])] + LowerAll(s[2..])
  {
  }

  lemma EncodeCons(v: nat, w: nat, rest: seq<byte>)
    requires v < 16 && w < 16
    ensures Encode([16 * v + w] + rest) == [Digit(v), Digit(w)] + Encode(rest)
  {
    var bytes: seq<byte> := [16 * v + w] + rest;
    assert bytes[0] / 16 == v && bytes[0] % 16 == w && bytes[1..] == rest;
  }

  lemma DigitLower(c: char)
    requires IsHexDigit(c)
    ensures Digit(DigitValue(c)) == Lower(c)
  {
  }

  /** The prefix is unambiguous: stripping a spelling leaves its body. */
  lemma StripFindsBody(s: string, n: nat, prefix: string, body: string)
    requires Spells(s, n, prefix, body)
    ensures StripOptionalPrefix(s) == body
  {
    if prefix == "" {
      assert s == body;
    } else {
      assert s[0] == prefix[0] && s[1] == prefix[1] && s[2..] == body;
    }
  }

  /** A width is decodable exactly when it is positive and the input spells it; the value is the body's. */
  lemma DecodeFixedAcceptsExactly(n: nat, s: string)
    ensures DecodeFixed(n, s).Some? <==> n > 0 && exists prefix, body :: Spells(s, n, prefix, body)
    ensures forall prefix, body :: n > 0 && Spells(s, n, prefix, body) ==>
              DecodeFixed(n, s).Some? && Encode(DecodeFixed(n, s).value) == LowerAll(body)
  {
    var stripped := StripOptionalPrefix(s);
    DecodeAcceptsExactly(stripped);
    if DecodeFixed(n, s).Some? {
      var prefix := s[..|s| - |stripped|];
      assert prefix in {"", "0x", "0X"} by {
        if |stripped| != |s| { assert prefix == [s[0], s[1]]; }
      }
      assert Spells(s, n, prefix, stripped);
    }
    forall prefix, body | n > 0 && Spells(s, n, prefix, body)
      ensures DecodeFixed(n, s).Some? && Encode(DecodeFixed(n, s).value) == LowerAll(body)
    {
      StripFindsBody(s, n, prefix, body);
      EncodeInvertsDecode(body);
    }
  }

  /** Both printed forms read back, under either case of the prefix. */
  lemma DecodeFixedInvertsPrinting(bytes: seq<byte>, prefix: string)
    requires bytes != [] && prefix in {"", "0x", "0X"}
    ensures DecodeFixed(|bytes|, prefix + Encode(bytes)) == Some(bytes)
  {
    assert Spells(prefix + Encode(bytes), |bytes|, prefix, Encode(bytes));
    StripFindsBody(prefix + Encode(bytes), |bytes|, prefix, Encode(bytes));
    DecodeInvertsEncode(bytes);
  }

  /** The printed form of an address: `0x` and 40 lowercase digits. */
  function AddressText(a: Address): (s: string)
    ensures |s| == 42 && forall i :: 0 <= i < |s| ==> s[i] as int < 128
  {
    "0x" + Encode(a)
  }

  /** The sixteen digits. */
  const DIGITS: string := "0123456789abcdef"

  /** A digit's value is its place among the sixteen, in either case. */
  lemma DigitsByValue(c: char)
    requires IsHexDigit(c)
    ensures |DIGITS| == 16 && DIGITS[DigitValue(c)] == Lower(c)
  {
  }

  /** Byte `i` is printed as its high digit, then its low digit. */
  lemma {:induction false} EncodeAt(bytes: seq<byte>, i: nat)
    requires i < |bytes|
    ensures Encode(bytes)[2 * i] == DIGITS[bytes[i] / 16] && Encode(bytes)[2 * i + 1] == DIGITS[bytes[i] % 16]
    decreases |bytes|
  {
    if i == 0 {
      DigitsByValue(Digit(bytes[0] / 16));
      DigitsByValue(Digit(bytes[0] % 16));
    } else {
      EncodeAt(bytes[1..], i - 1);
    }
  }
}
