/** Shared vocabulary: optional values, results, bytes, addresses, positional notation and two facts about sequences. */
module Prelude {

  datatype Option<+T> = None | Some(value: T)

  datatype Result<+T, +E> = Ok(value: T) | Err(error: E)

  /** One octet. */
  type byte = x: int | 0 <= x < 256

  const TWO_63: int := 0x8000_0000_0000_0000
  const TWO_64: int := 0x1_0000_0000_0000_0000

  type int64 = x: int | -TWO_63 <= x < TWO_63
  type uint64 = x: int | 0 <= x < TWO_64

  /** An account address. */
  type Address = a: seq<byte> | |a| == 20 witness seq(20, _ => 0)

  function Min(a: int, b: int): int {
    if a < b then a else b
  }

  ghost predicate Distinct<T>(s: seq<T>) {
    forall i, j :: 0 <= i < j < |s| ==> s[i] != s[j]
  }

  ghost function Elements<T>(s: seq<T>): set<T> {
    set x | x in s
  }

  lemma {:induction false} DistinctCount<T>(s: seq<T>)
    requires Distinct(s)
    ensures |Elements(s)| == |s|
  {
    if s != [] {
      var n := |s| - 1;
      DistinctCount(s[..n]);
      assert s == s[..n] + [s[n]];
      assert s[n] !in Elements(s[..n]);
      assert Elements(s) == Elements(s[..n]) + {s[n]};
    }
  }

  function Zeros(n: nat): (z: seq<byte>)
    ensures |z| == n && forall i :: 0 <= i < n ==> z[i] == 0
  {
    seq(n, _ => 0)
  }

  /** Equal-length prefixes of equal concatenations are equal, and so are the rests. */
  lemma SplitUnique<T>(a: seq<T>, b: seq<T>, c: seq<T>, d: seq<T>)
    requires |a| == |c| && a + b == c + d
    ensures a == c && b == d
  {
    assert a == (a + b)[..|a|] == (c + d)[..|c|] == c;
    assert b == (a + b)[|a|..] == (c + d)[|c|..] == d;
  }

  function Power(base: nat, k: nat): nat {
    if k == 0 then 1 else base * Power(base, k - 1)
  }

  /** Positional notation, most significant digit first: the first of `n` digits weighs `base` to the `n - 1`. */
  function Positional(base: nat, digits: seq<nat>): nat {
    if digits == [] then 0 else digits[0] * Power(base, |digits| - 1) + Positional(base, digits[1..])
  }

  lemma {:induction false} PositionalSnoc(base: nat, digits: seq<nat>, d: nat)
    ensures Positional(base, digits + [d]) == base * Positional(base, digits) + d
    decreases |digits|
  {
    if digits == [] {
      assert [d][1..] == [] && [] + [d] == [d];
    } else {
      PositionalSnoc(base, digits[1..], d);
      assert (digits + [d])[1..] == digits[1..] + [d];
      Distribute(base, digits[0], Power(base, |digits| - 1), Positional(base, digits[1..]));
    }
  }

  lemma Distribute(base: nat, a: nat, p: nat, rest: nat)
    ensures a * (base * p) + base * rest == base * (a * p + rest)
  {
  }

  function Reversed(s: seq<nat>): (r: seq<nat>)
    ensures |r| == |s| && forall i :: 0 <= i < |s| ==> r[i] == s[|s| - 1 - i]
  {
    if s == [] then [] else Reversed(s[1..]) + [s[0]]
  }

  /** What bytes are worth, least significant first. */
  function LittleEndianValue(bytes: seq<byte>): nat {
    Positional(256, Reversed(bytes))
  }
}
