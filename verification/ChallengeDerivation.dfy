/**
 Capacity challenges, recomputable by every node: which chunks are asked for, and the identifier
 of the challenge. SHA-256 and the seeded generator are parameters; a shuffle is whatever list of
 swaps the generator draws from the seed.
 */
module ChallengeDerivation {
  import opened Prelude
  import Hex

  // ----- Byte encodings -----

  function Ascii(s: string): (bytes: seq<byte>)
    requires forall i :: 0 <= i < |s| ==> s[i] as int < 128
    ensures |bytes| == |s| && forall i :: 0 <= i < |s| ==> bytes[i] == s[i] as int
  {
    seq(|s|, i requires 0 <= i < |s| => s[i] as int)
  }

  function BigEndian(x: nat, width: nat): (bytes: seq<byte>)
    ensures |bytes| == width
    decreases width
  {
    if width == 0 then [] else BigEndian(x / 256, width - 1) + [x % 256]
  }

  /** Two's complement. */
  function Int64Bytes(x: int64): (bytes: seq<byte>)
    ensures |bytes| == 8
  {
    BigEndian(if x < 0 then x + TWO_64 else x, 8)
  }

  function Uint64Bytes(x: uint64): (bytes: seq<byte>)
    ensures |bytes| == 8
  {
    BigEndian(x, 8)
  }

  function Pow256(k: nat): (p: nat)
    ensures p > 0
  {
    if k == 0 then 1 else 256 * Pow256(k - 1)
  }

  lemma {:induction false} BigEndianInjective(x: nat, y: nat, width: nat)
    requires x < Pow256(width) && y < Pow256(width) && BigEndian(x, width) == BigEndian(y, width)
    ensures x == y
    decreases width
  {
    if width > 0 {
      SplitUnique(BigEndian(x / 256, width - 1), [x % 256], BigEndian(y / 256, width - 1), [y % 256]);
      assert [x % 256][0] == [y % 256][0];
      BigEndianInjective(x / 256, y / 256, width - 1);
    }
  }

  /** The bytes are the number's digits in base 256, most significant first. */
  lemma {:induction false} BigEndianIsPositional(x: nat, width: nat)
    requires x < Pow256(width)
    ensures Positional(256, BigEndian(x, width)) == x
    decreases width
  {
    if width > 0 {
      BigEndianIsPositional(x / 256, width - 1);
      PositionalSnoc(256, BigEndian(x / 256, width - 1), x % 256);
    }
  }

  /** Two's complement: the bytes of a negative number stand for it plus 2^64. */
  lemma Int64BytesValue(x: int64)
    ensures Positional(256, Int64Bytes(x)) == if x < 0 then x + 0x1_0000_0000_0000_0000 else x
  {
    Pow256Is64Bits();
    BigEndianIsPositional(if x < 0 then x + TWO_64 else x, 8);
  }

  lemma Pow256Is64Bits()
    ensures Pow256(8) == TWO_64
  {
    assert Pow256(2) == 256 * 256;
    assert Pow256(4) == 256 * 256 * Pow256(2);
    assert Pow256(6) == 256 * 256 * Pow256(4);
    assert Pow256(8) == 256 * 256 * Pow256(6);
  }

  lemma Int64BytesInjective(x: int64, y: int64)
    requires Int64Bytes(x) == Int64Bytes(y)
    ensures x == y
  {
    Pow256Is64Bits();
    BigEndianInjective(if x < 0 then x + TWO_64 else x, if y < 0 then y + TWO_64 else y, 8);
  }

  lemma Uint64BytesInjective(x: uint64, y: uint64)
    requires Uint64Bytes(x) == Uint64Bytes(y)
    ensures x == y
  {
    Pow256Is64Bits();
    BigEndianInjective(x, y, 8);
  }

  lemma AddressBytesInjective(a: Address, b: Address)
    requires Ascii(Hex.AddressText(a)) == Ascii(Hex.AddressText(b))
    ensures a == b
  {
    var s, t := Hex.AddressText(a), Hex.AddressText(b);
    assert forall i :: 0 <= i < 42 ==> s[i] as int == Ascii(s)[i] == Ascii(t)[i] == t[i] as int;
    assert s == t;
    SplitUnique("0x", Hex.Encode(a), "0x", Hex.Encode(b));
    Hex.DecodeInvertsEncode(a);
    Hex.DecodeInvertsEncode(b);
  }

  // ----- Preimages -----

  const SELECTION_DOMAIN: string := "CHALLENGE_CHUNK_SELECTION"

  function SeedPreimage(epoch: int64, provider: Address, height: int64, validator: Address): seq<byte> {
    Ascii(SELECTION_DOMAIN) + Int64Bytes(epoch) + Ascii(Hex.AddressText(provider)) + Int64Bytes(height)
    + Ascii(Hex.AddressText(validator))
  }

  function IndexBytes(indices: seq<uint64>): (bytes: seq<byte>)
    ensures |bytes| == 8 * |indices|
  {
    if indices == [] then [] else Uint64Bytes(indices[0]) + IndexBytes(indices[1..])
  }

  function ChallengeIdPreimage(validator: Address, provider: Address, height: int64, indices: seq<uint64>): seq<byte> {
    Ascii(Hex.AddressText(validator)) + Ascii(Hex.AddressText(provider)) + Int64Bytes(height) + IndexBytes(indices)
  }

  /** Where each input sits in the selection seed. */
  lemma SeedLayout(epoch: int64, provider: Address, height: int64, validator: Address)
    ensures var p := SeedPreimage(epoch, provider, height, validator);
            && |p| == 125 && p[..25] == Ascii("CHALLENGE_CHUNK_SELECTION")
            && Positional(256, p[25..33]) == (if epoch < 0 then epoch + 0x1_0000_0000_0000_0000 else epoch)
            && p[33..75] == Ascii("0x" + Hex.Encode(provider))
            && Positional(256, p[75..83]) == (if height < 0 then height + 0x1_0000_0000_0000_0000 else height)
            && p[83..] == Ascii("0x" + Hex.Encode(validator))
  {
    var d, e, v, h, w := Ascii(SELECTION_DOMAIN), Int64Bytes(epoch), Ascii(Hex.AddressText(provider)), Int64Bytes(height),
                         Ascii(Hex.AddressText(validator));
    FivePieces(d, e, v, h, w);
    Int64BytesValue(epoch);
    Int64BytesValue(height);
  }

  lemma FivePieces(a: seq<byte>, b: seq<byte>, c: seq<byte>, d: seq<byte>, e: seq<byte>)
    ensures var p, i, j, k, l := a + b + c + d + e, |a|, |a| + |b|, |a| + |b| + |c|, |a| + |b| + |c| + |d|;
            p[..i] == a && p[i..j] == b && p[j..k] == c && p[k..l] == d && p[l..] == e
  {
  }

  /** Where each input sits in the identifier preimage. */
  lemma ChallengeIdLayout(validator: Address, provider: Address, height: int64, indices: seq<uint64>)
    ensures var p := ChallengeIdPreimage(validator, provider, height, indices);
            && |p| == 92 + 8 * |indices| && p[..42] == Ascii("0x" + Hex.Encode(validator))
            && p[42..84] == Ascii("0x" + Hex.Encode(provider))
            && Positional(256, p[84..92]) == (if height < 0 then height + 0x1_0000_0000_0000_0000 else height)
            && p[92..] == IndexBytes(indices)
  {
    var v, w, h, t := Ascii(Hex.AddressText(validator)), Ascii(Hex.AddressText(provider)), Int64Bytes(height), IndexBytes(indices);
    FivePieces(v, w, h, t, []);
    assert v + w + h + t + [] == ChallengeIdPreimage(validator, provider, height, indices);
    assert t == (v + w + h + t)[92..];
    Int64BytesValue(height);
  }

  /** Each index takes eight bytes, in order. */
  lemma {:induction false} IndexBytesLayout(indices: seq<uint64>, k: nat)
    requires k < |indices|
    ensures |IndexBytes(indices[..k])| == 8 * k
    ensures IndexBytes(indices) == IndexBytes(indices[..k]) + Uint64Bytes(indices[k]) + IndexBytes(indices[k + 1..])
    ensures Positional(256, Uint64Bytes(indices[k])) == indices[k]
    decreases k
  {
    Pow256Is64Bits();
    BigEndianIsPositional(indices[k], 8);
    if k == 0 {
      assert indices[..0] == [] && [] + Uint64Bytes(indices[0]) == Uint64Bytes(indices[0]);
    } else {
      var rest := indices[1..];
      IndexBytesLayout(rest, k - 1);
      assert indices[..k][0] == indices[0] && indices[..k][1..] == rest[..k - 1] && rest[k..] == indices[k + 1..];
      FourPieces(Uint64Bytes(indices[0]), IndexBytes(rest[..k - 1]), Uint64Bytes(indices[k]), IndexBytes(indices[k + 1..]));
    }
  }

  lemma FourPieces(a: seq<byte>, b: seq<byte>, c: seq<byte>, d: seq<byte>)
    ensures a + (b + c + d) == a + b + c + d
  {
  }

  /** Feeds the identifier hasher step by step, as the source does. */
  method ComputeChallengeId<H>(sha: seq<byte> -> H, validator: Address, provider: Address, height: int64,
                               indices: seq<uint64>) returns (id: H)
    ensures id == sha(ChallengeIdPreimage(validator, provider, height, indices))
  {
    var fed := Ascii(Hex.AddressText(validator)) + Ascii(Hex.AddressText(provider)) + Int64Bytes(height);
    ghost var head := fed;
    for k := 0 to |indices|
      invariant fed + IndexBytes(indices[k..]) == head + IndexBytes(indices)
    {
      assert indices[k..][1..] == indices[k + 1..];
      assert fed + (Uint64Bytes(indices[k]) + IndexBytes(indices[k + 1..]))
          == fed + Uint64Bytes(indices[k]) + IndexBytes(indices[k + 1..]);
      fed := fed + Uint64Bytes(indices[k]);
    }
    assert fed + IndexBytes([]) == fed;
    id := sha(fed);
  }

  lemma {:induction false} IndexBytesInjective(a: seq<uint64>, b: seq<uint64>)
    requires IndexBytes(a) == IndexBytes(b)
    ensures a == b
  {
    assert |a| == |b|;
    if a != [] {
      SplitUnique(Uint64Bytes(a[0]), IndexBytes(a[1..]), Uint64Bytes(b[0]), IndexBytes(b[1..]));
      Uint64BytesInjective(a[0], b[0]);
      IndexBytesInjective(a[1..], b[1..]);
      assert a == [a[0]] + a[1..] && b == [b[0]] + b[1..];
    }
  }

  /** Different challenge inputs never feed the identifier hash the same bytes. */
  lemma ChallengeIdPreimageInjective(v: Address, p: Address, h: int64, a: seq<uint64>,
                                     w: Address, q: Address, k: int64, b: seq<uint64>)
    requires ChallengeIdPreimage(v, p, h, a) == ChallengeIdPreimage(w, q, k, b)
    ensures v == w && p == q && h == k && a == b
  {
    var v', p', h', w', q', k' := Ascii(Hex.AddressText(v)), Ascii(Hex.AddressText(p)), Int64Bytes(h),
                                  Ascii(Hex.AddressText(w)), Ascii(Hex.AddressText(q)), Int64Bytes(k);
    SplitUnique(v' + p' + h', IndexBytes(a), w' + q' + k', IndexBytes(b));
    SplitUnique(v' + p', h', w' + q', k');
    SplitUnique(v', p', w', q');
    AddressBytesInjective(v, w);
    AddressBytesInjective(p, q);
    Int64BytesInjective(h, k);
    IndexBytesInjective(a, b);
  }

  lemma SeedPreimageInjective(e: int64, p: Address, h: int64, v: Address, f: int64, q: Address, k: int64, w: Address)
    requires SeedPreimage(e, p, h, v) == SeedPreimage(f, q, k, w)
    ensures e == f && p == q && h == k && v == w
  {
    var d := Ascii(SELECTION_DOMAIN);
    var e', p', h', v' := Int64Bytes(e), Ascii(Hex.AddressText(p)), Int64Bytes(h), Ascii(Hex.AddressText(v));
    var f', q', k', w' := Int64Bytes(f), Ascii(Hex.AddressText(q)), Int64Bytes(k), Ascii(Hex.AddressText(w));
    SplitUnique(d + e' + p' + h', v', d + f' + q' + k', w');
    SplitUnique(d + e' + p', h', d + f' + q', k');
    SplitUnique(d + e', p', d + f', q');
    SplitUnique(d, e', d, f');
    AddressBytesInjective(v, w);
    AddressBytesInjective(p, q);
    Int64BytesInjective(h, k);
    Int64BytesInjective(e, f);
  }

  /** The two preimages never coincide: one starts with the domain tag, the other with `0x`. */
  lemma PreimagesDisjoint(e: int64, p: Address, h: int64, v: Address, w: Address, q: Address, k: int64, b: seq<uint64>)
    ensures SeedPreimage(e, p, h, v) != ChallengeIdPreimage(w, q, k, b)
  {
    assert SeedPreimage(e, p, h, v)[0] == 'C' as int;
    assert ChallengeIdPreimage(w, q, k, b)[0] == '0' as int;
  }

  // ----- Selection -----

  function Identity(n: nat): (s: seq<nat>)
    ensures |s| == n && forall i :: 0 <= i < n ==> s[i] == i
  {
    seq(n, i => i)
  }

  ghost predicate InRange(swaps: seq<(nat, nat)>, n: nat) {
    forall k :: 0 <= k < |swaps| ==> swaps[k].0 < n && swaps[k].1 < n
  }

  function ApplySwaps(s: seq<nat>, swaps: seq<(nat, nat)>): (t: seq<nat>)
    requires InRange(swaps, |s|)
    ensures |t| == |s|
  {
    if swaps == [] then s
    else
      var t := ApplySwaps(s, swaps[..|swaps| - 1]);
      var (i, j) := swaps[|swaps| - 1];
      t[i := t[j]][j := t[i]]
  }

  /** `s` lists each number below its length exactly once. */
  ghost predicate IsPermutation(s: seq<nat>) {
    && (forall i :: 0 <= i < |s| ==> s[i] < |s|)
    && Distinct(s)
    && forall v :: 0 <= v < |s| ==> v in s
  }

  lemma {:induction false} SwapsPermute(n: nat, swaps: seq<(nat, nat)>)
    requires InRange(swaps, n)
    ensures IsPermutation(ApplySwaps(Identity(n), swaps))
    decreases |swaps|
  {
    if swaps == [] {
      forall v | 0 <= v < n
        ensures v in Identity(n)
      {
        assert Identity(n)[v] == v;
      }
    } else {
      SwapsPermute(n, swaps[..|swaps| - 1]);
      SwapPermutes(ApplySwaps(Identity(n), swaps[..|swaps| - 1]), swaps[|swaps| - 1].0, swaps[|swaps| - 1].1);
    }
  }

  lemma SwapPermutes(s: seq<nat>, i: nat, j: nat)
    requires IsPermutation(s) && i < |s| && j < |s|
    ensures IsPermutation(s[i := s[j]][j := s[i]])
  {
    var t := s[i := s[j]][j := s[i]];
    forall v | 0 <= v < |s|
      ensures v in t
    {
      assert v in s;
      var k :| 0 <= k < |s| && s[k] == v;
      assert t[if k == i then j else if k == j then i else k] == v;
    }
  }

  // ----- Every order can be drawn -----

  function Swapped(s: seq<nat>, i: nat, j: nat): (t: seq<nat>)
    requires i < |s| && j < |s|
    ensures |t| == |s|
  {
    s[i := s[j]][j := s[i]]
  }

  /** Swaps act from the first to the last. */
  lemma {:induction false} FirstSwapFirst(s: seq<nat>, i: nat, j: nat, rest: seq<(nat, nat)>)
    requires i < |s| && j < |s| && InRange(rest, |s|)
    ensures InRange([(i, j)] + rest, |s|) && ApplySwaps(s, [(i, j)] + rest) == ApplySwaps(Swapped(s, i, j), rest)
    decreases |rest|
  {
    var all := [(i, j)] + rest;
    assert forall k :: 0 <= k < |rest| ==> all[k + 1] == rest[k];
    if rest == [] {
      assert all == [(i, j)] && all[..0] == [];
    } else {
      var n := |rest| - 1;
      FirstSwapFirst(s, i, j, rest[..n]);
      assert all[..n + 1] == [(i, j)] + rest[..n] && all[n + 1] == rest[n];
    }
  }

  /** The shape of a Fisher-Yates shuffle of the first `k` positions: each, from the top, with one not above it. */
  ghost predicate FisherYatesShape(swaps: seq<(nat, nat)>, k: nat) {
    && |swaps| == (if k <= 1 then 0 else k - 1)
    && forall q :: 0 <= q < |swaps| ==> swaps[q].0 == k - 1 - q && swaps[q].1 <= k - 1 - q
  }

  /** Any rearrangement of the first `k` positions is the result of some such shuffle. */
  lemma {:induction false} DrawFrom(s: seq<nat>, t: seq<nat>, k: nat) returns (swaps: seq<(nat, nat)>)
    requires Rearranged(s, t, k)
    ensures FisherYatesShape(swaps, k) && InRange(swaps, |s|) && ApplySwaps(s, swaps) == t
    decreases k
  {
    if k <= 1 {
      swaps := [];
      NothingToDraw(s, t, k);
    } else {
      var j := PositionOf(s, t, k);
      SwapReaches(s, t, k, j);
      var rest := DrawFrom(Swapped(s, k - 1, j), t, k - 1);
      swaps := [(k - 1, j)] + rest;
      DrawStep(s, t, k, j, rest);
    }
  }

  lemma DrawStep(s: seq<nat>, t: seq<nat>, k: nat, j: nat, rest: seq<(nat, nat)>)
    requires 1 < k <= |s| && j < k && FisherYatesShape(rest, k - 1) && InRange(rest, |s|)
    requires ApplySwaps(Swapped(s, k - 1, j), rest) == t
    ensures var swaps := [(k - 1, j)] + rest;
            FisherYatesShape(swaps, k) && InRange(swaps, |s|) && ApplySwaps(s, swaps) == t
  {
    FirstSwapFirst(s, k - 1, j, rest);
    ShapeCons(rest, k, j);
  }

  /** `s` agrees with `t` from `k` on, and has the rest of `t` before it. */
  ghost predicate Rearranged(s: seq<nat>, t: seq<nat>, k: nat) {
    && k <= |s| == |t| && Distinct(t)
    && (forall i :: k <= i < |s| ==> s[i] == t[i])
    && forall i :: 0 <= i < k ==> OccursBefore(s, t[i], k)
  }

  ghost predicate OccursBefore(s: seq<nat>, v: nat, k: nat) {
    exists p :: 0 <= p < k <= |s| && s[p] == v
  }

  lemma NothingToDraw(s: seq<nat>, t: seq<nat>, k: nat)
    requires Rearranged(s, t, k) && k <= 1
    ensures s == t
  {
    assert k == 1 ==> OccursBefore(s, t[0], 1);
  }

  lemma PositionOf(s: seq<nat>, t: seq<nat>, k: nat) returns (j: nat)
    requires Rearranged(s, t, k) && k > 0
    ensures j < k && s[j] == t[k - 1]
  {
    assert OccursBefore(s, t[k - 1], k);
    j :| 0 <= j < k && s[j] == t[k - 1];
  }

  lemma ShapeCons(rest: seq<(nat, nat)>, k: nat, j: nat)
    requires k > 1 && j < k && FisherYatesShape(rest, k - 1)
    ensures FisherYatesShape([(k - 1, j)] + rest, k)
  {
    var swaps := [(k - 1, j)] + rest;
    assert forall q :: 0 < q < |swaps| ==> swaps[q] == rest[q - 1];
  }

  lemma SwapReaches(s: seq<nat>, t: seq<nat>, k: nat, j: nat)
    requires Rearranged(s, t, k) && j < k && s[j] == t[k - 1]
    ensures Rearranged(Swapped(s, k - 1, j), t, k - 1)
  {
    var u := Swapped(s, k - 1, j);
    forall i | 0 <= i < k - 1
      ensures OccursBefore(u, t[i], k - 1)
    {
      assert OccursBefore(s, t[i], k);
      var p :| 0 <= p < k && s[p] == t[i];
      assert u[if p == k - 1 then j else p] == t[i];
    }
  }

  /** Every order of the chunks is drawn by some swaps, so every challenge can be asked. */
  lemma EveryOrderIsDrawn(order: seq<nat>) returns (swaps: seq<(nat, nat)>)
    requires IsPermutation(order)
    ensures InRange(swaps, |order|) && ApplySwaps(Identity(|order|), swaps) == order
    ensures forall k :: 0 <= k <= |order| ==> SelectedIndices(|order|, k, swaps) == order[..k]
    ensures FisherYatesShape(swaps, |order|)
  {
    var n, identity := |order|, Identity(|order|);
    forall i | 0 <= i < n
      ensures OccursBefore(identity, order[i], n)
    {
      assert identity[order[i]] == order[i];
    }
    swaps := DrawFrom(identity, order, n);
  }

  /** One swap decides a one-chunk challenge. */
  lemma AnyChunkCanBeAsked(n: nat, v: nat)
    requires v < n
    ensures InRange([(0, v)], n) && SelectedIndices(n, 1, [(0, v)]) == [v]
  {
    FirstSwapFirst(Identity(n), 0, v, []);
    assert [(0, v)] + [] == [(0, v)];
  }

  /** The shuffled prefix of `[0, chunkCount)` that a challenge asks for. */
  function SelectedIndices(chunkCount: nat, perChallenge: nat, swaps: seq<(nat, nat)>): seq<nat>
    requires InRange(swaps, chunkCount)
  {
    ApplySwaps(Identity(chunkCount), swaps)[..Min(perChallenge, chunkCount)]
  }

  /**
   Whatever the generator draws: distinct indices, all below the chunk count, as many as asked for
   or all of them. `draw` stands for the generator seeded with a digest, run over `n` positions.
   */
  method SelectChallengeChunkIndices<H>(sha: seq<byte> -> H, draw: (H, nat) -> seq<(nat, nat)>,
                                        epoch: int64, provider: Address, height: int64, validator: Address,
                                        chunkCount: nat, perChallenge: nat)
    returns (indices: seq<nat>)
    requires InRange(draw(sha(SeedPreimage(epoch, provider, height, validator)), chunkCount), chunkCount)
    ensures indices == SelectedIndices(chunkCount, perChallenge,
                                       draw(sha(SeedPreimage(epoch, provider, height, validator)), chunkCount))
    ensures |indices| == Min(perChallenge, chunkCount) && Distinct(indices)
    ensures forall k :: 0 <= k < |indices| ==> indices[k] < chunkCount
    ensures perChallenge >= chunkCount ==> forall v :: 0 <= v < chunkCount ==> v in indices
  {
    var swaps := draw(sha(SeedPreimage(epoch, provider, height, validator)), chunkCount);
    SwapsPermute(chunkCount, swaps);
    if chunkCount == 0 {
      return [];
    }
    var chunkIndices := Shuffle(chunkCount, swaps);
    indices := chunkIndices[..Min(perChallenge, chunkCount)];
    if perChallenge >= chunkCount {
      assert indices == chunkIndices;
    }
  }

  method Shuffle(n: nat, swaps: seq<(nat, nat)>) returns (shuffled: seq<nat>)
    requires InRange(swaps, n)
    ensures shuffled == ApplySwaps(Identity(n), swaps)
  {
    var a := new nat[n](i => i);
    assert a[..] == Identity(n);
    for k := 0 to |swaps|
      invariant a[..] == ApplySwaps(Identity(n), swaps[..k])
    {
      var (i, j) := swaps[k];
      assert swaps[..k + 1][..k] == swaps[..k];
      a[i], a[j] := a[j], a[i];
    }
    assert swaps[..|swaps|] == swaps;
    shuffled := a[..];
  }
}
