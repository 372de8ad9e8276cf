/**
 Validator entries: how they are hashed, and how staking and epoch selection change the two lists the
 app hash covers.
 */
module ValidatorSet {
  import opened Prelude
  import opened ChallengeDerivation
  import opened AppHash

  type uint128 = x: int | 0 <= x < 0x1_0000_0000_0000_0000_0000_0000_0000_0000

  /** A byte vector; its length fits a machine word. */
  type ByteVec = b: seq<byte> | |b| < TWO_64

  datatype ValidatorInfo = ValidatorInfo(address: Address, stake: uint128, publicKey: ByteVec)

  function Encode(v: ValidatorInfo): (bytes: seq<byte>)
    ensures |bytes| == 52 + |v.publicKey|
  {
    Prefixed(v.address) + (Word(v.stake, 16) + Prefixed(v.publicKey))
  }

  function AddressOf(v: ValidatorInfo): Address {
    v.address
  }

  lemma Pow256Is128Bits()
    ensures Pow256(16) == 0x1_0000_0000_0000_0000_0000_0000_0000_0000
  {
    Pow256Is64Bits();
    assert Pow256(12) == 256 * 256 * 256 * 256 * Pow256(8);
    assert Pow256(16) == 256 * 256 * 256 * 256 * Pow256(12);
  }

  lemma PrefixedDelimits(a: ByteVec, s: seq<byte>, b: ByteVec, t: seq<byte>)
    requires Prefixed(a) + s == Prefixed(b) + t
    ensures a == b && s == t
  {
    Regroup(Word(|a|, 8), a, s);
    Regroup(Word(|b|, 8), b, t);
    SplitUnique(Word(|a|, 8), a + s, Word(|b|, 8), b + t);
    Pow256Is64Bits();
    WordInjective(|a|, |b|, 8);
    SplitUnique(a, s, b, t);
  }

  /** The derived layout of an entry marks its own end. */
  lemma EncodeIsSelfDelimiting()
    ensures SelfDelimiting(Encode)
  {
    forall x, y, s, t | Encode(x) + s == Encode(y) + t
      ensures x == y
    {
      EntryDelimits(x, s, y, t);
    }
  }

  lemma EntryDelimits(x: ValidatorInfo, s: seq<byte>, y: ValidatorInfo, t: seq<byte>)
    requires Encode(x) + s == Encode(y) + t
    ensures x == y
  {
    var restX, restY := Word(x.stake, 16) + Prefixed(x.publicKey), Word(y.stake, 16) + Prefixed(y.publicKey);
    Regroup(Prefixed(x.address), restX, s);
    Regroup(Prefixed(y.address), restY, t);
    PrefixedDelimits(x.address, restX + s, y.address, restY + t);
    Regroup(Word(x.stake, 16), Prefixed(x.publicKey), s);
    Regroup(Word(y.stake, 16), Prefixed(y.publicKey), t);
    SplitUnique(Word(x.stake, 16), Prefixed(x.publicKey) + s, Word(y.stake, 16), Prefixed(y.publicKey) + t);
    Pow256Is128Bits();
    WordInjective(x.stake, y.stake, 16);
    PrefixedDelimits(x.publicKey, s, y.publicKey, t);
  }

  // ----- Staking and selection -----

  /** A stake with a public key: updates the sender's entry, or appends one. */
  function Staked(candidates: seq<ValidatorInfo>, v: ValidatorInfo): seq<ValidatorInfo> {
    if candidates == [] then [v]
    else if candidates[0].address == v.address then [v] + candidates[1..]
    else [candidates[0]] + Staked(candidates[1..], v)
  }

  method ProcessStake(candidates: seq<ValidatorInfo>, v: ValidatorInfo) returns (updated: seq<ValidatorInfo>)
    ensures updated == Staked(candidates, v)
  {
    for i := 0 to |candidates|
      invariant forall k :: 0 <= k < i ==> candidates[k].address != v.address
    {
      if candidates[i].address == v.address {
        StakedAt(candidates, v, i);
        return candidates[i := v];
      }
    }
    StakedAt(candidates, v, |candidates|);
    updated := candidates + [v];
  }

  /** Only the sender's entry changes; a newcomer goes to the end. */
  lemma {:induction false} StakedAt(candidates: seq<ValidatorInfo>, v: ValidatorInfo, i: nat)
    requires i <= |candidates| && forall k :: 0 <= k < i ==> candidates[k].address != v.address
    requires i < |candidates| ==> candidates[i].address == v.address
    ensures Staked(candidates, v) == if i < |candidates| then candidates[i := v] else candidates + [v]
    decreases |candidates|
  {
    if i > 0 {
      StakedAt(candidates[1..], v, i - 1);
      assert candidates == [candidates[0]] + candidates[1..];
    }
  }

  lemma {:induction false} Position(candidates: seq<ValidatorInfo>, address: Address) returns (i: nat)
    ensures i <= |candidates| && (i < |candidates| ==> candidates[i].address == address)
    ensures forall k :: 0 <= k < i ==> candidates[k].address != address
  {
    i := 0;
    while i < |candidates| && candidates[i].address != address
      invariant i <= |candidates| && forall k :: 0 <= k < i ==> candidates[k].address != address
    {
      i := i + 1;
    }
  }

  datatype Lists = Lists(candidates: seq<ValidatorInfo>, active: seq<ValidatorInfo>)

  /** `Select` takes candidates by position; which ones the priority order picks does not matter here. */
  datatype Op = Stake(v: ValidatorInfo) | Select(picks: seq<nat>)

  function Picked(candidates: seq<ValidatorInfo>, picks: seq<nat>): seq<ValidatorInfo>
    requires forall k :: 0 <= k < |picks| ==> picks[k] < |candidates|
  {
    seq(|picks|, k requires 0 <= k < |picks| => candidates[picks[k]])
  }

  function Step(l: Lists, op: Op): Lists {
    match op
    case Stake(v) => l.(candidates := Staked(l.candidates, v))
    case Select(picks) =>
      if forall k :: 0 <= k < |picks| ==> picks[k] < |l.candidates| then l.(active := Picked(l.candidates, picks)) else l
  }

  function Run(l: Lists, ops: seq<Op>): Lists {
    if ops == [] then l else Step(Run(l, ops[..|ops| - 1]), ops[|ops| - 1])
  }

  lemma StakeKeepsDrawn(l: Lists, v: ValidatorInfo)
    requires DrawnFrom(AddressOf, l.candidates, l.active)
    ensures DrawnFrom(AddressOf, Staked(l.candidates, v), l.active)
  {
    var i := Position(l.candidates, v.address);
    StakedAt(l.candidates, v, i);
    StakedKeepsKeys(l.candidates, Staked(l.candidates, v), v, i, l.active);
  }

  lemma StakedKeepsKeys(before: seq<ValidatorInfo>, after: seq<ValidatorInfo>, v: ValidatorInfo, i: nat, active: seq<ValidatorInfo>)
    requires i <= |before| && (forall k :: 0 <= k < i ==> before[k].address != v.address)
    requires i < |before| ==> before[i].address == v.address
    requires after == if i < |before| then before[i := v] else before + [v]
    requires DrawnFrom(AddressOf, before, active)
    ensures DrawnFrom(AddressOf, after, active)
  {
    assert forall k :: 0 <= k < |before| ==> AddressOf(after[k]) == AddressOf(before[k]);
    forall k | 0 <= k < |active|
      ensures HasKey(AddressOf, after, AddressOf(active[k]))
    {
      assert HasKey(AddressOf, before, AddressOf(active[k]));
      var j :| 0 <= j < |before| && AddressOf(before[j]) == AddressOf(active[k]);
      assert AddressOf(after[j]) == AddressOf(active[k]);
    }
  }

  lemma PickedAreDrawn(l: Lists, picks: seq<nat>)
    requires DrawnFrom(AddressOf, l.candidates, l.active) && forall k :: 0 <= k < |picks| ==> picks[k] < |l.candidates|
    ensures DrawnFrom(AddressOf, l.candidates, Picked(l.candidates, picks))
  {
    var active := Picked(l.candidates, picks);
    forall k | 0 <= k < |active|
      ensures HasKey(AddressOf, l.candidates, AddressOf(active[k]))
    {
      assert AddressOf(l.candidates[picks[k]]) == AddressOf(active[k]);
    }
  }

  /** Through every run, addresses stay distinct and active validators stay drawn from the candidates. */
  lemma {:induction false} RunKeepsDrawn(l: Lists, ops: seq<Op>)
    requires DrawnFrom(AddressOf, l.candidates, l.active)
    ensures DrawnFrom(AddressOf, Run(l, ops).candidates, Run(l, ops).active)
    decreases |ops|
  {
    if ops != [] {
      var before, op := Run(l, ops[..|ops| - 1]), ops[|ops| - 1];
      RunKeepsDrawn(l, ops[..|ops| - 1]);
      match op
      case Stake(v) => StakeKeepsDrawn(before, v);
      case Select(picks) =>
        if forall k :: 0 <= k < |picks| ==> picks[k] < |before.candidates| {
          PickedAreDrawn(before, picks);
        }
    }
  }

  /**
   Two nodes reached by any runs of staking and selection, alike in everything else: their app hash
   preimages are equal exactly when both validator lists are. Active membership is hashed.
   */
  lemma RunsHashBothLists<D(!new), C, A>(layout: Layout<D, ValidatorInfo, C, A>, h: Hashed<D, ValidatorInfo, C, A>,
                                         genesis: Lists, ops: seq<Op>, other: seq<Op>)
    requires layout.Ok() && layout.validator == Encode && DrawnFrom(AddressOf, genesis.candidates, genesis.active)
    ensures var l, m := Run(genesis, ops), Run(genesis, other);
            var a, b := h.(validators := l.candidates, active := l.active), h.(validators := m.candidates, active := m.active);
            Preimage(layout, a) == Preimage(layout, b) <==> l == m
  {
    var l, m := Run(genesis, ops), Run(genesis, other);
    RunKeepsDrawn(genesis, ops);
    RunKeepsDrawn(genesis, other);
    EncodeIsSelfDelimiting();
    ActiveListIsHashed(layout, AddressOf, h.(validators := l.candidates, active := l.active), m.candidates, m.active);
  }

  /** An entry: address behind its length, stake in sixteen bytes, key behind its length. */
  lemma EncodeLayout(v: ValidatorInfo)
    ensures LittleEndianValue(Encode(v)[..8]) == 20 && Encode(v)[8..28] == v.address
    ensures LittleEndianValue(Encode(v)[28..44]) == v.stake
    ensures LittleEndianValue(Encode(v)[44..52]) == |v.publicKey| && Encode(v)[52..] == v.publicKey
  {
    ThreeSlices(Prefixed(v.address), Word(v.stake, 16), Prefixed(v.publicKey));
    LengthPrefix(v.address);
    LengthPrefix(v.publicKey);
    Pow256Is128Bits();
    WordIsPositional(v.stake, 16);
  }

  lemma ThreeSlices(a: seq<byte>, b: seq<byte>, c: seq<byte>)
    requires |a| == 28 && |b| == 16 && |c| >= 8
    ensures var e := a + (b + c);
            e[..8] == a[..8] && e[8..28] == a[8..] && e[28..44] == b && e[44..52] == c[..8] && e[52..] == c[8..]
  {
  }
}
