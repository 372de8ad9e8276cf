/** The slot statistics of the admin API and what every run conserves of them. */
module SlotStats {
  import opened Prelude
  import opened CapacityProof
  import opened Slots
  import opened CapacityStore
  import opened CapacityRuns

  datatype Kind = ProofKind | OpenKind | ContentKind

  datatype KindStats = KindStats(count: nat, bytes: nat)

  datatype SlotsSnapshot = SlotsSnapshot(
    loaded: bool, capacityBytes: nat, total: nat, proof: KindStats, open: KindStats, content: KindStats)

  function KindOf<D>(state: SlotState<D>): Kind {
    match state
    case Proof => ProofKind
    case Open => OpenKind
    case Content(_, _) => ContentKind
  }

  function Count<D>(slots: seq<Slot<D>>, kind: Kind): nat {
    if slots == [] then 0
    else Count(slots[..|slots| - 1], kind) + if KindOf(slots[|slots| - 1].state) == kind then 1 else 0
  }

  function Bytes<D>(slots: seq<Slot<D>>, kind: Kind): nat {
    if slots == [] then 0
    else Bytes(slots[..|slots| - 1], kind) + if KindOf(slots[|slots| - 1].state) == kind then slots[|slots| - 1].size else 0
  }

  /** Addition on unsigned 64-bit counters that sticks at the top. */
  function SaturatingAdd(a: nat, b: nat): nat {
    Min(a + b, TWO_64 - 1)
  }

  function Saturated<D>(slots: seq<Slot<D>>, kind: Kind): KindStats {
    KindStats(Min(Count(slots, kind), TWO_64 - 1), Min(Bytes(slots, kind), TWO_64 - 1))
  }

  /** Six saturating counters in one pass; each ends at its true total, or at the top. */
  method SnapshotSlots<D>(slotMap: Option<seq<Slot<D>>>, capacityBytes: nat) returns (snapshot: SlotsSnapshot)
    ensures slotMap.None? ==> snapshot == SlotsSnapshot(false, 0, 0, KindStats(0, 0), KindStats(0, 0), KindStats(0, 0))
    ensures slotMap.Some? ==>
              var slots := slotMap.value;
              snapshot == SlotsSnapshot(true, capacityBytes, |slots|, Saturated(slots, ProofKind),
                                        Saturated(slots, OpenKind), Saturated(slots, ContentKind))
  {
    if slotMap.None? {
      return SlotsSnapshot(false, 0, 0, KindStats(0, 0), KindStats(0, 0), KindStats(0, 0));
    }
    var slots := slotMap.value;
    var proofC, openC, contentC, proofB, openB, contentB := 0, 0, 0, 0, 0, 0;
    for i := 0 to |slots|
      invariant KindStats(proofC, proofB) == Saturated(slots[..i], ProofKind)
      invariant KindStats(openC, openB) == Saturated(slots[..i], OpenKind)
      invariant KindStats(contentC, contentB) == Saturated(slots[..i], ContentKind)
    {
      assert slots[..i + 1][..i] == slots[..i];
      var b := slots[i].size;
      match slots[i].state
      case Proof => proofC, proofB := SaturatingAdd(proofC, 1), SaturatingAdd(proofB, b);
      case Open => openC, openB := SaturatingAdd(openC, 1), SaturatingAdd(openB, b);
      case Content(_, _) => contentC, contentB := SaturatingAdd(contentC, 1), SaturatingAdd(contentB, b);
    }
    assert slots[..|slots|] == slots;
    snapshot := SlotsSnapshot(true, capacityBytes, |slots|, KindStats(proofC, proofB), KindStats(openC, openB),
                              KindStats(contentC, contentB));
  }

  /** Slots that keep their place and their proof role keep the proof totals and the open-plus-content totals. */
  lemma {:induction false} SameSlotsSameTotals<D>(a: seq<Slot<D>>, b: seq<Slot<D>>)
    requires SameSlots(a, b)
    ensures Count(a, ProofKind) == Count(b, ProofKind) && Bytes(a, ProofKind) == Bytes(b, ProofKind)
    ensures Count(a, OpenKind) + Count(a, ContentKind) == Count(b, OpenKind) + Count(b, ContentKind)
    ensures Bytes(a, OpenKind) + Bytes(a, ContentKind) == Bytes(b, OpenKind) + Bytes(b, ContentKind)
    decreases |a|
  {
    if a != [] {
      SameSlotsSameTotals(a[..|a| - 1], b[..|b| - 1]);
    }
  }

  /** No run creates or destroys slots or bytes: what leaves the open pool is in the content pool. */
  lemma RunConservesSlots<D>(env: Env<D>, s: Store<D>, ops: seq<Op>)
    requires env.Ok() && Sound(env, s)
    ensures var t := Run(env, s, ops);
            && Count(t.slots, ProofKind) == Count(s.slots, ProofKind)
            && Bytes(t.slots, ProofKind) == Bytes(s.slots, ProofKind)
            && Count(t.slots, OpenKind) + Count(t.slots, ContentKind) == Count(s.slots, OpenKind) + Count(s.slots, ContentKind)
            && Bytes(t.slots, OpenKind) + Bytes(t.slots, ContentKind) == Bytes(s.slots, OpenKind) + Bytes(s.slots, ContentKind)
  {
    RunRefinesMap(env, s, ops);
    SameSlotsSameTotals(s.slots, Run(env, s, ops).slots);
  }

  // ----- What the counters count -----

  ghost predicate HasKind<D>(slot: Slot<D>, kind: Kind) {
    match kind
    case ProofKind => slot.state.Proof?
    case OpenKind => slot.state.Open?
    case ContentKind => slot.state.Content?
  }

  ghost function OfKind<D>(slots: seq<Slot<D>>, kind: Kind): set<nat> {
    set i | 0 <= i < |slots| && HasKind(slots[i], kind)
  }

  lemma OfKindSnoc<D>(slots: seq<Slot<D>>, kind: Kind)
    requires slots != []
    ensures var n := |slots| - 1;
            var before := OfKind(slots[..n], kind);
            n !in before && OfKind(slots, kind) == if HasKind(slots[n], kind) then before + {n} else before
  {
  }

  /** A kind's count is the number of slots of that kind. */
  lemma {:induction false} CountsAreCardinalities<D>(slots: seq<Slot<D>>, kind: Kind)
    ensures Count(slots, kind) == |OfKind(slots, kind)|
    decreases |slots|
  {
    if slots != [] {
      CountsAreCardinalities(slots[..|slots| - 1], kind);
      OfKindSnoc(slots, kind);
    }
  }

  function TotalBytes<D>(slots: seq<Slot<D>>): nat {
    if slots == [] then 0 else TotalBytes(slots[..|slots| - 1]) + slots[|slots| - 1].size
  }

  /** The three kinds share out all slots and all bytes. */
  lemma {:induction false} KindsPartition<D>(slots: seq<Slot<D>>)
    ensures Count(slots, ProofKind) + Count(slots, OpenKind) + Count(slots, ContentKind) == |slots|
    ensures Bytes(slots, ProofKind) + Bytes(slots, OpenKind) + Bytes(slots, ContentKind) == TotalBytes(slots)
    decreases |slots|
  {
    if slots != [] {
      KindsPartition(slots[..|slots| - 1]);
    }
  }

  /** Filling an open slot moves exactly its bytes from open to content. */
  lemma {:induction false} FillingMovesBytes<D>(slots: seq<Slot<D>>, i: nat, id: string, hash: D)
    requires i < |slots| && slots[i].state.Open?
    ensures var filled := slots[i := slots[i].(state := Content(id, hash))];
            && Bytes(slots, OpenKind) == Bytes(filled, OpenKind) + slots[i].size
            && Bytes(filled, ContentKind) == Bytes(slots, ContentKind) + slots[i].size
            && Bytes(filled, ProofKind) == Bytes(slots, ProofKind)
    decreases |slots|
  {
    var n, filled := |slots| - 1, slots[i := slots[i].(state := Content(id, hash))];
    if i < n {
      FillingMovesBytes(slots[..n], i, id, hash);
      assert filled[..n] == slots[..n][i := slots[i].(state := Content(id, hash))];
    } else {
      assert filled[..n] == slots[..n];
    }
  }

  /** Totals below 2^64 are reported exactly. */
  lemma SmallTotalsAreExact<D>(slots: seq<Slot<D>>, kind: Kind)
    requires |OfKind(slots, kind)| < 0x1_0000_0000_0000_0000 && Bytes(slots, kind) < 0x1_0000_0000_0000_0000
    ensures Saturated(slots, kind) == KindStats(|OfKind(slots, kind)|, Bytes(slots, kind))
  {
    CountsAreCardinalities(slots, kind);
  }
}
