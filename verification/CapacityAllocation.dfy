/** Cutting a fresh capacity file into slots at shuffled offsets. The seeded hashes are parameters. */
module CapacityAllocation {
  import opened Prelude
  import opened CapacityProof
  import opened ChallengeDerivation
  import opened Slots
  import opened CapacityStore
  import opened CapacityRuns

  /** The swaps `(i, draw(i) mod (i + 1))` for `i` from `n - 1` down to 1. */
  function FisherYatesSwaps(n: nat, draw: nat -> nat): (swaps: seq<(nat, nat)>)
    ensures InRange(swaps, n)
  {
    if n <= 1 then []
    else seq(n - 1, k requires 0 <= k < n - 1 => (n - 1 - k, draw(n - 1 - k) % (n - k)))
  }

  /** The chunk order the draws shuffle out. */
  function DrawnOrder(n: nat, draw: nat -> nat): (order: seq<nat>)
    ensures |order| == n
  {
    ApplySwaps(Identity(n), FisherYatesSwaps(n, draw))
  }

  /** The generator that draws these numbers. */
  function Drawing(draws: seq<nat>): nat -> nat {
    (i: nat) => if i < |draws| then draws[i] else 0
  }

  /** Every order of the full chunks is the outcome of some draws. */
  lemma EveryPlanIsDrawn(order: seq<nat>) returns (draws: seq<nat>)
    requires IsPermutation(order)
    ensures DrawnOrder(|order|, Drawing(draws)) == order
  {
    var swaps := EveryOrderIsDrawn(order);
    draws := DrawsOf(swaps, |order|);
    DrawsGiveSwaps(|order|, Drawing(draws), swaps);
  }

  function DrawsOf(swaps: seq<(nat, nat)>, n: nat): (draws: seq<nat>)
    requires |swaps| == if n <= 1 then 0 else n - 1
    ensures |draws| == n && forall i :: 0 < i < n ==> draws[i] == swaps[n - 1 - i].1
  {
    seq(n, i requires 0 <= i < n => if 0 < i then swaps[n - 1 - i].1 else 0)
  }

  lemma DrawsGiveSwaps(n: nat, draw: nat -> nat, swaps: seq<(nat, nat)>)
    requires FisherYatesShape(swaps, n) && forall i :: 0 < i < n ==> draw(i) == swaps[n - 1 - i].1
    ensures FisherYatesSwaps(n, draw) == swaps
  {
    forall k | 0 <= k < |swaps|
      ensures FisherYatesSwaps(n, draw)[k] == swaps[k]
    {
      assert draw(n - 1 - k) == swaps[k].1;
      SmallRemainder(swaps[k].1, n - k);
    }
  }

  lemma SmallRemainder(x: nat, m: nat)
    requires x < m
    ensures x % m == x
  {
  }

  function LastChunkSize(capacityBytes: nat): (size: nat)
    requires capacityBytes > 0
    ensures 0 < size <= MAX_CHUNK_SIZE
    ensures capacityBytes == MAX_CHUNK_SIZE * (SlotsFor(capacityBytes) - 1) + size
  {
    if capacityBytes % MAX_CHUNK_SIZE > 0 then capacityBytes % MAX_CHUNK_SIZE else MAX_CHUNK_SIZE
  }

  /** Offset and size of every chunk: full chunks in shuffled order, the last chunk at the end. */
  function Ranges(capacityBytes: nat, order: seq<nat>): (ranges: seq<(nat, nat)>)
    requires capacityBytes > 0 && |order| == SlotsFor(capacityBytes) - 1
    ensures |ranges| == SlotsFor(capacityBytes)
  {
    seq(|order|, k requires 0 <= k < |order| => (order[k] * MAX_CHUNK_SIZE, MAX_CHUNK_SIZE)) +
    [(capacityBytes - LastChunkSize(capacityBytes), LastChunkSize(capacityBytes))]
  }

  lemma RangeOffsets(capacityBytes: nat, order: seq<nat>)
    requires capacityBytes > 0 && |order| == SlotsFor(capacityBytes) - 1
    ensures forall i :: 0 <= i < |order| ==> Ranges(capacityBytes, order)[i] == (1024 * order[i], 1024)
    ensures capacityBytes % MAX_CHUNK_SIZE == 0 ==> Ranges(capacityBytes, order)[|order|].1 == MAX_CHUNK_SIZE
  {
  }

  ghost predicate Overlap(a: (nat, nat), b: (nat, nat)) {
    a.0 < b.0 + b.1 && a.0 + a.1 > b.0
  }

  ghost predicate Covered(ranges: seq<(nat, nat)>, b: nat) {
    exists i :: 0 <= i < |ranges| && ranges[i].0 <= b < ranges[i].0 + ranges[i].1
  }

  /** The source's pairwise overlap test. */
  method HasOverlap(ranges: seq<(nat, nat)>) returns (overlap: bool)
    ensures overlap <==> exists i, j :: 0 <= i < j < |ranges| && Overlap(ranges[i], ranges[j])
  {
    for i := 0 to |ranges|
      invariant forall x, y :: 0 <= x < i && x < y < |ranges| ==> !Overlap(ranges[x], ranges[y])
    {
      for j := i + 1 to |ranges|
        invariant forall y :: i < y < j ==> !Overlap(ranges[i], ranges[y])
      {
        if ranges[i].0 < ranges[j].0 + ranges[j].1 && ranges[i].0 + ranges[i].1 > ranges[j].0 {
          assert Overlap(ranges[i], ranges[j]);
          return true;
        }
      }
    }
    overlap := false;
  }

  /** The ranges lie in the file, never overlap, and every byte of the file is in one of them. */
  lemma RangesTileFile(capacityBytes: nat, order: seq<nat>)
    requires capacityBytes > 0 && |order| == SlotsFor(capacityBytes) - 1 && IsPermutation(order)
    ensures var ranges := Ranges(capacityBytes, order);
            && (forall i :: 0 <= i < |ranges| ==> ranges[i].0 + ranges[i].1 <= capacityBytes && 0 < ranges[i].1 <= MAX_CHUNK_SIZE)
            && (forall i, j :: 0 <= i < j < |ranges| ==> !Overlap(ranges[i], ranges[j]))
            && (forall b :: 0 <= b < capacityBytes ==> Covered(ranges, b))
  {
    var ranges := Ranges(capacityBytes, order);
    var last := |order|;
    assert ranges[last] == (MAX_CHUNK_SIZE * last, LastChunkSize(capacityBytes));
    assert forall i :: 0 <= i < last ==> ranges[i] == (order[i] * MAX_CHUNK_SIZE, MAX_CHUNK_SIZE) && order[i] < last;
    forall i, j | 0 <= i < j < |ranges|
      ensures !Overlap(ranges[i], ranges[j])
    {
      if j < last {
        assert order[i] != order[j];
      }
    }
    forall b | 0 <= b < capacityBytes
      ensures Covered(ranges, b)
    {
      var q := b / MAX_CHUNK_SIZE;
      if q < last {
        assert q in order;
        var i :| 0 <= i < |order| && order[i] == q;
        assert ranges[i].0 <= b < ranges[i].0 + ranges[i].1;
      } else {
        assert ranges[last].0 <= b < ranges[last].0 + ranges[last].1;
      }
    }
  }

  function RangesOf<D>(slots: seq<Slot<D>>): (ranges: seq<(nat, nat)>)
    ensures |ranges| == |slots| && forall i :: 0 <= i < |slots| ==> ranges[i] == (slots[i].offset, slots[i].size)
  {
    seq(|slots|, i requires 0 <= i < |slots| => (slots[i].offset, slots[i].size))
  }

  /** Slots that tile a file of `capacityBytes` bytes, each for proof data or open. */
  ghost predicate Tiling<D>(slots: seq<Slot<D>>, capacityBytes: nat, isProof: nat -> bool) {
    && |slots| == SlotsFor(capacityBytes) && PairwiseDisjoint(slots)
    && (forall i :: 0 <= i < |slots| ==>
          && slots[i].state == (if isProof(i) then Proof else Open)
          && slots[i].offset + slots[i].size <= capacityBytes && 0 < slots[i].size <= MAX_CHUNK_SIZE)
    && (forall b :: 0 <= b < capacityBytes ==> Covered(RangesOf(slots), b))
  }

  /**
   The initial slot map. The overlap check never fires, whatever the draws, and the slots tile the
   file exactly.
   */
  method PlanSlots<D>(capacityBytes: nat, draw: nat -> nat, isProof: nat -> bool) returns (r: Result<seq<Slot<D>>, StoreError>)
    requires capacityBytes > 0
    ensures r.Ok? && Tiling(r.value, capacityBytes, isProof)
    ensures capacityBytes % MAX_CHUNK_SIZE == 0 ==> forall i :: 0 <= i < |r.value| ==> r.value[i].size == MAX_CHUNK_SIZE
    ensures var order := DrawnOrder(|r.value| - 1, draw);
            forall i :: 0 <= i < |order| ==> r.value[i].offset == 1024 * order[i] && r.value[i].size == 1024
  {
    var chunkCount := SlotsFor(capacityBytes);
    var swaps := FisherYatesSwaps(chunkCount - 1, draw);
    var order := Shuffle(chunkCount - 1, swaps);
    SwapsPermute(chunkCount - 1, swaps);
    RangesTileFile(capacityBytes, order);
    var ranges := Ranges(capacityBytes, order);
    var overlap := HasOverlap(ranges);
    var slots := SlotsAt<D>(ranges, isProof);
    SlotsFollowRanges(capacityBytes, ranges, slots, isProof);
    RangeOffsets(capacityBytes, order);
    r := if overlap then Err(OverlappingOffsets) else Ok(slots);
  }

  method SlotsAt<D>(ranges: seq<(nat, nat)>, isProof: nat -> bool) returns (slots: seq<Slot<D>>)
    ensures |slots| == |ranges|
    ensures forall i :: 0 <= i < |slots| ==> slots[i] == Slot(ranges[i].0, ranges[i].1, if isProof(i) then Proof else Open)
  {
    slots := [];
    for i := 0 to |ranges|
      invariant |slots| == i
      invariant forall j :: 0 <= j < i ==> slots[j] == Slot(ranges[j].0, ranges[j].1, if isProof(j) then Proof else Open)
    {
      slots := slots + [Slot(ranges[i].0, ranges[i].1, if isProof(i) then Proof else Open)];
    }
  }

  lemma SlotsFollowRanges<D>(capacityBytes: nat, ranges: seq<(nat, nat)>, slots: seq<Slot<D>>, isProof: nat -> bool)
    requires |ranges| == |slots| == SlotsFor(capacityBytes)
    requires forall i :: 0 <= i < |slots| ==> slots[i] == Slot(ranges[i].0, ranges[i].1, if isProof(i) then Proof else Open)
    requires forall i :: 0 <= i < |ranges| ==> ranges[i].0 + ranges[i].1 <= capacityBytes && 0 < ranges[i].1 <= MAX_CHUNK_SIZE
    requires forall i, j :: 0 <= i < j < |ranges| ==> !Overlap(ranges[i], ranges[j])
    requires forall b :: 0 <= b < capacityBytes ==> Covered(ranges, b)
    ensures Tiling(slots, capacityBytes, isProof)
  {
    forall i, j | 0 <= i < |slots| && 0 <= j < |slots| && i != j
      ensures RangesDisjoint(slots[i], slots[j])
    {
      assert !Overlap(ranges[if i < j then i else j], ranges[if i < j then j else i]);
    }
    assert RangesOf(slots) == ranges;
  }

  /** What allocation writes into slot `i`: filler for proof slots, zeros for open ones. */
  function InitialBytes<D>(env: Env<D>, slots: seq<Slot<D>>, i: nat): (data: seq<byte>)
    requires i < |slots| && slots[i].size <= |env.filler(i)|
    ensures |data| == slots[i].size
  {
    if slots[i].state.Proof? then env.filler(i)[..slots[i].size] else Zeros(slots[i].size)
  }

  method FillFile<D>(env: Env<D>, slots: seq<Slot<D>>, capacityBytes: nat) returns (file: seq<byte>, leaves: seq<D>)
    requires env.Ok() && InFile(slots, Zeros(capacityBytes)) && PairwiseDisjoint(slots)
    ensures InFile(slots, file) && |leaves| == |slots|
    ensures forall i :: 0 <= i < |slots| ==>
              SlotBytes(slots, file, i) == InitialBytes(env, slots, i) && leaves[i] == env.hashChunk(InitialBytes(env, slots, i))
  {
    file, leaves := Zeros(capacityBytes), [];
    for i := 0 to |slots|
      invariant InFile(slots, file) && |leaves| == i
      invariant forall j :: 0 <= j < i ==>
                  SlotBytes(slots, file, j) == InitialBytes(env, slots, j) && leaves[j] == env.hashChunk(InitialBytes(env, slots, j))
    {
      var data := InitialBytes(env, slots, i);
      WriteSlotEffect(slots, file, i, data);
      assert Pad(data, slots[i].size) == data;
      file := WriteSlot(slots, file, i, data);
      leaves := leaves + [env.hashChunk(data)];
    }
  }

  /** A filled file under a fresh slot map is a healthy, empty store. */
  lemma FilledIsHealthy<D>(env: Env<D>, s: Store<D>, capacityBytes: nat, isProof: nat -> bool)
    requires env.Ok() && capacityBytes > 0 && Tiling(s.slots, capacityBytes, isProof) && s.content == map[]
    requires InFile(s.slots, s.file) && |s.leaves| == |s.slots|
    requires forall i :: 0 <= i < |s.slots| ==>
               SlotBytes(s.slots, s.file, i) == InitialBytes(env, s.slots, i)
               && s.leaves[i] == env.hashChunk(InitialBytes(env, s.slots, i))
    ensures Healthy(env, s)
  {
    forall i | 0 <= i < |s.slots|
      ensures SlotHealthy(env, s, i)
    {
    }
  }
}
