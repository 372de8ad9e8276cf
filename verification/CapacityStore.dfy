/**
 The provider's content store as functions on its whole state: slot map, content index, capacity
 file and Merkle leaves. `CapacityManager` refines these functions step by step.
 */
module CapacityStore {
  import opened Prelude
  import opened CapacityProof
  import opened MerkleTree
  import opened Slots

  const MAX_CHUNK_SIZE: nat := 1024

  /** The provider's hash functions and its deterministic filler for proof slots. */
  datatype Env<!D> = Env(
    hashPair: (D, D) -> D,
    hashChunk: seq<byte> -> D,
    commitHash: seq<D> -> D,
    filler: nat -> seq<byte>)
  {
    ghost predicate Ok() {
      forall i :: |filler(i)| == MAX_CHUNK_SIZE
    }
  }

  datatype Store<+D> = Store(slots: seq<Slot<D>>, content: map<string, Placement>, file: seq<byte>, leaves: seq<D>) {
    function Tables(): Books<D> {
      Books(slots, content)
    }
  }

  datatype StoreError =
    | SlotFailure(error: SlotError)
    | ChunkTooLarge(index: nat)
    | TreeNotInitialized
    | LeafOutOfBounds
    | ChunkSizeMismatch
    | RootMismatch
    | OverlappingOffsets
    | NotForThisProvider
    | NotInitialized

  // ----- Storing -----

  /** Chunk `c` goes into slot `i` only if neither the chunk nor the padded chunk is too big. */
  predicate Fits<D>(slots: seq<Slot<D>>, i: nat, chunk: seq<byte>) {
    |chunk| <= MAX_CHUNK_SIZE && i < |slots| && MAX_CHUNK_SIZE <= slots[i].size
  }

  /** How many leading chunks fit their slots. */
  function FittingPrefix<D>(slots: seq<Slot<D>>, targets: seq<nat>, chunks: seq<seq<byte>>): (p: nat)
    requires |targets| == |chunks|
    ensures p <= |chunks|
    ensures forall k :: 0 <= k < p ==> Fits(slots, targets[k], chunks[k])
    ensures p < |chunks| ==> !Fits(slots, targets[p], chunks[p])
  {
    if chunks == [] || !Fits(slots, targets[0], chunks[0]) then 0
    else 1 + FittingPrefix(slots, targets[1..], chunks[1..])
  }

  /** The bytes that end up in slot `i` for `chunk`. */
  function Padded<D>(slots: seq<Slot<D>>, i: nat, chunk: seq<byte>): (data: seq<byte>)
    requires Fits(slots, i, chunk)
    ensures |data| == slots[i].size && data[..|chunk|] == chunk
    ensures forall k :: |chunk| <= k < |data| ==> data[k] == 0
  {
    Pad(Pad(chunk, MAX_CHUNK_SIZE), slots[i].size)
  }

  ghost predicate AllFit<D>(slots: seq<Slot<D>>, targets: seq<nat>, chunks: seq<seq<byte>>) {
    |targets| == |chunks| && forall k :: 0 <= k < |chunks| ==> Fits(slots, targets[k], chunks[k])
  }

  function WriteChunks<D>(slots: seq<Slot<D>>, file: seq<byte>, targets: seq<nat>, chunks: seq<seq<byte>>): seq<byte>
    requires AllFit(slots, targets, chunks)
  {
    if chunks == [] then file
    else
      var n := |chunks| - 1;
      WriteSlot(slots, WriteChunks(slots, file, targets[..n], chunks[..n]), targets[n], Pad(chunks[n], MAX_CHUNK_SIZE))
  }

  function ChunkHashes<D>(hc: seq<byte> -> D, slots: seq<Slot<D>>, targets: seq<nat>, chunks: seq<seq<byte>>): (hashes: seq<D>)
    requires AllFit(slots, targets, chunks)
    ensures |hashes| == |chunks| && forall k :: 0 <= k < |chunks| ==> hashes[k] == hc(Padded(slots, targets[k], chunks[k]))
  {
    seq(|chunks|, k requires 0 <= k < |chunks| => hc(Padded(slots, targets[k], chunks[k])))
  }

  function PlacementOf(targets: seq<nat>, chunks: seq<seq<byte>>): (placement: Placement)
    requires |targets| == |chunks|
    ensures |placement| == |chunks| && forall k :: 0 <= k < |chunks| ==> placement[k] == (targets[k], |chunks[k]|)
  {
    seq(|chunks|, k requires 0 <= k < |chunks| => (targets[k], |chunks[k]|))
  }

  function Zip<D>(indices: seq<nat>, hashes: seq<D>): (pairs: seq<(nat, D)>)
    requires |indices| == |hashes|
    ensures |pairs| == |hashes| && forall k :: 0 <= k < |hashes| ==> pairs[k] == (indices[k], hashes[k])
  {
    seq(|hashes|, k requires 0 <= k < |hashes| => (indices[k], hashes[k]))
  }

  ghost predicate Below(indices: seq<nat>, n: nat) {
    forall k :: 0 <= k < |indices| ==> indices[k] < n
  }

  /** The leaves after an incremental update, unchanged when an index is out of bounds. */
  ghost function UpdateLeaves<D>(leaves: seq<D>, indices: seq<nat>, hashes: seq<D>): (r: seq<D>)
    requires |indices| == |hashes|
    ensures |r| == |leaves|
  {
    if Below(indices, |leaves|) then Overwrite(leaves, Zip(indices, hashes)) else leaves
  }

  ghost predicate OpenTargets<D>(slots: seq<Slot<D>>, targets: seq<nat>) {
    && Distinct(targets) && Below(targets, |slots|)
    && forall k :: 0 <= k < |targets| ==> slots[targets[k]].state.Open?
  }

  /** The open slots a store of that many chunks would use. */
  function Targets<D>(slots: seq<Slot<D>>, count: nat): (targets: seq<nat>)
    requires FindOpen(slots, count).Ok?
    ensures |targets| == count && OpenTargets(slots, targets)
  {
    OpenIndicesFacts(slots);
    assert FindOpen(slots, count).value[..count] == OpenIndices(slots)[..count];
    FindOpen(slots, count).value[..count]
  }

  /** Writes every chunk, then marks the slots and updates the leaves. */
  ghost function StoreInto<D>(env: Env<D>, s: Store<D>, id: string, targets: seq<nat>, chunks: seq<seq<byte>>): Store<D>
    requires AllFit(s.slots, targets, chunks)
  {
    var hashes := ChunkHashes(env.hashChunk, s.slots, targets, chunks);
    var b := Mark(s.Tables(), PlacementOf(targets, chunks), id, env.commitHash(hashes));
    Store(b.slots, b.content, WriteChunks(s.slots, s.file, targets, chunks), UpdateLeaves(s.leaves, targets, hashes))
  }

  /** Stops at the first chunk that does not fit, with the earlier ones already in the file. */
  ghost function StoreHalfWay<D>(s: Store<D>, targets: seq<nat>, chunks: seq<seq<byte>>): Store<D>
    requires |targets| == |chunks|
  {
    var p := FittingPrefix(s.slots, targets, chunks);
    s.(file := WriteChunks(s.slots, s.file, targets[..p], chunks[..p]))
  }

  /** `store_content_chunks`, in open slots chosen first. */
  ghost function StoreChunks<D>(env: Env<D>, s: Store<D>, id: string, chunks: seq<seq<byte>>): Store<D> {
    if FindOpen(s.slots, |chunks|).Err? then s
    else
      var targets := Targets(s.slots, |chunks|);
      if AllFit(s.slots, targets, chunks) then StoreInto(env, s, id, targets, chunks) else StoreHalfWay(s, targets, chunks)
  }

  ghost predicate StoreAccepted<D>(s: Store<D>, chunks: seq<seq<byte>>) {
    && FindOpen(s.slots, |chunks|).Ok?
    && AllFit(s.slots, Targets(s.slots, |chunks|), chunks)
    && Below(Targets(s.slots, |chunks|), |s.leaves|)
  }

  // ----- Deleting -----

  function Indices(placement: Placement): (indices: seq<nat>)
    ensures |indices| == |placement| && forall k :: 0 <= k < |placement| ==> indices[k] == placement[k].0
  {
    seq(|placement|, k requires 0 <= k < |placement| => placement[k].0)
  }

  function ZeroWrites(placement: Placement): (writes: seq<(nat, seq<byte>)>)
    ensures |writes| == |placement| && forall k :: 0 <= k < |placement| ==> writes[k] == (placement[k].0, [])
  {
    seq(|placement|, k requires 0 <= k < |placement| => (placement[k].0, []))
  }

  function ZeroHashes<D>(hc: seq<byte> -> D, slots: seq<Slot<D>>, placement: Placement): (hashes: seq<D>)
    requires InBounds(placement, |slots|)
    ensures |hashes| == |placement|
    ensures forall k :: 0 <= k < |placement| ==> hashes[k] == hc(Zeros(slots[placement[k].0].size))
  {
    seq(|placement|, k requires 0 <= k < |placement| => hc(Zeros(slots[placement[k].0].size)))
  }

  /** `delete_content_from_slots`: zeroes the slots in the file, opens them and updates the leaves. */
  ghost function DeleteContent<D>(env: Env<D>, s: Store<D>, id: string): Store<D> {
    if id !in s.content || !InBounds(s.content[id], |s.slots|) then s
    else
      var placement := s.content[id];
      var b := Release(s.Tables(), id);
      Store(b.slots, b.content, WriteAll(s.slots, s.file, ZeroWrites(placement)),
            UpdateLeaves(s.leaves, Indices(placement), ZeroHashes(env.hashChunk, s.slots, placement)))
  }

  // ----- Reading -----

  function ReadPieces<D>(slots: seq<Slot<D>>, file: seq<byte>, placement: Placement): Result<seq<byte>, StoreError> {
    if placement == [] then Ok([])
    else
      var n := |placement| - 1;
      match ReadPieces(slots, file, placement[..n])
      case Err(e) => Err(e)
      case Ok(before) =>
        match ReadSlot(slots, file, placement[n].0)
        case Err(e) => Err(SlotFailure(e))
        case Ok(data) =>
          if |data| >= placement[n].1 then Ok(before + data[..placement[n].1]) else Err(ChunkSizeMismatch)
  }

  /** `get_content_from_slots`: `None` for an id that is not stored. */
  function GetContent<D>(s: Store<D>, id: string): Result<Option<seq<byte>>, StoreError> {
    if id !in s.content then Ok(None)
    else
      match ReadPieces(s.slots, s.file, s.content[id])
      case Err(e) => Err(e)
      case Ok(bytes) => Ok(Some(bytes))
  }

  // ----- What a healthy store looks like -----

  ghost predicate InFile<D>(slots: seq<Slot<D>>, file: seq<byte>) {
    forall i :: 0 <= i < |slots| ==> slots[i].offset + slots[i].size <= |file| && slots[i].size <= MAX_CHUNK_SIZE
  }

  function SlotBytes<D>(slots: seq<Slot<D>>, file: seq<byte>, i: nat): (data: seq<byte>)
    requires i < |slots| && slots[i].offset + slots[i].size <= |file|
    ensures |data| == slots[i].size
  {
    file[slots[i].offset..slots[i].offset + slots[i].size]
  }

  /** What the bytes and the leaf of slot `i` must be. */
  ghost predicate SlotHealthy<D>(env: Env<D>, s: Store<D>, i: nat)
    requires InFile(s.slots, s.file) && i < |s.slots| == |s.leaves|
  {
    var data := SlotBytes(s.slots, s.file, i);
    && s.leaves[i] == env.hashChunk(data)
    && (s.slots[i].state.Open? ==> AllZero(data))
    && (s.slots[i].state.Proof? && |env.filler(i)| == MAX_CHUNK_SIZE ==> data == env.filler(i)[..s.slots[i].size])
  }

  /** Slots tile the file without overlap, the index agrees with the tags, every leaf hashes its slot's bytes. */
  ghost predicate Healthy<D>(env: Env<D>, s: Store<D>) {
    && |s.slots| == |s.leaves| > 0
    && InFile(s.slots, s.file) && PairwiseDisjoint(s.slots)
    && Agree(s.Tables())
    && SizesFit(s)
    && forall i :: 0 <= i < |s.slots| ==> SlotHealthy(env, s, i)
  }

  ghost predicate SizesFit<D>(s: Store<D>) {
    forall id, j :: id in s.content && 0 <= j < |s.content[id]| && s.content[id][j].0 < |s.slots| ==>
      s.content[id][j].1 <= s.slots[s.content[id][j].0].size
  }

  lemma ReadIsSlotBytes<D>(slots: seq<Slot<D>>, file: seq<byte>, i: nat)
    requires i < |slots| && slots[i].offset + slots[i].size <= |file|
    ensures ReadSlot(slots, file, i) == Ok(SlotBytes(slots, file, i))
  {
  }

  // ----- Effects of writing -----

  /** Writing chunks to distinct slots: each gets its padded chunk, every other slot keeps its bytes. */
  lemma {:induction false} WriteChunksEffect<D>(slots: seq<Slot<D>>, file: seq<byte>, targets: seq<nat>, chunks: seq<seq<byte>>)
    requires AllFit(slots, targets, chunks) && Distinct(targets)
    requires InFile(slots, file) && PairwiseDisjoint(slots)
    ensures InFile(slots, WriteChunks(slots, file, targets, chunks))
    ensures forall k :: 0 <= k < |chunks| ==>
              SlotBytes(slots, WriteChunks(slots, file, targets, chunks), targets[k]) == Padded(slots, targets[k], chunks[k])
    ensures forall i :: 0 <= i < |slots| && i !in targets ==>
              SlotBytes(slots, WriteChunks(slots, file, targets, chunks), i) == SlotBytes(slots, file, i)
    decreases |chunks|
  {
    if chunks != [] {
      var n := |chunks| - 1;
      var ts, cs := targets[..n], chunks[..n];
      WriteChunksEffect(slots, file, ts, cs);
      var before := WriteChunks(slots, file, ts, cs);
      WriteSlotEffect(slots, before, targets[n], Pad(chunks[n], MAX_CHUNK_SIZE));
      var r := WriteSlot(slots, before, targets[n], Pad(chunks[n], MAX_CHUNK_SIZE));
      assert r == WriteChunks(slots, file, targets, chunks);
      forall k | 0 <= k < |chunks|
        ensures SlotBytes(slots, r, targets[k]) == Padded(slots, targets[k], chunks[k])
      {
        if k < n {
          assert ts[k] == targets[k] != targets[n] && cs[k] == chunks[k];
        }
      }
      forall i | 0 <= i < |slots| && i !in targets
        ensures SlotBytes(slots, r, i) == SlotBytes(slots, file, i)
      {
        assert i !in ts && i != targets[n];
      }
    }
  }

  lemma WriteSlotEffect<D>(slots: seq<Slot<D>>, file: seq<byte>, i: nat, data: seq<byte>)
    requires CheckWrite(slots, i, data).None?
    requires InFile(slots, file) && PairwiseDisjoint(slots)
    ensures InFile(slots, WriteSlot(slots, file, i, data))
    ensures SlotBytes(slots, WriteSlot(slots, file, i, data), i) == Pad(data, slots[i].size)
    ensures forall j :: 0 <= j < |slots| && j != i ==>
              SlotBytes(slots, WriteSlot(slots, file, i, data), j) == SlotBytes(slots, file, j)
  {
    var r := WriteSlot(slots, file, i, data);
    ReadBackWrite(slots, file, i, data);
    ReadIsSlotBytes(slots, r, i);
    forall j | 0 <= j < |slots| && j != i
      ensures SlotBytes(slots, r, j) == SlotBytes(slots, file, j)
    {
      ReadIsSlotBytes(slots, file, j);
      ReadOtherSlot(slots, file, i, j, data);
      ReadIsSlotBytes(slots, r, j);
    }
  }

  /** Overwriting distinct leaves: each gets its value, every other one is kept. */
  lemma {:induction false} OverwriteEffect<D>(leaves: seq<D>, indices: seq<nat>, hashes: seq<D>)
    requires |indices| == |hashes| && Distinct(indices) && Below(indices, |leaves|)
    ensures forall k :: 0 <= k < |indices| ==> UpdateLeaves(leaves, indices, hashes)[indices[k]] == hashes[k]
    ensures forall i :: 0 <= i < |leaves| && i !in indices ==> UpdateLeaves(leaves, indices, hashes)[i] == leaves[i]
    decreases |indices|
  {
    if indices != [] {
      var n := |indices| - 1;
      OverwriteEffect(leaves, indices[..n], hashes[..n]);
      assert Zip(indices, hashes)[..n] == Zip(indices[..n], hashes[..n]);
      assert forall k :: 0 <= k < n ==> indices[..n][k] == indices[k] != indices[n];
    }
  }
}
