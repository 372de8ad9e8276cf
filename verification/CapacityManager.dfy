/**
 The capacity manager object: slot allocator, capacity file and Merkle tree behind one interface.
 Each method is tied to the function of the same step on the whole state.
 */
module CapacityManager {
  import opened Prelude
  import opened CapacityProof
  import opened MerkleTree
  import opened Slots
  import opened CapacityStore
  import opened CapacityHealth
  import opened CapacityRuns
  import opened CapacityAllocation

  class CapacityManager<D(==)> {
    const env: Env<D>
    const allocator: SlotAllocator<D>
    var tree: CapacityProofMerkleTree?<D>
    const providerId: Address
    var initialized: bool

    ghost predicate Valid()
      reads this, allocator, tree
    {
      && allocator.hashChunk == env.hashChunk
      && (tree != null ==> tree.Valid() && tree.hashPair == env.hashPair)
      && (tree != null && allocator.slotMap.Some? ==> |tree.leaves| == |allocator.slotMap.value|)
    }

    ghost function Footprint(): set<object>
      reads this
    {
      if tree == null then {allocator} else {allocator, tree}
    }

    /** The whole state; without a tree there are no leaves. */
    ghost function State(): Store<D>
      reads this, allocator, tree
      requires allocator.slotMap.Some?
    {
      Store(allocator.slotMap.value, allocator.contentSlotMap, allocator.capacityFile,
            if tree == null then [] else tree.leaves)
    }

    constructor (env: Env<D>, providerId: Address)
      ensures Valid() && this.env == env && this.providerId == providerId && !initialized && tree == null && fresh(allocator)
      ensures allocator.slotMap == None && allocator.contentSlotMap == map[]
    {
      this.env := env;
      this.providerId := providerId;
      this.initialized := false;
      this.allocator := new SlotAllocator(env.hashChunk);
      this.tree := null;
    }

    /**
     First start: plans the slots, fills the file and builds the tree. The result is a healthy store,
     and a sound one when the capacity is a whole number of chunks, as any number of megabytes is.
     The source panics on zero capacity.
     */
    method AllocateCapacity(capacityBytes: nat, draw: nat -> nat, isProof: nat -> bool) returns (r: Result<D, StoreError>)
      requires Valid() && env.Ok() && capacityBytes > 0
      requires allocator.slotMap.None? && allocator.contentSlotMap == map[]
      modifies this`tree, allocator
      ensures Valid() && r.Ok? && tree != null && fresh(tree) && r.value == tree.root && allocator.slotMap.Some?
      ensures Healthy(env, State()) && Tiling(State().slots, capacityBytes, isProof)
      ensures capacityBytes % MAX_CHUNK_SIZE == 0 ==> Sound(env, State())
      ensures View(env, State()) == map[]
    {
      var planned := PlanSlots<D>(capacityBytes, draw, isProof);
      var slots := planned.value;
      var file, leaves := FillFile(env, slots, capacityBytes);
      allocator.slotMap := Some(slots);
      allocator.capacityFile := file;
      tree := new CapacityProofMerkleTree<D>.Build(env.hashPair, leaves);
      FilledIsHealthy(env, State(), capacityBytes, isProof);
      r := Ok(tree.root);
    }

    method StoreContentChunks(id: string, chunks: seq<seq<byte>>) returns (r: Result<seq<nat>, StoreError>)
      requires Valid()
      modifies Footprint()
      ensures Valid() && tree == old(tree)
      ensures old(allocator.slotMap).None? ==>
                r.Err? && allocator.slotMap == None && allocator.contentSlotMap == old(allocator.contentSlotMap)
                && allocator.capacityFile == old(allocator.capacityFile)
      ensures old(allocator.slotMap).Some? ==>
                && allocator.slotMap.Some?
                && State() == StoreChunks(env, old(State()), id, chunks)
                && (r.Ok? <==> tree != null && StoreAccepted(old(State()), chunks))
                && (r.Ok? ==> r.value == Targets(old(State()).slots, |chunks|))
    {
      var found := allocator.FindOpenSlots(|chunks|);
      if found.Err? {
        return Err(SlotFailure(found.error));
      }
      ghost var s := State();
      var targets := found.value[..|chunks|];
      assert targets == Targets(s.slots, |chunks|);
      var failure, hashes := WriteAllChunks(targets, chunks);
      if failure.Some? {
        return Err(failure.value);
      }
      var placement := PlacementOf(targets, chunks);
      var marked := allocator.MarkSlotsAsContent(placement, id, env.commitHash(hashes));
      assert InBounds(placement, |s.slots|);
      var updated := UpdateMerkleTree(targets, hashes);
      if updated.Err? {
        return Err(updated.error);
      }
      r := Ok(targets);
    }

    /** The write loop of a store; on failure the chunks before the failing one are in the file. */
    method WriteAllChunks(targets: seq<nat>, chunks: seq<seq<byte>>) returns (failure: Option<StoreError>, hashes: seq<D>)
      requires Valid() && allocator.slotMap.Some? && |targets| == |chunks|
      modifies allocator`capacityFile
      ensures var slots := allocator.slotMap.value;
              && (failure.None? <==> AllFit(slots, targets, chunks))
              && (failure.None? ==>
                    && allocator.capacityFile == WriteChunks(slots, old(allocator.capacityFile), targets, chunks)
                    && hashes == ChunkHashes(env.hashChunk, slots, targets, chunks))
              && (failure.Some? ==>
                    var p := FittingPrefix(slots, targets, chunks);
                    allocator.capacityFile == WriteChunks(slots, old(allocator.capacityFile), targets[..p], chunks[..p]))
    {
      ghost var slots, p := allocator.slotMap.value, FittingPrefix(allocator.slotMap.value, targets, chunks);
      hashes := [];
      for k := 0 to |chunks|
        invariant k <= p && allocator.slotMap == Some(slots)
        invariant allocator.capacityFile == WriteChunks(slots, old(allocator.capacityFile), targets[..k], chunks[..k])
        invariant hashes == ChunkHashes(env.hashChunk, slots, targets[..k], chunks[..k])
      {
        if |chunks[k]| > MAX_CHUNK_SIZE {
          return Some(ChunkTooLarge(k)), hashes;
        }
        var padded := Pad(chunks[k], MAX_CHUNK_SIZE);
        var written := allocator.WriteChunkToSlot(targets[k], padded);
        if written.Err? {
          return Some(SlotFailure(written.error)), hashes;
        }
        assert Fits(slots, targets[k], chunks[k]) && k < p;
        NextChunk(env, slots, old(allocator.capacityFile), targets, chunks, k);
        hashes := hashes + [written.value];
      }
      assert targets[..|chunks|] == targets && chunks[..|chunks|] == chunks;
      failure := None;
    }

    /** Checks every index against the leaf count before touching the tree. */
    method UpdateMerkleTree(indices: seq<nat>, hashes: seq<D>) returns (r: Result<D, StoreError>)
      requires Valid() && |indices| == |hashes|
      modifies Footprint() - {allocator}
      ensures Valid() && tree == old(tree)
      ensures tree == null ==> r.Err?
      ensures tree != null ==>
                && tree.leaves == UpdateLeaves(old(tree.leaves), indices, hashes)
                && (r.Ok? <==> Below(indices, old(|tree.leaves|)))
                && (r.Ok? ==> r.value == Root(env.hashPair, tree.leaves))
    {
      if tree == null {
        return Err(TreeNotInitialized);
      }
      for k := 0 to |indices|
        invariant Below(indices[..k], |tree.leaves|)
      {
        if indices[k] >= |tree.leaves| {
          return Err(LeafOutOfBounds);
        }
        assert forall j :: 0 <= j < k ==> indices[..k + 1][j] == indices[..k][j];
      }
      assert indices[..|indices|] == indices;
      tree.UpdateLeaves(Zip(indices, hashes));
      r := Ok(tree.root);
    }

    method ZeroSlots(placement: Placement)
      requires Valid() && allocator.slotMap.Some? && InBounds(placement, |allocator.slotMap.value|)
      modifies allocator`capacityFile
      ensures allocator.capacityFile == WriteAll(allocator.slotMap.value, old(allocator.capacityFile), ZeroWrites(placement))
    {
      ghost var writes := ZeroWrites(placement);
      for k := 0 to |placement|
        invariant allocator.capacityFile == WriteAll(allocator.slotMap.value, old(allocator.capacityFile), writes[..k])
      {
        var written := allocator.WriteChunkToSlot(placement[k].0, []);
        assert writes[..k + 1][..k] == writes[..k];
      }
      assert writes[..|placement|] == writes;
    }

    method DeleteContentFromSlots(id: string) returns (r: Result<(), StoreError>)
      requires Valid()
      modifies Footprint()
      ensures Valid() && tree == old(tree)
      ensures old(allocator.slotMap).None? ==>
                r.Err? && allocator.slotMap == None && allocator.contentSlotMap == old(allocator.contentSlotMap)
                && allocator.capacityFile == old(allocator.capacityFile)
      ensures old(allocator.slotMap).Some? ==>
                && allocator.slotMap.Some?
                && State() == DeleteContent(env, old(State()), id)
                && (r.Ok? <==> tree != null && id in old(State()).content
                               && InBounds(old(State()).content[id], |old(State()).slots|))
    {
      var found := allocator.FindSlotsByContentId(id);
      if found.Err? {
        return Err(SlotFailure(found.error));
      }
      if allocator.slotMap.None? {
        return Err(SlotFailure(SlotMapNotLoaded));
      }
      ghost var s := State();
      var placement := found.value;
      var bounded := BoundedPrefix(placement, |allocator.slotMap.value|);
      if bounded < |placement| {
        return Err(SlotFailure(SlotOutOfBounds(placement[bounded].0)));
      }
      var hashes := ZeroHashes(env.hashChunk, allocator.slotMap.value, placement);
      ZeroSlots(placement);
      var released := allocator.RemoveContentById(id);
      var updated := UpdateMerkleTree(Indices(placement), hashes);
      if updated.Err? {
        return Err(updated.error);
      }
      r := Ok(());
    }

    method GetContentFromSlots(id: string) returns (r: Result<Option<seq<byte>>, StoreError>)
      requires Valid()
      ensures allocator.slotMap.Some? ==> r == GetContent(State(), id)
      ensures allocator.slotMap.None? && id !in allocator.contentSlotMap ==> r == Ok(None)
      ensures allocator.slotMap.None? && id in allocator.contentSlotMap && allocator.contentSlotMap[id] == [] ==> r == Ok(Some([]))
      ensures allocator.slotMap.None? && id in allocator.contentSlotMap && allocator.contentSlotMap[id] != [] ==>
                r == Err(SlotFailure(SlotMapNotLoaded))
    {
      var found := allocator.FindSlotsByContentId(id);
      if found.Err? {
        return Ok(None);
      }
      var placement := found.value;
      var content: seq<byte> := [];
      for k := 0 to |placement|
        invariant allocator.slotMap.Some? ==> ReadPieces(allocator.slotMap.value, allocator.capacityFile, placement[..k]) == Ok(content)
        invariant allocator.slotMap.None? ==> k == 0 && content == []
      {
        assert placement[..k + 1][..k] == placement[..k];
        var data := allocator.ReadChunkFromSlot(placement[k].0);
        if data.Err? {
          if allocator.slotMap.Some? {
            ReadStops(allocator.slotMap.value, allocator.capacityFile, placement, k + 1);
          }
          return Err(SlotFailure(data.error));
        }
        if |data.value| < placement[k].1 {
          if allocator.slotMap.Some? {
            ReadStops(allocator.slotMap.value, allocator.capacityFile, placement, k + 1);
          }
          return Err(ChunkSizeMismatch);
        }
        content := content + data.value[..placement[k].1];
      }
      assert placement[..|placement|] == placement;
      r := Ok(Some(content));
    }

    /**
     Answers a challenge. With a healthy state, the committed root and indices within the slots the
     answers are the ones `HealthyStorePassesChallenges` is about.
     */
    method GenerateCapacityProof(provider: Address, indices: seq<nat>, expectedRoot: D)
      returns (r: Result<seq<ChunkProof<D>>, StoreError>)
      requires Valid()
      ensures r.Ok? <==>
              && provider == providerId && initialized && tree != null && tree.root == expectedRoot && allocator.slotMap.Some?
              && forall k :: 0 <= k < |indices| ==> ReadSlot(allocator.slotMap.value, allocator.capacityFile, indices[k]).Ok?
      ensures r.Ok? && InFile(allocator.slotMap.value, allocator.capacityFile) ==>
                Below(indices, |State().slots|) && r.value == Answers(env, State(), indices)
    {
      if provider != providerId {
        return Err(NotForThisProvider);
      }
      if !initialized {
        return Err(NotInitialized);
      }
      if tree == null {
        return Err(TreeNotInitialized);
      }
      if tree.root != expectedRoot {
        return Err(RootMismatch);
      }
      if allocator.slotMap.None? {
        return Err(SlotFailure(SlotMapNotLoaded));
      }
      ghost var s := State();
      var slots := allocator.slotMap.value;
      var proofs: seq<ChunkProof<D>> := [];
      for k := 0 to |indices|
        invariant |proofs| == k
        invariant forall j :: 0 <= j < k ==> ReadSlot(slots, allocator.capacityFile, indices[j]).Ok?
        invariant InFile(slots, allocator.capacityFile) ==> forall j :: 0 <= j < k ==> proofs[j] == Answer(env, s, indices[j])
      {
        var data := allocator.ReadChunkFromSlot(indices[k]);
        if data.Err? {
          return Err(SlotFailure(data.error));
        }
        var path := tree.GenerateProof(indices[k]);
        var record := ChunkProof(indices[k], data.value, env.hashChunk(data.value), path, slots[indices[k]].state);
        if InFile(slots, allocator.capacityFile) {
          ReadIsSlotBytes(slots, allocator.capacityFile, indices[k]);
        }
        proofs := proofs + [record];
      }
      r := Ok(proofs);
    }

    /** Rebuilds the tree from the slot map, reading only content slots. The source panics on no slots. */
    method BuildMerkleTree() returns (r: Result<(), StoreError>)
      requires Valid() && env.Ok() && allocator.slotMap.Some? && |allocator.slotMap.value| > 0
      requires forall i :: 0 <= i < |allocator.slotMap.value| ==> allocator.slotMap.value[i].size <= MAX_CHUNK_SIZE
      modifies this`tree
      ensures Valid()
      ensures r.Ok? <==> ContentReadable(allocator.slotMap.value, allocator.capacityFile)
      ensures r.Err? ==> tree == old(tree)
      ensures r.Ok? ==>
                && tree != null && fresh(tree) && |tree.leaves| == |allocator.slotMap.value|
                && forall i :: 0 <= i < |tree.leaves| ==> tree.leaves[i] == StartupLeaf(env, allocator.slotMap.value, allocator.capacityFile, i)
    {
      var slots := allocator.slotMap.value;
      var leaves: seq<D> := [];
      for i := 0 to |slots|
        invariant |leaves| == i && tree == old(tree)
        invariant forall j :: 0 <= j < i && slots[j].state.Content? ==> ReadSlot(slots, allocator.capacityFile, j).Ok?
        invariant forall j :: 0 <= j < i ==> leaves[j] == StartupLeaf(env, slots, allocator.capacityFile, j)
      {
        match slots[i].state
        case Proof =>
          leaves := leaves + [env.hashChunk(env.filler(i)[..slots[i].size])];
        case Open =>
          leaves := leaves + [env.hashChunk(Zeros(slots[i].size))];
        case Content(_, _) =>
          var data := allocator.ReadChunkFromSlot(i);
          if data.Err? {
            return Err(SlotFailure(data.error));
          }
          leaves := leaves + [env.hashChunk(data.value)];
      }
      tree := new CapacityProofMerkleTree<D>.Build(env.hashPair, leaves);
      r := Ok(());
    }

    /** Startup: builds the tree if there is a slot map; on a file that holds every slot this is a restart. */
    method Initialize() returns (r: Result<(), StoreError>)
      requires Valid() && env.Ok()
      requires allocator.slotMap.Some? ==>
                 |allocator.slotMap.value| > 0 && forall i :: 0 <= i < |allocator.slotMap.value| ==> allocator.slotMap.value[i].size <= MAX_CHUNK_SIZE
      modifies this`tree, this`initialized
      ensures Valid() && (r.Ok? <==> initialized)
      ensures old(initialized) ==> r.Ok? && tree == old(tree)
      ensures !old(initialized) && allocator.slotMap.None? ==> r.Ok? && tree == old(tree)
      ensures !old(initialized) && allocator.slotMap.Some? ==>
                && (r.Ok? <==> ContentReadable(allocator.slotMap.value, allocator.capacityFile))
                && (InFile(allocator.slotMap.value, allocator.capacityFile) ==>
                      r.Ok? && tree != null && State() == Restart(env, old(State())))
    {
      if initialized {
        return Ok(());
      }
      if allocator.slotMap.Some? {
        r := BuildMerkleTree();
        if InFile(allocator.slotMap.value, allocator.capacityFile) {
          StartupIsRestart(env, old(State()));
          assert tree.leaves == Restart(env, old(State())).leaves;
        }
        if r.Err? {
          return;
        }
      }
      initialized := true;
      r := Ok(());
    }
  }

  /** The write loop's state after one more chunk. */
  lemma NextChunk<D>(env: Env<D>, slots: seq<Slot<D>>, file: seq<byte>, targets: seq<nat>, chunks: seq<seq<byte>>, k: nat)
    requires k < |chunks| == |targets| && AllFit(slots, targets[..k + 1], chunks[..k + 1])
    ensures AllFit(slots, targets[..k], chunks[..k]) && Fits(slots, targets[k], chunks[k])
    ensures WriteChunks(slots, file, targets[..k + 1], chunks[..k + 1]) ==
            WriteSlot(slots, WriteChunks(slots, file, targets[..k], chunks[..k]), targets[k], Pad(chunks[k], MAX_CHUNK_SIZE))
    ensures ChunkHashes(env.hashChunk, slots, targets[..k + 1], chunks[..k + 1]) ==
            ChunkHashes(env.hashChunk, slots, targets[..k], chunks[..k]) + [env.hashChunk(Padded(slots, targets[k], chunks[k]))]
  {
    assert targets[..k + 1][..k] == targets[..k] && chunks[..k + 1][..k] == chunks[..k];
    assert targets[..k + 1][k] == targets[k] && chunks[..k + 1][k] == chunks[k];
    forall j | 0 <= j < k
      ensures Fits(slots, targets[..k][j], chunks[..k][j])
    {
      assert Fits(slots, targets[..k + 1][j], chunks[..k + 1][j]);
    }
  }

  ghost predicate ContentReadable<D>(slots: seq<Slot<D>>, file: seq<byte>) {
    forall i :: 0 <= i < |slots| && slots[i].state.Content? ==> ReadSlot(slots, file, i).Ok?
  }

  /** The leaf the startup rebuild computes for slot `i`. */
  ghost function StartupLeaf<D>(env: Env<D>, slots: seq<Slot<D>>, file: seq<byte>, i: nat): D
    requires i < |slots| && |env.filler(i)| == MAX_CHUNK_SIZE && slots[i].size <= MAX_CHUNK_SIZE
    requires slots[i].state.Content? ==> ReadSlot(slots, file, i).Ok?
  {
    match slots[i].state
    case Proof => env.hashChunk(env.filler(i)[..slots[i].size])
    case Open => env.hashChunk(Zeros(slots[i].size))
    case Content(_, _) => env.hashChunk(ReadSlot(slots, file, i).value)
  }

  lemma StartupIsRestart<D>(env: Env<D>, s: Store<D>)
    requires env.Ok() && InFile(s.slots, s.file)
    ensures ContentReadable(s.slots, s.file)
    ensures forall i :: 0 <= i < |s.slots| ==> StartupLeaf(env, s.slots, s.file, i) == Restart(env, s).leaves[i]
  {
    forall i | 0 <= i < |s.slots|
      ensures ReadSlot(s.slots, s.file, i) == Ok(SlotBytes(s.slots, s.file, i))
    {
      ReadIsSlotBytes(s.slots, s.file, i);
    }
  }

  lemma {:induction false} ReadStops<D>(slots: seq<Slot<D>>, file: seq<byte>, placement: Placement, k: nat)
    requires k <= |placement| && ReadPieces(slots, file, placement[..k]).Err?
    ensures ReadPieces(slots, file, placement) == Err(ReadPieces(slots, file, placement[..k]).error)
    decreases |placement|
  {
    if k == |placement| {
      assert placement[..k] == placement;
    } else {
      var n := |placement| - 1;
      assert placement[..n][..k] == placement[..k];
      ReadStops(slots, file, placement[..n], k);
    }
  }
}
