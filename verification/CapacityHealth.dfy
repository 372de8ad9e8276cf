/**
 What every operation of the content store keeps: a store or a delete leaves the state healthy,
 changes the stored contents as a map would, and the exact case in which a store does not.
 */
module CapacityHealth {
  import opened Prelude
  import opened CapacityProof
  import opened Slots
  import opened CapacityStore

  // ----- Storing -----

  /** When a store leaves the state healthy: a test the caller can make beforehand. */
  ghost predicate StoreIsSafe<D>(s: Store<D>, id: string, chunks: seq<seq<byte>>) {
    FindOpen(s.slots, |chunks|).Ok? ==>
      var targets := Targets(s.slots, |chunks|);
      if AllFit(s.slots, targets, chunks) then id in s.content ==> s.content[id] == []
      else forall k :: 0 <= k < FittingPrefix(s.slots, targets, chunks) ==> AllZero(chunks[k])
  }

  /**
   A store keeps the state healthy exactly when it is safe. It is not when it reuses an id that has
   slots, nor when a chunk fails after an earlier one with a non-zero byte: that chunk then sits in a
   slot still marked open.
   */
  lemma StoreKeepsHealthExactly<D>(env: Env<D>, s: Store<D>, id: string, chunks: seq<seq<byte>>)
    requires Healthy(env, s)
    ensures Healthy(env, StoreChunks(env, s, id, chunks)) <==> StoreIsSafe(s, id, chunks)
  {
    if FindOpen(s.slots, |chunks|).Ok? {
      var targets := Targets(s.slots, |chunks|);
      if AllFit(s.slots, targets, chunks) {
        FinishedStoreHealthyExactly(env, s, id, targets, chunks);
      } else {
        HalfStoreHealthyExactly(env, s, targets, chunks);
      }
    }
  }

  lemma MarkedTables<D>(b: Books<D>, targets: seq<nat>, chunks: seq<seq<byte>>, id: string, hash: D)
    requires |targets| == |chunks| && Below(targets, |b.slots|)
    ensures var a := Mark(b, PlacementOf(targets, chunks), id, hash);
            && a.content == b.content[id := PlacementOf(targets, chunks)] && |a.slots| == |b.slots|
            && forall i :: 0 <= i < |b.slots| ==>
                 a.slots[i] == if i in targets then b.slots[i].(state := Content(id, hash)) else b.slots[i]
  {
    var placement := PlacementOf(targets, chunks);
    assert placement[..|placement|] == placement;
    forall i | 0 <= i < |b.slots|
      ensures Touches(placement, i) <==> i in targets
    {
      if i in targets {
        var k :| 0 <= k < |targets| && targets[k] == i;
        assert placement[k].0 == i;
      }
    }
  }

  /** Slot `i` as a finished store leaves it: holding `chunk` for `id`. */
  ghost predicate HoldsChunk<D>(env: Env<D>, s: Store<D>, t: Store<D>, id: string, i: nat, chunk: seq<byte>) {
    && i < |s.slots| == |t.slots| == |t.leaves| && Fits(s.slots, i, chunk)
    && t.slots[i] == s.slots[i].(state := t.slots[i].state) && TaggedWith(t.slots, i, id)
    && t.slots[i].offset + t.slots[i].size <= |t.file|
    && SlotBytes(t.slots, t.file, i) == CapacityStore.Padded(s.slots, i, chunk)
    && t.leaves[i] == env.hashChunk(CapacityStore.Padded(s.slots, i, chunk))
  }

  ghost predicate Kept<D>(s: Store<D>, t: Store<D>, i: nat) {
    && i < |s.slots| == |t.slots| == |s.leaves| == |t.leaves|
    && t.slots[i] == s.slots[i] && t.leaves[i] == s.leaves[i]
    && s.slots[i].offset + s.slots[i].size <= |s.file|
    && s.slots[i].offset + s.slots[i].size <= |t.file|
    && SlotBytes(t.slots, t.file, i) == SlotBytes(s.slots, s.file, i)
  }

  /** The state after a store that ran to its end. */
  lemma StoredState<D>(env: Env<D>, s: Store<D>, id: string, targets: seq<nat>, chunks: seq<seq<byte>>)
    requires Healthy(env, s) && AllFit(s.slots, targets, chunks) && OpenTargets(s.slots, targets)
    ensures var t := StoreInto(env, s, id, targets, chunks);
            && |t.slots| == |s.slots| == |t.leaves| && InFile(s.slots, t.file)
            && t.content == s.content[id := PlacementOf(targets, chunks)]
            && (forall k :: 0 <= k < |chunks| ==> HoldsChunk(env, s, t, id, targets[k], chunks[k]))
            && (forall i :: 0 <= i < |s.slots| && i !in targets ==> Kept(s, t, i))
  {
    var hashes := ChunkHashes(env.hashChunk, s.slots, targets, chunks);
    var t := StoreInto(env, s, id, targets, chunks);
    WriteChunksEffect(s.slots, s.file, targets, chunks);
    OverwriteEffect(s.leaves, targets, hashes);
    MarkedTables(s.Tables(), targets, chunks, id, env.commitHash(hashes));
    forall k | 0 <= k < |chunks|
      ensures HoldsChunk(env, s, t, id, targets[k], chunks[k])
    {
      assert targets[k] in targets && t.leaves[targets[k]] == hashes[k];
      StoredChunk(env, s, t, id, env.commitHash(hashes), targets[k], chunks[k]);
    }
    forall i | 0 <= i < |s.slots| && i !in targets
      ensures Kept(s, t, i)
    {
      assert t.slots[i] == s.slots[i];
    }
  }

  lemma StoredChunk<D>(env: Env<D>, s: Store<D>, t: Store<D>, id: string, hash: D, i: nat, chunk: seq<byte>)
    requires Fits(s.slots, i, chunk) && |t.slots| == |s.slots| == |t.leaves| && InFile(s.slots, t.file)
    requires t.slots[i] == s.slots[i].(state := Content(id, hash))
    requires SlotBytes(s.slots, t.file, i) == CapacityStore.Padded(s.slots, i, chunk)
    requires t.leaves[i] == env.hashChunk(CapacityStore.Padded(s.slots, i, chunk))
    ensures HoldsChunk(env, s, t, id, i, chunk)
  {
  }

  lemma FinishedStoreHealthyExactly<D>(env: Env<D>, s: Store<D>, id: string, targets: seq<nat>, chunks: seq<seq<byte>>)
    requires Healthy(env, s) && AllFit(s.slots, targets, chunks) && OpenTargets(s.slots, targets)
    ensures Healthy(env, StoreInto(env, s, id, targets, chunks)) <==> (id in s.content ==> s.content[id] == [])
  {
    var placement, t := PlacementOf(targets, chunks), StoreInto(env, s, id, targets, chunks);
    var hash := env.commitHash(ChunkHashes(env.hashChunk, s.slots, targets, chunks));
    assert t.Tables() == Mark(s.Tables(), placement, id, hash);
    MarkKeepsAgreementExactly(s.Tables(), placement, id, hash);
    OpenSlotsAreNobodys(s, id, targets, chunks);
    if id in s.content ==> s.content[id] == [] {
      StoredSlotsHealthy(env, s, id, targets, chunks);
    }
  }

  /** Marking open slots is safe exactly when the id has no slots yet. */
  lemma OpenSlotsAreNobodys<D>(s: Store<D>, id: string, targets: seq<nat>, chunks: seq<seq<byte>>)
    requires Agree(s.Tables()) && |targets| == |chunks| && OpenTargets(s.slots, targets)
    ensures MarkIsSafe(s.Tables(), PlacementOf(targets, chunks), id) <==> (id in s.content ==> s.content[id] == [])
  {
    var placement := PlacementOf(targets, chunks);
    assert InBounds(placement, |s.slots|) && NoRepeats(placement);
    if id in s.content && s.content[id] != [] {
      var i := s.content[id][0].0;
      assert TaggedWith(s.slots, i, id);
      assert !Touches(placement, i);
    }
  }

  lemma StoredSlotsHealthy<D>(env: Env<D>, s: Store<D>, id: string, targets: seq<nat>, chunks: seq<seq<byte>>)
    requires Healthy(env, s) && AllFit(s.slots, targets, chunks) && OpenTargets(s.slots, targets)
    requires Agree(StoreInto(env, s, id, targets, chunks).Tables())
    ensures Healthy(env, StoreInto(env, s, id, targets, chunks))
  {
    StoredState(env, s, id, targets, chunks);
    HoldingOrKeptIsHealthy(env, s, StoreInto(env, s, id, targets, chunks), id, targets, chunks);
  }

  /** A state whose slots are each kept or hold a chunk is healthy if its index is in order. */
  lemma HoldingOrKeptIsHealthy<D>(env: Env<D>, s: Store<D>, t: Store<D>, id: string, targets: seq<nat>, chunks: seq<seq<byte>>)
    requires Healthy(env, s) && Agree(t.Tables()) && |targets| == |chunks|
    requires |t.slots| == |s.slots| == |t.leaves| && InFile(s.slots, t.file)
    requires t.content == s.content[id := PlacementOf(targets, chunks)]
    requires forall k :: 0 <= k < |chunks| ==> HoldsChunk(env, s, t, id, targets[k], chunks[k])
    requires forall i :: 0 <= i < |s.slots| && i !in targets ==> Kept(s, t, i)
    ensures Healthy(env, t)
  {
    forall i | 0 <= i < |s.slots|
      ensures s.slots[i].offset == t.slots[i].offset && s.slots[i].size == t.slots[i].size
    {
      assert i in targets || Kept(s, t, i);
    }
    SameRanges(s.slots, t.slots, t.file);
    forall i | 0 <= i < |t.slots|
      ensures SlotHealthy(env, t, i)
    {
      if i in targets {
        var k :| 0 <= k < |targets| && targets[k] == i;
        assert HoldsChunk(env, s, t, id, targets[k], chunks[k]);
      } else {
        assert Kept(s, t, i) && SlotHealthy(env, s, i);
      }
    }
    StoredSizesFit(env, s, t, id, targets, chunks);
  }

  lemma StoredSizesFit<D>(env: Env<D>, s: Store<D>, t: Store<D>, id: string, targets: seq<nat>, chunks: seq<seq<byte>>)
    requires SizesFit(s) && |t.slots| == |s.slots| && |targets| == |chunks|
    requires forall i :: 0 <= i < |s.slots| ==> s.slots[i].size == t.slots[i].size
    requires t.content == s.content[id := PlacementOf(targets, chunks)]
    requires forall k :: 0 <= k < |chunks| ==> HoldsChunk(env, s, t, id, targets[k], chunks[k])
    ensures SizesFit(t)
  {
    forall x, j | x in t.content && 0 <= j < |t.content[x]| && t.content[x][j].0 < |t.slots|
      ensures t.content[x][j].1 <= t.slots[t.content[x][j].0].size
    {
      if x == id {
        assert HoldsChunk(env, s, t, id, targets[j], chunks[j]);
      }
    }
  }

  /** Slot states do not matter to where slots lie. */
  lemma SameRanges<D>(a: seq<Slot<D>>, b: seq<Slot<D>>, file: seq<byte>)
    requires |a| == |b| && forall i :: 0 <= i < |a| ==> a[i].offset == b[i].offset && a[i].size == b[i].size
    requires InFile(a, file) && PairwiseDisjoint(a)
    ensures InFile(b, file) && PairwiseDisjoint(b)
    ensures forall i :: 0 <= i < |a| ==> SlotBytes(b, file, i) == SlotBytes(a, file, i)
  {
    forall i, j | 0 <= i < |b| && 0 <= j < |b| && i != j
      ensures RangesDisjoint(b[i], b[j])
    {
      assert RangesDisjoint(a[i], a[j]);
    }
  }

  lemma HalfStoreHealthyExactly<D>(env: Env<D>, s: Store<D>, targets: seq<nat>, chunks: seq<seq<byte>>)
    requires Healthy(env, s) && |targets| == |chunks| && OpenTargets(s.slots, targets)
    ensures Healthy(env, StoreHalfWay(s, targets, chunks)) <==>
            forall k :: 0 <= k < FittingPrefix(s.slots, targets, chunks) ==> AllZero(chunks[k])
  {
    var p := FittingPrefix(s.slots, targets, chunks);
    var ts, cs := targets[..p], chunks[..p];
    assert OpenTargets(s.slots, ts);
    if Healthy(env, s.(file := WriteChunks(s.slots, s.file, ts, cs))) {
      forall k | 0 <= k < p
        ensures AllZero(chunks[k])
      {
        LeftoverIsZero(env, s, ts, cs, k);
        assert cs[k] == chunks[k];
      }
    }
    if forall k :: 0 <= k < p ==> AllZero(chunks[k]) {
      ZeroChunksChangeNothing(env, s, ts, cs);
    }
  }

  /** A chunk left in an open slot of a healthy store holds only zeros. */
  lemma LeftoverIsZero<D>(env: Env<D>, s: Store<D>, targets: seq<nat>, chunks: seq<seq<byte>>, k: nat)
    requires AllFit(s.slots, targets, chunks) && OpenTargets(s.slots, targets) && k < |chunks| && Healthy(env, s)
    requires Healthy(env, s.(file := WriteChunks(s.slots, s.file, targets, chunks)))
    ensures AllZero(chunks[k])
  {
    var t := s.(file := WriteChunks(s.slots, s.file, targets, chunks));
    WriteChunksEffect(s.slots, s.file, targets, chunks);
    assert SlotHealthy(env, t, targets[k]);
    var data := CapacityStore.Padded(s.slots, targets[k], chunks[k]);
    assert AllZero(data);
    assert forall b :: 0 <= b < |chunks[k]| ==> chunks[k][b] == data[..|chunks[k]|][b] == data[b];
  }

  lemma ZeroChunksChangeNothing<D>(env: Env<D>, s: Store<D>, targets: seq<nat>, chunks: seq<seq<byte>>)
    requires AllFit(s.slots, targets, chunks) && OpenTargets(s.slots, targets) && Healthy(env, s)
    requires forall k :: 0 <= k < |chunks| ==> AllZero(chunks[k])
    ensures Healthy(env, s.(file := WriteChunks(s.slots, s.file, targets, chunks)))
  {
    var t := s.(file := WriteChunks(s.slots, s.file, targets, chunks));
    WriteChunksEffect(s.slots, s.file, targets, chunks);
    forall i | 0 <= i < |s.slots|
      ensures SlotHealthy(env, t, i)
    {
      assert SlotHealthy(env, s, i);
      if i in targets {
        var k :| 0 <= k < |targets| && targets[k] == i;
        PaddedZeroIsZero(s.slots, i, chunks[k]);
        assert SlotBytes(s.slots, t.file, i) == SlotBytes(s.slots, s.file, i);
      }
    }
  }

  lemma PaddedZeroIsZero<D>(slots: seq<Slot<D>>, i: nat, chunk: seq<byte>)
    requires Fits(slots, i, chunk) && AllZero(chunk)
    ensures AllZero(CapacityStore.Padded(slots, i, chunk))
  {
    var data := CapacityStore.Padded(slots, i, chunk);
    forall k | 0 <= k < |data|
      ensures data[k] == 0
    {
      if k < |chunk| {
        assert data[k] == data[..|chunk|][k] == chunk[k];
      }
    }
  }

  // ----- Deleting -----

  lemma {:induction false} ZeroWritesEffect<D>(slots: seq<Slot<D>>, file: seq<byte>, placement: Placement)
    requires InBounds(placement, |slots|) && InFile(slots, file) && PairwiseDisjoint(slots)
    ensures InFile(slots, WriteAll(slots, file, ZeroWrites(placement)))
    ensures forall i :: 0 <= i < |slots| ==>
              SlotBytes(slots, WriteAll(slots, file, ZeroWrites(placement)), i) ==
              if Touches(placement, i) then Zeros(slots[i].size) else SlotBytes(slots, file, i)
    decreases |placement|
  {
    if placement != [] {
      var n := |placement| - 1;
      ZeroWritesEffect(slots, file, placement[..n]);
      assert ZeroWrites(placement)[..n] == ZeroWrites(placement[..n]);
      TouchesSnoc(placement);
      var i := placement[n].0;
      WriteSlotEffect(slots, WriteAll(slots, file, ZeroWrites(placement[..n])), i, []);
      assert Pad([], slots[i].size) == Zeros(slots[i].size);
    }
  }

  /** Slot `i` as a delete leaves it: zeroed and open. */
  ghost predicate Opened<D>(env: Env<D>, s: Store<D>, t: Store<D>, i: nat) {
    && i < |s.slots| == |t.slots| == |t.leaves|
    && t.slots[i] == s.slots[i].(state := Open)
    && s.slots[i].offset + s.slots[i].size <= |t.file|
    && SlotBytes(t.slots, t.file, i) == Zeros(s.slots[i].size)
    && t.leaves[i] == env.hashChunk(Zeros(s.slots[i].size))
  }

  lemma ListedExactlyTagged<D>(b: Books<D>, id: string, i: nat)
    requires Agree(b) && id in b.content && i < |b.slots|
    ensures Touches(b.content[id], i) <==> TaggedWith(b.slots, i, id)
    ensures i in Indices(b.content[id]) <==> TaggedWith(b.slots, i, id)
  {
    var placement := b.content[id];
    assert forall j :: 0 <= j < |placement| ==> TaggedWith(b.slots, placement[j].0, id) && Indices(placement)[j] == placement[j].0;
    if TaggedWith(b.slots, i, id) {
      assert Listed(b, i);
    }
  }

  lemma ZeroedFile<D>(env: Env<D>, s: Store<D>, id: string)
    requires Healthy(env, s) && id in s.content
    ensures var file := WriteAll(s.slots, s.file, ZeroWrites(s.content[id]));
            InFile(s.slots, file) &&
            forall i :: 0 <= i < |s.slots| ==>
              SlotBytes(s.slots, file, i) ==
              if TaggedWith(s.slots, i, id) then Zeros(s.slots[i].size) else SlotBytes(s.slots, s.file, i)
  {
    ZeroWritesEffect(s.slots, s.file, s.content[id]);
    forall i | 0 <= i < |s.slots|
      ensures TaggedWith(s.slots, i, id) <==> Touches(s.content[id], i)
    {
      ListedExactlyTagged(s.Tables(), id, i);
    }
  }

  lemma ZeroedLeaves<D>(env: Env<D>, s: Store<D>, id: string)
    requires Agree(s.Tables()) && |s.leaves| == |s.slots| && id in s.content
    ensures var placement := s.content[id];
            var leaves := UpdateLeaves(s.leaves, Indices(placement), ZeroHashes(env.hashChunk, s.slots, placement));
            forall i :: 0 <= i < |s.slots| ==>
              leaves[i] == if TaggedWith(s.slots, i, id) then env.hashChunk(Zeros(s.slots[i].size)) else s.leaves[i]
  {
    var placement := s.content[id];
    var indices, hashes := Indices(placement), ZeroHashes(env.hashChunk, s.slots, placement);
    var leaves := UpdateLeaves(s.leaves, indices, hashes);
    assert NoRepeats(placement);
    OverwriteEffect(s.leaves, indices, hashes);
    forall i | 0 <= i < |s.slots|
      ensures leaves[i] == if TaggedWith(s.slots, i, id) then env.hashChunk(Zeros(s.slots[i].size)) else s.leaves[i]
    {
      ListedExactlyTagged(s.Tables(), id, i);
    }
  }

  /** Deleting a stored id zeroes and opens exactly its slots. */
  lemma DeletedState<D>(env: Env<D>, s: Store<D>, id: string)
    requires Healthy(env, s) && id in s.content
    ensures var t := DeleteContent(env, s, id);
            && |t.slots| == |s.slots| == |t.leaves| && InFile(s.slots, t.file)
            && t.content == s.content - {id} && Agree(t.Tables())
            && (forall i :: 0 <= i < |s.slots| ==>
                  if TaggedWith(s.slots, i, id) then Opened(env, s, t, i) else Kept(s, t, i))
  {
    ReleaseKeepsAgreement(s.Tables(), id);
    ZeroedFile(env, s, id);
    ZeroedLeaves(env, s, id);
    var t := DeleteContent(env, s, id);
    forall i | 0 <= i < |s.slots|
      ensures if TaggedWith(s.slots, i, id) then Opened(env, s, t, i) else Kept(s, t, i)
    {
      OpenedOrKept(env, s, t, i, TaggedWith(s.slots, i, id));
    }
  }

  lemma OpenedOrKept<D>(env: Env<D>, s: Store<D>, t: Store<D>, i: nat, tagged: bool)
    requires i < |s.slots| == |t.slots| == |s.leaves| == |t.leaves| && InFile(s.slots, s.file) && InFile(s.slots, t.file)
    requires t.slots[i] == if tagged then s.slots[i].(state := Open) else s.slots[i]
    requires SlotBytes(s.slots, t.file, i) == if tagged then Zeros(s.slots[i].size) else SlotBytes(s.slots, s.file, i)
    requires t.leaves[i] == if tagged then env.hashChunk(Zeros(s.slots[i].size)) else s.leaves[i]
    ensures if tagged then Opened(env, s, t, i) else Kept(s, t, i)
  {
  }

  /** A state whose slots are each kept or opened is healthy if its index is in order. */
  lemma OpenedOrKeptIsHealthy<D>(env: Env<D>, s: Store<D>, t: Store<D>)
    requires Healthy(env, s) && Agree(t.Tables()) && SizesFit(t)
    requires |t.slots| == |s.slots| == |t.leaves| && InFile(s.slots, t.file)
    requires forall i :: 0 <= i < |s.slots| ==> Opened(env, s, t, i) || Kept(s, t, i)
    ensures Healthy(env, t)
  {
    forall i | 0 <= i < |s.slots|
      ensures s.slots[i].offset == t.slots[i].offset && s.slots[i].size == t.slots[i].size
    {
      assert Opened(env, s, t, i) || Kept(s, t, i);
    }
    SameRanges(s.slots, t.slots, t.file);
    forall i | 0 <= i < |t.slots|
      ensures SlotHealthy(env, t, i)
    {
      assert Opened(env, s, t, i) || Kept(s, t, i);
      assert SlotHealthy(env, s, i);
    }
  }

  /** Deleting always leaves the state healthy. */
  lemma DeleteKeepsHealth<D>(env: Env<D>, s: Store<D>, id: string)
    requires Healthy(env, s)
    ensures Healthy(env, DeleteContent(env, s, id))
  {
    if id in s.content {
      var t := DeleteContent(env, s, id);
      DeletedState(env, s, id);
      assert forall i :: 0 <= i < |s.slots| ==> t.slots[i].size == s.slots[i].size;
      OpenedOrKeptIsHealthy(env, s, t);
    }
  }

  // ----- The store as a map from ids to bytes -----

  function Pieces<D>(slots: seq<Slot<D>>, file: seq<byte>, placement: Placement): seq<byte>
    requires InBounds(placement, |slots|) && InFile(slots, file)
    requires forall j :: 0 <= j < |placement| ==> placement[j].1 <= slots[placement[j].0].size
  {
    if placement == [] then []
    else
      var n := |placement| - 1;
      Pieces(slots, file, placement[..n]) + SlotBytes(slots, file, placement[n].0)[..placement[n].1]
  }

  /** The bytes stored under each id. */
  ghost function View<D>(env: Env<D>, s: Store<D>): map<string, seq<byte>>
    requires Healthy(env, s)
  {
    map id | id in s.content :: Pieces(s.slots, s.file, s.content[id])
  }

  function Concat(chunks: seq<seq<byte>>): seq<byte> {
    if chunks == [] then [] else Concat(chunks[..|chunks| - 1]) + chunks[|chunks| - 1]
  }

  lemma {:induction false} ReadPiecesIsPieces<D>(slots: seq<Slot<D>>, file: seq<byte>, placement: Placement)
    requires InBounds(placement, |slots|) && InFile(slots, file)
    requires forall j :: 0 <= j < |placement| ==> placement[j].1 <= slots[placement[j].0].size
    ensures ReadPieces(slots, file, placement) == Ok(Pieces(slots, file, placement))
    decreases |placement|
  {
    if placement != [] {
      var n := |placement| - 1;
      ReadPiecesIsPieces(slots, file, placement[..n]);
      ReadIsSlotBytes(slots, file, placement[n].0);
    }
  }

  /** Reading never fails on a healthy store and returns what the map holds. */
  lemma GetReturnsView<D>(env: Env<D>, s: Store<D>, id: string)
    requires Healthy(env, s)
    ensures GetContent(s, id) == Ok(if id in View(env, s) then Some(View(env, s)[id]) else None)
  {
    if id in s.content {
      ReadPiecesIsPieces(s.slots, s.file, s.content[id]);
    }
  }

  /** Pieces depend only on the ranges and bytes of the slots they name. */
  lemma {:induction false} PiecesFrame<D>(a: seq<Slot<D>>, f: seq<byte>, b: seq<Slot<D>>, g: seq<byte>, placement: Placement)
    requires InBounds(placement, |a|) && |a| == |b| && InFile(a, f) && InFile(b, g)
    requires forall j :: 0 <= j < |placement| ==> placement[j].1 <= a[placement[j].0].size && placement[j].1 <= b[placement[j].0].size
    requires forall j :: 0 <= j < |placement| ==> SlotBytes(a, f, placement[j].0) == SlotBytes(b, g, placement[j].0)
    ensures Pieces(a, f, placement) == Pieces(b, g, placement)
    decreases |placement|
  {
    if placement != [] {
      var n := |placement| - 1;
      assert forall j :: 0 <= j < n ==> placement[..n][j] == placement[j];
      PiecesFrame(a, f, b, g, placement[..n]);
    }
  }

  lemma {:induction false} StoredPieces<D>(slots: seq<Slot<D>>, file: seq<byte>, targets: seq<nat>, chunks: seq<seq<byte>>)
    requires InFile(slots, file) && AllFit(slots, targets, chunks)
    requires forall k :: 0 <= k < |chunks| ==> SlotBytes(slots, file, targets[k]) == CapacityStore.Padded(slots, targets[k], chunks[k])
    ensures Pieces(slots, file, PlacementOf(targets, chunks)) == Concat(chunks)
    decreases |chunks|
  {
    if chunks != [] {
      var n := |chunks| - 1;
      StoredPieces(slots, file, targets[..n], chunks[..n]);
      assert PlacementOf(targets, chunks)[..n] == PlacementOf(targets[..n], chunks[..n]);
    }
  }

  /** Contents whose slots are all kept are kept. */
  lemma KeptView<D>(env: Env<D>, s: Store<D>, t: Store<D>, id: string)
    requires Healthy(env, s) && Healthy(env, t) && |s.slots| == |t.slots|
    requires forall x :: x in s.content && x != id ==> x in t.content && t.content[x] == s.content[x]
    requires forall i :: 0 <= i < |s.slots| && s.slots[i].state.Content? && s.slots[i].state.dealId != id ==> Kept(s, t, i)
    ensures forall x :: x in s.content && x != id ==> View(env, t)[x] == View(env, s)[x]
  {
    forall x | x in s.content && x != id
      ensures View(env, t)[x] == View(env, s)[x]
    {
      forall j | 0 <= j < |s.content[x]|
        ensures SlotBytes(t.slots, t.file, s.content[x][j].0) == SlotBytes(s.slots, s.file, s.content[x][j].0)
      {
        assert TaggedWith(s.slots, s.content[x][j].0, x);
      }
      PiecesFrame(t.slots, t.file, s.slots, s.file, s.content[x]);
    }
  }

  /** A finished store under an id without slots adds one entry to the map and changes no other. */
  lemma StoreUpdatesView<D>(env: Env<D>, s: Store<D>, id: string, targets: seq<nat>, chunks: seq<seq<byte>>)
    requires Healthy(env, s) && AllFit(s.slots, targets, chunks) && OpenTargets(s.slots, targets)
    requires id in s.content ==> s.content[id] == []
    ensures Healthy(env, StoreInto(env, s, id, targets, chunks))
    ensures View(env, StoreInto(env, s, id, targets, chunks)) == View(env, s)[id := Concat(chunks)]
  {
    FinishedStoreHealthyExactly(env, s, id, targets, chunks);
    StoreAddsEntry(env, s, id, targets, chunks);
    StoreKeepsEntries(env, s, id, targets, chunks);
    ViewUpdate(env, s, StoreInto(env, s, id, targets, chunks), id, Concat(chunks));
  }

  lemma StoreAddsEntry<D>(env: Env<D>, s: Store<D>, id: string, targets: seq<nat>, chunks: seq<seq<byte>>)
    requires Healthy(env, s) && AllFit(s.slots, targets, chunks) && OpenTargets(s.slots, targets)
    requires Healthy(env, StoreInto(env, s, id, targets, chunks))
    ensures var t := StoreInto(env, s, id, targets, chunks);
            t.content.Keys == s.content.Keys + {id} && View(env, t)[id] == Concat(chunks)
  {
    StoredState(env, s, id, targets, chunks);
    NewEntry(env, s, StoreInto(env, s, id, targets, chunks), id, targets, chunks);
  }

  lemma StoreKeepsEntries<D>(env: Env<D>, s: Store<D>, id: string, targets: seq<nat>, chunks: seq<seq<byte>>)
    requires Healthy(env, s) && AllFit(s.slots, targets, chunks) && OpenTargets(s.slots, targets)
    requires Healthy(env, StoreInto(env, s, id, targets, chunks))
    ensures var t := StoreInto(env, s, id, targets, chunks);
            forall x :: x in s.content && x != id ==> x in t.content && View(env, t)[x] == View(env, s)[x]
  {
    StoredState(env, s, id, targets, chunks);
    OtherEntries(env, s, StoreInto(env, s, id, targets, chunks), id, targets);
  }

  lemma OtherEntries<D>(env: Env<D>, s: Store<D>, t: Store<D>, id: string, targets: seq<nat>)
    requires Healthy(env, s) && Healthy(env, t) && OpenTargets(s.slots, targets) && |t.slots| == |s.slots|
    requires forall x :: x in s.content && x != id ==> x in t.content && t.content[x] == s.content[x]
    requires forall i :: 0 <= i < |s.slots| && i !in targets ==> Kept(s, t, i)
    ensures forall x :: x in s.content && x != id ==> View(env, t)[x] == View(env, s)[x]
  {
    assert forall i :: 0 <= i < |s.slots| && s.slots[i].state.Content? ==> i !in targets;
    KeptView(env, s, t, id);
  }

  lemma ViewUpdate<D>(env: Env<D>, s: Store<D>, t: Store<D>, id: string, bytes: seq<byte>)
    requires Healthy(env, s) && Healthy(env, t) && t.content.Keys == s.content.Keys + {id}
    requires View(env, t)[id] == bytes
    requires forall x :: x in s.content && x != id ==> View(env, t)[x] == View(env, s)[x]
    ensures View(env, t) == View(env, s)[id := bytes]
  {
  }

  lemma NewEntry<D>(env: Env<D>, s: Store<D>, t: Store<D>, id: string, targets: seq<nat>, chunks: seq<seq<byte>>)
    requires Healthy(env, t) && |targets| == |chunks| && id in t.content && t.content[id] == PlacementOf(targets, chunks)
    requires forall k :: 0 <= k < |chunks| ==> HoldsChunk(env, s, t, id, targets[k], chunks[k])
    ensures View(env, t)[id] == Concat(chunks)
  {
    StoredPieces(t.slots, t.file, targets, chunks);
  }

  /** Deleting removes one entry from the map and changes no other. */
  lemma DeleteUpdatesView<D>(env: Env<D>, s: Store<D>, id: string)
    requires Healthy(env, s)
    ensures Healthy(env, DeleteContent(env, s, id))
    ensures View(env, DeleteContent(env, s, id)) == View(env, s) - {id}
  {
    DeleteKeepsHealth(env, s, id);
    if id in s.content {
      DeletedState(env, s, id);
      DeletedView(env, s, DeleteContent(env, s, id), id);
    }
  }

  lemma DeletedView<D>(env: Env<D>, s: Store<D>, t: Store<D>, id: string)
    requires Healthy(env, s) && Healthy(env, t) && |s.slots| == |t.slots| && t.content == s.content - {id}
    requires forall i :: 0 <= i < |s.slots| && !TaggedWith(s.slots, i, id) ==> Kept(s, t, i)
    ensures View(env, t) == View(env, s) - {id}
  {
    KeptView(env, s, t, id);
    ViewRemoval(env, s, t, id);
  }

  lemma ViewRemoval<D>(env: Env<D>, s: Store<D>, t: Store<D>, id: string)
    requires Healthy(env, s) && Healthy(env, t) && t.content.Keys == s.content.Keys - {id}
    requires forall x :: x in s.content && x != id ==> View(env, t)[x] == View(env, s)[x]
    ensures View(env, t) == View(env, s) - {id}
  {
  }

  // ----- The commitment of a content -----

  /** The hashes of the chunks, each padded with zeros to 1024 bytes, in order. */
  function PaddedHashes<D>(hc: seq<byte> -> D, chunks: seq<seq<byte>>): (hashes: seq<D>)
    requires forall k :: 0 <= k < |chunks| ==> |chunks[k]| <= 1024
    ensures |hashes| == |chunks| && forall k :: 0 <= k < |chunks| ==> hashes[k] == hc(chunks[k] + Zeros(1024 - |chunks[k]|))
  {
    seq(|chunks|, k requires 0 <= k < |chunks| && |chunks[k]| <= 1024 => hc(chunks[k] + Zeros(1024 - |chunks[k]|)))
  }

  lemma PaddedHashesAgree<D>(env: Env<D>, s: Store<D>, targets: seq<nat>, chunks: seq<seq<byte>>)
    requires Healthy(env, s) && AllFit(s.slots, targets, chunks)
    ensures forall k :: 0 <= k < |chunks| ==> |chunks[k]| <= 1024
    ensures ChunkHashes(env.hashChunk, s.slots, targets, chunks) == PaddedHashes(env.hashChunk, chunks)
  {
    assert forall k :: 0 <= k < |chunks| ==> Fits(s.slots, targets[k], chunks[k]);
    forall k | 0 <= k < |chunks|
      ensures CapacityStore.Padded(s.slots, targets[k], chunks[k]) == chunks[k] + Zeros(1024 - |chunks[k]|)
    {
      FullPadding(s.slots, targets[k], chunks[k]);
    }
  }

  lemma FullPadding<D>(slots: seq<Slot<D>>, i: nat, chunk: seq<byte>)
    requires Fits(slots, i, chunk) && slots[i].size <= MAX_CHUNK_SIZE
    ensures CapacityStore.Padded(slots, i, chunk) == chunk + Zeros(1024 - |chunk|)
  {
    var data := CapacityStore.Padded(slots, i, chunk);
    assert data == data[..|chunk|] + data[|chunk|..];
  }

  /** Every slot of a stored content carries the commitment to all its chunks, in order. */
  lemma StoredUnderCommitment<D>(env: Env<D>, s: Store<D>, id: string, targets: seq<nat>, chunks: seq<seq<byte>>)
    requires Healthy(env, s) && AllFit(s.slots, targets, chunks) && OpenTargets(s.slots, targets)
    ensures forall k :: 0 <= k < |chunks| ==> |chunks[k]| <= 1024
    ensures forall k :: 0 <= k < |chunks| ==>
              StoreInto(env, s, id, targets, chunks).slots[targets[k]] ==
              s.slots[targets[k]].(state := Content(id, env.commitHash(PaddedHashes(env.hashChunk, chunks))))
  {
    PaddedHashesAgree(env, s, targets, chunks);
    MarkedTables(s.Tables(), targets, chunks, id, env.commitHash(ChunkHashes(env.hashChunk, s.slots, targets, chunks)));
    assert forall k :: 0 <= k < |chunks| ==> targets[k] in targets;
  }
}
