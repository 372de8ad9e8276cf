/**
 Whole runs of the provider: posts mirrored into the store, garbage collection and restarts in any
 order. The store behaves as a bounded map from content ids to bytes, and in every reachable state an
 honest provider passes every challenge.
 */
module CapacityRuns {
  import opened Prelude
  import opened CapacityProof
  import opened MerkleTree
  import opened ChallengeDerivation
  import opened ChallengeValidator
  import opened Slots
  import opened CapacityStore
  import opened CapacityHealth

  // ----- Answering challenges -----

  /** The record `generate_capacity_proof` builds for slot `k`. */
  function Answer<D>(env: Env<D>, s: Store<D>, k: nat): ChunkProof<D>
    requires InFile(s.slots, s.file) && k < |s.slots| == |s.leaves|
  {
    var data := SlotBytes(s.slots, s.file, k);
    ChunkProof(k, data, env.hashChunk(data), ProofPath(env.hashPair, s.leaves, k), s.slots[k].state)
  }

  function Answers<D>(env: Env<D>, s: Store<D>, indices: seq<nat>): (proofs: seq<ChunkProof<D>>)
    requires InFile(s.slots, s.file) && |s.slots| == |s.leaves| && Below(indices, |s.slots|)
    ensures |proofs| == |indices| && forall i :: 0 <= i < |indices| ==> proofs[i] == Answer(env, s, indices[i])
  {
    seq(|indices|, i requires 0 <= i < |indices| => Answer(env, s, indices[i]))
  }

  function AllBytes<D>(s: Store<D>): (chunks: seq<seq<byte>>)
    requires InFile(s.slots, s.file)
    ensures |chunks| == |s.slots| && forall i :: 0 <= i < |s.slots| ==> chunks[i] == SlotBytes(s.slots, s.file, i)
  {
    seq(|s.slots|, i requires 0 <= i < |s.slots| => SlotBytes(s.slots, s.file, i))
  }

  /** A healthy provider's answers are accepted for any challenge within its slots. */
  lemma HealthyStorePassesChallenges<D>(env: Env<D>, s: Store<D>, indices: seq<nat>)
    requires Healthy(env, s) && Below(indices, |s.slots|)
    ensures Accepts(env.hashPair, env.hashChunk, Root(env.hashPair, s.leaves), Answers(env, s, indices), indices)
  {
    var chunks := AllBytes(s);
    assert s.leaves == LeafHashes(env.hashChunk, chunks) by {
      forall i | 0 <= i < |s.slots|
        ensures s.leaves[i] == env.hashChunk(chunks[i])
      {
        assert SlotHealthy(env, s, i);
      }
    }
    forall i | 0 <= i < |indices|
      ensures Honest(env.hashPair, env.hashChunk, chunks, Answers(env, s, indices)[i], indices[i])
    {
      assert SlotHealthy(env, s, indices[i]);
    }
    HonestResponseAccepted(env.hashPair, env.hashChunk, chunks, Answers(env, s, indices), indices);
  }

  /**
   The cost of a store that fails half-way: a slot that received a non-zero chunk is still open, so
   the provider's own honest answer for it is rejected, whatever root it is judged against.
   */
  lemma HalfStoredSlotFailsChallenge<D>(env: Env<D>, s: Store<D>, targets: seq<nat>, chunks: seq<seq<byte>>, k: nat, root: D)
    requires Healthy(env, s) && |targets| == |chunks| && OpenTargets(s.slots, targets)
    requires k < FittingPrefix(s.slots, targets, chunks) && !AllZero(chunks[k])
    ensures var t := StoreHalfWay(s, targets, chunks);
            && InFile(t.slots, t.file)
            && !Accepts(env.hashPair, env.hashChunk, root, Answers(env, t, [targets[k]]), [targets[k]])
  {
    var p, t := FittingPrefix(s.slots, targets, chunks), StoreHalfWay(s, targets, chunks);
    var ts, cs := targets[..p], chunks[..p];
    WriteChunksEffect(s.slots, s.file, ts, cs);
    assert ts[k] == targets[k] && cs[k] == chunks[k];
    var data := CapacityStore.Padded(s.slots, targets[k], chunks[k]);
    var b :| 0 <= b < |chunks[k]| && chunks[k][b] != 0;
    assert data[b] == data[..|chunks[k]|][b];
    assert !RecordOk(env.hashPair, env.hashChunk, root, Answers(env, t, [targets[k]])[0], targets[k]);
  }

  /** Every challenge within the slots is answered to the validator's satisfaction. */
  ghost predicate PassesChallenges<D>(env: Env<D>, s: Store<D>)
    requires InFile(s.slots, s.file) && |s.slots| == |s.leaves| > 0
  {
    forall indices :: Below(indices, |s.slots|) ==>
      Accepts(env.hashPair, env.hashChunk, Root(env.hashPair, s.leaves), Answers(env, s, indices), indices)
  }

  /** After a half-way store every challenge is passed exactly when all that was written was zeros. */
  lemma HalfStorePassesExactly<D>(env: Env<D>, s: Store<D>, targets: seq<nat>, chunks: seq<seq<byte>>)
    requires Healthy(env, s) && |targets| == |chunks| && OpenTargets(s.slots, targets)
    ensures var t := StoreHalfWay(s, targets, chunks);
            && InFile(t.slots, t.file) && |t.slots| == |t.leaves|
            && (PassesChallenges(env, t) <==>
                forall k :: 0 <= k < FittingPrefix(s.slots, targets, chunks) ==> AllZero(chunks[k]))
  {
    var p, t := FittingPrefix(s.slots, targets, chunks), StoreHalfWay(s, targets, chunks);
    HalfStoreHealthyExactly(env, s, targets, chunks);
    HalfStoreKeepsFile(env, s, targets, chunks);
    if PassesChallenges(env, t) {
      forall k | 0 <= k < p
        ensures AllZero(chunks[k])
      {
        if !AllZero(chunks[k]) {
          assert Below([targets[k]], |t.slots|);
          HalfStoredSlotFailsChallenge(env, s, targets, chunks, k, Root(env.hashPair, t.leaves));
        }
      }
    }
    if forall k :: 0 <= k < p ==> AllZero(chunks[k]) {
      HealthyPassesAll(env, t);
    }
  }

  lemma HealthyPassesAll<D>(env: Env<D>, s: Store<D>)
    requires Healthy(env, s)
    ensures PassesChallenges(env, s)
  {
    forall indices | Below(indices, |s.slots|)
      ensures Accepts(env.hashPair, env.hashChunk, Root(env.hashPair, s.leaves), Answers(env, s, indices), indices)
    {
      HealthyStorePassesChallenges(env, s, indices);
    }
  }

  lemma HalfStoreKeepsFile<D>(env: Env<D>, s: Store<D>, targets: seq<nat>, chunks: seq<seq<byte>>)
    requires Healthy(env, s) && |targets| == |chunks| && OpenTargets(s.slots, targets)
    ensures InFile(s.slots, StoreHalfWay(s, targets, chunks).file)
  {
    var p := FittingPrefix(s.slots, targets, chunks);
    WriteChunksEffect(s.slots, s.file, targets[..p], chunks[..p]);
  }

  /** Two open slots, no content. */
  function TwoSlotStore<D>(env: Env<D>): Store<D> {
    var zero := env.hashChunk(Zeros(MAX_CHUNK_SIZE));
    Store([Slot(0, MAX_CHUNK_SIZE, Open), Slot(MAX_CHUNK_SIZE, MAX_CHUNK_SIZE, Open)], map[], Zeros(2 * MAX_CHUNK_SIZE), [zero, zero])
  }

  lemma TwoSlotStoreHealthy<D>(env: Env<D>)
    ensures Healthy(env, TwoSlotStore(env))
  {
    var s := TwoSlotStore(env);
    forall i | 0 <= i < 2
      ensures SlotHealthy(env, s, i)
    {
      assert SlotBytes(s.slots, s.file, i) == Zeros(MAX_CHUNK_SIZE);
    }
  }

  /**
   A concrete loss: a one-byte chunk followed by one that is too large, on that store. The store is
   refused, the byte stays behind in an open slot, and the provider fails challenges from then on.
   */
  lemma OneByteLeftBehind<D>(env: Env<D>)
    ensures var s, chunks := TwoSlotStore(env), [[1], Zeros(MAX_CHUNK_SIZE + 1)];
            var t := StoreChunks(env, s, "a", chunks);
            && Healthy(env, s) && !Healthy(env, t)
            && InFile(t.slots, t.file) && |t.slots| == |t.leaves| > 0 && !PassesChallenges(env, t)
  {
    var s := TwoSlotStore(env);
    var chunks: seq<seq<byte>> := [[1], Zeros(MAX_CHUNK_SIZE + 1)];
    TwoSlotStoreHealthy(env);
    TwoSlotTargets(env);
    var targets := Targets(s.slots, 2);
    var p := FittingPrefix(s.slots, targets, chunks);
    assert |chunks[1]| > MAX_CHUNK_SIZE && !Fits(s.slots, targets[1], chunks[1]);
    assert Fits(s.slots, targets[0], chunks[0]);
    assert p == 1;
    assert chunks[0][0] == 1 && !AllZero(chunks[0]);
    StoreKeepsHealthExactly(env, s, "a", chunks);
    HalfStorePassesExactly(env, s, targets, chunks);
  }

  lemma TwoSlotTargets<D>(env: Env<D>)
    ensures var slots := TwoSlotStore(env).slots;
            FindOpen(slots, 2).Ok? && forall k :: 0 <= k < 2 ==> Targets(slots, 2)[k] < 2
  {
    var slots := TwoSlotStore(env).slots;
    assert slots[..1] == [slots[0]] && slots[..1][..0] == [];
    assert OpenIndices(slots[..1]) == [0];
    assert OpenIndices(slots) == [0, 1];
  }

  // ----- Restarting -----

  /** The leaf `build_merkle_tree` computes for slot `i`; only content slots are read from the file. */
  function RebuiltLeaf<D>(env: Env<D>, slots: seq<Slot<D>>, file: seq<byte>, i: nat): D
    requires InFile(slots, file) && i < |slots| && |env.filler(i)| == MAX_CHUNK_SIZE
  {
    match slots[i].state
    case Proof => env.hashChunk(env.filler(i)[..slots[i].size])
    case Open => env.hashChunk(Zeros(slots[i].size))
    case Content(_, _) => env.hashChunk(SlotBytes(slots, file, i))
  }

  ghost function Restart<D>(env: Env<D>, s: Store<D>): Store<D>
    requires env.Ok() && InFile(s.slots, s.file)
  {
    s.(leaves := seq(|s.slots|, i requires 0 <= i < |s.slots| => RebuiltLeaf(env, s.slots, s.file, i)))
  }

  /** Rebuilding the tree at startup reproduces the incrementally maintained one. */
  lemma RestartChangesNothing<D>(env: Env<D>, s: Store<D>)
    requires env.Ok() && Healthy(env, s)
    ensures Restart(env, s) == s
  {
    forall i | 0 <= i < |s.slots|
      ensures RebuiltLeaf(env, s.slots, s.file, i) == s.leaves[i]
    {
      assert SlotHealthy(env, s, i);
      if s.slots[i].state.Open? {
        assert SlotBytes(s.slots, s.file, i) == Zeros(s.slots[i].size);
      }
    }
  }

  // ----- Cutting a post into chunks -----

  function ChunksOf(bytes: seq<byte>): (chunks: seq<seq<byte>>)
    ensures |chunks| == SlotsFor(|bytes|)
    ensures forall k :: 0 <= k < |chunks| ==> |chunks[k]| <= MAX_CHUNK_SIZE
    decreases |bytes|
  {
    if bytes == [] then []
    else if |bytes| <= MAX_CHUNK_SIZE then [bytes]
    else [bytes[..MAX_CHUNK_SIZE]] + ChunksOf(bytes[MAX_CHUNK_SIZE..])
  }

  function SlotsFor(n: nat): nat {
    (n + MAX_CHUNK_SIZE - 1) / MAX_CHUNK_SIZE
  }

  lemma {:induction false} ConcatCons(c: seq<byte>, rest: seq<seq<byte>>)
    ensures Concat([c] + rest) == c + Concat(rest)
    decreases |rest|
  {
    var all := [c] + rest;
    if rest == [] {
      assert all == [c] && Concat(all) == Concat([]) + c;
    } else {
      var n := |rest| - 1;
      ConcatCons(c, rest[..n]);
      assert all[..|all| - 1] == [c] + rest[..n];
    }
  }

  /** The chunks put back together are the post. */
  lemma {:induction false} ConcatChunksOf(bytes: seq<byte>)
    ensures Concat(ChunksOf(bytes)) == bytes
    decreases |bytes|
  {
    if bytes != [] {
      if |bytes| <= MAX_CHUNK_SIZE {
        ConcatCons(bytes, []);
      } else {
        ConcatChunksOf(bytes[MAX_CHUNK_SIZE..]);
        ConcatCons(bytes[..MAX_CHUNK_SIZE], ChunksOf(bytes[MAX_CHUNK_SIZE..]));
      }
    }
  }

  /** All chunks but the last are full, and the last is not empty. */
  lemma {:induction false} ChunksAreFull(bytes: seq<byte>)
    ensures FullButLast(ChunksOf(bytes))
    decreases |bytes|
  {
    if |bytes| > MAX_CHUNK_SIZE {
      var rest := ChunksOf(bytes[MAX_CHUNK_SIZE..]);
      ChunksAreFull(bytes[MAX_CHUNK_SIZE..]);
      FullCons(bytes[..MAX_CHUNK_SIZE], rest);
    }
  }

  ghost predicate FullButLast(chunks: seq<seq<byte>>) {
    forall k :: 0 <= k < |chunks| ==> 0 < |chunks[k]| <= 1024 && (k < |chunks| - 1 ==> |chunks[k]| == 1024)
  }

  lemma FullCons(c: seq<byte>, rest: seq<seq<byte>>)
    requires |c| == 1024 && FullButLast(rest)
    ensures FullButLast([c] + rest)
  {
    var chunks := [c] + rest;
    forall k | 0 <= k < |chunks|
      ensures 0 < |chunks[k]| <= 1024 && (k < |chunks| - 1 ==> |chunks[k]| == 1024)
    {
      if k > 0 {
        assert chunks[k] == rest[k - 1];
      }
    }
  }

  // ----- Runs -----

  /** `Mirror` stores a post unless its id is stored already; `Collect` deletes an expired one. */
  datatype Op = Mirror(id: string, bytes: seq<byte>) | Collect(id: string) | Restarted

  ghost function Step<D>(env: Env<D>, s: Store<D>, op: Op): Store<D> {
    match op
    case Mirror(id, bytes) => if id in s.content then s else StoreChunks(env, s, id, ChunksOf(bytes))
    case Collect(id) => DeleteContent(env, s, id)
    case Restarted => if env.Ok() && InFile(s.slots, s.file) then Restart(env, s) else s
  }

  ghost function Run<D>(env: Env<D>, s: Store<D>, ops: seq<Op>): Store<D> {
    if ops == [] then s else Step(env, Run(env, s, ops[..|ops| - 1]), ops[|ops| - 1])
  }

  /** The reference: a map with room for a number of chunks. */
  datatype BoundedMap = BoundedMap(view: map<string, seq<byte>>, free: nat)

  function MapStep(m: BoundedMap, op: Op): BoundedMap {
    match op
    case Mirror(id, bytes) =>
      if id in m.view || SlotsFor(|bytes|) > m.free then m
      else BoundedMap(m.view[id := bytes], m.free - SlotsFor(|bytes|))
    case Collect(id) =>
      if id in m.view then BoundedMap(m.view - {id}, m.free + SlotsFor(|m.view[id]|)) else m
    case Restarted => m
  }

  function MapRun(m: BoundedMap, ops: seq<Op>): BoundedMap {
    if ops == [] then m else MapStep(MapRun(m, ops[..|ops| - 1]), ops[|ops| - 1])
  }

  ghost function Abstract<D>(env: Env<D>, s: Store<D>): BoundedMap
    requires Healthy(env, s)
  {
    BoundedMap(View(env, s), |OpenIndices(s.slots)|)
  }

  /** Health, full-size slots, and no id holding more slots than its bytes need. */
  ghost predicate Sound<D>(env: Env<D>, s: Store<D>) {
    && Healthy(env, s)
    && (forall i :: 0 <= i < |s.slots| ==> s.slots[i].size == MAX_CHUNK_SIZE)
    && (forall id :: id in s.content ==> |s.content[id]| == SlotsFor(|View(env, s)[id]|))
  }

  lemma MirrorStep<D>(env: Env<D>, s: Store<D>, id: string, bytes: seq<byte>)
    requires Sound(env, s) && id !in s.content && SlotsFor(|bytes|) <= |OpenIndices(s.slots)|
    ensures var t := StoreChunks(env, s, id, ChunksOf(bytes));
            && Sound(env, t) && SameSlots(s.slots, t.slots)
            && View(env, t) == View(env, s)[id := bytes]
            && |OpenIndices(t.slots)| == |OpenIndices(s.slots)| - SlotsFor(|bytes|)
  {
    var chunks := ChunksOf(bytes);
    assert FindOpen(s.slots, |chunks|).Ok?;
    var targets := Targets(s.slots, |chunks|);
    assert AllFit(s.slots, targets, chunks);
    ConcatChunksOf(bytes);
    StoreUpdatesView(env, s, id, targets, chunks);
    StoreTakesSlots(env, s, id, targets, chunks);
    SoundAfterStore(env, s, StoreInto(env, s, id, targets, chunks), id, bytes);
  }

  /** A finished store fills exactly its targets. */
  lemma StoreTakesSlots<D>(env: Env<D>, s: Store<D>, id: string, targets: seq<nat>, chunks: seq<seq<byte>>)
    requires Healthy(env, s) && AllFit(s.slots, targets, chunks) && OpenTargets(s.slots, targets)
    ensures var t := StoreInto(env, s, id, targets, chunks);
            && SameSlots(s.slots, t.slots) && t.content == s.content[id := PlacementOf(targets, chunks)]
            && |OpenIndices(t.slots)| == |OpenIndices(s.slots)| - |chunks|
  {
    var t := StoreInto(env, s, id, targets, chunks);
    MarkedTables(s.Tables(), targets, chunks, id, env.commitHash(ChunkHashes(env.hashChunk, s.slots, targets, chunks)));
    TargetsWereOpen(s.slots, t.slots, targets);
    OpenCountDiffers(t.slots, s.slots, targets);
  }

  lemma TargetsWereOpen<D>(before: seq<Slot<D>>, after: seq<Slot<D>>, targets: seq<nat>)
    requires OpenTargets(before, targets) && |after| == |before|
    requires forall i :: 0 <= i < |before| ==>
               if i in targets then after[i].state.Content? && after[i] == before[i].(state := after[i].state) else after[i] == before[i]
    ensures SameSlots(before, after)
    ensures forall k :: 0 <= k < |targets| ==> targets[k] < |after| && !after[targets[k]].state.Open?
    ensures forall i :: 0 <= i < |after| ==> (before[i].state.Open? <==> after[i].state.Open? || i in targets)
  {
    forall i | 0 <= i < |before| && i in targets
      ensures before[i].state.Open?
    {
      var k :| 0 <= k < |targets| && targets[k] == i;
    }
  }

  /** If `b` has the open slots of `a` and those in `more`, it has that many more. */
  lemma OpenCountDiffers<D>(a: seq<Slot<D>>, b: seq<Slot<D>>, more: seq<nat>)
    requires |a| == |b| && Distinct(more)
    requires forall k :: 0 <= k < |more| ==> more[k] < |a| && !a[more[k]].state.Open?
    requires forall i :: 0 <= i < |a| ==> (b[i].state.Open? <==> a[i].state.Open? || i in more)
    ensures |OpenIndices(b)| == |OpenIndices(a)| + |more|
  {
    OpenCount(a);
    OpenCount(b);
    DistinctCount(more);
    assert OpenSet(b) == OpenSet(a) + Elements(more);
    assert OpenSet(a) !! Elements(more);
  }

  lemma SoundAfterStore<D>(env: Env<D>, s: Store<D>, t: Store<D>, id: string, bytes: seq<byte>)
    requires Sound(env, s) && Healthy(env, t) && SameSlots(s.slots, t.slots)
    requires id in t.content && |t.content[id]| == SlotsFor(|bytes|) && t.content == s.content[id := t.content[id]]
    requires View(env, t) == View(env, s)[id := bytes]
    ensures Sound(env, t)
  {
    forall x | x in t.content
      ensures |t.content[x]| == SlotsFor(|View(env, t)[x]|)
    {
      if x != id { assert x in s.content; }
    }
  }

  lemma CollectStep<D>(env: Env<D>, s: Store<D>, id: string)
    requires Sound(env, s) && id in s.content
    ensures var t := DeleteContent(env, s, id);
            && Sound(env, t) && SameSlots(s.slots, t.slots)
            && View(env, t) == View(env, s) - {id}
            && |OpenIndices(t.slots)| == |OpenIndices(s.slots)| + SlotsFor(|View(env, s)[id]|)
  {
    DeleteUpdatesView(env, s, id);
    DeleteOpensSlots(env, s, id);
    SoundAfterDelete(env, s, DeleteContent(env, s, id), id);
  }

  /** A delete opens exactly the slots of its id. */
  lemma DeleteOpensSlots<D>(env: Env<D>, s: Store<D>, id: string)
    requires Healthy(env, s) && id in s.content
    ensures var t := DeleteContent(env, s, id);
            && SameSlots(s.slots, t.slots) && t.content == s.content - {id}
            && |OpenIndices(t.slots)| == |OpenIndices(s.slots)| + |s.content[id]|
  {
    var t, indices := DeleteContent(env, s, id), Indices(s.content[id]);
    ReleaseKeepsAgreement(s.Tables(), id);
    assert NoRepeats(s.content[id]);
    forall i | 0 <= i < |s.slots|
      ensures i in indices <==> TaggedWith(s.slots, i, id)
    {
      ListedExactlyTagged(s.Tables(), id, i);
    }
    OpenCountDiffers(s.slots, t.slots, indices);
  }

  lemma SoundAfterDelete<D>(env: Env<D>, s: Store<D>, t: Store<D>, id: string)
    requires Sound(env, s) && Healthy(env, t) && SameSlots(s.slots, t.slots)
    requires t.content == s.content - {id} && View(env, t) == View(env, s) - {id}
    ensures Sound(env, t)
  {
    forall x | x in t.content
      ensures |t.content[x]| == SlotsFor(|View(env, t)[x]|)
    {
      assert x in s.content;
    }
  }

  lemma StepRefinesMap<D>(env: Env<D>, s: Store<D>, op: Op)
    requires env.Ok() && Sound(env, s)
    ensures Sound(env, Step(env, s, op)) && SameSlots(s.slots, Step(env, s, op).slots)
    ensures Abstract(env, Step(env, s, op)) == MapStep(Abstract(env, s), op)
  {
    match op
    case Mirror(id, bytes) =>
      if id !in s.content && SlotsFor(|bytes|) <= |OpenIndices(s.slots)| {
        MirrorStep(env, s, id, bytes);
      }
    case Collect(id) =>
      if id in s.content {
        CollectStep(env, s, id);
      }
    case Restarted =>
      RestartChangesNothing(env, s);
  }

  /**
   Every run refines the bounded map: the contents, the room left and which posts are refused are
   exactly the map's, no slot moves, and proof slots stay proof slots.
   */
  lemma {:induction false} RunRefinesMap<D>(env: Env<D>, s: Store<D>, ops: seq<Op>)
    requires env.Ok() && Sound(env, s)
    ensures Sound(env, Run(env, s, ops)) && SameSlots(s.slots, Run(env, s, ops).slots)
    ensures Abstract(env, Run(env, s, ops)) == MapRun(Abstract(env, s), ops)
    decreases |ops|
  {
    if ops != [] {
      var before := ops[..|ops| - 1];
      RunRefinesMap(env, s, before);
      StepRefinesMap(env, Run(env, s, before), ops[|ops| - 1]);
    }
  }

  /** After any run, reading an id returns what the reference map holds for it. */
  lemma RunReadsBack<D>(env: Env<D>, s: Store<D>, ops: seq<Op>, id: string)
    requires env.Ok() && Sound(env, s)
    ensures var view := MapRun(Abstract(env, s), ops).view;
            GetContent(Run(env, s, ops), id) == Ok(if id in view then Some(view[id]) else None)
  {
    RunRefinesMap(env, s, ops);
    GetReturnsView(env, Run(env, s, ops), id);
  }

  /** After any run, every challenge within the provider's slots is answered to the validator's satisfaction. */
  lemma RunPassesChallenges<D>(env: Env<D>, s: Store<D>, ops: seq<Op>, indices: seq<nat>)
    requires env.Ok() && Sound(env, s) && Below(indices, |s.slots|)
    ensures var t := Run(env, s, ops);
            && InFile(t.slots, t.file) && |t.slots| == |t.leaves| == |s.slots| > 0
            && Accepts(env.hashPair, env.hashChunk, Root(env.hashPair, t.leaves), Answers(env, t, indices), indices)
  {
    RunRefinesMap(env, s, ops);
    HealthyStorePassesChallenges(env, Run(env, s, ops), indices);
  }

  /** After any run, the challenge selected for whatever seed is answered to the validator's satisfaction. */
  lemma RunPassesSelectedChallenge<D>(env: Env<D>, s: Store<D>, ops: seq<Op>, perChallenge: nat, swaps: seq<(nat, nat)>)
    requires env.Ok() && Sound(env, s) && InRange(swaps, |s.slots|)
    ensures var t, indices := Run(env, s, ops), SelectedIndices(|s.slots|, perChallenge, swaps);
            && InFile(t.slots, t.file) && |t.slots| == |t.leaves| == |s.slots| > 0 && Below(indices, |t.slots|)
            && Accepts(env.hashPair, env.hashChunk, Root(env.hashPair, t.leaves), Answers(env, t, indices), indices)
  {
    SwapsPermute(|s.slots|, swaps);
    RunPassesChallenges(env, s, ops, SelectedIndices(|s.slots|, perChallenge, swaps));
  }
}
