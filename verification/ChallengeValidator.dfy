/** Judging a provider's response to a capacity challenge against the committed root. */
module ChallengeValidator {
  import opened Prelude
  import opened CapacityProof
  import opened MerkleTree
  import opened MerkleBinding

  datatype ProofError =
    | CountMismatch(expected: nat, got: nat)
    | IndexMismatch(i: nat)
    | ChunkHashMismatch(i: nat)
    | MerkleProofInvalid(i: nat)
    | OpenSlotNotZero(i: nat)

  /** Everything the validator demands of the record answering index `expected`. */
  ghost predicate RecordOk<D>(hp: (D, D) -> D, hc: seq<byte> -> D, root: D, p: ChunkProof<D>, expected: nat) {
    && p.chunkIndex == expected
    && hc(p.chunkData) == p.chunkHash
    && FoldProof(hp, p.chunkHash, p.merkleProof, p.chunkIndex) == root
    && (p.slotState.Open? ==> AllZero(p.chunkData))
  }

  ghost predicate Accepts<D>(hp: (D, D) -> D, hc: seq<byte> -> D, root: D, proofs: seq<ChunkProof<D>>, expected: seq<nat>) {
    && |proofs| == |expected|
    && forall i :: 0 <= i < |proofs| ==> RecordOk(hp, hc, root, proofs[i], expected[i])
  }

  /**
   Collects at most one error per record, in record order, and accepts exactly when there is none.
   */
  method ValidateChallengeProof<D(==)>(hp: (D, D) -> D, hc: seq<byte> -> D, proofs: seq<ChunkProof<D>>, root: D,
                                       expected: seq<nat>)
    returns (isValid: bool, errors: seq<ProofError>)
    ensures isValid <==> Accepts(hp, hc, root, proofs, expected)
    ensures isValid <==> errors == []
    ensures |proofs| != |expected| ==> errors == [CountMismatch(|expected|, |proofs|)]
    ensures |proofs| == |expected| ==> forall k :: 0 <= k < |errors| ==>
              !errors[k].CountMismatch? && errors[k].i < |proofs| && !RecordOk(hp, hc, root, proofs[errors[k].i], expected[errors[k].i])
    ensures |proofs| == |expected| ==> forall j, k :: 0 <= j < k < |errors| ==> errors[j].i < errors[k].i
    ensures |proofs| == |expected| ==> forall i :: 0 <= i < |proofs| && !RecordOk(hp, hc, root, proofs[i], expected[i]) ==>
              exists k :: 0 <= k < |errors| && errors[k].i == i
  {
    errors := [];
    if |proofs| != |expected| {
      return false, [CountMismatch(|expected|, |proofs|)];
    }
    for i := 0 to |proofs|
      invariant forall k :: 0 <= k < |errors| ==>
                  !errors[k].CountMismatch? && errors[k].i < i && !RecordOk(hp, hc, root, proofs[errors[k].i], expected[errors[k].i])
      invariant forall j, k :: 0 <= j < k < |errors| ==> errors[j].i < errors[k].i
      invariant forall m :: 0 <= m < i && !RecordOk(hp, hc, root, proofs[m], expected[m]) ==>
                  exists k :: 0 <= k < |errors| && errors[k].i == m
      invariant errors == [] ==> forall m :: 0 <= m < i ==> RecordOk(hp, hc, root, proofs[m], expected[m])
    {
      var error := JudgeRecord(hp, hc, root, proofs[i], expected[i], i);
      if error.Some? {
        ghost var before := errors;
        errors := errors + [error.value];
        assert errors[|before|].i == i;
        assert forall k :: 0 <= k < |before| ==> errors[k] == before[k];
      }
    }
    isValid := errors == [];
    if !isValid {
      assert !RecordOk(hp, hc, root, proofs[errors[0].i], expected[errors[0].i]);
    }
  }

  method JudgeRecord<D(==)>(hp: (D, D) -> D, hc: seq<byte> -> D, root: D, p: ChunkProof<D>, expected: nat, i: nat)
    returns (error: Option<ProofError>)
    ensures error.None? <==> RecordOk(hp, hc, root, p, expected)
    ensures error.Some? ==> !error.value.CountMismatch? && error.value.i == i
    ensures error == Some(IndexMismatch(i)) <==> p.chunkIndex != expected
    ensures error == Some(ChunkHashMismatch(i)) <==> p.chunkIndex == expected && hc(p.chunkData) != p.chunkHash
    ensures error == Some(OpenSlotNotZero(i)) ==> p.slotState.Open? && !AllZero(p.chunkData)
    ensures error == Some(MerkleProofInvalid(i)) ==> FoldProof(hp, p.chunkHash, p.merkleProof, expected) != root
  {
    if p.chunkIndex != expected {
      return Some(IndexMismatch(i));
    }
    if hc(p.chunkData) != p.chunkHash {
      return Some(ChunkHashMismatch(i));
    }
    var merkleValid := VerifyProof(hp, p.chunkHash, p.merkleProof, root, p.chunkIndex);
    if !merkleValid {
      return Some(MerkleProofInvalid(i));
    }
    if p.slotState.Open? && !AllZero(p.chunkData) {
      return Some(OpenSlotNotZero(i));
    }
    error := None;
  }

  // ----- What acceptance means -----

  function LeafHashes<D>(hc: seq<byte> -> D, chunks: seq<seq<byte>>): (leaves: seq<D>)
    ensures |leaves| == |chunks| && forall k :: 0 <= k < |chunks| ==> leaves[k] == hc(chunks[k])
  {
    seq(|chunks|, k requires 0 <= k < |chunks| => hc(chunks[k]))
  }

  /** The record an honest provider sends for chunk `k`; only an `Open` label constrains the data further. */
  ghost predicate Honest<D>(hp: (D, D) -> D, hc: seq<byte> -> D, chunks: seq<seq<byte>>, p: ChunkProof<D>, k: nat)
    requires k < |chunks|
  {
    && p.chunkIndex == k
    && p.chunkData == chunks[k]
    && p.chunkHash == hc(chunks[k])
    && p.merkleProof == ProofPath(hp, LeafHashes(hc, chunks), k)
    && (p.slotState.Open? ==> AllZero(chunks[k]))
  }

  /** Every pair hashed in building the committed tree or in verifying the response. */
  ghost function HashedPairs<D>(hp: (D, D) -> D, hc: seq<byte> -> D, chunks: seq<seq<byte>>, proofs: seq<ChunkProof<D>>): set<(D, D)>
    requires |chunks| > 0
  {
    TreePairs(hp, LeafHashes(hc, chunks)) +
    set i, q | 0 <= i < |proofs| && q in FoldPairs(hp, proofs[i].chunkHash, proofs[i].merkleProof, proofs[i].chunkIndex) :: q
  }

  /** No hash evaluated by committing or by validating collides with another one. */
  ghost predicate NoCollisionFound<D>(hp: (D, D) -> D, hc: seq<byte> -> D, chunks: seq<seq<byte>>, proofs: seq<ChunkProof<D>>)
    requires |chunks| > 0
  {
    var pairs := HashedPairs(hp, hc, chunks, proofs);
    && CollisionFree(hp, pairs)
    && LeafDigests(hp, pairs, LeafHashes(hc, chunks))
    && (forall i :: 0 <= i < |proofs| ==> NotAPairHash(hp, pairs, hc(proofs[i].chunkData)))
    && (forall i, k :: 0 <= i < |proofs| && 0 <= k < |chunks| && hc(proofs[i].chunkData) == hc(chunks[k]) ==>
          proofs[i].chunkData == chunks[k])
  }

  /** Completeness: an honest response is accepted, whatever the hash functions. */
  lemma HonestResponseAccepted<D>(hp: (D, D) -> D, hc: seq<byte> -> D, chunks: seq<seq<byte>>,
                                  proofs: seq<ChunkProof<D>>, expected: seq<nat>)
    requires |chunks| > 0 && |proofs| == |expected|
    requires forall i :: 0 <= i < |expected| ==> expected[i] < |chunks| && Honest(hp, hc, chunks, proofs[i], expected[i])
    ensures Accepts(hp, hc, Root(hp, LeafHashes(hc, chunks)), proofs, expected)
  {
    forall i | 0 <= i < |expected|
      ensures RecordOk(hp, hc, Root(hp, LeafHashes(hc, chunks)), proofs[i], expected[i])
    {
      HonestProofFolds(hp, LeafHashes(hc, chunks), expected[i]);
    }
  }

  /**
   Soundness and completeness in one: for any indices in range, the accepted responses are exactly
   the honest ones. Neither proof lengths nor tree depth are checked by the validator.
   */
  lemma AcceptedExactlyHonest<D>(hp: (D, D) -> D, hc: seq<byte> -> D, chunks: seq<seq<byte>>,
                                 proofs: seq<ChunkProof<D>>, expected: seq<nat>)
    requires |chunks| > 0 && forall i :: 0 <= i < |expected| ==> expected[i] < |chunks|
    requires NoCollisionFound(hp, hc, chunks, proofs)
    ensures Accepts(hp, hc, Root(hp, LeafHashes(hc, chunks)), proofs, expected) <==>
            |proofs| == |expected| && forall i :: 0 <= i < |expected| ==> Honest(hp, hc, chunks, proofs[i], expected[i])
  {
    var leaves := LeafHashes(hc, chunks);
    if Accepts(hp, hc, Root(hp, leaves), proofs, expected) {
      forall i | 0 <= i < |expected|
        ensures Honest(hp, hc, chunks, proofs[i], expected[i])
      {
        AcceptedRecordHonest(hp, hc, chunks, proofs, i, expected[i]);
      }
    }
    if |proofs| == |expected| && forall i :: 0 <= i < |expected| ==> Honest(hp, hc, chunks, proofs[i], expected[i]) {
      HonestResponseAccepted(hp, hc, chunks, proofs, expected);
    }
  }

  lemma AcceptedRecordHonest<D>(hp: (D, D) -> D, hc: seq<byte> -> D, chunks: seq<seq<byte>>,
                                proofs: seq<ChunkProof<D>>, i: nat, k: nat)
    requires k < |chunks| && i < |proofs|
    requires NoCollisionFound(hp, hc, chunks, proofs)
    requires RecordOk(hp, hc, Root(hp, LeafHashes(hc, chunks)), proofs[i], k)
    ensures Honest(hp, hc, chunks, proofs[i], k)
  {
    var leaves := LeafHashes(hc, chunks);
    var p := proofs[i];
    VerifiesExactly(hp, p.chunkHash, p.merkleProof, k, leaves, HashedPairs(hp, hc, chunks, proofs));
    PaddingKeepsProofs(hp, leaves, k);
  }

  // ----- The hypotheses, from the textbook ones -----

  ghost predicate IdealHashes<D(!new)>(hp: (D, D) -> D, hc: seq<byte> -> D) {
    && (forall a, b, c, d :: hp(a, b) == hp(c, d) ==> a == c && b == d)
    && (forall x, y :: hc(x) == hc(y) ==> x == y)
    && (forall a, b, x :: hp(a, b) != hc(x))
  }

  /** Injective pair and chunk hashes with disjoint ranges never collide anywhere. */
  lemma IdealHashesNeverCollide<D(!new)>(hp: (D, D) -> D, hc: seq<byte> -> D, chunks: seq<seq<byte>>, proofs: seq<ChunkProof<D>>)
    requires |chunks| > 0 && IdealHashes(hp, hc)
    ensures NoCollisionFound(hp, hc, chunks, proofs)
  {
  }

  /** Free hash terms, the usual symbolic model of hashing. */
  datatype Term = ChunkTerm(data: seq<byte>) | PairTerm(left: Term, right: Term)

  lemma IdealHashesExist()
    ensures IdealHashes((a, b) => PairTerm(a, b), data => ChunkTerm(data))
  {
  }
}
