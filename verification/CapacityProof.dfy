/** The records exchanged in a capacity challenge. */
module CapacityProof {
  import opened Prelude

  datatype SlotState<+D> = Proof | Open | Content(dealId: string, committedHash: D)

  datatype ChunkProof<+D> = ChunkProof(
    chunkIndex: nat,
    chunkData: seq<byte>,
    chunkHash: D,
    merkleProof: seq<D>,
    slotState: SlotState<D>)

  predicate AllZero(data: seq<byte>) {
    forall k :: 0 <= k < |data| ==> data[k] == 0
  }
}
