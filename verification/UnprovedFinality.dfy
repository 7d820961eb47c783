/** A finalization accepted with no proof of either justification: all it takes is one proved
    epoch diff and a state that records the boundary. */
module UnprovedFinality {
  import opened Wrappers
  import opened FormalSums
  import opened Ssz
  import opened Bls
  import opened Merkle
  import opened Accumulator
  import opened SlotProof
  import opened EpochDiff
  import opened Boundary
  import opened Pipeline
  import opened Finality
  import OverflowingDiff

  /** A justification no one proved: flagged, with nothing counted, under a key that is not the
      justification guest's. */
  function Unproved(accumulator: Digest, link: Link): JustificationOutput
  {
    JustificationOutput(accumulator, Zero, link, 0, {}, true, SlotVk)
  }

  function Claimed(diff: EpochDiffOutput, diffProof: Proof, anchor: BoundaryAnchor, finalizedRoot: Bytes32,
                   justifiedRoot: Bytes32): FinalizationWitness
  {
    var finalized, justified := Checkpoint(diff.epoch1, finalizedRoot), Checkpoint(diff.epoch2, justifiedRoot);
    FinalizationWitness(
      anchor,
      [Unproved(diff.prevAccumulatorCommitment, Link(finalized, finalized)),
       Unproved(diff.accumulatorCommitment, Link(finalized, justified))],
      [], diff, diffProof)
  }

  /** Any proved diff of consecutive epochs and any state that still records the boundary make an
      accepted finalization whose justifications no proof can satisfy. */
  lemma AcceptedWithoutProofs(diff: EpochDiffOutput, diffProof: Proof, h: BlockHeader, chain: Chain, fields: seq<Bytes32>,
                              blockRoots: nat -> Bytes32, stateRoots: nat -> Bytes32, ringDepth: nat, stateDepth: nat)
    returns (w: FinalizationWitness)
    requires VerifyLeaf(diffProof, DiffVk, DiffPublics(diff), chain) && diff.epoch2 == WrappingAdd(diff.epoch1, 1)
    requires Recorded(BoundarySlot(diff.epoch1, chain.slotsPerEpoch), h.slot)
    requires stateRoots(BoundarySlot(diff.epoch1, chain.slotsPerEpoch)) == diff.stateRoot1
    requires Pow2(ringDepth) == SLOTS_PER_HISTORICAL_ROOT && ringDepth + stateDepth == HISTORY_PROOF_DEPTH
    requires HoldsVector(h.stateRoot, fields, stateDepth, BLOCK_ROOTS_FIELD,
                         Ring(blockRoots, ZERO_CHUNK, Pow2(ringDepth), h.slot), ringDepth)
    requires HoldsVector(h.stateRoot, fields, stateDepth, STATE_ROOTS_FIELD,
                         Ring(stateRoots, ZERO_CHUNK, Pow2(ringDepth), h.slot), ringDepth)
    ensures w.proofs == [] && |w.outputs| == 2 && FinalizationOf(w, chain).Some?
    ensures forall i, proof :: 0 <= i < 2 ==> !Proved(w.outputs[i], proof, chain)
  {
    hide VerifyLeaf, Proved, HoldsVector, Ring, Recorded;
    var anchor := RecordedBoundaryOpens(h, diff.epoch1, chain.slotsPerEpoch, fields, blockRoots, stateRoots, ringDepth,
                                        stateDepth);
    var finalizedRoot := blockRoots(BoundarySlot(diff.epoch1, chain.slotsPerEpoch));
    w := Claimed(diff, diffProof, anchor, finalizedRoot, BlockHeaderRoot(h));
    forall i, proof | 0 <= i < 2 ensures !Proved(w.outputs[i], proof, chain) {
      NoProofFits(w.outputs[i], proof, chain);
    }
  }

  // ---- one such finalization --------------------------------------------------------------------

  const RING_DEPTH: nat := 13
  const STATE_DEPTH: nat := 6

  /** Small trees, and a key decompression that knows one key. */
  function SmallChain(): Chain
  {
    Chain(1, 0, 32, OverflowingDiff.Decompress)
  }

  function BlockRootAt(slot: nat): Bytes32
  {
    ZERO_CHUNK
  }

  /** The state every slot records: the one the diff starts from. */
  function StateRootAt(slot: nat): Bytes32
  {
    ListRoot(ZERO_CHUNK, 2)
  }

  function History(record: nat -> Bytes32, ringDepth: nat): seq<Bytes32>
  {
    Ring(record, ZERO_CHUNK, Pow2(ringDepth), 1)
  }

  /** A state with two histories and nothing else. */
  function StateFields(ringDepth: nat): (fields: seq<Bytes32>)
    ensures |fields| == 7
    ensures fields[BLOCK_ROOTS_FIELD] == Root(Sha256Pair, ZERO_CHUNK, History(BlockRootAt, ringDepth), ringDepth)
    ensures fields[STATE_ROOTS_FIELD] == Root(Sha256Pair, ZERO_CHUNK, History(StateRootAt, ringDepth), ringDepth)
  {
    seq(5, (i: nat) => ZERO_CHUNK)
    + [Root(Sha256Pair, ZERO_CHUNK, History(BlockRootAt, ringDepth), ringDepth),
       Root(Sha256Pair, ZERO_CHUNK, History(StateRootAt, ringDepth), ringDepth)]
  }

  function SlotOneHeader(ringDepth: nat, stateDepth: nat): BlockHeader
  {
    BlockHeader(1, 0, ZERO_CHUNK, Root(Sha256Pair, ZERO_CHUNK, StateFields(ringDepth), stateDepth), ZERO_CHUNK)
  }

  lemma {:induction false} PowersAdd(a: nat, b: nat)
    ensures Pow2(a + b) == Pow2(a) * Pow2(b)
    decreases a
  {
    if a > 0 {
      PowersAdd(a - 1, b);
    }
  }

  lemma Depths()
    ensures Pow2(STATE_DEPTH) == 64 && Pow2(RING_DEPTH) == SLOTS_PER_HISTORICAL_ROOT
  {
    assert Pow2(0) == 1 && Pow2(1) == 2 && Pow2(2) == 4 && Pow2(3) == 8;
    PowersAdd(3, 3);
    PowersAdd(6, 6);
    PowersAdd(12, 1);
  }

  lemma KeepsBoth(ringDepth: nat, stateDepth: nat)
    requires Pow2(stateDepth) == 64
    ensures
      var h := SlotOneHeader(ringDepth, stateDepth);
      && HoldsVector(h.stateRoot, StateFields(ringDepth), stateDepth, BLOCK_ROOTS_FIELD,
                     History(BlockRootAt, ringDepth), ringDepth)
      && HoldsVector(h.stateRoot, StateFields(ringDepth), stateDepth, STATE_ROOTS_FIELD,
                     History(StateRootAt, ringDepth), ringDepth)
  {
  }

  lemma DiffVerifies(diff: EpochDiffOutput)
    requires EpochDiffOutputOf(OverflowingDiff.Diff(0, OverflowingDiff.RICH), OverflowingDiff.Decompress, 0, 1) == Some(diff)
    ensures VerifyLeaf(DiffRun(OverflowingDiff.Diff(0, OverflowingDiff.RICH)), DiffVk, DiffPublics(diff), SmallChain())
  {
  }

  lemma FirstEpochAccepted(diff: EpochDiffOutput, diffProof: Proof, chain: Chain, ringDepth: nat, stateDepth: nat)
    returns (w: FinalizationWitness)
    requires VerifyLeaf(diffProof, DiffVk, DiffPublics(diff), chain)
    requires diff.epoch1 == 0 && diff.epoch2 == 1 && diff.stateRoot1 == StateRootAt(0)
    requires Pow2(ringDepth) == SLOTS_PER_HISTORICAL_ROOT && Pow2(stateDepth) == 64
    requires ringDepth + stateDepth == HISTORY_PROOF_DEPTH
    ensures w.proofs == [] && |w.outputs| == 2 && FinalizationOf(w, chain).Some?
    ensures forall i, proof :: 0 <= i < 2 ==> !Proved(w.outputs[i], proof, chain)
  {
    hide VerifyLeaf, StateFields, Ring, FinalizationOf;
    KeepsBoth(ringDepth, stateDepth);
    assert BoundarySlot(0, chain.slotsPerEpoch) == 0;
    w := AcceptedWithoutProofs(diff, diffProof, SlotOneHeader(ringDepth, stateDepth), chain, StateFields(ringDepth),
                               BlockRootAt, StateRootAt, ringDepth, stateDepth);
  }

  /** Here is one: nobody signed, nobody proved either justification, and it is accepted. */
  lemma OneAcceptedWithoutProofs() returns (w: FinalizationWitness)
    ensures w.proofs == [] && FinalizationOf(w, SmallChain()).Some?
    ensures |w.outputs| == 2 && forall i, proof :: 0 <= i < 2 ==> !Proved(w.outputs[i], proof, SmallChain())
  {
    OverflowingDiff.DiffIsAccepted(0, OverflowingDiff.RICH);
    var diff := EpochDiffOutputOf(OverflowingDiff.Diff(0, OverflowingDiff.RICH), OverflowingDiff.Decompress, 0, 1).value;
    DiffVerifies(diff);
    Depths();
    w := FirstEpochAccepted(diff, DiffRun(OverflowingDiff.Diff(0, OverflowingDiff.RICH)), SmallChain(), RING_DEPTH, STATE_DEPTH);
  }
}
