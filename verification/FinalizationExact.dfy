/** Batch finalization, exactly: when two justifications finalize the first one's target. */
module FinalizationExact {
  import opened Wrappers
  import opened Ssz
  import opened Merkle
  import opened Accumulator
  import opened EpochDiff
  import opened Boundary
  import opened Pipeline
  import opened Finality
  import opened Containers
  import opened CircuitsExact
  import opened FinalCompleteness

  /** A run of the diff guest from one justification's accumulator and epoch to the next one's. */
  ghost predicate DiffJoins(d: EpochDiffOutput, proof: Proof, e: JustificationOutput, e1: JustificationOutput, chain: Chain)
  {
    && proof.DiffRun? && EpochDiffOutputOf(proof.diff, chain.decompress, chain.sszDepth, chain.accDepth) == Some(d)
    && d.prevAccumulatorCommitment == e.accumulatorCommitment && d.accumulatorCommitment == e1.accumulatorCommitment
    && d.epoch1 == e.link.target.epoch && d.epoch2 == e1.link.target.epoch
  }

  /** Two justifications, proved as far as there are proofs, the second from the first one's target to
      the epoch after it. */
  ghost predicate TwoInARow(w: FinalizationWitness, chain: Chain)
    requires |w.outputs| == 2
  {
    var e, e1 := w.outputs[0], w.outputs[1];
    && (|w.proofs| >= 1 ==> JustificationProved(e, w.proofs[0], chain))
    && (|w.proofs| >= 2 ==> JustificationProved(e1, w.proofs[1], chain))
    && e.justified && e1.justified
    && OneOn(e.link.target.epoch, e1.link.target.epoch) && e1.link.source == e.link.target
    && DiffJoins(w.diff, w.diffProof, e, e1, chain)
  }

  lemma DiffJoinsIsChecked(d: EpochDiffOutput, proof: Proof, e: JustificationOutput, e1: JustificationOutput, chain: Chain)
    ensures DiffLinks(d, proof, e, e1, chain) <==> DiffJoins(d, proof, e, e1, chain)
  {
    hide EpochDiffOutputOf;
  }

  lemma FinalizationUnfolds(w: FinalizationWitness, chain: Chain)
    requires |w.outputs| == 2
    ensures
      var e, e1 := w.outputs[0], w.outputs[1];
      FinalizationOf(w, chain)
      == if TwoInARow(w, chain)
            && OpensBoundary(w.boundary, e.link.target.epoch, e.link.target.root, e1.link.target.root, w.diff.stateRoot1,
                             chain.slotsPerEpoch)
         then Some(FinalizationOutput(e.accumulatorCommitment, e1.accumulatorCommitment, e.link.target, w.diff.stateRoot1))
         else None
  {
    hide VerifyChild, DiffLinks, DiffJoins, OpensBoundary, JustificationProved;
    if |w.proofs| >= 1 {
      JustificationChildExact(w.outputs[0], w.proofs[0], chain);
    }
    if |w.proofs| >= 2 {
      JustificationChildExact(w.outputs[1], w.proofs[1], chain);
    }
    DiffJoinsIsChecked(w.diff, w.diffProof, w.outputs[0], w.outputs[1], chain);
    var proved := forall i :: 0 <= i < |w.proofs| && i < |w.outputs| ==> Proved(w.outputs[i], w.proofs[i], chain);
    assert proved <==> (|w.proofs| >= 1 ==> Proved(w.outputs[0], w.proofs[0], chain))
                       && (|w.proofs| >= 2 ==> Proved(w.outputs[1], w.proofs[1], chain));
  }

  /** The same witness under other paths through the header's state. */
  function WithPaths(w: FinalizationWitness, blocks: seq<Bytes32>, states: seq<Bytes32>): FinalizationWitness
  {
    w.(boundary := BoundaryAnchor(w.boundary.header, blocks, states))
  }

  lemma PathsOpen(h: BlockHeader, history: History, epoch: nat, slotsPerEpoch: nat, blockRoot: Bytes32, stateRoot: Bytes32,
                  justifiedRoot: Bytes32)
    requires StateKeeps(h, history) && FirstSlotFits(epoch, slotsPerEpoch)
    ensures (exists blocks, states :: OpensBoundary(BoundaryAnchor(h, blocks, states), epoch, blockRoot, justifiedRoot,
                                                    stateRoot, slotsPerEpoch))
       <==> justifiedRoot == HeaderRoot(h) && RecordsStart(h, history, epoch, slotsPerEpoch, blockRoot, stateRoot)
  {
    hide HoldsVector, Ring, ContainerRoot, OpensBoundary, BlockHeaderRoot, BoundarySlot;
    HeaderIsContainer(h);
    BoundaryIsExact(h, epoch, blockRoot, justifiedRoot, stateRoot, slotsPerEpoch, history.fields, history.blockRoots,
                    history.stateRoots, history.ringDepth, history.stateDepth);
    forall anchor: BoundaryAnchor | anchor.header == h ensures anchor == BoundaryAnchor(h, anchor.blockRootsPath, anchor.stateRootsPath) {
    }
    FirstIsBelow(epoch, slotsPerEpoch);
    if RecordsStart(h, history, epoch, slotsPerEpoch, blockRoot, stateRoot) {
      var b: nat :| StartsEpoch(b, epoch, slotsPerEpoch) && b < h.slot <= b + 8192 && b < U64
        && history.blockRoots(b) == blockRoot && history.stateRoots(b) == stateRoot;
      StartIsBoundary(b, epoch, slotsPerEpoch);
    }
  }

  lemma FirstIsBelow(epoch: nat, slotsPerEpoch: nat)
    ensures BoundarySlot(epoch, slotsPerEpoch) < U64
  {
  }

  /** Batch finalization, exactly. Over a header whose state keeps its history, some paths make two
      justifications finalize if and only if those a proof came for are proved; both are justified; the
      second goes from the first one's target to the epoch after it, one proved diff joins their
      accumulators and epochs, and the header, the second one's target, still records the first
      target's root and the diff's state root at the slot that target's epoch starts with. It
      publishes both accumulators, the first target and that state root. */
  lemma FinalizationIsExact(w: FinalizationWitness, chain: Chain, history: History)
    requires |w.outputs| == 2 && StateKeeps(w.boundary.header, history)
    requires FirstSlotFits(w.outputs[0].link.target.epoch, chain.slotsPerEpoch)
    ensures (exists blocks, states :: FinalizationOf(WithPaths(w, blocks, states), chain).Some?)
       <==>
       && TwoInARow(w, chain)
       && w.outputs[1].link.target.root == HeaderRoot(w.boundary.header)
       && RecordsStart(w.boundary.header, history, w.outputs[0].link.target.epoch, chain.slotsPerEpoch,
                       w.outputs[0].link.target.root, w.diff.stateRoot1)
    ensures FinalizationOf(w, chain).Some? ==>
      FinalizationOf(w, chain) == Some(FinalizationOutput(
        w.outputs[0].accumulatorCommitment, w.outputs[1].accumulatorCommitment, w.outputs[0].link.target, w.diff.stateRoot1))
  {
    hide FinalizationOf, TwoInARow, OpensBoundary, StateKeeps, RecordsStart, HeaderRoot;
    var e, e1 := w.outputs[0], w.outputs[1];
    FinalizationUnfolds(w, chain);
    PathsOpen(w.boundary.header, history, e.link.target.epoch, chain.slotsPerEpoch, e.link.target.root,
              w.diff.stateRoot1, e1.link.target.root);
    forall blocks, states
      ensures FinalizationOf(WithPaths(w, blocks, states), chain).Some?
         <==> TwoInARow(w, chain)
              && OpensBoundary(BoundaryAnchor(w.boundary.header, blocks, states), e.link.target.epoch, e.link.target.root,
                               e1.link.target.root, w.diff.stateRoot1, chain.slotsPerEpoch)
    {
      FinalizationUnfolds(WithPaths(w, blocks, states), chain);
      PathsAreFree(w, chain, blocks, states);
    }
  }

  lemma PathsAreFree(w: FinalizationWitness, chain: Chain, blocks: seq<Bytes32>, states: seq<Bytes32>)
    requires |w.outputs| == 2
    ensures TwoInARow(WithPaths(w, blocks, states), chain) <==> TwoInARow(w, chain)
  {
    hide JustificationProved, DiffJoins;
  }
}
