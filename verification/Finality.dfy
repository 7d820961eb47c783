/** Finalization: the batch guest that pairs two justifications, and runs of stream final proofs
    back to a batch justification. */
module Finality {
  import opened Wrappers
  import opened FormalSums
  import opened Ssz
  import opened Bls
  import opened Merkle
  import opened Accumulator
  import opened EpochDiff
  import opened EpochDiffSound
  import opened Boundary
  import opened Pipeline
  import opened StreamSound
  import opened JustificationSound

  // ---- the batch guest ----------------------------------------------------------------------

  datatype FinalizationOutput = FinalizationOutput(
    accumulatorCommitment: Digest, nextAccumulatorCommitment: Digest, finalized: Checkpoint, finalizedStateRoot: Bytes32)

  datatype FinalizationWitness = FinalizationWitness(
    boundary: BoundaryAnchor, outputs: seq<JustificationOutput>, proofs: seq<Proof>,
    diff: EpochDiffOutput, diffProof: Proof)

  /** A justification output proved by the justification guest, chain and all. */
  predicate Proved(o: JustificationOutput, proof: Proof, chain: Chain)
  {
    VerifyChild(proof, JustificationVk, JustificationPublics(o), chain) && o.programVk == JustificationVk
  }

  /** The second justification was made from the checkpoint the first one justified. */
  predicate Paired(e: JustificationOutput, e1: JustificationOutput)
  {
    && e.justified && e1.justified
    && e1.link.target.epoch == WrappingAdd(e.link.target.epoch, 1)
    && e1.link.source == e.link.target
  }

  predicate DiffLinks(diff: EpochDiffOutput, proof: Proof, e: JustificationOutput, e1: JustificationOutput, chain: Chain)
  {
    && VerifyLeaf(proof, DiffVk, DiffPublics(diff), chain)
    && diff.prevAccumulatorCommitment == e.accumulatorCommitment
    && diff.accumulatorCommitment == e1.accumulatorCommitment
    && diff.epoch1 == e.link.target.epoch && diff.epoch2 == e1.link.target.epoch
  }

  /** What `verify_finalization_with_slots` returns; `None` where it panics. The proofs are
      zipped with the outputs, so only as many outputs as there are proofs are verified. */
  function FinalizationOf(w: FinalizationWitness, chain: Chain): Option<FinalizationOutput>
  {
    if |w.outputs| != 2 then None
    else if !(forall i :: 0 <= i < |w.proofs| && i < |w.outputs| ==> Proved(w.outputs[i], w.proofs[i], chain)) then None
    else
      var e, e1 := w.outputs[0], w.outputs[1];
      if !Paired(e, e1) || !DiffLinks(w.diff, w.diffProof, e, e1, chain) then None
      else if !OpensBoundary(w.boundary, e.link.target.epoch, e.link.target.root, e1.link.target.root,
                             w.diff.stateRoot1, chain.slotsPerEpoch) then None
      else
        Some(FinalizationOutput(
          e.accumulatorCommitment, e1.accumulatorCommitment, e.link.target, w.diff.stateRoot1))
  }

  /** The same witness with one output claiming another program's key. */
  function Relabelled(w: FinalizationWitness, i: nat, vk: ProgramVk): FinalizationWitness
    requires i < |w.outputs|
  {
    w.(outputs := w.outputs[i := w.outputs[i].(programVk := vk)])
  }

  /** An output under another program's key has no proof at all. */
  lemma NoProofFits(o: JustificationOutput, proof: Proof, chain: Chain)
    requires o.programVk != JustificationVk
    ensures !Proved(o, proof, chain)
  {
  }

  /** A proof binds its output, and an output without one is bound by nothing: put under a key
      no justification has, output `i` of an accepted finalization turns it away if a proof came
      for it, and if none came leaves it accepted with the same output. */
  lemma ProofBindsOutput(w: FinalizationWitness, chain: Chain, i: nat, vk: ProgramVk)
    requires FinalizationOf(w, chain).Some? && i < 2 && vk != JustificationVk
    ensures FinalizationOf(Relabelled(w, i, vk), chain) == if i < |w.proofs| then None else FinalizationOf(w, chain)
  {
    hide OpensBoundary, VerifyChild, VerifyLeaf;
    var after := Relabelled(w, i, vk);
    if i < |w.proofs| {
      NoProofFits(after.outputs[i], after.proofs[i], chain);
    } else {
      forall j | 0 <= j < |after.proofs| && j < |after.outputs| ensures Proved(after.outputs[j], after.proofs[j], chain) {
        assert after.outputs[j] == w.outputs[j];
      }
    }
  }

  /** Both justifications an accepted finalization names were proved, and neither could have been
      swapped for one no proof fits, exactly when two proofs came with it. */
  lemma ProvedWhenTwoProofs(w: FinalizationWitness, chain: Chain)
    requires FinalizationOf(w, chain).Some?
    ensures |w.proofs| >= 2 ==> forall i :: 0 <= i < 2 ==> Proved(w.outputs[i], w.proofs[i], chain)
    ensures |w.proofs| >= 2
        <==> forall i: nat, vk :: i < 2 && vk != JustificationVk ==> FinalizationOf(Relabelled(w, i, vk), chain).None?
  {
    forall i: nat, vk | i < 2 && vk != JustificationVk
      ensures FinalizationOf(Relabelled(w, i, vk), chain).None? <==> i < |w.proofs|
    {
      ProofBindsOutput(w, chain, i, vk);
    }
    if |w.proofs| < 2 {
      assert FinalizationOf(Relabelled(w, 1, SlotVk), chain).Some?;
    }
  }

  /** Leaving the proofs out changes no acceptance. */
  lemma ProofsMayBeMissing(w: FinalizationWitness, chain: Chain)
    requires FinalizationOf(w, chain).Some?
    ensures FinalizationOf(w.(proofs := []), chain) == FinalizationOf(w, chain)
  {
  }

  /** Batch finality. With both proofs supplied, an accepted finalization rests on two runs of
      the justification guest, two thirds of each committed total behind each link, the second
      link leading from the finalized checkpoint to the next epoch's, and one proved registry
      transition between the two accumulators. */
  lemma BatchFinality(w: FinalizationWitness, chain: Chain, leaves: seq<Digest>, next: seq<Digest>, votes: set<Vote>)
    returns (first: set<nat>, second: set<nat>)
    requires FinalizationOf(w, chain).Some? && |w.proofs| >= 2
    requires JustificationVotes(w.proofs[0], votes) && JustificationVotes(w.proofs[1], votes)
    requires Commits(FinalizationOf(w, chain).value.accumulatorCommitment, leaves, chain.accDepth) && Registry(leaves)
    requires Commits(FinalizationOf(w, chain).value.nextAccumulatorCommitment, next, chain.accDepth) && Registry(next)
    ensures
      var o := FinalizationOf(w, chain).value;
      && w.outputs[0].link.target == o.finalized
      && w.outputs[1].link == Link(o.finalized, w.outputs[1].link.target)
      && w.outputs[1].link.target.epoch == WrappingAdd(o.finalized.epoch, 1)
      && (forall v :: v in first ==> VotedFor(v, w.outputs[0].link, votes))
      && (forall v :: v in second ==> VotedFor(v, w.outputs[1].link, votes))
    ensures 3 * SumOver(first, Balances(leaves)) >= 2 * Total(leaves)
    ensures 3 * SumOver(second, Balances(next)) >= 2 * Total(next)
    ensures w.diffProof.DiffRun?
  {
    first := ProvedMeansTwoThirds(w.outputs[0], w.proofs[0], chain, leaves, votes);
    second := ProvedMeansTwoThirds(w.outputs[1], w.proofs[1], chain, next, votes);
  }

  lemma ProvedMeansTwoThirds(o: JustificationOutput, proof: Proof, chain: Chain, leaves: seq<Digest>, votes: set<Vote>)
    returns (signers: set<nat>)
    requires Proved(o, proof, chain) && o.justified && JustificationVotes(proof, votes)
    requires Commits(o.accumulatorCommitment, leaves, chain.accDepth) && Registry(leaves)
    ensures forall v :: v in signers ==> VotedFor(v, o.link, votes)
    ensures 3 * SumOver(signers, Balances(leaves)) >= 2 * Total(leaves)
  {
    VerifiedJustification(proof, o, chain);
    JustificationFields(proof.justification, chain);
    signers := JustifiedMeansTwoThirds(proof.justification, chain, leaves, votes);
  }

  // ---- runs of stream final proofs --------------------------------------------------------------

  /** One final proof taking over from another. */
  predicate Follows(a: StreamFinalOutput, b: StreamFinalOutput)
  {
    && b.finalized == a.justified
    && b.accumulatorCommitment == a.nextAccumulatorCommitment
    && b.finalized.epoch == WrappingAdd(a.finalized.epoch, 1)
    && b.programVk == a.programVk
  }

  /** The outputs of a run, oldest first. */
  function RunOutputs(w: StreamFinalWitness, chain: Chain): (outs: seq<StreamFinalOutput>)
    requires StreamFinalOf(w, chain).Some?
    decreases w
  {
    var o := StreamFinalOf(w, chain).value;
    if w.previousJustification.Stream? && w.previousProof.StreamFinalRun?
       && StreamFinalOf(w.previousProof.streamFinal, chain).Some?
    then RunOutputs(w.previousProof.streamFinal, chain) + [o]
    else [o]
  }

  lemma FinalFields(w: StreamFinalWitness, chain: Chain)
    requires StreamFinalOf(w, chain).Some?
    ensures
      var o := StreamFinalOf(w, chain).value;
      && o.programVk == w.streamVk && o.finalized == w.previousJustification.Target() && o.justified == w.target
      && o.accumulatorCommitment == w.previousJustification.AccumulatorCommitment()
      && o.nextAccumulatorCommitment == w.accumulatorCommitment
      && o.justified.epoch == WrappingAdd(o.finalized.epoch, 1)
      && PreviousHolds(w, chain)
  {
  }

  lemma VerifiedFinal(p: Proof, o: StreamFinalOutput, chain: Chain)
    requires VerifyChild(p, StreamFinalVk, StreamFinalPublics(o), chain)
    ensures p.StreamFinalRun? && StreamFinalOf(p.streamFinal, chain) == Some(o)
  {
  }

  /** Finality runs. Along any chain of final proofs under the guest's own key, back to the batch
      justification it starts from, each proof finalizes the checkpoint the one before it
      justified, finalized epochs go up one at a time, each accumulator is the previous one's
      next, and every link carries the one key; and the first link finalizes exactly what a
      proved and justified batch justified. */
  lemma {:induction false} FinalityRunHolds(w: StreamFinalWitness, chain: Chain) returns (batch: JustificationOutput, proof: Proof)
    requires StreamFinalOf(w, chain).Some? && w.streamVk == StreamFinalVk
    ensures
      var outs := RunOutputs(w, chain);
      && |outs| > 0 && outs[|outs| - 1] == StreamFinalOf(w, chain).value
      && (forall i :: 0 <= i < |outs| - 1 ==> Follows(outs[i], outs[i + 1]))
      && (forall i :: 0 <= i < |outs| ==> outs[i].programVk == StreamFinalVk)
      && outs[0].finalized == batch.link.target && outs[0].accumulatorCommitment == batch.accumulatorCommitment
    ensures batch.justified && Proved(batch, proof, chain)
    decreases w
  {
    hide StreamFinalOf;
    FinalFields(w, chain);
    match w.previousJustification {
      case Batch(b) =>
        batch, proof := b, w.previousProof;
      case Stream(s) =>
        VerifiedFinal(w.previousProof, s, chain);
        FinalFields(w.previousProof.streamFinal, chain);
        batch, proof := FinalityRunHolds(w.previousProof.streamFinal, chain);
    }
  }

  // ---- the registry along a run -----------------------------------------------------------------

  /** The diff an epoch's proofs rest on, wherever in its folds it was verified. */
  lemma {:induction false} AggregateDiff(w: AggregateWitness, chain: Chain) returns (d: EpochDiffWitness)
    requires AggregateOf(w, chain).Some? && w.programVk == AggregateVk
    ensures EpochDiffOutputOf(d, chain.decompress, chain.sszDepth, chain.accDepth).Some?
    ensures
      var o, diff := AggregateOf(w, chain).value, EpochDiffOutputOf(d, chain.decompress, chain.sszDepth, chain.accDepth).value;
      && diff.prevAccumulatorCommitment == o.previousAccumulatorCommitment && diff.stateRoot1 == o.anchorStateRoot
      && diff.accumulatorCommitment == w.accumulatorCommitment && diff.epoch2 == w.link.target.epoch
    decreases w
  {
    match w.previous {
      case None =>
        d := LinkedDiff(w.epochDiff, w.epochDiffProof, w.committee, w.committeeProof, w.accumulatorCommitment,
                        w.link.target.epoch, chain);
      case Some(p) =>
        ChildAggregate(w, chain);
        d := AggregateDiff(w.previousProof.aggregate, chain);
    }
  }

  /** Only the diff guest's runs verify under its key. */
  lemma VerifiedDiff(p: Proof, o: EpochDiffOutput, chain: Chain)
    requires VerifyLeaf(p, DiffVk, DiffPublics(o), chain)
    ensures p.DiffRun? && EpochDiffOutputOf(p.diff, chain.decompress, chain.sszDepth, chain.accDepth) == Some(o)
  {
    hide EpochDiffOutputOf;
  }

  lemma LinkedDiff(diff: Option<EpochDiffOutput>, diffProof: Proof, committee: Option<Committee.CommitteeOutput>,
                   committeeProof: Proof, accumulator: Digest, targetEpoch: nat, chain: Chain)
    returns (d: EpochDiffWitness)
    requires OpenEpoch(diff, diffProof, committee, committeeProof, accumulator, targetEpoch, chain).Some?
    ensures EpochDiffOutputOf(d, chain.decompress, chain.sszDepth, chain.accDepth).Some?
    ensures
      var base := OpenEpoch(diff, diffProof, committee, committeeProof, accumulator, targetEpoch, chain).value;
      var o := EpochDiffOutputOf(d, chain.decompress, chain.sszDepth, chain.accDepth).value;
      && o.prevAccumulatorCommitment == base.previousAccumulator && o.stateRoot1 == base.anchorStateRoot
      && o.accumulatorCommitment == accumulator && o.epoch2 == targetEpoch
  {
    hide EpochDiffOutputOf, CommitteeLink, VerifyLeaf;
    VerifiedDiff(diffProof, diff.value, chain);
    d := diffProof.diff;
  }

  /** Each final proof rests on one proved registry transition, from the accumulator it
      finalizes to the one it justifies, starting at the state root it publishes. */
  lemma FinalDiff(w: StreamFinalWitness, chain: Chain) returns (d: EpochDiffWitness)
    requires StreamFinalOf(w, chain).Some?
    ensures EpochDiffOutputOf(d, chain.decompress, chain.sszDepth, chain.accDepth).Some?
    ensures
      var o, diff := StreamFinalOf(w, chain).value, EpochDiffOutputOf(d, chain.decompress, chain.sszDepth, chain.accDepth).value;
      && diff.prevAccumulatorCommitment == o.accumulatorCommitment
      && diff.accumulatorCommitment == o.nextAccumulatorCommitment
      && diff.stateRoot1 == o.finalizedStateRoot && diff.epoch2 == o.justified.epoch
  {
    match w.aggregate {
      case None =>
        d := LinkedDiff(w.epochDiff, w.epochDiffProof, w.committee, w.committeeProof, w.accumulatorCommitment,
                        w.target.epoch, chain);
      case Some(a) =>
        var base := FinalBase(w, chain).value;
        assert FinalCount(w, base, chain).Some? && FinalStart(w, chain).Some?;
        VerifiedAggregate(w.aggregateProof, a, chain);
        d := AggregateDiff(w.aggregateProof.aggregate, chain);
    }
  }

  /** So a committed leaf vector carries over: if the finalized accumulator commits to one, the
      justified accumulator commits to it with exactly the diff's leaves replaced, as long as
      their total still fits a word. */
  lemma LeavesCarryOver(w: StreamFinalWitness, chain: Chain, leaves: seq<Digest>) returns (d: EpochDiffWitness)
    requires StreamFinalOf(w, chain).Some?
    requires Commits(StreamFinalOf(w, chain).value.accumulatorCommitment, leaves, chain.accDepth)
    ensures
      var after := Replaced(leaves, d.mutations, Env(chain.decompress, d.epoch1, d.epoch2), chain.accDepth);
      Total(after) < U64 ==> Commits(StreamFinalOf(w, chain).value.nextAccumulatorCommitment, after, chain.accDepth)
  {
    d := FinalDiff(w, chain);
    DiffKeepsTotal(d, chain.decompress, chain.sszDepth, chain.accDepth, leaves);
  }

  /** A justified block's state that keeps its two histories as the chain writes them. */
  ghost predicate KeepsHistory(anchor: BoundaryAnchor, fields: seq<Bytes32>, blockRoots: nat -> Bytes32,
                               stateRoots: nat -> Bytes32, ringDepth: nat, stateDepth: nat)
  {
    && Pow2(ringDepth) == SLOTS_PER_HISTORICAL_ROOT && ringDepth + stateDepth == HISTORY_PROOF_DEPTH
    && HoldsVector(anchor.header.stateRoot, fields, stateDepth, BLOCK_ROOTS_FIELD,
                   Ring(blockRoots, ZERO_CHUNK, Pow2(ringDepth), anchor.header.slot), ringDepth)
    && HoldsVector(anchor.header.stateRoot, fields, stateDepth, STATE_ROOTS_FIELD,
                   Ring(stateRoots, ZERO_CHUNK, Pow2(ringDepth), anchor.header.slot), ringDepth)
  }

  /** What a final proof publishes as finalized is what the justified state records for that
      epoch's first slot, block root and state root alike. */
  lemma FinalIsRecorded(w: StreamFinalWitness, chain: Chain, fields: seq<Bytes32>, blockRoots: nat -> Bytes32,
                        stateRoots: nat -> Bytes32, ringDepth: nat, stateDepth: nat)
    requires StreamFinalOf(w, chain).Some?
    requires KeepsHistory(w.boundary, fields, blockRoots, stateRoots, ringDepth, stateDepth)
    ensures
      var o := StreamFinalOf(w, chain).value;
      var slot := BoundarySlot(o.finalized.epoch, chain.slotsPerEpoch);
      && o.finalized.root == blockRoots(slot) && o.finalizedStateRoot == stateRoots(slot)
      && o.justified.root == BlockHeaderRoot(w.boundary.header)
      && (FirstSlotFits(o.finalized.epoch, chain.slotsPerEpoch) ==>
            StartsEpoch(slot, o.finalized.epoch, chain.slotsPerEpoch))
  {
    var o := StreamFinalOf(w, chain).value;
    BoundaryIsRecorded(w.boundary, o.finalized.epoch, o.finalized.root, o.justified.root, o.finalizedStateRoot,
                       chain.slotsPerEpoch, fields, blockRoots, stateRoots, ringDepth, stateDepth);
  }

  /** And so is what a batch finalization publishes. */
  lemma BatchIsRecorded(w: FinalizationWitness, chain: Chain, fields: seq<Bytes32>, blockRoots: nat -> Bytes32,
                        stateRoots: nat -> Bytes32, ringDepth: nat, stateDepth: nat)
    requires FinalizationOf(w, chain).Some?
    requires KeepsHistory(w.boundary, fields, blockRoots, stateRoots, ringDepth, stateDepth)
    ensures
      var o := FinalizationOf(w, chain).value;
      var slot := BoundarySlot(o.finalized.epoch, chain.slotsPerEpoch);
      && o.finalized.root == blockRoots(slot) && o.finalizedStateRoot == stateRoots(slot)
      && w.outputs[1].link.target.root == BlockHeaderRoot(w.boundary.header)
      && (FirstSlotFits(o.finalized.epoch, chain.slotsPerEpoch) ==>
            StartsEpoch(slot, o.finalized.epoch, chain.slotsPerEpoch))
  {
    var o := FinalizationOf(w, chain).value;
    BoundaryIsRecorded(w.boundary, o.finalized.epoch, o.finalized.root, w.outputs[1].link.target.root, o.finalizedStateRoot,
                       chain.slotsPerEpoch, fields, blockRoots, stateRoots, ringDepth, stateDepth);
  }
}
