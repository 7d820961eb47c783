/** The recursive guests as they run: loops over children that update a running count. */
module Circuits {
  import opened Wrappers
  import opened Ssz
  import opened Bls
  import opened Accumulator
  import opened SlotProof
  import opened Boundary
  import opened Pipeline

  lemma FoldGroupsStep(start: Attested, groups: seq<GroupOutput>, proofs: seq<Proof>, millers: seq<Fp12>,
                       agreed: Agreed, chain: Chain, i: nat)
    requires i < |groups| == |proofs| == |millers|
    ensures FoldGroups(start, groups[..i + 1], proofs[..i + 1], millers[..i + 1], agreed, chain)
         == (var t :- FoldGroups(start, groups[..i], proofs[..i], millers[..i], agreed, chain);
             FoldGroup(t, groups[i], proofs[i], millers[i], agreed, chain))
  {
    assert groups[..i + 1][..i] == groups[..i];
    assert proofs[..i + 1][..i] == proofs[..i];
    assert millers[..i + 1][..i] == millers[..i];
  }

  lemma {:induction false} FoldGroupsFails(start: Attested, groups: seq<GroupOutput>, proofs: seq<Proof>,
                                           millers: seq<Fp12>, agreed: Agreed, chain: Chain, n: nat)
    requires n <= |groups| == |proofs| == |millers|
    requires FoldGroups(start, groups[..n], proofs[..n], millers[..n], agreed, chain).None?
    ensures FoldGroups(start, groups, proofs, millers, agreed, chain).None?
    decreases |groups| - n
  {
    if n == |groups| {
      assert groups[..n] == groups && proofs[..n] == proofs && millers[..n] == millers;
    } else {
      FoldGroupsStep(start, groups, proofs, millers, agreed, chain, n);
      FoldGroupsFails(start, groups, proofs, millers, agreed, chain, n + 1);
    }
  }

  /** The loop over group proofs that both the fold and the final proof run. */
  method FoldAllGroups(start: Attested, groups: seq<GroupOutput>, proofs: seq<Proof>, millers: seq<Fp12>,
                       agreed: Agreed, chain: Chain) returns (r: Option<Attested>)
    requires |groups| == |proofs| == |millers|
    ensures r == FoldGroups(start, groups, proofs, millers, agreed, chain)
  {
    var balance: UInt64 := start.balance;
    var mask, miller := start.mask, start.miller;
    for i := 0 to |groups|
      invariant FoldGroups(start, groups[..i], proofs[..i], millers[..i], agreed, chain)
             == Some(Attested(balance, mask, miller))
    {
      FoldGroupsStep(start, groups, proofs, millers, agreed, chain, i);
      var group := groups[i];
      if !GroupBound(group, proofs[i], millers[i], agreed, chain) || mask * group.mask != {} {
        FoldGroupsFails(start, groups, proofs, millers, agreed, chain, i + 1);
        return None;
      }
      mask := mask + group.mask;
      balance := WrappingAdd(balance, group.balance);
      miller := Fp12Mul(miller, millers[i]);
    }
    assert groups[..|groups|] == groups && proofs[..|proofs|] == proofs && millers[..|millers|] == millers;
    r := Some(Attested(balance, mask, miller));
  }

  /** `verify_aggregate` */
  method VerifyAggregate(w: AggregateWitness, chain: Chain) returns (r: Option<AggregateOutput>)
    ensures r == AggregateOf(w, chain)
  {
    if w.groups == [] || |w.groups| != |w.groupProofs| || |w.groups| != |w.groupMillers| {
      return None;
    }
    var base, start := AggregateBase(w, chain), AggregateStart(w, chain);
    if base.None? || start.None? {
      return None;
    }
    var agreed := Agreed(w.accumulatorCommitment, base.value.committeeRoot, w.link);
    var t := FoldAllGroups(start.value, w.groups, w.groupProofs, w.groupMillers, agreed, chain);
    if t.None? {
      return None;
    }
    r := Some(AggregateOutput(
      w.accumulatorCommitment, base.value.committeeRoot, base.value.previousAccumulator, base.value.anchorStateRoot,
      w.link.target.epoch, CheckpointDigest(w.link), t.value.balance, t.value.mask, MillerDigest(t.value.miller),
      w.programVk));
  }

  lemma FoldSlotsStep(start: Count, slots: seq<SlotOutput>, proofs: seq<Proof>, agreed: Agreed, chain: Chain, i: nat)
    requires i < |slots| == |proofs|
    ensures FoldSlots(start, slots[..i + 1], proofs[..i + 1], agreed, chain)
         == (var c :- FoldSlots(start, slots[..i], proofs[..i], agreed, chain);
             FoldSlot(c, slots[i], proofs[i], agreed, chain))
  {
    assert slots[..i + 1][..i] == slots[..i];
    assert proofs[..i + 1][..i] == proofs[..i];
  }

  lemma {:induction false} FoldSlotsFails(start: Count, slots: seq<SlotOutput>, proofs: seq<Proof>, agreed: Agreed,
                                          chain: Chain, n: nat)
    requires n <= |slots| == |proofs| && FoldSlots(start, slots[..n], proofs[..n], agreed, chain).None?
    ensures FoldSlots(start, slots, proofs, agreed, chain).None?
    decreases |slots| - n
  {
    if n == |slots| {
      assert slots[..n] == slots && proofs[..n] == proofs;
    } else {
      FoldSlotsStep(start, slots, proofs, agreed, chain, n);
      FoldSlotsFails(start, slots, proofs, agreed, chain, n + 1);
    }
  }

  /** `verify_justification` */
  method VerifyJustification(w: JustificationWitness, chain: Chain) returns (r: Option<JustificationOutput>)
    ensures r == JustificationOf(w, chain)
  {
    if w.slotOutputs == [] || |w.slotOutputs| != |w.slotProofs| {
      return None;
    }
    if Commitment(w.accRoot, w.total) != w.accumulatorCommitment {
      return None;
    }
    var root, start := JustificationRoot(w, chain), JustificationStart(w, chain);
    if root.None? || start.None? {
      return None;
    }
    var agreed := Agreed(w.accumulatorCommitment, root.value, w.link);
    var balance: UInt64 := start.value.balance;
    var mask := start.value.mask;
    for i := 0 to |w.slotOutputs|
      invariant FoldSlots(start.value, w.slotOutputs[..i], w.slotProofs[..i], agreed, chain) == Some(Count(balance, mask))
    {
      FoldSlotsStep(start.value, w.slotOutputs, w.slotProofs, agreed, chain, i);
      var slot := w.slotOutputs[i];
      if !SlotBound(slot, w.slotProofs[i], agreed, chain) || mask * slot.mask != {} {
        FoldSlotsFails(start.value, w.slotOutputs, w.slotProofs, agreed, chain, i + 1);
        return None;
      }
      mask := mask + slot.mask;
      balance := WrappingAdd(balance, slot.balance);
    }
    assert w.slotOutputs[..|w.slotOutputs|] == w.slotOutputs && w.slotProofs[..|w.slotProofs|] == w.slotProofs;
    r := Some(JustificationOutput(
      w.accumulatorCommitment, root.value, w.link, balance, mask, TwoThirds(balance, w.total), w.programVk));
  }

  /** The count of the final proof: aggregate, late groups, inline tail. */
  method CountEpoch(w: StreamFinalWitness, base: Base, chain: Chain) returns (r: Option<Attested>)
    ensures r == FinalCount(w, base, chain)
  {
    if |w.groups| != |w.groupProofs| || |w.groups| != |w.groupMillers| {
      return None;
    }
    var start := FinalStart(w, chain);
    if start.None? {
      return None;
    }
    var agreed := Agreed(w.accumulatorCommitment, base.committeeRoot, FinalLink(w));
    var t := FoldAllGroups(start.value, w.groups, w.groupProofs, w.groupMillers, agreed, chain);
    if t.None? || w.tail == [] {
      return t;
    }
    var at := Openings(w.accRoot, w.tailAccAux, base.committeeRoot, w.tailCommitteeAux);
    var tail := VerifyAttestations(w.tail, at, Claim(FinalLink(w), w.domain), chain.accDepth);
    if tail.None? || t.value.mask * tail.value.mask != {} {
      return None;
    }
    r := Some(Attested(
      WrappingAdd(t.value.balance, tail.value.balance), t.value.mask + tail.value.mask,
      Fp12Mul(t.value.miller, tail.value.miller)));
  }

  /** `verify_stream_final_with` */
  method VerifyStreamFinal(w: StreamFinalWitness, chain: Chain) returns (r: Option<StreamFinalOutput>)
    ensures r == StreamFinalOf(w, chain)
  {
    var previous := w.previousJustification;
    if Commitment(w.accRoot, w.total) != w.accumulatorCommitment {
      return None;
    }
    var base := FinalBase(w, chain);
    if base.None? {
      return None;
    }
    var t := CountEpoch(w, base.value, chain);
    if t.None? || !FinalExpIsOne(t.value.miller) || !TwoThirds(t.value.balance, w.total) {
      return None;
    }
    if !PreviousHolds(w, chain) || WrappingAdd(previous.Target().epoch, 1) != w.target.epoch {
      return None;
    }
    if previous.AccumulatorCommitment() != base.value.previousAccumulator {
      return None;
    }
    if !OpensBoundary(w.boundary, previous.Target().epoch, previous.Target().root, w.target.root,
                      base.value.anchorStateRoot, chain.slotsPerEpoch) {
      return None;
    }
    r := Some(StreamFinalOutput(
      base.value.previousAccumulator, w.accumulatorCommitment, previous.Target(), base.value.anchorStateRoot, w.target,
      w.streamVk));
  }
}
