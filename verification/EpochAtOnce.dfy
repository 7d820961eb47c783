/** The whole epoch at once: along the aggregate chain, the late groups and the inline tail, an
    accepted final proof counts what its slots count read as one list. */
module EpochAtOnce {
  import opened Wrappers
  import opened FormalSums
  import opened Ssz
  import opened Bls
  import opened Accumulator
  import opened SlotProof
  import opened Folds
  import opened Splitting
  import opened SlotCuts
  import opened Pipeline
  import opened StreamSound

  // ---- counts and the slots behind them ------------------------------------------------------------

  /** A running count is what these slots are worth together, each counted once. */
  ghost predicate CountsSlots(t: Attested, ms: seq<Marked>)
  {
    && AllAlone(ms) && CountedOnce(ms)
    && Together(ms).balance == t.balance && Together(ms).mask == t.mask
    && Accumulates(t.miller, Gather(Together(ms).messages))
  }

  lemma NothingCounts()
    ensures CountsSlots(Attested(0, {}, FP12_ONE), [])
  {
  }

  lemma AttestedCounts(slots: seq<SlotWitness>, at: Openings, claim: Claim, accDepth: nat)
    requires AttestedBy(slots, at, claim, accDepth).Some?
    ensures CountsSlots(AttestedBy(slots, at, claim, accDepth).value, Marks(slots, claim))
  {
    hide TakeSlots, NamedOpen, Together, Marks, Rising, SlotCuts.Increasing;
    TakeIsTogether(slots, claim);
    IncreasingIsRising(slots, claim);
    RisingOnce(Marks(slots, claim));
  }

  lemma AddedCounts(a: Attested, ms: seq<Marked>, b: Attested, ns: seq<Marked>)
    requires CountsSlots(a, ms) && CountsSlots(b, ns) && a.mask * b.mask == {}
    ensures CountsSlots(Added(a, b), ms + ns)
  {
    AloneConcat(ms, ns);
    OnceSplits(ms, ns);
    TogetherConcat(ms, ns);
    AccumulatesProduct(a.miller, b.miller, Together(ms).messages, Together(ns).messages);
  }

  // ---- the slots of a proof tree ---------------------------------------------------------------------

  function GroupMarks(p: Proof): seq<Marked>
  {
    if p.GroupRun? then Marks(p.group.slots, p.group.claim) else []
  }

  function AllGroupMarks(proofs: seq<Proof>): seq<Marked>
    decreases |proofs|
  {
    if proofs == [] then [] else AllGroupMarks(proofs[..|proofs| - 1]) + GroupMarks(proofs[|proofs| - 1])
  }

  /** Every slot an aggregate counts, down its chain of predecessors. */
  function AggregateMarks(w: AggregateWitness): seq<Marked>
    decreases w
  {
    if w.previous.Some? && w.previousProof.AggregateRun?
    then AggregateMarks(w.previousProof.aggregate) + AllGroupMarks(w.groupProofs)
    else AllGroupMarks(w.groupProofs)
  }

  function FoldedMarks(w: StreamFinalWitness): seq<Marked>
  {
    if w.aggregate.Some? && w.aggregateProof.AggregateRun? then AggregateMarks(w.aggregateProof.aggregate) else []
  }

  /** Every slot a final proof counts: along the aggregate chain, in late groups, in its tail. */
  function FinalMarks(w: StreamFinalWitness): seq<Marked>
  {
    FoldedMarks(w) + AllGroupMarks(w.groupProofs) + Marks(w.tail, Claim(FinalLink(w), w.domain))
  }

  // ---- folds -----------------------------------------------------------------------------------------

  lemma GroupCounts(group: GroupOutput, proof: Proof, miller: Fp12, agreed: Agreed, chain: Chain)
    requires GroupBound(group, proof, miller, agreed, chain)
    ensures CountsSlots(GroupCount(group, miller), GroupMarks(proof))
  {
    var w := proof.group;
    AttestedCounts(w.slots, Openings(w.accRoot, w.accAux, w.committeeRoot, w.committeeAux), w.claim, chain.accDepth);
  }

  lemma FoldGroupCounts(t: Attested, ms: seq<Marked>, group: GroupOutput, proof: Proof, miller: Fp12, agreed: Agreed,
                        chain: Chain)
    requires FoldGroup(t, group, proof, miller, agreed, chain).Some? && CountsSlots(t, ms)
    ensures CountsSlots(FoldGroup(t, group, proof, miller, agreed, chain).value, ms + GroupMarks(proof))
  {
    GroupCounts(group, proof, miller, agreed, chain);
    AddedCounts(t, ms, GroupCount(group, miller), GroupMarks(proof));
  }

  lemma {:induction false} FoldGroupsCounts(start: Attested, ms: seq<Marked>, groups: seq<GroupOutput>,
                                            proofs: seq<Proof>, millers: seq<Fp12>, agreed: Agreed, chain: Chain)
    requires |groups| == |proofs| == |millers| && FoldGroups(start, groups, proofs, millers, agreed, chain).Some?
    requires CountsSlots(start, ms)
    ensures CountsSlots(FoldGroups(start, groups, proofs, millers, agreed, chain).value, ms + AllGroupMarks(proofs))
    decreases |groups|
  {
    if groups == [] {
      assert ms + [] == ms;
    } else {
      var n := |groups| - 1;
      FoldGroupsCounts(start, ms, groups[..n], proofs[..n], millers[..n], agreed, chain);
      var t := FoldGroups(start, groups[..n], proofs[..n], millers[..n], agreed, chain).value;
      FoldGroupCounts(t, ms + AllGroupMarks(proofs[..n]), groups[n], proofs[n], millers[n], agreed, chain);
      ConcatAssociates(ms, AllGroupMarks(proofs[..n]), GroupMarks(proofs[n]));
    }
  }

  /** Every link of an aggregation chain counts its own groups' slots and those below it. */
  lemma {:induction false} AggregateCounts(w: AggregateWitness, chain: Chain)
    requires AggregateOf(w, chain).Some? && w.programVk == AggregateVk
    ensures AggregateOf(w, chain).value.millerCommitment.MillerDigest?
    ensures CountsSlots(CountOf(AggregateOf(w, chain).value), AggregateMarks(w))
    decreases w
  {
    hide CountsSlots, FoldGroups, OpenEpoch;
    var below: seq<Marked> := [];
    match w.previous {
      case None =>
        NothingCounts();
        assert [] + AllGroupMarks(w.groupProofs) == AllGroupMarks(w.groupProofs);
      case Some(p) =>
        ChildAggregate(w, chain);
        AggregateCounts(w.previousProof.aggregate, chain);
        below := AggregateMarks(w.previousProof.aggregate);
    }
    AggregateStepCounts(w, chain, below);
  }

  lemma AggregateStepCounts(w: AggregateWitness, chain: Chain, below: seq<Marked>)
    requires AggregateOf(w, chain).Some? && CountsSlots(AggregateStart(w, chain).value, below)
    ensures AggregateOf(w, chain).value.millerCommitment.MillerDigest?
    ensures CountsSlots(CountOf(AggregateOf(w, chain).value), below + AllGroupMarks(w.groupProofs))
  {
    var agreed := Agreed(w.accumulatorCommitment, AggregateBase(w, chain).value.committeeRoot, w.link);
    FoldGroupsCounts(AggregateStart(w, chain).value, below, w.groups, w.groupProofs, w.groupMillers, agreed, chain);
  }

  // ---- the final proof -------------------------------------------------------------------------------

  lemma FinalStartCounts(w: StreamFinalWitness, chain: Chain)
    requires FinalStart(w, chain).Some?
    ensures CountsSlots(FinalStart(w, chain).value, FoldedMarks(w))
  {
    match w.aggregate {
      case None => NothingCounts();
      case Some(a) =>
        VerifiedAggregate(w.aggregateProof, a, chain);
        AggregateCounts(w.aggregateProof.aggregate, chain);
        assert FinalStart(w, chain) == Some(CountOf(a));
    }
  }

  lemma TailCounts(t: Attested, ms: seq<Marked>, w: StreamFinalWitness, root: Digest, chain: Chain)
    requires AddTail(t, w, root, chain).Some? && CountsSlots(t, ms)
    ensures CountsSlots(AddTail(t, w, root, chain).value, ms + Marks(w.tail, Claim(FinalLink(w), w.domain)))
  {
    var claim := Claim(FinalLink(w), w.domain);
    if w.tail == [] {
      assert ms + Marks(w.tail, claim) == ms;
    } else {
      var at := Openings(w.accRoot, w.tailAccAux, root, w.tailCommitteeAux);
      AttestedCounts(w.tail, at, claim, chain.accDepth);
      AddedCounts(t, ms, AttestedBy(w.tail, at, claim, chain.accDepth).value, Marks(w.tail, claim));
    }
  }

  lemma FinalCounts(w: StreamFinalWitness, base: Base, chain: Chain)
    requires FinalCount(w, base, chain).Some?
    ensures CountsSlots(FinalCount(w, base, chain).value, FinalMarks(w))
  {
    var agreed := Agreed(w.accumulatorCommitment, base.committeeRoot, FinalLink(w));
    FinalStartCounts(w, chain);
    var start := FinalStart(w, chain).value;
    FoldGroupsCounts(start, FoldedMarks(w), w.groups, w.groupProofs, w.groupMillers, agreed, chain);
    var t := FoldGroups(start, w.groups, w.groupProofs, w.groupMillers, agreed, chain).value;
    TailCounts(t, FoldedMarks(w) + AllGroupMarks(w.groupProofs), w, base.committeeRoot, chain);
  }

  // ---- at once -----------------------------------------------------------------------------------------

  /** Slots read as one list come to a count: its balance, its mask, and its accumulator unless
      keys or signatures cancel. */
  ghost predicate ReadsAtOnce(all: seq<Marked>, t: Attested)
  {
    && TakeAllMarked(all).Some?
    && var run := TakeAllMarked(all).value;
       && run.balance == t.balance && run.mask == t.mask
       && MillerAccumulator(run.messages) == AtOnce(run.messages, t.miller)
  }

  lemma CountReadsAtOnce(t: Attested, ms: seq<Marked>) returns (all: seq<Marked>)
    requires CountsSlots(t, ms)
    ensures multiset(all) == multiset(ms) && ReadsAtOnce(all, t)
  {
    all := Arranged(ms);
    AlonePermutes(all, ms);
    TallyPermutes(all, ms);
    ReadIsTogether(all);
    assert TallyOf(Together(all)) == TallyOf(Together(ms));
    AccumulatesAtOnce(Together(all).messages, t.miller);
  }

  /** For every way an epoch reaches the final proof, in groups folded one by one or in batches,
      along any chain of aggregates, as late groups and as a tail: the slots it counts, put in
      slot order and read as one list, come to its balance, its mask and its product. Where
      nothing cancels that list has an accumulator, and the pairing settles it exactly when it
      settles the product. */
  lemma EpochReadsAtOnce(w: StreamFinalWitness, base: Base, chain: Chain) returns (all: seq<Marked>)
    requires FinalCount(w, base, chain).Some?
    ensures multiset(all) == multiset(FinalMarks(w)) && ReadsAtOnce(all, FinalCount(w, base, chain).value)
    ensures
      var miller := MillerAccumulator(TakeAllMarked(all).value.messages);
      miller.Some? ==> (FinalExpIsOne(miller.value) <==> FinalExpIsOne(FinalCount(w, base, chain).value.miller))
  {
    FinalCounts(w, base, chain);
    all := CountReadsAtOnce(FinalCount(w, base, chain).value, FinalMarks(w));
  }

  /** Under one claim that list is a list of slots the group circuit reads. */
  lemma OneClaim(ms: seq<Marked>, claim: Claim)
    requires forall m :: m in ms ==> m.claim == claim
    ensures TakeAllMarked(ms) == TakeSlots(SlotsOf(ms), claim)
  {
    assert Marks(SlotsOf(ms), claim) == ms;
    MarksRead(SlotsOf(ms), claim);
  }

  /** Two final proofs over the same slots, however grouped, folded and ordered, count the same
      balance, the same mask and the same product, so their pairings settle alike. */
  lemma FinalsAgree(v: StreamFinalWitness, vBase: Base, w: StreamFinalWitness, wBase: Base, chain: Chain)
    requires FinalCount(v, vBase, chain).Some? && FinalCount(w, wBase, chain).Some?
    requires multiset(FinalMarks(v)) == multiset(FinalMarks(w))
    ensures FinalCount(v, vBase, chain) == FinalCount(w, wBase, chain)
  {
    FinalCounts(v, vBase, chain);
    FinalCounts(w, wBase, chain);
    SameCount(FinalCount(v, vBase, chain).value, FinalMarks(v), FinalCount(w, wBase, chain).value, FinalMarks(w));
  }

  lemma SameCount(a: Attested, ms: seq<Marked>, b: Attested, ns: seq<Marked>)
    requires CountsSlots(a, ms) && CountsSlots(b, ns) && multiset(ms) == multiset(ns)
    ensures a == b
  {
    TallyPermutes(ms, ns);
    assert TallyOf(Together(ms)) == TallyOf(Together(ns));
  }
}
