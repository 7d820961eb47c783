/** Streaming soundness: whatever the grouping, the order of folds and the programs a prover
    writes, an accepted final proof means distinct validators holding two thirds of the
    committed total each voted for exactly its link. */
module StreamSound {
  import opened Wrappers
  import opened FormalSums
  import opened Ssz
  import opened Bls
  import opened Merkle
  import opened Accumulator
  import opened SlotProof
  import opened Tallies
  import opened GroupSound
  import opened Committee
  import opened CommitteeSound
  import opened Pipeline

  // ---- the votes a proof tree is made of ---------------------------------------------------

  ghost predicate SlotVotes(w: SlotProofWitness, votes: set<Vote>)
  {
    forall slot :: slot in w.slots ==> VotesWithin(slot, votes)
  }

  ghost predicate LeafVotes(p: Proof, votes: set<Vote>)
  {
    && (p.GroupRun? ==> SlotVotes(p.group, votes))
    && (p.SlotRun? ==> SlotVotes(p.slot, votes))
  }

  ghost predicate AllLeafVotes(proofs: seq<Proof>, votes: set<Vote>)
  {
    forall p :: p in proofs ==> LeafVotes(p, votes)
  }

  /** Every signature below an aggregate of this epoch is made of the given votes. */
  ghost predicate AggregateVotes(p: Proof, votes: set<Vote>)
    decreases p
  {
    p.AggregateRun? ==> AllLeafVotes(p.aggregate.groupProofs, votes) && AggregateVotes(p.aggregate.previousProof, votes)
  }

  /** Every signature counted by a final proof is made of the given votes. */
  ghost predicate FinalVotes(w: StreamFinalWitness, votes: set<Vote>)
  {
    && AggregateVotes(w.aggregateProof, votes)
    && AllLeafVotes(w.groupProofs, votes)
    && forall slot :: slot in w.tail ==> VotesWithin(slot, votes)
  }

  // ---- one child ------------------------------------------------------------------------

  /** The epoch a set of children counts in: the accumulator commits to its registry, the
      committee root is that of its partition. */
  ghost predicate Counts(agreed: Agreed, e: Epoch, depth: nat)
  {
    && Commits(agreed.accumulator, e.leaves, depth) && Registry(e.leaves)
    && Partition(e.committees, e.leaves)
    && agreed.committeeRoot == Root(Compress, Zero, e.committees, TREE_DEPTH)
    && agreed.link == e.link
  }

  lemma AttestIsSound(w: SlotProofWitness, e: Epoch, depth: nat)
    requires Attest(w, depth).Some? && SlotVotes(w, e.votes)
    requires Counts(Agreed(w.accumulatorCommitment, w.committeeRoot, w.claim.link), e, depth)
    ensures Sound(Attest(w, depth).value, e)
  {
    AttestedIsSound(w.slots, Openings(w.accRoot, w.accAux, w.committeeRoot, w.committeeAux), w.claim, depth, e);
  }

  lemma GroupIsSound(group: GroupOutput, proof: Proof, miller: Fp12, agreed: Agreed, chain: Chain, e: Epoch)
    requires GroupBound(group, proof, miller, agreed, chain) && LeafVotes(proof, e.votes)
    requires Counts(agreed, e, chain.accDepth)
    ensures Sound(GroupCount(group, miller), e)
  {
    hide Sound, Counts, AttestedBy;
    AttestIsSound(proof.group, e, chain.accDepth);
  }

  lemma CommitteeLinkPartitions(committee: Option<CommitteeOutput>, proof: Proof, accumulator: Digest, targetEpoch: nat,
                                chain: Chain, leaves: seq<Digest>)
    returns (committees: seq<Digest>)
    requires CommitteeLink(committee, proof, accumulator, targetEpoch, chain).Some?
    requires Commits(accumulator, leaves, chain.accDepth) && Registry(leaves)
    ensures Partition(committees, leaves)
    ensures CommitteeLink(committee, proof, accumulator, targetEpoch, chain).value
         == Root(Compress, Zero, committees, TREE_DEPTH)
  {
    committees := CommitteePartitions(proof.committee, chain.accDepth, leaves);
  }

  // ---- a run of folds -------------------------------------------------------------------------

  lemma CountsAdd(a: Attested, b: Attested, e: Epoch, sum: Attested)
    requires Sound(a, e) && Sound(b, e) && a.mask * b.mask == {} && Partition(e.committees, e.leaves)
    requires sum == Added(a, b)
    ensures Sound(sum, e)
  {
    SoundCountsAdd(a, b, e);
  }

  lemma FoldOneIsSound(t: Attested, group: GroupOutput, proof: Proof, miller: Fp12, agreed: Agreed, chain: Chain, e: Epoch)
    requires FoldGroup(t, group, proof, miller, agreed, chain).Some?
    requires Sound(t, e) && Counts(agreed, e, chain.accDepth) && LeafVotes(proof, e.votes)
    ensures Sound(FoldGroup(t, group, proof, miller, agreed, chain).value, e)
  {
    GroupIsSound(group, proof, miller, agreed, chain, e);
    CountsAdd(t, GroupCount(group, miller), e, FoldGroup(t, group, proof, miller, agreed, chain).value);
  }

  lemma {:induction false} FoldIsSound(start: Attested, groups: seq<GroupOutput>, proofs: seq<Proof>, millers: seq<Fp12>,
                                       agreed: Agreed, chain: Chain, e: Epoch)
    requires |groups| == |proofs| == |millers| && FoldGroups(start, groups, proofs, millers, agreed, chain).Some?
    requires Sound(start, e) && Counts(agreed, e, chain.accDepth) && AllLeafVotes(proofs, e.votes)
    ensures Sound(FoldGroups(start, groups, proofs, millers, agreed, chain).value, e)
    decreases |groups|
  {
    hide Sound, Counts, FoldGroup, LeafVotes;
    if groups != [] {
      var n := |groups| - 1;
      FoldIsSound(start, groups[..n], proofs[..n], millers[..n], agreed, chain, e);
      var t := FoldGroups(start, groups[..n], proofs[..n], millers[..n], agreed, chain).value;
      FoldOneIsSound(t, groups[n], proofs[n], millers[n], agreed, chain, e);
    }
  }

  /** The count an aggregate publishes. */
  function CountOf(o: AggregateOutput): Attested
    requires o.millerCommitment.MillerDigest?
  {
    Attested(o.balance, o.mask, o.millerCommitment.accumulator)
  }

  ghost predicate AggregateSound(o: AggregateOutput, e: Epoch, depth: nat)
  {
    && Counts(Agreed(o.accumulatorCommitment, o.committeeRoot, e.link), e, depth)
    && o.millerCommitment.MillerDigest? && Sound(CountOf(o), e)
  }

  /** One fold: from a sound start, under the committee root of a partition. */
  lemma AggregateStepIsSound(w: AggregateWitness, chain: Chain, e: Epoch)
    requires AggregateOf(w, chain).Some? && AllLeafVotes(w.groupProofs, e.votes)
    requires Sound(AggregateStart(w, chain).value, e)
    requires Counts(Agreed(w.accumulatorCommitment, AggregateBase(w, chain).value.committeeRoot, w.link), e, chain.accDepth)
    ensures AggregateSound(AggregateOf(w, chain).value, e, chain.accDepth)
  {
    var agreed := Agreed(w.accumulatorCommitment, AggregateBase(w, chain).value.committeeRoot, w.link);
    FoldIsSound(AggregateStart(w, chain).value, w.groups, w.groupProofs, w.groupMillers, agreed, chain, e);
  }

  /** Aggregates are sound all the way down: a chain whose head publishes the aggregation
      guest's own key is a chain of that guest's runs, opened by one committee proof. */
  lemma {:induction false} AggregatesAreSound(w: AggregateWitness, chain: Chain, leaves: seq<Digest>, votes: set<Vote>)
    returns (committees: seq<Digest>)
    requires AggregateOf(w, chain).Some? && w.programVk == AggregateVk && AggregateVotes(AggregateRun(w), votes)
    requires Commits(w.accumulatorCommitment, leaves, chain.accDepth) && Registry(leaves)
    ensures AggregateSound(AggregateOf(w, chain).value, Epoch(leaves, committees, w.link, votes), chain.accDepth)
    decreases w
  {
    match w.previous {
      case None =>
        committees := CommitteeLinkPartitions(w.committee, w.committeeProof, w.accumulatorCommitment,
                                              w.link.target.epoch, chain, leaves);
        NothingCountedIsSound(Epoch(leaves, committees, w.link, votes));
      case Some(p) =>
        ChildAggregate(w, chain);
        committees := AggregatesAreSound(w.previousProof.aggregate, chain, leaves, votes);
    }
    AggregateStepIsSound(w, chain, Epoch(leaves, committees, w.link, votes));
  }

  /** The predecessor an aggregate extends is a run of the same program over the same link. */
  lemma ChildAggregate(w: AggregateWitness, chain: Chain)
    requires AggregateStart(w, chain).Some? && w.programVk == AggregateVk && w.previous.Some?
    ensures w.previousProof.AggregateRun?
    ensures
      var below := w.previousProof.aggregate;
      && AggregateOf(below, chain) == Some(w.previous.value)
      && below.programVk == AggregateVk && below.link == w.link
      && below.accumulatorCommitment == w.accumulatorCommitment
    ensures MillerDigest(w.previousMiller) == w.previous.value.millerCommitment
    ensures AggregateStart(w, chain) == Some(CountOf(w.previous.value))
  {
    VerifiedAggregate(w.previousProof, w.previous.value, chain);
    SameLink(w.previousProof.aggregate.link, w.link);
  }

  /** Only the aggregation guest's runs verify under its key. */
  lemma VerifiedAggregate(p: Proof, o: AggregateOutput, chain: Chain)
    requires VerifyChild(p, AggregateVk, AggregatePublics(o), chain)
    ensures p.AggregateRun? && AggregateOf(p.aggregate, chain) == Some(o)
    ensures o.programVk == p.aggregate.programVk && o.accumulatorCommitment == p.aggregate.accumulatorCommitment
    ensures o.checkpointDigest == CheckpointDigest(p.aggregate.link)
  {
  }

  lemma SameLink(a: Link, b: Link)
    requires CheckpointDigest(a) == CheckpointDigest(b)
    ensures a == b
  {
  }

  // ---- the final proof -----------------------------------------------------------------------

  ghost predicate FinalStands(w: StreamFinalWitness, base: Base, e: Epoch, depth: nat)
  {
    && Commitment(w.accRoot, w.total) == w.accumulatorCommitment
    && Counts(Agreed(w.accumulatorCommitment, base.committeeRoot, FinalLink(w)), e, depth)
  }

  lemma TailIsSound(t: Attested, w: StreamFinalWitness, base: Base, chain: Chain, e: Epoch)
    requires AddTail(t, w, base.committeeRoot, chain).Some? && Sound(t, e)
    requires FinalStands(w, base, e, chain.accDepth) && forall slot :: slot in w.tail ==> VotesWithin(slot, e.votes)
    ensures Sound(AddTail(t, w, base.committeeRoot, chain).value, e)
  {
    if w.tail != [] {
      var at := Openings(w.accRoot, w.tailAccAux, base.committeeRoot, w.tailCommitteeAux);
      var claim := Claim(FinalLink(w), w.domain);
      AttestedIsSound(w.tail, at, claim, chain.accDepth, e);
      CountsAdd(t, AttestedBy(w.tail, at, claim, chain.accDepth).value, e, AddTail(t, w, base.committeeRoot, chain).value);
    }
  }

  /** Where the count starts: at nothing, or at the aggregate's sound count. */
  lemma FinalStartIsSound(w: StreamFinalWitness, chain: Chain, leaves: seq<Digest>, votes: set<Vote>)
    returns (committees: seq<Digest>)
    requires FinalBase(w, chain).Some? && FinalStart(w, chain).Some? && AggregateVotes(w.aggregateProof, votes)
    requires Commitment(w.accRoot, w.total) == w.accumulatorCommitment
    requires Commits(w.accumulatorCommitment, leaves, chain.accDepth) && Registry(leaves)
    ensures FinalStands(w, FinalBase(w, chain).value, Epoch(leaves, committees, FinalLink(w), votes), chain.accDepth)
    ensures Sound(FinalStart(w, chain).value, Epoch(leaves, committees, FinalLink(w), votes))
  {
    match w.aggregate {
      case None =>
        committees := CommitteeLinkPartitions(w.committee, w.committeeProof, w.accumulatorCommitment, w.target.epoch,
                                              chain, leaves);
        NothingCountedIsSound(Epoch(leaves, committees, FinalLink(w), votes));
      case Some(a) =>
        VerifiedAggregate(w.aggregateProof, a, chain);
        var below := w.aggregateProof.aggregate;
        SameLink(below.link, FinalLink(w));
        committees := AggregatesAreSound(below, chain, leaves, votes);
        assert FinalStart(w, chain) == Some(CountOf(a));
    }
  }

  /** The whole epoch's count is sound. */
  lemma FinalCountIsSound(w: StreamFinalWitness, chain: Chain, leaves: seq<Digest>, votes: set<Vote>)
    returns (e: Epoch)
    requires FinalBase(w, chain).Some? && FinalCount(w, FinalBase(w, chain).value, chain).Some? && FinalVotes(w, votes)
    requires Commitment(w.accRoot, w.total) == w.accumulatorCommitment
    requires Commits(w.accumulatorCommitment, leaves, chain.accDepth) && Registry(leaves)
    ensures e.leaves == leaves && e.link == FinalLink(w) && e.votes == votes && Partition(e.committees, e.leaves)
    ensures Sound(FinalCount(w, FinalBase(w, chain).value, chain).value, e)
  {
    var base, start := FinalBase(w, chain).value, FinalStart(w, chain).value;
    var committees := FinalStartIsSound(w, chain, leaves, votes);
    e := Epoch(leaves, committees, FinalLink(w), votes);
    var agreed := Agreed(w.accumulatorCommitment, base.committeeRoot, FinalLink(w));
    FoldIsSound(start, w.groups, w.groupProofs, w.groupMillers, agreed, chain, e);
    var t := FoldGroups(start, w.groups, w.groupProofs, w.groupMillers, agreed, chain).value;
    TailIsSound(t, w, base, chain, e);
  }

  /** Streaming soundness. For every tree of groups, folds, late groups and inline tail that the
      final proof accepts over a committed registry, there are distinct validators, each of
      whom voted for exactly the link from the finalized checkpoint to the justified one, and
      who together hold at least two thirds of the committed total. */
  lemma FinalProofMeansTwoThirds(w: StreamFinalWitness, chain: Chain, leaves: seq<Digest>, votes: set<Vote>)
    returns (signers: set<nat>)
    requires StreamFinalOf(w, chain).Some? && FinalVotes(w, votes)
    requires Commits(StreamFinalOf(w, chain).value.nextAccumulatorCommitment, leaves, chain.accDepth) && Registry(leaves)
    ensures
      var o := StreamFinalOf(w, chain).value;
      forall v :: v in signers ==> VotedFor(v, Link(o.finalized, o.justified), votes)
    ensures 3 * SumOver(signers, Balances(leaves)) >= 2 * Total(leaves)
  {
    var e := FinalCountIsSound(w, chain, leaves, votes);
    signers := SettledCount(FinalCount(w, FinalBase(w, chain).value, chain).value, e);
    forall v | v in signers ensures VotedFor(v, FinalLink(w), votes) {
      assert Voted(v, e);
    }
  }

  /** Among the votes is one by `v` for a message of `link`. */
  ghost predicate VotedFor(v: nat, link: Link, votes: set<Vote>)
  {
    exists m: Bytes32 :: (v, m) in votes && Names(m, link)
  }
}
