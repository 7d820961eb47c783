/** The justification chain: what its running values are, when its flag is set, and what two
    conflicting justifications would imply. */
module JustificationSound {
  import opened Wrappers
  import opened FormalSums
  import opened Ssz
  import opened Bls
  import opened Merkle
  import opened Accumulator
  import opened SlotProof
  import opened Tallies
  import opened Folds
  import opened SlotCuts
  import opened Committee
  import opened Pipeline
  import opened StreamSound

  // ---- the chain as one list of slot proofs ---------------------------------------------------

  /** Every slot output a chain has folded, oldest first. */
  function ChainSlots(w: JustificationWitness): seq<SlotOutput>
    decreases w
  {
    if w.previous.Some? && w.previousProof.JustificationRun?
    then ChainSlots(w.previousProof.justification) + w.slotOutputs
    else w.slotOutputs
  }

  function CountsOf(slots: seq<SlotOutput>): (counts: seq<Count>)
    ensures |counts| == |slots|
  {
    seq(|slots|, (i: nat) requires i < |slots| => Count(slots[i].balance, slots[i].mask))
  }

  /** One count added to another, as a fold adds them. */
  function AddCount(a: Count, b: Count): Count
  {
    Count(WrappingAdd(a.balance, b.balance), a.mask + b.mask)
  }

  /** Wrapped sum of the balances and union of the masks. */
  function TotalsOf(slots: seq<SlotOutput>): Count
  {
    FoldAll(AddCount, Count(0, {}), CountsOf(slots))
  }

  predicate Disjoint(slots: seq<SlotOutput>)
  {
    forall i, j :: 0 <= i < j < |slots| ==> slots[i].mask * slots[j].mask == {}
  }

  lemma TotalsAppend(slots: seq<SlotOutput>, last: SlotOutput)
    ensures TotalsOf(slots + [last]) == AddCount(TotalsOf(slots), Count(last.balance, last.mask))
  {
    assert CountsOf(slots + [last]) == CountsOf(slots) + [Count(last.balance, last.mask)];
    FoldAppends(AddCount, Count(0, {}), CountsOf(slots), Count(last.balance, last.mask));
  }

  /** Every mask counted is part of the union. */
  lemma {:induction false} MaskInUnion(slots: seq<SlotOutput>, i: nat)
    requires i < |slots|
    ensures slots[i].mask <= TotalsOf(slots).mask
    decreases |slots|
  {
    var n := |slots| - 1;
    PrefixGrows(slots, n);
    TotalsAppend(slots[..n], slots[n]);
    if i < n {
      MaskInUnion(slots[..n], i);
    }
  }

  lemma DisjointAppend(slots: seq<SlotOutput>, last: SlotOutput)
    requires Disjoint(slots) && TotalsOf(slots).mask * last.mask == {}
    ensures Disjoint(slots + [last])
  {
    forall i | 0 <= i < |slots| ensures slots[i].mask * last.mask == {} {
      MaskInUnion(slots, i);
    }
  }

  /** A running count is the totals of what was folded, and no slot was folded twice. */
  ghost predicate Tracks(c: Count, slots: seq<SlotOutput>)
  {
    Disjoint(slots) && c == TotalsOf(slots)
  }

  lemma NothingTracks()
    ensures Tracks(Count(0, {}), [])
  {
  }

  lemma {:induction false} FoldTracks(start: Count, before: seq<SlotOutput>, slots: seq<SlotOutput>, proofs: seq<Proof>,
                                      agreed: Agreed, chain: Chain)
    requires |slots| == |proofs| && FoldSlots(start, slots, proofs, agreed, chain).Some? && Tracks(start, before)
    ensures Tracks(FoldSlots(start, slots, proofs, agreed, chain).value, before + slots)
    decreases |slots|
  {
    hide Tracks;
    if slots == [] {
      assert before + slots == before;
    } else {
      var n := |slots| - 1;
      FoldTracks(start, before, slots[..n], proofs[..n], agreed, chain);
      ConcatLast(before, slots);
      TracksOne(FoldSlots(start, slots[..n], proofs[..n], agreed, chain).value, before + slots[..n], slots[n]);
    }
  }

  lemma TracksOne(c: Count, slots: seq<SlotOutput>, last: SlotOutput)
    requires Tracks(c, slots) && c.mask * last.mask == {}
    ensures Tracks(Count(WrappingAdd(c.balance, last.balance), c.mask + last.mask), slots + [last])
  {
    TotalsAppend(slots, last);
    DisjointAppend(slots, last);
  }

  /** Only the justification guest's runs verify under its key. */
  lemma VerifiedJustification(p: Proof, o: JustificationOutput, chain: Chain)
    requires VerifyChild(p, JustificationVk, JustificationPublics(o), chain)
    ensures p.JustificationRun? && JustificationOf(p.justification, chain) == Some(o)
  {
  }

  /** What any published link says about its witness. */
  lemma JustificationFields(w: JustificationWitness, chain: Chain)
    requires JustificationOf(w, chain).Some?
    ensures
      var o := JustificationOf(w, chain).value;
      && o.programVk == w.programVk && o.accumulatorCommitment == w.accumulatorCommitment && o.link == w.link
      && Commitment(w.accRoot, w.total) == w.accumulatorCommitment
      && o.justified == TwoThirds(o.balance, w.total)
  {
  }

  /** A published count is a fold from where the link starts. */
  lemma LinkFolds(w: JustificationWitness, chain: Chain)
    requires JustificationOf(w, chain).Some?
    ensures |w.slotOutputs| == |w.slotProofs| && JustificationRoot(w, chain).Some? && JustificationStart(w, chain).Some?
    ensures
      var o := JustificationOf(w, chain).value;
      var agreed := Agreed(w.accumulatorCommitment, JustificationRoot(w, chain).value, w.link);
      FoldSlots(JustificationStart(w, chain).value, w.slotOutputs, w.slotProofs, agreed, chain)
      == Some(Count(o.balance, o.mask))
    ensures w.previous.None? ==> JustificationStart(w, chain) == Some(Count(0, {}))
  {
    hide FoldSlots, CommitteeLink, VerifyChild;
  }

  /** A later link starts at what a run of the same program published. */
  lemma LinkStarts(w: JustificationWitness, chain: Chain)
    requires JustificationOf(w, chain).Some? && w.programVk == JustificationVk && w.previous.Some?
    ensures w.previousProof.JustificationRun?
    ensures
      var below := w.previousProof.justification;
      && JustificationOf(below, chain) == w.previous && below.programVk == JustificationVk
      && JustificationStart(w, chain) == Some(Count(w.previous.value.balance, w.previous.value.mask))
  {
    hide FoldSlots, CommitteeLink;
    VerifiedJustification(w.previousProof, w.previous.value, chain);
    JustificationFields(w.previousProof.justification, chain);
  }

  /** Chain totals: over any chain of folds the mask is the disjoint union of the folded masks
      and the balance their wrapped sum, however they were batched. */
  lemma {:induction false} ChainIsTotals(w: JustificationWitness, chain: Chain)
    requires JustificationOf(w, chain).Some? && w.programVk == JustificationVk
    ensures
      var o := JustificationOf(w, chain).value;
      Tracks(Count(o.balance, o.mask), ChainSlots(w))
    decreases w
  {
    hide JustificationOf, JustificationStart, JustificationRoot, FoldSlots, Tracks;
    var before: seq<SlotOutput> := [];
    LinkFolds(w, chain);
    if w.previous.Some? {
      LinkStarts(w, chain);
      before := ChainSlots(w.previousProof.justification);
      ChainIsTotals(w.previousProof.justification, chain);
    } else {
      NothingTracks();
      assert before + w.slotOutputs == w.slotOutputs;
    }
    FoldTracks(JustificationStart(w, chain).value, before, w.slotOutputs, w.slotProofs,
               Agreed(w.accumulatorCommitment, JustificationRoot(w, chain).value, w.link), chain);
  }

  /** Order and batching are immaterial: two chains over the same slot proofs, in any order and
      cut anyhow, publish the same balance and mask. */
  lemma ChainsAgree(v: JustificationWitness, w: JustificationWitness, chain: Chain)
    requires JustificationOf(v, chain).Some? && v.programVk == JustificationVk
    requires JustificationOf(w, chain).Some? && w.programVk == JustificationVk
    requires multiset(CountsOf(ChainSlots(v))) == multiset(CountsOf(ChainSlots(w)))
    ensures JustificationOf(v, chain).value.balance == JustificationOf(w, chain).value.balance
    ensures JustificationOf(v, chain).value.mask == JustificationOf(w, chain).value.mask
  {
    ChainIsTotals(v, chain);
    ChainIsTotals(w, chain);
    SameTotals(ChainSlots(v), ChainSlots(w));
  }

  lemma CountsSwap()
    ensures Swaps(AddCount)
  {
    forall a: Count, b: Count, c: Count ensures AddCount(AddCount(a, b), c) == AddCount(AddCount(a, c), b) {
      WrappingSwaps(a.balance, b.balance, c.balance);
      assert a.mask + b.mask + c.mask == a.mask + c.mask + b.mask;
    }
  }

  lemma SameTotals(a: seq<SlotOutput>, b: seq<SlotOutput>)
    requires multiset(CountsOf(a)) == multiset(CountsOf(b))
    ensures TotalsOf(a) == TotalsOf(b)
  {
    CountsSwap();
    FoldPermutes(AddCount, Count(0, {}), CountsOf(a), CountsOf(b));
  }

  // ---- who signed ---------------------------------------------------------------------------

  /** Every signature below a justification is made of the given votes. */
  ghost predicate JustificationVotes(p: Proof, votes: set<Vote>)
    decreases p
  {
    p.JustificationRun? ==>
      AllLeafVotes(p.justification.slotProofs, votes) && JustificationVotes(p.justification.previousProof, votes)
  }

  /** A count whose signatures have been settled. */
  ghost predicate Settled(c: Count, miller: Fp12, e: Epoch)
  {
    Sound(Attested(c.balance, c.mask, miller), e) && FinalExpIsOne(miller)
  }

  lemma SlotIsSettled(slot: SlotOutput, proof: Proof, agreed: Agreed, chain: Chain, e: Epoch) returns (miller: Fp12)
    requires SlotBound(slot, proof, agreed, chain) && LeafVotes(proof, e.votes) && Counts(agreed, e, chain.accDepth)
    ensures Settled(Count(slot.balance, slot.mask), miller, e)
  {
    AttestIsSound(proof.slot, e, chain.accDepth);
    miller := Attest(proof.slot, chain.accDepth).value.miller;
  }

  lemma FoldOneSettled(c: Count, settled: Fp12, slot: SlotOutput, proof: Proof, agreed: Agreed, chain: Chain, e: Epoch)
    returns (miller: Fp12)
    requires FoldSlot(c, slot, proof, agreed, chain).Some? && Settled(c, settled, e)
    requires LeafVotes(proof, e.votes) && Counts(agreed, e, chain.accDepth)
    ensures Settled(FoldSlot(c, slot, proof, agreed, chain).value, miller, e)
    ensures c.balance <= FoldSlot(c, slot, proof, agreed, chain).value.balance
  {
    var more := SlotIsSettled(slot, proof, agreed, chain, e);
    miller := Fp12Mul(settled, more);
    SettledAdd(c, settled, Count(slot.balance, slot.mask), more, e, FoldSlot(c, slot, proof, agreed, chain).value);
  }

  lemma SettledAdd(a: Count, f: Fp12, b: Count, g: Fp12, e: Epoch, sum: Count)
    requires Settled(a, f, e) && Settled(b, g, e) && a.mask * b.mask == {} && Partition(e.committees, e.leaves)
    requires sum == Count(WrappingAdd(a.balance, b.balance), a.mask + b.mask)
    ensures Settled(sum, Fp12Mul(f, g), e) && a.balance <= sum.balance
  {
    SoundCountsAdd(Attested(a.balance, a.mask, f), Attested(b.balance, b.mask, g), e);
  }

  lemma {:induction false} FoldSettled(start: Count, settled: Fp12, slots: seq<SlotOutput>, proofs: seq<Proof>,
                                       agreed: Agreed, chain: Chain, e: Epoch) returns (miller: Fp12)
    requires |slots| == |proofs| && FoldSlots(start, slots, proofs, agreed, chain).Some? && Settled(start, settled, e)
    requires AllLeafVotes(proofs, e.votes) && Counts(agreed, e, chain.accDepth)
    ensures Settled(FoldSlots(start, slots, proofs, agreed, chain).value, miller, e)
    ensures start.balance <= FoldSlots(start, slots, proofs, agreed, chain).value.balance
    decreases |slots|
  {
    hide Settled, Counts, FoldSlot, LeafVotes;
    if slots == [] {
      miller := settled;
    } else {
      var n := |slots| - 1;
      var before := FoldSettled(start, settled, slots[..n], proofs[..n], agreed, chain, e);
      miller := FoldOneSettled(FoldSlots(start, slots[..n], proofs[..n], agreed, chain).value, before,
                               slots[n], proofs[n], agreed, chain, e);
    }
  }

  /** The count a justification publishes is settled, in the epoch of its committee proof. */
  ghost predicate JustificationSettled(o: JustificationOutput, miller: Fp12, e: Epoch, depth: nat)
  {
    && Counts(Agreed(o.accumulatorCommitment, o.committeeRoot, e.link), e, depth)
    && Settled(Count(o.balance, o.mask), miller, e)
  }

  lemma JustificationStepSettled(w: JustificationWitness, chain: Chain, e: Epoch, settled: Fp12) returns (miller: Fp12)
    requires JustificationOf(w, chain).Some? && AllLeafVotes(w.slotProofs, e.votes)
    requires Settled(JustificationStart(w, chain).value, settled, e)
    requires Counts(Agreed(w.accumulatorCommitment, JustificationRoot(w, chain).value, w.link), e, chain.accDepth)
    ensures JustificationSettled(JustificationOf(w, chain).value, miller, e, chain.accDepth)
    ensures JustificationStart(w, chain).value.balance <= JustificationOf(w, chain).value.balance
  {
    var agreed := Agreed(w.accumulatorCommitment, JustificationRoot(w, chain).value, w.link);
    miller := FoldSettled(JustificationStart(w, chain).value, settled, w.slotOutputs, w.slotProofs, agreed, chain, e);
  }

  /** Every link of a chain under the guest's own key counts settled votes, and counts no less
      than the link before it. */
  lemma {:induction false} ChainIsSettled(w: JustificationWitness, chain: Chain, leaves: seq<Digest>, votes: set<Vote>)
    returns (committees: seq<Digest>, miller: Fp12)
    requires JustificationOf(w, chain).Some? && w.programVk == JustificationVk
    requires JustificationVotes(JustificationRun(w), votes)
    requires Commits(w.accumulatorCommitment, leaves, chain.accDepth) && Registry(leaves)
    ensures
      var e := Epoch(leaves, committees, w.link, votes);
      JustificationSettled(JustificationOf(w, chain).value, miller, e, chain.accDepth)
    ensures JustificationStart(w, chain).value.balance <= JustificationOf(w, chain).value.balance
    decreases w
  {
    var settled := FP12_ONE;
    match w.previous {
      case None =>
        committees := CommitteeLinkPartitions(w.committee, w.committeeProof, w.accumulatorCommitment,
                                              w.link.target.epoch, chain, leaves);
        NothingCountedIsSound(Epoch(leaves, committees, w.link, votes));
      case Some(p) =>
        VerifiedJustification(w.previousProof, p, chain);
        JustificationFields(w.previousProof.justification, chain);
        committees, settled := ChainIsSettled(w.previousProof.justification, chain, leaves, votes);
    }
    miller := JustificationStepSettled(w, chain, Epoch(leaves, committees, w.link, votes), settled);
  }

  /** Once a chain is justified every later link is: the flag never turns off. */
  lemma FlagStaysOn(w: JustificationWitness, chain: Chain, leaves: seq<Digest>, votes: set<Vote>)
    requires JustificationOf(w, chain).Some? && w.programVk == JustificationVk
    requires JustificationVotes(JustificationRun(w), votes)
    requires Commits(w.accumulatorCommitment, leaves, chain.accDepth) && Registry(leaves)
    requires w.previous.Some? && w.previous.value.justified
    ensures JustificationOf(w, chain).value.justified
  {
    var committees, miller := ChainIsSettled(w, chain, leaves, votes);
    VerifiedJustification(w.previousProof, w.previous.value, chain);
    JustificationFields(w.previousProof.justification, chain);
    JustificationFields(w, chain);
  }

  /** A set flag means two thirds: distinct validators holding two thirds of the committed total
      each voted for the link; and a clear flag means the counted balance is below that. */
  lemma JustifiedMeansTwoThirds(w: JustificationWitness, chain: Chain, leaves: seq<Digest>, votes: set<Vote>)
    returns (signers: set<nat>)
    requires JustificationOf(w, chain).Some? && w.programVk == JustificationVk
    requires JustificationVotes(JustificationRun(w), votes)
    requires Commits(w.accumulatorCommitment, leaves, chain.accDepth) && Registry(leaves)
    ensures forall v :: v in signers ==> VotedFor(v, w.link, votes)
    ensures JustificationOf(w, chain).value.balance <= SumOver(signers, Balances(leaves))
    ensures JustificationOf(w, chain).value.justified <==> 3 * JustificationOf(w, chain).value.balance >= 2 * Total(leaves)
  {
    var committees, miller := ChainIsSettled(w, chain, leaves, votes);
    var o := JustificationOf(w, chain).value;
    JustificationFields(w, chain);
    var e := Epoch(leaves, committees, w.link, votes);
    signers := SettledCount(Attested(o.balance, o.mask, miller), e);
    forall v | v in signers ensures VotedFor(v, w.link, votes) {
      assert Voted(v, e);
    }
  }

  // ---- quorum intersection ------------------------------------------------------------------

  /** Two sets of two thirds share a third. */
  lemma QuorumsIntersect(a: set<nat>, b: set<nat>, leaves: seq<Digest>)
    requires 3 * SumOver(a, Balances(leaves)) >= 2 * Total(leaves)
    requires 3 * SumOver(b, Balances(leaves)) >= 2 * Total(leaves)
    ensures 3 * SumOver(a * b, Balances(leaves)) >= Total(leaves)
  {
    var bal := Balances(leaves);
    SumDisjoint<nat>(a * b, a - b, bal);
    assert (a * b) + (a - b) == a;
    SumDisjoint<nat>(a - b, b, bal);
    PartOfTotal(leaves, (a - b) + b);
  }

  /** Two justifications of one accumulator and one target epoch with different target roots:
      validators holding a third of the total voted for both links. */
  lemma ConflictMeansThird(v: JustificationWitness, w: JustificationWitness, chain: Chain, leaves: seq<Digest>,
                           votes: set<Vote>) returns (both: set<nat>)
    requires JustificationOf(v, chain).Some? && v.programVk == JustificationVk && JustificationOf(v, chain).value.justified
    requires JustificationOf(w, chain).Some? && w.programVk == JustificationVk && JustificationOf(w, chain).value.justified
    requires JustificationVotes(JustificationRun(v), votes) && JustificationVotes(JustificationRun(w), votes)
    requires v.accumulatorCommitment == w.accumulatorCommitment
    requires Commits(v.accumulatorCommitment, leaves, chain.accDepth) && Registry(leaves)
    requires v.link.target.epoch == w.link.target.epoch && v.link.target.root != w.link.target.root
    ensures 3 * SumOver(both, Balances(leaves)) >= Total(leaves)
    ensures forall u :: u in both ==> VotedTwice(u, v.link, w.link, votes)
  {
    var a := JustifiedMeansTwoThirds(v, chain, leaves, votes);
    var b := JustifiedMeansTwoThirds(w, chain, leaves, votes);
    both := a * b;
    QuorumsIntersect(a, b, leaves);
    forall u | u in both ensures VotedTwice(u, v.link, w.link, votes) {
      TwoVotes(u, v.link, w.link, votes);
    }
  }

  /** A double vote: two different messages for two different links. */
  ghost predicate VotedTwice(u: nat, a: Link, b: Link, votes: set<Vote>)
  {
    exists m: Bytes32, n: Bytes32 :: m != n && (u, m) in votes && (u, n) in votes && Names(m, a) && Names(n, b)
  }

  lemma TwoVotes(u: nat, a: Link, b: Link, votes: set<Vote>)
    requires VotedFor(u, a, votes) && VotedFor(u, b, votes) && a != b
    ensures VotedTwice(u, a, b, votes)
  {
    var m: Bytes32 :| (u, m) in votes && Names(m, a);
    var n: Bytes32 :| (u, n) in votes && Names(n, b);
    if m == n {
      NamesOne(m, a, b);
    }
  }
}
