/** When each recursive circuit accepts, and what it then publishes, in terms of its children. */
module CircuitsExact {
  import opened Wrappers
  import opened FormalSums
  import opened Ssz
  import opened Bls
  import opened Merkle
  import opened Accumulator
  import opened SlotProof
  import opened Folds
  import opened Committee
  import opened EpochDiff
  import opened Boundary
  import opened Pipeline
  import opened StreamSound
  import opened Containers
  import opened FoldsExact

  // ---- an epoch's first proof ------------------------------------------------------------------------

  /** A run of the committee guest for this accumulator and epoch. */
  ghost predicate CommitteeProved(c: Option<CommitteeOutput>, proof: Proof, accumulator: Digest, epoch: nat, chain: Chain)
  {
    && c.Some? && proof.CommitteeRun? && CommitteeOutputOf(proof.committee, chain.accDepth) == c
    && c.value.accumulatorCommitment == accumulator && c.value.targetEpoch == epoch
  }

  /** A run of the diff guest that ends at this accumulator and epoch, one epoch on. */
  ghost predicate DiffProved(d: Option<EpochDiffOutput>, proof: Proof, accumulator: Digest, epoch: nat, chain: Chain)
  {
    && d.Some? && proof.DiffRun?
    && EpochDiffOutputOf(proof.diff, chain.decompress, chain.sszDepth, chain.accDepth) == d
    && d.value.accumulatorCommitment == accumulator && d.value.epoch2 == epoch
    && (if d.value.epoch1 + 1 < U64 then d.value.epoch1 + 1 else d.value.epoch1 + 1 - U64) == epoch
  }

  lemma CommitteeLinkExact(c: Option<CommitteeOutput>, proof: Proof, accumulator: Digest, epoch: nat, chain: Chain)
    ensures CommitteeLink(c, proof, accumulator, epoch, chain)
         == if CommitteeProved(c, proof, accumulator, epoch, chain) then Some(c.value.committeeRoot) else None
  {
    hide CommitteeOutputOf;
  }

  lemma EpochLinkExact(d: Option<EpochDiffOutput>, proof: Proof, accumulator: Digest, epoch: nat, chain: Chain)
    ensures EpochLink(d, proof, accumulator, epoch, chain)
         == if DiffProved(d, proof, accumulator, epoch, chain) then d else None
  {
    hide EpochDiffOutputOf;
  }

  lemma OpenEpochExact(d: Option<EpochDiffOutput>, diffProof: Proof, c: Option<CommitteeOutput>, committeeProof: Proof,
                       accumulator: Digest, epoch: nat, chain: Chain)
    ensures OpenEpoch(d, diffProof, c, committeeProof, accumulator, epoch, chain)
         == if DiffProved(d, diffProof, accumulator, epoch, chain)
               && CommitteeProved(c, committeeProof, accumulator, epoch, chain)
            then Some(Base(d.value.prevAccumulatorCommitment, d.value.stateRoot1, c.value.committeeRoot)) else None
  {
    hide EpochLink, CommitteeLink, EpochDiffOutputOf, CommitteeOutputOf;
    EpochLinkExact(d, diffProof, accumulator, epoch, chain);
    CommitteeLinkExact(c, committeeProof, accumulator, epoch, chain);
  }

  // ---- aggregates --------------------------------------------------------------------------------------

  /** A run of the aggregation guest, or of whatever program has this key, that published this. */
  ghost predicate AggregateRan(a: AggregateOutput, proof: Proof, vk: ProgramVk, chain: Chain)
  {
    if vk == AggregateVk then proof.AggregateRun? && AggregateOf(proof.aggregate, chain) == Some(a)
    else vk.OtherVk? && proof == ForeignRun(vk.name, AggregatePublics(a))
  }

  /** An aggregate over this accumulator and link, under this key, its commitment opened. */
  ghost predicate AggregateProved(a: AggregateOutput, proof: Proof, miller: Fp12, accumulator: Digest, link: Link,
                                  vk: ProgramVk, chain: Chain)
  {
    && AggregateRan(a, proof, vk, chain) && a.programVk == vk
    && a.accumulatorCommitment == accumulator && a.targetEpoch == link.target.epoch
    && a.checkpointDigest == ContainerRoot([CheckpointRoot(link.source), CheckpointRoot(link.target)], 1)
    && a.millerCommitment == MillerDigest(miller)
  }

  /** What an aggregate counted, as one count. */
  function CountIn(a: AggregateOutput, miller: Fp12): Attested
  {
    Attested(a.balance, a.mask, miller)
  }

  lemma AggregateChildExact(a: AggregateOutput, proof: Proof, miller: Fp12, accumulator: Digest, link: Link,
                            vk: ProgramVk, chain: Chain)
    ensures AggregateProved(a, proof, miller, accumulator, link, vk, chain)
       <==> VerifyChild(proof, vk, AggregatePublics(a), chain) && a.programVk == vk
            && a.accumulatorCommitment == accumulator && a.targetEpoch == link.target.epoch
            && a.checkpointDigest == CheckpointDigest(link) && MillerDigest(miller) == a.millerCommitment
  {
    hide AggregateOf;
    LinkIsContainer(link);
  }

  /** Everything an aggregate counts: its predecessor, and its groups. */
  function AggregateParts(w: AggregateWitness): seq<Attested>
    requires |w.groups| == |w.groupMillers|
  {
    (if w.previous.Some? then [CountIn(w.previous.value, w.previousMiller)] else [])
    + GroupCounts(w.groups, w.groupMillers)
  }

  /** Where an aggregate stands. */
  ghost predicate AggregateStandsOn(w: AggregateWitness, base: Base, chain: Chain)
  {
    match w.previous
    case Some(p) =>
      && AggregateProved(p, w.previousProof, w.previousMiller, w.accumulatorCommitment, w.link, w.programVk, chain)
      && base == Base(p.previousAccumulatorCommitment, p.anchorStateRoot, p.committeeRoot)
    case None =>
      && DiffProved(w.epochDiff, w.epochDiffProof, w.accumulatorCommitment, w.link.target.epoch, chain)
      && CommitteeProved(w.committee, w.committeeProof, w.accumulatorCommitment, w.link.target.epoch, chain)
      && base == Base(w.epochDiff.value.prevAccumulatorCommitment, w.epochDiff.value.stateRoot1,
                      w.committee.value.committeeRoot)
  }

  ghost predicate AggregateTakes(w: AggregateWitness, base: Base, chain: Chain)
  {
    && w.groups != [] && |w.groups| == |w.groupProofs| == |w.groupMillers|
    && AggregateStandsOn(w, base, chain)
    && GroupsStand(w.groups, w.groupProofs, w.groupMillers, Agreed(w.accumulatorCommitment, base.committeeRoot, w.link), chain)
    && MasksApart(AggregateParts(w))
  }

  lemma OneComesTo(t: Attested)
    ensures ComesTo([t], t) && MasksApart([t])
  {
    assert [t][..0] == [];
    assert forall slot: nat :: Counted([t], slot) <==> slot in t.mask by {
      forall slot: nat ensures Counted([t], slot) <==> slot in t.mask {
        if slot in t.mask { assert slot in [t][0].mask; }
      }
    }
  }

  lemma AggregateBaseExact(w: AggregateWitness, chain: Chain)
    ensures AggregateBase(w, chain).Some? && AggregateStart(w, chain).Some? <==> exists base :: AggregateStandsOn(w, base, chain)
    ensures forall base :: AggregateStandsOn(w, base, chain) ==> AggregateBase(w, chain) == Some(base)
    ensures AggregateStart(w, chain).Some? ==>
      AggregateStart(w, chain).value
      == if w.previous.Some? then CountIn(w.previous.value, w.previousMiller) else Attested(0, {}, FP12_ONE)
  {
    hide DiffProved, CommitteeProved, AggregateProved, VerifyChild, OpenEpoch;
    match w.previous {
      case Some(p) =>
        AggregateChildExact(p, w.previousProof, w.previousMiller, w.accumulatorCommitment, w.link, w.programVk, chain);
        if AggregateProved(p, w.previousProof, w.previousMiller, w.accumulatorCommitment, w.link, w.programVk, chain) {
          assert AggregateStandsOn(w, Base(p.previousAccumulatorCommitment, p.anchorStateRoot, p.committeeRoot), chain);
        }
      case None =>
        OpenEpochExact(w.epochDiff, w.epochDiffProof, w.committee, w.committeeProof, w.accumulatorCommitment,
                       w.link.target.epoch, chain);
        if AggregateBase(w, chain).Some? {
          assert AggregateStandsOn(w, AggregateBase(w, chain).value, chain);
        }
    }
  }

  /** What an aggregate that stands on `base` publishes. */
  ghost predicate AggregatePublishes(w: AggregateWitness, base: Base, o: AggregateOutput)
    requires |w.groups| == |w.groupMillers|
  {
    && o.accumulatorCommitment == w.accumulatorCommitment && o.committeeRoot == base.committeeRoot
    && o.previousAccumulatorCommitment == base.previousAccumulator && o.anchorStateRoot == base.anchorStateRoot
    && o.targetEpoch == w.link.target.epoch && o.programVk == w.programVk
    && o.checkpointDigest == ContainerRoot([CheckpointRoot(w.link.source), CheckpointRoot(w.link.target)], 1)
    && exists f: Fp12 :: o.millerCommitment == MillerDigest(f)
         && ComesTo(AggregateParts(w), Attested(o.balance, o.mask, f))
  }

  /** The start of an aggregate's count is what its predecessor counted. */
  lemma AggregateStartComesTo(w: AggregateWitness, chain: Chain)
    requires AggregateStart(w, chain).Some?
    ensures
      var before := if w.previous.Some? then [CountIn(w.previous.value, w.previousMiller)] else [];
      ComesTo(before, AggregateStart(w, chain).value) && MasksApart(before)
  {
    hide VerifyChild, ComesTo, MasksApart;
    NothingComesTo();
    if w.previous.Some? {
      OneComesTo(CountIn(w.previous.value, w.previousMiller));
    }
  }

  lemma AggregateGroupsExact(w: AggregateWitness, base: Base, chain: Chain)
    requires AggregateStart(w, chain).Some?
    requires |w.groups| == |w.groupProofs| == |w.groupMillers|
    ensures
      var agreed := Agreed(w.accumulatorCommitment, base.committeeRoot, w.link);
      var folded := FoldGroups(AggregateStart(w, chain).value, w.groups, w.groupProofs, w.groupMillers, agreed, chain);
      && (folded.Some? <==> GroupsStand(w.groups, w.groupProofs, w.groupMillers, agreed, chain)
                            && MasksApart(AggregateParts(w)))
      && (folded.Some? ==> ComesTo(AggregateParts(w), folded.value))
  {
    hide AggregateStart, FoldGroups, GroupsStand, ComesTo, MasksApart, GroupCounts;
    AggregateStartComesTo(w, chain);
    var before := if w.previous.Some? then [CountIn(w.previous.value, w.previousMiller)] else [];
    GroupsFoldExactly(AggregateStart(w, chain).value, before, w.groups, w.groupProofs, w.groupMillers,
                      Agreed(w.accumulatorCommitment, base.committeeRoot, w.link), chain);
  }

  /** Aggregation, exactly. A fold is accepted if and only if it stands on a predecessor proved under
      its own key, or on a proved diff and committee, of its accumulator and epoch; every group was published by the group guest against those; and no slot is counted twice. It then
      publishes where it stands and what all of them come to. */
  lemma AggregateIsExact(w: AggregateWitness, chain: Chain)
    ensures AggregateOf(w, chain).Some? <==> exists base :: AggregateTakes(w, base, chain)
    ensures forall base :: AggregateTakes(w, base, chain) && AggregateOf(w, chain).Some? ==>
      AggregatePublishes(w, base, AggregateOf(w, chain).value)
  {
    hide AggregateStandsOn, FoldGroups, GroupsStand, ComesTo, MasksApart, AggregateBase, AggregateStart, AggregateParts;
    AggregateBaseExact(w, chain);
    LinkIsContainer(w.link);
    if AggregateBase(w, chain).Some? && AggregateStart(w, chain).Some? && |w.groups| == |w.groupProofs| == |w.groupMillers| {
      AggregateGroupsExact(w, AggregateBase(w, chain).value, chain);
      assert AggregateOf(w, chain).Some? ==> AggregateTakes(w, AggregateBase(w, chain).value, chain);
    }
  }

  // ---- justifications ----------------------------------------------------------------------------------

  /** A run of the justification guest over this accumulator and link. */
  ghost predicate JustificationProved(j: JustificationOutput, proof: Proof, chain: Chain)
  {
    proof.JustificationRun? && JustificationOf(proof.justification, chain) == Some(j) && j.programVk == JustificationVk
  }

  /** A justification output published under this key. */
  ghost predicate JustificationRan(j: JustificationOutput, proof: Proof, vk: ProgramVk, chain: Chain)
  {
    && j.programVk == vk
    && if vk == JustificationVk then proof.JustificationRun? && JustificationOf(proof.justification, chain) == Some(j)
       else vk.OtherVk? && proof == ForeignRun(vk.name, JustificationPublics(j))
  }

  lemma JustificationRanExact(j: JustificationOutput, proof: Proof, vk: ProgramVk, chain: Chain)
    ensures JustificationRan(j, proof, vk, chain)
       <==> VerifyChild(proof, vk, JustificationPublics(j), chain) && j.programVk == vk
  {
    hide JustificationOf;
  }

  lemma JustificationChildExact(j: JustificationOutput, proof: Proof, chain: Chain)
    ensures JustificationProved(j, proof, chain)
       <==> VerifyChild(proof, JustificationVk, JustificationPublics(j), chain) && j.programVk == JustificationVk
  {
    hide JustificationOf;
  }

  /** Everything a justification counts: its predecessor, and its slot proofs. */
  function JustificationParts(w: JustificationWitness): seq<Attested>
  {
    (if w.previous.Some? then [Plain(Count(w.previous.value.balance, w.previous.value.mask))] else [])
    + SlotCounts(w.slotOutputs)
  }

  ghost predicate JustificationStandsOn(w: JustificationWitness, root: Digest, chain: Chain)
  {
    match w.previous
    case Some(p) =>
      && JustificationRan(p, w.previousProof, w.programVk, chain)
      && p.accumulatorCommitment == w.accumulatorCommitment && p.link == w.link && root == p.committeeRoot
    case None =>
      && CommitteeProved(w.committee, w.committeeProof, w.accumulatorCommitment, w.link.target.epoch, chain)
      && root == w.committee.value.committeeRoot
  }

  ghost predicate JustificationTakes(w: JustificationWitness, root: Digest, chain: Chain)
  {
    && w.slotOutputs != [] && |w.slotOutputs| == |w.slotProofs|
    && w.accumulatorCommitment == Commitment(w.accRoot, w.total)
    && JustificationStandsOn(w, root, chain)
    && SlotsStand(w.slotOutputs, w.slotProofs, Agreed(w.accumulatorCommitment, root, w.link), chain)
    && MasksApart(JustificationParts(w))
  }

  ghost predicate JustificationPublishes(w: JustificationWitness, root: Digest, o: JustificationOutput)
  {
    && o.accumulatorCommitment == w.accumulatorCommitment && o.committeeRoot == root && o.link == w.link
    && o.programVk == w.programVk && ComesTo(JustificationParts(w), Plain(Count(o.balance, o.mask)))
    && (o.justified <==> 3 * (BalanceTotal(JustificationParts(w)) % U64) >= 2 * w.total)
  }

  lemma JustificationBaseExact(w: JustificationWitness, chain: Chain)
    ensures JustificationRoot(w, chain).Some? && JustificationStart(w, chain).Some?
       <==> exists root :: JustificationStandsOn(w, root, chain)
    ensures forall root :: JustificationStandsOn(w, root, chain) ==> JustificationRoot(w, chain) == Some(root)
    ensures JustificationStart(w, chain).Some? ==>
      JustificationStart(w, chain).value
      == if w.previous.Some? then Count(w.previous.value.balance, w.previous.value.mask) else Count(0, {})
  {
    hide CommitteeProved, JustificationRan, VerifyChild, CommitteeLink;
    match w.previous {
      case Some(p) =>
        JustificationRanExact(p, w.previousProof, w.programVk, chain);
        if JustificationRan(p, w.previousProof, w.programVk, chain) && p.accumulatorCommitment == w.accumulatorCommitment
           && p.link == w.link {
          assert JustificationStandsOn(w, p.committeeRoot, chain);
        }
      case None =>
        CommitteeLinkExact(w.committee, w.committeeProof, w.accumulatorCommitment, w.link.target.epoch, chain);
        if JustificationRoot(w, chain).Some? {
          assert JustificationStandsOn(w, JustificationRoot(w, chain).value, chain);
        }
    }
  }

  lemma JustificationSlotsExact(w: JustificationWitness, root: Digest, chain: Chain)
    requires JustificationStart(w, chain).Some? && |w.slotOutputs| == |w.slotProofs|
    ensures
      var agreed := Agreed(w.accumulatorCommitment, root, w.link);
      var folded := FoldSlots(JustificationStart(w, chain).value, w.slotOutputs, w.slotProofs, agreed, chain);
      && (folded.Some? <==> SlotsStand(w.slotOutputs, w.slotProofs, agreed, chain) && MasksApart(JustificationParts(w)))
      && (folded.Some? ==> ComesTo(JustificationParts(w), Plain(folded.value)))
  {
    hide JustificationStart, FoldSlots, SlotsStand, ComesTo, MasksApart, SlotCounts;
    JustificationBaseExact(w, chain);
    var start := JustificationStart(w, chain).value;
    var before := if w.previous.Some? then [Plain(start)] else [];
    NothingComesTo();
    OneComesTo(Plain(start));
    SlotsFoldExactly(start, before, w.slotOutputs, w.slotProofs, Agreed(w.accumulatorCommitment, root, w.link), chain);
  }

  lemma ThresholdIsTotal(parts: seq<Attested>, c: Count, total: nat)
    requires ComesTo(parts, Plain(c))
    ensures TwoThirds(c.balance, total) <==> 3 * (BalanceTotal(parts) % U64) >= 2 * total
  {
  }

  /** Justification, exactly. A link of the chain is accepted if and only if its commitment opens; it
      stands on a predecessor of its accumulator and vote proved under its own key, or on a proved
      committee; every slot proof was published by the slot guest against those; and no slot
      is counted twice. It publishes what all of them come to, and is justified exactly when three
      times that is at least twice the total. */
  lemma JustificationIsExact(w: JustificationWitness, chain: Chain)
    ensures JustificationOf(w, chain).Some? <==> exists root :: JustificationTakes(w, root, chain)
    ensures forall root :: JustificationTakes(w, root, chain) && JustificationOf(w, chain).Some? ==>
      JustificationPublishes(w, root, JustificationOf(w, chain).value)
  {
    hide JustificationStandsOn, FoldSlots, SlotsStand, ComesTo, MasksApart, JustificationRoot, JustificationStart;
    hide JustificationParts, TwoThirds, BalanceTotal;
    JustificationBaseExact(w, chain);
    if JustificationRoot(w, chain).Some? && JustificationStart(w, chain).Some? && |w.slotOutputs| == |w.slotProofs| {
      var root := JustificationRoot(w, chain).value;
      JustificationSlotsExact(w, root, chain);
      var folded := FoldSlots(JustificationStart(w, chain).value, w.slotOutputs, w.slotProofs,
                              Agreed(w.accumulatorCommitment, root, w.link), chain);
      if folded.Some? {
        ThresholdIsTotal(JustificationParts(w), folded.value, w.total);
      }
      assert JustificationOf(w, chain).Some? ==> JustificationTakes(w, root, chain);
    }
  }

  // ---- the final proof ---------------------------------------------------------------------------------

  /** The previous epoch's justification was proved, by either guest, and is one. */
  ghost predicate PredecessorProved(previous: PreviousJustification, proof: Proof, streamVk: ProgramVk, chain: Chain)
  {
    match previous
    case Batch(b) => b.justified && JustificationProved(b, proof, chain)
    case Stream(s) => s.programVk == streamVk && VerifyChild(proof, streamVk, StreamFinalPublics(s), chain)
  }

  /** Where a final proof stands. */
  ghost predicate FinalStandsOn(w: StreamFinalWitness, base: Base, chain: Chain)
  {
    match w.aggregate
    case Some(a) =>
      && AggregateProved(a, w.aggregateProof, w.aggregateMiller, w.accumulatorCommitment, FinalLink(w), AggregateVk, chain)
      && base == Base(a.previousAccumulatorCommitment, a.anchorStateRoot, a.committeeRoot)
    case None =>
      && DiffProved(w.epochDiff, w.epochDiffProof, w.accumulatorCommitment, w.target.epoch, chain)
      && CommitteeProved(w.committee, w.committeeProof, w.accumulatorCommitment, w.target.epoch, chain)
      && base == Base(w.epochDiff.value.prevAccumulatorCommitment, w.epochDiff.value.stateRoot1,
                      w.committee.value.committeeRoot)
  }

  /** The inline tail, verified. */
  function TailAttested(w: StreamFinalWitness, root: Digest, chain: Chain): Option<Attested>
  {
    AttestedBy(w.tail, Openings(w.accRoot, w.tailAccAux, root, w.tailCommitteeAux), Claim(FinalLink(w), w.domain),
               chain.accDepth)
  }

  /** Everything a final proof counts: the aggregate, the late groups, the tail. */
  function FinalParts(w: StreamFinalWitness, root: Digest, chain: Chain): seq<Attested>
    requires |w.groups| == |w.groupMillers|
  {
    var tail := TailAttested(w, root, chain);
    (if w.aggregate.Some? then [CountIn(w.aggregate.value, w.aggregateMiller)] else [])
    + GroupCounts(w.groups, w.groupMillers) + (if w.tail != [] && tail.Some? then [tail.value] else [])
  }

  /** The count of an epoch is taken: every part was verified, and no slot is counted twice. */
  ghost predicate FinalTakes(w: StreamFinalWitness, base: Base, chain: Chain)
  {
    && |w.groups| == |w.groupProofs| == |w.groupMillers|
    && FinalStandsOn(w, base, chain)
    && GroupsStand(w.groups, w.groupProofs, w.groupMillers,
                   Agreed(w.accumulatorCommitment, base.committeeRoot, FinalLink(w)), chain)
    && (w.tail != [] ==> TailAttested(w, base.committeeRoot, chain).Some?)
    && MasksApart(FinalParts(w, base.committeeRoot, chain))
  }

  lemma FinalBaseExact(w: StreamFinalWitness, chain: Chain)
    ensures FinalBase(w, chain).Some? && FinalStart(w, chain).Some? <==> exists base :: FinalStandsOn(w, base, chain)
    ensures forall base :: FinalStandsOn(w, base, chain) ==> FinalBase(w, chain) == Some(base)
    ensures FinalStart(w, chain).Some? ==>
      FinalStart(w, chain).value
      == if w.aggregate.Some? then CountIn(w.aggregate.value, w.aggregateMiller) else Attested(0, {}, FP12_ONE)
  {
    hide DiffProved, CommitteeProved, AggregateProved, VerifyChild, OpenEpoch;
    match w.aggregate {
      case Some(a) =>
        AggregateChildExact(a, w.aggregateProof, w.aggregateMiller, w.accumulatorCommitment, FinalLink(w), AggregateVk, chain);
        if AggregateProved(a, w.aggregateProof, w.aggregateMiller, w.accumulatorCommitment, FinalLink(w), AggregateVk, chain) {
          assert FinalStandsOn(w, Base(a.previousAccumulatorCommitment, a.anchorStateRoot, a.committeeRoot), chain);
        }
      case None =>
        OpenEpochExact(w.epochDiff, w.epochDiffProof, w.committee, w.committeeProof, w.accumulatorCommitment,
                       w.target.epoch, chain);
        if FinalBase(w, chain).Some? {
          assert FinalStandsOn(w, FinalBase(w, chain).value, chain);
        }
    }
  }

  /** The tail, added to a count that comes to `before`. */
  lemma TailAddsExactly(t: Attested, before: seq<Attested>, w: StreamFinalWitness, root: Digest, chain: Chain)
    requires ComesTo(before, t) && MasksApart(before)
    ensures
      var tail := TailAttested(w, root, chain);
      var parts := before + (if w.tail != [] && tail.Some? then [tail.value] else []);
      && (AddTail(t, w, root, chain).Some? <==> (w.tail != [] ==> tail.Some?) && MasksApart(parts))
      && (AddTail(t, w, root, chain).Some? ==> ComesTo(parts, AddTail(t, w, root, chain).value))
  {
    hide ComesTo, MasksApart, AttestedBy;
    var tail := TailAttested(w, root, chain);
    if w.tail == [] {
      assert before + [] == before;
    } else if tail.Some? {
      OneMoreApart(before, t, tail.value);
      OneMoreComesTo(before, t, tail.value);
    }
  }

  lemma ApartFront(a: seq<Attested>, b: seq<Attested>)
    ensures MasksApart(a + b) ==> MasksApart(a)
  {
    if MasksApart(a + b) {
      ApartPrefix(a + b, |a|);
      assert (a + b)[..|a|] == a;
    }
  }

  lemma FinalCountExact(w: StreamFinalWitness, base: Base, chain: Chain)
    requires FinalStandsOn(w, base, chain)
    ensures FinalCount(w, base, chain).Some? <==> FinalTakes(w, base, chain)
    ensures FinalCount(w, base, chain).Some? ==> |w.groups| == |w.groupMillers|
    ensures FinalCount(w, base, chain).Some? ==>
      ComesTo(FinalParts(w, base.committeeRoot, chain), FinalCount(w, base, chain).value)
  {
    hide FinalStandsOn, FinalBase, FinalStart, FoldGroups, AddTail, TailAttested, GroupsStand, ComesTo, MasksApart, GroupCounts;
    FinalBaseExact(w, chain);
    if |w.groups| == |w.groupProofs| == |w.groupMillers| {
      var start := FinalStart(w, chain).value;
      var before := if w.aggregate.Some? then [start] else [];
      var agreed := Agreed(w.accumulatorCommitment, base.committeeRoot, FinalLink(w));
      NothingComesTo();
      OneComesTo(start);
      GroupsFoldExactly(start, before, w.groups, w.groupProofs, w.groupMillers, agreed, chain);
      var folded := FoldGroups(start, w.groups, w.groupProofs, w.groupMillers, agreed, chain);
      var tail := TailAttested(w, base.committeeRoot, chain);
      ApartFront(before + GroupCounts(w.groups, w.groupMillers), if w.tail != [] && tail.Some? then [tail.value] else []);
      if folded.Some? {
        TailAddsExactly(folded.value, before + GroupCounts(w.groups, w.groupMillers), w, base.committeeRoot, chain);
      }
    }
  }

  lemma PredecessorExact(w: StreamFinalWitness, chain: Chain)
    ensures PreviousHolds(w, chain) <==> PredecessorProved(w.previousJustification, w.previousProof, w.streamVk, chain)
  {
    hide VerifyChild, JustificationOf;
    if w.previousJustification.Batch? {
      JustificationChildExact(w.previousJustification.batch, w.previousProof, chain);
    }
  }

  /** One epoch on, as a word counts. */
  predicate OneOn(before: nat, after: nat)
  {
    after == if before + 1 < U64 then before + 1 else before + 1 - U64
  }

  /** The vote: every vote paired as often as signed, and two thirds of the total behind it. */
  ghost predicate VoteCarries(parts: seq<Attested>, total: nat)
  {
    VotesSettle(parts) && 3 * (BalanceTotal(parts) % U64) >= 2 * total
  }

  /** What ties an epoch to the one before: its proved justification, one epoch earlier, over the
      accumulator this one's diff starts from, and the boundary between them. */
  ghost predicate FollowsOn(w: StreamFinalWitness, base: Base, chain: Chain)
  {
    var previous := w.previousJustification;
    && PredecessorProved(previous, w.previousProof, w.streamVk, chain)
    && OneOn(previous.Target().epoch, w.target.epoch)
    && previous.AccumulatorCommitment() == base.previousAccumulator
    && OpensBoundary(w.boundary, previous.Target().epoch, previous.Target().root, w.target.root, base.anchorStateRoot,
                     chain.slotsPerEpoch)
  }

  ghost predicate FinalAccepts(w: StreamFinalWitness, base: Base, chain: Chain)
  {
    && w.accumulatorCommitment == Commitment(w.accRoot, w.total)
    && FinalTakes(w, base, chain) && VoteCarries(FinalParts(w, base.committeeRoot, chain), w.total)
    && FollowsOn(w, base, chain)
  }

  function FinalPublished(w: StreamFinalWitness, base: Base): StreamFinalOutput
  {
    StreamFinalOutput(base.previousAccumulator, w.accumulatorCommitment, w.previousJustification.Target(),
                      base.anchorStateRoot, w.target, w.streamVk)
  }

  lemma CarriesIsChecked(parts: seq<Attested>, t: Attested, total: nat)
    requires ComesTo(parts, t)
    ensures VoteCarries(parts, total) <==> FinalExpIsOne(t.miller) && TwoThirds(t.balance, total)
  {
    SettledWhenVotesSettle(parts, t);
    hide VotesSettle, BalanceTotal;
  }

  lemma FollowsIsChecked(w: StreamFinalWitness, base: Base, chain: Chain)
    ensures FollowsOn(w, base, chain)
       <==> PreviousHolds(w, chain) && WrappingAdd(w.previousJustification.Target().epoch, 1) == w.target.epoch
            && w.previousJustification.AccumulatorCommitment() == base.previousAccumulator
            && OpensBoundary(w.boundary, w.previousJustification.Target().epoch, w.previousJustification.Target().root,
                             w.target.root, base.anchorStateRoot, chain.slotsPerEpoch)
  {
    hide PreviousHolds, PredecessorProved, OpensBoundary;
    PredecessorExact(w, chain);
  }

  lemma FinalUnfolds(w: StreamFinalWitness, base: Base, chain: Chain)
    requires FinalBase(w, chain) == Some(base) && FinalCount(w, base, chain).Some?
    ensures
      var t := FinalCount(w, base, chain).value;
      StreamFinalOf(w, chain)
      == if w.accumulatorCommitment == Commitment(w.accRoot, w.total) && FinalExpIsOne(t.miller) && TwoThirds(t.balance, w.total)
            && PreviousHolds(w, chain) && WrappingAdd(w.previousJustification.Target().epoch, 1) == w.target.epoch
            && w.previousJustification.AccumulatorCommitment() == base.previousAccumulator
            && OpensBoundary(w.boundary, w.previousJustification.Target().epoch, w.previousJustification.Target().root,
                             w.target.root, base.anchorStateRoot, chain.slotsPerEpoch)
         then Some(FinalPublished(w, base)) else None
  {
    hide FinalBase, FinalCount, PreviousHolds, OpensBoundary, TwoThirds, FinalExpIsOne;
  }

  lemma FinalNeedsCount(w: StreamFinalWitness, base: Base, chain: Chain)
    requires FinalBase(w, chain) == Some(base) && FinalCount(w, base, chain).None?
    ensures StreamFinalOf(w, chain).None?
  {
    hide FinalBase, FinalCount, PreviousHolds, OpensBoundary;
  }

  lemma FinalOnBase(w: StreamFinalWitness, base: Base, chain: Chain)
    requires FinalStandsOn(w, base, chain)
    ensures StreamFinalOf(w, chain) == if FinalAccepts(w, base, chain) then Some(FinalPublished(w, base)) else None
  {
    hide FinalStandsOn, FinalCount, FinalTakes, ComesTo, PreviousHolds, OpensBoundary, FollowsOn, VoteCarries, FinalParts;
    hide StreamFinalOf, FinalBase, FinalStart, TwoThirds, FinalExpIsOne;
    FinalBaseExact(w, chain);
    FinalCountExact(w, base, chain);
    if FinalCount(w, base, chain).None? {
      FinalNeedsCount(w, base, chain);
    } else {
      FinalUnfolds(w, base, chain);
      CarriesIsChecked(FinalParts(w, base.committeeRoot, chain), FinalCount(w, base, chain).value, w.total);
      FollowsIsChecked(w, base, chain);
    }
  }

  /** The final proof, exactly. It is accepted if and only if its commitment opens; it stands on a
      proved aggregate, or on a proved diff and committee, of its accumulator, epoch and link; every
      group and the tail were verified against those, no slot counted twice; every vote is paired as
      often as it was signed, and three times the counted balance is at least twice the total; and it
      follows on from a proved justification of the epoch before. It publishes those two checkpoints
      and accumulators. */
  lemma FinalIsExact(w: StreamFinalWitness, chain: Chain)
    ensures StreamFinalOf(w, chain).Some? <==> exists base :: FinalAccepts(w, base, chain)
    ensures forall base :: FinalAccepts(w, base, chain) ==> StreamFinalOf(w, chain) == Some(FinalPublished(w, base))
  {
    hide FinalStandsOn, FollowsOn, VoteCarries, GroupsStand, MasksApart, FinalParts, TailAttested;
    forall base | FinalAccepts(w, base, chain) ensures StreamFinalOf(w, chain) == Some(FinalPublished(w, base)) {
      FinalOnBase(w, base, chain);
    }
    if StreamFinalOf(w, chain).Some? {
      FinalHasBase(w, chain);
      FinalBaseExact(w, chain);
      var base := FinalBase(w, chain).value;
      FinalOnBase(w, base, chain);
      assert FinalAccepts(w, base, chain);
    }
  }

  lemma FinalHasBase(w: StreamFinalWitness, chain: Chain)
    requires StreamFinalOf(w, chain).Some?
    ensures FinalBase(w, chain).Some? && FinalStart(w, chain).Some?
  {
    hide FinalBase, FinalStart, FoldGroups, AddTail, OpensBoundary, PreviousHolds;
  }
}
