/** The recursive circuits of an epoch: folds, the final proof, and the justification chain. A
    proof is modelled by the run it attests to: a program together with its witness. */
module Pipeline {
  import opened Wrappers
  import opened FormalSums
  import opened Ssz
  import opened Bls
  import opened Accumulator
  import opened SlotProof
  import opened Committee
  import opened EpochDiff
  import opened Boundary

  /** The guests of this pipeline, and every other program a prover might write. */
  datatype ProgramVk =
    | GroupVk | SlotVk | CommitteeVk | DiffVk | AggregateVk | JustificationVk | StreamFinalVk | OtherVk(name: nat)

  datatype Publics =
    | GroupPublics(group: GroupOutput)
    | SlotPublics(slot: SlotOutput)
    | CommitteePublics(committee: CommitteeOutput)
    | DiffPublics(diff: EpochDiffOutput)
    | AggregatePublics(aggregate: AggregateOutput)
    | JustificationPublics(justification: JustificationOutput)
    | StreamFinalPublics(streamFinal: StreamFinalOutput)

  /** A program of the prover's own publishes whatever it likes. */
  datatype Proof =
    | Empty
    | GroupRun(group: SlotProofWitness)
    | SlotRun(slot: SlotProofWitness)
    | CommitteeRun(committee: CommitteeWitness)
    | DiffRun(diff: EpochDiffWitness)
    | AggregateRun(aggregate: AggregateWitness)
    | JustificationRun(justification: JustificationWitness)
    | StreamFinalRun(streamFinal: StreamFinalWitness)
    | ForeignRun(name: nat, publics: Publics)

  datatype AggregateOutput = AggregateOutput(
    accumulatorCommitment: Digest, committeeRoot: Digest, previousAccumulatorCommitment: Digest,
    anchorStateRoot: Bytes32, targetEpoch: nat, checkpointDigest: Bytes32, balance: UInt64, mask: set<nat>,
    millerCommitment: Digest, programVk: ProgramVk)

  datatype AggregateWitness = AggregateWitness(
    accumulatorCommitment: Digest, link: Link, programVk: ProgramVk,
    epochDiff: Option<EpochDiffOutput>, epochDiffProof: Proof,
    committee: Option<CommitteeOutput>, committeeProof: Proof,
    previous: Option<AggregateOutput>, previousProof: Proof, previousMiller: Fp12,
    groups: seq<GroupOutput>, groupProofs: seq<Proof>, groupMillers: seq<Fp12>)

  datatype JustificationOutput = JustificationOutput(
    accumulatorCommitment: Digest, committeeRoot: Digest, link: Link, balance: UInt64, mask: set<nat>,
    justified: bool, programVk: ProgramVk)

  datatype JustificationWitness = JustificationWitness(
    accumulatorCommitment: Digest, link: Link, total: nat, accRoot: Digest, programVk: ProgramVk,
    committee: Option<CommitteeOutput>, committeeProof: Proof,
    previous: Option<JustificationOutput>, previousProof: Proof,
    slotOutputs: seq<SlotOutput>, slotProofs: seq<Proof>)

  datatype StreamFinalOutput = StreamFinalOutput(
    accumulatorCommitment: Digest, nextAccumulatorCommitment: Digest, finalized: Checkpoint,
    finalizedStateRoot: Bytes32, justified: Checkpoint, programVk: ProgramVk)

  datatype PreviousJustification = Batch(batch: JustificationOutput) | Stream(stream: StreamFinalOutput)
  {
    function AccumulatorCommitment(): Digest
    {
      if Batch? then batch.accumulatorCommitment else stream.nextAccumulatorCommitment
    }

    function Target(): Checkpoint
    {
      if Batch? then batch.link.target else stream.justified
    }

    /** A stream final proof only exists above the threshold; a batch fold says whether it is. */
    predicate IsJustified() { Batch? ==> batch.justified }

    function ToPublics(): Publics
    {
      if Batch? then JustificationPublics(batch) else StreamFinalPublics(stream)
    }
  }

  datatype StreamFinalWitness = StreamFinalWitness(
    accumulatorCommitment: Digest, target: Checkpoint, domain: Bytes32, accRoot: Digest, total: nat,
    streamVk: ProgramVk,
    epochDiff: Option<EpochDiffOutput>, epochDiffProof: Proof,
    committee: Option<CommitteeOutput>, committeeProof: Proof,
    aggregate: Option<AggregateOutput>, aggregateProof: Proof, aggregateMiller: Fp12,
    groups: seq<GroupOutput>, groupProofs: seq<Proof>, groupMillers: seq<Fp12>,
    tail: seq<SlotWitness>, tailAccAux: seq<Digest>, tailCommitteeAux: seq<Digest>,
    previousJustification: PreviousJustification, previousProof: Proof, boundary: BoundaryAnchor)

  /** The constants of a chain, and the key decompression the circuits call. */
  datatype Chain = Chain(accDepth: nat, sszDepth: nat, slotsPerEpoch: nat, decompress: Pubkey -> Option<Point>)

  // ---- children without children ------------------------------------------------------------

  function ProgramOf(p: Proof): ProgramVk
    requires p != Empty
  {
    match p
    case GroupRun(_) => GroupVk
    case SlotRun(_) => SlotVk
    case CommitteeRun(_) => CommitteeVk
    case DiffRun(_) => DiffVk
    case AggregateRun(_) => AggregateVk
    case JustificationRun(_) => JustificationVk
    case StreamFinalRun(_) => StreamFinalVk
    case ForeignRun(name, _) => OtherVk(name)
  }

  /** Public outputs of an accepted run that verifies no child. */
  function LeafOutputOf(p: Proof, chain: Chain): Option<Publics>
  {
    match p
    case GroupRun(w) => (var o :- GroupOutputOf(w, chain.accDepth); Some(GroupPublics(o)))
    case SlotRun(w) => (var o :- SlotOutputOf(w, chain.accDepth); Some(SlotPublics(o)))
    case CommitteeRun(w) => (var o :- CommitteeOutputOf(w, chain.accDepth); Some(CommitteePublics(o)))
    case DiffRun(w) =>
      (var o :- EpochDiffOutputOf(w, chain.decompress, chain.sszDepth, chain.accDepth); Some(DiffPublics(o)))
    case ForeignRun(_, publics) => Some(publics)
    case _ => None
  }

  /** `verify_baked_child` under the key of a guest without children; an empty proof is refused. */
  predicate VerifyLeaf(p: Proof, vk: ProgramVk, publics: Publics, chain: Chain)
  {
    p != Empty && ProgramOf(p) == vk && LeafOutputOf(p, chain) == Some(publics)
  }

  /** What an epoch's first proof establishes about where it stands. */
  datatype Base = Base(previousAccumulator: Digest, anchorStateRoot: Bytes32, committeeRoot: Digest)

  /** `epoch_link` */
  function EpochLink(diff: Option<EpochDiffOutput>, proof: Proof, accumulator: Digest, targetEpoch: nat, chain: Chain)
    : Option<EpochDiffOutput>
  {
    var d :- diff;
    if !VerifyLeaf(proof, DiffVk, DiffPublics(d), chain) then None
    else if d.accumulatorCommitment != accumulator || d.epoch2 != targetEpoch then None
    else if WrappingAdd(d.epoch1, 1) != targetEpoch then None
    else Some(d)
  }

  /** `committee_link` */
  function CommitteeLink(committee: Option<CommitteeOutput>, proof: Proof, accumulator: Digest, targetEpoch: nat,
                         chain: Chain): Option<Digest>
  {
    var c :- committee;
    if !VerifyLeaf(proof, CommitteeVk, CommitteePublics(c), chain) then None
    else if c.accumulatorCommitment != accumulator || c.targetEpoch != targetEpoch then None
    else Some(c.committeeRoot)
  }

  /** The two links of an epoch's first proof. */
  function OpenEpoch(diff: Option<EpochDiffOutput>, diffProof: Proof, committee: Option<CommitteeOutput>,
                     committeeProof: Proof, accumulator: Digest, targetEpoch: nat, chain: Chain): Option<Base>
  {
    var d :- EpochLink(diff, diffProof, accumulator, targetEpoch, chain);
    var root :- CommitteeLink(committee, committeeProof, accumulator, targetEpoch, chain);
    Some(Base(d.prevAccumulatorCommitment, d.stateRoot1, root))
  }

  /** What every child of an epoch has to agree on. */
  datatype Agreed = Agreed(accumulator: Digest, committeeRoot: Digest, link: Link)

  /** `verify_group` */
  predicate GroupBound(group: GroupOutput, proof: Proof, miller: Fp12, agreed: Agreed, chain: Chain)
  {
    && VerifyLeaf(proof, GroupVk, GroupPublics(group), chain)
    && group.accumulatorCommitment == agreed.accumulator
    && group.committeeRoot == agreed.committeeRoot
    && group.link == agreed.link
    && MillerDigest(miller) == group.millerCommitment
  }

  /** The count a group's opened commitment completes. */
  function GroupCount(group: GroupOutput, miller: Fp12): Attested
  {
    Attested(group.balance, group.mask, miller)
  }

  /** A group folded into the running count: its slots must not have been counted. */
  function FoldGroup(t: Attested, group: GroupOutput, proof: Proof, miller: Fp12, agreed: Agreed, chain: Chain)
    : Option<Attested>
  {
    if !GroupBound(group, proof, miller, agreed, chain) || t.mask * group.mask != {} then None
    else Some(Added(t, GroupCount(group, miller)))
  }

  function FoldGroups(start: Attested, groups: seq<GroupOutput>, proofs: seq<Proof>, millers: seq<Fp12>,
                      agreed: Agreed, chain: Chain): Option<Attested>
    requires |groups| == |proofs| == |millers|
    decreases |groups|
  {
    if groups == [] then Some(start)
    else
      var n := |groups| - 1;
      var t :- FoldGroups(start, groups[..n], proofs[..n], millers[..n], agreed, chain);
      FoldGroup(t, groups[n], proofs[n], millers[n], agreed, chain)
  }

  // ---- the recursive guests -----------------------------------------------------------------

  /** Public outputs of an accepted run. */
  function RunOf(p: Proof, chain: Chain): Option<Publics>
    decreases p, 0
  {
    match p
    case AggregateRun(w) => (var o :- AggregateOf(w, chain); Some(AggregatePublics(o)))
    case JustificationRun(w) => (var o :- JustificationOf(w, chain); Some(JustificationPublics(o)))
    case StreamFinalRun(w) => (var o :- StreamFinalOf(w, chain); Some(StreamFinalPublics(o)))
    case _ => LeafOutputOf(p, chain)
  }

  /** `verify_child`: an accepted run of the program named by `vk`, with these public outputs. */
  predicate VerifyChild(p: Proof, vk: ProgramVk, publics: Publics, chain: Chain)
    decreases p, 1
  {
    p != Empty && ProgramOf(p) == vk && RunOf(p, chain) == Some(publics)
  }

  /** Where an aggregate stands: inherited from its predecessor, or opened here. */
  function AggregateBase(w: AggregateWitness, chain: Chain): Option<Base>
  {
    match w.previous
    case Some(p) => Some(Base(p.previousAccumulatorCommitment, p.anchorStateRoot, p.committeeRoot))
    case None =>
      OpenEpoch(w.epochDiff, w.epochDiffProof, w.committee, w.committeeProof, w.accumulatorCommitment,
                w.link.target.epoch, chain)
  }

  /** What an aggregate extends: its verified predecessor's count, or nothing. */
  function AggregateStart(w: AggregateWitness, chain: Chain): Option<Attested>
    decreases w, 0
  {
    match w.previous
    case None => Some(Attested(0, {}, FP12_ONE))
    case Some(p) =>
      if !VerifyChild(w.previousProof, w.programVk, AggregatePublics(p), chain) then None
      else if p.programVk != w.programVk || p.accumulatorCommitment != w.accumulatorCommitment then None
      else if p.targetEpoch != w.link.target.epoch || p.checkpointDigest != CheckpointDigest(w.link) then None
      else if MillerDigest(w.previousMiller) != p.millerCommitment then None
      else Some(Attested(p.balance, p.mask, w.previousMiller))
  }

  /** What `verify_aggregate` returns; `None` where it panics. */
  function AggregateOf(w: AggregateWitness, chain: Chain): Option<AggregateOutput>
    decreases w, 1
  {
    if w.groups == [] || !(|w.groups| == |w.groupProofs| == |w.groupMillers|) then None
    else
      var base :- AggregateBase(w, chain);
      var start :- AggregateStart(w, chain);
      var agreed := Agreed(w.accumulatorCommitment, base.committeeRoot, w.link);
      var t :- FoldGroups(start, w.groups, w.groupProofs, w.groupMillers, agreed, chain);
      Some(AggregateOutput(
        w.accumulatorCommitment, base.committeeRoot, base.previousAccumulator, base.anchorStateRoot,
        w.link.target.epoch, CheckpointDigest(w.link), t.balance, t.mask, MillerDigest(t.miller), w.programVk))
  }

  // ---- the justification chain ---------------------------------------------------------------

  /** One slot proof's place in a fold. */
  predicate SlotBound(slot: SlotOutput, proof: Proof, agreed: Agreed, chain: Chain)
  {
    && VerifyLeaf(proof, SlotVk, SlotPublics(slot), chain)
    && slot.accumulatorCommitment == agreed.accumulator
    && slot.committeeRoot == agreed.committeeRoot
    && slot.link == agreed.link
  }

  datatype Count = Count(balance: UInt64, mask: set<nat>)

  function FoldSlot(c: Count, slot: SlotOutput, proof: Proof, agreed: Agreed, chain: Chain): Option<Count>
  {
    if !SlotBound(slot, proof, agreed, chain) || c.mask * slot.mask != {} then None
    else Some(Count(WrappingAdd(c.balance, slot.balance), c.mask + slot.mask))
  }

  function FoldSlots(start: Count, slots: seq<SlotOutput>, proofs: seq<Proof>, agreed: Agreed, chain: Chain)
    : Option<Count>
    requires |slots| == |proofs|
    decreases |slots|
  {
    if slots == [] then Some(start)
    else
      var n := |slots| - 1;
      var c :- FoldSlots(start, slots[..n], proofs[..n], agreed, chain);
      FoldSlot(c, slots[n], proofs[n], agreed, chain)
  }

  function JustificationRoot(w: JustificationWitness, chain: Chain): Option<Digest>
  {
    match w.previous
    case Some(p) => Some(p.committeeRoot)
    case None => CommitteeLink(w.committee, w.committeeProof, w.accumulatorCommitment, w.link.target.epoch, chain)
  }

  function JustificationStart(w: JustificationWitness, chain: Chain): Option<Count>
    decreases w, 0
  {
    match w.previous
    case None => Some(Count(0, {}))
    case Some(p) =>
      if !VerifyChild(w.previousProof, w.programVk, JustificationPublics(p), chain) then None
      else if p.programVk != w.programVk || p.accumulatorCommitment != w.accumulatorCommitment then None
      else if p.link != w.link then None
      else Some(Count(p.balance, p.mask))
  }

  predicate TwoThirds(balance: nat, total: nat)
  {
    balance * 3 >= total * 2
  }

  /** What `verify_justification` returns; `None` where it panics. */
  function JustificationOf(w: JustificationWitness, chain: Chain): Option<JustificationOutput>
    decreases w, 1
  {
    if w.slotOutputs == [] || |w.slotOutputs| != |w.slotProofs| then None
    else if Commitment(w.accRoot, w.total) != w.accumulatorCommitment then None
    else
      var root :- JustificationRoot(w, chain);
      var start :- JustificationStart(w, chain);
      var c :- FoldSlots(start, w.slotOutputs, w.slotProofs, Agreed(w.accumulatorCommitment, root, w.link), chain);
      Some(JustificationOutput(
        w.accumulatorCommitment, root, w.link, c.balance, c.mask, TwoThirds(c.balance, w.total), w.programVk))
  }

  // ---- the final proof -----------------------------------------------------------------------

  /** The link the final proof counts votes for. */
  function FinalLink(w: StreamFinalWitness): Link
  {
    Link(w.previousJustification.Target(), w.target)
  }

  function FinalBase(w: StreamFinalWitness, chain: Chain): Option<Base>
  {
    match w.aggregate
    case Some(a) => Some(Base(a.previousAccumulatorCommitment, a.anchorStateRoot, a.committeeRoot))
    case None =>
      OpenEpoch(w.epochDiff, w.epochDiffProof, w.committee, w.committeeProof, w.accumulatorCommitment,
                w.target.epoch, chain)
  }

  function FinalStart(w: StreamFinalWitness, chain: Chain): Option<Attested>
    decreases w, 0
  {
    match w.aggregate
    case None => Some(Attested(0, {}, FP12_ONE))
    case Some(a) =>
      if !VerifyChild(w.aggregateProof, AggregateVk, AggregatePublics(a), chain) then None
      else if a.programVk != AggregateVk || a.accumulatorCommitment != w.accumulatorCommitment then None
      else if a.targetEpoch != w.target.epoch || a.checkpointDigest != CheckpointDigest(FinalLink(w)) then None
      else if MillerDigest(w.aggregateMiller) != a.millerCommitment then None
      else Some(Attested(a.balance, a.mask, w.aggregateMiller))
  }

  /** The marginal slots, verified inline and added to the count. */
  function AddTail(t: Attested, w: StreamFinalWitness, committeeRoot: Digest, chain: Chain): Option<Attested>
  {
    if w.tail == [] then Some(t)
    else
      var at := Openings(w.accRoot, w.tailAccAux, committeeRoot, w.tailCommitteeAux);
      var tail :- AttestedBy(w.tail, at, Claim(FinalLink(w), w.domain), chain.accDepth);
      if t.mask * tail.mask != {} then None
      else Some(Added(t, tail))
  }

  /** The whole epoch's count. */
  function FinalCount(w: StreamFinalWitness, base: Base, chain: Chain): Option<Attested>
    decreases w, 1
  {
    if !(|w.groups| == |w.groupProofs| == |w.groupMillers|) then None
    else
      var start :- FinalStart(w, chain);
      var agreed := Agreed(w.accumulatorCommitment, base.committeeRoot, FinalLink(w));
      var t :- FoldGroups(start, w.groups, w.groupProofs, w.groupMillers, agreed, chain);
      AddTail(t, w, base.committeeRoot, chain)
  }

  /** The previous epoch's justification, under the key of whichever program proved it. */
  predicate PreviousHolds(w: StreamFinalWitness, chain: Chain)
    decreases w, 0
  {
    var previous := w.previousJustification;
    && previous.IsJustified()
    && match previous
       case Batch(b) =>
         && VerifyChild(w.previousProof, JustificationVk, previous.ToPublics(), chain)
         && b.programVk == JustificationVk
       case Stream(s) =>
         && VerifyChild(w.previousProof, w.streamVk, previous.ToPublics(), chain)
         && s.programVk == w.streamVk
  }

  /** What `verify_stream_final_with` returns; `None` where it panics. */
  function StreamFinalOf(w: StreamFinalWitness, chain: Chain): Option<StreamFinalOutput>
    decreases w, 2
  {
    var previous := w.previousJustification;
    if Commitment(w.accRoot, w.total) != w.accumulatorCommitment then None
    else
      var base :- FinalBase(w, chain);
      var t :- FinalCount(w, base, chain);
      if !FinalExpIsOne(t.miller) || !TwoThirds(t.balance, w.total) then None
      else if !PreviousHolds(w, chain) then None
      else if WrappingAdd(previous.Target().epoch, 1) != w.target.epoch then None
      else if previous.AccumulatorCommitment() != base.previousAccumulator then None
      else if !OpensBoundary(w.boundary, previous.Target().epoch, previous.Target().root, w.target.root,
                             base.anchorStateRoot, chain.slotsPerEpoch) then None
      else
        Some(StreamFinalOutput(
          base.previousAccumulator, w.accumulatorCommitment, previous.Target(), base.anchorStateRoot, w.target,
          w.streamVk))
  }
}
