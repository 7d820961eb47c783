/** Streaming completeness: over a committed registry, verified votes of two thirds of the total,
    on top of a proved justification, are always a final proof. */
module FinalCompleteness {
  import opened Wrappers
  import opened FormalSums
  import opened Ssz
  import opened Bls
  import opened Merkle
  import opened Accumulator
  import opened SlotProof
  import opened Tallies
  import opened GroupSound
  import opened Folds
  import opened Boundary
  import opened Pipeline
  import opened StreamSound
  import opened Finality
  import opened Containers
  import opened FoldsExact
  import opened CircuitsExact

  // ---- no balance wraps ------------------------------------------------------------------------------

  ghost predicate AllSound(counts: seq<Attested>, e: Epoch)
  {
    forall i :: 0 <= i < |counts| ==> Sound(counts[i], e)
  }

  function MaskOf(counts: seq<Attested>): set<nat>
    decreases |counts|
  {
    if counts == [] then {} else MaskOf(counts[..|counts| - 1]) + counts[|counts| - 1].mask
  }

  lemma {:induction false} MaskHas(counts: seq<Attested>, slot: nat)
    ensures slot in MaskOf(counts) <==> Counted(counts, slot)
    decreases |counts|
  {
    if counts != [] {
      var n := |counts| - 1;
      PrefixGrows(counts, n);
      MaskHas(counts[..n], slot);
      OneMoreCounted(counts[..n], counts[n], slot);
    }
  }

  lemma SoundPrefix(counts: seq<Attested>, e: Epoch, n: nat)
    requires AllSound(counts, e) && n <= |counts|
    ensures AllSound(counts[..n], e)
  {
    hide Sound;
  }

  /** Counts of different slots together stay within the committees they count. */
  lemma {:induction false} SoundTotals(counts: seq<Attested>, e: Epoch)
    requires AllSound(counts, e) && MasksApart(counts)
    ensures MaskOf(counts) <= FirstPositions(|e.committees|)
    ensures BalanceTotal(counts) <= SlotsBalance(e.committees, MaskOf(counts))
    decreases |counts|
  {
    if counts == [] {
    } else {
      var n := |counts| - 1;
      SoundPrefix(counts, e, n);
      ApartPrefix(counts, n);
      SoundTotals(counts[..n], e);
      LastIsApart(counts);
      SumDisjoint<nat>(MaskOf(counts[..n]), counts[n].mask, Balances(e.committees));
    }
  }

  lemma LastIsApart(counts: seq<Attested>)
    requires MasksApart(counts) && counts != []
    ensures MaskOf(counts[..|counts| - 1]) !! counts[|counts| - 1].mask
  {
    var n := |counts| - 1;
    forall slot | slot in MaskOf(counts[..n]) ensures slot !in counts[n].mask {
      MaskHas(counts[..n], slot);
      var i :| 0 <= i < n && slot in counts[..n][i].mask;
      assert counts[i].mask !! counts[n].mask;
    }
  }

  lemma NothingWraps(counts: seq<Attested>, e: Epoch)
    requires AllSound(counts, e) && MasksApart(counts) && Partition(e.committees, e.leaves)
    ensures BalanceTotal(counts) <= Total(e.leaves) < U64
  {
    SoundTotals(counts, e);
    WithinTotal(e.committees, e.leaves, MaskOf(counts));
  }

  // ---- the parts of a final proof --------------------------------------------------------------------

  lemma SoundConcat(a: seq<Attested>, b: seq<Attested>, e: Epoch)
    requires AllSound(a, e) && AllSound(b, e)
    ensures AllSound(a + b, e)
  {
    hide Sound;
  }

  lemma GroupPartsSound(groups: seq<GroupOutput>, proofs: seq<Proof>, millers: seq<Fp12>, agreed: Agreed, chain: Chain,
                        e: Epoch)
    requires |groups| == |proofs| == |millers| && GroupsStand(groups, proofs, millers, agreed, chain)
    requires AllLeafVotes(proofs, e.votes) && Counts(agreed, e, chain.accDepth)
    ensures AllSound(GroupCounts(groups, millers), e)
  {
    hide Sound, Counts, GroupStands, GroupBound, LeafVotes;
    forall i | 0 <= i < |groups| ensures Sound(GroupCounts(groups, millers)[i], e) {
      StandsIsBound(groups[i], proofs[i], millers[i], agreed, chain);
      assert proofs[i] in proofs;
      GroupIsSound(groups[i], proofs[i], millers[i], agreed, chain, e);
    }
  }

  lemma TailPartSound(w: StreamFinalWitness, base: Base, chain: Chain, e: Epoch)
    requires FinalStands(w, base, e, chain.accDepth) && forall slot :: slot in w.tail ==> VotesWithin(slot, e.votes)
    ensures TailAttested(w, base.committeeRoot, chain).Some? ==> Sound(TailAttested(w, base.committeeRoot, chain).value, e)
  {
    hide Sound, AttestedBy, VotesWithin;
    if TailAttested(w, base.committeeRoot, chain).Some? {
      AttestedIsSound(w.tail, Openings(w.accRoot, w.tailAccAux, base.committeeRoot, w.tailCommitteeAux),
                      Claim(FinalLink(w), w.domain), chain.accDepth, e);
    }
  }

  lemma PartsAreSound(w: StreamFinalWitness, base: Base, chain: Chain, leaves: seq<Digest>, votes: set<Vote>)
    returns (e: Epoch)
    requires FinalTakes(w, base, chain) && FinalVotes(w, votes)
    requires w.accumulatorCommitment == Commitment(w.accRoot, w.total)
    requires Commits(w.accumulatorCommitment, leaves, chain.accDepth) && Registry(leaves)
    ensures e.leaves == leaves && Partition(e.committees, e.leaves)
    ensures AllSound(FinalParts(w, base.committeeRoot, chain), e)
  {
    hide Sound, FinalStandsOn, FinalBase, FinalStart, GroupsStand, GroupCounts, VotesWithin, AggregateVotes, AllLeafVotes;
    hide TailAttested, Partition, Commits, Registry, MasksApart;
    FinalBaseExact(w, chain);
    var committees := FinalStartIsSound(w, chain, leaves, votes);
    e := Epoch(leaves, committees, FinalLink(w), votes);
    var start := FinalStart(w, chain).value;
    var first := if w.aggregate.Some? then [start] else [];
    var tail := TailAttested(w, base.committeeRoot, chain);
    var last := if w.tail != [] && tail.Some? then [tail.value] else [];
    GroupPartsSound(w.groups, w.groupProofs, w.groupMillers,
                    Agreed(w.accumulatorCommitment, base.committeeRoot, FinalLink(w)), chain, e);
    TailPartSound(w, base, chain, e);
    SoundConcat(first, GroupCounts(w.groups, w.groupMillers), e);
    SoundConcat(first + GroupCounts(w.groups, w.groupMillers), last, e);
  }

  // ---- the boundary ------------------------------------------------------------------------------------

  /** A justified block's header, by its five fields. */
  function HeaderRoot(h: BlockHeader): Bytes32
  {
    ContainerRoot([Chunk(h.slot), Chunk(h.proposer), h.parentRoot, h.stateRoot, h.bodyRoot], 3)
  }

  /** A justified block whose state still records the slot an epoch starts with, and what it has
      recorded there. */
  ghost predicate RecordsStart(h: BlockHeader, history: History, epoch: nat, slotsPerEpoch: nat, blockRoot: Bytes32,
                               stateRoot: Bytes32)
  {
    && StateKeeps(h, history)
    && exists b: nat :: StartsEpoch(b, epoch, slotsPerEpoch) && b < h.slot <= b + 8192 && b < U64
         && history.blockRoots(b) == blockRoot && history.stateRoots(b) == stateRoot
  }

  /** The fields of a state, and what the chain has written into its two rings. */
  datatype History = History(fields: seq<Bytes32>, blockRoots: nat -> Bytes32, stateRoots: nat -> Bytes32,
                             ringDepth: nat, stateDepth: nat)

  ghost predicate StateKeeps(h: BlockHeader, history: History)
  {
    && Pow2(history.ringDepth) == 8192 && history.ringDepth + history.stateDepth == 19
    && HoldsVector(h.stateRoot, history.fields, history.stateDepth, 5,
                   Ring(history.blockRoots, ZERO_CHUNK, 8192, h.slot), history.ringDepth)
    && HoldsVector(h.stateRoot, history.fields, history.stateDepth, 6,
                   Ring(history.stateRoots, ZERO_CHUNK, 8192, h.slot), history.ringDepth)
  }

  lemma StartIsBoundary(b: nat, epoch: nat, slotsPerEpoch: nat)
    requires StartsEpoch(b, epoch, slotsPerEpoch) && b < U64
    ensures BoundarySlot(epoch, slotsPerEpoch) == b
  {
    assert b == (b / slotsPerEpoch) * slotsPerEpoch + b % slotsPerEpoch;
  }

  lemma StartOpens(h: BlockHeader, history: History, epoch: nat, slotsPerEpoch: nat, blockRoot: Bytes32, stateRoot: Bytes32)
    returns (anchor: BoundaryAnchor)
    requires RecordsStart(h, history, epoch, slotsPerEpoch, blockRoot, stateRoot)
    ensures OpensBoundary(anchor, epoch, blockRoot, HeaderRoot(h), stateRoot, slotsPerEpoch)
  {
    hide HoldsVector, Ring, ContainerRoot, StartsEpoch, OpensBoundary, BlockHeaderRoot, BoundarySlot;
    var b: nat :| StartsEpoch(b, epoch, slotsPerEpoch) && b < h.slot <= b + 8192 && b < U64
      && history.blockRoots(b) == blockRoot && history.stateRoots(b) == stateRoot;
    StartIsBoundary(b, epoch, slotsPerEpoch);
    HeaderIsContainer(h);
    anchor := RecordedBoundaryOpens(h, epoch, slotsPerEpoch, history.fields, history.blockRoots, history.stateRoots,
                                    history.ringDepth, history.stateDepth);
  }

  // ---- two thirds finalize -----------------------------------------------------------------------------

  lemma AnchorIsFree(w: StreamFinalWitness, base: Base, chain: Chain, anchor: BoundaryAnchor)
    requires FinalTakes(w, base, chain)
    ensures
      var done := w.(boundary := anchor);
      FinalTakes(done, base, chain)
      && FinalParts(done, base.committeeRoot, chain) == FinalParts(w, base.committeeRoot, chain)
  {
    hide GroupsStand, MasksApart, AggregateProved, DiffProved, CommitteeProved, AttestedBy, GroupCounts;
  }

  /** Streaming completeness. Take an epoch whose accumulator commits to a registry: with the parts of
      its count verified, in aggregates, groups and an inline tail, no slot twice; every vote paired
      as often as signed; and their balances coming to two thirds of the registry's total. Take a
      proved justification of the epoch before, over the accumulator this epoch's diff starts from,
      and a target block whose state still records how that epoch began. Then there are boundary paths
      with which the final proof is accepted, and it publishes those two checkpoints and
      accumulators. */
  lemma TwoThirdsFinalize(w: StreamFinalWitness, base: Base, chain: Chain, leaves: seq<Digest>, votes: set<Vote>,
                          h: BlockHeader, history: History) returns (anchor: BoundaryAnchor)
    requires Commits(w.accumulatorCommitment, leaves, chain.accDepth) && Registry(leaves)
    requires w.accRoot == Root(Compress, Zero, leaves, chain.accDepth) && w.total == Total(leaves)
    requires FinalTakes(w, base, chain) && FinalVotes(w, votes)
    requires VotesSettle(FinalParts(w, base.committeeRoot, chain))
    requires 3 * BalanceTotal(FinalParts(w, base.committeeRoot, chain)) >= 2 * Total(leaves)
    requires PredecessorProved(w.previousJustification, w.previousProof, w.streamVk, chain)
    requires w.previousJustification.Target().epoch + 1 == w.target.epoch < U64
    requires w.previousJustification.AccumulatorCommitment() == base.previousAccumulator
    requires w.target.root == HeaderRoot(h)
    requires RecordsStart(h, history, w.previousJustification.Target().epoch, chain.slotsPerEpoch,
                          w.previousJustification.Target().root, base.anchorStateRoot)
    ensures StreamFinalOf(w.(boundary := anchor), chain)
         == Some(StreamFinalOutput(base.previousAccumulator, w.accumulatorCommitment, w.previousJustification.Target(),
                                   base.anchorStateRoot, w.target, w.streamVk))
  {
    hide FinalTakes, FinalVotes, VotesSettle, BalanceTotal, PredecessorProved, RecordsStart, StreamFinalOf, Partition;
    hide FinalParts, AllSound, OpensBoundary, MasksApart, Registry, Root, Total;
    TakesApart(w, base, chain);
    var parts := FinalParts(w, base.committeeRoot, chain);
    var e := PartsAreSound(w, base, chain, leaves, votes);
    NothingWraps(parts, e);
    anchor := StartOpens(h, history, w.previousJustification.Target().epoch, chain.slotsPerEpoch,
                         w.previousJustification.Target().root, base.anchorStateRoot);
    AnchorIsFree(w, base, chain, anchor);
    assert FinalAccepts(w.(boundary := anchor), base, chain);
    FinalIsExact(w.(boundary := anchor), chain);
  }

  lemma TakesApart(w: StreamFinalWitness, base: Base, chain: Chain)
    requires FinalTakes(w, base, chain)
    ensures MasksApart(FinalParts(w, base.committeeRoot, chain)) && |w.groups| == |w.groupMillers|
  {
    hide FinalStandsOn, GroupsStand, TailAttested, MasksApart, FinalParts;
  }
}
