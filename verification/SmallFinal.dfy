/** A final proof that is accepted with two thirds of the stake and no more. */
module SmallFinal {
  import opened Wrappers
  import opened FormalSums
  import opened Ssz
  import opened Bls
  import opened Merkle
  import opened Accumulator
  import opened SlotProof
  import opened Committee
  import opened EpochDiff
  import opened Boundary
  import opened Pipeline
  import opened Folds
  import opened FoldsExact
  import opened CircuitsExact
  import opened FinalCompleteness
  import opened SmallEpoch
  import UnprovedFinality
  import OverflowingDiff

  // ---- the first epoch, justified ------------------------------------------------------------------------

  function FirstLink(): Link
  {
    Link(Checkpoint(0, ZERO_CHUNK), Checkpoint(0, ZERO_CHUNK))
  }

  function ClaimOf(link: Link): Claim
  {
    Claim(link, ZERO_CHUNK)
  }

  lemma SlotProofRuns(link: Link) returns (proof: Proof, o: SlotOutput)
    ensures o == SlotOutput(Committed(false), Root(Compress, Zero, Committees(false), 5), link, 2, {0})
    ensures SlotStands(o, proof, Agreed(o.accumulatorCommitment, o.committeeRoot, link), UnprovedFinality.SmallChain())
  {
    hide AttestedBy, Root, Committees, Validators, SlotThere;
    var at := SlotThereCounts(false, ClaimOf(link));
    proof := SlotRun(SlotProofWitness(
      Committed(false), at.committeeRoot, ClaimOf(link), at.accRoot, 2, [SlotThere(false, ClaimOf(link))], at.accAux,
      at.committeeAux));
    o := SlotOutput(Committed(false), at.committeeRoot, link, 2, {0});
  }

  lemma FirstCounts(o: SlotOutput, c: Attested)
    requires o.balance == 2 && o.mask == {0} && c == Plain(Count(2, {0}))
    ensures [] + SlotCounts([o]) == [c] && MasksApart([c]) && BalanceTotal([c]) % U64 == 2
  {
    OneComesTo(c);
    assert SlotCounts([o]) == [c];
    assert [c][..0] == [];
  }

  function FirstWitness(c: CommitteeOutput, cw: CommitteeWitness, o: SlotOutput, proof: Proof): JustificationWitness
  {
    JustificationWitness(
      Committed(false), FirstLink(), 2, Root(Compress, Zero, Validators(false), 1), JustificationVk,
      Some(c), CommitteeRun(cw), None, Empty, [o], [proof])
  }

  lemma FirstTaken(c: CommitteeOutput, cw: CommitteeWitness, o: SlotOutput, proof: Proof, root: Digest, chain: Chain)
    requires CommitteeOutputOf(cw, chain.accDepth) == Some(c) && c == CommitteeOutput(Committed(false), 0, root)
    requires o == SlotOutput(Committed(false), root, FirstLink(), 2, {0})
    requires SlotStands(o, proof, Agreed(Committed(false), root, FirstLink()), chain)
    ensures
      var w := FirstWitness(c, cw, o, proof);
      JustificationTakes(w, root, chain) && BalanceTotal(JustificationParts(w)) % U64 == 2
  {
    hide SlotStands, CommitteeOutputOf, Root, Validators, MasksApart, BalanceTotal, SlotCounts;
    FirstCounts(o, Plain(Count(2, {0})));
  }

  /** Epoch 0 is justified by its one validator. */
  lemma FirstJustified() returns (j: JustificationOutput, proof: Proof)
    ensures JustificationProved(j, proof, UnprovedFinality.SmallChain())
    ensures j.justified && j.link == FirstLink() && j.accumulatorCommitment == Committed(false)
  {
    hide JustificationOf, JustificationTakes, JustificationParts, BalanceTotal, SlotStands, CommitteeOutputOf, Root, Committees,
      Validators;
    var chain := UnprovedFinality.SmallChain();
    var cw := CommitteeRuns(false, 0);
    var root := Root(Compress, Zero, Committees(false), 5);
    var slotProof, o := SlotProofRuns(FirstLink());
    var w := FirstWitness(CommitteeOutput(Committed(false), 0, root), cw, o, slotProof);
    FirstTaken(CommitteeOutput(Committed(false), 0, root), cw, o, slotProof, root, chain);
    JustificationIsExact(w, chain);
    j := JustificationOf(w, chain).value;
    proof := JustificationRun(w);
    assert JustificationPublishes(w, root, j);
  }

  // ---- the next epoch -----------------------------------------------------------------------------------------

  lemma JoiningIsProved() returns (d: EpochDiffOutput, proof: Proof)
    ensures DiffProved(Some(d), proof, Committed(true), 1, UnprovedFinality.SmallChain())
    ensures d.prevAccumulatorCommitment == Committed(false) && d.stateRoot1 == UnprovedFinality.StateRootAt(0)
  {
    OverflowingDiff.DiffIsAccepted(0, 2);
    OverflowingDiff.TwoLeaves(OverflowingDiff.First(2), Zero);
    OverflowingDiff.TwoLeaves(OverflowingDiff.First(2), Leaf(Unit(1), 1));
    hide EpochDiffOutputOf, Root;
    d := EpochDiffOutputOf(OverflowingDiff.Diff(0, 2), OverflowingDiff.Decompress, 0, 1).value;
    proof := DiffRun(OverflowingDiff.Diff(0, 2));
  }

  /** Slot one's block, whose state has recorded slot zero. */
  function Header(): BlockHeader
  {
    UnprovedFinality.SlotOneHeader(UnprovedFinality.RING_DEPTH, UnprovedFinality.STATE_DEPTH)
  }

  function Recorded(): History
  {
    History(UnprovedFinality.StateFields(UnprovedFinality.RING_DEPTH), UnprovedFinality.BlockRootAt,
            UnprovedFinality.StateRootAt, UnprovedFinality.RING_DEPTH, UnprovedFinality.STATE_DEPTH)
  }

  lemma HeaderRecords()
    ensures RecordsStart(Header(), Recorded(), 0, 32, ZERO_CHUNK, UnprovedFinality.StateRootAt(0))
  {
    hide HoldsVector, Ring, Root, Pow2, UnprovedFinality.StateFields;
    UnprovedFinality.Depths();
    UnprovedFinality.KeepsBoth(UnprovedFinality.RING_DEPTH, UnprovedFinality.STATE_DEPTH);
    assert StartsEpoch(0, 0, 32);
  }

  function Target(): Checkpoint
  {
    Checkpoint(1, HeaderRoot(Header()))
  }

  function SecondClaim(): Claim
  {
    ClaimOf(Link(Checkpoint(0, ZERO_CHUNK), Target()))
  }

  function SecondWitness(d: EpochDiffOutput, diffProof: Proof, c: CommitteeOutput, cw: CommitteeWitness, at: Openings,
                         j: JustificationOutput, proof: Proof, anchor: BoundaryAnchor): StreamFinalWitness
  {
    StreamFinalWitness(
      Committed(true), Target(), ZERO_CHUNK, Root(Compress, Zero, Validators(true), 1), 3, StreamFinalVk,
      Some(d), diffProof, Some(c), CommitteeRun(cw), None, Empty, FP12_ONE, [], [], [],
      [SlotThere(true, SecondClaim())], at.accAux, at.committeeAux, Batch(j), proof, anchor)
  }

  lemma OneCountCarries(t: Attested)
    requires t.balance == 2 && t.miller.keys == t.miller.sigs
    ensures MasksApart([t]) && VoteCarries([t], 3) && BalanceTotal([t]) == 2
  {
    OneComesTo(t);
    assert [t][..0] == [];
    forall p: Vote ensures KeysTotal([t], p) == SigsTotal([t], p) {
      assert KeysTotal([t], p) == KeysTotal([], p) + Coef(t.miller.keys, p);
      assert SigsTotal([t], p) == SigsTotal([], p) + Coef(t.miller.sigs, p);
    }
  }

  lemma OnePart(w: StreamFinalWitness, root: Digest, chain: Chain, t: Attested)
    requires w.aggregate.None? && w.groups == [] && w.groupMillers == [] && w.tail != []
    requires TailAttested(w, root, chain) == Some(t)
    ensures FinalParts(w, root, chain) == [t]
  {
    hide TailAttested;
    assert [] + GroupCounts(w.groups, w.groupMillers) + [t] == [t];
  }

  lemma SecondTaken(w: StreamFinalWitness, base: Base, chain: Chain, t: Attested)
    requires w.aggregate.None? && w.groups == [] && w.groupProofs == [] && w.groupMillers == [] && w.tail != []
    requires FinalStandsOn(w, base, chain)
    requires TailAttested(w, base.committeeRoot, chain) == Some(t)
    requires t.balance == 2 && t.miller.keys == t.miller.sigs && w.total == 3
    ensures FinalTakes(w, base, chain) && VoteCarries(FinalParts(w, base.committeeRoot, chain), w.total)
    ensures BalanceTotal(FinalParts(w, base.committeeRoot, chain)) == 2
  {
    hide TailAttested, FinalStandsOn, FinalParts, VoteCarries, BalanceTotal, MasksApart, GroupStands;
    OnePart(w, base.committeeRoot, chain, t);
    OneCountCarries(t);
  }

  /** Epoch 1 finalizes epoch 0 although validator 1, a third of its stake, is absent. */
  lemma TwoOfThreeFinalize() returns (w: StreamFinalWitness)
    ensures Commits(w.accumulatorCommitment, Validators(true), 1) && Total(Validators(true)) == 3
    ensures |w.tail| == 1 && w.groups == [] && w.aggregate.None?
    ensures w.tail[0].committee.balance == 3 && w.tail[0].absentees == [OpenedValidator(1, Unit(1), 1)]
    ensures StreamFinalOf(w, UnprovedFinality.SmallChain())
         == Some(StreamFinalOutput(Committed(false), Committed(true), Checkpoint(0, ZERO_CHUNK),
                                   UnprovedFinality.StateRootAt(0), Target(), StreamFinalVk))
  {
    hide StreamFinalOf, FinalTakes, VoteCarries, FinalParts, BalanceTotal, RecordsStart, OpensBoundary, AttestedBy, Root,
      Committees, Validators, JustificationProved, DiffProved, HeaderRoot, Header, Recorded, CommitteeOutputOf, Total;
    var chain := UnprovedFinality.SmallChain();
    var j, proof := FirstJustified();
    var d, diffProof := JoiningIsProved();
    var cw := CommitteeRuns(true, 1);
    var at := SlotThereCounts(true, SecondClaim());
    HeaderRecords();
    var anchor := StartOpens(Header(), Recorded(), 0, 32, ZERO_CHUNK, UnprovedFinality.StateRootAt(0));
    RegistryIsCommitted(true);
    var base := Base(Committed(false), UnprovedFinality.StateRootAt(0), at.committeeRoot);
    w := SecondWitness(d, diffProof, CommitteeOutput(Committed(true), 1, at.committeeRoot), cw, at, j, proof, anchor);
    SecondTaken(w, base, chain, AttestedBy(w.tail, at, SecondClaim(), 1).value);
    assert FinalAccepts(w, base, chain);
    FinalIsExact(w, chain);
  }
}
