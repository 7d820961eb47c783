/** Folds in closed form: when a list of children is taken, and what the running count is then, as
    sums over the list. */
module FoldsExact {
  import opened Wrappers
  import opened FormalSums
  import opened Ssz
  import opened Bls
  import opened Accumulator
  import opened SlotProof
  import opened Folds
  import opened Pipeline

  // ---- counts added up ---------------------------------------------------------------------------

  /** The balances of a list of counts, added without wrapping. */
  function BalanceTotal(counts: seq<Attested>): nat
    decreases |counts|
  {
    if counts == [] then 0 else BalanceTotal(counts[..|counts| - 1]) + counts[|counts| - 1].balance
  }

  /** No slot counted by two of them. */
  predicate MasksApart(counts: seq<Attested>)
  {
    forall i, j :: 0 <= i < j < |counts| ==> counts[i].mask !! counts[j].mask
  }

  /** How often a vote is paired on the side of the keys, over all of them. */
  function KeysTotal(counts: seq<Attested>, p: Vote): int
    decreases |counts|
  {
    if counts == [] then 0 else KeysTotal(counts[..|counts| - 1], p) + Coef(counts[|counts| - 1].miller.keys, p)
  }

  /** How often it was signed. */
  function SigsTotal(counts: seq<Attested>, p: Vote): int
    decreases |counts|
  {
    if counts == [] then 0 else SigsTotal(counts[..|counts| - 1], p) + Coef(counts[|counts| - 1].miller.sigs, p)
  }

  /** Every vote is paired as often as it was signed. */
  ghost predicate VotesSettle(counts: seq<Attested>)
  {
    forall p: Vote :: KeysTotal(counts, p) == SigsTotal(counts, p)
  }

  predicate Counted(counts: seq<Attested>, slot: nat)
  {
    exists i :: 0 <= i < |counts| && slot in counts[i].mask
  }

  /** A running count that is what a list comes to: the balances' sum modulo the word, the slots of
      any of them, and both sides' votes. */
  ghost predicate ComesTo(counts: seq<Attested>, t: Attested)
  {
    && t.balance == BalanceTotal(counts) % U64
    && (forall slot: nat :: slot in t.mask <==> Counted(counts, slot))
    && (forall p: Vote :: Coef(t.miller.keys, p) == KeysTotal(counts, p))
    && (forall p: Vote :: Coef(t.miller.sigs, p) == SigsTotal(counts, p))
  }

  lemma NothingComesTo()
    ensures ComesTo([], Attested(0, {}, FP12_ONE)) && MasksApart([])
  {
  }

  lemma WrapsModulo(total: int, more: nat)
    requires more < U64
    ensures WrappingAdd(total % U64, more) == (total + more) % U64
  {
  }

  lemma OneMoreTotals(counts: seq<Attested>, c: Attested)
    ensures BalanceTotal(counts + [c]) == BalanceTotal(counts) + c.balance
    ensures forall p: Vote :: KeysTotal(counts + [c], p) == KeysTotal(counts, p) + Coef(c.miller.keys, p)
    ensures forall p: Vote :: SigsTotal(counts + [c], p) == SigsTotal(counts, p) + Coef(c.miller.sigs, p)
  {
    assert (counts + [c])[..|counts|] == counts;
  }

  lemma OneMoreCounted(counts: seq<Attested>, c: Attested, slot: nat)
    ensures Counted(counts + [c], slot) <==> Counted(counts, slot) || slot in c.mask
  {
    if i :| 0 <= i < |counts| && slot in counts[i].mask {
      assert slot in (counts + [c])[i].mask;
    }
    if slot in c.mask {
      assert slot in (counts + [c])[|counts|].mask;
    }
    if i :| 0 <= i < |counts + [c]| && slot in (counts + [c])[i].mask {
      assert i == |counts| || slot in counts[i].mask;
    }
  }

  lemma OneMoreComesTo(counts: seq<Attested>, t: Attested, c: Attested)
    requires ComesTo(counts, t)
    ensures ComesTo(counts + [c], Added(t, c))
  {
    hide BalanceTotal, KeysTotal, SigsTotal, Counted;
    OneMoreTotals(counts, c);
    WrapsModulo(BalanceTotal(counts), c.balance);
    forall slot: nat ensures slot in Added(t, c).mask <==> Counted(counts + [c], slot) {
      OneMoreCounted(counts, c, slot);
    }
  }

  lemma OneMoreApart(counts: seq<Attested>, t: Attested, c: Attested)
    requires ComesTo(counts, t)
    ensures MasksApart(counts + [c]) <==> MasksApart(counts) && t.mask * c.mask == {}
  {
    hide BalanceTotal, KeysTotal, SigsTotal;
    if MasksApart(counts + [c]) {
      forall i, j | 0 <= i < j < |counts| ensures counts[i].mask !! counts[j].mask {
        assert (counts + [c])[i].mask !! (counts + [c])[j].mask;
      }
      forall slot: nat | slot in t.mask ensures slot !in c.mask {
        var i :| 0 <= i < |counts| && slot in counts[i].mask;
        assert (counts + [c])[i].mask !! (counts + [c])[|counts|].mask;
      }
    }
    if MasksApart(counts) && t.mask * c.mask == {} {
      forall i | 0 <= i < |counts| ensures counts[i].mask !! c.mask {
        forall slot: nat | slot in counts[i].mask ensures slot !in c.mask {
          assert Counted(counts, slot);
          assert slot !in t.mask * c.mask;
        }
      }
    }
  }

  lemma ApartPrefix(counts: seq<Attested>, n: nat)
    requires MasksApart(counts) && n <= |counts|
    ensures MasksApart(counts[..n])
  {
  }

  /** The pairing is settled exactly when every vote is paired as often as signed. */
  lemma SettledWhenVotesSettle(counts: seq<Attested>, t: Attested)
    requires ComesTo(counts, t)
    ensures FinalExpIsOne(t.miller) <==> VotesSettle(counts)
  {
    hide BalanceTotal, KeysTotal, SigsTotal, Counted;
    if VotesSettle(counts) {
      forall p: Vote ensures Coef(t.miller.keys, p) == Coef(t.miller.sigs, p) {
        assert KeysTotal(counts, p) == SigsTotal(counts, p);
      }
      SameCombo(t.miller.keys, t.miller.sigs);
    }
    if FinalExpIsOne(t.miller) {
      forall p: Vote ensures KeysTotal(counts, p) == SigsTotal(counts, p) {
        assert Coef(t.miller.keys, p) == Coef(t.miller.sigs, p);
      }
    }
  }

  // ---- groups -------------------------------------------------------------------------------------

  /** A group's place in a fold: a run of the group guest that published just this, against the same
      accumulator, committees and link, its commitment opened. */
  ghost predicate GroupStands(group: GroupOutput, proof: Proof, miller: Fp12, agreed: Agreed, chain: Chain)
  {
    && proof.GroupRun? && GroupOutputOf(proof.group, chain.accDepth) == Some(group)
    && Agreed(group.accumulatorCommitment, group.committeeRoot, group.link) == agreed
    && group.millerCommitment == MillerDigest(miller)
  }

  lemma StandsIsBound(group: GroupOutput, proof: Proof, miller: Fp12, agreed: Agreed, chain: Chain)
    ensures GroupBound(group, proof, miller, agreed, chain) <==> GroupStands(group, proof, miller, agreed, chain)
  {
    hide GroupOutputOf;
  }

  function GroupCounts(groups: seq<GroupOutput>, millers: seq<Fp12>): (counts: seq<Attested>)
    requires |groups| == |millers|
    ensures |counts| == |groups|
  {
    seq(|groups|, (i: nat) requires i < |groups| =>
      Attested(groups[i].balance, groups[i].mask, millers[i]))
  }

  ghost predicate GroupsStand(groups: seq<GroupOutput>, proofs: seq<Proof>, millers: seq<Fp12>, agreed: Agreed, chain: Chain)
    requires |groups| == |proofs| == |millers|
  {
    forall i :: 0 <= i < |groups| ==> GroupStands(groups[i], proofs[i], millers[i], agreed, chain)
  }

  lemma CountsGrow(groups: seq<GroupOutput>, millers: seq<Fp12>, before: seq<Attested>)
    requires |groups| == |millers| > 0
    ensures
      var n := |groups| - 1;
      before + GroupCounts(groups, millers)
      == (before + GroupCounts(groups[..n], millers[..n])) + [GroupCount(groups[n], millers[n])]
  {
  }

  lemma StandSplits(groups: seq<GroupOutput>, proofs: seq<Proof>, millers: seq<Fp12>, agreed: Agreed, chain: Chain)
    requires |groups| == |proofs| == |millers| > 0
    ensures
      var n := |groups| - 1;
      GroupsStand(groups, proofs, millers, agreed, chain)
      <==> GroupsStand(groups[..n], proofs[..n], millers[..n], agreed, chain)
           && GroupStands(groups[n], proofs[n], millers[n], agreed, chain)
  {
    hide GroupStands;
    var n := |groups| - 1;
    assert forall i :: 0 <= i < n ==> groups[..n][i] == groups[i] && proofs[..n][i] == proofs[i] && millers[..n][i] == millers[i];
  }

  /** Folding groups is exact: from a count that is what `before` comes to, the fold is taken if and
      only if every group stands and no slot is counted twice; and it then comes to all of them. */
  lemma {:induction false} GroupsFoldExactly(start: Attested, before: seq<Attested>, groups: seq<GroupOutput>,
                                             proofs: seq<Proof>, millers: seq<Fp12>, agreed: Agreed, chain: Chain)
    requires |groups| == |proofs| == |millers| && ComesTo(before, start) && MasksApart(before)
    ensures FoldGroups(start, groups, proofs, millers, agreed, chain).Some?
       <==> GroupsStand(groups, proofs, millers, agreed, chain) && MasksApart(before + GroupCounts(groups, millers))
    ensures FoldGroups(start, groups, proofs, millers, agreed, chain).Some? ==>
      ComesTo(before + GroupCounts(groups, millers), FoldGroups(start, groups, proofs, millers, agreed, chain).value)
    decreases |groups|
  {
    hide ComesTo, MasksApart, GroupBound, GroupStands;
    if groups == [] {
      assert before + GroupCounts(groups, millers) == before;
    } else {
      var n := |groups| - 1;
      var counts, one := before + GroupCounts(groups[..n], millers[..n]), GroupCount(groups[n], millers[n]);
      GroupsFoldExactly(start, before, groups[..n], proofs[..n], millers[..n], agreed, chain);
      hide GroupsStand, GroupCounts;
      CountsGrow(groups, millers, before);
      StandSplits(groups, proofs, millers, agreed, chain);
      StandsIsBound(groups[n], proofs[n], millers[n], agreed, chain);
      FrontApart(counts, one);
      if FoldGroups(start, groups[..n], proofs[..n], millers[..n], agreed, chain).Some? {
        var t := FoldGroups(start, groups[..n], proofs[..n], millers[..n], agreed, chain).value;
        OneMoreApart(counts, t, one);
        OneMoreComesTo(counts, t, one);
      }
    }
  }

  lemma FrontApart(counts: seq<Attested>, c: Attested)
    ensures MasksApart(counts + [c]) ==> MasksApart(counts)
  {
    if MasksApart(counts + [c]) {
      ApartPrefix(counts + [c], |counts|);
      assert (counts + [c])[..|counts|] == counts;
    }
  }

  // ---- slot proofs ----------------------------------------------------------------------------------

  /** A slot proof's place in a justification: a run of the slot guest that published just this,
      against the same accumulator, committees and link. */
  ghost predicate SlotStands(slot: SlotOutput, proof: Proof, agreed: Agreed, chain: Chain)
  {
    && proof.SlotRun? && SlotOutputOf(proof.slot, chain.accDepth) == Some(slot)
    && Agreed(slot.accumulatorCommitment, slot.committeeRoot, slot.link) == agreed
  }

  lemma SlotStandsIsBound(slot: SlotOutput, proof: Proof, agreed: Agreed, chain: Chain)
    ensures SlotBound(slot, proof, agreed, chain) <==> SlotStands(slot, proof, agreed, chain)
  {
    hide SlotOutputOf;
  }

  /** A count whose pairing is settled already. */
  function Plain(c: Count): Attested
  {
    Attested(c.balance, c.mask, FP12_ONE)
  }

  function SlotCounts(slots: seq<SlotOutput>): (counts: seq<Attested>)
    ensures |counts| == |slots|
  {
    seq(|slots|, (i: nat) requires i < |slots| => Plain(Count(slots[i].balance, slots[i].mask)))
  }

  ghost predicate SlotsStand(slots: seq<SlotOutput>, proofs: seq<Proof>, agreed: Agreed, chain: Chain)
    requires |slots| == |proofs|
  {
    forall i :: 0 <= i < |slots| ==> SlotStands(slots[i], proofs[i], agreed, chain)
  }

  lemma SlotCountsGrow(slots: seq<SlotOutput>, before: seq<Attested>)
    requires slots != []
    ensures
      var n := |slots| - 1;
      before + SlotCounts(slots)
      == (before + SlotCounts(slots[..n])) + [Plain(Count(slots[n].balance, slots[n].mask))]
  {
  }

  lemma SlotStandSplits(slots: seq<SlotOutput>, proofs: seq<Proof>, agreed: Agreed, chain: Chain)
    requires |slots| == |proofs| > 0
    ensures
      var n := |slots| - 1;
      SlotsStand(slots, proofs, agreed, chain)
      <==> SlotsStand(slots[..n], proofs[..n], agreed, chain) && SlotStands(slots[n], proofs[n], agreed, chain)
  {
    hide SlotStands;
    var n := |slots| - 1;
    assert forall i :: 0 <= i < n ==> slots[..n][i] == slots[i] && proofs[..n][i] == proofs[i];
  }

  lemma PlainAdds(a: Count, b: Count)
    ensures Added(Plain(a), Plain(b)) == Plain(Count(WrappingAdd(a.balance, b.balance), a.mask + b.mask))
  {
    PlusNothing(FP12_ONE.keys);
    PlusNothing(FP12_ONE.sigs);
  }

  /** Folding slot proofs is exact in the same way. */
  lemma {:induction false} SlotsFoldExactly(start: Count, before: seq<Attested>, slots: seq<SlotOutput>,
                                            proofs: seq<Proof>, agreed: Agreed, chain: Chain)
    requires |slots| == |proofs| && ComesTo(before, Plain(start)) && MasksApart(before)
    ensures FoldSlots(start, slots, proofs, agreed, chain).Some?
       <==> SlotsStand(slots, proofs, agreed, chain) && MasksApart(before + SlotCounts(slots))
    ensures FoldSlots(start, slots, proofs, agreed, chain).Some? ==>
      ComesTo(before + SlotCounts(slots), Plain(FoldSlots(start, slots, proofs, agreed, chain).value))
    decreases |slots|
  {
    hide ComesTo, MasksApart, SlotBound, SlotStands;
    if slots == [] {
      assert before + SlotCounts(slots) == before;
    } else {
      var n := |slots| - 1;
      var counts, one := before + SlotCounts(slots[..n]), Count(slots[n].balance, slots[n].mask);
      SlotsFoldExactly(start, before, slots[..n], proofs[..n], agreed, chain);
      hide SlotsStand, SlotCounts;
      SlotCountsGrow(slots, before);
      SlotStandSplits(slots, proofs, agreed, chain);
      SlotStandsIsBound(slots[n], proofs[n], agreed, chain);
      FrontApart(counts, Plain(one));
      if FoldSlots(start, slots[..n], proofs[..n], agreed, chain).Some? {
        var c := FoldSlots(start, slots[..n], proofs[..n], agreed, chain).value;
        PlainAdds(c, one);
        OneMoreApart(counts, Plain(c), Plain(one));
        OneMoreComesTo(counts, Plain(c), Plain(one));
      }
    }
  }
}
