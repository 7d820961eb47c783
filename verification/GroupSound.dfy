/** An accepted list of slots makes a sound tally: the openings pin every key and balance that
    conservation measures. */
module GroupSound {
  import opened Wrappers
  import opened FormalSums
  import opened Ssz
  import opened Bls
  import opened Merkle
  import opened MultiProof
  import opened Accumulator
  import opened SlotProof
  import opened SlotSound
  import opened Tallies

  // ---- what the slots leave behind ---------------------------------------------------------

  /** Everything a slot opened is in the list. */
  ghost predicate Listed(slot: SlotWitness, run: Run)
  {
    && Opened(Leaf(slot.committee.key, slot.committee.balance), slot.slot) in run.leaves
    && forall v :: v in NamedLeaves(slot.absentees) ==> v in run.named
  }

  ghost predicate MaskBelow(run: Run)
  {
    forall s :: s in run.mask ==> run.previous.Some? && s <= run.previous.value
  }

  lemma SlotListed(run: Run, slot: SlotWitness, claim: Claim)
    requires TakeSlot(run, slot, claim).Some?
    ensures
      var r := TakeSlot(run, slot, claim).value;
      Listed(slot, r) && run.named <= r.named && run.leaves <= r.leaves
  {
    var support := SlotCounts(run, slot, claim);
    var r := TakeSlot(run, slot, claim).value;
    assert r.leaves[|run.leaves|] == Opened(Leaf(slot.committee.key, slot.committee.balance), slot.slot);
  }

  lemma ListedStays(slot: SlotWitness, run: Run, later: Run)
    requires Listed(slot, run) && run.named <= later.named && run.leaves <= later.leaves
    ensures Listed(slot, later)
  {
    assert forall x :: x in run.named ==> x in later.named;
    assert forall x :: x in run.leaves ==> x in later.leaves;
  }

  lemma {:induction false} StaysListed(slots: seq<SlotWitness>, claim: Claim, slot: SlotWitness)
    requires TakeSlots(slots, claim).Some? && slot in slots
    ensures Listed(slot, TakeSlots(slots, claim).value) && slot.slot < MAX_SLOTS
    decreases |slots|
  {
    var front, last := slots[..|slots| - 1], slots[|slots| - 1];
    var before := TakeSlots(front, claim).value;
    SlotListed(before, last, claim);
    if slot != last {
      StaysListed(front, claim, slot);
      ListedStays(slot, before, TakeSlots(slots, claim).value);
    }
  }

  lemma {:induction false} MaskStaysBelow(slots: seq<SlotWitness>, claim: Claim)
    requires TakeSlots(slots, claim).Some?
    ensures MaskBelow(TakeSlots(slots, claim).value)
    decreases |slots|
  {
    if slots != [] {
      var front, last := slots[..|slots| - 1], slots[|slots| - 1];
      MaskStaysBelow(front, claim);
      var support := SlotCounts(TakeSlots(front, claim).value, last, claim);
    }
  }

  // ---- what the openings pin -----------------------------------------------------------------

  /** An opened leaf whose balance is what its key weighs. */
  ghost predicate Fair(o: Opened<Digest>, leaves: seq<Digest>)
  {
    && o.leaf.Leaf?
    && Weigh(o.leaf.key, Balances(leaves)) == o.leaf.balance
    && forall u: nat :: Coef(o.leaf.key, u) >= 0
  }

  lemma RegistryLeafIsFair(o: Opened<Digest>, leaves: seq<Digest>, at: nat)
    requires Registry(leaves) && at < |leaves| && o.leaf == leaves[at] && o.leaf.Leaf?
    ensures Fair(o, leaves)
  {
    WeighUnit<nat>(at, Balances(leaves));
  }

  lemma NamedAreFair(named: seq<Opened<Digest>>, aux: seq<Digest>, depth: nat, leaves: seq<Digest>)
    requires NamedOpen(named, aux, Root(Compress, Zero, leaves, depth), depth)
    requires Registry(leaves) && |leaves| == Pow2(depth)
    ensures forall o :: o in named && o.leaf.Leaf? ==> Fair(o, leaves)
  {
    if named != [] {
      var sorted := SortedByIndex(named);
      BatchSound(Compress, Zero, leaves, sorted, aux, depth);
      forall o | o in named && o.leaf.Leaf? ensures Fair(o, leaves) {
        assert o in sorted;
        var j: nat :| j < |sorted| && sorted[j] == o;
        DigitsSplit(o.index, depth);
        RegistryLeafIsFair(o, leaves, Low(o.index, depth));
      }
    }
  }

  lemma NamedLeavesAreLeaves(vs: seq<OpenedValidator>, o: Opened<Digest>)
    requires o in NamedLeaves(vs)
    ensures o.leaf.Leaf?
  {
    if vs != [] && o in NamedLeaves(vs[..|vs| - 1]) {
      NamedLeavesAreLeaves(vs[..|vs| - 1], o);
    }
  }

  lemma CommitteeOpened(items: seq<Opened<Digest>>, aux: seq<Digest>, committees: seq<Digest>, item: Opened<Digest>)
    requires RootOfLeaves(Compress, items, aux, TREE_DEPTH) == Some(Root(Compress, Zero, committees, TREE_DEPTH))
    requires item in items && item.index < MAX_SLOTS && |committees| == MAX_SLOTS
    ensures item.leaf == committees[item.index]
  {
    hide RootOfLeaves, High;
    BatchSound(Compress, Zero, committees, items, aux, TREE_DEPTH);
    var j: nat :| j < |items| && items[j] == item;
    SmallIndex(item.index, TREE_DEPTH);
  }

  /** A slot whose committee is the committee tree's and whose absentees are the registry's. */
  ghost predicate FairSlot(slot: SlotWitness, e: Epoch)
  {
    && slot.slot < |e.committees|
    && e.committees[slot.slot] == Leaf(slot.committee.key, slot.committee.balance)
    && NamedWeight(slot.absentees, Balances(e.leaves)) == NamedBalance(slot.absentees)
    && forall u: nat :: NamedWeight(slot.absentees, Indicator(u)) >= 0
  }

  lemma {:induction false} AbsenteesAreFair(vs: seq<OpenedValidator>, leaves: seq<Digest>, u: nat)
    requires forall o :: o in NamedLeaves(vs) ==> Fair(o, leaves)
    ensures NamedWeight(vs, Balances(leaves)) == NamedBalance(vs)
    ensures NamedWeight(vs, Indicator(u)) >= 0
    decreases |vs|
  {
    if vs != [] {
      var front, last := vs[..|vs| - 1], vs[|vs| - 1];
      AbsenteesAreFair(front, leaves, u);
      assert NamedLeaf(last) in NamedLeaves(vs);
      assert Fair(NamedLeaf(last), leaves);
      WeighIndicator(last.key, u);
    }
  }

  // ---- the tally ---------------------------------------------------------------------------

  lemma FairSlotWeighs(slot: SlotWitness, e: Epoch, u: nat)
    requires FairSlot(slot, e) && Partition(e.committees, e.leaves)
    ensures SlotWeight(slot, Balances(e.leaves)) == SlotSupport(slot) <= Balances(e.committees)(slot.slot)
    ensures SlotWeight(slot, Indicator(u)) <= MemberAt(e.committees, u)(slot.slot)
  {
    assert Summed(e.committees[slot.slot], e.leaves);
    WeighIndicator(slot.committee.key, u);
  }

  /** All of a list of slots fair, read in order. */
  ghost predicate AllFair(slots: seq<SlotWitness>, e: Epoch)
    decreases |slots|
  {
    slots == [] || (AllFair(slots[..|slots| - 1], e) && FairSlot(slots[|slots| - 1], e))
  }

  lemma {:induction false} EachFair(slots: seq<SlotWitness>, e: Epoch)
    requires forall slot :: slot in slots ==> FairSlot(slot, e)
    ensures AllFair(slots, e)
    decreases |slots|
  {
    if slots != [] {
      EachFair(slots[..|slots| - 1], e);
    }
  }

  /** The running mask and balance of fair slots. */
  ghost predicate Bounded(run: Run, e: Epoch)
  {
    run.mask <= FirstPositions(|e.committees|) && run.balance <= SlotsBalance(e.committees, run.mask)
  }

  lemma {:induction false} FairSlotsBounded(slots: seq<SlotWitness>, claim: Claim, e: Epoch)
    requires TakeSlots(slots, claim).Some? && Partition(e.committees, e.leaves) && AllFair(slots, e)
    ensures Bounded(TakeSlots(slots, claim).value, e)
    ensures TakeSlots(slots, claim).value.balance == SlotsWeight(slots, Balances(e.leaves))
    decreases |slots|
  {
    if slots != [] {
      FairSlotsBounded(slots[..|slots| - 1], claim, e);
      FairLastAdds(slots, claim, e, 0);
    }
  }

  /** No validator stands more often in the keys than in the committees counted. */
  lemma {:induction false} FairSlotsSeat(slots: seq<SlotWitness>, claim: Claim, e: Epoch, u: nat)
    requires TakeSlots(slots, claim).Some? && Partition(e.committees, e.leaves) && AllFair(slots, e)
    ensures SlotsWeight(slots, Indicator(u)) <= TimesSeated(e.committees, TakeSlots(slots, claim).value.mask, u)
    decreases |slots|
  {
    if slots != [] {
      FairSlotsBounded(slots[..|slots| - 1], claim, e);
      FairSlotsSeat(slots[..|slots| - 1], claim, e, u);
      FairLastAdds(slots, claim, e, u);
    }
  }

  lemma FairLastAdds(slots: seq<SlotWitness>, claim: Claim, e: Epoch, u: nat)
    requires slots != [] && TakeSlots(slots, claim).Some? && Partition(e.committees, e.leaves)
    requires FairSlot(slots[|slots| - 1], e) && Bounded(TakeSlots(slots[..|slots| - 1], claim).value, e)
    ensures
      var before, run, last := TakeSlots(slots[..|slots| - 1], claim).value, TakeSlots(slots, claim).value, slots[|slots| - 1];
      && Bounded(run, e) && run.balance == before.balance + SlotWeight(last, Balances(e.leaves))
      && TimesSeated(e.committees, run.mask, u)
         >= TimesSeated(e.committees, before.mask, u) + SlotWeight(last, Indicator(u))
  {
    MaskStaysBelow(slots[..|slots| - 1], claim);
    FairSlotAdds(TakeSlots(slots[..|slots| - 1], claim).value, slots[|slots| - 1], claim, e, u);
    FairSlotWeighs(slots[|slots| - 1], e, u);
  }

  lemma FairSlotAdds(before: Run, slot: SlotWitness, claim: Claim, e: Epoch, u: nat)
    requires TakeSlot(before, slot, claim).Some? && FairSlot(slot, e) && Partition(e.committees, e.leaves)
    requires MaskBelow(before) && before.mask <= FirstPositions(|e.committees|)
    requires before.balance <= SlotsBalance(e.committees, before.mask)
    ensures
      var run := TakeSlot(before, slot, claim).value;
      && run.mask <= FirstPositions(|e.committees|)
      && run.balance == before.balance + SlotSupport(slot)
      && SlotsBalance(e.committees, run.mask)
         == SlotsBalance(e.committees, before.mask) + Balances(e.committees)(slot.slot)
      && TimesSeated(e.committees, run.mask, u)
         == TimesSeated(e.committees, before.mask, u) + MemberAt(e.committees, u)(slot.slot)
  {
    var support := SlotCounts(before, slot, claim);
    assert slot.slot !in before.mask;
    MaskAdds(before.mask, slot.slot, e, u);
    FairSlotWeighs(slot, e, u);
    NoWrap(before.balance, support);
  }

  lemma MaskAdds(mask: set<nat>, s: nat, e: Epoch, u: nat)
    requires s !in mask && mask + {s} <= FirstPositions(|e.committees|) && Partition(e.committees, e.leaves)
    ensures SlotsBalance(e.committees, mask + {s}) == SlotsBalance(e.committees, mask) + Balances(e.committees)(s) < U64
    ensures TimesSeated(e.committees, mask + {s}, u) == TimesSeated(e.committees, mask, u) + MemberAt(e.committees, u)(s)
  {
    assert mask + {s} - {s} == mask;
    SumTakes<nat>(mask + {s}, Balances(e.committees), s);
    SumTakes<nat>(mask + {s}, MemberAt(e.committees, u), s);
    WithinTotal(e.committees, e.leaves, mask + {s});
  }

  // ---- the pairing inputs ------------------------------------------------------------------

  /** One key, a message of the link, and signatures made of the given votes. */
  ghost predicate MessageFits(m: SignedMessage, e: Epoch)
  {
    && |m.pubkeys| == 1 && Names(m.root, e.link)
    && forall s :: s in m.signatures && s.OnCurve? ==> s.sum.Keys <= e.votes
  }

  ghost predicate SignedWithin(a: Attestation, votes: set<Vote>)
  {
    a.signature.OnCurve? ==> a.signature.sum.Keys <= votes
  }

  /** Every signature a slot supplies is made of the given votes. */
  ghost predicate VotesWithin(slot: SlotWitness, votes: set<Vote>)
  {
    && (forall a :: a in slot.primary ==> SignedWithin(a, votes))
    && (forall a :: a in slot.secondary ==> SignedWithin(a, votes))
  }

  lemma PushFits(w: Working, aggregates: seq<Attestation>, key: Point, claim: Claim, e: Epoch)
    requires aggregates != [] && PushMessage(w, aggregates, key, claim).Some? && claim.link == e.link
    requires forall a :: a in aggregates ==> SignedWithin(a, e.votes)
    requires forall m :: m in w.messages ==> MessageFits(m, e)
    ensures forall m :: m in PushMessage(w, aggregates, key, claim).value.messages ==> MessageFits(m, e)
  {
    var message := SignedMessage([key], SigningRoot(AttestationDataRoot(aggregates[0].data), claim.domain),
                                 SignaturesOf(aggregates));
    forall s | s in message.signatures && s.OnCurve? ensures s.sum.Keys <= e.votes {
      var i: nat :| i < |message.signatures| && message.signatures[i] == s;
      assert SignedWithin(aggregates[i], e.votes);
    }
    assert MessageFits(message, e);
  }

  lemma {:induction false} SecondariesFit(start: Working, secondary: seq<Attestation>, claim: Claim, e: Epoch)
    requires TakeSecondaries(start, secondary, claim).Some? && claim.link == e.link
    requires forall a :: a in secondary ==> SignedWithin(a, e.votes)
    requires forall m :: m in start.messages ==> MessageFits(m, e)
    ensures forall m :: m in TakeSecondaries(start, secondary, claim).value.messages ==> MessageFits(m, e)
    decreases |secondary|
  {
    if secondary != [] {
      var front, last := secondary[..|secondary| - 1], secondary[|secondary| - 1];
      SecondariesFit(start, front, claim, e);
      var w := TakeSecondaries(start, front, claim).value;
      NameSignersConserve(w, last.signers, Indicator(0));
      var s := NameSigners(w, last.signers).value;
      PushFits(s.work, [last], s.keys.value.value, claim, e);
    }
  }

  lemma SlotFits(run: Run, slot: SlotWitness, claim: Claim, e: Epoch)
    requires TakeSlot(run, slot, claim).Some? && claim.link == e.link && VotesWithin(slot, e.votes)
    requires forall m :: m in run.messages ==> MessageFits(m, e)
    ensures forall m :: m in TakeSlot(run, slot, claim).value.messages ==> MessageFits(m, e)
  {
    var start := OpenSlot(run, slot);
    SecondariesFit(start, slot.secondary, claim, e);
    AbsenteesLower(TakeSecondaries(start, slot.secondary, claim).value, slot.absentees, Indicator(0));
    var present := Remaining(start, slot, claim).value;
    PushFits(present, slot.primary, present.key.value.value, claim, e);
  }

  lemma {:induction false} SlotsFit(slots: seq<SlotWitness>, claim: Claim, e: Epoch)
    requires TakeSlots(slots, claim).Some? && claim.link == e.link
    requires forall slot :: slot in slots ==> VotesWithin(slot, e.votes)
    ensures forall m :: m in TakeSlots(slots, claim).value.messages ==> MessageFits(m, e)
    decreases |slots|
  {
    if slots != [] {
      var front, last := slots[..|slots| - 1], slots[|slots| - 1];
      SlotsFit(front, claim, e);
      SlotFits(TakeSlots(front, claim).value, last, claim, e);
    }
  }

  // ---- the accumulator -----------------------------------------------------------------------

  function Image(s: set<nat>, m: Bytes32): (r: set<Vote>)
    ensures forall v: nat, n: Bytes32 :: (v, n) in r <==> v in s && n == m
  {
    set v | v in s :: (v, m)
  }

  lemma {:induction false} SumImage(s: set<nat>, m: Bytes32, h: Vote -> int, k: nat -> int)
    requires forall v: nat :: v in s ==> h((v, m)) == k(v)
    ensures SumOver(Image(s, m), h) == SumOver(s, k)
  {
    if s != {} {
      var v: nat :| v in s;
      SumTakes<nat>(s, k, v);
      SumTakes(Image(s, m), h, (v, m));
      assert Image(s, m) - {(v, m)} == Image(s - {v}, m);
      SumImage(s - {v}, m, h, k);
    } else {
      assert Image(s, m) == {};
    }
  }

  lemma TagWeighs(key: Point, m: Bytes32, g: nat -> int)
    ensures Weigh(Tag(key, m), ByVoter(g)) == Weigh(key, g)
  {
    var tagged := Tag(key, m);
    forall p | p in Image(key.Keys, m) ensures p in tagged {
      assert Coef(tagged, (p.0, m)) == Coef(key, p.0);
    }
    assert tagged.Keys == Image(key.Keys, m);
    forall v: nat | v in key.Keys ensures Term(tagged, ByVoter(g))((v, m)) == Term(key, g)(v) {
      assert Coef(tagged, (v, m)) == Coef(key, v);
    }
    SumImage(key.Keys, m, Term(tagged, ByVoter(g)), Term(key, g));
  }

  /** The gathered keys weigh what the messages weigh, name the link, and the gathered
      signatures are made of the given votes. */
  lemma {:induction false} GatherFits(messages: seq<SignedMessage>, e: Epoch, g: nat -> int)
    requires Gather(messages).Some? && forall m :: m in messages ==> MessageFits(m, e)
    ensures
      var r := Gather(messages).value;
      && Weigh(r.keys, ByVoter(g)) == MessagesWeight(messages, g)
      && (forall p :: p in r.keys ==> Names(p.1, e.link))
      && r.sum.votes.Keys <= e.votes
    decreases |messages|
  {
    if messages != [] {
      var front, last := messages[..|messages| - 1], messages[|messages| - 1];
      GatherFits(front, e, g);
      GatherOneFits(Gather(front).value, last, e, g);
    }
  }

  lemma GatherOneFits(before: Gathered, m: SignedMessage, e: Epoch, g: nat -> int)
    requires GatherOne(before, m).Some? && MessageFits(m, e)
    requires (forall p :: p in before.keys ==> Names(p.1, e.link)) && before.sum.votes.Keys <= e.votes
    ensures
      var r := GatherOne(before, m).value;
      && Weigh(r.keys, ByVoter(g)) == Weigh(before.keys, ByVoter(g)) + MessageWeight(m, g)
      && (forall p :: p in r.keys ==> Names(p.1, e.link))
      && r.sum.votes.Keys <= e.votes
  {
    var key := m.pubkeys[0];
    OneKey(key, m.pubkeys);
    var r := GatherOne(before, m).value;
    WeighPlus(before.keys, Tag(key, m.root), ByVoter(g));
    TagWeighs(key, m.root, g);
    forall p | p in r.keys ensures Names(p.1, e.link) {
      SupportPlus(before.keys, key, m.root, p);
    }
    SignaturesWithin(before.sum, m.signatures, e.votes);
  }

  lemma OneKey(key: Point, keys: seq<Point>)
    requires |keys| == 1 && keys[0] == key
    ensures AddAll(PointSum(None), keys) == Some(PointSum(Some(key)))
  {
    assert keys[..0] == [];
    assert AddAll(PointSum(None), keys[..0]) == Some(PointSum(None));
  }

  lemma {:induction false} SignaturesWithin(start: SignatureSum, signatures: seq<Signature>, votes: set<Vote>)
    requires SumSignatures(start, signatures).Some? && start.votes.Keys <= votes
    requires forall s :: s in signatures && s.OnCurve? ==> s.sum.Keys <= votes
    ensures SumSignatures(start, signatures).value.votes.Keys <= votes
    decreases |signatures|
  {
    if signatures != [] {
      var front, last := signatures[..|signatures| - 1], signatures[|signatures| - 1];
      SignaturesWithin(start, front, votes);
      var before := SumSignatures(start, front).value.votes;
      assert last in signatures;
      forall p | p in Plus(before, last.sum) ensures p in votes {
        PlusSupport(before, last.sum, p);
      }
    }
  }

  // ---- the result ---------------------------------------------------------------------------

  /** The roots a list of slots opens against are those of the epoch's two trees. */
  ghost predicate Against(at: Openings, e: Epoch, accDepth: nat)
  {
    && |e.leaves| == Pow2(accDepth) && Registry(e.leaves)
    && at.accRoot == Root(Compress, Zero, e.leaves, accDepth)
    && Partition(e.committees, e.leaves)
    && at.committeeRoot == Root(Compress, Zero, e.committees, TREE_DEPTH)
  }

  lemma SlotsAreFair(slots: seq<SlotWitness>, at: Openings, claim: Claim, accDepth: nat, e: Epoch)
    requires AttestedBy(slots, at, claim, accDepth).Some? && Against(at, e, accDepth)
    ensures forall slot :: slot in slots ==> FairSlot(slot, e)
  {
    var run := TakeSlots(slots, claim).value;
    NamedAreFair(run.named, at.accAux, accDepth, e.leaves);
    forall slot | slot in slots ensures FairSlot(slot, e) {
      StaysListed(slots, claim, slot);
      CommitteeOpened(run.leaves, at.committeeAux, e.committees,
                      Opened(Leaf(slot.committee.key, slot.committee.balance), slot.slot));
      forall o | o in NamedLeaves(slot.absentees) ensures Fair(o, e.leaves) {
        NamedLeavesAreLeaves(slot.absentees, o);
      }
      forall u: nat ensures NamedWeight(slot.absentees, Indicator(u)) >= 0 {
        AbsenteesAreFair(slot.absentees, e.leaves, u);
      }
      AbsenteesAreFair(slot.absentees, e.leaves, 0);
    }
  }

  /** Slots that read, open and fit, by themselves. */
  ghost predicate Fitting(slots: seq<SlotWitness>, claim: Claim, e: Epoch)
  {
    && TakeSlots(slots, claim).Some? && Partition(e.committees, e.leaves)
    && AllFair(slots, e)
    && (forall m :: m in TakeSlots(slots, claim).value.messages ==> MessageFits(m, e))
  }

  lemma FittingSeats(slots: seq<SlotWitness>, claim: Claim, e: Epoch, g: Gathered, u: nat)
    requires Fitting(slots, claim, e) && Gather(TakeSlots(slots, claim).value.messages) == Some(g)
    ensures Weigh(g.keys, ByVoter(Indicator(u))) <= TimesSeated(e.committees, TakeSlots(slots, claim).value.mask, u)
  {
    FairSlotsSeat(slots, claim, e, u);
    SlotsConserve(slots, claim, Indicator(u));
    GatherFits(TakeSlots(slots, claim).value.messages, e, Indicator(u));
  }

  lemma FittingIsSound(slots: seq<SlotWitness>, claim: Claim, e: Epoch, g: Gathered)
    requires Fitting(slots, claim, e) && Gather(TakeSlots(slots, claim).value.messages) == Some(g)
    ensures
      var run := TakeSlots(slots, claim).value;
      Sound(Attested(run.balance, run.mask, Fp12(g.keys, g.sum.votes)), e)
  {
    var run := TakeSlots(slots, claim).value;
    forall u: nat ensures Weigh(g.keys, ByVoter(Indicator(u))) <= TimesSeated(e.committees, run.mask, u) {
      FittingSeats(slots, claim, e, g, u);
    }
    FairSlotsBounded(slots, claim, e);
    SlotsConserve(slots, claim, Balances(e.leaves));
    GatherFits(run.messages, e, Balances(e.leaves));
  }

  /** Group soundness: whatever the witness, an accepted list of slots counts exactly the
      balance of a formal key in which each validator stands at most as often as the counted
      committees seat it, every key is paired with a message of this link, and the signature
      side is made of votes really supplied. */
  lemma AttestedIsSound(slots: seq<SlotWitness>, at: Openings, claim: Claim, accDepth: nat, e: Epoch)
    requires AttestedBy(slots, at, claim, accDepth).Some? && Against(at, e, accDepth)
    requires claim.link == e.link && forall slot :: slot in slots ==> VotesWithin(slot, e.votes)
    ensures Sound(AttestedBy(slots, at, claim, accDepth).value, e)
  {
    hide Sound, TakeSlots, Gather, FairSlot, VotesWithin, NamedOpen, RootOfLeaves, SortedByIndex;
    SlotsAreFair(slots, at, claim, accDepth, e);
    EachFair(slots, e);
    SlotsFit(slots, claim, e);
    FittingIsSound(slots, claim, e, Gather(TakeSlots(slots, claim).value.messages).value);
  }
}
