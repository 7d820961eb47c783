/** The group circuit, exactly: which lists of slots it accepts over two trees, and what it counts. */
module GroupExact {
  import opened Wrappers
  import opened FormalSums
  import opened Ssz
  import opened Bls
  import opened Merkle
  import opened MultiProof
  import opened Accumulator
  import opened SlotProof
  import opened SlotSound
  import opened Folds
  import opened FoldsExact
  import opened SlotCuts
  import opened AttestedCuts
  import opened SlotExact
  import opened PairingExact
  import opened Containers

  // ---- what a list of slots adds ---------------------------------------------------------------------

  /** Everyone named, slot by slot. */
  function AllNamed(slots: seq<SlotWitness>): seq<OpenedValidator>
    decreases |slots|
  {
    if slots == [] then [] else AllNamed(slots[..|slots| - 1]) + NamedIn(slots[|slots| - 1])
  }

  function MessagesIn(slot: SlotWitness, domain: Bytes32): seq<SignedMessage>
  {
    SecondaryMessages(slot.secondary, domain) + (if slot.primary == [] then [] else [PrimaryMessage(slot, domain)])
  }

  function AllMessages(slots: seq<SlotWitness>, domain: Bytes32): seq<SignedMessage>
    decreases |slots|
  {
    if slots == [] then []
    else AllMessages(slots[..|slots| - 1], domain) + MessagesIn(slots[|slots| - 1], domain)
  }

  /** The committees' balances less the absentees'. */
  function SupportOf(slots: seq<SlotWitness>): int
    decreases |slots|
  {
    if slots == [] then 0
    else
      var last := slots[|slots| - 1];
      SupportOf(slots[..|slots| - 1]) + last.committee.balance - NamedBalance(last.absentees)
  }

  function SlotsIn(slots: seq<SlotWitness>): set<nat>
  {
    set s | s in slots :: s.slot
  }

  predicate AllOk(slots: seq<SlotWitness>, claim: Claim)
  {
    forall s :: s in slots ==> SlotOk(s, claim)
  }

  lemma AloneIsOk(slots: seq<SlotWitness>, claim: Claim)
    ensures AllAlone(Marks(slots, claim)) <==> AllOk(slots, claim)
  {
    hide SlotOk, ReadAlone, SlotAdds;
    forall i: nat | i < |slots|
      ensures ReadAlone(Marks(slots, claim)[i]).Some? <==> SlotOk(slots[i], claim)
    {
      SlotIsExact(slots[i], claim);
    }
    if AllAlone(Marks(slots, claim)) {
      forall s | s in slots ensures SlotOk(s, claim) {
        var i: nat :| i < |slots| && slots[i] == s;
        assert Marks(slots, claim)[i] in Marks(slots, claim);
      }
    }
  }

  /** A run that holds what a list of slots adds. */
  ghost predicate Holds(r: Run, slots: seq<SlotWitness>, claim: Claim)
  {
    && r.balance == SupportOf(slots) % U64 && r.mask == SlotsIn(slots)
    && r.named == NamedLeaves(AllNamed(slots)) && r.messages == AllMessages(slots, claim.domain)
  }

  lemma OneMoreSlot(before: Run, slots: seq<SlotWitness>, claim: Claim)
    requires slots != [] && Holds(before, slots[..|slots| - 1], claim) && before.balance < U64
    requires SlotOk(slots[|slots| - 1], claim)
    ensures Holds(After(before, AloneRun(Marked(slots[|slots| - 1], claim))), slots, claim)
  {
    hide SignedRoot, KeyWithout, CanTakeOut, SecondaryOk, NamedBalance, ReadAlone, SecondaryMessages, SupportOf, AllNamed,
      AllMessages, NamedLeaves, SlotsIn;
    var n := |slots| - 1;
    var last := slots[n];
    SlotIsExact(last, claim);
    SupportGrows(slots, before.balance);
    ListsGrow(slots, claim.domain);
    SlotsGrow(slots);
    LeavesOfBoth(AllNamed(slots[..n]), NamedIn(last));
    assert last.primary != [];
  }

  lemma SlotsGrow(slots: seq<SlotWitness>)
    requires slots != []
    ensures SlotsIn(slots) == SlotsIn(slots[..|slots| - 1]) + {slots[|slots| - 1].slot}
  {
    assert slots == slots[..|slots| - 1] + [slots[|slots| - 1]];
  }

  lemma ListsGrow(slots: seq<SlotWitness>, domain: Bytes32)
    requires slots != []
    ensures AllNamed(slots) == AllNamed(slots[..|slots| - 1]) + NamedIn(slots[|slots| - 1])
    ensures AllMessages(slots, domain) == AllMessages(slots[..|slots| - 1], domain) + MessagesIn(slots[|slots| - 1], domain)
  {
  }

  lemma SupportGrows(slots: seq<SlotWitness>, before: nat)
    requires slots != [] && before < U64 && before == SupportOf(slots[..|slots| - 1]) % U64
    requires NamedBalance(slots[|slots| - 1].absentees) <= slots[|slots| - 1].committee.balance < U64
    ensures
      var last := slots[|slots| - 1];
      WrappingAdd(before, last.committee.balance - NamedBalance(last.absentees)) == SupportOf(slots) % U64
  {
    hide SupportOf;
    var last := slots[|slots| - 1];
    NamedIsSome(last.absentees);
    OneMoreSupport(slots);
    WrapsModulo(SupportOf(slots[..|slots| - 1]), last.committee.balance - NamedBalance(last.absentees));
  }

  lemma OneMoreSupport(slots: seq<SlotWitness>)
    requires slots != []
    ensures
      var last := slots[|slots| - 1];
      SupportOf(slots) == SupportOf(slots[..|slots| - 1]) + (last.committee.balance - NamedBalance(last.absentees))
  {
  }

  lemma {:induction false} NamedIsSome(vs: seq<OpenedValidator>)
    ensures NamedBalance(vs) >= 0
  {
    if vs != [] {
      NamedIsSome(vs[..|vs| - 1]);
    }
  }

  lemma NothingHolds(claim: Claim)
    ensures Holds(Together(Marks([], claim)), [], claim)
  {
    assert Together(Marks([], claim)) == NOTHING_READ;
  }

  lemma {:induction false} TogetherHolds(slots: seq<SlotWitness>, claim: Claim)
    requires AllOk(slots, claim)
    ensures Holds(Together(Marks(slots, claim)), slots, claim)
    decreases |slots|
  {
    hide SlotOk, After, AloneRun, Holds;
    if slots == [] {
      NothingHolds(claim);
    } else {
      var n := |slots| - 1;
      TogetherHolds(slots[..n], claim);
      assert Marks(slots, claim)[..n] == Marks(slots[..n], claim);
      assert slots[n] in slots;
      OneMoreSlot(Together(Marks(slots[..n], claim)), slots, claim);
    }
  }

  // ---- what the two trees open ----------------------------------------------------------------------------

  /** Nobody named twice, under indices alike above the tree's width, each as the tree holds it. */
  ghost predicate NamesOwn(vs: seq<OpenedValidator>, leaves: seq<Digest>, depth: nat)
  {
    && Unrepeated(vs)
    && (forall v, u :: v in vs && u in vs ==> High(v.index, depth) == High(u.index, depth))
    && (forall v :: v in vs ==>
          Low(v.index, depth) < |leaves| && leaves[Low(v.index, depth)] == Leaf(v.key, v.balance))
  }

  lemma {:induction false} LeavesAt(vs: seq<OpenedValidator>)
    ensures |NamedLeaves(vs)| == |vs| && forall i :: 0 <= i < |vs| ==> NamedLeaves(vs)[i] == NamedLeaf(vs[i])
    decreases |vs|
  {
    if vs != [] {
      LeavesAt(vs[..|vs| - 1]);
    }
  }

  lemma {:induction false} OnceIsApart(idx: seq<nat>)
    ensures AtMostOnce(multiset(idx)) <==> forall i, j :: 0 <= i < j < |idx| ==> idx[i] != idx[j]
    decreases |idx|
  {
    if idx != [] {
      var n := |idx| - 1;
      OnceIsApart(idx[..n]);
      assert idx == idx[..n] + [idx[n]];
      OnceAdds(multiset(idx[..n]), multiset([idx[n]]));
      assert multiset(idx) == multiset(idx[..n]) + multiset([idx[n]]);
      assert AtMostOnce(multiset([idx[n]]));
      assert idx[n] in multiset(idx[..n]) <==> idx[n] in idx[..n];
    }
  }

  lemma IndicesOf(vs: seq<OpenedValidator>)
    ensures |Indices(NamedLeaves(vs))| == |vs|
    ensures forall i :: 0 <= i < |vs| ==> Indices(NamedLeaves(vs))[i] == vs[i].index
  {
    LeavesAt(vs);
  }

  /** Nobody named twice. */
  predicate Unrepeated(vs: seq<OpenedValidator>)
  {
    forall i, j :: 0 <= i < j < |vs| ==> vs[i].index != vs[j].index
  }

  lemma NamedOnceIsUnrepeated(vs: seq<OpenedValidator>)
    ensures AtMostOnce(multiset(Indices(NamedLeaves(vs)))) <==> Unrepeated(vs)
  {
    hide AtMostOnce, NamedLeaves;
    IndicesOf(vs);
    OnceIsApart(Indices(NamedLeaves(vs)));
  }

  lemma NamesOwnOpen(vs: seq<OpenedValidator>, leaves: seq<Digest>, depth: nat)
    requires |leaves| == Pow2(depth)
    ensures CanOpen(NamesOf(NamedLeaves(vs)), leaves, depth) <==> NamesOwn(vs, leaves, depth)
  {
    hide AtMostOnce, NamedLeaves, Node, AlikeAbove, OwnAt, High, Low, Unrepeated;
    NamedOnceIsUnrepeated(vs);
    IndicesAlike(vs, depth);
    OwnLeaves(vs, leaves, depth);
  }

  lemma IndicesAlike(vs: seq<OpenedValidator>, depth: nat)
    ensures AlikeAbove(multiset(Indices(NamedLeaves(vs))), depth)
       <==> forall v, u :: v in vs && u in vs ==> High(v.index, depth) == High(u.index, depth)
  {
    hide High, NamedLeaves;
    var idx := Indices(NamedLeaves(vs));
    IndicesOf(vs);
    forall v | v in vs ensures v.index in multiset(idx) {
      var i: nat :| i < |vs| && vs[i] == v;
      assert idx[i] == v.index;
    }
    forall a | a in multiset(idx) ensures exists v :: v in vs && v.index == a {
      var i: nat :| i < |idx| && idx[i] == a;
      assert vs[i] in vs;
    }
  }

  lemma OwnLeaves(vs: seq<OpenedValidator>, leaves: seq<Digest>, depth: nat)
    requires |leaves| == Pow2(depth)
    ensures OwnAt(NamesOf(NamedLeaves(vs)).items, leaves, depth)
       <==> forall v :: v in vs ==>
              Low(v.index, depth) < |leaves| && leaves[Low(v.index, depth)] == Leaf(v.key, v.balance)
  {
    hide NamedLeaves, Low;
    var items := NamedLeaves(vs);
    LeavesAt(vs);
    forall v | v in vs
      ensures NamedLeaf(v) in items && Low(v.index, depth) < |leaves|
    {
      var i: nat :| i < |vs| && vs[i] == v;
      assert items[i] == NamedLeaf(v);
      DigitsSplit(v.index, depth);
    }
    forall x | x in items ensures exists v :: v in vs && x == NamedLeaf(v) {
      var i: nat :| i < |items| && items[i] == x;
      assert vs[i] in vs;
    }
  }

  // ---- the theorem ------------------------------------------------------------------------------------------

  /** Every slot's committee is the one the committee tree holds for it. */
  predicate CommitteesOwn(slots: seq<SlotWitness>, committees: seq<Digest>)
  {
    forall s :: s in slots ==>
      s.slot < |committees| && committees[s.slot] == Leaf(s.committee.key, s.committee.balance)
  }

  ghost predicate GroupOk(slots: seq<SlotWitness>, claim: Claim, leaves: seq<Digest>, accDepth: nat, committees: seq<Digest>)
  {
    && slots != [] && SlotCuts.Increasing(slots) && AllOk(slots, claim)
    && NamesOwn(AllNamed(slots), leaves, accDepth) && CommitteesOwn(slots, committees)
    && Pairable(AllMessages(slots, claim.domain))
  }

  /** What a group counts. */
  ghost predicate Counts(t: Attested, slots: seq<SlotWitness>, domain: Bytes32)
  {
    && t.balance == SupportOf(slots) % U64 && t.mask == SlotsIn(slots)
    && (forall p: Vote :: Coef(t.miller.keys, p) == KeyedAs(AllMessages(slots, domain), p))
    && (forall p: Vote :: Coef(t.miller.sigs, p) == SignedAs(AllMessages(slots, domain), p))
  }

  lemma AttestedUnfolds(slots: seq<SlotWitness>, at: Openings, claim: Claim, accDepth: nat)
    ensures
      var run := Together(Marks(slots, claim));
      AttestedBy(slots, at, claim, accDepth).Some?
      <==>
      && SlotCuts.Increasing(slots) && AllOk(slots, claim) && NamedOpen(run.named, at.accAux, at.accRoot, accDepth)
      && RootOfLeaves(Compress, run.leaves, at.committeeAux, TREE_DEPTH) == Some(at.committeeRoot)
      && Pairable(AllMessages(slots, claim.domain))
    ensures AttestedBy(slots, at, claim, accDepth).Some? ==>
      Counts(AttestedBy(slots, at, claim, accDepth).value, slots, claim.domain)
  {
    hide AllOk, AllAlone, Together, TakeSlots, Marks, NamedOpen, RootOfLeaves, MillerAccumulator, Pairable, AllMessages,
      AllNamed, NamedLeaves, SupportOf, KeyedAs, SignedAs;
    TakeIsTogether(slots, claim);
    AloneIsOk(slots, claim);
    if AllOk(slots, claim) {
      TogetherHolds(slots, claim);
      MillerIsExact(AllMessages(slots, claim.domain));
    }
  }

  lemma AcceptedIsOk(slots: seq<SlotWitness>, at: Openings, claim: Claim, leaves: seq<Digest>, accDepth: nat,
                     committees: seq<Digest>)
    requires |leaves| == Pow2(accDepth) && |committees| == 32
    requires at.accRoot == Root(Compress, Zero, leaves, accDepth)
    requires at.committeeRoot == Root(Compress, Zero, committees, TREE_DEPTH)
    requires AttestedBy(slots, at, claim, accDepth).Some?
    ensures GroupOk(slots, claim, leaves, accDepth, committees)
  {
    hide AllOk, Together, Marks, NamedOpen, RootOfLeaves, Pairable, AllMessages, AllNamed, NamedLeaves, NamesOwn, NamesOf,
      CanOpen, Root, AttestedBy, SlotCuts.Increasing;
    AttestedUnfolds(slots, at, claim, accDepth);
    TogetherHolds(slots, claim);
    ExactWhenOpens(Together(Marks(slots, claim)).named, at.accAux, leaves, accDepth);
    NamesOwnOpen(AllNamed(slots), leaves, accDepth);
    forall s | s in slots
      ensures s.slot < |committees| && committees[s.slot] == Leaf(s.committee.key, s.committee.balance)
    {
      var k: nat :| k < |slots| && slots[k] == s;
      OwnCommittee(slots, at, claim, accDepth, committees, k);
    }
    NothingHasNoRoot(at, claim);
  }

  lemma NothingHasNoRoot(at: Openings, claim: Claim)
    ensures RootOfLeaves(Compress, Together(Marks([], claim)).leaves, at.committeeAux, TREE_DEPTH).None?
  {
    assert Together(Marks([], claim)) == NOTHING_READ;
  }

  lemma OkIsAccepted(slots: seq<SlotWitness>, claim: Claim, leaves: seq<Digest>, accDepth: nat, committees: seq<Digest>)
    returns (at: Openings)
    requires |leaves| == Pow2(accDepth) && |committees| == 32 && GroupOk(slots, claim, leaves, accDepth, committees)
    ensures at.accRoot == Root(Compress, Zero, leaves, accDepth)
    ensures at.committeeRoot == Root(Compress, Zero, committees, TREE_DEPTH)
    ensures AttestedBy(slots, at, claim, accDepth).Some?
  {
    hide AllOk, AllAlone, Together, Marks, NamedOpen, RootOfLeaves, Pairable, AllMessages, AllNamed, NamedLeaves, NamesOwn,
      NamesOf, CanOpen, Root, AttestedBy, SlotCuts.Increasing;
    AloneIsOk(slots, claim);
    TogetherHolds(slots, claim);
    NamesOwnOpen(AllNamed(slots), leaves, accDepth);
    var accAux := OpensWhenExact(Together(Marks(slots, claim)).named, leaves, accDepth);
    var committeeAux := CommitteesOpen(slots, claim, committees);
    at := Openings(Root(Compress, Zero, leaves, accDepth), accAux, Root(Compress, Zero, committees, TREE_DEPTH), committeeAux);
    AttestedUnfolds(slots, at, claim, accDepth);
  }

  function OpeningsOf(leaves: seq<Digest>, accDepth: nat, committees: seq<Digest>, accAux: seq<Digest>,
                      committeeAux: seq<Digest>): Openings
  {
    Openings(Root(Compress, Zero, leaves, accDepth), accAux, Root(Compress, Zero, committees, 5), committeeAux)
  }

  /** A group, exactly. Over two trees, some openings make a list of slots accepted if and only if it
      is not empty; its slots increase and can each be read; nobody is named twice, and everybody as
      the registry's tree holds them; each slot's committee is the committee tree's; and all its
      messages pair up. What it counts is then the committees' balances less the absentees', its
      slots, and every vote as often as those messages pair and hold it. */
  lemma GroupIsExact(slots: seq<SlotWitness>, claim: Claim, leaves: seq<Digest>, accDepth: nat, committees: seq<Digest>)
    requires |leaves| == Pow2(accDepth) && |committees| == 32
    ensures (exists accAux, committeeAux ::
               AttestedBy(slots, OpeningsOf(leaves, accDepth, committees, accAux, committeeAux), claim, accDepth).Some?)
       <==> GroupOk(slots, claim, leaves, accDepth, committees)
    ensures forall at: Openings :: AttestedBy(slots, at, claim, accDepth).Some? ==>
      Counts(AttestedBy(slots, at, claim, accDepth).value, slots, claim.domain)
  {
    hide GroupOk, AttestedBy, Counts, Root;
    forall at: Openings | AttestedBy(slots, at, claim, accDepth).Some?
      ensures Counts(AttestedBy(slots, at, claim, accDepth).value, slots, claim.domain)
    {
      AttestedUnfolds(slots, at, claim, accDepth);
    }
    if accAux, committeeAux :|
      AttestedBy(slots, OpeningsOf(leaves, accDepth, committees, accAux, committeeAux), claim, accDepth).Some? {
      AcceptedIsOk(slots, OpeningsOf(leaves, accDepth, committees, accAux, committeeAux), claim, leaves, accDepth, committees);
    }
    if GroupOk(slots, claim, leaves, accDepth, committees) {
      var at := OkIsAccepted(slots, claim, leaves, accDepth, committees);
      assert at == OpeningsOf(leaves, accDepth, committees, at.accAux, at.committeeAux);
    }
  }

  // ---- the two circuits ---------------------------------------------------------------------------------------

  /** The slots of a witness, verified against what it opens. */
  function AttestedIn(w: SlotProofWitness, accDepth: nat): Option<Attested>
  {
    AttestedBy(w.slots, Openings(w.accRoot, w.accAux, w.committeeRoot, w.committeeAux), w.claim, accDepth)
  }

  /** A group proof is accepted if and only if its commitment opens and its slots are verified, and
      publishes what they count, the accumulator committed to. */
  lemma GroupProofIsExact(w: SlotProofWitness, accDepth: nat)
    ensures GroupOutputOf(w, accDepth)
         == if w.accumulatorCommitment == Commitment(w.accRoot, w.total) && AttestedIn(w, accDepth).Some? then
              var t := AttestedIn(w, accDepth).value;
              Some(GroupOutput(w.accumulatorCommitment, w.committeeRoot, w.claim.link, t.balance, t.mask,
                               MillerDigest(t.miller)))
            else None
  {
    hide AttestedBy;
  }

  /** Every vote of these messages is paired as often as it was signed. */
  ghost predicate PairedAsSigned(messages: seq<SignedMessage>)
  {
    forall p: Vote :: KeyedAs(messages, p) == SignedAs(messages, p)
  }

  /** A slot proof is, if moreover every vote of its messages is paired as often as it was signed. */
  lemma SlotProofIsExact(w: SlotProofWitness, accDepth: nat)
    ensures
      var messages := AllMessages(w.slots, w.claim.domain);
      SlotOutputOf(w, accDepth)
      == if w.accumulatorCommitment == Commitment(w.accRoot, w.total) && AttestedIn(w, accDepth).Some?
            && PairedAsSigned(messages)
         then
           var t := AttestedIn(w, accDepth).value;
           Some(SlotOutput(w.accumulatorCommitment, w.committeeRoot, w.claim.link, t.balance, t.mask))
         else None
  {
    hide AttestedBy, AllMessages, SupportOf, PairedAsSigned;
    if AttestedIn(w, accDepth).Some? {
      SidesAgree(w, accDepth);
    }
  }

  lemma SidesAgree(w: SlotProofWitness, accDepth: nat)
    requires AttestedIn(w, accDepth).Some?
    ensures FinalExpIsOne(AttestedIn(w, accDepth).value.miller) <==> PairedAsSigned(AllMessages(w.slots, w.claim.domain))
  {
    hide AttestedBy, AllMessages, SupportOf, PairedAsSigned, SlotsIn;
    AttestedUnfolds(w.slots, Openings(w.accRoot, w.accAux, w.committeeRoot, w.committeeAux), w.claim, accDepth);
    MillerSettles(AttestedIn(w, accDepth).value.miller, AllMessages(w.slots, w.claim.domain));
  }

  lemma MillerSettles(f: Fp12, messages: seq<SignedMessage>)
    requires forall p: Vote :: Coef(f.keys, p) == KeyedAs(messages, p) && Coef(f.sigs, p) == SignedAs(messages, p)
    ensures FinalExpIsOne(f) <==> PairedAsSigned(messages)
  {
    hide KeyedAs, SignedAs;
    if PairedAsSigned(messages) {
      SameCombo(f.keys, f.sigs);
    }
  }
}
