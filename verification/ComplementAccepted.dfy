/** From the collector to the circuit: a sound complement is accepted by the slot circuit, and
    counts exactly its marginal balance. */
module ComplementAccepted {
  import opened Wrappers
  import opened FormalSums
  import opened Ssz
  import opened Bls
  import opened UnitSums
  import opened Merkle
  import opened MultiProof
  import opened ProofBuilding
  import opened Accumulator
  import opened SlotProof
  import opened SlotSound
  import opened NamedOnce
  import opened Folds
  import opened Collector
  import opened SlotStream

  // ---- named validators ---------------------------------------------------------------------------------

  /** Validators opened under their own keys, no one twice, each in a set that keeps `other`. */
  ghost predicate NamedFrom(vs: seq<OpenedValidator>, members: set<nat>, other: nat)
  {
    && Distinct(IndicesOf(vs)) && other in members
    && forall v :: v in vs ==> v.key == Unit(v.index) && v.index in members && v.index != other
  }

  lemma NamedSplits(vs: seq<OpenedValidator>, members: set<nat>, other: nat)
    requires NamedFrom(vs, members, other) && vs != []
    ensures
      var front, last := vs[..|vs| - 1], vs[|vs| - 1];
      && NamedFrom(front, members, other) && last.key == Unit(last.index) && last.index in members && last.index != other
      && last.index !in ToSet(IndicesOf(front))
      && ToSet(IndicesOf(vs)) == ToSet(IndicesOf(front)) + {last.index}
  {
    var n := |vs| - 1;
    PrefixGrows(vs, n);
    PrefixGrows(IndicesOf(vs), n);
    assert IndicesOf(vs[..n]) == IndicesOf(vs)[..n];
    assert vs[n] in vs;
    forall i | 0 <= i < n ensures IndicesOf(vs)[i] != IndicesOf(vs)[n] {
    }
  }

  lemma OtherStays(vs: seq<OpenedValidator>, members: set<nat>, other: nat)
    requires NamedFrom(vs, members, other)
    ensures other in members - ToSet(IndicesOf(vs))
  {
    forall k | 0 <= k < |vs| ensures IndicesOf(vs)[k] != other {
      assert vs[k] in vs;
    }
  }

  lemma IndicesJoin(a: seq<OpenedValidator>, b: seq<OpenedValidator>)
    ensures IndicesOf(a + b) == IndicesOf(a) + IndicesOf(b)
    ensures ToSet(IndicesOf(a + b)) == ToSet(IndicesOf(a)) + ToSet(IndicesOf(b))
  {
  }

  /** Those named first, and those named after them from whoever is left. */
  lemma NamedDivides(a: seq<OpenedValidator>, b: seq<OpenedValidator>, members: set<nat>, other: nat)
    requires NamedFrom(a + b, members, other)
    ensures NamedFrom(a, members, other) && NamedFrom(b, members - ToSet(IndicesOf(a)), other)
  {
    var all := IndicesOf(a + b);
    IndicesJoin(a, b);
    forall i, j | 0 <= i < j < |a| ensures IndicesOf(a)[i] != IndicesOf(a)[j] {
      assert all[i] != all[j];
    }
    forall i, j | 0 <= i < j < |b| ensures IndicesOf(b)[i] != IndicesOf(b)[j] {
      assert all[|a| + i] != all[|a| + j];
    }
    forall v | v in a ensures v.key == Unit(v.index) && v.index in members && v.index != other {
      assert v in a + b;
    }
    forall v | v in b ensures v.key == Unit(v.index) && v.index in members - ToSet(IndicesOf(a)) && v.index != other {
      assert v in a + b;
      var j: nat :| j < |b| && b[j] == v;
      forall k | 0 <= k < |a| ensures IndicesOf(a)[k] != v.index {
        assert all[k] != all[|a| + j];
      }
    }
    OtherStays(a, members, other);
  }

  // ---- reading the slot -----------------------------------------------------------------------------------

  /** The working values once some members are named. */
  function Less(w: Working, members: set<nat>, vs: seq<OpenedValidator>): Working
  {
    w.(key := PointSum(Some(KeyOf(members - ToSet(IndicesOf(vs))))), named := w.named + NamedLeaves(vs))
  }

  lemma LessOne(w: Working, members: set<nat>, vs: seq<OpenedValidator>)
    requires vs != []
    ensures
      var front, last := vs[..|vs| - 1], vs[|vs| - 1];
      && members - ToSet(IndicesOf(front)) - {last.index} == members - ToSet(IndicesOf(vs))
      && Less(w, members, vs).named == Less(w, members, front).named + [NamedLeaf(last)]
  {
    var n := |vs| - 1;
    PrefixGrows(vs, n);
    IndicesJoin(vs[..n], [vs[n]]);
    assert IndicesOf([vs[n]]) == [vs[n].index];
    assert ToSet(IndicesOf(vs)) == ToSet(IndicesOf(vs[..n])) + {vs[n].index};
    ConcatAssociates(w.named, NamedLeaves(vs[..n]), [NamedLeaf(vs[n])]);
  }

  lemma NoneNamed(w: Working, members: set<nat>)
    requires w.key == PointSum(Some(KeyOf(members)))
    ensures Less(w, members, []) == w
  {
    var none: seq<OpenedValidator> := [];
    assert members - ToSet(IndicesOf(none)) == members;
    assert NamedLeaves(none) == [] && w.named + [] == w.named;
    assert Less(w, members, none).key == w.key && Less(w, members, none).named == w.named;
  }

  lemma {:induction false} SignersPass(start: Working, vs: seq<OpenedValidator>, members: set<nat>, other: nat)
    requires start.key == PointSum(Some(KeyOf(members))) && NamedFrom(vs, members, other)
    ensures NameSigners(start, vs) == Some(Signers(Less(start, members, vs), SumFor(ToSet(IndicesOf(vs)))))
    decreases |vs|
  {
    if vs == [] {
      NoneNamed(start, members);
    } else {
      var front, last := vs[..|vs| - 1], vs[|vs| - 1];
      NamedSplits(vs, members, other);
      SignersPass(start, front, members, other);
      var left := members - ToSet(IndicesOf(front));
      OtherStays(front, members, other);
      SubMember(left, last.index, other);
      AddMember(ToSet(IndicesOf(front)), last.index);
      LessOne(start, members, vs);
    }
  }

  /** One message signed by each of a set once, under the sum of their keys. */
  function BallotMessage(validators: set<nat>, root: Bytes32): SignedMessage
  {
    SignedMessage([KeyOf(validators)], root, [Compressed(SignedBy(validators, root))])
  }

  /** The working values once an attestation's signers are named and its message is pushed. */
  function Pushed(w: Working, members: set<nat>, a: Attestation, t: Target): Working
  {
    var named := Less(w, members, a.signers);
    named.(messages := w.messages + [BallotMessage(ToSet(IndicesOf(a.signers)), t.RootOf(a.data))])
  }

  lemma SecondaryPasses(w: Working, a: Attestation, members: set<nat>, other: nat, slot: nat, t: Target)
    requires w.key == PointSum(Some(KeyOf(members))) && NamedFrom(a.signers, members, other) && NamedOk(a, slot, t)
    ensures TakeSecondary(w, a, Claim(t.link, t.domain)) == Some(Pushed(w, members, a, t))
  {
    SignersPass(w, a.signers, members, other);
    assert IndicesOf(a.signers)[0] in ToSet(IndicesOf(a.signers));
    assert SignaturesOf([a]) == [a.signature];
  }

  /** Everyone a list of attestations names, as opened. */
  function NamedBy(atts: seq<Attestation>): seq<OpenedValidator>
    decreases |atts|
  {
    if atts == [] then [] else NamedBy(atts[..|atts| - 1]) + atts[|atts| - 1].signers
  }

  lemma {:induction false} NamedByIndices(atts: seq<Attestation>)
    ensures IndicesOf(NamedBy(atts)) == SignersIn(atts)
    decreases |atts|
  {
    if atts != [] {
      var n := |atts| - 1;
      NamedByIndices(atts[..n]);
      IndicesJoin(NamedBy(atts[..n]), atts[n].signers);
    }
  }

  function BallotsFor(atts: seq<Attestation>, t: Target): seq<SignedMessage>
    decreases |atts|
  {
    if atts == [] then []
    else
      var last := atts[|atts| - 1];
      BallotsFor(atts[..|atts| - 1], t) + [BallotMessage(ToSet(IndicesOf(last.signers)), t.RootOf(last.data))]
  }

  /** The working values once a list of attestations is read. */
  function AllPushed(w: Working, members: set<nat>, atts: seq<Attestation>, t: Target): Working
  {
    Less(w, members, NamedBy(atts)).(messages := w.messages + BallotsFor(atts, t))
  }

  lemma {:induction false} LeavesJoin(a: seq<OpenedValidator>, b: seq<OpenedValidator>)
    ensures NamedLeaves(a + b) == NamedLeaves(a) + NamedLeaves(b)
    decreases |b|
  {
    if b == [] {
      assert a + b == a;
    } else {
      ConcatLast(a, b);
      LeavesJoin(a, b[..|b| - 1]);
      ConcatAssociates(NamedLeaves(a), NamedLeaves(b[..|b| - 1]), [NamedLeaf(b[|b| - 1])]);
    }
  }

  /** Naming one list and then another is naming both. */
  lemma LessTwice(w: Working, members: set<nat>, a: seq<OpenedValidator>, b: seq<OpenedValidator>)
    ensures Less(Less(w, members, a), members - ToSet(IndicesOf(a)), b) == Less(w, members, a + b)
  {
    IndicesJoin(a, b);
    LeavesJoin(a, b);
    ConcatAssociates(w.named, NamedLeaves(a), NamedLeaves(b));
    assert members - ToSet(IndicesOf(a)) - ToSet(IndicesOf(b)) == members - ToSet(IndicesOf(a + b));
  }

  lemma PushedLast(w: Working, members: set<nat>, atts: seq<Attestation>, t: Target)
    requires atts != []
    ensures
      var front, last := atts[..|atts| - 1], atts[|atts| - 1];
      Pushed(AllPushed(w, members, front, t), members - ToSet(IndicesOf(NamedBy(front))), last, t)
      == AllPushed(w, members, atts, t)
  {
    var front, last := atts[..|atts| - 1], atts[|atts| - 1];
    LessTwice(w, members, NamedBy(front), last.signers);
    ConcatAssociates(w.messages, BallotsFor(front, t), [BallotMessage(ToSet(IndicesOf(last.signers)), t.RootOf(last.data))]);
  }

  lemma {:induction false} SecondariesPass(start: Working, atts: seq<Attestation>, members: set<nat>, other: nat,
                                           slot: nat, t: Target)
    requires start.key == PointSum(Some(KeyOf(members))) && NamedFrom(NamedBy(atts), members, other)
    requires forall a :: a in atts ==> NamedOk(a, slot, t)
    ensures TakeSecondaries(start, atts, Claim(t.link, t.domain)) == Some(AllPushed(start, members, atts, t))
    decreases |atts|
  {
    if atts == [] {
      NoneNamed(start, members);
      assert start.messages + [] == start.messages;
    } else {
      var front, last := atts[..|atts| - 1], atts[|atts| - 1];
      NamedDivides(NamedBy(front), last.signers, members, other);
      SecondariesPass(start, front, members, other, slot, t);
      assert last in atts;
      SecondaryPasses(AllPushed(start, members, front, t), last, members - ToSet(IndicesOf(NamedBy(front))), other, slot, t);
      PushedLast(start, members, atts, t);
    }
  }

  /** The working values once absentees are out, with their balance. */
  function LessAbsent(w: Working, members: set<nat>, vs: seq<OpenedValidator>): Working
    requires NamedBalance(vs) <= w.support
  {
    Less(w, members, vs).(support := w.support - NamedBalance(vs))
  }

  lemma AbsenteePasses(w: Working, v: OpenedValidator, members: set<nat>, other: nat, after: Working)
    requires w.key == PointSum(Some(KeyOf(members))) && v.key == Unit(v.index) && v.balance <= w.support
    requires v.index in members && other in members && v.index != other
    requires after.key == PointSum(Some(KeyOf(members - {v.index}))) && after.support == w.support - v.balance
    requires after.named == w.named + [NamedLeaf(v)] && after.messages == w.messages
    ensures TakeAbsentee(w, v) == Some(after)
  {
    SubMember(members, v.index, other);
  }

  lemma AbsenteesStepPasses(start: Working, vs: seq<OpenedValidator>, members: set<nat>, other: nat, before: Working, after: Working)
    requires NamedFrom(vs, members, other) && vs != [] && NamedBalance(vs) <= start.support
    requires before == LessAbsent(start, members, vs[..|vs| - 1]) && after == LessAbsent(start, members, vs)
    ensures TakeAbsentee(before, vs[|vs| - 1]) == Some(after)
  {
    var front, last := vs[..|vs| - 1], vs[|vs| - 1];
    NamedSplits(vs, members, other);
    OtherStays(front, members, other);
    LessOne(start, members, vs);
    AbsenteePasses(before, last, members - ToSet(IndicesOf(front)), other, after);
  }

  lemma {:induction false} AbsenteesPass(start: Working, vs: seq<OpenedValidator>, members: set<nat>, other: nat)
    requires start.key == PointSum(Some(KeyOf(members))) && NamedFrom(vs, members, other)
    requires NamedBalance(vs) <= start.support
    ensures TakeAbsentees(start, vs) == Some(LessAbsent(start, members, vs))
    decreases |vs|
  {
    if vs == [] {
      NoneNamed(start, members);
    } else {
      var front := vs[..|vs| - 1];
      NamedSplits(vs, members, other);
      AbsenteesPass(start, front, members, other);
      AbsenteesStepPasses(start, vs, members, other, LessAbsent(start, members, front), LessAbsent(start, members, vs));
    }
  }

  /** The slot's messages: the minority's, then the primary one. */
  function SlotBallots(c: SlotWitness, cover: set<nat>, t: Target): seq<SignedMessage>
    requires c.primary != []
  {
    BallotsFor(c.secondary, t) + [BallotMessage(cover, t.RootOf(c.primary[0].data))]
  }

  /** Everyone a slot names, as opened. */
  function AllNamed(c: SlotWitness): seq<OpenedValidator>
  {
    NamedBy(c.secondary) + c.absentees
  }

  lemma AllNamedIndices(c: SlotWitness)
    ensures IndicesOf(AllNamed(c)) == NamedIn(c)
  {
    NamedByIndices(c.secondary);
    IndicesJoin(NamedBy(c.secondary), c.absentees);
  }

  /** A sound complement names members other than any it covers. */
  lemma SoundNames(r: SlotComplement, cover: set<nat>, st: State, slot: nat, t: Target, other: nat)
    requires WellFormed(t) && Sound(r, cover, st, slot, t) && other in cover
    ensures NamedFrom(AllNamed(r.complement), ToSet(t.committees.members[slot % t.slotsPerEpoch]), other)
  {
    var c := r.complement;
    AllNamedIndices(c);
    forall v | v in AllNamed(c) ensures v.key == Unit(v.index) && v.index in NamedIn(c) {
      NamedOpened(c, slot, t, v);
      var k: nat :| k < |AllNamed(c)| && AllNamed(c)[k] == v;
      assert IndicesOf(AllNamed(c))[k] == v.index;
    }
  }

  lemma {:induction false} NamedByOpened(atts: seq<Attestation>, slot: nat, t: Target)
    requires forall a :: a in atts ==> NamedOk(a, slot, t)
    ensures FromOpenings(NamedBy(atts), t.committees)
    decreases |atts|
  {
    if atts != [] {
      NamedByOpened(atts[..|atts| - 1], slot, t);
      assert atts[|atts| - 1] in atts;
    }
  }

  lemma NamedOpened(c: SlotWitness, slot: nat, t: Target, v: OpenedValidator)
    requires WellFormed(t) && (forall s :: s in c.secondary ==> NamedOk(s, slot, t))
    requires FromOpenings(c.absentees, t.committees) && v in AllNamed(c)
    ensures v.index in t.committees.openings && t.committees.openings[v.index] == v && v.key == Unit(v.index)
  {
    NamedByOpened(c.secondary, slot, t);
  }

  lemma RemainingPasses(c: SlotWitness, members: set<nat>, other: nat, slot: nat, t: Target)
    requires c.committee.key == KeyOf(members) && NamedBalance(c.absentees) <= c.committee.balance
    requires NamedFrom(AllNamed(c), members, other) && forall s :: s in c.secondary ==> NamedOk(s, slot, t)
    ensures Remaining(OpenSlot(NOTHING_READ, c), c, Claim(t.link, t.domain))
         == Some(LessAbsent(AllPushed(OpenSlot(NOTHING_READ, c), members, c.secondary, t),
                            members - ToSet(IndicesOf(NamedBy(c.secondary))), c.absentees))
  {
    var start := OpenSlot(NOTHING_READ, c);
    NamedDivides(NamedBy(c.secondary), c.absentees, members, other);
    SecondariesPass(start, c.secondary, members, other, slot, t);
    var left := members - ToSet(IndicesOf(NamedBy(c.secondary)));
    AbsenteesPass(AllPushed(start, members, c.secondary, t), c.absentees, left, other);
  }

  /** What is left when a slot's minority and absentees are out: the cover's key, the marginal
      balance, the leaves of everyone named, and the minority's messages. */
  function Present(r: SlotComplement, cover: set<nat>, t: Target): Working
    requires r.marginal < U64
  {
    var c := r.complement;
    Working(PointSum(Some(KeyOf(cover))), r.marginal, NamedLeaves(AllNamed(c)), BallotsFor(c.secondary, t))
  }

  lemma LeftIsPresent(r: SlotComplement, cover: set<nat>, members: set<nat>, t: Target)
    requires NamedBalance(r.complement.absentees) <= r.complement.committee.balance
    requires r.marginal == SlotSupport(r.complement)
    requires cover <= members && ToSet(NamedIn(r.complement)) == members - cover
    ensures
      var c := r.complement;
      LessAbsent(AllPushed(OpenSlot(NOTHING_READ, c), members, c.secondary, t),
                 members - ToSet(IndicesOf(NamedBy(c.secondary))), c.absentees) == Present(r, cover, t)
  {
    var c := r.complement;
    LessTwice(OpenSlot(NOTHING_READ, c), members, NamedBy(c.secondary), c.absentees);
    AllNamedIndices(c);
    assert members - (members - cover) == cover;
    assert [] + NamedLeaves(AllNamed(c)) == NamedLeaves(AllNamed(c));
    assert [] + BallotsFor(c.secondary, t) == BallotsFor(c.secondary, t);
  }

  lemma RemainingIsPresent(r: SlotComplement, cover: set<nat>, st: State, slot: nat, t: Target)
    requires WellFormed(t) && Sound(r, cover, st, slot, t)
    ensures r.marginal < U64
    ensures Remaining(OpenSlot(NOTHING_READ, r.complement), r.complement, Claim(t.link, t.domain))
         == Some(Present(r, cover, t))
  {
    var members := ToSet(t.committees.members[slot % t.slotsPerEpoch]);
    var other :| other in cover;
    SoundNames(r, cover, st, slot, t, other);
    RemainingPasses(r.complement, members, other, slot, t);
    LeftIsPresent(r, cover, members, t);
  }

  /** The slot as read: its marginal balance, its one bit, its leaf and its messages. */
  function SlotRun(r: SlotComplement, cover: set<nat>, t: Target): Run
    requires r.marginal < U64 && r.complement.primary != []
  {
    var c := r.complement;
    Run(r.marginal, {c.slot}, Some(c.slot), NamedLeaves(AllNamed(c)),
        [Opened(Leaf(c.committee.key, c.committee.balance), c.slot)], SlotBallots(c, cover, t))
  }

  lemma PresentIsTaken(c: SlotWitness, present: Working, key: Point, claim: Claim)
    requires c.slot < MAX_SLOTS && |c.primary| == 1 && OneUnnamedMessage(c.primary)
    requires Remaining(OpenSlot(NOTHING_READ, c), c, claim) == Some(present) && present.key == PointSum(Some(key))
    requires c.primary[0].data.link == claim.link
    ensures
      var d := c.primary[0].data;
      var message := SignedMessage([key], SigningRoot(AttestationDataRoot(d), claim.domain), [c.primary[0].signature]);
      TakeSlot(NOTHING_READ, c, claim) == Some(Run(
        present.support, {c.slot}, Some(c.slot), present.named,
        [Opened(Leaf(c.committee.key, c.committee.balance), c.slot)], present.messages + [message]))
  {
    assert SignaturesOf(c.primary) == [c.primary[0].signature];
    assert {} + {c.slot} == {c.slot};
    var leaf := Opened(Leaf(c.committee.key, c.committee.balance), c.slot);
    assert NOTHING_READ.leaves + [leaf] == [leaf];
  }

  /** A sound complement is read by the circuit, and counts its marginal balance. */
  lemma SlotIsTaken(r: SlotComplement, cover: set<nat>, st: State, slot: nat, t: Target)
    requires WellFormed(t) && Sound(r, cover, st, slot, t)
    ensures r.marginal < U64
    ensures TakeSlots([r.complement], Claim(t.link, t.domain)) == Some(SlotRun(r, cover, t))
  {
    RemainingIsPresent(r, cover, st, slot, t);
    PresentIsTaken(r.complement, Present(r, cover, t), KeyOf(cover), Claim(t.link, t.domain));
    TakeOne(r.complement, Claim(t.link, t.domain));
  }

  lemma TakeOne(c: SlotWitness, claim: Claim)
    ensures TakeSlots([c], claim) == TakeSlot(NOTHING_READ, c, claim)
  {
    assert [c][..0] == [];
  }

  // ---- opening what was named -----------------------------------------------------------------------------

  /** The accumulator holds the leaf of every validator the committee proof opens. */
  ghost predicate HoldsOpenings(leaves: seq<Digest>, depth: nat, c: Committees)
  {
    && |leaves| == Pow2(depth)
    && forall v :: v in c.openings ==> v < |leaves| && leaves[v] == Leaf(c.openings[v].key, c.openings[v].balance)
  }

  /** Each named leaf is the tree's own. */
  ghost predicate OwnLeaves(items: seq<Opened<Digest>>, leaves: seq<Digest>)
  {
    forall x :: x in items ==> x.index < |leaves| && x.leaf == leaves[x.index]
  }

  /** A tree's own leaves, at distinct positions, open with the siblings they need. */
  lemma OwnLeavesOpen(items: seq<Opened<Digest>>, leaves: seq<Digest>, depth: nat) returns (aux: seq<Digest>)
    requires NamedOnce.Apart(items) && OwnLeaves(items, leaves) && |leaves| == Pow2(depth)
    ensures NamedOpen(items, aux, Root(Compress, Zero, leaves, depth), depth)
  {
    var sorted := SortedByIndex(items);
    if items == [] {
      aux := [];
    } else {
      ApartSorts(items);
      RisingIncreases(-1, sorted);
      aux := ProofAux(Compress, Zero, leaves, 0, depth, Indices(sorted));
      forall i | i in Indices(sorted) ensures i < Pow2(depth) {
        var k: nat :| k < |sorted| && Indices(sorted)[k] == i;
        assert sorted[k] in sorted;
      }
      assert items[0] in sorted;
      SortedIsOwn(sorted, leaves);
      BatchComplete(Compress, Zero, leaves, depth, Indices(sorted));
    }
  }

  lemma SortedIsOwn(sorted: seq<Opened<Digest>>, leaves: seq<Digest>)
    requires OwnLeaves(sorted, leaves)
    ensures OpenedAt(Compress, Zero, leaves, Indices(sorted)) == sorted
  {
    forall k | 0 <= k < |sorted| ensures OpenedAt(Compress, Zero, leaves, Indices(sorted))[k] == sorted[k] {
      assert sorted[k] in sorted;
    }
  }

  lemma {:induction false} NamedLeavesApart(vs: seq<OpenedValidator>)
    requires Distinct(IndicesOf(vs))
    ensures |NamedLeaves(vs)| == |vs| && forall k :: 0 <= k < |vs| ==> NamedLeaves(vs)[k] == NamedLeaf(vs[k])
    decreases |vs|
  {
    if vs != [] {
      var n := |vs| - 1;
      assert IndicesOf(vs[..n]) == IndicesOf(vs)[..n];
      NamedLeavesApart(vs[..n]);
    }
  }

  lemma {:induction false} PairwiseApart(items: seq<Opened<Digest>>)
    requires forall i, j :: 0 <= i < j < |items| ==> items[i].index != items[j].index
    ensures NamedOnce.Apart(items)
    decreases |items|
  {
    if items != [] {
      forall x | x in items[1..] ensures x.index != items[0].index {
        var k: nat :| k < |items| - 1 && items[1..][k] == x;
        assert x == items[k + 1];
      }
      PairwiseApart(items[1..]);
    }
  }

  lemma NamedOpens(r: SlotComplement, cover: set<nat>, st: State, slot: nat, t: Target, leaves: seq<Digest>, depth: nat)
    returns (aux: seq<Digest>)
    requires WellFormed(t) && Sound(r, cover, st, slot, t) && HoldsOpenings(leaves, depth, t.committees)
    ensures NamedOpen(NamedLeaves(AllNamed(r.complement)), aux, Root(Compress, Zero, leaves, depth), depth)
  {
    hide PrimarySound, LargestCover;
    var c := r.complement;
    var items := NamedLeaves(AllNamed(c));
    AllNamedIndices(c);
    NamedLeavesApart(AllNamed(c));
    forall i, j | 0 <= i < j < |items| ensures items[i].index != items[j].index {
      assert IndicesOf(AllNamed(c))[i] != IndicesOf(AllNamed(c))[j];
    }
    PairwiseApart(items);
    forall x | x in items ensures x.index < |leaves| && x.leaf == leaves[x.index] {
      var k: nat :| k < |items| && items[k] == x;
      NamedOpened(c, slot, t, AllNamed(c)[k]);
    }
    aux := OwnLeavesOpen(items, leaves, depth);
  }

  lemma OneOpens(leaves: seq<Digest>, at: nat, depth: nat) returns (aux: seq<Digest>)
    requires |leaves| == Pow2(depth) && at < |leaves|
    ensures RootOfLeaves(Compress, [Opened(leaves[at], at)], aux, depth) == Some(Root(Compress, Zero, leaves, depth))
  {
    aux := ProofAux(Compress, Zero, leaves, 0, depth, [at]);
    BatchComplete(Compress, Zero, leaves, depth, [at]);
    assert OpenedAt(Compress, Zero, leaves, [at]) == [Opened(leaves[at], at)];
  }

  // ---- the pairing --------------------------------------------------------------------------------------------

  /** A message whose signature is of exactly the keys it is paired under, no key negative. */
  ghost predicate Settles(m: SignedMessage)
  {
    && |m.pubkeys| == 1 && m.pubkeys[0] != IDENTITY && (forall v :: v in m.pubkeys[0] ==> m.pubkeys[0][v] > 0)
    && m.signatures == [OnCurve(Tag(m.pubkeys[0], m.root), 0)]
  }

  lemma BallotSettles(validators: set<nat>, root: Bytes32)
    requires validators != {}
    ensures Settles(BallotMessage(validators, root))
  {
    var key := KeyOf(validators);
    forall p: Vote ensures Coef(Ballots(validators, root), p) == Coef(Tag(key, root), p) {
      assert p == (p.0, p.1);
    }
    SameCombo(Ballots(validators, root), Tag(key, root));
    var v :| v in validators;
    assert Coef(key, v) == 1 && Coef(Ballots(validators, root), (v, root)) == 1;
    forall u | u in key ensures key[u] > 0 {
      assert Coef(key, u) == key[u];
    }
  }

  /** Gathered from messages that settle: both sides agree, and no vote is negative. */
  ghost predicate Balanced(g: Gathered)
  {
    g.sum == SignatureSum(g.keys, 0) && forall p :: p in g.keys ==> g.keys[p] > 0
  }

  lemma SettlesAdds(g: Gathered, m: SignedMessage)
    requires Balanced(g) && Settles(m)
    ensures GatherOne(g, m) == Some(Gathered(Plus(g.keys, Tag(m.pubkeys[0], m.root)),
                                             SignatureSum(Plus(g.keys, Tag(m.pubkeys[0], m.root)), 0)))
  {
    var key := m.pubkeys[0];
    assert m.pubkeys == [key] && m.pubkeys[..0] == [] && m.signatures[..0] == [];
    assert AddAll(PointSum(None), m.pubkeys[..0]) == Some(PointSum(None));
    assert SumSignatures(g.sum, m.signatures[..0]) == Some(g.sum);
  }

  /** Votes added to votes: none is lost. */
  ghost predicate Includes(more: Combo<Vote>, fewer: Combo<Vote>)
  {
    forall p :: p in fewer ==> p in more
  }

  lemma PositiveAdds(votes: Combo<Vote>, key: Point, root: Bytes32)
    requires forall p :: p in votes ==> votes[p] > 0
    requires forall v :: v in key ==> key[v] > 0
    ensures
      var sum := Plus(votes, Tag(key, root));
      && (forall p :: p in sum ==> sum[p] > 0)
      && Includes(sum, votes) && forall v :: v in key ==> (v, root) in sum
  {
    var tagged := Tag(key, root);
    var sum := Plus(votes, tagged);
    forall p: Vote ensures Coef(tagged, p) >= 0 && Coef(sum, p) == Coef(votes, p) + Coef(tagged, p) {
      assert p == (p.0, p.1);
    }
    forall v | v in key ensures (v, root) in sum {
      assert Coef(tagged, (v, root)) == key[v];
    }
  }

  /** Someone is left of every message gathered. */
  ghost predicate AllHeld(messages: seq<SignedMessage>, votes: Combo<Vote>)
  {
    forall m :: m in messages ==> exists v: nat :: (v, m.root) in votes
  }

  lemma {:induction false} SettledGather(messages: seq<SignedMessage>)
    requires forall m :: m in messages ==> Settles(m)
    ensures Gather(messages).Some? && Balanced(Gather(messages).value) && AllHeld(messages, Gather(messages).value.keys)
    decreases |messages|
  {
    if messages != [] {
      var n := |messages| - 1;
      PrefixGrows(messages, n);
      SettledGather(messages[..n]);
      var g, m := Gather(messages[..n]).value, messages[n];
      assert m in messages;
      SettlesAdds(g, m);
      PositiveAdds(g.keys, m.pubkeys[0], m.root);
      HeldGrows(messages[..n], m, g.keys, Gather(messages).value.keys);
    }
  }

  lemma HeldGrows(messages: seq<SignedMessage>, m: SignedMessage, fewer: Combo<Vote>, more: Combo<Vote>)
    requires AllHeld(messages, fewer) && Includes(more, fewer) && m.pubkeys != [] && m.pubkeys[0] != IDENTITY
    requires forall v :: v in m.pubkeys[0] ==> (v, m.root) in more
    ensures AllHeld(messages + [m], more)
  {
    forall n | n in messages + [m] ensures exists v: nat :: (v, n.root) in more {
      if n in messages {
        var v: nat :| (v, n.root) in fewer;
        assert (v, n.root) in more;
      } else {
        var v: nat :| v in m.pubkeys[0];
        assert (v, n.root) in more;
      }
    }
  }

  /** Messages that settle have an accumulator, and the pairing settles it. */
  lemma SettledMiller(messages: seq<SignedMessage>)
    requires messages != [] && forall m :: m in messages ==> Settles(m)
    ensures MillerAccumulator(messages).Some? && FinalExpIsOne(MillerAccumulator(messages).value)
  {
    hide Gather, Settles, Balanced;
    SettledGather(messages);
    var votes := Gather(messages).value.keys;
    forall m | m in messages ensures KeyAt(votes, m.root) != IDENTITY && votes != map[] {
      var v: nat :| (v, m.root) in votes;
      assert Coef(KeyAt(votes, m.root), v) == Coef(votes, (v, m.root)) != 0;
    }
    assert messages[0] in messages;
  }

  // ---- accepted --------------------------------------------------------------------------------------------------

  lemma {:induction false} BallotsSettle(atts: seq<Attestation>, slot: nat, t: Target)
    requires forall a :: a in atts ==> NamedOk(a, slot, t)
    ensures forall m :: m in BallotsFor(atts, t) ==> Settles(m)
    decreases |atts|
  {
    if atts != [] {
      var front, last := atts[..|atts| - 1], atts[|atts| - 1];
      BallotsSettle(front, slot, t);
      assert last in atts && IndicesOf(last.signers)[0] in ToSet(IndicesOf(last.signers));
      BallotSettles(ToSet(IndicesOf(last.signers)), t.RootOf(last.data));
    }
  }

  lemma SlotSettles(r: SlotComplement, cover: set<nat>, st: State, slot: nat, t: Target) returns (miller: Fp12)
    requires Sound(r, cover, st, slot, t)
    ensures MillerAccumulator(SlotBallots(r.complement, cover, t)) == Some(miller) && FinalExpIsOne(miller)
  {
    BallotsSettle(r.complement.secondary, slot, t);
    BallotSettles(cover, t.RootOf(r.complement.primary[0].data));
    SettledMiller(SlotBallots(r.complement, cover, t));
    miller := MillerAccumulator(SlotBallots(r.complement, cover, t)).value;
  }

  /** What the collector hands over, the circuit accepts. Over an accumulator that holds the
      leaves the committee proof opens, and a committee tree that holds the slot's leaf, every
      sound complement has openings under which it is verified: it counts exactly its marginal
      balance and its one slot, everyone named opens at distinct positions, and its pairing is
      settled, so it is a slot proof by itself as well as a part of a group. */
  lemma ComplementIsAccepted(r: SlotComplement, cover: set<nat>, st: State, slot: nat, t: Target, leaves: seq<Digest>,
                             committees: seq<Digest>, depth: nat) returns (at: Openings, miller: Fp12)
    requires WellFormed(t) && Sound(r, cover, st, slot, t) && HoldsOpenings(leaves, depth, t.committees)
    requires |committees| == Pow2(TREE_DEPTH) && r.complement.slot < |committees|
    requires committees[r.complement.slot] == Leaf(r.complement.committee.key, r.complement.committee.balance)
    ensures at.accRoot == Root(Compress, Zero, leaves, depth)
    ensures at.committeeRoot == Root(Compress, Zero, committees, TREE_DEPTH)
    ensures r.marginal < U64
    ensures AttestedBy([r.complement], at, Claim(t.link, t.domain), depth)
         == Some(Attested(r.marginal, {r.complement.slot}, miller))
    ensures FinalExpIsOne(miller)
  {
    SlotIsTaken(r, cover, st, slot, t);
    var accAux := NamedOpens(r, cover, st, slot, t, leaves, depth);
    var committeeAux := OneOpens(committees, r.complement.slot, TREE_DEPTH);
    at := Openings(Root(Compress, Zero, leaves, depth), accAux, Root(Compress, Zero, committees, TREE_DEPTH), committeeAux);
    miller := SlotSettles(r, cover, st, slot, t);
  }
}
