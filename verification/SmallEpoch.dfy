/** Two epochs of a chain with two validators, the second of which is absent: the first epoch is
    justified, the second one joins, and the next epoch finalizes with two thirds of the stake. */
module SmallEpoch {
  import opened Wrappers
  import opened FormalSums
  import opened Ssz
  import opened Bls
  import opened UnitSums
  import opened Merkle
  import opened Accumulator
  import opened SlotProof
  import opened SlotSound
  import opened Containers
  import opened Committee
  import opened CommitteeExact
  import opened SlotCuts
  import opened SlotExact
  import opened PairingExact
  import opened GroupExact
  import OverflowingDiff

  // ---- two registries, and one committee each -------------------------------------------------------

  /** Validator 0 with a balance of two and, once it has joined, validator 1 with one. */
  function Validators(joined: bool): (leaves: seq<Digest>)
    ensures |leaves| == 2
  {
    if joined then OverflowingDiff.Joined(2) else OverflowingDiff.Leaves(2)
  }

  function Stake(joined: bool): UInt64
  {
    if joined then 3 else 2
  }

  function Present(joined: bool): set<nat>
  {
    if joined then {0, 1} else {0}
  }

  function MemberList(joined: bool): seq<CommitteeMember>
  {
    [CommitteeMember(0, Unit(0), 2, 0)] + if joined then [CommitteeMember(1, Unit(1), 1, 0)] else []
  }

  ghost function Committees(joined: bool): (committees: seq<Digest>)
    ensures |committees| == 32
  {
    CommitteesOf(MemberList(joined), Validators(joined), 1)
  }

  function Committed(joined: bool): Digest
  {
    Commitment(Root(Compress, Zero, Validators(joined), 1), Stake(joined))
  }

  lemma SmallDigits()
    ensures Pow2(1) == 2 && Low(0, 1) == 0 && Low(1, 1) == 1 && High(0, 1) == 0 && High(1, 1) == 0
  {
    assert Pow2(0) == 1 && Low(0, 0) == 0 && High(0, 0) == 0;
  }

  lemma RegistryIsCommitted(joined: bool)
    ensures Commits(Committed(joined), Validators(joined), 1) && Registry(Validators(joined))
    ensures Total(Validators(joined)) == Stake(joined)
  {
    SmallDigits();
    OverflowingDiff.TwoLeaves(Validators(joined)[0], Validators(joined)[1]);
    assert Validators(joined) == [Validators(joined)[0], Validators(joined)[1]];
  }

  lemma MembersAreSeatable(joined: bool)
    ensures Seatable(MemberList(joined), Validators(joined), 1)
  {
    SmallDigits();
  }

  lemma SeatedIsPresent(joined: bool)
    ensures Seated(MemberList(joined), 0, 1) == Present(joined)
  {
    SmallDigits();
    var members := MemberList(joined);
    assert members[0].slot == 0 && members[0] in members;
    if joined {
      assert members[1].slot == 0 && members[1] in members;
    }
  }

  lemma PresentHoldAll(joined: bool)
    ensures BalanceHeld(Present(joined), Validators(joined)) == Stake(joined)
  {
    var balances := Balances(Validators(joined));
    assert balances(0) == 2 && (joined ==> balances(1) == 1);
    SumTakes<nat>(Present(joined), balances, 0);
    if joined {
      assert Present(joined) - {0} == {1};
      SumTakes<nat>({1}, balances, 1);
    }
  }

  // ---- one slot, signed by validator 0 alone --------------------------------------------------------------

  function DataFor(link: Link): AttestationData
  {
    AttestationData(0, 0, ZERO_CHUNK, link)
  }

  /** Validator 0's own signature. */
  function SignedAlone(link: Link, domain: Bytes32): Signature
  {
    OnCurve(Unit((0, SignedRoot(DataFor(link), domain))), 0)
  }

  function Missing(joined: bool): seq<OpenedValidator>
  {
    if joined then [OpenedValidator(1, Unit(1), 1)] else []
  }

  function SlotThere(joined: bool, claim: Claim): SlotWitness
  {
    SlotWitness(0, CommitteeAggregate(KeyOf(Present(joined)), Stake(joined)),
                [Attestation(DataFor(claim.link), SignedAlone(claim.link, claim.domain), [])], [], Missing(joined))
  }

  lemma MissingSum(joined: bool)
    ensures KeySum(Missing(joined)) == if joined then Unit(1) else IDENTITY
    ensures NamedBalance(Missing(joined)) == if joined then 1 else 0
  {
    if joined {
      assert Missing(joined)[..0] == [];
      PlusNothing<nat>(Unit(1));
    }
  }

  lemma OthersKeyIsLeft(joined: bool)
    ensures KeyWithout(KeyOf(Present(joined)), Missing(joined)) == Unit(0)
  {
    hide KeySum, Missing, KeyOf;
    MissingSum(joined);
    var left: Point := KeyWithout(KeyOf(Present(joined)), Missing(joined));
    forall v: nat ensures Coef(left, v) == Coef(Unit(0), v) {
    }
    SameCombo(left, Unit(0));
  }

  lemma MissingTakenOut(joined: bool)
    ensures CanTakeOut(KeyOf(Present(joined)), Missing(joined))
  {
    hide KeyOf;
    var key: Point := KeyOf(Present(joined));
    if joined {
      assert Missing(joined)[..0] == [];
      WithoutNothing(key);
      assert Coef(Plus(key, Unit(1)), 0) == 1 && Coef(Unit(1), 0) == 0;
    }
  }

  lemma SlotThereOk(joined: bool, claim: Claim)
    ensures SlotOk(SlotThere(joined, claim), claim)
    ensures NamedIn(SlotThere(joined, claim)) == Missing(joined)
    ensures MessagesIn(SlotThere(joined, claim), claim.domain)
         == [Alone(SignedRoot(DataFor(claim.link), claim.domain))]
  {
    hide KeyOf, SignedRoot, KeyWithout, CanTakeOut, Missing, SecondaryOk, NamedBalance;
    var slot := SlotThere(joined, claim);
    MissingSum(joined);
    OthersKeyIsLeft(joined);
    MissingTakenOut(joined);
    assert NamedIn(slot) == Missing(joined);
    OneSignature(slot.primary);
    assert SecondaryMessages([], claim.domain) == [];
  }

  lemma OneSignature(primary: seq<Attestation>)
    requires |primary| == 1
    ensures SignaturesOf(primary) == [primary[0].signature]
  {
    assert primary[..0] == [];
  }

  lemma OneKeyTotal(key: Point)
    ensures PointTotal([key]) == key && CanAddUp([key])
  {
    assert [key][..0] == [];
    PlusNothing<nat>(key);
  }

  lemma OneSigned(sig: Signature, p: Vote)
    requires sig.OnCurve?
    ensures SignedOnce([sig], p) == Coef(sig.sum, p) && CofactorOnce([sig]) == sig.cofactor
  {
    assert [sig][..0] == [];
  }

  function Alone(root: Bytes32): SignedMessage
  {
    SignedMessage([Unit(0)], root, [OnCurve(Unit((0, root)), 0)])
  }

  lemma OneVote(root: Bytes32, p: Vote)
    ensures KeyedAs([Alone(root)], p) == SignedAs([Alone(root)], p) == if p == (0, root) then 1 else 0
    ensures CofactorOf([Alone(root)]) == 0
  {
    OneKeyTotal(Unit(0));
    OneSigned(OnCurve(Unit((0, root)), 0), p);
    assert [Alone(root)][..0] == [];
    assert p == (p.0, p.1);
  }

  /** One message, signed once by the one key. */
  lemma OneMessagePairs(root: Bytes32)
    ensures Pairable([Alone(root)]) && forall p: Vote :: KeyedAs([Alone(root)], p) == SignedAs([Alone(root)], p)
  {
    hide KeyedAs, SignedAs, CofactorOf;
    forall p: Vote ensures KeyedAs([Alone(root)], p) == SignedAs([Alone(root)], p) {
      OneVote(root, p);
    }
    OneVote(root, (0, root));
    OneKeyTotal(Unit(0));
  }

  lemma OneSlotAdds(slot: SlotWitness, domain: Bytes32)
    ensures AllNamed([slot]) == NamedIn(slot) && AllMessages([slot], domain) == MessagesIn(slot, domain)
    ensures SupportOf([slot]) == slot.committee.balance - NamedBalance(slot.absentees)
    ensures SlotsIn([slot]) == {slot.slot}
  {
    hide NamedIn, MessagesIn, NamedBalance;
    assert [slot][..0] == [];
    assert [] + NamedIn(slot) == NamedIn(slot) && [] + MessagesIn(slot, domain) == MessagesIn(slot, domain);
    assert slot in [slot];
  }

  lemma CommitteeIsThere(joined: bool)
    ensures Committees(joined)[0] == Leaf(KeyOf(Present(joined)), Stake(joined))
  {
    hide KeyOf, Seated, BalanceHeld;
    SeatedIsPresent(joined);
    PresentHoldAll(joined);
  }

  lemma MissingIsOwn(joined: bool)
    ensures NamesOwn(Missing(joined), Validators(joined), 1)
  {
    SmallDigits();
  }

  /** The slot is a group by itself, over its registry and committees, worth two. */
  lemma SlotThereIsGroup(joined: bool, claim: Claim)
    ensures GroupOk([SlotThere(joined, claim)], claim, Validators(joined), 1, Committees(joined))
    ensures SupportOf([SlotThere(joined, claim)]) == 2 && SlotsIn([SlotThere(joined, claim)]) == {0}
    ensures
      var messages := AllMessages([SlotThere(joined, claim)], claim.domain);
      forall p: Vote :: KeyedAs(messages, p) == SignedAs(messages, p)
  {
    hide KeyOf, SignedRoot, SlotOk, MessagesIn, NamedIn, Pairable, NamesOwn, Validators, Committees, AllNamed, AllMessages,
      SupportOf, SlotsIn, NamedBalance, KeyedAs, SignedAs, Missing;
    SlotThereOk(joined, claim);
    MissingSum(joined);
    OthersKeyIsLeft(joined);
    MissingTakenOut(joined);
    OneMessagePairs(SignedRoot(DataFor(claim.link), claim.domain));
    OneSlotAdds(SlotThere(joined, claim), claim.domain);
    CommitteeIsThere(joined);
    MissingIsOwn(joined);
  }

  /** The slot is verified over the two trees, and its own pairing settles. */
  lemma SlotThereCounts(joined: bool, claim: Claim) returns (at: Openings)
    ensures at.accRoot == Root(Compress, Zero, Validators(joined), 1)
    ensures at.committeeRoot == Root(Compress, Zero, Committees(joined), 5)
    ensures AttestedBy([SlotThere(joined, claim)], at, claim, 1).Some?
    ensures
      var t := AttestedBy([SlotThere(joined, claim)], at, claim, 1).value;
      t.balance == 2 && t.mask == {0} && t.miller.keys == t.miller.sigs
  {
    hide GroupOk, AttestedBy, AllMessages, SupportOf, SlotsIn, SlotThere, Validators, Committees, Root, KeyedAs, SignedAs;
    SmallDigits();
    SlotThereIsGroup(joined, claim);
    at := OkIsAccepted([SlotThere(joined, claim)], claim, Validators(joined), 1, Committees(joined));
    AttestedUnfolds([SlotThere(joined, claim)], at, claim, 1);
    var t := AttestedBy([SlotThere(joined, claim)], at, claim, 1).value;
    assert Counts(t, [SlotThere(joined, claim)], claim.domain);
    forall p: Vote ensures Coef(t.miller.keys, p) == Coef(t.miller.sigs, p) {
    }
    SameCombo(t.miller.keys, t.miller.sigs);
  }

  /** The committee guest has a run for each registry, under any epoch. */
  lemma CommitteeRuns(joined: bool, epoch: nat) returns (w: CommitteeWitness)
    ensures CommitteeOutputOf(w, 1)
         == Some(CommitteeOutput(Committed(joined), epoch, Root(Compress, Zero, Committees(joined), 5)))
  {
    hide CommitteeOutputOf, Seatable, Validators, Root, Registry, MemberList;
    RegistryIsCommitted(joined);
    MembersAreSeatable(joined);
    var asked := CommitteeWitness(
      Committed(joined), epoch, Root(Compress, Zero, Validators(joined), 1), Stake(joined), MemberList(joined), []);
    CommitteeIsExact(asked, 1, Validators(joined));
    var aux :| CommitteeOutputOf(asked.(aux := aux), 1).Some?;
    w := asked.(aux := aux);
    CommitteesAreMembers(w, 1, Validators(joined));
  }
}
