/** The committee proof over a registry, exactly: which members it takes, and who sits where. */
module CommitteeExact {
  import opened Wrappers
  import opened FormalSums
  import opened Bls
  import opened UnitSums
  import opened Merkle
  import opened MultiProof
  import opened ProofBuilding
  import opened Accumulator
  import opened SlotProof
  import opened SlotSound
  import opened Tallies
  import opened Committee
  import opened CommitteeSound
  import opened FcrSound

  /** Members in increasing order of index, each in a slot of the epoch. */
  predicate Listed(members: seq<CommitteeMember>)
  {
    && (forall i, j :: 0 <= i < j < |members| ==> members[i].index < members[j].index)
    && (forall m :: m in members ==> m.slot < MAX_SLOTS)
  }

  // ---- who sits in a slot ---------------------------------------------------------------------------

  /** The positions of the members given a slot. */
  function Seated(members: seq<CommitteeMember>, slot: nat, depth: nat): set<nat>
  {
    set m | m in members && m.slot == slot :: Low(m.index, depth)
  }

  /** The committee leaf of a set of validators: each one's key once, and their balances' sum. */
  ghost function CommitteeOf(validators: set<nat>, leaves: seq<Digest>): Digest
  {
    if validators == {} then Zero else Leaf(KeyOf(validators), BalanceHeld(validators, leaves))
  }

  ghost function BalanceHeld(validators: set<nat>, leaves: seq<Digest>): (balance: nat)
    ensures balance == SumOver(validators, Balances(leaves))
  {
    BalanceHeldIsSum(validators, leaves);
    SumOver(validators, Balances(leaves))
  }

  lemma BalanceHeldIsSum(validators: set<nat>, leaves: seq<Digest>)
    ensures SumOver(validators, Balances(leaves)) >= 0
  {
    SumNonNegative<nat>(validators, Balances(leaves));
  }

  /** The committees of an epoch, slot by slot. */
  ghost function CommitteesOf(members: seq<CommitteeMember>, leaves: seq<Digest>, depth: nat): (committees: seq<Digest>)
    ensures |committees| == MAX_SLOTS
  {
    seq(MAX_SLOTS, (s: nat) => CommitteeOf(Seated(members, s, depth), leaves))
  }

  lemma SeatedStep(members: seq<CommitteeMember>, leaves: seq<Digest>, depth: nat, slot: nat)
    requires FairMembers(members, leaves, depth) && members != []
    ensures
      var n := |members| - 1;
      var at, before := Low(members[n].index, depth), Seated(members[..n], slot, depth);
      && at !in before
      && Seated(members, slot, depth) == if members[n].slot == slot then before + {at} else before
  {
    var n := |members| - 1;
    LastIsNew(members, leaves, depth);
    assert members == members[..n] + [members[n]];
  }

  lemma {:induction false} SeatedHold(members: seq<CommitteeMember>, leaves: seq<Digest>, depth: nat, slot: nat)
    requires FairMembers(members, leaves, depth)
    ensures BucketSum(members, slot, BalanceWeight()) == BalanceHeld(Seated(members, slot, depth), leaves)
    decreases |members|
  {
    if members == [] {
      assert Seated(members, slot, depth) == {};
    } else {
      var n := |members| - 1;
      var at := Low(members[n].index, depth);
      FairFront(members, leaves, depth, n);
      SeatedHold(members[..n], leaves, depth, slot);
      SeatedStep(members, leaves, depth, slot);
      assert FairMember(members[n], leaves, depth);
      if members[n].slot == slot {
        var before := Seated(members[..n], slot, depth);
        assert before + {at} - {at} == before;
        SumTakes<nat>(before + {at}, Balances(leaves), at);
      }
    }
  }

  /** Each slot's key sums exactly those given that slot. */
  ghost predicate KeysAreSeated(s: Sums, members: seq<CommitteeMember>, depth: nat)
  {
    s.Sized() && forall slot: nat :: slot < MAX_SLOTS ==> s.keys[slot] == SumFor(Seated(members, slot, depth))
  }

  lemma OneMoreSeated(members: seq<CommitteeMember>, leaves: seq<Digest>, depth: nat, s: Sums)
    requires members != [] && FairMembers(members, leaves, depth) && members[|members| - 1].slot < MAX_SLOTS
    requires KeysAreSeated(s, members[..|members| - 1], depth)
    ensures
      var m := members[|members| - 1];
      var key := s.keys[m.slot].Add(m.key);
      key.Some? && forall balances :: |balances| == MAX_SLOTS ==>
        KeysAreSeated(s.(keys := s.keys[m.slot := key.value], balances := balances), members, depth)
  {
    hide FairMembers, SumFor, Seated;
    var n := |members| - 1;
    var m := members[n];
    LastIsFair(members, leaves, depth);
    SeatedStep(members, leaves, depth, m.slot);
    AddMember(Seated(members[..n], m.slot, depth), Low(m.index, depth));
    forall slot: nat | slot < MAX_SLOTS && slot != m.slot
      ensures Seated(members, slot, depth) == Seated(members[..n], slot, depth)
    {
      SeatedStep(members, leaves, depth, slot);
    }
  }

  /** Fair members are always taken. */
  lemma {:induction false} FairMembersTaken(members: seq<CommitteeMember>, leaves: seq<Digest>, depth: nat)
    requires Listed(members) && FairMembers(members, leaves, depth)
    ensures TakeMembers(members).Some? && KeysAreSeated(TakeMembers(members).value, members, depth)
    decreases |members|
  {
    hide FairMembers, Listed, TakeMembers, KeysAreSeated;
    if members == [] {
      NoneTaken(members, depth);
    } else {
      var n := |members| - 1;
      FairFront(members, leaves, depth, n);
      ListedFront(members, n);
      FairMembersTaken(members[..n], leaves, depth);
      LastIsLater(members);
      var s := TakeMembers(members[..n]).value;
      OneMoreSeated(members, leaves, depth, s);
      TakeOneMore(members);
      SameKeys(s.(keys := TakeMembers(members).value.keys, balances := TakeMembers(members).value.balances),
               TakeMembers(members).value, members, depth);
    }
  }

  lemma SameKeys(a: Sums, b: Sums, members: seq<CommitteeMember>, depth: nat)
    requires a.keys == b.keys && b.Sized() && KeysAreSeated(a, members, depth)
    ensures KeysAreSeated(b, members, depth)
  {
    hide SumFor, Seated;
  }

  lemma NoneSeated(slot: nat, depth: nat)
    ensures Seated([], slot, depth) == {}
  {
  }

  lemma NoneTaken(members: seq<CommitteeMember>, depth: nat)
    requires members == []
    ensures TakeMembers(members) == Some(NoMembers()) && KeysAreSeated(NoMembers(), members, depth)
  {
    hide KeyOf, Seated;
    forall s: nat ensures Seated(members, s, depth) == {} {
      NoneSeated(s, depth);
    }
  }

  lemma LastIsFair(members: seq<CommitteeMember>, leaves: seq<Digest>, depth: nat)
    requires FairMembers(members, leaves, depth) && members != []
    ensures members[|members| - 1].key == Unit(Low(members[|members| - 1].index, depth))
  {
    assert FairMember(members[|members| - 1], leaves, depth);
  }

  lemma TakeOneMore(members: seq<CommitteeMember>)
    requires members != [] && TakeMembers(members[..|members| - 1]).Some?
    requires
      var n := |members| - 1;
      var s := TakeMembers(members[..n]).value;
      && (s.previous.Some? ==> s.previous.value < members[n].index) && members[n].slot < MAX_SLOTS
      && s.keys[members[n].slot].Add(members[n].key).Some?
    ensures
      var n := |members| - 1;
      var s := TakeMembers(members[..n]).value;
      && TakeMembers(members).Some?
      && TakeMembers(members).value.keys == s.keys[members[n].slot := s.keys[members[n].slot].Add(members[n].key).value]
  {
    hide TakeMembers, Plus, Negated;
    TakeMembersStep(members, |members| - 1);
    assert members[..|members|] == members;
  }

  lemma ListedFront(members: seq<CommitteeMember>, n: nat)
    requires Listed(members) && n <= |members|
    ensures Listed(members[..n])
  {
  }

  lemma LastIsNew(members: seq<CommitteeMember>, leaves: seq<Digest>, depth: nat)
    requires FairMembers(members, leaves, depth) && members != []
    ensures
      var n := |members| - 1;
      forall m :: m in members[..n] ==> Low(m.index, depth) != Low(members[n].index, depth)
  {
    var n := |members| - 1;
    forall m | m in members[..n] ensures Low(m.index, depth) != Low(members[n].index, depth) {
      var i: nat :| i < n && members[..n][i] == m;
      assert members[i] == m;
    }
  }

  lemma LastIsLater(members: seq<CommitteeMember>)
    requires Listed(members) && members != [] && TakeMembers(members[..|members| - 1]).Some?
    ensures
      var n := |members| - 1;
      var s := TakeMembers(members[..n]).value;
      (s.previous.Some? ==> s.previous.value < members[n].index) && members[n].slot < MAX_SLOTS
  {
    var n := |members| - 1;
    assert members[n] in members;
    if n > 0 {
      ColumnsAreMembers(members[..n], n - 1);
      assert members[n - 1].index < members[n].index;
    }
  }

  lemma {:induction false} TakenIsListed(members: seq<CommitteeMember>)
    requires TakeMembers(members).Some?
    ensures Listed(members)
  {
    var idx := TakeMembers(members).value.idx;
    ColumnsIncrease(members);
    forall i, j | 0 <= i < j < |members| ensures members[i].index < members[j].index {
      ColumnsAreMembers(members, i);
      ColumnsAreMembers(members, j);
      assert idx[i] < idx[j];
    }
    forall m | m in members ensures m.slot < MAX_SLOTS {
      var i: nat :| i < |members| && members[i] == m;
      ColumnsAreMembers(members, i);
    }
  }

  // ---- which members a tree opens ------------------------------------------------------------------------

  /** The leaves the members open. */
  function MemberItems(members: seq<CommitteeMember>): (items: seq<Opened<Digest>>)
    ensures |items| == |members|
  {
    seq(|members|, (i: nat) requires i < |members| => Opened(Leaf(members[i].key, members[i].balance), members[i].index))
  }

  /** Members at distinct positions of the registry, under indices alike above its width. */
  ghost predicate Seatable(members: seq<CommitteeMember>, leaves: seq<Digest>, depth: nat)
  {
    && members != [] && Listed(members)
    && forall m :: m in members ==>
         High(m.index, depth) == High(members[0].index, depth)
         && Low(m.index, depth) < |leaves| && leaves[Low(m.index, depth)] == Leaf(m.key, m.balance)
  }

  lemma ItemsAreColumns(members: seq<CommitteeMember>)
    requires TakeMembers(members).Some?
    ensures Indices(MemberItems(members)) == TakeMembers(members).value.idx
    ensures Digests(MemberItems(members)) == TakeMembers(members).value.val
  {
    var s := TakeMembers(members).value;
    if members == [] {
      assert s.idx == [];
    } else {
      ColumnsAreMembers(members, 0);
      forall i | 0 <= i < |members| ensures MemberItems(members)[i] == Opened(s.val[i], s.idx[i]) {
        ColumnsAreMembers(members, i);
      }
    }
  }

  lemma SeatableIsFair(members: seq<CommitteeMember>, leaves: seq<Digest>, depth: nat)
    requires Seatable(members, leaves, depth) && Registry(leaves)
    ensures FairMembers(members, leaves, depth)
  {
    forall m | m in members ensures FairMember(m, leaves, depth) {
    }
    forall i, j | 0 <= i < j < |members| ensures Low(members[i].index, depth) != Low(members[j].index, depth) {
      assert members[i] in members && members[j] in members;
      if Low(members[i].index, depth) == Low(members[j].index, depth) {
        DigitsDetermine(members[i].index, members[j].index, depth);
      }
    }
  }

  lemma ItemsOpenable(members: seq<CommitteeMember>, leaves: seq<Digest>, depth: nat)
    requires |leaves| == Pow2(depth) && members != []
    requires (forall i, j :: 0 <= i < j < |members| ==> members[i].index < members[j].index)
    ensures Openable(Compress, Zero, leaves, MemberItems(members), depth, High(members[0].index, depth))
       <==> forall m :: m in members ==>
              High(m.index, depth) == High(members[0].index, depth)
              && leaves[LowOf(m, depth, |leaves|)] == Leaf(m.key, m.balance)
  {
    var items := MemberItems(members);
    forall i | 0 <= i < |members|
      ensures items[i].leaf == Leaf(members[i].key, members[i].balance) && items[i].index == members[i].index
      ensures Node(Compress, Zero, leaves, 0, Low(items[i].index, depth)) == leaves[LowOf(members[i], depth, |leaves|)]
    {
      DigitsSplit(members[i].index, depth);
    }
    assert forall i :: 0 <= i < |members| ==> items[i] in items && members[i] in members;
    assert Increasing(Indices(items));
  }

  function LowOf(m: CommitteeMember, depth: nat, width: nat): (at: nat)
    requires width == Pow2(depth)
    ensures at == Low(m.index, depth) < width
  {
    DigitsSplit(m.index, depth);
    Low(m.index, depth)
  }

  // ---- the theorems ----------------------------------------------------------------------------------------

  /** The tree the guest builds holds, for each slot, exactly the members given it. */
  lemma TakenAreCommittees(members: seq<CommitteeMember>, leaves: seq<Digest>, depth: nat)
    requires Listed(members) && FairMembers(members, leaves, depth) && Total(leaves) < U64
    ensures TakeMembers(members).Some?
    ensures CommitteeLeaves(TakeMembers(members).value) == CommitteesOf(members, leaves, depth)
  {
    FairMembersTaken(members, leaves, depth);
    forall s: nat | s < MAX_SLOTS
      ensures CommitteeLeaves(TakeMembers(members).value)[s] == CommitteesOf(members, leaves, depth)[s]
    {
      BalancesAreBuckets(members, leaves, depth, s);
      SeatedHold(members, leaves, depth, s);
    }
  }

  ghost predicate NamesTree(w: CommitteeWitness, depth: nat, leaves: seq<Digest>)
  {
    w.accRoot == Root(Compress, Zero, leaves, depth) && w.total == Total(leaves)
  }

  lemma TreeOpensMembers(members: seq<CommitteeMember>, leaves: seq<Digest>, depth: nat) returns (aux: seq<Digest>)
    requires Seatable(members, leaves, depth) && |leaves| == Pow2(depth) && TakeMembers(members).Some?
    ensures
      var s := TakeMembers(members).value;
      RootOfColumns(Compress, s.idx, s.val, aux, depth) == Some(Root(Compress, Zero, leaves, depth))
  {
    ItemsAreColumns(members);
    ItemsOpenable(members, leaves, depth);
    aux := OpenableComplete(Compress, Zero, leaves, MemberItems(members), depth, High(members[0].index, depth));
  }

  lemma OpenedIsSeatable(members: seq<CommitteeMember>, aux: seq<Digest>, leaves: seq<Digest>, depth: nat)
    requires |leaves| == Pow2(depth) && TakeMembers(members).Some?
    requires
      var s := TakeMembers(members).value;
      RootOfColumns(Compress, s.idx, s.val, aux, depth) == Some(Root(Compress, Zero, leaves, depth))
    ensures Seatable(members, leaves, depth)
  {
    TakenIsListed(members);
    ItemsAreColumns(members);
    ColumnsIncrease(members);
    var items := MemberItems(members);
    BatchSound(Compress, Zero, leaves, items, aux, depth);
    forall m | m in members
      ensures High(m.index, depth) == High(members[0].index, depth)
      ensures Low(m.index, depth) < |leaves| && leaves[Low(m.index, depth)] == Leaf(m.key, m.balance)
    {
      var i: nat :| i < |members| && members[i] == m;
      assert items[i] == Opened(Leaf(m.key, m.balance), m.index) && items[0].index == members[0].index;
      DigitsSplit(m.index, depth);
    }
  }

  /** Committee proofs, exactly. Over a commitment to a registry, some auxiliaries make a witness
      accepted if and only if it names the tree and total committed to, and its members increase,
      lie in the slots of an epoch and are the tree's own leaves. */
  lemma CommitteeIsExact(w: CommitteeWitness, depth: nat, leaves: seq<Digest>)
    requires Commits(w.accumulatorCommitment, leaves, depth) && Registry(leaves)
    ensures (exists aux :: CommitteeOutputOf(w.(aux := aux), depth).Some?)
       <==> NamesTree(w, depth, leaves) && Seatable(w.members, leaves, depth)
  {
    hide Seatable, RootOfColumns, FairMembers, TakeMembers;
    if aux :| CommitteeOutputOf(w.(aux := aux), depth).Some? {
      OpenedIsSeatable(w.members, aux, leaves, depth);
    }
    if NamesTree(w, depth, leaves) && Seatable(w.members, leaves, depth) {
      SeatableIsFair(w.members, leaves, depth);
      SeatableIsListed(w.members, leaves, depth);
      FairMembersTaken(w.members, leaves, depth);
      var aux := TreeOpensMembers(w.members, leaves, depth);
      assert CommitteeOutputOf(w.(aux := aux), depth).Some?;
    }
  }

  lemma SeatableIsListed(members: seq<CommitteeMember>, leaves: seq<Digest>, depth: nat)
    requires Seatable(members, leaves, depth)
    ensures Listed(members)
  {
  }

  /** What an accepted committee proof publishes: the epoch it was asked for, the accumulator's
      commitment, and the root over 32 leaves, each the committee of exactly the members the
      witness gives that slot: their keys once each and the sum of their committed balances. */
  lemma CommitteesAreMembers(w: CommitteeWitness, depth: nat, leaves: seq<Digest>)
    requires CommitteeOutputOf(w, depth).Some?
    requires Commits(w.accumulatorCommitment, leaves, depth) && Registry(leaves)
    ensures |CommitteesOf(w.members, leaves, depth)| == 32
    ensures CommitteeOutputOf(w, depth) == Some(CommitteeOutput(
      w.accumulatorCommitment, w.targetEpoch, Root(Compress, Zero, CommitteesOf(w.members, leaves, depth), 5)))
  {
    hide RootOfColumns, FairMembers, TakeMembers, Root;
    OpenedMembersAreFair(w.members, w.aux, depth, leaves);
    TakenIsListed(w.members);
    TakenAreCommittees(w.members, leaves, depth);
  }
}
