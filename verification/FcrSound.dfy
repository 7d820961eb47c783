/** What an accepted fast-confirmation committee witness has pinned: the set of active
    validators exactly, and with it every seat. */
module FcrSound {
  import opened Wrappers
  import opened FormalSums
  import opened Bls
  import opened Merkle
  import opened MultiProof
  import opened Accumulator
  import opened SlotProof
  import opened SlotSound
  import opened Tallies
  import opened Committee
  import opened CommitteeSound
  import opened SwapOrNot
  import opened Slots
  import opened FcrCommittee

  // ---- the same sums as a committee proof with these slots ----------------------------------

  /** The first members of the active set, each with the slot the shuffle gives it. */
  function Members(active: seq<OpenedValidator>, done: nat, chain: FcrChain): (ms: seq<CommitteeMember>)
    requires done <= |active| && chain.slots > 0
    ensures |ms| == done
    decreases done
  {
    if done == 0 then []
    else
      var v := active[done - 1];
      Members(active, done - 1, chain)
      + [CommitteeMember(v.index, v.key, v.balance, SlotOf(done - 1, |active|, chain))]
  }

  lemma {:induction false} MemberAtOffset(active: seq<OpenedValidator>, done: nat, chain: FcrChain, i: nat)
    requires i < done <= |active| && chain.slots > 0
    ensures Members(active, done, chain)[i]
         == CommitteeMember(active[i].index, active[i].key, active[i].balance, SlotOf(i, |active|, chain))
    decreases done
  {
    if i < done - 1 {
      MemberAtOffset(active, done - 1, chain, i);
    }
  }

  function KeyIn(seats: Seats, s: nat): PointSum
  {
    if s < |seats| && seats[s].Some? then seats[s].value.0 else PointSum(None)
  }

  function BalanceIn(seats: Seats, s: nat): nat
  {
    if s < |seats| && seats[s].Some? then seats[s].value.1 else 0
  }

  /** The running values of the two loops agree. */
  ghost predicate SameSums(o: Opening, seats: Seats, s: Sums)
  {
    && s.Sized() && s.previous == o.previous
    && Indices(o.leaves) == s.idx && Digests(o.leaves) == s.val
    && forall x: nat :: x < MAX_SLOTS ==> s.keys[x] == KeyIn(seats, x) && s.balances[x] == BalanceIn(seats, x)
  }

  lemma StepAgrees(o: Opening, seats: Seats, s: Sums, v: OpenedValidator, slot: nat, chain: FcrChain)
    requires SameSums(o, seats, s) && slot < |seats| <= MAX_SLOTS
    requires OpenActive(o, v).Some? && Seat(seats, slot, v, chain).Some?
    ensures
      var m := CommitteeMember(v.index, v.key, v.balance, slot);
      && TakeMember(s, m).Some?
      && SameSums(OpenActive(o, v).value, Seat(seats, slot, v, chain).value, TakeMember(s, m).value)
  {
    var after := OpenActive(o, v).value;
    assert Indices(after.leaves) == s.idx + [v.index];
    assert Digests(after.leaves) == s.val + [Leaf(v.key, v.balance)];
  }

  lemma {:induction false} LoopsAgree(active: seq<OpenedValidator>, done: nat, chain: FcrChain)
    requires done <= |active| && 0 < chain.slots <= MAX_SLOTS
    requires OpenAll(active[..done]).Some? && SeatFirst(active, done, chain).Some?
    ensures TakeMembers(Members(active, done, chain)).Some?
    ensures SameSums(OpenAll(active[..done]).value, SeatFirst(active, done, chain).value,
                     TakeMembers(Members(active, done, chain)).value)
    decreases done
  {
    hide CommitteePosition;
    if done > 0 {
      var front, all := Members(active, done - 1, chain), Members(active, done, chain);
      assert active[..done][..done - 1] == active[..done - 1];
      LoopsAgree(active, done - 1, chain);
      SlotEncloses(CommitteePosition(chain.h, |active|, chain.rounds, done - 1), |active|, chain.slots);
      assert all[..done - 1] == front;
      StepAgrees(OpenAll(active[..done - 1]).value, SeatFirst(active, done - 1, chain).value, TakeMembers(front).value,
                 active[done - 1], SlotOf(done - 1, |active|, chain), chain);
    }
  }

  lemma SameLeaves(o: Opening, seats: Seats, s: Sums)
    requires SameSums(o, seats, s)
    ensures SeatLeaves(seats) == CommitteeLeaves(s)
  {
    forall x: nat | x < MAX_SLOTS ensures SeatLeaves(seats)[x] == CommitteeLeaves(s)[x] {
      assert s.keys[x] == KeyIn(seats, x) && s.balances[x] == BalanceIn(seats, x);
    }
  }

  // ---- the active set ------------------------------------------------------------------------

  /** Everything an accepted witness fixes, in one place. */
  ghost predicate Accepted(w: FcrCommitteeWitness, chain: FcrChain, leaves: seq<Digest>)
  {
    && 0 < chain.slots && FcrOutputOf(w, chain).Some?
    && Commits(w.accumulatorCommitment, leaves, chain.accDepth) && Registry(leaves)
  }

  function AllMembers(w: FcrCommitteeWitness, chain: FcrChain): seq<CommitteeMember>
    requires chain.slots > 0
  {
    Members(w.active, |w.active|, chain)
  }

  /** The position a validator opens at. */
  function PositionOf(w: FcrCommitteeWitness, chain: FcrChain, i: nat): nat
    requires i < |w.active|
  {
    Low(w.active[i].index, chain.accDepth)
  }

  lemma AcceptedIsFair(w: FcrCommitteeWitness, chain: FcrChain, leaves: seq<Digest>)
    requires Accepted(w, chain, leaves)
    ensures chain.slots <= MAX_SLOTS && OpenAll(w.active).Some? && SeatFirst(w.active, |w.active|, chain).Some?
    ensures TakeMembers(AllMembers(w, chain)).Some?
    ensures FairMembers(AllMembers(w, chain), leaves, chain.accDepth)
    ensures SeatLeaves(SeatFirst(w.active, |w.active|, chain).value)
         == CommitteeLeaves(TakeMembers(AllMembers(w, chain)).value)
  {
    assert w.active[..|w.active|] == w.active;
    LoopsAgree(w.active, |w.active|, chain);
    var o, seats := OpenAll(w.active).value, SeatFirst(w.active, |w.active|, chain).value;
    var s := TakeMembers(AllMembers(w, chain)).value;
    SameLeaves(o, seats, s);
    OpenedMembersAreFair(AllMembers(w, chain), w.aux, chain.accDepth, leaves);
  }

  lemma {:induction false} OpenedBalances(active: seq<OpenedValidator>, done: nat, chain: FcrChain)
    requires done <= |active| && chain.slots > 0 && OpenAll(active[..done]).Some?
    ensures OpenAll(active[..done]).value.summed == MembersSum(Members(active, done, chain), BalanceWeight())
    ensures forall i :: 0 <= i < done ==> active[i].balance > 0
    decreases done
  {
    hide OpenAll, OpenActive, MembersSum, Members, BalanceWeight;
    if done == 0 {
      NothingOpened(active, chain);
    } else {
      OpenedStep(active, done - 1);
      OpenedBalances(active, done - 1, chain);
      MembersStep(active, done - 1, chain);
    }
  }

  lemma NothingOpened(active: seq<OpenedValidator>, chain: FcrChain)
    requires chain.slots > 0
    ensures OpenAll(active[..0]) == Some(Opening(None, 0, []))
    ensures MembersSum(Members(active, 0, chain), BalanceWeight()) == 0
  {
  }

  lemma OpenedStep(active: seq<OpenedValidator>, n: nat)
    requires n < |active| && OpenAll(active[..n + 1]).Some?
    ensures OpenAll(active[..n]).Some? && active[n].balance > 0
    ensures OpenAll(active[..n + 1]).value.summed == OpenAll(active[..n]).value.summed + active[n].balance
  {
    assert active[..n + 1][..n] == active[..n];
  }

  lemma MembersStep(active: seq<OpenedValidator>, n: nat, chain: FcrChain)
    requires n < |active| && chain.slots > 0
    ensures MembersSum(Members(active, n + 1, chain), BalanceWeight())
         == MembersSum(Members(active, n, chain), BalanceWeight()) + active[n].balance
  {
    hide SlotOf;
    assert Members(active, n + 1, chain)[..n] == Members(active, n, chain);
  }

  /** The opened positions hold the whole committed total. */
  lemma OpenedHoldsTotal(w: FcrCommitteeWitness, chain: FcrChain, leaves: seq<Digest>)
    requires Accepted(w, chain, leaves)
    ensures SumOver(CommitteeSound.Positions(AllMembers(w, chain), chain.accDepth), Balances(leaves)) == Total(leaves)
  {
    var ms := AllMembers(w, chain);
    AcceptedIsFair(w, chain, leaves);
    assert w.active[..|w.active|] == w.active;
    OpenedBalances(w.active, |w.active|, chain);
    FairBalances(ms, leaves, chain.accDepth);
    MembersSame(ms, BalanceWeight(), KeyWeight(Balances(leaves)));
    FairMembersWeigh(ms, leaves, chain.accDepth, Balances(leaves));
  }

  /** An opened validator's position has a balance. */
  lemma OpenedHasBalance(w: FcrCommitteeWitness, chain: FcrChain, leaves: seq<Digest>, i: nat)
    requires Accepted(w, chain, leaves) && i < |w.active|
    ensures Balances(leaves)(PositionOf(w, chain, i)) > 0
  {
    var ms := AllMembers(w, chain);
    AcceptedIsFair(w, chain, leaves);
    assert w.active[..|w.active|] == w.active;
    OpenedBalances(w.active, |w.active|, chain);
    MemberAtOffset(w.active, |w.active|, chain, i);
    assert ms[i] in ms;
    assert FairMember(ms[i], leaves, chain.accDepth);
  }

  /** A position no one opened holds nothing: the opened ones hold the total already. */
  lemma UnopenedIsEmpty(w: FcrCommitteeWitness, chain: FcrChain, leaves: seq<Digest>, u: nat)
    requires Accepted(w, chain, leaves)
    requires forall i :: 0 <= i < |w.active| ==> PositionOf(w, chain, i) != u
    ensures Balances(leaves)(u) <= 0
  {
    var ms := AllMembers(w, chain);
    var found := CommitteeSound.Positions(ms, chain.accDepth);
    AcceptedIsFair(w, chain, leaves);
    forall m | m in ms ensures Low(m.index, chain.accDepth) != u {
      var i :| 0 <= i < |ms| && ms[i] == m;
      MemberAtOffset(w.active, |w.active|, chain, i);
      assert PositionOf(w, chain, i) != u;
    }
    assert u !in found;
    OpenedHoldsTotal(w, chain, leaves);
    PartOfTotal(leaves, found + {u});
    assert found + {u} - {u} == found;
    SumTakes<nat>(found + {u}, Balances(leaves), u);
  }

  /** Active-set pinning. The opened positions are exactly the positions with a balance: none
      can be left out, none without a balance can be slipped in. */
  lemma ActiveSetIsPinned(w: FcrCommitteeWitness, chain: FcrChain, leaves: seq<Digest>, u: nat)
    requires Accepted(w, chain, leaves)
    ensures (exists i :: 0 <= i < |w.active| && PositionOf(w, chain, i) == u) <==> Balances(leaves)(u) > 0
  {
    if i :| 0 <= i < |w.active| && PositionOf(w, chain, i) == u {
      OpenedHasBalance(w, chain, leaves, i);
    } else {
      UnopenedIsEmpty(w, chain, leaves, u);
    }
  }

  /** The opened positions come in increasing order, as the specification lists the active set. */
  lemma PositionsIncrease(w: FcrCommitteeWitness, chain: FcrChain, leaves: seq<Digest>, i: nat, j: nat)
    requires Accepted(w, chain, leaves) && i < j < |w.active|
    ensures PositionOf(w, chain, i) < PositionOf(w, chain, j) < |leaves|
  {
    var o := OpenAll(w.active).value;
    BatchSound(Compress, Zero, leaves, o.leaves, w.aux, chain.accDepth);
    LeavesAreActive(w.active, i);
    LeavesAreActive(w.active, j);
    var a, b := o.leaves[i].index, o.leaves[j].index;
    DigitsSplit(a, chain.accDepth);
    DigitsSplit(b, chain.accDepth);
  }

  lemma {:induction false} LeavesAreActive(active: seq<OpenedValidator>, i: nat)
    requires OpenAll(active).Some? && i < |active|
    ensures |OpenAll(active).value.leaves| == |active| && OpenAll(active).value.leaves[i] == NamedLeaf(active[i])
    decreases |active|
  {
    var front := active[..|active| - 1];
    if front == [] {
      assert OpenAll(front).value.leaves == [];
    } else {
      LeavesAreActive(front, if i < |front| then i else 0);
    }
  }

  // ---- the seats ------------------------------------------------------------------------------

  /** One member at `u` in one slot. */
  lemma {:induction false} BucketCounts(members: seq<CommitteeMember>, leaves: seq<Digest>, depth: nat, slot: nat, i: nat)
    requires FairMembers(members, leaves, depth) && i < |members|
    ensures BucketSum(members, slot, KeyWeight(Indicator(Low(members[i].index, depth))))
         == if members[i].slot == slot then 1 else 0
    decreases |members|
  {
    var n := |members| - 1;
    var front, last := members[..n], members[n];
    var u := Low(members[i].index, depth);
    FairFront(members, leaves, depth, n);
    assert FairMember(last, leaves, depth);
    WeighUnit<nat>(Low(last.index, depth), Indicator(u));
    if i < n {
      BucketCounts(front, leaves, depth, slot, i);
    } else {
      BucketAbsent(front, leaves, depth, slot, u);
    }
  }

  lemma {:induction false} BucketAbsent(members: seq<CommitteeMember>, leaves: seq<Digest>, depth: nat, slot: nat, u: nat)
    requires FairMembers(members, leaves, depth) && forall m :: m in members ==> Low(m.index, depth) != u
    ensures BucketSum(members, slot, KeyWeight(Indicator(u))) == 0
    decreases |members|
  {
    if members != [] {
      var n := |members| - 1;
      FairFront(members, leaves, depth, n);
      BucketAbsent(members[..n], leaves, depth, slot, u);
      assert FairMember(members[n], leaves, depth);
      WeighUnit<nat>(Low(members[n].index, depth), Indicator(u));
    }
  }

  /** Every seat is the specification's. The published committee root is that of a partition in
      which the validator at offset `i` of the active set sits once, in the slot of its
      shuffled position, and nowhere else. */
  lemma SeatsAreTheShuffles(w: FcrCommitteeWitness, chain: FcrChain, leaves: seq<Digest>, i: nat, slot: nat)
    requires Accepted(w, chain, leaves) && i < |w.active| && slot < MAX_SLOTS
    ensures
      var committees := SeatLeaves(SeatFirst(w.active, |w.active|, chain).value);
      && Partition(committees, leaves)
      && FcrOutputOf(w, chain).value.committeeRoot == Root(Compress, Zero, committees, TREE_DEPTH)
      && MemberAt(committees, PositionOf(w, chain, i))(slot) == if slot == SlotOf(i, |w.active|, chain) then 1 else 0
  {
    var ms := AllMembers(w, chain);
    AcceptedIsFair(w, chain, leaves);
    FairMembersPartition(ms, leaves, chain.accDepth);
    MemberAtOffset(w.active, |w.active|, chain, i);
    SlotSummed(ms, leaves, chain.accDepth, slot, PositionOf(w, chain, i));
    BucketCounts(ms, leaves, chain.accDepth, slot, i);
  }

  // ---- two implementations agree --------------------------------------------------------------

  /** The active set as the list of its positions. */
  function ActiveList(w: FcrCommitteeWitness, chain: FcrChain): seq<nat>
  {
    seq(|w.active|, (i: nat) requires i < |w.active| => PositionOf(w, chain, i))
  }

  /** The confirmation rule's table and this proof's committees assign the same slots: the table
      gives a validator a slot exactly when the committee of that slot seats it. */
  lemma TableAgreesWithSeats(w: FcrCommitteeWitness, chain: FcrChain, leaves: seq<Digest>, table: seq<nat>, epoch: nat,
                             i: nat, slot: nat)
    requires Accepted(w, chain, leaves) && chain.slots == SLOTS_PER_EPOCH
    requires Assigns(table, ActiveList(w, chain), chain.h, chain.rounds, epoch)
    requires (epoch + 1) * SLOTS_PER_EPOCH <= NO_SLOT && i < |w.active| && slot < SLOTS_PER_EPOCH
    ensures PositionOf(w, chain, i) < |table|
    ensures table[PositionOf(w, chain, i)] == epoch * SLOTS_PER_EPOCH + slot
       <==> MemberAt(SeatLeaves(SeatFirst(w.active, |w.active|, chain).value), PositionOf(w, chain, i))(slot) == 1
  {
    SeatsAreTheShuffles(w, chain, leaves, i, slot);
    TableSlotIs(table, ActiveList(w, chain), chain, epoch, i, slot);
  }

  lemma TableSlotIs(table: seq<nat>, list: seq<nat>, chain: FcrChain, epoch: nat, i: nat, slot: nat)
    requires Assigns(table, list, chain.h, chain.rounds, epoch) && chain.slots == SLOTS_PER_EPOCH
    requires (epoch + 1) * SLOTS_PER_EPOCH <= NO_SLOT && i < |list|
    ensures list[i] < |table|
    ensures table[list[i]] == epoch * SLOTS_PER_EPOCH + slot <==> slot == SlotOf(i, |list|, chain)
  {
    TableIsExact(table, list, chain.h, chain.rounds, epoch, i);
  }
}
