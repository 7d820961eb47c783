/** The fast-confirmation committee proof, exactly: when it is accepted and what it publishes. */
module FcrExact {
  import opened Wrappers
  import opened FormalSums
  import opened Bls
  import opened Merkle
  import opened MultiProof
  import opened ProofBuilding
  import opened Accumulator
  import opened SlotProof
  import opened SlotSound
  import opened Tallies
  import opened Folds
  import opened Committee
  import opened CommitteeSound
  import opened CommitteeExact
  import opened SwapOrNot
  import opened Slots
  import opened FcrCommittee
  import opened FcrSound

  /** The positions of a tree that hold a balance. */
  function ActivePositions(leaves: seq<Digest>): set<nat>
  {
    set u | u in FirstPositions(|leaves|) && BalanceOf(leaves[u]) > 0
  }

  function OpenedPositions(active: seq<OpenedValidator>, depth: nat): set<nat>
  {
    set v | v in active :: Low(v.index, depth)
  }

  predicate InOrder(active: seq<OpenedValidator>)
  {
    forall i, j :: 0 <= i < j < |active| ==> active[i].index < active[j].index
  }

  /** Each validator as the tree holds it, under indices alike above the tree's width. */
  ghost predicate HeldBy(active: seq<OpenedValidator>, leaves: seq<Digest>, depth: nat)
  {
    forall v :: v in active ==>
      High(v.index, depth) == High(active[0].index, depth)
      && Low(v.index, depth) < |leaves| && leaves[Low(v.index, depth)] == Leaf(v.key, v.balance)
  }

  /** The whole active set, in increasing order. */
  ghost predicate OpensActiveSet(active: seq<OpenedValidator>, leaves: seq<Digest>, depth: nat)
  {
    && active != [] && InOrder(active) && HeldBy(active, leaves, depth)
    && OpenedPositions(active, depth) == ActivePositions(leaves)
  }

  predicate AllSupported(active: seq<OpenedValidator>, chain: FcrChain)
  {
    forall v :: v in active ==> chain.counts(v.balance)
  }

  // ---- the loops go through ------------------------------------------------------------------------------

  lemma OpenOneMore(active: seq<OpenedValidator>, n: nat)
    requires n < |active| && OpenAll(active[..n]).Some?
    ensures OpenAll(active[..n + 1]) == OpenActive(OpenAll(active[..n]).value, active[n])
  {
    assert active[..n + 1][..n] == active[..n];
  }

  lemma LastOpened(active: seq<OpenedValidator>)
    requires OpenAll(active).Some?
    ensures OpenAll(active).value.previous == if active == [] then None else Some(active[|active| - 1].index)
  {
  }

  lemma {:induction false} AllOpen(active: seq<OpenedValidator>, done: nat, chain: FcrChain, leaves: seq<Digest>, depth: nat)
    requires done <= |active| && chain.slots > 0
    requires InOrder(active) && forall v :: v in active ==> v.balance > 0
    requires FairMembers(Members(active, done, chain), leaves, depth) && Total(leaves) < U64
    ensures OpenAll(active[..done]).Some?
    decreases done
  {
    hide FairMembers, MembersSum, OpenAll, Members, SlotOf;
    if done == 0 {
      NothingOpened(active, chain);
    } else {
      var n := done - 1;
      FrontOfMembers(active, n, chain);
      FairFront(Members(active, done, chain), leaves, depth, n);
      AllOpen(active, n, chain, leaves, depth);
      OpenedBalances(active, n, chain);
      MembersStep(active, n, chain);
      FairBalances(Members(active, done, chain), leaves, depth);
      LastOpened(active[..n]);
      OpenOneMore(active, n);
      assert active[n] in active;
    }
  }

  lemma FrontOfMembers(active: seq<OpenedValidator>, n: nat, chain: FcrChain)
    requires n < |active| && chain.slots > 0
    ensures Members(active, n + 1, chain)[..n] == Members(active, n, chain)
  {
  }

  lemma {:induction false} AllSeated(active: seq<OpenedValidator>, done: nat, chain: FcrChain)
    requires done <= |active| && 0 < chain.slots <= MAX_SLOTS
    requires OpenAll(active[..done]).Some? && TakeMembers(Members(active, done, chain)).Some?
    requires AllSupported(active, chain)
    ensures SeatFirst(active, done, chain).Some?
    decreases done
  {
    hide OpenAll, OpenActive, TakeMembers, TakeMember, Members, SlotOf, Seat;
    if done > 0 {
      var n := done - 1;
      OpenedStep(active, n);
      FrontOfMembers(active, n, chain);
      TakenBefore(Members(active, done, chain));
      AllSeated(active, n, chain);
      LoopsAgree(active, n, chain);
      MemberAtOffset(active, done, chain, n);
      SlotInRange(active, n, chain);
      SeatOneMore(active, n, chain);
      assert active[n] in active;
      SeatsAsTaken(OpenAll(active[..n]).value, SeatFirst(active, n, chain).value,
                   TakeMembers(Members(active, n, chain)).value, active[n], SlotOf(n, |active|, chain), chain);
    }
  }

  lemma SlotInRange(active: seq<OpenedValidator>, n: nat, chain: FcrChain)
    requires n < |active| && chain.slots > 0
    ensures SlotOf(n, |active|, chain) < chain.slots
  {
    hide CommitteePosition, SlotOfPosition;
    SlotEncloses(CommitteePosition(chain.h, |active|, chain.rounds, n), |active|, chain.slots);
  }

  lemma TakenBefore(members: seq<CommitteeMember>)
    requires TakeMembers(members).Some? && members != []
    ensures TakeMembers(members[..|members| - 1]).Some?
    ensures TakeMember(TakeMembers(members[..|members| - 1]).value, members[|members| - 1]).Some?
  {
  }

  lemma SeatOneMore(active: seq<OpenedValidator>, n: nat, chain: FcrChain)
    requires n < |active| && chain.slots > 0 && SeatFirst(active, n, chain).Some?
    requires SlotOf(n, |active|, chain) < chain.slots
    ensures SeatFirst(active, n + 1, chain) == Seat(SeatFirst(active, n, chain).value, SlotOf(n, |active|, chain), active[n], chain)
  {
    hide SlotOf;
  }

  lemma SeatsAsTaken(o: Opening, seats: Seats, s: Sums, v: OpenedValidator, slot: nat, chain: FcrChain)
    requires SameSums(o, seats, s) && slot < |seats| <= MAX_SLOTS && chain.counts(v.balance)
    requires TakeMember(s, CommitteeMember(v.index, v.key, v.balance, slot)).Some?
    ensures Seat(seats, slot, v, chain).Some?
  {
    assert s.keys[slot] == KeyIn(seats, slot);
  }

  lemma {:induction false} SeatedIsSupported(active: seq<OpenedValidator>, done: nat, chain: FcrChain)
    requires done <= |active| && chain.slots > 0 && SeatFirst(active, done, chain).Some?
    ensures forall i :: 0 <= i < done ==> chain.counts(active[i].balance)
    decreases done
  {
    hide SlotOf;
    if done > 0 {
      SlotInRange(active, done - 1, chain);
      SeatedIsSupported(active, done - 1, chain);
    }
  }

  // ---- an opened active set is the tree's -------------------------------------------------------------------

  lemma MemberIsFair(w: FcrCommitteeWitness, chain: FcrChain, leaves: seq<Digest>, i: nat)
    requires chain.slots > 0 && HeldBy(w.active, leaves, chain.accDepth) && Registry(leaves) && i < |w.active|
    ensures
      var m := AllMembers(w, chain)[i];
      && m.index == w.active[i].index && FairMember(m, leaves, chain.accDepth) && m.slot < chain.slots
      && High(m.index, chain.accDepth) == High(w.active[0].index, chain.accDepth)
  {
    hide SlotOf, Members, Low, High;
    MemberAtOffset(w.active, |w.active|, chain, i);
    SlotInRange(w.active, i, chain);
    assert w.active[i] in w.active;
  }

  lemma HeldIsFair(w: FcrCommitteeWitness, chain: FcrChain, leaves: seq<Digest>)
    requires chain.slots > 0 && w.active != [] && InOrder(w.active) && HeldBy(w.active, leaves, chain.accDepth)
    requires Registry(leaves)
    ensures FairMembers(AllMembers(w, chain), leaves, chain.accDepth)
    ensures chain.slots <= 32 ==> Listed(AllMembers(w, chain))
    ensures CommitteeSound.Positions(AllMembers(w, chain), chain.accDepth) == OpenedPositions(w.active, chain.accDepth)
  {
    hide SlotOf, HeldBy, Registry, FairMember, Members, Low, High;
    var ms, depth := AllMembers(w, chain), chain.accDepth;
    forall i: nat | i < |ms|
      ensures ms[i].index == w.active[i].index && FairMember(ms[i], leaves, depth) && ms[i].slot < chain.slots
    {
      MemberIsFair(w, chain, leaves, i);
    }
    forall i, j | 0 <= i < j < |ms| ensures Low(ms[i].index, depth) != Low(ms[j].index, depth) {
      MemberIsFair(w, chain, leaves, i);
      MemberIsFair(w, chain, leaves, j);
      if Low(ms[i].index, depth) == Low(ms[j].index, depth) {
        DigitsDetermine(ms[i].index, ms[j].index, depth);
      }
    }
    SamePositions(w, chain);
  }

  lemma SamePositions(w: FcrCommitteeWitness, chain: FcrChain)
    requires chain.slots > 0
    ensures CommitteeSound.Positions(AllMembers(w, chain), chain.accDepth) == OpenedPositions(w.active, chain.accDepth)
  {
    hide SlotOf, Members;
    var ms, depth := AllMembers(w, chain), chain.accDepth;
    forall m | m in ms ensures Low(m.index, depth) in OpenedPositions(w.active, depth) {
      var i: nat :| i < |ms| && ms[i] == m;
      MemberAtOffset(w.active, |w.active|, chain, i);
      assert w.active[i] in w.active;
    }
    forall v | v in w.active ensures Low(v.index, depth) in CommitteeSound.Positions(ms, depth) {
      var i: nat :| i < |w.active| && w.active[i] == v;
      MemberAtOffset(w.active, |w.active|, chain, i);
      assert ms[i] in ms;
    }
  }

  lemma ActiveHoldTotal(leaves: seq<Digest>)
    ensures SumOver(ActivePositions(leaves), Balances(leaves)) == Total(leaves)
  {
    var all := FirstPositions(|leaves|);
    SumExtends<nat>(ActivePositions(leaves), all, Balances(leaves));
    TotalIsSum(leaves, |leaves|);
    assert leaves[..|leaves|] == leaves;
  }

  lemma ActiveHaveBalances(active: seq<OpenedValidator>, leaves: seq<Digest>, depth: nat)
    requires HeldBy(active, leaves, depth) && OpenedPositions(active, depth) == ActivePositions(leaves)
    ensures forall v :: v in active ==> v.balance > 0
  {
    forall v | v in active ensures v.balance > 0 {
      assert Low(v.index, depth) in OpenedPositions(active, depth);
    }
  }

  /** An active set opened whole sums to the committed total. */
  lemma ActiveSetOpens(w: FcrCommitteeWitness, chain: FcrChain, leaves: seq<Digest>)
    requires chain.slots > 0 && OpensActiveSet(w.active, leaves, chain.accDepth)
    requires Registry(leaves) && Total(leaves) < U64
    ensures OpenAll(w.active).Some? && OpenAll(w.active).value.summed == Total(leaves)
  {
    hide FairMembers, Members, OpenAll, HeldBy, OpenedPositions, ActivePositions, SumOver, Balances, MembersSum, BalanceWeight;
    var ms, n := AllMembers(w, chain), |w.active|;
    HeldIsFair(w, chain, leaves);
    ActiveHaveBalances(w.active, leaves, chain.accDepth);
    AllOpen(w.active, n, chain, leaves, chain.accDepth);
    assert w.active[..n] == w.active;
    OpenedBalances(w.active, n, chain);
    FairBalances(ms, leaves, chain.accDepth);
    MembersSame(ms, BalanceWeight(), KeyWeight(Balances(leaves)));
    FairMembersWeigh(ms, leaves, chain.accDepth, Balances(leaves));
    ActiveHoldTotal(leaves);
  }

  lemma ActiveSetIsOpenable(active: seq<OpenedValidator>, leaves: seq<Digest>, depth: nat)
    requires active != [] && InOrder(active) && HeldBy(active, leaves, depth) && OpenAll(active).Some?
    ensures Openable(Compress, Zero, leaves, OpenAll(active).value.leaves, depth, High(active[0].index, depth))
  {
    hide OpenAll;
    var items := OpenAll(active).value.leaves;
    LeavesAreActive(active, 0);
    forall i: nat | i < |active|
      ensures items[i] == NamedLeaf(active[i]) && active[i] in active
    {
      LeavesAreActive(active, i);
    }
  }

  lemma OpenedIsHeld(active: seq<OpenedValidator>, aux: seq<Digest>, leaves: seq<Digest>, depth: nat)
    requires active != [] && OpenAll(active).Some? && |leaves| == Pow2(depth)
    requires RootOfLeaves(Compress, OpenAll(active).value.leaves, aux, depth) == Some(Root(Compress, Zero, leaves, depth))
    ensures InOrder(active) && HeldBy(active, leaves, depth)
  {
    hide OpenAll;
    var items := OpenAll(active).value.leaves;
    BatchSound(Compress, Zero, leaves, items, aux, depth);
    LeavesAreActive(active, 0);
    forall i: nat | i < |active| ensures items[i] == NamedLeaf(active[i]) {
      LeavesAreActive(active, i);
    }
    forall v | v in active
      ensures High(v.index, depth) == High(active[0].index, depth)
      ensures Low(v.index, depth) < |leaves| && leaves[Low(v.index, depth)] == Leaf(v.key, v.balance)
    {
      var i: nat :| i < |active| && active[i] == v;
      DigitsSplit(v.index, depth);
    }
    forall i, j | 0 <= i < j < |active| ensures active[i].index < active[j].index {
      assert items[i].index < items[j].index;
    }
  }

  // ---- the theorems -------------------------------------------------------------------------------------------

  ghost predicate NamesIt(w: FcrCommitteeWitness, chain: FcrChain, leaves: seq<Digest>)
  {
    w.accRoot == Root(Compress, Zero, leaves, chain.accDepth) && w.total == Total(leaves)
  }

  lemma PositionIsActive(w: FcrCommitteeWitness, chain: FcrChain, leaves: seq<Digest>, u: nat)
    requires Accepted(w, chain, leaves)
    ensures u in OpenedPositions(w.active, chain.accDepth) <==> u in ActivePositions(leaves)
  {
    hide Accepted, Registry;
    ActiveSetIsPinned(w, chain, leaves, u);
    if u in OpenedPositions(w.active, chain.accDepth) {
      var v :| v in w.active && Low(v.index, chain.accDepth) == u;
      var i: nat :| i < |w.active| && w.active[i] == v;
      assert PositionOf(w, chain, i) == u;
    }
  }

  lemma AcceptedIsHeld(w: FcrCommitteeWitness, chain: FcrChain, leaves: seq<Digest>)
    requires Accepted(w, chain, leaves)
    ensures w.active != [] && InOrder(w.active) && HeldBy(w.active, leaves, chain.accDepth) && NamesIt(w, chain, leaves)
    ensures AllSupported(w.active, chain) && chain.slots <= 32
  {
    hide OpenAll, SeatFirst, RootOfLeaves, HeldBy, InOrder;
    OpenedIsHeld(w.active, w.aux, leaves, chain.accDepth);
    SeatedIsSupported(w.active, |w.active|, chain);
  }

  lemma AcceptedOpensActiveSet(w: FcrCommitteeWitness, chain: FcrChain, leaves: seq<Digest>)
    requires Accepted(w, chain, leaves)
    ensures OpensActiveSet(w.active, leaves, chain.accDepth) && NamesIt(w, chain, leaves)
    ensures AllSupported(w.active, chain) && chain.slots <= 32
  {
    hide Accepted, HeldBy, InOrder, OpenedPositions, ActivePositions, AllSupported, NamesIt;
    AcceptedIsHeld(w, chain, leaves);
    forall u: nat ensures u in OpenedPositions(w.active, chain.accDepth) <==> u in ActivePositions(leaves) {
      PositionIsActive(w, chain, leaves, u);
    }
  }

  lemma ActiveSetIsAccepted(w: FcrCommitteeWitness, chain: FcrChain, leaves: seq<Digest>) returns (aux: seq<Digest>)
    requires Commits(w.accumulatorCommitment, leaves, chain.accDepth) && Registry(leaves)
    requires OpensActiveSet(w.active, leaves, chain.accDepth) && NamesIt(w, chain, leaves)
    requires AllSupported(w.active, chain) && 0 < chain.slots <= 32
    ensures FcrOutputOf(w.(aux := aux), chain).Some?
  {
    hide FairMembers, Members, OpenAll, SeatFirst, HeldBy, OpenedPositions, ActivePositions, RootOfLeaves, Root,
      AllSupported, TakeMembers;
    var n := |w.active|;
    ActiveSetOpens(w, chain, leaves);
    ActiveSetIsOpenable(w.active, leaves, chain.accDepth);
    var items := OpenAll(w.active).value.leaves;
    aux := OpenableComplete(Compress, Zero, leaves, items, chain.accDepth, High(w.active[0].index, chain.accDepth));
    HeldIsFair(w, chain, leaves);
    FairMembersTaken(AllMembers(w, chain), leaves, chain.accDepth);
    assert w.active[..n] == w.active;
    AllSeated(w.active, n, chain);
  }

  /** Fast-confirmation committee proofs, exactly. Over a commitment to a registry, some auxiliaries
      make a witness accepted if and only if it names the tree and total committed to, opens the
      whole active set in order, every balance in it is one the library counts, and an epoch has
      at most 32 slots. */
  lemma FcrIsExact(w: FcrCommitteeWitness, chain: FcrChain, leaves: seq<Digest>)
    requires Commits(w.accumulatorCommitment, leaves, chain.accDepth) && Registry(leaves) && chain.slots > 0
    ensures (exists aux :: FcrOutputOf(w.(aux := aux), chain).Some?)
       <==>
       && chain.slots <= 32 && NamesIt(w, chain, leaves)
       && OpensActiveSet(w.active, leaves, chain.accDepth) && AllSupported(w.active, chain)
  {
    hide FcrOutputOf, OpensActiveSet, AllSupported;
    if aux :| FcrOutputOf(w.(aux := aux), chain).Some? {
      AcceptedOpensActiveSet(w.(aux := aux), chain, leaves);
    }
    if chain.slots <= 32 && NamesIt(w, chain, leaves)
       && OpensActiveSet(w.active, leaves, chain.accDepth) && AllSupported(w.active, chain) {
      var aux := ActiveSetIsAccepted(w, chain, leaves);
    }
  }

  lemma {:induction false} PositionsCount(active: seq<OpenedValidator>, depth: nat)
    requires forall i, j :: 0 <= i < j < |active| ==> Low(active[i].index, depth) != Low(active[j].index, depth)
    ensures |OpenedPositions(active, depth)| == |active|
    decreases |active|
  {
    if active == [] {
      assert OpenedPositions(active, depth) == {};
    } else {
      var n := |active| - 1;
      var at := Low(active[n].index, depth);
      PositionsCount(active[..n], depth);
      assert active == active[..n] + [active[n]];
      forall v | v in active[..n] ensures Low(v.index, depth) != at {
        var i: nat :| i < n && active[..n][i] == v;
      }
      assert OpenedPositions(active, depth) == OpenedPositions(active[..n], depth) + {at};
    }
  }

  /** What it publishes: the accumulator's commitment and the witness's epoch, the number of
      positions with a balance, and the root over 32 leaves, each the committee of exactly the
      validators the shuffle puts in that slot. */
  lemma FcrPublishes(w: FcrCommitteeWitness, chain: FcrChain, leaves: seq<Digest>)
    requires Accepted(w, chain, leaves)
    ensures FcrOutputOf(w, chain) == Some(FcrCommitteeOutput(
      w.accumulatorCommitment, w.epoch, Root(Compress, Zero, CommitteesOf(AllMembers(w, chain), leaves, chain.accDepth), 5),
      |ActivePositions(leaves)|))
  {
    hide FairMembers, Members, OpenAll, SeatFirst, RootOfLeaves, Root, TakeMembers, AllSupported, SeatLeaves, CommitteeLeaves;
    AcceptedOpensActiveSet(w, chain, leaves);
    AcceptedIsFair(w, chain, leaves);
    HeldIsFair(w, chain, leaves);
    TakenAreCommittees(AllMembers(w, chain), leaves, chain.accDepth);
    forall i, j | 0 <= i < j < |w.active|
      ensures Low(w.active[i].index, chain.accDepth) != Low(w.active[j].index, chain.accDepth)
    {
      PositionsIncrease(w, chain, leaves, i, j);
    }
    PositionsCount(w.active, chain.accDepth);
  }
}
