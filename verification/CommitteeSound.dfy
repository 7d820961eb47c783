/** An accepted committee witness partitions validators: whatever slots it assigns, each
    opened validator sits in one committee, and key and balance sum the same validators. */
module CommitteeSound {
  import opened Wrappers
  import opened FormalSums
  import opened Bls
  import opened Merkle
  import opened MultiProof
  import opened Accumulator
  import opened SlotProof
  import opened SlotSound
  import opened Tallies
  import opened Committee

  /** A member at its own position of the registry. */
  ghost predicate FairMember(m: CommitteeMember, leaves: seq<Digest>, depth: nat)
  {
    && Low(m.index, depth) < |leaves|
    && leaves[Low(m.index, depth)] == Leaf(m.key, m.balance)
    && m.key == Unit(Low(m.index, depth))
  }

  /** Members at distinct positions of the registry. */
  ghost predicate FairMembers(members: seq<CommitteeMember>, leaves: seq<Digest>, depth: nat)
  {
    && (forall m :: m in members ==> FairMember(m, leaves, depth))
    && (forall i, j :: 0 <= i < j < |members| ==> Low(members[i].index, depth) != Low(members[j].index, depth))
  }

  function Positions(members: seq<CommitteeMember>, depth: nat): set<nat>
  {
    set m | m in members :: Low(m.index, depth)
  }

  // ---- sums over members ------------------------------------------------------------------

  ghost function MembersSum(members: seq<CommitteeMember>, f: CommitteeMember -> int): int
    decreases |members|
  {
    if members == [] then 0 else MembersSum(members[..|members| - 1], f) + f(members[|members| - 1])
  }

  /** The members of one slot only. */
  ghost function BucketSum(members: seq<CommitteeMember>, slot: nat, f: CommitteeMember -> int): int
    decreases |members|
  {
    if members == [] then 0
    else
      var last := members[|members| - 1];
      BucketSum(members[..|members| - 1], slot, f) + if last.slot == slot then f(last) else 0
  }

  ghost function KeyWeight(g: nat -> int): CommitteeMember -> int
  {
    (m: CommitteeMember) => Weigh(m.key, g)
  }

  ghost function BalanceWeight(): CommitteeMember -> int
  {
    (m: CommitteeMember) => m.balance
  }

  ghost function Buckets(members: seq<CommitteeMember>, f: CommitteeMember -> int): nat -> int
  {
    (s: nat) => BucketSum(members, s, f)
  }

  /** Every member is in exactly one bucket. */
  lemma {:induction false} BucketsMakeAll(members: seq<CommitteeMember>, f: CommitteeMember -> int, slots: set<nat>)
    requires forall m :: m in members ==> m.slot in slots
    ensures SumOver(slots, Buckets(members, f)) == MembersSum(members, f)
    decreases |members|
  {
    if members == [] {
      SumExtends<nat>({}, slots, Buckets(members, f));
    } else {
      var front, last := members[..|members| - 1], members[|members| - 1];
      BucketsMakeAll(front, f, slots);
      var spike := Spike(last.slot, f(last));
      SumSpike<nat>(slots, spike, last.slot);
      SumAdds<nat>(slots, Buckets(front, f), spike, Buckets(members, f));
    }
  }

  lemma {:induction false} BucketWithinAll(members: seq<CommitteeMember>, slot: nat, f: CommitteeMember -> int)
    requires forall m :: m in members ==> f(m) >= 0
    ensures 0 <= BucketSum(members, slot, f) <= MembersSum(members, f)
    decreases |members|
  {
    if members != [] {
      BucketWithinAll(members[..|members| - 1], slot, f);
    }
  }

  lemma {:induction false} BucketSame(members: seq<CommitteeMember>, slot: nat, f: CommitteeMember -> int, h: CommitteeMember -> int)
    requires forall m :: m in members ==> f(m) == h(m)
    ensures BucketSum(members, slot, f) == BucketSum(members, slot, h)
    decreases |members|
  {
    if members != [] {
      BucketSame(members[..|members| - 1], slot, f, h);
    }
  }

  lemma FairFront(members: seq<CommitteeMember>, leaves: seq<Digest>, depth: nat, n: nat)
    requires FairMembers(members, leaves, depth) && n <= |members|
    ensures FairMembers(members[..n], leaves, depth)
  {
  }

  /** The measure of fair members is the measure of their positions. */
  lemma {:induction false} FairMembersWeigh(members: seq<CommitteeMember>, leaves: seq<Digest>, depth: nat, g: nat -> int)
    requires FairMembers(members, leaves, depth)
    ensures MembersSum(members, KeyWeight(g)) == SumOver(Positions(members, depth), g)
    decreases |members|
  {
    if members == [] {
      assert Positions(members, depth) == {};
    } else {
      var front, last := members[..|members| - 1], members[|members| - 1];
      FairFront(members, leaves, depth, |members| - 1);
      FairMembersWeigh(front, leaves, depth, g);
      LastPositionNew(members, leaves, depth);
      var at := Low(last.index, depth);
      assert FairMember(last, leaves, depth);
      WeighUnit<nat>(at, g);
      SumTakes<nat>(Positions(members, depth), g, at);
    }
  }

  lemma LastPositionNew(members: seq<CommitteeMember>, leaves: seq<Digest>, depth: nat)
    requires FairMembers(members, leaves, depth) && members != []
    ensures
      var at := Low(members[|members| - 1].index, depth);
      at in Positions(members, depth) && Positions(members, depth) - {at} == Positions(members[..|members| - 1], depth)
  {
    var front, last := members[..|members| - 1], members[|members| - 1];
    assert members == front + [last];
    var at := Low(last.index, depth);
    forall m | m in front ensures Low(m.index, depth) != at {
      var i :| 0 <= i < |front| && front[i] == m;
      assert members[i] == m;
    }
    assert Positions(members, depth) == Positions(front, depth) + {at};
  }

  lemma FairBalances(members: seq<CommitteeMember>, leaves: seq<Digest>, depth: nat)
    requires FairMembers(members, leaves, depth)
    ensures forall m :: m in members ==> BalanceWeight()(m) == KeyWeight(Balances(leaves))(m) >= 0
    ensures MembersSum(members, BalanceWeight()) <= Total(leaves)
  {
    forall m | m in members ensures BalanceWeight()(m) == KeyWeight(Balances(leaves))(m) {
      assert FairMember(m, leaves, depth);
      WeighUnit<nat>(Low(m.index, depth), Balances(leaves));
    }
    MembersSame(members, BalanceWeight(), KeyWeight(Balances(leaves)));
    FairMembersWeigh(members, leaves, depth, Balances(leaves));
    PartOfTotal(leaves, Positions(members, depth));
  }

  lemma {:induction false} MembersSame(members: seq<CommitteeMember>, f: CommitteeMember -> int, h: CommitteeMember -> int)
    requires forall m :: m in members ==> f(m) == h(m)
    ensures MembersSum(members, f) == MembersSum(members, h)
    decreases |members|
  {
    if members != [] {
      MembersSame(members[..|members| - 1], f, h);
    }
  }

  // ---- what the loop has summed -------------------------------------------------------------

  lemma {:induction false} KeysAreBuckets(members: seq<CommitteeMember>, g: nat -> int, slot: nat)
    requires TakeMembers(members).Some? && slot < MAX_SLOTS
    ensures SumWeight(TakeMembers(members).value.keys[slot], g) == BucketSum(members, slot, KeyWeight(g))
    decreases |members|
  {
    if members != [] {
      var front, last := members[..|members| - 1], members[|members| - 1];
      KeysAreBuckets(front, g, slot);
      AddWeighs(TakeMembers(front).value.keys[last.slot], last.key, g);
    }
  }

  /** No balance sum wraps, because distinct leaves never exceed the committed total. */
  lemma {:induction false} BalancesAreBuckets(members: seq<CommitteeMember>, leaves: seq<Digest>, depth: nat, slot: nat)
    requires TakeMembers(members).Some? && slot < MAX_SLOTS
    requires FairMembers(members, leaves, depth) && Total(leaves) < U64
    ensures TakeMembers(members).value.balances[slot] == BucketSum(members, slot, BalanceWeight())
    decreases |members|
  {
    if members != [] {
      var front, last := members[..|members| - 1], members[|members| - 1];
      FairFront(members, leaves, depth, |members| - 1);
      BalancesAreBuckets(front, leaves, depth, slot);
      FairBalances(members, leaves, depth);
      BucketWithinAll(members, slot, BalanceWeight());
    }
  }

  lemma {:induction false} ColumnsAreMembers(members: seq<CommitteeMember>, i: nat)
    requires TakeMembers(members).Some? && i < |members|
    ensures
      var s := TakeMembers(members).value;
      && |s.idx| == |members|
      && s.idx[i] == members[i].index && s.val[i] == Leaf(members[i].key, members[i].balance)
      && members[i].slot < MAX_SLOTS && s.previous == Some(members[|members| - 1].index)
    decreases |members|
  {
    var front := members[..|members| - 1];
    if front == [] {
      assert TakeMembers(front) == Some(NoMembers());
    } else {
      ColumnsAreMembers(front, if i < |front| then i else 0);
    }
  }

  lemma {:induction false} ColumnsIncrease(members: seq<CommitteeMember>)
    requires TakeMembers(members).Some?
    ensures Increasing(TakeMembers(members).value.idx)
    ensures forall k :: k in TakeMembers(members).value.idx ==>
      TakeMembers(members).value.previous.Some? && k <= TakeMembers(members).value.previous.value
    decreases |members|
  {
    if members != [] {
      var front := members[..|members| - 1];
      ColumnsIncrease(front);
      var before, idx := TakeMembers(front).value.idx, TakeMembers(members).value.idx;
      forall i, j | 0 <= i < j < |idx| ensures idx[i] < idx[j] {
        assert idx[i] == before[i] && before[i] in before;
      }
    }
  }

  function Items(idx: seq<nat>, val: seq<Digest>): (items: seq<Opened<Digest>>)
    requires |idx| == |val|
    ensures Indices(items) == idx && Digests(items) == val
  {
    var items := seq(|idx|, (i: nat) requires i < |idx| => Opened(val[i], idx[i]));
    assert Indices(items) == idx && Digests(items) == val;
    items
  }

  lemma OpenedMembersAreFair(members: seq<CommitteeMember>, aux: seq<Digest>, depth: nat, leaves: seq<Digest>)
    requires TakeMembers(members).Some? && Registry(leaves) && |leaves| == Pow2(depth)
    requires
      var s := TakeMembers(members).value;
      RootOfColumns(Compress, s.idx, s.val, aux, depth) == Some(Root(Compress, Zero, leaves, depth))
    ensures FairMembers(members, leaves, depth)
  {
    var s := TakeMembers(members).value;
    ColumnsIncrease(members);
    var items := Items(s.idx, s.val);
    BatchSound(Compress, Zero, leaves, items, aux, depth);
    forall i: nat | i < |members|
      ensures FairMember(members[i], leaves, depth) && i < |items| && items[i].index == members[i].index
    {
      ColumnsAreMembers(members, i);
      assert items[i].leaf == Digests(items)[i] && items[i].index == Indices(items)[i];
      DigitsSplit(members[i].index, depth);
    }
  }

  // ---- the partition ---------------------------------------------------------------------

  lemma SlotSummed(members: seq<CommitteeMember>, leaves: seq<Digest>, depth: nat, slot: nat, u: nat)
    requires TakeMembers(members).Some? && slot < MAX_SLOTS
    requires FairMembers(members, leaves, depth) && Total(leaves) < U64
    ensures
      var committees := CommitteeLeaves(TakeMembers(members).value);
      && Summed(committees[slot], leaves)
      && MemberAt(committees, u)(slot) == BucketSum(members, slot, KeyWeight(Indicator(u))) >= 0
      && Balances(committees)(slot) <= BucketSum(members, slot, BalanceWeight())
  {
    var s := TakeMembers(members).value;
    KeysAreBuckets(members, Balances(leaves), slot);
    KeysAreBuckets(members, Indicator(u), slot);
    BalancesAreBuckets(members, leaves, depth, slot);
    FairBalances(members, leaves, depth);
    BucketSame(members, slot, BalanceWeight(), KeyWeight(Balances(leaves)));
    BucketWithinAll(members, slot, BalanceWeight());
    FairSeats(members, leaves, depth, u);
    BucketWithinAll(members, slot, KeyWeight(Indicator(u)));
    if s.keys[slot].value.Some? {
      WeighIndicator(s.keys[slot].value.value, u);
    }
  }

  lemma FairSeats(members: seq<CommitteeMember>, leaves: seq<Digest>, depth: nat, u: nat)
    requires FairMembers(members, leaves, depth)
    ensures forall m :: m in members ==> KeyWeight(Indicator(u))(m) >= 0
    ensures MembersSum(members, KeyWeight(Indicator(u))) <= 1
  {
    forall m | m in members ensures KeyWeight(Indicator(u))(m) >= 0 {
      assert FairMember(m, leaves, depth);
      WeighUnit<nat>(Low(m.index, depth), Indicator(u));
    }
    FairMembersWeigh(members, leaves, depth, Indicator(u));
    var at := Positions(members, depth);
    SumPart<nat>(at, at + {u}, Indicator(u));
    SumSpike<nat>(at + {u}, Indicator(u), u);
  }

  /** The committee tree of fair members is a partition within the committed total. */
  lemma FairMembersPartition(members: seq<CommitteeMember>, leaves: seq<Digest>, depth: nat)
    requires TakeMembers(members).Some? && FairMembers(members, leaves, depth) && Total(leaves) < U64
    ensures Partition(CommitteeLeaves(TakeMembers(members).value), leaves)
  {
    var committees := CommitteeLeaves(TakeMembers(members).value);
    var all := FirstPositions(|committees|);
    forall slot | 0 <= slot < MAX_SLOTS ensures Summed(committees[slot], leaves) {
      SlotSummed(members, leaves, depth, slot, 0);
    }
    forall u: nat, slot: nat ensures MemberAt(committees, u)(slot) >= 0 {
      if slot < MAX_SLOTS {
        SlotSummed(members, leaves, depth, slot, u);
      }
    }
    forall m | m in members ensures m.slot in all {
      var i: nat :| i < |members| && members[i] == m;
      ColumnsAreMembers(members, i);
    }
    forall u: nat ensures TimesSeated(committees, all, u) <= 1 {
      SeatsWithinOne(members, leaves, depth, u, all);
    }
    BalancesWithinTotal(members, leaves, depth, all);
  }

  lemma SeatsWithinOne(members: seq<CommitteeMember>, leaves: seq<Digest>, depth: nat, u: nat, all: set<nat>)
    requires TakeMembers(members).Some? && FairMembers(members, leaves, depth) && Total(leaves) < U64
    requires (forall m :: m in members ==> m.slot in all) && forall s :: s in all ==> s < MAX_SLOTS
    ensures TimesSeated(CommitteeLeaves(TakeMembers(members).value), all, u) <= 1
  {
    var committees := CommitteeLeaves(TakeMembers(members).value);
    var f := KeyWeight(Indicator(u));
    forall s: nat | s in all ensures MemberAt(committees, u)(s) == Buckets(members, f)(s) {
      SlotSummed(members, leaves, depth, s, u);
    }
    SumSame<nat>(all, MemberAt(committees, u), Buckets(members, f));
    BucketsMakeAll(members, f, all);
    FairSeats(members, leaves, depth, u);
  }

  lemma BalancesWithinTotal(members: seq<CommitteeMember>, leaves: seq<Digest>, depth: nat, all: set<nat>)
    requires TakeMembers(members).Some? && FairMembers(members, leaves, depth) && Total(leaves) < U64
    requires (forall m :: m in members ==> m.slot in all) && forall s :: s in all ==> s < MAX_SLOTS
    ensures SlotsBalance(CommitteeLeaves(TakeMembers(members).value), all) <= Total(leaves)
  {
    var committees := CommitteeLeaves(TakeMembers(members).value);
    var f := BalanceWeight();
    forall s: nat | s in all ensures Balances(committees)(s) <= Buckets(members, f)(s) {
      SlotSummed(members, leaves, depth, s, 0);
    }
    SumBounded<nat>(all, Balances(committees), Buckets(members, f));
    BucketsMakeAll(members, f, all);
    FairBalances(members, leaves, depth);
  }

  /** Committee soundness: given a commitment to a registry, the published root is that of a
      partition of opened validators, whatever slots the witness assigned them. */
  lemma CommitteePartitions(w: CommitteeWitness, depth: nat, leaves: seq<Digest>) returns (committees: seq<Digest>)
    requires CommitteeOutputOf(w, depth).Some?
    requires Commits(w.accumulatorCommitment, leaves, depth) && Registry(leaves)
    ensures Partition(committees, leaves)
    ensures CommitteeOutputOf(w, depth).value.committeeRoot == Root(Compress, Zero, committees, TREE_DEPTH)
  {
    committees := CommitteeLeaves(TakeMembers(w.members).value);
    OpenedMembersAreFair(w.members, w.aux, depth, leaves);
    FairMembersPartition(w.members, leaves, depth);
  }
}
