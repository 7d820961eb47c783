/** The committee proof: each slot's committee summed out of the accumulator in one pass. */
module Committee {
  import opened Wrappers
  import opened FormalSums
  import opened Bls
  import opened Merkle
  import opened MultiProof
  import opened Accumulator
  import opened SlotProof
  import AccTree

  datatype CommitteeMember = CommitteeMember(index: nat, key: Point, balance: nat, slot: nat)

  datatype CommitteeWitness = CommitteeWitness(
    accumulatorCommitment: Digest, targetEpoch: nat, accRoot: Digest, total: nat,
    members: seq<CommitteeMember>, aux: seq<Digest>)

  datatype CommitteeOutput = CommitteeOutput(accumulatorCommitment: Digest, targetEpoch: nat, committeeRoot: Digest)

  /** The columns and the per-slot sums while members are read. */
  datatype Sums = Sums(previous: Option<nat>, idx: seq<nat>, val: seq<Digest>, keys: seq<PointSum>, balances: seq<nat>)
  {
    predicate Sized() { |idx| == |val| && |keys| == |balances| == MAX_SLOTS }
  }

  function NoMembers(): (s: Sums)
    ensures s.Sized()
  {
    Sums(None, [], [], seq(MAX_SLOTS, _ => PointSum(None)), seq(MAX_SLOTS, _ => 0))
  }

  function TakeMember(s: Sums, m: CommitteeMember): (r: Option<Sums>)
    requires s.Sized()
    ensures r.Some? ==> r.value.Sized()
  {
    if (s.previous.Some? && m.index <= s.previous.value) || m.slot >= MAX_SLOTS then None
    else
      var key :- s.keys[m.slot].Add(m.key);
      Some(Sums(
        Some(m.index), s.idx + [m.index], s.val + [Leaf(m.key, m.balance)],
        s.keys[m.slot := key], s.balances[m.slot := WrappingAdd(s.balances[m.slot], m.balance)]))
  }

  function TakeMembers(members: seq<CommitteeMember>): (r: Option<Sums>)
    ensures r.Some? ==> r.value.Sized()
    decreases |members|
  {
    if members == [] then Some(NoMembers())
    else
      var last := |members| - 1;
      var s :- TakeMembers(members[..last]);
      TakeMember(s, members[last])
  }

  /** One leaf per slot, the empty digest where nobody was summed. */
  function CommitteeLeaves(s: Sums): (leaves: seq<Digest>)
    requires s.Sized()
    ensures |leaves| == MAX_SLOTS
  {
    seq(MAX_SLOTS, (i: nat) requires i < MAX_SLOTS =>
      match s.keys[i].value
      case None => Zero
      case Some(key) => Leaf(key, s.balances[i]))
  }

  /** What `verify` returns; `None` where it panics. */
  function CommitteeOutputOf(w: CommitteeWitness, accDepth: nat): Option<CommitteeOutput>
  {
    if Commitment(w.accRoot, w.total) != w.accumulatorCommitment then None
    else
      var s :- TakeMembers(w.members);
      if RootOfColumns(Compress, s.idx, s.val, w.aux, accDepth) != Some(w.accRoot) then None
      else
        Some(CommitteeOutput(
          w.accumulatorCommitment, w.targetEpoch, Root(Compress, Zero, CommitteeLeaves(s), TREE_DEPTH)))
  }

  // ---- the loops ----------------------------------------------------------------------------

  lemma TakeMembersStep(members: seq<CommitteeMember>, i: nat)
    requires i < |members|
    ensures TakeMembers(members[..i + 1]) == (var s :- TakeMembers(members[..i]); TakeMember(s, members[i]))
  {
    assert members[..i + 1][..i] == members[..i];
  }

  lemma {:induction false} TakeMembersFails(members: seq<CommitteeMember>, n: nat)
    requires n <= |members| && TakeMembers(members[..n]).None?
    ensures TakeMembers(members).None?
    decreases |members|
  {
    if n == |members| {
      assert members[..n] == members;
    } else {
      assert members[..|members| - 1][..n] == members[..n];
      TakeMembersFails(members[..|members| - 1], n);
    }
  }

  method SumMembers(members: seq<CommitteeMember>) returns (r: Option<Sums>)
    ensures r == TakeMembers(members)
  {
    var idx, val := [], [];
    var keys := seq(MAX_SLOTS, _ => PointSum(None));
    var balances: seq<nat> := seq(MAX_SLOTS, _ => 0);
    var previous: Option<nat> := None;
    for i := 0 to |members|
      invariant |idx| == |val| && |keys| == |balances| == MAX_SLOTS
      invariant TakeMembers(members[..i]) == Some(Sums(previous, idx, val, keys, balances))
    {
      TakeMembersStep(members, i);
      var m := members[i];
      if (previous.Some? && m.index <= previous.value) || m.slot >= MAX_SLOTS {
        TakeMembersFails(members, i + 1);
        return None;
      }
      previous := Some(m.index);
      idx, val := idx + [m.index], val + [Leaf(m.key, m.balance)];
      var key := keys[m.slot].Add(m.key);
      if key.None? {
        TakeMembersFails(members, i + 1);
        return None;
      }
      keys := keys[m.slot := key.value];
      balances := balances[m.slot := WrappingAdd(balances[m.slot], m.balance)];
    }
    assert members[..|members|] == members;
    r := Some(Sums(previous, idx, val, keys, balances));
  }

  /** `root`: the tree over the slots, level by level. */
  method TreeRoot(leaves: seq<Digest>, depth: nat) returns (root: Digest)
    requires |leaves| == Pow2(depth)
    ensures root == Root(Compress, Zero, leaves, depth)
  {
    var level := leaves;
    AccTree.LevelZero(Compress, Zero, leaves, depth);
    for d := 0 to depth
      invariant level == AccTree.LevelOf(Compress, Zero, leaves, depth, d)
    {
      AccTree.LevelAbove(Compress, Zero, leaves, depth, d);
      level := AccTree.Compressed(Compress, level);
    }
    root := level[0];
  }

  /** `committee::verify` */
  method VerifyCommittee(w: CommitteeWitness, accDepth: nat) returns (r: Option<CommitteeOutput>)
    ensures r == CommitteeOutputOf(w, accDepth)
  {
    if Commitment(w.accRoot, w.total) != w.accumulatorCommitment {
      return None;
    }
    var s := SumMembers(w.members);
    if s.None? {
      return None;
    }
    var root := BatchRootColumns(Compress, s.value.idx, s.value.val, w.aux, accDepth);
    if root != Some(w.accRoot) {
      return None;
    }
    var committeeRoot := TreeRoot(CommitteeLeaves(s.value), TREE_DEPTH);
    r := Some(CommitteeOutput(w.accumulatorCommitment, w.targetEpoch, committeeRoot));
  }
}
