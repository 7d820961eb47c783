/** An epoch diff that is accepted although the new registry's balances outgrow a word: one
    validator holds all but one of a word's values, and a second joins with a balance of one. */
module OverflowingDiff {
  import opened Wrappers
  import opened FormalSums
  import opened Ssz
  import opened Bls
  import opened Merkle
  import opened MultiProof
  import opened Accumulator
  import opened EpochDiff
  import opened EpochDiffSound

  const KEY := Pubkey(Opaque(0), Opaque(1))
  const NEWCOMER := ValidatorData(KEY, 1, 0, U64 - 1)

  /** Every key decompresses to that of position one, the only one asked for. */
  function Decompress(key: Pubkey): Option<Point>
  {
    Some(Unit(1))
  }

  function FieldAt(i: nat): Bytes32
  {
    if i == 0 then Sha256Pair(KEY.head, KEY.tail)
    else if i == 2 then Chunk(NEWCOMER.effectiveBalance)
    else if i == 5 then Chunk(NEWCOMER.activationEpoch)
    else if i == 6 then Chunk(NEWCOMER.exitEpoch)
    else ZERO_CHUNK
  }

  function Fields(): (f: seq<Bytes32>)
    ensures |f| == FIELDS && forall i :: 0 <= i < |f| ==> f[i] == FieldAt(i)
  {
    seq(FIELDS, (i: nat) => FieldAt(i))
  }

  /** The validator there already, with so much. */
  function First(balance: UInt64): Digest
  {
    Leaf(Unit(0), balance)
  }

  function Leaves(balance: UInt64): seq<Digest>
  {
    [First(balance), Zero]
  }

  function Joining(balance: UInt64): Mutation
  {
    Mutation(1, true, NEWCOMER, NEWCOMER, Fields(), Fields(), KEY, KEY, [First(balance)])
  }

  /** Both states hold a list of depth zero, whose one record the diff opens. */
  function Diff(epoch: nat, balance: UInt64): EpochDiffWitness
  {
    EpochDiffWitness(
      ListRoot(ZERO_CHUNK, 2), ListRoot(ValidatorRoot(Fields()), 2), Inner(First(balance), Zero), balance, epoch, epoch + 1,
      [], [], 2, 2, [Joining(balance)], [], [])
  }

  function At(epoch: nat): Env
  {
    Env(Decompress, epoch, epoch + 1)
  }

  function Joined(balance: UInt64): seq<Digest>
  {
    [First(balance), Leaf(Unit(1), 1)]
  }

  lemma OneStep(compress: (Digest, Digest) -> Digest, leaf: Digest, sibling: Digest)
    ensures PathRoot(compress, leaf, 1, [sibling]) == compress(sibling, leaf)
  {
    assert [sibling][1..] == [];
    assert PathRoot(compress, compress(sibling, leaf), 0, []) == compress(sibling, leaf);
  }

  lemma TwoLeaves(left: Digest, right: Digest)
    ensures Root(Compress, Zero, [left, right], 1) == Inner(left, right)
    ensures Total([left, right]) == BalanceOf(left) + BalanceOf(right)
  {
    assert Node(Compress, Zero, [left, right], 0, 0) == left && Node(Compress, Zero, [left, right], 0, 1) == right;
    assert [left, right][..1] == [left] && [left][..0] == [];
    assert Total([left]) == BalanceOf(left);
  }

  lemma OneRecordOpens(record: Bytes32)
    ensures OpensInState([Opened(record, 1)], [], 0, 2, [], ListRoot(record, 2))
  {
    var items := [Opened(record, 1)];
    assert Indices(items) == [1] && Digests(items) == [record];
    assert Scans(Sha256Pair, [1], [record], [], 0) == Some(Level([1], [record], []));
  }

  lemma JoiningMutates(epoch: nat, balance: UInt64)
    requires epoch + 1 < U64 - 1
    ensures Mutate(Replay(Inner(First(balance), Zero), balance, [], []), Joining(balance), At(epoch))
         == Some(Replay(Inner(First(balance), Leaf(Unit(1), 1)), WrappingAdd(balance, 1),
                        [Opened(ZERO_CHUNK, 1)], [Opened(ValidatorRoot(Fields()), 1)]))
  {
    var m, env := Joining(balance), At(epoch);
    assert RecordsMatch(m);
    assert OldLeaf(m, Unit(1), env) == Zero && NewLeaf(m, Unit(1), env) == Leaf(Unit(1), 1);
    OneStep(Compress, Zero, First(balance));
    OneStep(Compress, Leaf(Unit(1), 1), First(balance));
    assert WrappingSub(balance, 0) == balance;
    assert [] + [Opened(ZERO_CHUNK, 1)] == [Opened(ZERO_CHUNK, 1)];
    assert [] + [Opened(ValidatorRoot(Fields()), 1)] == [Opened(ValidatorRoot(Fields()), 1)];
  }

  lemma JoiningReplays(epoch: nat, balance: UInt64, start: Replay)
    ensures MutateAll(start, [Joining(balance)], At(epoch)) == Mutate(start, Joining(balance), At(epoch))
  {
    assert [Joining(balance)][..0] == [];
    assert MutateAll(start, [], At(epoch)) == Some(start);
  }

  lemma JoiningReplaces(epoch: nat, balance: UInt64)
    requires epoch + 1 < U64 - 1
    ensures Replaced(Leaves(balance), [Joining(balance)], At(epoch), 1) == Joined(balance)
  {
    assert Pow2(1) == 2 * Pow2(0) && Low(1, 1) == 2 * Low(0, 0) + 1;
    assert [Joining(balance)][..0] == [];
    assert Replaced(Leaves(balance), [], At(epoch), 1) == Leaves(balance);
    assert Leaves(balance)[1 := Leaf(Unit(1), 1)] == Joined(balance);
  }

  /** Accepted, and published with a total that may have wrapped. */
  lemma DiffIsAccepted(epoch: nat, balance: UInt64)
    requires epoch + 1 < U64 - 1
    ensures EpochDiffOutputOf(Diff(epoch, balance), Decompress, 0, 1) == Some(EpochDiffOutput(
      Commitment(Inner(First(balance), Zero), balance), ListRoot(ZERO_CHUNK, 2), epoch,
      Commitment(Inner(First(balance), Leaf(Unit(1), 1)), WrappingAdd(balance, 1)),
      Inner(First(balance), Leaf(Unit(1), 1)), WrappingAdd(balance, 1),
      ListRoot(ValidatorRoot(Fields()), 2), epoch + 1))
  {
    JoiningReplays(epoch, balance, Replay(Inner(First(balance), Zero), balance, [], []));
    JoiningMutates(epoch, balance);
    OneRecordOpens(ZERO_CHUNK);
    OneRecordOpens(ValidatorRoot(Fields()));
  }

  const RICH: UInt64 := U64 - 1

  /** The start commits to its leaves, the replaced leaves come to exactly a word's size, and the
      end does not commit to them. */
  lemma TotalIsLost(epoch: nat)
    requires epoch + 1 < U64 - 1
    ensures Pow2(1) == |Leaves(RICH)| && Commits(Commitment(Inner(First(RICH), Zero), RICH), Leaves(RICH), 1)
    ensures
      var after := Replaced(Leaves(RICH), Diff(epoch, RICH).mutations, At(epoch), 1);
      && Total(after) == 0x1_0000_0000_0000_0000
      && EpochDiffOutputOf(Diff(epoch, RICH), Decompress, 0, 1).Some?
      && !Commits(EpochDiffOutputOf(Diff(epoch, RICH), Decompress, 0, 1).value.accumulatorCommitment, after, 1)
  {
    assert Pow2(1) == 2 * Pow2(0);
    TwoLeaves(First(RICH), Zero);
    TwoLeaves(First(RICH), Leaf(Unit(1), 1));
    JoiningReplaces(epoch, RICH);
    DiffIsAccepted(epoch, RICH);
  }
}
