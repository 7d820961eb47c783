/** The epoch diff: registry mutations replayed on the accumulator, opened in both states. */
module EpochDiff {
  import opened Wrappers
  import opened FormalSums
  import opened Ssz
  import opened Bls
  import opened Merkle
  import opened MultiProof
  import opened Accumulator

  /** Forty-eight bytes as the two padded chunks they fill. */
  datatype Pubkey = Pubkey(head: Bytes32, tail: Bytes32)

  datatype ValidatorData = ValidatorData(
    pubkey: Pubkey, effectiveBalance: UInt64, activationEpoch: UInt64, exitEpoch: UInt64)
  {
    predicate IsActive(epoch: nat) { activationEpoch <= epoch < exitEpoch }

    function ActiveEffectiveBalance(epoch: nat): UInt64
    {
      if IsActive(epoch) then effectiveBalance else 0
    }
  }

  datatype Mutation = Mutation(
    index: nat, isNew: bool, oldData: ValidatorData, newData: ValidatorData,
    oldFields: seq<Bytes32>, newFields: seq<Bytes32>, oldChunks: Pubkey, newChunks: Pubkey, siblings: seq<Digest>)

  datatype EpochDiffWitness = EpochDiffWitness(
    stateRoot1: Bytes32, stateRoot2: Bytes32, accRoot1: Digest, total1: UInt64, epoch1: nat, epoch2: nat,
    statePath1: seq<Bytes32>, statePath2: seq<Bytes32>, length1: nat, length2: nat,
    mutations: seq<Mutation>, sszAux1: seq<Bytes32>, sszAux2: seq<Bytes32>)

  datatype EpochDiffOutput = EpochDiffOutput(
    prevAccumulatorCommitment: Digest, stateRoot1: Bytes32, epoch1: nat,
    accumulatorCommitment: Digest, accRoot: Digest, total: nat, stateRoot2: Bytes32, epoch2: nat)

  const FIELDS: nat := 8
  const VALIDATORS_FIELD: nat := 11

  // ---- SSZ containers ---------------------------------------------------------------------

  /** `validator_hash_tree_root` */
  function ValidatorRoot(fields: seq<Bytes32>): Bytes32
    requires |fields| == FIELDS
  {
    var n4 := Sha256Pair(Sha256Pair(fields[0], fields[1]), Sha256Pair(fields[2], fields[3]));
    var n5 := Sha256Pair(Sha256Pair(fields[4], fields[5]), Sha256Pair(fields[6], fields[7]));
    Sha256Pair(n4, n5)
  }

  /** `shared_sha256_pair`: one hash where the two inputs agree. */
  function SharedPair(oldLeft: Bytes32, oldRight: Bytes32, newLeft: Bytes32, newRight: Bytes32): (Bytes32, Bytes32)
  {
    if oldLeft == newLeft && oldRight == newRight then
      var h := Sha256Pair(newLeft, newRight);
      (h, h)
    else (Sha256Pair(oldLeft, oldRight), Sha256Pair(newLeft, newRight))
  }

  /** `validator_hash_tree_root_pair`: sharing work changes neither root. */
  function ValidatorRootPair(o: seq<Bytes32>, n: seq<Bytes32>): (r: (Bytes32, Bytes32))
    requires |o| == |n| == FIELDS
    ensures r == (ValidatorRoot(o), ValidatorRoot(n))
  {
    var n0 := SharedPair(o[0], o[1], n[0], n[1]);
    var n1 := SharedPair(o[2], o[3], n[2], n[3]);
    var n2 := SharedPair(o[4], o[5], n[4], n[5]);
    var n3 := SharedPair(o[6], o[7], n[6], n[7]);
    var n4 := SharedPair(n0.0, n1.0, n0.1, n1.1);
    var n5 := SharedPair(n2.0, n3.0, n2.1, n3.1);
    SharedPair(n4.0, n5.0, n4.1, n5.1)
  }

  /** `verify_field_leaves_no_pubkey_hash` */
  predicate FieldsMatch(data: ValidatorData, fields: seq<Bytes32>, chunks: Pubkey)
    requires |fields| == FIELDS
  {
    && chunks == data.pubkey
    && fields[2] == Chunk(data.effectiveBalance)
    && fields[5] == Chunk(data.activationEpoch)
    && fields[6] == Chunk(data.exitEpoch)
  }

  /** `verify_field_leaves` */
  predicate RecordMatches(data: ValidatorData, fields: seq<Bytes32>, chunks: Pubkey)
    requires |fields| == FIELDS
  {
    fields[0] == Sha256Pair(chunks.head, chunks.tail) && FieldsMatch(data, fields, chunks)
  }

  /** `list_hash_tree_root` */
  function ListRoot(dataRoot: Bytes32, length: nat): Bytes32
  {
    Sha256Pair(dataRoot, Chunk(length))
  }

  // ---- the mutations ----------------------------------------------------------------------

  /** What the circuit is given from outside: how a compressed key becomes a point. */
  datatype Env = Env(decompress: Pubkey -> Option<Point>, epochOld: nat, epochNew: nat)

  datatype Replay = Replay(
    accRoot: Digest, total: nat, oldLeaves: seq<Opened<Bytes32>>, newLeaves: seq<Opened<Bytes32>>)

  /** The accumulator leaf a mutation replaces and the one it writes. */
  function OldLeaf(m: Mutation, point: Point, env: Env): Digest
  {
    if m.isNew then Zero else Leaf(point, m.oldData.ActiveEffectiveBalance(env.epochOld))
  }

  function NewLeaf(m: Mutation, point: Point, env: Env): Digest
  {
    Leaf(point, m.newData.ActiveEffectiveBalance(env.epochNew))
  }

  /** The record a mutation names in the old state: none for a new validator. */
  function OldRecord(m: Mutation): Bytes32
    requires |m.oldFields| == FIELDS
  {
    if m.isNew then ZERO_CHUNK else ValidatorRoot(m.oldFields)
  }

  predicate RecordsMatch(m: Mutation)
    requires |m.oldFields| == |m.newFields| == FIELDS
  {
    && RecordMatches(m.newData, m.newFields, m.newChunks)
    && (m.isNew || (FieldsMatch(m.oldData, m.oldFields, m.oldChunks) && m.oldFields[0] == m.newFields[0]))
  }

  function Mutate(s: Replay, m: Mutation, env: Env): Option<Replay>
    requires |m.oldFields| == |m.newFields| == FIELDS
  {
    var point :- env.decompress(m.newData.pubkey);
    if !RecordsMatch(m) then None
    else if PathRoot(Compress, OldLeaf(m, point, env), m.index, m.siblings) != s.accRoot then None
    else
      Some(Replay(
        PathRoot(Compress, NewLeaf(m, point, env), m.index, m.siblings),
        WrappingAdd(WrappingSub(s.total, BalanceOf(OldLeaf(m, point, env))), BalanceOf(NewLeaf(m, point, env))),
        s.oldLeaves + [Opened(OldRecord(m), m.index)],
        s.newLeaves + [Opened(ValidatorRoot(m.newFields), m.index)]))
  }

  /** Eight fields in each record, and one sibling a level. */
  predicate Shaped(mutations: seq<Mutation>, accDepth: nat)
  {
    forall m :: m in mutations ==> |m.oldFields| == |m.newFields| == FIELDS && |m.siblings| == accDepth
  }

  function MutateAll(start: Replay, mutations: seq<Mutation>, env: Env): Option<Replay>
    requires forall m :: m in mutations ==> |m.oldFields| == |m.newFields| == FIELDS
    decreases |mutations|
  {
    if mutations == [] then Some(start)
    else
      var last := |mutations| - 1;
      var s :- MutateAll(start, mutations[..last], env);
      Mutate(s, mutations[last], env)
  }

  /** One state's side: the records open at the list root the state commits to. */
  predicate OpensInState(leaves: seq<Opened<Bytes32>>, aux: seq<Bytes32>, depth: nat, length: nat,
                         path: seq<Bytes32>, stateRoot: Bytes32)
  {
    match RootOfLeaves(Sha256Pair, leaves, aux, depth)
    case None => false
    case Some(dataRoot) => PathRoot(Sha256Pair, ListRoot(dataRoot, length), VALIDATORS_FIELD, path) == stateRoot
  }

  /** What `verify_epoch_diff_with_depth` returns; `None` where it panics. */
  function EpochDiffOutputOf(w: EpochDiffWitness, decompress: Pubkey -> Option<Point>, sszDepth: nat, accDepth: nat)
    : Option<EpochDiffOutput>
  {
    if !Shaped(w.mutations, accDepth) then None
    else
      var s :- MutateAll(Replay(w.accRoot1, w.total1, [], []), w.mutations, Env(decompress, w.epoch1, w.epoch2));
      if !OpensInState(s.oldLeaves, w.sszAux1, sszDepth, w.length1, w.statePath1, w.stateRoot1) then None
      else if !OpensInState(s.newLeaves, w.sszAux2, sszDepth, w.length2, w.statePath2, w.stateRoot2) then None
      else
        Some(EpochDiffOutput(
          Commitment(w.accRoot1, w.total1), w.stateRoot1, w.epoch1,
          Commitment(s.accRoot, s.total), s.accRoot, s.total, w.stateRoot2, w.epoch2))
  }

  // ---- the loop ------------------------------------------------------------------------------

  lemma MutateAllStep(start: Replay, mutations: seq<Mutation>, env: Env, i: nat)
    requires i < |mutations| && forall m :: m in mutations ==> |m.oldFields| == |m.newFields| == FIELDS
    ensures MutateAll(start, mutations[..i + 1], env)
         == (var s :- MutateAll(start, mutations[..i], env); Mutate(s, mutations[i], env))
  {
    assert mutations[..i + 1][..i] == mutations[..i];
  }

  lemma {:induction false} MutateAllFails(start: Replay, mutations: seq<Mutation>, env: Env, n: nat)
    requires n <= |mutations| && forall m :: m in mutations ==> |m.oldFields| == |m.newFields| == FIELDS
    requires MutateAll(start, mutations[..n], env).None?
    ensures MutateAll(start, mutations, env).None?
    decreases |mutations|
  {
    if n == |mutations| {
      assert mutations[..n] == mutations;
    } else {
      assert mutations[..|mutations| - 1][..n] == mutations[..n];
      MutateAllFails(start, mutations[..|mutations| - 1], env, n);
    }
  }

  method CheckShapes(mutations: seq<Mutation>, accDepth: nat) returns (ok: bool)
    ensures ok == Shaped(mutations, accDepth)
  {
    for i := 0 to |mutations|
      invariant Shaped(mutations[..i], accDepth)
    {
      var m := mutations[i];
      if |m.oldFields| != FIELDS || |m.newFields| != FIELDS || |m.siblings| != accDepth {
        assert m in mutations;
        return false;
      }
      assert mutations[..i + 1] == mutations[..i] + [m];
    }
    assert mutations[..|mutations|] == mutations;
    ok := true;
  }

  /** One turn of the mutation loop. */
  method ReplayOne(s: Replay, m: Mutation, env: Env) returns (r: Option<Replay>)
    requires |m.oldFields| == |m.newFields| == FIELDS
    ensures r == Mutate(s, m, env)
  {
    var point := env.decompress(m.newData.pubkey);
    if point.None? || !RecordMatches(m.newData, m.newFields, m.newChunks) {
      return None;
    }
    var before;
    var oldRoot;
    if m.isNew {
      before := ComputeRoot(Compress, Zero, m.index, m.siblings);
      oldRoot := ZERO_CHUNK;
    } else {
      if !FieldsMatch(m.oldData, m.oldFields, m.oldChunks) || m.oldFields[0] != m.newFields[0] {
        return None;
      }
      var balance := m.oldData.ActiveEffectiveBalance(env.epochOld);
      before := ComputeRoot(Compress, Leaf(point.value, balance), m.index, m.siblings);
      oldRoot := ValidatorRootPair(m.oldFields, m.newFields).0;
    }
    if before != s.accRoot {
      return None;
    }
    var newBalance := m.newData.ActiveEffectiveBalance(env.epochNew);
    var accRoot := ComputeRoot(Compress, Leaf(point.value, newBalance), m.index, m.siblings);
    var oldBalance := if m.isNew then 0 else m.oldData.ActiveEffectiveBalance(env.epochOld);
    r := Some(Replay(
      accRoot, WrappingAdd(WrappingSub(s.total, oldBalance), newBalance),
      s.oldLeaves + [Opened(oldRoot, m.index)], s.newLeaves + [Opened(ValidatorRoot(m.newFields), m.index)]));
  }

  method CheckOpening(leaves: seq<Opened<Bytes32>>, aux: seq<Bytes32>, depth: nat, length: nat,
                      path: seq<Bytes32>, stateRoot: Bytes32) returns (ok: bool)
    ensures ok == OpensInState(leaves, aux, depth, length, path, stateRoot)
  {
    var dataRoot := BatchRoot(Sha256Pair, leaves, aux, depth);
    if dataRoot.None? {
      return false;
    }
    var root := ComputeRoot(Sha256Pair, ListRoot(dataRoot.value, length), VALIDATORS_FIELD, path);
    ok := root == stateRoot;
  }

  /** `verify_epoch_diff_with_depth` */
  method VerifyEpochDiff(w: EpochDiffWitness, decompress: Pubkey -> Option<Point>, sszDepth: nat, accDepth: nat)
    returns (r: Option<EpochDiffOutput>)
    ensures r == EpochDiffOutputOf(w, decompress, sszDepth, accDepth)
  {
    var shaped := CheckShapes(w.mutations, accDepth);
    if !shaped {
      return None;
    }
    var env := Env(decompress, w.epoch1, w.epoch2);
    var start := Replay(w.accRoot1, w.total1, [], []);
    var s := start;
    for i := 0 to |w.mutations|
      invariant MutateAll(start, w.mutations[..i], env) == Some(s)
    {
      MutateAllStep(start, w.mutations, env, i);
      var next := ReplayOne(s, w.mutations[i], env);
      if next.None? {
        MutateAllFails(start, w.mutations, env, i + 1);
        return None;
      }
      s := next.value;
    }
    assert w.mutations[..|w.mutations|] == w.mutations;
    var opensOld := CheckOpening(s.oldLeaves, w.sszAux1, sszDepth, w.length1, w.statePath1, w.stateRoot1);
    if !opensOld {
      return None;
    }
    var opensNew := CheckOpening(s.newLeaves, w.sszAux2, sszDepth, w.length2, w.statePath2, w.stateRoot2);
    if !opensNew {
      return None;
    }
    r := Some(EpochDiffOutput(
      Commitment(w.accRoot1, w.total1), w.stateRoot1, w.epoch1,
      Commitment(s.accRoot, s.total), s.accRoot, s.total, w.stateRoot2, w.epoch2));
  }
}
