/** What an accepted epoch diff has done to the committed leaf vector, to its total, and what
    it has opened in the two states. */
module EpochDiffSound {
  import opened Wrappers
  import opened Ssz
  import opened Bls
  import opened FormalSums
  import opened Merkle
  import opened MultiProof
  import opened Accumulator
  import opened Folds
  import opened EpochDiff

  // ---- totals ---------------------------------------------------------------------------

  lemma {:induction false} TotalUpdates(leaves: seq<Digest>, at: nat, leaf: Digest)
    requires at < |leaves|
    ensures Total(leaves[at := leaf]) == Total(leaves) - BalanceOf(leaves[at]) + BalanceOf(leaf)
    decreases |leaves|
  {
    var last := |leaves| - 1;
    var front := leaves[..last];
    if at == last {
      assert leaves[at := leaf][..last] == front;
    } else {
      assert leaves[at := leaf][..last] == front[at := leaf];
      TotalUpdates(front, at, leaf);
    }
  }

  lemma {:induction false} BalanceWithinTotal(leaves: seq<Digest>, at: nat)
    requires at < |leaves|
    ensures BalanceOf(leaves[at]) <= Total(leaves)
    decreases |leaves|
  {
    if at < |leaves| - 1 {
      BalanceWithinTotal(leaves[..|leaves| - 1], at);
    }
  }

  // ---- the leaf vector -------------------------------------------------------------------

  function PointOf(m: Mutation, env: Env): Point
  {
    match env.decompress(m.newData.pubkey)
    case None => IDENTITY
    case Some(point) => point
  }

  function Before(m: Mutation, env: Env): Digest
  {
    OldLeaf(m, PointOf(m, env), env)
  }

  function After(m: Mutation, env: Env): Digest
  {
    NewLeaf(m, PointOf(m, env), env)
  }

  /** The leaves with the named ones replaced, one after the other. */
  function Replaced(leaves: seq<Digest>, mutations: seq<Mutation>, env: Env, depth: nat): (r: seq<Digest>)
    requires |leaves| == Pow2(depth)
    ensures |r| == |leaves|
    decreases |mutations|
  {
    if mutations == [] then leaves
    else
      var last := mutations[|mutations| - 1];
      DigitsSplit(last.index, depth);
      Replaced(leaves, mutations[..|mutations| - 1], env, depth)[Low(last.index, depth) := After(last, env)]
  }

  /** One mutation: the leaf it replaces is the one it names, and the root follows. */
  lemma MutateReplaces(s: Replay, m: Mutation, env: Env, leaves: seq<Digest>, depth: nat)
    requires |m.oldFields| == |m.newFields| == FIELDS && |m.siblings| == depth && |leaves| == Pow2(depth)
    requires Mutate(s, m, env).Some? && s.accRoot == Root(Compress, Zero, leaves, depth)
    ensures
      var at := Low(m.index, depth);
      && at < |leaves| && leaves[at] == Before(m, env)
      && Mutate(s, m, env).value.accRoot == Root(Compress, Zero, leaves[at := After(m, env)], depth)
  {
    PathUpdates(Compress, Zero, leaves, Before(m, env), After(m, env), m.index, m.siblings);
  }

  lemma {:induction false} ReplayTracks(start: Replay, mutations: seq<Mutation>, env: Env, leaves: seq<Digest>, depth: nat)
    requires Shaped(mutations, depth) && |leaves| == Pow2(depth)
    requires MutateAll(start, mutations, env).Some? && start.accRoot == Root(Compress, Zero, leaves, depth)
    ensures MutateAll(start, mutations, env).value.accRoot
         == Root(Compress, Zero, Replaced(leaves, mutations, env, depth), depth)
    ensures mutations != [] ==>
      var last := mutations[|mutations| - 1];
      && Low(last.index, depth) < |leaves|
      && Replaced(leaves, mutations[..|mutations| - 1], env, depth)[Low(last.index, depth)] == Before(last, env)
    decreases |mutations|
  {
    if mutations != [] {
      var front, last := mutations[..|mutations| - 1], mutations[|mutations| - 1];
      ReplayTracks(start, front, env, leaves, depth);
      MutateReplaces(MutateAll(start, front, env).value, last, env, Replaced(leaves, front, env, depth), depth);
    }
  }

  /** The running total is the leaf vector's, up to multiples of the word. */
  lemma {:induction false} TotalTracks(start: Replay, mutations: seq<Mutation>, env: Env, leaves: seq<Digest>, depth: nat)
    returns (wraps: int)
    requires Shaped(mutations, depth) && |leaves| == Pow2(depth)
    requires MutateAll(start, mutations, env).Some? && start.accRoot == Root(Compress, Zero, leaves, depth)
    requires start.total == Total(leaves) < U64
    ensures MutateAll(start, mutations, env).value.total < U64
    ensures Total(Replaced(leaves, mutations, env, depth)) == MutateAll(start, mutations, env).value.total + wraps * U64
    decreases |mutations|
  {
    if mutations == [] {
      wraps := 0;
    } else {
      var front, last := mutations[..|mutations| - 1], mutations[|mutations| - 1];
      wraps := TotalTracks(start, front, env, leaves, depth);
      ReplayTracks(start, mutations, env, leaves, depth);
      var was := MutateAll(start, front, env).value.total;
      var less := WrappingSub(was, BalanceOf(Before(last, env)));
      TotalUpdates(Replaced(leaves, front, env, depth), Low(last.index, depth), After(last, env));
      wraps := wraps - (if was >= BalanceOf(Before(last, env)) then 0 else 1)
                     + (if less + BalanceOf(After(last, env)) < U64 then 0 else 1);
    }
  }

  lemma TotalFits(start: Replay, mutations: seq<Mutation>, env: Env, leaves: seq<Digest>, depth: nat)
    requires Shaped(mutations, depth) && |leaves| == Pow2(depth)
    requires MutateAll(start, mutations, env).Some? && start.accRoot == Root(Compress, Zero, leaves, depth)
    requires start.total == Total(leaves) < U64
    ensures
      var total := Total(Replaced(leaves, mutations, env, depth));
      total < U64 <==> MutateAll(start, mutations, env).value.total == total
  {
    var wraps := TotalTracks(start, mutations, env, leaves, depth);
    assert wraps <= -1 || wraps == 0 || wraps >= 1;
  }

  /** The subtraction of a mutation never underflows while the vector's total fits a word. */
  lemma SubtractionFits(start: Replay, mutations: seq<Mutation>, env: Env, leaves: seq<Digest>, depth: nat)
    requires Shaped(mutations, depth) && |leaves| == Pow2(depth) && mutations != []
    requires MutateAll(start, mutations, env).Some? && start.accRoot == Root(Compress, Zero, leaves, depth)
    requires start.total == Total(leaves) < U64
    requires Total(Replaced(leaves, mutations[..|mutations| - 1], env, depth)) < U64
    ensures BalanceOf(Before(mutations[|mutations| - 1], env))
         <= MutateAll(start, mutations[..|mutations| - 1], env).value.total
         == Total(Replaced(leaves, mutations[..|mutations| - 1], env, depth))
  {
    var front, last := mutations[..|mutations| - 1], mutations[|mutations| - 1];
    ReplayTracks(start, mutations, env, leaves, depth);
    var wraps := TotalTracks(start, front, env, leaves, depth);
    assert wraps == 0;
    BalanceWithinTotal(Replaced(leaves, front, env, depth), Low(last.index, depth));
  }

  // ---- exactly the named leaves -------------------------------------------------------------

  /** The last of the first `n` mutations to name a position. */
  function LastNaming(mutations: seq<Mutation>, n: nat, depth: nat, at: nat): (r: Option<nat>)
    requires n <= |mutations|
    ensures r.Some? ==> r.value < n && Low(mutations[r.value].index, depth) == at
    ensures r.None? ==> forall j :: 0 <= j < n ==> Low(mutations[j].index, depth) != at
  {
    if n == 0 then None
    else if Low(mutations[n - 1].index, depth) == at then Some(n - 1)
    else LastNaming(mutations, n - 1, depth, at)
  }

  /** What a position holds after `n` mutations: what the last to name it wrote. */
  function HeldAfter(leaves: seq<Digest>, mutations: seq<Mutation>, env: Env, n: nat, depth: nat, at: nat): Digest
    requires n <= |mutations| && at < |leaves|
  {
    match LastNaming(mutations, n, depth, at)
    case None => leaves[at]
    case Some(j) => After(mutations[j], env)
  }

  lemma {:induction false} ReplacedHolds(leaves: seq<Digest>, mutations: seq<Mutation>, env: Env, n: nat, depth: nat, at: nat)
    requires n <= |mutations| && |leaves| == Pow2(depth) && at < |leaves|
    ensures Replaced(leaves, mutations[..n], env, depth)[at] == HeldAfter(leaves, mutations, env, n, depth, at)
    decreases n
  {
    if n > 0 {
      PrefixGrows(mutations, n - 1);
      DigitsSplit(mutations[n - 1].index, depth);
      ReplacedHolds(leaves, mutations, env, n - 1, depth, at);
    }
  }

  /** Every mutation finds at its position what the last to name it wrote, or the leaf that was
      there; and so it is left at the end, with no other leaf moved. */
  ghost predicate ExactlyNamed(leaves: seq<Digest>, after: seq<Digest>, mutations: seq<Mutation>, env: Env, depth: nat)
  {
    && |after| == |leaves| && mutations != []
    && (forall at: nat :: at < |leaves| ==> after[at] == HeldAfter(leaves, mutations, env, |mutations|, depth, at))
    && (forall j: nat :: j < |mutations| ==>
          Low(mutations[j].index, depth) < |leaves|
          && Before(mutations[j], env) == HeldAfter(leaves, mutations, env, j, depth, Low(mutations[j].index, depth)))
  }

  lemma MutateAllPrefix(start: Replay, mutations: seq<Mutation>, env: Env, n: nat)
    requires n <= |mutations| && forall m :: m in mutations ==> |m.oldFields| == |m.newFields| == FIELDS
    requires MutateAll(start, mutations, env).Some?
    ensures MutateAll(start, mutations[..n], env).Some?
  {
    if MutateAll(start, mutations[..n], env).None? {
      MutateAllFails(start, mutations, env, n);
    }
  }

  /** Each mutation states what its position holds when its turn comes. */
  lemma FoundBefore(start: Replay, mutations: seq<Mutation>, env: Env, leaves: seq<Digest>, depth: nat, j: nat)
    requires Shaped(mutations, depth) && |leaves| == Pow2(depth) && j < |mutations|
    requires MutateAll(start, mutations, env).Some? && start.accRoot == Root(Compress, Zero, leaves, depth)
    ensures Low(mutations[j].index, depth) < |leaves|
    ensures Before(mutations[j], env) == HeldAfter(leaves, mutations, env, j, depth, Low(mutations[j].index, depth))
  {
    PrefixGrows(mutations, j);
    DigitsSplit(mutations[j].index, depth);
    MutateAllPrefix(start, mutations, env, j + 1);
    ReplayTracks(start, mutations[..j + 1], env, leaves, depth);
    ReplacedHolds(leaves, mutations, env, j, depth, Low(mutations[j].index, depth));
  }

  lemma ReplacedIsExact(start: Replay, mutations: seq<Mutation>, env: Env, leaves: seq<Digest>, depth: nat)
    requires Shaped(mutations, depth) && |leaves| == Pow2(depth) && mutations != []
    requires MutateAll(start, mutations, env).Some? && start.accRoot == Root(Compress, Zero, leaves, depth)
    ensures ExactlyNamed(leaves, Replaced(leaves, mutations, env, depth), mutations, env, depth)
  {
    PrefixGrows(mutations, |mutations| - 1);
    forall at: nat | at < |leaves|
      ensures Replaced(leaves, mutations, env, depth)[at] == HeldAfter(leaves, mutations, env, |mutations|, depth, at)
    {
      ReplacedHolds(leaves, mutations, env, |mutations|, depth, at);
    }
    forall j: nat | j < |mutations|
      ensures Low(mutations[j].index, depth) < |leaves|
      ensures Before(mutations[j], env) == HeldAfter(leaves, mutations, env, j, depth, Low(mutations[j].index, depth))
    {
      FoundBefore(start, mutations, env, leaves, depth, j);
    }
  }

  /** No position named by two mutations. */
  ghost predicate PositionsApart(mutations: seq<Mutation>, depth: nat)
  {
    forall i, j :: 0 <= i < j < |mutations| ==> Low(mutations[i].index, depth) != Low(mutations[j].index, depth)
  }

  lemma {:induction false} NamedByOne(mutations: seq<Mutation>, n: nat, depth: nat, j: nat)
    requires PositionsApart(mutations, depth) && j < |mutations| && n <= |mutations|
    ensures LastNaming(mutations, n, depth, Low(mutations[j].index, depth)) == if j < n then Some(j) else None
    decreases n
  {
    if n > 0 && j != n - 1 {
      NamedByOne(mutations, n - 1, depth, j);
      assert j < n - 1 ==> Low(mutations[j].index, depth) != Low(mutations[n - 1].index, depth);
      assert n - 1 < j ==> Low(mutations[n - 1].index, depth) != Low(mutations[j].index, depth);
    }
  }

  // ---- the records opened -----------------------------------------------------------------

  lemma {:induction false} LeavesAreRecords(start: Replay, mutations: seq<Mutation>, env: Env, j: nat)
    requires forall m :: m in mutations ==> |m.oldFields| == |m.newFields| == FIELDS
    requires MutateAll(start, mutations, env).Some? && start.oldLeaves == start.newLeaves == [] && j < |mutations|
    ensures
      var s := MutateAll(start, mutations, env).value;
      && |s.oldLeaves| == |s.newLeaves| == |mutations|
      && s.oldLeaves[j] == Opened(OldRecord(mutations[j]), mutations[j].index)
      && s.newLeaves[j] == Opened(ValidatorRoot(mutations[j].newFields), mutations[j].index)
    decreases |mutations|
  {
    hide RecordsMatch, OldLeaf, NewLeaf, PathRoot, ValidatorRoot, OldRecord;
    var front := mutations[..|mutations| - 1];
    if front == [] {
      assert MutateAll(start, front, env) == Some(start);
    } else {
      LeavesAreRecords(start, front, env, if j < |front| then j else 0);
    }
  }

  lemma MutationsIncrease(w: EpochDiffWitness, decompress: Pubkey -> Option<Point>, sszDepth: nat, accDepth: nat)
    requires EpochDiffOutputOf(w, decompress, sszDepth, accDepth).Some?
    ensures w.mutations != []
    ensures forall i, j :: 0 <= i < j < |w.mutations| ==> w.mutations[i].index < w.mutations[j].index
  {
    var env := Env(decompress, w.epoch1, w.epoch2);
    var s := MutateAll(Replay(w.accRoot1, w.total1, [], []), w.mutations, env).value;
    assert Increasing(Indices(s.oldLeaves));
    forall i, j | 0 <= i < j < |w.mutations| ensures w.mutations[i].index < w.mutations[j].index {
      LeavesAreRecords(Replay(w.accRoot1, w.total1, [], []), w.mutations, env, i);
      LeavesAreRecords(Replay(w.accRoot1, w.total1, [], []), w.mutations, env, j);
      assert Indices(s.oldLeaves)[i] < Indices(s.oldLeaves)[j];
    }
    assert s.oldLeaves != [];
  }

  /** Indices of an accepted diff name positions apart wherever they fit the accumulator. */
  lemma FittingIndicesApart(w: EpochDiffWitness, decompress: Pubkey -> Option<Point>, sszDepth: nat, accDepth: nat)
    requires EpochDiffOutputOf(w, decompress, sszDepth, accDepth).Some?
    requires forall m :: m in w.mutations ==> m.index < Pow2(accDepth)
    ensures PositionsApart(w.mutations, accDepth)
  {
    MutationsIncrease(w, decompress, sszDepth, accDepth);
    forall i, j | 0 <= i < j < |w.mutations|
      ensures Low(w.mutations[i].index, accDepth) != Low(w.mutations[j].index, accDepth)
    {
      assert w.mutations[i] in w.mutations && w.mutations[j] in w.mutations;
      SmallIndex(w.mutations[i].index, accDepth);
      SmallIndex(w.mutations[j].index, accDepth);
    }
  }

  // ---- the theorem -----------------------------------------------------------------------

  /** Epoch-diff soundness, the leaves: if the start commits to a leaf vector, the end is that
      vector with each named position, the index read modulo the tree's width, holding what the
      last mutation to name it wrote; and each mutation states what it overwrites. */
  lemma DiffReplacesExactly(w: EpochDiffWitness, decompress: Pubkey -> Option<Point>, sszDepth: nat, accDepth: nat,
                            leaves: seq<Digest>)
    requires EpochDiffOutputOf(w, decompress, sszDepth, accDepth).Some?
    requires Commits(Commitment(w.accRoot1, w.total1), leaves, accDepth)
    ensures
      var env := Env(decompress, w.epoch1, w.epoch2);
      ExactlyNamed(leaves, Replaced(leaves, w.mutations, env, accDepth), w.mutations, env, accDepth)
  {
    var env := Env(decompress, w.epoch1, w.epoch2);
    var start := Replay(w.accRoot1, w.total1, [], []);
    MutationsIncrease(w, decompress, sszDepth, accDepth);
    ReplacedIsExact(start, w.mutations, env, leaves, accDepth);
  }

  /** So where no position is named twice, each named leaf goes from the old value its mutation
      states to the new one. */
  lemma DiffNamesOnce(w: EpochDiffWitness, decompress: Pubkey -> Option<Point>, sszDepth: nat, accDepth: nat,
                      leaves: seq<Digest>, j: nat)
    requires EpochDiffOutputOf(w, decompress, sszDepth, accDepth).Some? && PositionsApart(w.mutations, accDepth)
    requires Commits(Commitment(w.accRoot1, w.total1), leaves, accDepth) && j < |w.mutations|
    ensures
      var env, at := Env(decompress, w.epoch1, w.epoch2), Low(w.mutations[j].index, accDepth);
      && at < |leaves| && leaves[at] == Before(w.mutations[j], env)
      && Replaced(leaves, w.mutations, env, accDepth)[at] == After(w.mutations[j], env)
  {
    DiffReplacesExactly(w, decompress, sszDepth, accDepth, leaves);
    NamedByOne(w.mutations, |w.mutations|, accDepth, j);
    NamedByOne(w.mutations, j, accDepth, j);
  }

  /** Epoch-diff soundness, the commitment: the end's root is that of the replaced leaves, and
      the end commits to them and to their total exactly when that total fits a word. */
  lemma DiffKeepsTotal(w: EpochDiffWitness, decompress: Pubkey -> Option<Point>, sszDepth: nat, accDepth: nat,
                       leaves: seq<Digest>)
    requires EpochDiffOutputOf(w, decompress, sszDepth, accDepth).Some?
    requires Commits(Commitment(w.accRoot1, w.total1), leaves, accDepth)
    ensures
      var o := EpochDiffOutputOf(w, decompress, sszDepth, accDepth).value;
      var after := Replaced(leaves, w.mutations, Env(decompress, w.epoch1, w.epoch2), accDepth);
      && o.accRoot == Root(Compress, Zero, after, accDepth)
      && (Total(after) < U64 <==> Commits(o.accumulatorCommitment, after, accDepth))
  {
    var env := Env(decompress, w.epoch1, w.epoch2);
    var start := Replay(w.accRoot1, w.total1, [], []);
    ReplayTracks(start, w.mutations, env, leaves, accDepth);
    TotalFits(start, w.mutations, env, leaves, accDepth);
  }

  // ---- the states --------------------------------------------------------------------------

  /** A state whose field 11 is the list over `records`, of the given length. */
  ghost predicate StateHolds(stateRoot: Bytes32, fields: seq<Bytes32>, records: seq<Bytes32>, length: nat,
                             sszDepth: nat, stateDepth: nat)
  {
    && stateRoot == Root(Sha256Pair, ZERO_CHUNK, fields, stateDepth)
    && VALIDATORS_FIELD < |fields| && VALIDATORS_FIELD < Pow2(stateDepth)
    && fields[VALIDATORS_FIELD] == ListRoot(Root(Sha256Pair, ZERO_CHUNK, records, sszDepth), length)
  }

  /** What opens in a state is the state's own record, position by position. */
  lemma OpenedRecords(leaves: seq<Opened<Bytes32>>, aux: seq<Bytes32>, sszDepth: nat, length: nat, path: seq<Bytes32>,
                      stateRoot: Bytes32, fields: seq<Bytes32>, records: seq<Bytes32>, listLength: nat)
    requires OpensInState(leaves, aux, sszDepth, length, path, stateRoot)
    requires StateHolds(stateRoot, fields, records, listLength, sszDepth, |path|)
    ensures length == listLength
    ensures forall j: nat :: j < |leaves| ==>
      leaves[j].leaf == Node(Sha256Pair, ZERO_CHUNK, records, 0, Low(leaves[j].index, sszDepth))
  {
    var dataRoot := RootOfLeaves(Sha256Pair, leaves, aux, sszDepth).value;
    PathOpens(Sha256Pair, ZERO_CHUNK, fields, 0, ListRoot(dataRoot, length), VALIDATORS_FIELD, path);
    SmallIndex(VALIDATORS_FIELD, |path|);
    BatchSound(Sha256Pair, ZERO_CHUNK, records, leaves, aux, sszDepth);
  }

  /** Each named validator is in the first state with its old record, or absent if new, and in
      the second with its new one. */
  lemma MutationsAreInStates(w: EpochDiffWitness, decompress: Pubkey -> Option<Point>, sszDepth: nat, accDepth: nat,
                             fields1: seq<Bytes32>, records1: seq<Bytes32>, length1: nat,
                             fields2: seq<Bytes32>, records2: seq<Bytes32>, length2: nat, j: nat)
    requires EpochDiffOutputOf(w, decompress, sszDepth, accDepth).Some? && j < |w.mutations|
    requires StateHolds(w.stateRoot1, fields1, records1, length1, sszDepth, |w.statePath1|)
    requires StateHolds(w.stateRoot2, fields2, records2, length2, sszDepth, |w.statePath2|)
    ensures
      var m := w.mutations[j];
      && |m.oldFields| == |m.newFields| == FIELDS
      && Node(Sha256Pair, ZERO_CHUNK, records1, 0, Low(m.index, sszDepth)) == OldRecord(m)
      && Node(Sha256Pair, ZERO_CHUNK, records2, 0, Low(m.index, sszDepth)) == ValidatorRoot(m.newFields)
      && RecordsMatch(m)
  {
    var env := Env(decompress, w.epoch1, w.epoch2);
    var start := Replay(w.accRoot1, w.total1, [], []);
    var s := MutateAll(start, w.mutations, env).value;
    OpenedRecords(s.oldLeaves, w.sszAux1, sszDepth, w.length1, w.statePath1, w.stateRoot1, fields1, records1, length1);
    OpenedRecords(s.newLeaves, w.sszAux2, sszDepth, w.length2, w.statePath2, w.stateRoot2, fields2, records2, length2);
    LeavesAreRecords(start, w.mutations, env, j);
    AllRecordsMatch(start, w.mutations, env, j);
  }

  lemma {:induction false} AllRecordsMatch(start: Replay, mutations: seq<Mutation>, env: Env, j: nat)
    requires forall m :: m in mutations ==> |m.oldFields| == |m.newFields| == FIELDS
    requires MutateAll(start, mutations, env).Some? && j < |mutations|
    ensures RecordsMatch(mutations[j]) && env.decompress(mutations[j].newData.pubkey).Some?
    decreases |mutations|
  {
    if j < |mutations| - 1 {
      AllRecordsMatch(start, mutations[..|mutations| - 1], env, j);
    }
  }

  /** The key a diff leaves at each position it names is the position's own. */
  ghost predicate KeysInPlace(leaves: seq<Digest>, mutations: seq<Mutation>, env: Env, depth: nat)
  {
    forall at: nat :: at < |leaves| && LastNaming(mutations, |mutations|, depth, at).Some? ==>
      PointOf(mutations[LastNaming(mutations, |mutations|, depth, at).value], env) == Unit(at)
  }

  /** A registry stays one across a diff exactly when the keys it leaves are the positions' own. */
  lemma RegistrySurvives(leaves: seq<Digest>, mutations: seq<Mutation>, env: Env, depth: nat)
    requires |leaves| == Pow2(depth) && Registry(leaves)
    ensures Registry(Replaced(leaves, mutations, env, depth)) <==> KeysInPlace(leaves, mutations, env, depth)
  {
    var after := Replaced(leaves, mutations, env, depth);
    assert mutations[..|mutations|] == mutations;
    forall at: nat | at < |leaves| ensures after[at] == HeldAfter(leaves, mutations, env, |mutations|, depth, at) {
      ReplacedHolds(leaves, mutations, env, |mutations|, depth, at);
    }
  }
}
