/** The epoch diff against the records of the two states: the leaf it commits for a validator is
    read off the validator's own container, and every honest list of changes has a witness. */
module DiffRecords {
  import opened Wrappers
  import opened FormalSums
  import opened Ssz
  import opened Bls
  import opened Merkle
  import opened MultiProof
  import opened ProofBuilding
  import opened Accumulator
  import opened Folds
  import opened EpochDiff
  import opened EpochDiffSound
  import opened Containers
  import opened Boundary

  // ---- one record ----------------------------------------------------------------------------------

  /** A validator container whose key decompresses and whose numbers are numbers. */
  predicate Readable(record: seq<Bytes32>, decompress: Pubkey -> Option<Point>)
  {
    && |record| == 8 && record[0].Pair? && decompress(Pubkey(record[0].left, record[0].right)).Some?
    && record[2].Chunk? && record[5].Chunk? && record[6].Chunk?
  }

  /** The accumulator's leaf for a record: its key, with its effective balance (field 2) in the
      epochs from its activation (field 5) to before its exit (field 6), and with zero outside. */
  function RecordLeaf(record: seq<Bytes32>, epoch: nat, decompress: Pubkey -> Option<Point>): Digest
    requires Readable(record, decompress)
  {
    Leaf(decompress(Pubkey(record[0].left, record[0].right)).value,
         if record[5].value <= epoch < record[6].value then record[2].value else 0)
  }

  lemma SameRecord(a: seq<Bytes32>, b: seq<Bytes32>)
    requires |a| == |b| == FIELDS && ValidatorRoot(a) == ContainerRoot(b, 3)
    ensures a == b
  {
    ValidatorIsContainer(b);
    assert forall i :: 0 <= i < 8 ==> a[i] == b[i];
  }

  lemma ContainerIsNotZero(record: seq<Bytes32>)
    requires |record| == FIELDS
    ensures ContainerRoot(record, 3) != ZERO_CHUNK
  {
    ValidatorIsContainer(record);
  }

  lemma NewLeafRead(m: Mutation, env: Env)
    requires |m.oldFields| == |m.newFields| == FIELDS && RecordsMatch(m) && env.decompress(m.newData.pubkey).Some?
    ensures Readable(m.newFields, env.decompress) && After(m, env) == RecordLeaf(m.newFields, env.epochNew, env.decompress)
  {
  }

  lemma OldLeafRead(m: Mutation, env: Env)
    requires |m.oldFields| == |m.newFields| == FIELDS && RecordsMatch(m) && env.decompress(m.newData.pubkey).Some?
    ensures m.isNew ==> Before(m, env) == Zero
    ensures !m.isNew ==>
      Readable(m.oldFields, env.decompress) && Before(m, env) == RecordLeaf(m.oldFields, env.epochOld, env.decompress)
  {
  }

  lemma MutationDecompresses(w: EpochDiffWitness, decompress: Pubkey -> Option<Point>, sszDepth: nat, accDepth: nat, j: nat)
    requires EpochDiffOutputOf(w, decompress, sszDepth, accDepth).Some? && j < |w.mutations|
    ensures
      var m := w.mutations[j];
      |m.oldFields| == |m.newFields| == FIELDS && RecordsMatch(m) && decompress(m.newData.pubkey).Some?
  {
    AllRecordsMatch(Replay(w.accRoot1, w.total1, [], []), w.mutations, Env(decompress, w.epoch1, w.epoch2), j);
  }

  /** The leaf an accepted diff leaves at a position it names once is the one its record in the
      second state gives for the second epoch. */
  lemma NewLeafIsRecords(w: EpochDiffWitness, decompress: Pubkey -> Option<Point>, sszDepth: nat, accDepth: nat,
                         leaves: seq<Digest>, fields1: seq<Bytes32>, records1: seq<Bytes32>, length1: nat,
                         fields2: seq<Bytes32>, records2: seq<Bytes32>, length2: nat, j: nat, record: seq<Bytes32>)
    requires EpochDiffOutputOf(w, decompress, sszDepth, accDepth).Some? && j < |w.mutations|
    requires Commits(Commitment(w.accRoot1, w.total1), leaves, accDepth) && PositionsApart(w.mutations, accDepth)
    requires StateHolds(w.stateRoot1, fields1, records1, length1, sszDepth, |w.statePath1|)
    requires StateHolds(w.stateRoot2, fields2, records2, length2, sszDepth, |w.statePath2|)
    requires |record| == 8
    requires Node(Sha256Pair, ZERO_CHUNK, records2, 0, Low(w.mutations[j].index, sszDepth)) == ContainerRoot(record, 3)
    ensures
      var at := Low(w.mutations[j].index, accDepth);
      var after := Replaced(leaves, w.mutations, Env(decompress, w.epoch1, w.epoch2), accDepth);
      && at < |after| && Readable(record, decompress) && after[at] == RecordLeaf(record, w.epoch2, decompress)
  {
    hide EpochDiffOutputOf, StateHolds, Replaced, RecordsMatch, Node, Low, ContainerRoot, RecordLeaf, Readable, After;
    MutationsAreInStates(w, decompress, sszDepth, accDepth, fields1, records1, length1, fields2, records2, length2, j);
    MutationDecompresses(w, decompress, sszDepth, accDepth, j);
    DiffNamesOnce(w, decompress, sszDepth, accDepth, leaves, j);
    SameRecord(w.mutations[j].newFields, record);
    NewLeafRead(w.mutations[j], Env(decompress, w.epoch1, w.epoch2));
  }

  /** And the leaf it finds there is the one the first state gives for the first epoch: empty where
      that state has no record yet. */
  lemma OldLeafIsRecords(w: EpochDiffWitness, decompress: Pubkey -> Option<Point>, sszDepth: nat, accDepth: nat,
                         leaves: seq<Digest>, fields1: seq<Bytes32>, records1: seq<Bytes32>, length1: nat,
                         fields2: seq<Bytes32>, records2: seq<Bytes32>, length2: nat, j: nat, record: seq<Bytes32>)
    requires EpochDiffOutputOf(w, decompress, sszDepth, accDepth).Some? && j < |w.mutations|
    requires Commits(Commitment(w.accRoot1, w.total1), leaves, accDepth) && PositionsApart(w.mutations, accDepth)
    requires StateHolds(w.stateRoot1, fields1, records1, length1, sszDepth, |w.statePath1|)
    requires StateHolds(w.stateRoot2, fields2, records2, length2, sszDepth, |w.statePath2|)
    requires |record| == 8
    ensures
      var at := Low(w.mutations[j].index, accDepth);
      var held := Node(Sha256Pair, ZERO_CHUNK, records1, 0, Low(w.mutations[j].index, sszDepth));
      && at < |leaves| && (held == ZERO_CHUNK ==> leaves[at] == Zero)
      && (held == ContainerRoot(record, 3) ==>
            Readable(record, decompress) && leaves[at] == RecordLeaf(record, w.epoch1, decompress))
  {
    hide EpochDiffOutputOf, StateHolds, Replaced, RecordsMatch, Node, Low, ContainerRoot, RecordLeaf, Readable, Before;
    MutationsAreInStates(w, decompress, sszDepth, accDepth, fields1, records1, length1, fields2, records2, length2, j);
    MutationDecompresses(w, decompress, sszDepth, accDepth, j);
    DiffNamesOnce(w, decompress, sszDepth, accDepth, leaves, j);
    OldLeafRead(w.mutations[j], Env(decompress, w.epoch1, w.epoch2));
    ContainerIsNotZero(record);
    var m := w.mutations[j];
    if m.isNew {
    } else if ValidatorRoot(m.oldFields) == ContainerRoot(record, 3) {
      SameRecord(m.oldFields, record);
    }
    ValidatorIsContainer(m.oldFields);
    ContainerIsNotZero(m.oldFields);
  }

  // ---- honest changes have a witness -----------------------------------------------------------------

  /** A change of one validator: its record in the first state, unless it is new, and its record in
      the second. */
  datatype Change = Change(index: nat, isNew: bool, was: seq<Bytes32>, becomes: seq<Bytes32>)

  /** A record whose numbers fit words. */
  predicate Wordy(record: seq<Bytes32>, decompress: Pubkey -> Option<Point>)
  {
    Readable(record, decompress) && record[2].value < U64 && record[5].value < U64 && record[6].value < U64
  }

  /** Readable records, of one key. */
  predicate ChangeOk(c: Change, decompress: Pubkey -> Option<Point>)
  {
    && Wordy(c.becomes, decompress)
    && (!c.isNew ==> Wordy(c.was, decompress) && c.was[0] == c.becomes[0])
  }

  function DataOf(record: seq<Bytes32>, decompress: Pubkey -> Option<Point>): ValidatorData
    requires Wordy(record, decompress)
  {
    ValidatorData(Pubkey(record[0].left, record[0].right), record[2].value, record[5].value, record[6].value)
  }

  function MutationOf(c: Change, siblings: seq<Digest>, decompress: Pubkey -> Option<Point>): Mutation
    requires ChangeOk(c, decompress)
  {
    var was := if c.isNew then c.becomes else c.was;
    Mutation(c.index, c.isNew, DataOf(was, decompress), DataOf(c.becomes, decompress), was, c.becomes,
             DataOf(was, decompress).pubkey, DataOf(c.becomes, decompress).pubkey, siblings)
  }

  /** What a change finds in the accumulator. */
  function FoundLeaf(c: Change, epoch: nat, decompress: Pubkey -> Option<Point>): Digest
    requires ChangeOk(c, decompress)
  {
    if c.isNew then Zero else RecordLeaf(c.was, epoch, decompress)
  }

  /** What a change leaves there. */
  function LeftLeaf(c: Change, epoch: nat, decompress: Pubkey -> Option<Point>): Digest
    requires ChangeOk(c, decompress)
  {
    RecordLeaf(c.becomes, epoch, decompress)
  }

  lemma MutationOfRead(c: Change, siblings: seq<Digest>, env: Env)
    requires ChangeOk(c, env.decompress)
    ensures
      var m := MutationOf(c, siblings, env.decompress);
      && |m.oldFields| == |m.newFields| == FIELDS && RecordsMatch(m) && env.decompress(m.newData.pubkey).Some?
      && Before(m, env) == FoundLeaf(c, env.epochOld, env.decompress)
      && After(m, env) == LeftLeaf(c, env.epochNew, env.decompress)
      && OldRecord(m) == (if c.isNew then ZERO_CHUNK else ContainerRoot(c.was, 3))
      && ValidatorRoot(m.newFields) == ContainerRoot(c.becomes, 3)
  {
    var m := MutationOf(c, siblings, env.decompress);
    NewLeafRead(m, env);
    OldLeafRead(m, env);
    ValidatorIsContainer(m.oldFields);
    ValidatorIsContainer(m.newFields);
  }

  ghost predicate AllOk(changes: seq<Change>, leaves: seq<Digest>, env: Env, depth: nat)
  {
    && |leaves| == Pow2(depth)
    && (forall c :: c in changes ==>
          ChangeOk(c, env.decompress) && c.index < |leaves| && leaves[c.index] == FoundLeaf(c, env.epochOld, env.decompress))
    && (forall i, j :: 0 <= i < j < |changes| ==> changes[i].index < changes[j].index)
  }

  /** The leaves once the changes are made. */
  function Changed(leaves: seq<Digest>, changes: seq<Change>, env: Env): (after: seq<Digest>)
    requires forall c :: c in changes ==> ChangeOk(c, env.decompress) && c.index < |leaves|
    ensures |after| == |leaves|
    decreases |changes|
  {
    if changes == [] then leaves
    else
      var last := changes[|changes| - 1];
      assert last in changes;
      Changed(leaves, changes[..|changes| - 1], env)[last.index := LeftLeaf(last, env.epochNew, env.decompress)]
  }

  /** Each changed leaf is its new record's; no other moves. */
  lemma {:induction false} ChangedLeaf(leaves: seq<Digest>, changes: seq<Change>, env: Env, depth: nat, at: nat)
    requires AllOk(changes, leaves, env, depth) && at < |leaves|
    ensures (forall c :: c in changes ==> c.index != at) ==> Changed(leaves, changes, env)[at] == leaves[at]
    ensures forall c :: c in changes && c.index == at ==>
      Changed(leaves, changes, env)[at] == LeftLeaf(c, env.epochNew, env.decompress)
    decreases |changes|
  {
    hide LeftLeaf, ChangeOk, FoundLeaf;
    if changes != [] {
      var n := |changes| - 1;
      OkFront(changes, leaves, env, depth, n);
      ChangedLeaf(leaves, changes[..n], env, depth, at);
      PrefixGrows(changes, n);
      forall c | c in changes && c.index == at
        ensures Changed(leaves, changes, env)[at] == LeftLeaf(c, env.epochNew, env.decompress)
      {
        if c in changes[..n] {
          var i: nat :| i < n && changes[i] == c;
          assert changes[i].index < changes[n].index;
        }
      }
    }
  }

  lemma OkFront(changes: seq<Change>, leaves: seq<Digest>, env: Env, depth: nat, n: nat)
    requires AllOk(changes, leaves, env, depth) && n <= |changes|
    ensures AllOk(changes[..n], leaves, env, depth)
  {
  }

  /** The mutations of a list of changes, each with the path of its turn. */
  function Built(leaves: seq<Digest>, changes: seq<Change>, env: Env, depth: nat): (ms: seq<Mutation>)
    requires forall c :: c in changes ==> ChangeOk(c, env.decompress) && c.index < |leaves|
    ensures |ms| == |changes|
    decreases |changes|
  {
    if changes == [] then []
    else
      var n := |changes| - 1;
      Built(leaves, changes[..n], env, depth)
      + [MutationOf(changes[n], PathOf(Compress, Zero, Changed(leaves, changes[..n], env), 0, depth, changes[n].index),
                    env.decompress)]
  }

  /** The records the changes open, in a state. */
  function OpenedOld(changes: seq<Change>): (items: seq<Opened<Bytes32>>)
    ensures |items| == |changes|
  {
    seq(|changes|, (i: nat) requires i < |changes| =>
      Opened(if changes[i].isNew then ZERO_CHUNK else ContainerRoot(changes[i].was, 3), changes[i].index))
  }

  function OpenedNew(changes: seq<Change>): (items: seq<Opened<Bytes32>>)
    ensures |items| == |changes|
  {
    seq(|changes|, (i: nat) requires i < |changes| => Opened(ContainerRoot(changes[i].becomes, 3), changes[i].index))
  }

  lemma OpenedGrow(changes: seq<Change>)
    requires changes != []
    ensures
      var n := |changes| - 1;
      && OpenedOld(changes) == OpenedOld(changes[..n])
           + [Opened(if changes[n].isNew then ZERO_CHUNK else ContainerRoot(changes[n].was, 3), changes[n].index)]
      && OpenedNew(changes) == OpenedNew(changes[..n]) + [Opened(ContainerRoot(changes[n].becomes, 3), changes[n].index)]
  {
    hide ContainerRoot;
  }

  /** One more change goes through. */
  lemma OneChange(s: Replay, before: seq<Digest>, c: Change, env: Env, depth: nat)
    requires ChangeOk(c, env.decompress) && c.index < |before| == Pow2(depth)
    requires before[c.index] == FoundLeaf(c, env.epochOld, env.decompress)
    requires s.accRoot == Root(Compress, Zero, before, depth)
    ensures
      var m := MutationOf(c, PathOf(Compress, Zero, before, 0, depth, c.index), env.decompress);
      && |m.oldFields| == |m.newFields| == FIELDS && |m.siblings| == depth && Mutate(s, m, env).Some?
      && var r := Mutate(s, m, env).value;
         && r.accRoot == Root(Compress, Zero, before[c.index := LeftLeaf(c, env.epochNew, env.decompress)], depth)
         && r.oldLeaves == s.oldLeaves + [Opened(if c.isNew then ZERO_CHUNK else ContainerRoot(c.was, 3), c.index)]
         && r.newLeaves == s.newLeaves + [Opened(ContainerRoot(c.becomes, 3), c.index)]
  {
    hide LeftLeaf, FoundLeaf, ContainerRoot, ValidatorRoot, RecordsMatch, PathOf, PathRoot, Root;
    var siblings := PathOf(Compress, Zero, before, 0, depth, c.index);
    var m := MutationOf(c, siblings, env.decompress);
    MutationOfRead(c, siblings, env);
    SmallIndex(c.index, depth);
    OwnPathReaches(Compress, Zero, before, depth, c.index);
    LeafIsNode(before, c.index);
    MutateReplaces(s, m, env, before, depth);
  }

  lemma LeafIsNode(leaves: seq<Digest>, i: nat)
    requires i < |leaves|
    ensures Node(Compress, Zero, leaves, 0, i) == leaves[i]
  {
  }

  lemma {:induction false} BuiltReplays(leaves: seq<Digest>, changes: seq<Change>, env: Env, depth: nat, total: nat)
    requires AllOk(changes, leaves, env, depth)
    ensures Shaped(Built(leaves, changes, env, depth), depth)
    ensures
      var r := MutateAll(Replay(Root(Compress, Zero, leaves, depth), total, [], []), Built(leaves, changes, env, depth), env);
      && r.Some? && r.value.accRoot == Root(Compress, Zero, Changed(leaves, changes, env), depth)
      && r.value.oldLeaves == OpenedOld(changes) && r.value.newLeaves == OpenedNew(changes)
    decreases |changes|
  {
    hide LeftLeaf, FoundLeaf, ContainerRoot, Mutate, MutationOf, Root, ChangeOk, PathOf;
    if changes != [] {
      var n := |changes| - 1;
      var ms := Built(leaves, changes, env, depth);
      OkFront(changes, leaves, env, depth, n);
      BuiltReplays(leaves, changes[..n], env, depth, total);
      assert ms[..n] == Built(leaves, changes[..n], env, depth);
      NotYetChanged(leaves, changes, env, depth);
      assert changes[n] in changes;
      OneChange(MutateAll(Replay(Root(Compress, Zero, leaves, depth), total, [], []), ms[..n], env).value,
                Changed(leaves, changes[..n], env), changes[n], env, depth);
      OpenedGrow(changes);
      PrefixGrows(ms, n);
    }
  }

  lemma NotYetChanged(leaves: seq<Digest>, changes: seq<Change>, env: Env, depth: nat)
    requires AllOk(changes, leaves, env, depth) && changes != []
    ensures
      var n := |changes| - 1;
      Changed(leaves, changes[..n], env)[changes[n].index] == FoundLeaf(changes[n], env.epochOld, env.decompress)
  {
    hide LeftLeaf, FoundLeaf, ChangeOk, Changed;
    var n := |changes| - 1;
    assert changes[n] in changes;
    OkFront(changes, leaves, env, depth, n);
    ChangedLeaf(leaves, changes[..n], env, depth, changes[n].index);
    forall c | c in changes[..n] ensures c.index != changes[n].index {
      var i: nat :| i < n && changes[i] == c;
      assert changes[i].index < changes[n].index;
    }
  }

  lemma {:induction false} BuiltReplaces(leaves: seq<Digest>, changes: seq<Change>, env: Env, depth: nat)
    requires AllOk(changes, leaves, env, depth)
    ensures Replaced(leaves, Built(leaves, changes, env, depth), env, depth) == Changed(leaves, changes, env)
    decreases |changes|
  {
    hide LeftLeaf, FoundLeaf, MutationOf, ChangeOk, PathOf, After;
    if changes != [] {
      var n := |changes| - 1;
      var ms := Built(leaves, changes, env, depth);
      OkFront(changes, leaves, env, depth, n);
      BuiltReplaces(leaves, changes[..n], env, depth);
      assert ms[..n] == Built(leaves, changes[..n], env, depth) && changes[n] in changes;
      SmallIndex(changes[n].index, depth);
      MutationOfRead(changes[n], PathOf(Compress, Zero, Changed(leaves, changes[..n], env), 0, depth, changes[n].index), env);
      IndexOfMutation(changes[n], PathOf(Compress, Zero, Changed(leaves, changes[..n], env), 0, depth, changes[n].index), env);
    }
  }

  lemma IndexOfMutation(c: Change, siblings: seq<Digest>, env: Env)
    requires ChangeOk(c, env.decompress)
    ensures MutationOf(c, siblings, env.decompress).index == c.index
  {
  }

  // ---- the states open ---------------------------------------------------------------------------------

  /** A list in a state opens the records it holds at increasing indices. */
  lemma RecordsOpen(items: seq<Opened<Bytes32>>, sszDepth: nat, stateRoot: Bytes32, fields: seq<Bytes32>,
                    records: seq<Bytes32>, length: nat, stateDepth: nat)
    returns (aux: seq<Bytes32>, path: seq<Bytes32>)
    requires items != [] && Increasing(Indices(items)) && StateHolds(stateRoot, fields, records, length, sszDepth, stateDepth)
    requires forall x :: x in items ==> x.index < Pow2(sszDepth) && x.leaf == Node(Sha256Pair, ZERO_CHUNK, records, 0, x.index)
    ensures |path| == stateDepth && OpensInState(items, aux, sszDepth, length, path, stateRoot)
  {
    hide RootOfLeaves, ProofAux, Root, Node, PathOf, PathRoot, Pow2;
    var idx := Indices(items);
    forall i | i in idx ensures i < Pow2(sszDepth) {
      var k: nat :| k < |items| && idx[k] == i;
      assert items[k] in items;
    }
    forall k | 0 <= k < |items| ensures items[k].leaf == Node(Sha256Pair, ZERO_CHUNK, records, 0, idx[k]) {
      assert items[k] in items;
    }
    assert OpenedAt(Sha256Pair, ZERO_CHUNK, records, idx) == items;
    BatchComplete(Sha256Pair, ZERO_CHUNK, records, sszDepth, idx);
    aux := ProofAux(Sha256Pair, ZERO_CHUNK, records, 0, sszDepth, idx);
    path := PathOf(Sha256Pair, ZERO_CHUNK, fields, 0, stateDepth, VALIDATORS_FIELD);
    SmallIndex(VALIDATORS_FIELD, stateDepth);
    OwnPathReaches(Sha256Pair, ZERO_CHUNK, fields, stateDepth, VALIDATORS_FIELD);
    FieldIsNode(fields, VALIDATORS_FIELD);
  }

  lemma FieldIsNode(fields: seq<Bytes32>, i: nat)
    requires i < |fields|
    ensures Node(Sha256Pair, ZERO_CHUNK, fields, 0, i) == fields[i]
  {
  }

  /** The two states of a list of changes: each holds, at each index, the record of its side. */
  ghost predicate RecordsHeld(changes: seq<Change>, records1: seq<Bytes32>, records2: seq<Bytes32>, sszDepth: nat)
  {
    forall c :: c in changes ==>
      && c.index < Pow2(sszDepth)
      && Node(Sha256Pair, ZERO_CHUNK, records1, 0, c.index) == (if c.isNew then ZERO_CHUNK else ContainerRoot(c.was, 3))
      && Node(Sha256Pair, ZERO_CHUNK, records2, 0, c.index) == ContainerRoot(c.becomes, 3)
  }

  lemma OpenedHeld(changes: seq<Change>, records1: seq<Bytes32>, records2: seq<Bytes32>, sszDepth: nat)
    requires RecordsHeld(changes, records1, records2, sszDepth)
    requires forall i, j :: 0 <= i < j < |changes| ==> changes[i].index < changes[j].index
    ensures Increasing(Indices(OpenedOld(changes))) && Increasing(Indices(OpenedNew(changes)))
    ensures forall x :: x in OpenedOld(changes) ==>
      x.index < Pow2(sszDepth) && x.leaf == Node(Sha256Pair, ZERO_CHUNK, records1, 0, x.index)
    ensures forall x :: x in OpenedNew(changes) ==>
      x.index < Pow2(sszDepth) && x.leaf == Node(Sha256Pair, ZERO_CHUNK, records2, 0, x.index)
  {
    hide ContainerRoot, Node, Pow2;
    assert forall i :: 0 <= i < |changes| ==> changes[i] in changes;
  }

  /** The two states and epochs a diff leads between. */
  datatype Between = Between(stateRoot1: Bytes32, stateRoot2: Bytes32, epoch1: nat, epoch2: nat, length1: nat, length2: nat)

  function HonestWitness(b: Between, leaves: seq<Digest>, changes: seq<Change>, env: Env, depth: nat,
                         path1: seq<Bytes32>, path2: seq<Bytes32>, aux1: seq<Bytes32>, aux2: seq<Bytes32>): EpochDiffWitness
    requires AllOk(changes, leaves, env, depth) && Total(leaves) < U64
  {
    EpochDiffWitness(b.stateRoot1, b.stateRoot2, Root(Compress, Zero, leaves, depth), Total(leaves), b.epoch1, b.epoch2,
                     path1, path2, b.length1, b.length2, Built(leaves, changes, env, depth), aux1, aux2)
  }

  /** Epoch-diff completeness. Any list of changes of distinct validators, read off records the two
      states hold, over a committed registry that holds the old leaves, has a witness the diff
      circuit accepts; and what it publishes commits to the changed leaves, if their total fits. */
  lemma HonestDiffIsAccepted(b: Between, leaves: seq<Digest>, changes: seq<Change>, decompress: Pubkey -> Option<Point>,
                             sszDepth: nat, accDepth: nat, stateDepth: nat,
                             fields1: seq<Bytes32>, records1: seq<Bytes32>, fields2: seq<Bytes32>, records2: seq<Bytes32>)
    returns (w: EpochDiffWitness)
    requires Total(leaves) < U64 && changes != []
    requires AllOk(changes, leaves, Env(decompress, b.epoch1, b.epoch2), accDepth)
    requires RecordsHeld(changes, records1, records2, sszDepth)
    requires StateHolds(b.stateRoot1, fields1, records1, b.length1, sszDepth, stateDepth)
    requires StateHolds(b.stateRoot2, fields2, records2, b.length2, sszDepth, stateDepth)
    ensures EpochDiffOutputOf(w, decompress, sszDepth, accDepth).Some?
    ensures
      var o := EpochDiffOutputOf(w, decompress, sszDepth, accDepth).value;
      var after := Changed(leaves, changes, Env(decompress, b.epoch1, b.epoch2));
      && Commits(o.prevAccumulatorCommitment, leaves, accDepth)
      && o.stateRoot1 == b.stateRoot1 && o.stateRoot2 == b.stateRoot2 && o.epoch1 == b.epoch1 && o.epoch2 == b.epoch2
      && o.accRoot == Root(Compress, Zero, after, accDepth)
      && (Total(after) < U64 ==> Commits(o.accumulatorCommitment, after, accDepth))
  {
    hide ChangeOk, OpensInState, StateHolds, RecordsHeld, Built, Changed, MutateAll, Shaped, Root, Total, Commits;
    var env := Env(decompress, b.epoch1, b.epoch2);
    OpenedHeld(changes, records1, records2, sszDepth);
    BuiltReplays(leaves, changes, env, accDepth, Total(leaves));
    BuiltReplaces(leaves, changes, env, accDepth);
    var aux1, path1 := RecordsOpen(OpenedOld(changes), sszDepth, b.stateRoot1, fields1, records1, b.length1, stateDepth);
    var aux2, path2 := RecordsOpen(OpenedNew(changes), sszDepth, b.stateRoot2, fields2, records2, b.length2, stateDepth);
    w := HonestWitness(b, leaves, changes, env, accDepth, path1, path2, aux1, aux2);
    CommitsOwn(leaves, accDepth);
    DiffKeepsTotal(w, decompress, sszDepth, accDepth, leaves);
  }

  lemma CommitsOwn(leaves: seq<Digest>, depth: nat)
    requires |leaves| == Pow2(depth) && Total(leaves) < U64
    ensures Commits(Commitment(Root(Compress, Zero, leaves, depth), Total(leaves)), leaves, depth)
  {
  }
}
