/** The SSZ containers the circuits hash by hand, against merkleization of their field lists. */
module Containers {
  import opened Wrappers
  import opened FormalSums
  import opened Ssz
  import opened Bls
  import opened Merkle
  import opened SlotProof
  import opened Folds
  import opened SlotSound
  import opened Boundary
  import opened EpochDiff

  /** `hash_tree_root` of a container: its field roots, padded to a power of two. */
  function ContainerRoot(fields: seq<Bytes32>, depth: nat): Bytes32
  {
    Root(Sha256Pair, ZERO_CHUNK, fields, depth)
  }

  function FieldOrZero(fields: seq<Bytes32>, i: nat): Bytes32
  {
    if i < |fields| then fields[i] else ZERO_CHUNK
  }

  lemma TwoFields(fields: seq<Bytes32>, i: nat)
    ensures Node(Sha256Pair, ZERO_CHUNK, fields, 1, i)
         == Sha256Pair(FieldOrZero(fields, 2 * i), FieldOrZero(fields, 2 * i + 1))
  {
    assert Node(Sha256Pair, ZERO_CHUNK, fields, 0, 2 * i) == FieldOrZero(fields, 2 * i);
    assert Node(Sha256Pair, ZERO_CHUNK, fields, 0, 2 * i + 1) == FieldOrZero(fields, 2 * i + 1);
  }

  lemma EightFields(fields: seq<Bytes32>)
    ensures ContainerRoot(fields, 3)
         == Sha256Pair(
              Sha256Pair(Sha256Pair(FieldOrZero(fields, 0), FieldOrZero(fields, 1)),
                         Sha256Pair(FieldOrZero(fields, 2), FieldOrZero(fields, 3))),
              Sha256Pair(Sha256Pair(FieldOrZero(fields, 4), FieldOrZero(fields, 5)),
                         Sha256Pair(FieldOrZero(fields, 6), FieldOrZero(fields, 7))))
  {
    TwoFields(fields, 0);
    TwoFields(fields, 1);
    TwoFields(fields, 2);
    TwoFields(fields, 3);
    assert Node(Sha256Pair, ZERO_CHUNK, fields, 2, 0)
        == Sha256Pair(Node(Sha256Pair, ZERO_CHUNK, fields, 1, 0), Node(Sha256Pair, ZERO_CHUNK, fields, 1, 1));
    assert Node(Sha256Pair, ZERO_CHUNK, fields, 2, 1)
        == Sha256Pair(Node(Sha256Pair, ZERO_CHUNK, fields, 1, 2), Node(Sha256Pair, ZERO_CHUNK, fields, 1, 3));
    assert ContainerRoot(fields, 3)
        == Sha256Pair(Node(Sha256Pair, ZERO_CHUNK, fields, 2, 0), Node(Sha256Pair, ZERO_CHUNK, fields, 2, 1));
  }

  // ---- the containers an attestation is signed over -------------------------------------------

  /** `Checkpoint`: epoch, root. */
  function CheckpointRoot(c: Checkpoint): Bytes32
  {
    ContainerRoot([Chunk(c.epoch), c.root], 1)
  }

  lemma CheckpointIsContainer(c: Checkpoint)
    ensures CheckpointLeaf(c) == CheckpointRoot(c)
  {
    TwoFields([Chunk(c.epoch), c.root], 0);
  }

  /** The published link: source checkpoint first, target second. */
  lemma LinkIsContainer(link: Link)
    ensures CheckpointDigest(link) == ContainerRoot([CheckpointRoot(link.source), CheckpointRoot(link.target)], 1)
  {
    CheckpointIsContainer(link.source);
    CheckpointIsContainer(link.target);
    TwoFields([CheckpointRoot(link.source), CheckpointRoot(link.target)], 0);
  }

  /** `AttestationData`: slot, index, beacon block root, source, target. */
  function AttestationFields(d: AttestationData): seq<Bytes32>
  {
    [Chunk(d.slot), Chunk(d.index), d.block, CheckpointRoot(d.link.source), CheckpointRoot(d.link.target)]
  }

  lemma AttestationIsContainer(d: AttestationData)
    ensures AttestationDataRoot(d) == ContainerRoot(AttestationFields(d), 3)
  {
    CheckpointIsContainer(d.link.source);
    CheckpointIsContainer(d.link.target);
    EightFields(AttestationFields(d));
  }

  /** `SigningData`: object root, domain. */
  lemma SigningIsContainer(dataRoot: Bytes32, domain: Bytes32)
    ensures SigningRoot(dataRoot, domain) == ContainerRoot([dataRoot, domain], 1)
  {
    TwoFields([dataRoot, domain], 0);
  }

  /** What a validator signs for an attestation under a domain. */
  function SignedRoot(d: AttestationData, domain: Bytes32): Bytes32
  {
    ContainerRoot([ContainerRoot(AttestationFields(d), 3), domain], 1)
  }

  lemma SignedRootIs(d: AttestationData, domain: Bytes32)
    ensures SigningRoot(AttestationDataRoot(d), domain) == SignedRoot(d, domain)
  {
    AttestationIsContainer(d);
    SigningIsContainer(AttestationDataRoot(d), domain);
  }

  // ---- blocks, records, lists --------------------------------------------------------------------

  /** `BeaconBlockHeader`: slot, proposer index, parent root, state root, body root. */
  lemma HeaderIsContainer(h: BlockHeader)
    ensures BlockHeaderRoot(h)
         == ContainerRoot([Chunk(h.slot), Chunk(h.proposer), h.parentRoot, h.stateRoot, h.bodyRoot], 3)
  {
    EightFields([Chunk(h.slot), Chunk(h.proposer), h.parentRoot, h.stateRoot, h.bodyRoot]);
  }

  /** `Validator`: eight field roots. */
  lemma ValidatorIsContainer(fields: seq<Bytes32>)
    requires |fields| == FIELDS
    ensures ValidatorRoot(fields) == ContainerRoot(fields, 3)
  {
    EightFields(fields);
  }

  /** A list root: the root of its data, with its length mixed in. */
  lemma ListIsContainer(dataRoot: Bytes32, length: nat)
    ensures ListRoot(dataRoot, length) == ContainerRoot([dataRoot, Chunk(length)], 1)
  {
    TwoFields([dataRoot, Chunk(length)], 0);
  }

  /** The first fields of `BeaconState`, in the specification's order. */
  datatype StateField =
    | GenesisTime | GenesisValidatorsRoot | StateSlot | Fork | LatestBlockHeader | BlockRoots | StateRoots
    | HistoricalRoots | Eth1Data | Eth1DataVotes | Eth1DepositIndex | Validators

  const STATE_FIELDS: seq<StateField> := [
    GenesisTime, GenesisValidatorsRoot, StateSlot, Fork, LatestBlockHeader, BlockRoots, StateRoots,
    HistoricalRoots, Eth1Data, Eth1DataVotes, Eth1DepositIndex, Validators]

  /** The circuits open the state at the fields they mean, and the joined index of a history entry
      has as many digits as the entry's path has siblings. */
  lemma StateFieldsInPlace()
    ensures STATE_FIELDS[BLOCK_ROOTS_FIELD] == BlockRoots && STATE_FIELDS[STATE_ROOTS_FIELD] == StateRoots
    ensures STATE_FIELDS[VALIDATORS_FIELD] == Validators
  {
  }
}
