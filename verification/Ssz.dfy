/** SSZ hashing with SHA-256 idealised: a digest remembers what was hashed. */
module Ssz {
  /** Thirty-two bytes: a padded integer, a hash of two such values, or any other string. */
  datatype Bytes32 = Chunk(value: nat) | Pair(left: Bytes32, right: Bytes32) | Opaque(name: nat)

  const ZERO_CHUNK := Chunk(0)

  function Sha256Pair(left: Bytes32, right: Bytes32): Bytes32
  {
    Pair(left, right)
  }

  datatype Checkpoint = Checkpoint(epoch: nat, root: Bytes32)

  /** An FFG link, from its source checkpoint to its target. */
  datatype Link = Link(source: Checkpoint, target: Checkpoint)

  function CheckpointLeaf(c: Checkpoint): Bytes32
  {
    Sha256Pair(Chunk(c.epoch), c.root)
  }

  function CheckpointDigest(link: Link): Bytes32
  {
    Sha256Pair(CheckpointLeaf(link.source), CheckpointLeaf(link.target))
  }

  datatype AttestationData = AttestationData(slot: nat, index: nat, block: Bytes32, link: Link)

  function AttestationDataRoot(d: AttestationData): Bytes32
  {
    var n0 := Sha256Pair(Chunk(d.slot), Chunk(d.index));
    var n1 := Sha256Pair(d.block, CheckpointLeaf(d.link.source));
    var n2 := Sha256Pair(CheckpointLeaf(d.link.target), ZERO_CHUNK);
    var n3 := Sha256Pair(ZERO_CHUNK, ZERO_CHUNK);
    Sha256Pair(Sha256Pair(n0, n1), Sha256Pair(n2, n3))
  }

  function SigningRoot(dataRoot: Bytes32, domain: Bytes32): Bytes32
  {
    Sha256Pair(dataRoot, domain)
  }

  /** A signing root that names `link`: some attestation of that link under some domain. */
  ghost predicate Names(message: Bytes32, link: Link)
  {
    exists d: AttestationData, domain: Bytes32 ::
      d.link == link && message == SigningRoot(AttestationDataRoot(d), domain)
  }

  /** A message names at most one link. */
  lemma NamesOne(message: Bytes32, a: Link, b: Link)
    requires Names(message, a) && Names(message, b)
    ensures a == b
  {
    var d: AttestationData, domain: Bytes32 :| d.link == a && message == SigningRoot(AttestationDataRoot(d), domain);
    var e: AttestationData, other: Bytes32 :| e.link == b && message == SigningRoot(AttestationDataRoot(e), other);
    assert AttestationDataRoot(d) == AttestationDataRoot(e);
  }
}
