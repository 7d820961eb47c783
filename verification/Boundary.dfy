/** Opening the finalized epoch's boundary out of the justified checkpoint's state. */
module Boundary {
  import opened DivMod
  import opened Wrappers
  import opened Ssz
  import opened Merkle
  import opened Accumulator

  datatype BlockHeader = BlockHeader(slot: nat, proposer: nat, parentRoot: Bytes32, stateRoot: Bytes32, bodyRoot: Bytes32)

  datatype BoundaryAnchor = BoundaryAnchor(
    header: BlockHeader, blockRootsPath: seq<Bytes32>, stateRootsPath: seq<Bytes32>)

  const SLOTS_PER_HISTORICAL_ROOT: nat := 8192
  const BLOCK_ROOTS_FIELD: nat := 5
  const STATE_ROOTS_FIELD: nat := 6
  const HISTORY_PROOF_DEPTH: nat := 19

  /** `block_header_root` */
  function BlockHeaderRoot(h: BlockHeader): Bytes32
  {
    var n0 := Sha256Pair(Chunk(h.slot), Chunk(h.proposer));
    var n1 := Sha256Pair(h.parentRoot, h.stateRoot);
    var n2 := Sha256Pair(h.bodyRoot, ZERO_CHUNK);
    var n3 := Sha256Pair(ZERO_CHUNK, ZERO_CHUNK);
    Sha256Pair(Sha256Pair(n0, n1), Sha256Pair(n2, n3))
  }

  /** `state_root_from_history`; `None` where it panics. */
  function StateRootFromHistory(field: nat, slot: nat, entry: Bytes32, siblings: seq<Bytes32>): Option<Bytes32>
  {
    if |siblings| != HISTORY_PROOF_DEPTH then None
    else
      Some(PathRoot(Sha256Pair, entry, field * SLOTS_PER_HISTORICAL_ROOT + slot % SLOTS_PER_HISTORICAL_ROOT, siblings))
  }

  /** The entry for slot `b` has been written by slot `h` and not yet overwritten. */
  predicate Recorded(b: nat, h: nat)
  {
    b < h && h - b <= SLOTS_PER_HISTORICAL_ROOT
  }

  /** First slot of an epoch, as a 64-bit product. */
  function BoundarySlot(epoch: nat, slotsPerEpoch: nat): nat
  {
    epoch * slotsPerEpoch % U64
  }

  /** The slot an epoch starts with. */
  predicate StartsEpoch(slot: nat, epoch: nat, slotsPerEpoch: nat)
  {
    slotsPerEpoch > 0 && slot / slotsPerEpoch == epoch && slot % slotsPerEpoch == 0
  }

  /** The slot the boundary is read at starts the epoch, exactly while the product fits a word. */
  lemma BoundaryStartsEpoch(epoch: nat, slotsPerEpoch: nat)
    requires slotsPerEpoch > 0
    ensures StartsEpoch(BoundarySlot(epoch, slotsPerEpoch), epoch, slotsPerEpoch) <==> epoch * slotsPerEpoch < U64
  {
    var b, product := BoundarySlot(epoch, slotsPerEpoch), epoch * slotsPerEpoch;
    if product < U64 {
      DivModUnique(b, slotsPerEpoch, epoch, 0);
    }
    if StartsEpoch(b, epoch, slotsPerEpoch) {
      assert b == (b / slotsPerEpoch) * slotsPerEpoch + b % slotsPerEpoch;
    }
  }

  /** Epochs have slots, and the number of the epoch's first one fits a word. */
  predicate FirstSlotFits(epoch: nat, slotsPerEpoch: nat)
  {
    slotsPerEpoch > 0 && epoch * slotsPerEpoch < U64
  }

  /** What `open_boundary` checks. */
  predicate OpensBoundary(anchor: BoundaryAnchor, finalizedEpoch: nat, finalizedRoot: Bytes32, justifiedRoot: Bytes32,
                          boundaryStateRoot: Bytes32, slotsPerEpoch: nat)
  {
    var h := anchor.header;
    var b := BoundarySlot(finalizedEpoch, slotsPerEpoch);
    && BlockHeaderRoot(h) == justifiedRoot
    && Recorded(b, h.slot)
    && StateRootFromHistory(BLOCK_ROOTS_FIELD, b, finalizedRoot, anchor.blockRootsPath) == Some(h.stateRoot)
    && StateRootFromHistory(STATE_ROOTS_FIELD, b, boundaryStateRoot, anchor.stateRootsPath) == Some(h.stateRoot)
  }

  // ---- the ring buffer ----------------------------------------------------------------------

  /** A ring after the slots below `h` have been processed, `n` cells long: each slot writes
      its record over the one `n` slots older. */
  function Ring<T>(record: nat -> T, empty: T, n: nat, h: nat): (ring: seq<T>)
    requires n > 0
    ensures |ring| == n
  {
    if h == 0 then seq(n, _ => empty) else Ring(record, empty, n, h - 1)[(h - 1) % n := record(h - 1)]
  }

  /** The slot whose record a cell holds. */
  function Writer(n: nat, h: nat, cell: nat): Option<nat>
    requires n > 0
  {
    if h == 0 then None else if (h - 1) % n == cell then Some(h - 1) else Writer(n, h - 1, cell)
  }

  /** A cell holds its writer's record, or is still empty. */
  lemma {:induction false} CellHolds<T>(record: nat -> T, empty: T, n: nat, h: nat, cell: nat)
    requires cell < n
    ensures Ring(record, empty, n, h)[cell] == match Writer(n, h, cell) case None => empty case Some(b) => record(b)
  {
    if h > 0 {
      CellHolds(record, empty, n, h - 1, cell);
    }
  }

  /** The guard is exact: slot `b`'s cell is still slot `b`'s just when `b` is one of the last
      `n` slots before `h`. */
  lemma {:induction false} GuardIsExact(n: nat, h: nat, b: nat)
    requires n > 0
    ensures Writer(n, h, b % n) == Some(b) <==> b < h && h - b <= n
    decreases h
  {
    if h > 0 {
      GuardIsExact(n, h - 1, b);
      CellReused(n, h - 1, b);
    }
  }

  /** Within `n` slots a cell is not reused; after exactly `n` it is. */
  lemma CellReused(n: nat, h: nat, b: nat)
    requires n > 0
    ensures b < h < b + n ==> h % n != b % n
    ensures h == b + n ==> h % n == b % n
    ensures h == b ==> h % n == b % n
  {
    var q, r := b / n, b % n;
    assert b == q * n + r;
    if b < h < b + n {
      if r + (h - b) < n {
        DivModUnique(h, n, q, r + (h - b));
      } else {
        assert (q + 1) * n == q * n + n;
        DivModUnique(h, n, q + 1, r + (h - b) - n);
      }
    } else if h == b + n {
      assert (q + 1) * n == q * n + n;
      DivModUnique(h, n, q + 1, r);
    }
  }

  // ---- the joined path ----------------------------------------------------------------------

  /** A path climbs in two parts. */
  lemma {:induction false} PathSplits<T>(compress: (T, T) -> T, leaf: T, index: nat, low: seq<T>, high: seq<T>)
    ensures PathRoot(compress, leaf, index, low + high)
         == PathRoot(compress, PathRoot(compress, leaf, index, low), High(index, |low|), high)
    decreases |low|
  {
    if low == [] {
      assert low + high == high;
    } else {
      var parent := if index % 2 == 0 then compress(leaf, low[0]) else compress(low[0], leaf);
      assert (low + high)[1..] == low[1..] + high;
      PathSplits(compress, parent, index / 2, low[1..], high);
    }
  }

  lemma {:induction false} JoinedDigits(top: nat, bottom: nat, d: nat)
    requires bottom < Pow2(d)
    ensures Low(top * Pow2(d) + bottom, d) == bottom && High(top * Pow2(d) + bottom, d) == top
  {
    if d > 0 {
      var i := top * Pow2(d) + bottom;
      assert i == 2 * (top * Pow2(d - 1)) + bottom;
      assert i / 2 == top * Pow2(d - 1) + bottom / 2;
      JoinedDigits(top, bottom / 2, d - 1);
    }
  }

  /** A state whose field `field` is the root of a vector of `2^ringDepth` entries. */
  ghost predicate HoldsVector(stateRoot: Bytes32, fields: seq<Bytes32>, stateDepth: nat, field: nat,
                              vector: seq<Bytes32>, ringDepth: nat)
  {
    && stateRoot == Root(Sha256Pair, ZERO_CHUNK, fields, stateDepth)
    && field < |fields| && field < Pow2(stateDepth)
    && fields[field] == Root(Sha256Pair, ZERO_CHUNK, vector, ringDepth)
    && |vector| == Pow2(ringDepth)
  }

  /** A path as deep as both trees opens the vector's own entry. */
  lemma JoinedPathOpens(entry: Bytes32, field: nat, cell: nat, path: seq<Bytes32>, stateRoot: Bytes32,
                        fields: seq<Bytes32>, stateDepth: nat, vector: seq<Bytes32>, ringDepth: nat)
    requires HoldsVector(stateRoot, fields, stateDepth, field, vector, ringDepth)
    requires cell < Pow2(ringDepth) && |path| == ringDepth + stateDepth
    requires PathRoot(Sha256Pair, entry, field * Pow2(ringDepth) + cell, path) == stateRoot
    ensures entry == vector[cell]
  {
    hide PathRoot, Ring, High, Low;
    var index := field * Pow2(ringDepth) + cell;
    var low, high := path[..ringDepth], path[ringDepth..];
    assert path == low + high;
    PathSplits(Sha256Pair, entry, index, low, high);
    JoinedDigits(field, cell, ringDepth);
    var inner := PathRoot(Sha256Pair, entry, index, low);
    PathOpens(Sha256Pair, ZERO_CHUNK, fields, 0, inner, field, high);
    SmallIndex(field, stateDepth);
    PathOpens(Sha256Pair, ZERO_CHUNK, vector, 0, entry, index, low);
  }

  /** Boundary soundness. Where the justified state keeps its two histories as the chain writes
      them, an accepted opening names the block root and the state root recorded for the
      boundary slot. */
  lemma BoundaryIsRecorded(anchor: BoundaryAnchor, finalizedEpoch: nat, finalizedRoot: Bytes32, justifiedRoot: Bytes32,
                           boundaryStateRoot: Bytes32, slotsPerEpoch: nat, fields: seq<Bytes32>,
                           blockRoots: nat -> Bytes32, stateRoots: nat -> Bytes32, ringDepth: nat, stateDepth: nat)
    requires OpensBoundary(anchor, finalizedEpoch, finalizedRoot, justifiedRoot, boundaryStateRoot, slotsPerEpoch)
    requires Pow2(ringDepth) == SLOTS_PER_HISTORICAL_ROOT && ringDepth + stateDepth == HISTORY_PROOF_DEPTH
    requires HoldsVector(anchor.header.stateRoot, fields, stateDepth, BLOCK_ROOTS_FIELD,
                         Ring(blockRoots, ZERO_CHUNK, Pow2(ringDepth), anchor.header.slot), ringDepth)
    requires HoldsVector(anchor.header.stateRoot, fields, stateDepth, STATE_ROOTS_FIELD,
                         Ring(stateRoots, ZERO_CHUNK, Pow2(ringDepth), anchor.header.slot), ringDepth)
    ensures finalizedRoot == blockRoots(BoundarySlot(finalizedEpoch, slotsPerEpoch))
    ensures boundaryStateRoot == stateRoots(BoundarySlot(finalizedEpoch, slotsPerEpoch))
    ensures justifiedRoot == BlockHeaderRoot(anchor.header)
    ensures FirstSlotFits(finalizedEpoch, slotsPerEpoch) ==>
      StartsEpoch(BoundarySlot(finalizedEpoch, slotsPerEpoch), finalizedEpoch, slotsPerEpoch)
  {
    if FirstSlotFits(finalizedEpoch, slotsPerEpoch) { BoundaryStartsEpoch(finalizedEpoch, slotsPerEpoch); }
    var b := BoundarySlot(finalizedEpoch, slotsPerEpoch);
    HistoryEntry(BLOCK_ROOTS_FIELD, b, finalizedRoot, anchor.blockRootsPath, anchor.header, fields, blockRoots,
                 ringDepth, stateDepth);
    HistoryEntry(STATE_ROOTS_FIELD, b, boundaryStateRoot, anchor.stateRootsPath, anchor.header, fields, stateRoots,
                 ringDepth, stateDepth);
  }

  lemma HistoryEntry(field: nat, b: nat, entry: Bytes32, path: seq<Bytes32>, h: BlockHeader, fields: seq<Bytes32>,
                     record: nat -> Bytes32, ringDepth: nat, stateDepth: nat)
    requires StateRootFromHistory(field, b, entry, path) == Some(h.stateRoot) && Recorded(b, h.slot)
    requires Pow2(ringDepth) == SLOTS_PER_HISTORICAL_ROOT && ringDepth + stateDepth == HISTORY_PROOF_DEPTH
    requires HoldsVector(h.stateRoot, fields, stateDepth, field,
                         Ring(record, ZERO_CHUNK, Pow2(ringDepth), h.slot), ringDepth)
    ensures entry == record(b)
  {
    var n := Pow2(ringDepth);
    JoinedPathOpens(entry, field, b % n, path, h.stateRoot, fields, stateDepth,
                    Ring(record, ZERO_CHUNK, n, h.slot), ringDepth);
    GuardIsExact(n, h.slot, b);
    CellHolds(record, ZERO_CHUNK, n, h.slot, b % n);
  }

  // ---- and the paths exist ----------------------------------------------------------------------

  /** A path through both trees: the vector's, then the state's. */
  function JoinedPath(field: nat, cell: nat, fields: seq<Bytes32>, stateDepth: nat, vector: seq<Bytes32>, ringDepth: nat)
    : (path: seq<Bytes32>)
    ensures |path| == ringDepth + stateDepth
  {
    PathOf(Sha256Pair, ZERO_CHUNK, vector, 0, ringDepth, cell) + PathOf(Sha256Pair, ZERO_CHUNK, fields, 0, stateDepth, field)
  }

  /** A leaf and its siblings reach the root under any index with its low digits. */
  lemma OwnPathReaches<T>(compress: (T, T) -> T, zero: T, leaves: seq<T>, d: nat, index: nat)
    ensures PathRoot(compress, Node(compress, zero, leaves, 0, Low(index, d)), index,
                     PathOf(compress, zero, leaves, 0, d, Low(index, d))) == Root(compress, zero, leaves, d)
  {
    var at := Low(index, d);
    DigitsSplit(index, d);
    SmallIndex(at, d);
    PathReadsLow(compress, Node(compress, zero, leaves, 0, at), index, PathOf(compress, zero, leaves, 0, d, at));
    PathReaches(compress, zero, leaves, 0, d, at);
  }

  /** The vector's own entry does reach the state root. */
  lemma JoinedPathReaches(field: nat, cell: nat, stateRoot: Bytes32, fields: seq<Bytes32>, stateDepth: nat,
                          vector: seq<Bytes32>, ringDepth: nat)
    requires HoldsVector(stateRoot, fields, stateDepth, field, vector, ringDepth) && cell < Pow2(ringDepth)
    ensures PathRoot(Sha256Pair, vector[cell], field * Pow2(ringDepth) + cell,
                     JoinedPath(field, cell, fields, stateDepth, vector, ringDepth)) == stateRoot
  {
    hide PathRoot, PathOf, Low, High;
    var index := field * Pow2(ringDepth) + cell;
    JoinedDigits(field, cell, ringDepth);
    OwnPathReaches(Sha256Pair, ZERO_CHUNK, vector, ringDepth, index);
    SmallIndex(field, stateDepth);
    OwnPathReaches(Sha256Pair, ZERO_CHUNK, fields, stateDepth, field);
    PathSplits(Sha256Pair, vector[cell], index, PathOf(Sha256Pair, ZERO_CHUNK, vector, 0, ringDepth, cell),
               PathOf(Sha256Pair, ZERO_CHUNK, fields, 0, stateDepth, field));
  }

  lemma HistoryOpens(field: nat, b: nat, h: BlockHeader, fields: seq<Bytes32>, record: nat -> Bytes32, ringDepth: nat,
                     stateDepth: nat) returns (path: seq<Bytes32>)
    requires Recorded(b, h.slot)
    requires Pow2(ringDepth) == SLOTS_PER_HISTORICAL_ROOT && ringDepth + stateDepth == HISTORY_PROOF_DEPTH
    requires HoldsVector(h.stateRoot, fields, stateDepth, field,
                         Ring(record, ZERO_CHUNK, Pow2(ringDepth), h.slot), ringDepth)
    ensures StateRootFromHistory(field, b, record(b), path) == Some(h.stateRoot)
  {
    var n := Pow2(ringDepth);
    var ring := Ring(record, ZERO_CHUNK, n, h.slot);
    path := JoinedPath(field, b % n, fields, stateDepth, ring, ringDepth);
    GuardIsExact(n, h.slot, b);
    CellHolds(record, ZERO_CHUNK, n, h.slot, b % n);
    JoinedPathReaches(field, b % n, h.stateRoot, fields, stateDepth, ring, ringDepth);
  }

  /** Boundary completeness: whatever the justified state still records for the boundary slot
      opens. */
  lemma RecordedBoundaryOpens(h: BlockHeader, finalizedEpoch: nat, slotsPerEpoch: nat, fields: seq<Bytes32>,
                              blockRoots: nat -> Bytes32, stateRoots: nat -> Bytes32, ringDepth: nat, stateDepth: nat)
    returns (anchor: BoundaryAnchor)
    requires Recorded(BoundarySlot(finalizedEpoch, slotsPerEpoch), h.slot)
    requires Pow2(ringDepth) == SLOTS_PER_HISTORICAL_ROOT && ringDepth + stateDepth == HISTORY_PROOF_DEPTH
    requires HoldsVector(h.stateRoot, fields, stateDepth, BLOCK_ROOTS_FIELD,
                         Ring(blockRoots, ZERO_CHUNK, Pow2(ringDepth), h.slot), ringDepth)
    requires HoldsVector(h.stateRoot, fields, stateDepth, STATE_ROOTS_FIELD,
                         Ring(stateRoots, ZERO_CHUNK, Pow2(ringDepth), h.slot), ringDepth)
    ensures
      var b := BoundarySlot(finalizedEpoch, slotsPerEpoch);
      anchor.header == h
      && OpensBoundary(anchor, finalizedEpoch, blockRoots(b), BlockHeaderRoot(h), stateRoots(b), slotsPerEpoch)
  {
    var b := BoundarySlot(finalizedEpoch, slotsPerEpoch);
    var blocks := HistoryOpens(BLOCK_ROOTS_FIELD, b, h, fields, blockRoots, ringDepth, stateDepth);
    var states := HistoryOpens(STATE_ROOTS_FIELD, b, h, fields, stateRoots, ringDepth, stateDepth);
    anchor := BoundaryAnchor(h, blocks, states);
  }

  /** The opening is exact: some paths are accepted under a header if and only if the header is
      the justified block's, the boundary slot is still recorded in its state, and the roots named
      are those recorded. */
  lemma BoundaryIsExact(h: BlockHeader, finalizedEpoch: nat, finalizedRoot: Bytes32, justifiedRoot: Bytes32,
                        boundaryStateRoot: Bytes32, slotsPerEpoch: nat, fields: seq<Bytes32>,
                        blockRoots: nat -> Bytes32, stateRoots: nat -> Bytes32, ringDepth: nat, stateDepth: nat)
    requires Pow2(ringDepth) == SLOTS_PER_HISTORICAL_ROOT && ringDepth + stateDepth == HISTORY_PROOF_DEPTH
    requires HoldsVector(h.stateRoot, fields, stateDepth, BLOCK_ROOTS_FIELD,
                         Ring(blockRoots, ZERO_CHUNK, Pow2(ringDepth), h.slot), ringDepth)
    requires HoldsVector(h.stateRoot, fields, stateDepth, STATE_ROOTS_FIELD,
                         Ring(stateRoots, ZERO_CHUNK, Pow2(ringDepth), h.slot), ringDepth)
    ensures
      var b := BoundarySlot(finalizedEpoch, slotsPerEpoch);
      (exists anchor: BoundaryAnchor :: anchor.header == h
         && OpensBoundary(anchor, finalizedEpoch, finalizedRoot, justifiedRoot, boundaryStateRoot, slotsPerEpoch))
      <==> b < h.slot <= b + 8192 && justifiedRoot == BlockHeaderRoot(h)
           && finalizedRoot == blockRoots(b) && boundaryStateRoot == stateRoots(b)
    ensures FirstSlotFits(finalizedEpoch, slotsPerEpoch) ==>
      StartsEpoch(BoundarySlot(finalizedEpoch, slotsPerEpoch), finalizedEpoch, slotsPerEpoch)
  {
    if FirstSlotFits(finalizedEpoch, slotsPerEpoch) { BoundaryStartsEpoch(finalizedEpoch, slotsPerEpoch); }
    var b := BoundarySlot(finalizedEpoch, slotsPerEpoch);
    if Recorded(b, h.slot) && justifiedRoot == BlockHeaderRoot(h)
       && finalizedRoot == blockRoots(b) && boundaryStateRoot == stateRoots(b) {
      var anchor := RecordedBoundaryOpens(h, finalizedEpoch, slotsPerEpoch, fields, blockRoots, stateRoots, ringDepth,
                                          stateDepth);
    }
    forall anchor: BoundaryAnchor | anchor.header == h
        && OpensBoundary(anchor, finalizedEpoch, finalizedRoot, justifiedRoot, boundaryStateRoot, slotsPerEpoch)
      ensures finalizedRoot == blockRoots(b) && boundaryStateRoot == stateRoots(b)
    {
      BoundaryIsRecorded(anchor, finalizedEpoch, finalizedRoot, justifiedRoot, boundaryStateRoot, slotsPerEpoch, fields,
                         blockRoots, stateRoots, ringDepth, stateDepth);
    }
  }
}
