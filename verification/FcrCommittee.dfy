/** The fast-confirmation committee proof: the active set pinned by its total, and every member
    seated in the slot the specification's shuffle gives it. */
module FcrCommittee {
  import opened Wrappers
  import opened FormalSums
  import opened Bls
  import opened Merkle
  import opened MultiProof
  import opened Accumulator
  import opened SlotProof
  import opened SwapOrNot
  import opened Slots
  import Committee

  datatype FcrCommitteeWitness = FcrCommitteeWitness(
    accumulatorCommitment: Digest, accRoot: Digest, total: nat, epoch: nat,
    active: seq<OpenedValidator>, aux: seq<Digest>)

  datatype FcrCommitteeOutput = FcrCommitteeOutput(
    accumulatorCommitment: Digest, epoch: nat, committeeRoot: Digest, activeCount: nat)

  /** What the circuit is given from outside: the hashes under the published seed, the round
      count, the slots of an epoch, and the support predicate of the confirmation library. */
  datatype FcrChain = FcrChain(h: Seed, rounds: nat, slots: nat, accDepth: nat, counts: nat -> bool)

  // ---- the active set -----------------------------------------------------------------------

  datatype Opening = Opening(previous: Option<nat>, summed: nat, leaves: seq<Opened<Digest>>)

  function OpenActive(o: Opening, v: OpenedValidator): Option<Opening>
  {
    if o.previous.Some? && v.index <= o.previous.value then None
    else if v.balance == 0 || o.summed + v.balance >= U64 then None
    else Some(Opening(Some(v.index), o.summed + v.balance, o.leaves + [NamedLeaf(v)]))
  }

  function OpenAll(active: seq<OpenedValidator>): Option<Opening>
    decreases |active|
  {
    if active == [] then Some(Opening(None, 0, []))
    else
      var o :- OpenAll(active[..|active| - 1]);
      OpenActive(o, active[|active| - 1])
  }

  // ---- the seats ---------------------------------------------------------------------------

  /** Summed key and balance of a slot; absent until somebody sits there. */
  type Seats = seq<Option<(PointSum, nat)>>

  /** The slot of the validator at an offset of the active set. */
  function SlotOf(offset: nat, n: nat, chain: FcrChain): nat
    requires offset < n && chain.slots > 0
  {
    SlotOfPosition(CommitteePosition(chain.h, n, chain.rounds, offset), n, chain.slots)
  }

  function Seat(seats: Seats, slot: nat, v: OpenedValidator, chain: FcrChain): Option<Seats>
    requires slot < |seats|
  {
    if !chain.counts(v.balance) then None
    else
      var entry := if seats[slot].Some? then seats[slot].value else (PointSum(None), 0);
      var key :- entry.0.Add(v.key);
      Some(seats[slot := Some((key, WrappingAdd(entry.1, v.balance)))])
  }

  /** The first `done` members of an active set of `n`, seated. */
  function SeatFirst(active: seq<OpenedValidator>, done: nat, chain: FcrChain): (r: Option<Seats>)
    requires done <= |active| && chain.slots > 0
    ensures r.Some? ==> |r.value| == chain.slots
    decreases done
  {
    if done == 0 then Some(seq(chain.slots, _ => None))
    else
      var seats :- SeatFirst(active, done - 1, chain);
      var slot := SlotOf(done - 1, |active|, chain);
      SlotEncloses(CommitteePosition(chain.h, |active|, chain.rounds, done - 1), |active|, chain.slots);
      Seat(seats, slot, active[done - 1], chain)
  }

  /** The committee tree's leaves over the seats, empty digests where nobody sits. */
  function SeatLeaves(seats: Seats): (leaves: seq<Digest>)
    ensures |leaves| == MAX_SLOTS
  {
    seq(MAX_SLOTS, (s: nat) =>
      if s < |seats| && seats[s].Some? && seats[s].value.0.value.Some?
      then Leaf(seats[s].value.0.value.value, seats[s].value.1) else Zero)
  }

  /** What `verify_fcr_committee_with_depth` returns; `None` where it panics. */
  function FcrOutputOf(w: FcrCommitteeWitness, chain: FcrChain): Option<FcrCommitteeOutput>
    requires chain.slots > 0
  {
    if Commitment(w.accRoot, w.total) != w.accumulatorCommitment || w.active == [] || chain.slots > MAX_SLOTS then None
    else
      var o :- OpenAll(w.active);
      if o.summed != w.total then None
      else if RootOfLeaves(Compress, o.leaves, w.aux, chain.accDepth) != Some(w.accRoot) then None
      else
        var seats :- SeatFirst(w.active, |w.active|, chain);
        Some(FcrCommitteeOutput(
          w.accumulatorCommitment, w.epoch, Root(Compress, Zero, SeatLeaves(seats), TREE_DEPTH), |w.active|))
  }

  // ---- the loops ----------------------------------------------------------------------------

  method OpenMembers(active: seq<OpenedValidator>) returns (r: Option<Opening>)
    ensures r == OpenAll(active)
  {
    var summed: nat := 0;
    var previous: Option<nat> := None;
    var leaves: seq<Opened<Digest>> := [];
    for i := 0 to |active|
      invariant OpenAll(active[..i]) == Some(Opening(previous, summed, leaves))
    {
      assert active[..i + 1][..i] == active[..i];
      var v := active[i];
      if (previous.Some? && v.index <= previous.value) || v.balance == 0 || summed + v.balance >= U64 {
        OpenAllFails(active, i + 1);
        return None;
      }
      previous, summed, leaves := Some(v.index), summed + v.balance, leaves + [NamedLeaf(v)];
    }
    assert active[..|active|] == active;
    r := Some(Opening(previous, summed, leaves));
  }

  lemma {:induction false} OpenAllFails(active: seq<OpenedValidator>, n: nat)
    requires n <= |active| && OpenAll(active[..n]).None?
    ensures OpenAll(active).None?
    decreases |active| - n
  {
    if n == |active| {
      assert active[..n] == active;
    } else {
      assert active[..n + 1][..n] == active[..n];
      OpenAllFails(active, n + 1);
    }
  }

  lemma {:induction false} SeatFirstFails(active: seq<OpenedValidator>, n: nat, chain: FcrChain)
    requires n <= |active| && chain.slots > 0 && SeatFirst(active, n, chain).None?
    ensures SeatFirst(active, |active|, chain).None?
    decreases |active| - n
  {
    if n < |active| {
      SeatFirstFails(active, n + 1, chain);
    }
  }

  method SeatMembers(active: seq<OpenedValidator>, chain: FcrChain) returns (r: Option<Seats>)
    requires chain.slots > 0
    ensures r == SeatFirst(active, |active|, chain)
  {
    var seats: Seats := seq(chain.slots, _ => None);
    for i := 0 to |active|
      invariant |seats| == chain.slots && SeatFirst(active, i, chain) == Some(seats)
    {
      var position := SpecShuffledIndex(chain.h, i, |active|, chain.rounds, false);
      var slot := SlotOfPosition(position, |active|, chain.slots);
      SlotEncloses(position, |active|, chain.slots);
      var next := Seat(seats, slot, active[i], chain);
      assert SeatFirst(active, i + 1, chain) == next;
      if next.None? {
        SeatFirstFails(active, i + 1, chain);
        return None;
      }
      seats := next.value;
    }
    r := Some(seats);
  }

  /** `verify_fcr_committee_with_depth` */
  method VerifyFcrCommittee(w: FcrCommitteeWitness, chain: FcrChain) returns (r: Option<FcrCommitteeOutput>)
    requires chain.slots > 0
    ensures r == FcrOutputOf(w, chain)
  {
    if Commitment(w.accRoot, w.total) != w.accumulatorCommitment || w.active == [] || chain.slots > MAX_SLOTS {
      return None;
    }
    var o := OpenMembers(w.active);
    if o.None? || o.value.summed != w.total {
      return None;
    }
    var root := BatchRoot(Compress, o.value.leaves, w.aux, chain.accDepth);
    if root != Some(w.accRoot) {
      return None;
    }
    var seats := SeatMembers(w.active, chain);
    if seats.None? {
      return None;
    }
    var committeeRoot := Committee.TreeRoot(SeatLeaves(seats.value), TREE_DEPTH);
    r := Some(FcrCommitteeOutput(w.accumulatorCommitment, w.epoch, committeeRoot, |w.active|));
  }
}
