/** What an accepted list of slots has counted: conservation of key and balance through
    `verify_attestations`, for any linear measure of keys. */
module SlotSound {
  import opened Wrappers
  import opened FormalSums
  import opened Ssz
  import opened Bls
  import opened Merkle
  import opened MultiProof
  import opened Accumulator
  import opened SlotProof

  ghost function SumWeight(sum: PointSum, g: nat -> int): int
  {
    if sum.value.None? then 0 else Weigh(sum.value.value, g)
  }

  lemma AddWeighs(sum: PointSum, point: Point, g: nat -> int)
    requires sum.Add(point).Some?
    ensures SumWeight(sum.Add(point).value, g) == SumWeight(sum, g) + Weigh(point, g)
  {
    if sum.value.Some? {
      WeighPlus(sum.value.value, point, g);
    }
  }

  lemma SubWeighs(sum: PointSum, point: Point, g: nat -> int)
    requires sum.Sub(point).Some?
    ensures SumWeight(sum.Sub(point).value, g) == SumWeight(sum, g) - Weigh(point, g)
  {
    AddWeighs(sum, Negated(point), g);
    WeighMinus(IDENTITY, point, g);
    WeighNothing(g);
    SameCombo(Minus(IDENTITY, point), Negated(point));
  }

  /** Measure of the keys of a list of named validators. */
  ghost function NamedWeight(vs: seq<OpenedValidator>, g: nat -> int): int
    decreases |vs|
  {
    if vs == [] then 0 else NamedWeight(vs[..|vs| - 1], g) + Weigh(vs[|vs| - 1].key, g)
  }

  function NamedBalance(vs: seq<OpenedValidator>): nat
    decreases |vs|
  {
    if vs == [] then 0 else NamedBalance(vs[..|vs| - 1]) + vs[|vs| - 1].balance
  }

  function NamedLeaves(vs: seq<OpenedValidator>): seq<Opened<Digest>>
    decreases |vs|
  {
    if vs == [] then [] else NamedLeaves(vs[..|vs| - 1]) + [NamedLeaf(vs[|vs| - 1])]
  }

  ghost function MessageWeight(m: SignedMessage, g: nat -> int): int
  {
    if |m.pubkeys| == 1 then Weigh(m.pubkeys[0], g) else 0
  }

  ghost function MessagesWeight(ms: seq<SignedMessage>, g: nat -> int): int
    decreases |ms|
  {
    if ms == [] then 0 else MessagesWeight(ms[..|ms| - 1], g) + MessageWeight(ms[|ms| - 1], g)
  }

  lemma MessagesWeightPush(ms: seq<SignedMessage>, m: SignedMessage, g: nat -> int)
    ensures MessagesWeight(ms + [m], g) == MessagesWeight(ms, g) + MessageWeight(m, g)
  {
    assert (ms + [m])[..|ms|] == ms;
  }

  // ---- one slot ---------------------------------------------------------------------------

  lemma {:induction false} NameSignersConserve(start: Working, vs: seq<OpenedValidator>, g: nat -> int)
    requires NameSigners(start, vs).Some?
    ensures
      var s := NameSigners(start, vs).value;
      && s.work.messages == start.messages && s.work.support == start.support
      && SumWeight(s.work.key, g) + SumWeight(s.keys, g) == SumWeight(start.key, g)
      && s.work.named == start.named + NamedLeaves(vs)
    decreases |vs|
  {
    if vs != [] {
      var last := |vs| - 1;
      NameSignersConserve(start, vs[..last], g);
      var s := NameSigners(start, vs[..last]).value;
      SubWeighs(s.work.key, vs[last].key, g);
      AddWeighs(s.keys, vs[last].key, g);
    }
  }

  /** The primary key still held and the keys already pushed, measured together. */
  ghost function Held(w: Working, g: nat -> int): int
  {
    SumWeight(w.key, g) + MessagesWeight(w.messages, g)
  }

  lemma SecondaryConserves(w: Working, a: Attestation, claim: Claim, g: nat -> int)
    requires TakeSecondary(w, a, claim).Some?
    ensures
      var r := TakeSecondary(w, a, claim).value;
      && Held(r, g) == Held(w, g) && r.support == w.support && r.named == w.named + NamedLeaves(a.signers)
  {
    NameSignersConserve(w, a.signers, g);
    var s := NameSigners(w, a.signers).value;
    var r := TakeSecondary(w, a, claim).value;
    MessagesWeightPush(w.messages, r.messages[|w.messages|], g);
  }

  lemma {:induction false} SecondariesConserve(start: Working, secondary: seq<Attestation>, claim: Claim, g: nat -> int)
    requires TakeSecondaries(start, secondary, claim).Some?
    ensures
      var r := TakeSecondaries(start, secondary, claim).value;
      Held(r, g) == Held(start, g) && r.support == start.support && start.named <= r.named
    decreases |secondary|
  {
    if secondary != [] {
      var last := |secondary| - 1;
      SecondariesConserve(start, secondary[..last], claim, g);
      SecondaryConserves(TakeSecondaries(start, secondary[..last], claim).value, secondary[last], claim, g);
    }
  }

  lemma {:induction false} AbsenteesLower(start: Working, absentees: seq<OpenedValidator>, g: nat -> int)
    requires TakeAbsentees(start, absentees).Some?
    ensures
      var r := TakeAbsentees(start, absentees).value;
      && r.messages == start.messages && r.support == start.support - NamedBalance(absentees)
      && SumWeight(r.key, g) == SumWeight(start.key, g) - NamedWeight(absentees, g)
      && r.named == start.named + NamedLeaves(absentees)
    decreases |absentees|
  {
    hide SumWeight;
    if absentees != [] {
      var last := |absentees| - 1;
      AbsenteesLower(start, absentees[..last], g);
      SubWeighs(TakeAbsentees(start, absentees[..last]).value.key, absentees[last].key, g);
    }
  }

  /** What a slot's keys measure once its absentees are out. */
  ghost function SlotWeight(slot: SlotWitness, g: nat -> int): int
  {
    Weigh(slot.committee.key, g) - NamedWeight(slot.absentees, g)
  }

  function SlotSupport(slot: SlotWitness): int
  {
    slot.committee.balance - NamedBalance(slot.absentees)
  }

  lemma RemainingConserves(start: Working, slot: SlotWitness, claim: Claim, g: nat -> int)
    requires Remaining(start, slot, claim).Some?
    ensures
      var r := Remaining(start, slot, claim).value;
      && Held(r, g) == Held(start, g) - NamedWeight(slot.absentees, g)
      && r.support == start.support - NamedBalance(slot.absentees)
      && start.named <= r.named
      && forall v :: v in NamedLeaves(slot.absentees) ==> v in r.named
  {
    SecondariesConserve(start, slot.secondary, claim, g);
    AbsenteesLower(TakeSecondaries(start, slot.secondary, claim).value, slot.absentees, g);
  }

  /** A slot adds the measure of its committee less its absentees to the keys paired, however
      the secondary aggregates divide them. */
  lemma SlotConserves(run: Run, slot: SlotWitness, claim: Claim, g: nat -> int)
    requires TakeSlot(run, slot, claim).Some?
    ensures MessagesWeight(TakeSlot(run, slot, claim).value.messages, g)
         == MessagesWeight(run.messages, g) + SlotWeight(slot, g)
  {
    var start := OpenSlot(run, slot);
    RemainingConserves(start, slot, claim, g);
    var present := Remaining(start, slot, claim).value;
    var r := TakeSlot(run, slot, claim).value;
    MessagesWeightPush(present.messages, r.messages[|present.messages|], g);
  }

  /** It counts the matching balance, which is never negative, and lists what it opened. */
  lemma SlotCounts(run: Run, slot: SlotWitness, claim: Claim) returns (support: nat)
    requires TakeSlot(run, slot, claim).Some?
    ensures
      var r := TakeSlot(run, slot, claim).value;
      && support == SlotSupport(slot) && r.balance == WrappingAdd(run.balance, support)
      && r.mask == run.mask + {slot.slot}
      && run.named <= r.named
      && forall v :: v in NamedLeaves(slot.absentees) ==> v in r.named
  {
    RemainingConserves(OpenSlot(run, slot), slot, claim, (i: nat) => 0);
    support := Remaining(OpenSlot(run, slot), slot, claim).value.support;
  }

  // ---- a list of slots -------------------------------------------------------------------------

  ghost function SlotsWeight(slots: seq<SlotWitness>, g: nat -> int): int
    decreases |slots|
  {
    if slots == [] then 0 else SlotsWeight(slots[..|slots| - 1], g) + SlotWeight(slots[|slots| - 1], g)
  }

  lemma {:induction false} SlotsConserve(slots: seq<SlotWitness>, claim: Claim, g: nat -> int)
    requires TakeSlots(slots, claim).Some?
    ensures MessagesWeight(TakeSlots(slots, claim).value.messages, g) == SlotsWeight(slots, g)
    decreases |slots|
  {
    if slots != [] {
      var last := |slots| - 1;
      SlotsConserve(slots[..last], claim, g);
      SlotConserves(TakeSlots(slots[..last], claim).value, slots[last], claim, g);
    }
  }
}
