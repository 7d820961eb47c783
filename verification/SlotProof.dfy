/** Slot and group proofs: attestation slots verified by complement. */
module SlotProof {
  import opened Wrappers
  import opened FormalSums
  import opened Ssz
  import opened Bls
  import opened Merkle
  import opened MultiProof
  import opened Accumulator

  datatype OpenedValidator = OpenedValidator(index: nat, key: Point, balance: nat)

  datatype Attestation = Attestation(data: AttestationData, signature: Signature, signers: seq<OpenedValidator>)

  datatype CommitteeAggregate = CommitteeAggregate(key: Point, balance: UInt64)

  datatype SlotWitness = SlotWitness(
    slot: nat, committee: CommitteeAggregate,
    primary: seq<Attestation>, secondary: seq<Attestation>, absentees: seq<OpenedValidator>)

  const TREE_DEPTH: nat := 5
  const MAX_SLOTS: nat := 32

  /** What a set of slots is proved against. */
  datatype Claim = Claim(link: Link, domain: Bytes32)

  /** The running values while one slot is read. */
  datatype Working = Working(key: PointSum, support: UInt64, named: seq<Opened<Digest>>, messages: seq<SignedMessage>)

  datatype Signers = Signers(work: Working, keys: PointSum)

  /** The running values while a list of slots is read. */
  datatype Run = Run(
    balance: UInt64, mask: set<nat>, previous: Option<nat>,
    named: seq<Opened<Digest>>, leaves: seq<Opened<Digest>>, messages: seq<SignedMessage>)

  datatype Attested = Attested(balance: UInt64, mask: set<nat>, miller: Fp12)

  /** One count added to another of different slots. */
  function Added(a: Attested, b: Attested): Attested
  {
    Attested(WrappingAdd(a.balance, b.balance), a.mask + b.mask, Fp12Mul(a.miller, b.miller))
  }

  const NOTHING_READ := Run(0, {}, None, [], [], [])

  function NamedLeaf(v: OpenedValidator): Opened<Digest>
  {
    Opened(Leaf(v.key, v.balance), v.index)
  }

  // ---- one slot ---------------------------------------------------------------------------

  /** A named signer leaves the primary key and joins its own aggregate. */
  function NameSigner(s: Signers, v: OpenedValidator): Option<Signers>
  {
    var key :- s.work.key.Sub(v.key);
    var keys :- s.keys.Add(v.key);
    Some(Signers(s.work.(key := key, named := s.work.named + [NamedLeaf(v)]), keys))
  }

  function NameSigners(start: Working, vs: seq<OpenedValidator>): Option<Signers>
    decreases |vs|
  {
    if vs == [] then Some(Signers(start, PointSum(None)))
    else
      var last := |vs| - 1;
      var s :- NameSigners(start, vs[..last]);
      NameSigner(s, vs[last])
  }

  function SignaturesOf(aggregates: seq<Attestation>): (r: seq<Signature>)
    ensures |r| == |aggregates| && forall i :: 0 <= i < |r| ==> r[i] == aggregates[i].signature
  {
    seq(|aggregates|, (i: nat) requires i < |aggregates| => aggregates[i].signature)
  }

  /** `push_message` */
  function PushMessage(w: Working, aggregates: seq<Attestation>, key: Point, claim: Claim): Option<Working>
    requires aggregates != []
  {
    var data := aggregates[0].data;
    if data.link != claim.link then None
    else
      var message := SignedMessage([key], SigningRoot(AttestationDataRoot(data), claim.domain), SignaturesOf(aggregates));
      Some(w.(messages := w.messages + [message]))
  }

  function TakeSecondary(w: Working, a: Attestation, claim: Claim): Option<Working>
  {
    var s :- NameSigners(w, a.signers);
    var key :- s.keys.value;
    PushMessage(s.work, [a], key, claim)
  }

  function TakeSecondaries(start: Working, secondary: seq<Attestation>, claim: Claim): Option<Working>
    decreases |secondary|
  {
    if secondary == [] then Some(start)
    else
      var last := |secondary| - 1;
      var w :- TakeSecondaries(start, secondary[..last], claim);
      TakeSecondary(w, secondary[last], claim)
  }

  /** An absentee leaves the primary key and takes its balance with it. */
  function TakeAbsentee(w: Working, v: OpenedValidator): Option<Working>
  {
    var key :- w.key.Sub(v.key);
    if v.balance > w.support then None
    else Some(w.(key := key, support := w.support - v.balance, named := w.named + [NamedLeaf(v)]))
  }

  function TakeAbsentees(start: Working, absentees: seq<OpenedValidator>): Option<Working>
    decreases |absentees|
  {
    if absentees == [] then Some(start)
    else
      var last := |absentees| - 1;
      var w :- TakeAbsentees(start, absentees[..last]);
      TakeAbsentee(w, absentees[last])
  }

  /** One message under the derived key, and no signer of it named. */
  predicate OneUnnamedMessage(primary: seq<Attestation>)
  {
    && primary != []
    && forall a :: a in primary ==> a.signers == [] && a.data == primary[0].data
  }

  function OpenSlot(run: Run, slot: SlotWitness): Working
  {
    Working(PointSum(Some(slot.committee.key)), slot.committee.balance, run.named, run.messages)
  }

  /** The committee with its secondary signers and its absentees taken out. */
  function Remaining(start: Working, slot: SlotWitness, claim: Claim): Option<Working>
  {
    var counted :- TakeSecondaries(start, slot.secondary, claim);
    TakeAbsentees(counted, slot.absentees)
  }

  function TakeSlot(run: Run, slot: SlotWitness, claim: Claim): Option<Run>
  {
    if (run.previous.Some? && slot.slot <= run.previous.value) || slot.slot >= MAX_SLOTS then None
    else if !OneUnnamedMessage(slot.primary) then None
    else
      var present :- Remaining(OpenSlot(run, slot), slot, claim);
      var key :- present.key.value;
      var done :- PushMessage(present, slot.primary, key, claim);
      Some(Run(
        WrappingAdd(run.balance, done.support), run.mask + {slot.slot}, Some(slot.slot), done.named,
        run.leaves + [Opened(Leaf(slot.committee.key, slot.committee.balance), slot.slot)], done.messages))
  }

  function TakeSlots(slots: seq<SlotWitness>, claim: Claim): Option<Run>
    decreases |slots|
  {
    if slots == [] then Some(NOTHING_READ)
    else
      var last := |slots| - 1;
      var run :- TakeSlots(slots[..last], claim);
      TakeSlot(run, slots[last], claim)
  }

  // ---- opening what the slots named -----------------------------------------------------------

  function Insert(o: Opened<Digest>, sorted: seq<Opened<Digest>>): (r: seq<Opened<Digest>>)
    ensures forall x :: x in r <==> x == o || x in sorted
  {
    if sorted == [] || o.index <= sorted[0].index then [o] + sorted
    else
      var rest := Insert(o, sorted[1..]);
      assert sorted == [sorted[0]] + sorted[1..];
      [sorted[0]] + rest
  }

  /** `sort_unstable_by_key` on the index. */
  function SortedByIndex(named: seq<Opened<Digest>>): (r: seq<Opened<Digest>>)
    ensures forall x :: x in r <==> x in named
  {
    if named == [] then []
    else
      assert named == [named[0]] + named[1..];
      Insert(named[0], SortedByIndex(named[1..]))
  }

  /** Every named validator opens at once, at distinct indices; with none named, nothing opens. */
  predicate NamedOpen(named: seq<Opened<Digest>>, aux: seq<Digest>, accRoot: Digest, accDepth: nat)
  {
    if named == [] then aux == []
    else RootOfLeaves(Compress, SortedByIndex(named), aux, accDepth) == Some(accRoot)
  }

  datatype Openings = Openings(accRoot: Digest, accAux: seq<Digest>, committeeRoot: Digest, committeeAux: seq<Digest>)

  /** What `verify_attestations` returns; `None` where it panics. */
  function AttestedBy(slots: seq<SlotWitness>, at: Openings, claim: Claim, accDepth: nat): Option<Attested>
  {
    var run :- TakeSlots(slots, claim);
    if !NamedOpen(run.named, at.accAux, at.accRoot, accDepth) then None
    else if RootOfLeaves(Compress, run.leaves, at.committeeAux, TREE_DEPTH) != Some(at.committeeRoot) then None
    else
      var miller :- MillerAccumulator(run.messages);
      Some(Attested(run.balance, run.mask, miller))
  }

  // ---- the loops ----------------------------------------------------------------------------

  method NameAll(start: Working, vs: seq<OpenedValidator>) returns (r: Option<Signers>)
    ensures r == NameSigners(start, vs)
  {
    var key, keys, named := start.key, PointSum(None), start.named;
    for i := 0 to |vs|
      invariant NameSigners(start, vs[..i]) == Some(Signers(start.(key := key, named := named), keys))
    {
      assert vs[..i + 1][..i] == vs[..i];
      named := named + [NamedLeaf(vs[i])];
      var less, more := key.Sub(vs[i].key), keys.Add(vs[i].key);
      if less.None? || more.None? {
        NameSignersFails(start, vs, i + 1);
        return None;
      }
      key, keys := less.value, more.value;
    }
    assert vs[..|vs|] == vs;
    r := Some(Signers(start.(key := key, named := named), keys));
  }

  lemma {:induction false} NameSignersFails(start: Working, vs: seq<OpenedValidator>, n: nat)
    requires n <= |vs| && NameSigners(start, vs[..n]).None?
    ensures NameSigners(start, vs).None?
    decreases |vs|
  {
    if n == |vs| {
      assert vs[..n] == vs;
    } else {
      assert vs[..|vs| - 1][..n] == vs[..n];
      NameSignersFails(start, vs[..|vs| - 1], n);
    }
  }

  method TakeAllSecondaries(start: Working, secondary: seq<Attestation>, claim: Claim) returns (r: Option<Working>)
    ensures r == TakeSecondaries(start, secondary, claim)
  {
    var w := start;
    for i := 0 to |secondary|
      invariant TakeSecondaries(start, secondary[..i], claim) == Some(w)
    {
      assert secondary[..i + 1][..i] == secondary[..i];
      var counted := NameAll(w, secondary[i].signers);
      var next: Option<Working> := None;
      if counted.Some? && counted.value.keys.value.Some? {
        next := PushMessage(counted.value.work, [secondary[i]], counted.value.keys.value.value, claim);
      }
      if next.None? {
        TakeSecondariesFails(start, secondary, claim, i + 1);
        return None;
      }
      w := next.value;
    }
    assert secondary[..|secondary|] == secondary;
    r := Some(w);
  }

  lemma {:induction false} TakeSecondariesFails(start: Working, secondary: seq<Attestation>, claim: Claim, n: nat)
    requires n <= |secondary| && TakeSecondaries(start, secondary[..n], claim).None?
    ensures TakeSecondaries(start, secondary, claim).None?
    decreases |secondary|
  {
    if n == |secondary| {
      assert secondary[..n] == secondary;
    } else {
      assert secondary[..|secondary| - 1][..n] == secondary[..n];
      TakeSecondariesFails(start, secondary[..|secondary| - 1], claim, n);
    }
  }

  method TakeAllAbsentees(start: Working, absentees: seq<OpenedValidator>) returns (r: Option<Working>)
    ensures r == TakeAbsentees(start, absentees)
  {
    hide TakeAbsentees;
    NoAbsentees(start, absentees);
    var key, named := start.key, start.named;
    var support: UInt64 := start.support;
    for i := 0 to |absentees|
      invariant TakeAbsentees(start, absentees[..i]) == Some(Working(key, support, named, start.messages))
    {
      AbsenteesStep(start, absentees, i);
      var v := absentees[i];
      named := named + [NamedLeaf(v)];
      var less := key.Sub(v.key);
      if less.None? || v.balance > support {
        TakeAbsenteesFails(start, absentees, i + 1);
        return None;
      }
      key, support := less.value, support - v.balance;
    }
    assert absentees[..|absentees|] == absentees;
    r := Some(Working(key, support, named, start.messages));
  }

  lemma NoAbsentees(start: Working, absentees: seq<OpenedValidator>)
    ensures TakeAbsentees(start, absentees[..0]) == Some(start)
  {
  }

  lemma AbsenteesStep(start: Working, absentees: seq<OpenedValidator>, i: nat)
    requires i < |absentees|
    ensures TakeAbsentees(start, absentees[..i + 1])
         == (var w :- TakeAbsentees(start, absentees[..i]); TakeAbsentee(w, absentees[i]))
  {
    assert absentees[..i + 1][..i] == absentees[..i];
  }

  lemma {:induction false} TakeAbsenteesFails(start: Working, absentees: seq<OpenedValidator>, n: nat)
    requires n <= |absentees| && TakeAbsentees(start, absentees[..n]).None?
    ensures TakeAbsentees(start, absentees).None?
    decreases |absentees|
  {
    if n == |absentees| {
      assert absentees[..n] == absentees;
    } else {
      assert absentees[..|absentees| - 1][..n] == absentees[..n];
      TakeAbsenteesFails(start, absentees[..|absentees| - 1], n);
    }
  }

  method CheckPrimary(primary: seq<Attestation>) returns (ok: bool)
    ensures ok == OneUnnamedMessage(primary)
  {
    if primary == [] {
      return false;
    }
    for i := 0 to |primary|
      invariant forall a :: a in primary[..i] ==> a.signers == [] && a.data == primary[0].data
    {
      if primary[i].signers != [] || primary[i].data != primary[0].data {
        assert primary[i] in primary;
        return false;
      }
      assert primary[..i + 1] == primary[..i] + [primary[i]];
    }
    assert primary[..|primary|] == primary;
    ok := true;
  }

  method ReadSlot(run: Run, slot: SlotWitness, claim: Claim) returns (r: Option<Run>)
    ensures r == TakeSlot(run, slot, claim)
  {
    if (run.previous.Some? && slot.slot <= run.previous.value) || slot.slot >= MAX_SLOTS {
      return None;
    }
    var shaped := CheckPrimary(slot.primary);
    if !shaped {
      return None;
    }
    var counted := TakeAllSecondaries(OpenSlot(run, slot), slot.secondary, claim);
    if counted.None? {
      return None;
    }
    var present := TakeAllAbsentees(counted.value, slot.absentees);
    if present.None? || present.value.key.value.None? {
      return None;
    }
    var done := PushMessage(present.value, slot.primary, present.value.key.value.value, claim);
    if done.None? {
      return None;
    }
    r := Some(Run(
      WrappingAdd(run.balance, done.value.support), run.mask + {slot.slot}, Some(slot.slot), done.value.named,
      run.leaves + [Opened(Leaf(slot.committee.key, slot.committee.balance), slot.slot)], done.value.messages));
  }

  /** `verify_attestations` */
  method VerifyAttestations(slots: seq<SlotWitness>, at: Openings, claim: Claim, accDepth: nat)
    returns (r: Option<Attested>)
    ensures r == AttestedBy(slots, at, claim, accDepth)
  {
    var run := NOTHING_READ;
    for i := 0 to |slots|
      invariant TakeSlots(slots[..i], claim) == Some(run)
    {
      assert slots[..i + 1][..i] == slots[..i];
      var next := ReadSlot(run, slots[i], claim);
      if next.None? {
        TakeSlotsFails(slots, claim, i + 1);
        return None;
      }
      run := next.value;
    }
    assert slots[..|slots|] == slots;
    if run.named != [] {
      var root := BatchRoot(Compress, SortedByIndex(run.named), at.accAux, accDepth);
      if root != Some(at.accRoot) {
        return None;
      }
    } else if at.accAux != [] {
      return None;
    }
    var root := BatchRoot(Compress, run.leaves, at.committeeAux, TREE_DEPTH);
    if root != Some(at.committeeRoot) {
      return None;
    }
    var miller := ComputeMillerAccumulator(run.messages);
    if miller.None? {
      return None;
    }
    r := Some(Attested(run.balance, run.mask, miller.value));
  }

  lemma {:induction false} TakeSlotsFails(slots: seq<SlotWitness>, claim: Claim, n: nat)
    requires n <= |slots| && TakeSlots(slots[..n], claim).None?
    ensures TakeSlots(slots, claim).None?
    decreases |slots|
  {
    if n == |slots| {
      assert slots[..n] == slots;
    } else {
      assert slots[..|slots| - 1][..n] == slots[..n];
      TakeSlotsFails(slots[..|slots| - 1], claim, n);
    }
  }

  // ---- the two circuits ---------------------------------------------------------------------

  datatype SlotProofWitness = SlotProofWitness(
    accumulatorCommitment: Digest, committeeRoot: Digest, claim: Claim,
    accRoot: Digest, total: nat, slots: seq<SlotWitness>, accAux: seq<Digest>, committeeAux: seq<Digest>)

  datatype SlotOutput = SlotOutput(
    accumulatorCommitment: Digest, committeeRoot: Digest, link: Link, balance: UInt64, mask: set<nat>)

  datatype GroupOutput = GroupOutput(
    accumulatorCommitment: Digest, committeeRoot: Digest, link: Link, balance: UInt64, mask: set<nat>,
    millerCommitment: Digest)

  /** `attest` */
  function Attest(w: SlotProofWitness, accDepth: nat): Option<Attested>
  {
    if Commitment(w.accRoot, w.total) != w.accumulatorCommitment then None
    else AttestedBy(w.slots, Openings(w.accRoot, w.accAux, w.committeeRoot, w.committeeAux), w.claim, accDepth)
  }

  /** `verify_slot_proof`: the slots' own pairing is settled here. */
  function SlotOutputOf(w: SlotProofWitness, accDepth: nat): Option<SlotOutput>
  {
    var a :- Attest(w, accDepth);
    if !FinalExpIsOne(a.miller) then None
    else Some(SlotOutput(w.accumulatorCommitment, w.committeeRoot, w.claim.link, a.balance, a.mask))
  }

  /** `verify_group_proof`: the pairing is published half done. */
  function GroupOutputOf(w: SlotProofWitness, accDepth: nat): Option<GroupOutput>
  {
    var a :- Attest(w, accDepth);
    Some(GroupOutput(
      w.accumulatorCommitment, w.committeeRoot, w.claim.link, a.balance, a.mask, MillerDigest(a.miller)))
  }
}
