/** Cutting an epoch's slots into groups: each slot read after others gives what it gives alone,
    so a list of slots is worth the sum of its slots, however it is cut and ordered. */
module SlotCuts {
  import opened Wrappers
  import opened FormalSums
  import opened Ssz
  import opened Bls
  import opened Merkle
  import opened MultiProof
  import opened Accumulator
  import opened SlotProof
  import opened Folds
  import opened Splitting

  /** A slot and the claim it is read under. */
  datatype Marked = Marked(slot: SlotWitness, claim: Claim)

  // ---- one slot after others --------------------------------------------------------------------

  /** What a run holds once a later one is added to it. */
  function After(before: Run, later: Run): Run
  {
    Run(WrappingAdd(before.balance, later.balance), before.mask + later.mask,
        if later.previous.Some? then later.previous else before.previous,
        before.named + later.named, before.leaves + later.leaves, before.messages + later.messages)
  }

  function WorkingAfter(before: Run, w: Working): Working
  {
    w.(named := before.named + w.named, messages := before.messages + w.messages)
  }

  function SignersAfter(before: Run, s: Signers): Signers
  {
    Signers(WorkingAfter(before, s.work), s.keys)
  }

  function WorkingMaybe(before: Run, w: Option<Working>): Option<Working>
  {
    if w.None? then None else Some(WorkingAfter(before, w.value))
  }

  function SignersMaybe(before: Run, s: Option<Signers>): Option<Signers>
  {
    if s.None? then None else Some(SignersAfter(before, s.value))
  }

  lemma NamedShift(before: Run, w: Working, v: OpenedValidator, key: PointSum, support: UInt64)
    ensures WorkingAfter(before, w).(key := key, support := support, named := WorkingAfter(before, w).named + [NamedLeaf(v)])
         == WorkingAfter(before, w.(key := key, support := support, named := w.named + [NamedLeaf(v)]))
  {
    ConcatAssociates(before.named, w.named, [NamedLeaf(v)]);
  }

  lemma NameSignerShift(before: Run, s: Signers, v: OpenedValidator)
    ensures NameSigner(SignersAfter(before, s), v) == SignersMaybe(before, NameSigner(s, v))
  {
    var key := s.work.key.Sub(v.key);
    if key.Some? {
      NamedShift(before, s.work, v, key.value, s.work.support);
    }
  }

  lemma {:induction false} NameSignersShift(before: Run, start: Working, vs: seq<OpenedValidator>)
    ensures NameSigners(WorkingAfter(before, start), vs) == SignersMaybe(before, NameSigners(start, vs))
    decreases |vs|
  {
    if vs != [] {
      var front := vs[..|vs| - 1];
      NameSignersShift(before, start, front);
      if NameSigners(start, front).Some? {
        NameSignerShift(before, NameSigners(start, front).value, vs[|vs| - 1]);
      }
    }
  }

  lemma PushShift(before: Run, w: Working, aggregates: seq<Attestation>, key: Point, claim: Claim)
    requires aggregates != []
    ensures PushMessage(WorkingAfter(before, w), aggregates, key, claim)
         == WorkingMaybe(before, PushMessage(w, aggregates, key, claim))
  {
    var data := aggregates[0].data;
    var message := SignedMessage([key], SigningRoot(AttestationDataRoot(data), claim.domain), SignaturesOf(aggregates));
    ConcatAssociates(before.messages, w.messages, [message]);
  }

  lemma SecondaryShift(before: Run, w: Working, a: Attestation, claim: Claim)
    ensures TakeSecondary(WorkingAfter(before, w), a, claim) == WorkingMaybe(before, TakeSecondary(w, a, claim))
  {
    NameSignersShift(before, w, a.signers);
    var s := NameSigners(w, a.signers);
    if s.Some? && s.value.keys.value.Some? {
      PushShift(before, s.value.work, [a], s.value.keys.value.value, claim);
    }
  }

  lemma {:induction false} SecondariesShift(before: Run, start: Working, secondary: seq<Attestation>, claim: Claim)
    ensures TakeSecondaries(WorkingAfter(before, start), secondary, claim)
         == WorkingMaybe(before, TakeSecondaries(start, secondary, claim))
    decreases |secondary|
  {
    if secondary != [] {
      var front := secondary[..|secondary| - 1];
      SecondariesShift(before, start, front, claim);
      if TakeSecondaries(start, front, claim).Some? {
        SecondaryShift(before, TakeSecondaries(start, front, claim).value, secondary[|secondary| - 1], claim);
      }
    }
  }

  lemma AbsenteeShift(before: Run, w: Working, v: OpenedValidator)
    ensures TakeAbsentee(WorkingAfter(before, w), v) == WorkingMaybe(before, TakeAbsentee(w, v))
  {
    var key := w.key.Sub(v.key);
    if key.Some? && v.balance <= w.support {
      NamedShift(before, w, v, key.value, w.support - v.balance);
    }
  }

  lemma {:induction false} AbsenteesShift(before: Run, start: Working, absentees: seq<OpenedValidator>)
    ensures TakeAbsentees(WorkingAfter(before, start), absentees) == WorkingMaybe(before, TakeAbsentees(start, absentees))
    decreases |absentees|
  {
    if absentees != [] {
      var front := absentees[..|absentees| - 1];
      AbsenteesShift(before, start, front);
      if TakeAbsentees(start, front).Some? {
        AbsenteeShift(before, TakeAbsentees(start, front).value, absentees[|absentees| - 1]);
      }
    }
  }

  lemma RemainingShift(before: Run, start: Working, slot: SlotWitness, claim: Claim)
    ensures Remaining(WorkingAfter(before, start), slot, claim) == WorkingMaybe(before, Remaining(start, slot, claim))
  {
    SecondariesShift(before, start, slot.secondary, claim);
    var counted := TakeSecondaries(start, slot.secondary, claim);
    if counted.Some? {
      AbsenteesShift(before, counted.value, slot.absentees);
    }
  }

  lemma OpenAfter(before: Run, slot: SlotWitness)
    ensures OpenSlot(before, slot) == WorkingAfter(before, OpenSlot(NOTHING_READ, slot))
  {
    assert before.named + [] == before.named && before.messages + [] == before.messages;
  }

  // ---- balances stay words ------------------------------------------------------------------------

  lemma {:induction false} SignersKeepSupport(start: Working, vs: seq<OpenedValidator>)
    requires NameSigners(start, vs).Some?
    ensures NameSigners(start, vs).value.work.support == start.support
    decreases |vs|
  {
    if vs != [] {
      SignersKeepSupport(start, vs[..|vs| - 1]);
    }
  }

  lemma {:induction false} SecondariesKeepSupport(start: Working, secondary: seq<Attestation>, claim: Claim)
    requires TakeSecondaries(start, secondary, claim).Some?
    ensures TakeSecondaries(start, secondary, claim).value.support == start.support
    decreases |secondary|
  {
    if secondary != [] {
      var front, last := secondary[..|secondary| - 1], secondary[|secondary| - 1];
      SecondariesKeepSupport(start, front, claim);
      SignersKeepSupport(TakeSecondaries(start, front, claim).value, last.signers);
    }
  }

  lemma {:induction false} AbsenteesLowerSupport(start: Working, absentees: seq<OpenedValidator>)
    requires TakeAbsentees(start, absentees).Some?
    ensures TakeAbsentees(start, absentees).value.support <= start.support
    decreases |absentees|
  {
    if absentees != [] {
      AbsenteesLowerSupport(start, absentees[..|absentees| - 1]);
    }
  }

  lemma SupportWithin(start: Working, slot: SlotWitness, claim: Claim)
    requires Remaining(start, slot, claim).Some?
    ensures Remaining(start, slot, claim).value.support <= start.support
  {
    SecondariesKeepSupport(start, slot.secondary, claim);
    AbsenteesLowerSupport(TakeSecondaries(start, slot.secondary, claim).value, slot.absentees);
  }

  // ---- a slot alone -------------------------------------------------------------------------------

  /** A slot read by itself. */
  function ReadAlone(m: Marked): (r: Option<Run>)
    ensures r.Some? ==> r.value.balance < U64 && r.value.previous == Some(m.slot.slot) && r.value.mask == {m.slot.slot}
  {
    var r := TakeSlot(NOTHING_READ, m.slot, m.claim);
    if r.Some? then
      SupportWithin(OpenSlot(NOTHING_READ, m.slot), m.slot, m.claim);
      assert {} + {m.slot.slot} == {m.slot.slot};
      r
    else None
  }

  function AfterMaybe(before: Run, later: Option<Run>): Option<Run>
  {
    if later.None? then None else Some(After(before, later.value))
  }

  predicate Later(run: Run, m: Marked)
  {
    run.previous.Some? ==> run.previous.value < m.slot.slot
  }

  /** Reading a slot after others is reading it alone and adding, as long as slots increase. */
  lemma SlotIsAlone(run: Run, m: Marked)
    requires run.balance < U64
    ensures TakeSlot(run, m.slot, m.claim) == if Later(run, m) then AfterMaybe(run, ReadAlone(m)) else None
  {
    var open := OpenSlot(NOTHING_READ, m.slot);
    OpenAfter(run, m.slot);
    RemainingShift(run, open, m.slot, m.claim);
    var present := Remaining(open, m.slot, m.claim);
    if OneUnnamedMessage(m.slot.primary) && present.Some? && present.value.key.value.Some? {
      PushShift(run, present.value, m.slot.primary, present.value.key.value.value, m.claim);
      SupportWithin(open, m.slot, m.claim);
      var leaf := Opened(Leaf(m.slot.committee.key, m.slot.committee.balance), m.slot.slot);
      assert NOTHING_READ.leaves + [leaf] == [leaf];
    }
  }

  // ---- a list of slots ------------------------------------------------------------------------------

  /** Slots strictly increase. */
  predicate Rising(ms: seq<Marked>)
  {
    forall i, j :: 0 <= i < j < |ms| ==> ms[i].slot.slot < ms[j].slot.slot
  }

  predicate AllAlone(ms: seq<Marked>)
  {
    forall m :: m in ms ==> ReadAlone(m).Some?
  }

  function AloneRun(m: Marked): (r: Run)
    ensures r.balance < U64
  {
    if ReadAlone(m).Some? then ReadAlone(m).value else NOTHING_READ
  }

  /** Slots read one by one and added. */
  function Together(ms: seq<Marked>): (r: Run)
    ensures r.balance < U64
    decreases |ms|
  {
    if ms == [] then NOTHING_READ else After(Together(ms[..|ms| - 1]), AloneRun(ms[|ms| - 1]))
  }

  /** A list of slots read in order, each under its own claim. */
  function TakeAllMarked(ms: seq<Marked>): Option<Run>
    decreases |ms|
  {
    if ms == [] then Some(NOTHING_READ)
    else
      var last := ms[|ms| - 1];
      var run :- TakeAllMarked(ms[..|ms| - 1]);
      TakeSlot(run, last.slot, last.claim)
  }

  function Marks(slots: seq<SlotWitness>, claim: Claim): (ms: seq<Marked>)
    ensures |ms| == |slots| && forall i :: 0 <= i < |ms| ==> ms[i] == Marked(slots[i], claim)
  {
    seq(|slots|, (i: nat) requires i < |slots| => Marked(slots[i], claim))
  }

  lemma {:induction false} MarksRead(slots: seq<SlotWitness>, claim: Claim)
    ensures TakeAllMarked(Marks(slots, claim)) == TakeSlots(slots, claim)
    decreases |slots|
  {
    if slots != [] {
      var front := slots[..|slots| - 1];
      MarksRead(front, claim);
      assert Marks(slots, claim)[..|slots| - 1] == Marks(front, claim);
    }
  }

  lemma {:induction false} TogetherPrevious(ms: seq<Marked>)
    requires AllAlone(ms)
    ensures Together(ms).previous == if ms == [] then None else Some(ms[|ms| - 1].slot.slot)
    decreases |ms|
  {
    if ms != [] {
      assert ms[|ms| - 1] in ms;
    }
  }

  lemma AloneSplits(ms: seq<Marked>)
    requires ms != []
    ensures AllAlone(ms) <==> AllAlone(ms[..|ms| - 1]) && ReadAlone(ms[|ms| - 1]).Some?
  {
    PrefixGrows(ms, |ms| - 1);
    if AllAlone(ms[..|ms| - 1]) && ReadAlone(ms[|ms| - 1]).Some? {
      forall m | m in ms ensures ReadAlone(m).Some? {
        assert m in ms[..|ms| - 1] || m == ms[|ms| - 1];
      }
    }
  }

  lemma RisingSplits(ms: seq<Marked>, run: Run)
    requires ms != []
    requires run.previous == if |ms| == 1 then None else Some(ms[|ms| - 2].slot.slot)
    ensures Rising(ms) <==> Rising(ms[..|ms| - 1]) && Later(run, ms[|ms| - 1])
  {
    var n := |ms| - 1;
    if Rising(ms[..n]) && Later(run, ms[n]) {
      forall i, j | 0 <= i < j < |ms| ensures ms[i].slot.slot < ms[j].slot.slot {
        assert ms[i] == ms[..n][i];
        assert j < n ==> ms[..n][i].slot.slot < ms[..n][j].slot.slot;
        assert i < n - 1 ==> ms[..n][i].slot.slot < ms[..n][n - 1].slot.slot;
      }
    }
  }

  /** A list reads exactly when its slots increase and each reads alone, and then it reads as
      their sum. */
  lemma {:induction false} ReadIsTogether(ms: seq<Marked>)
    ensures TakeAllMarked(ms) == if Rising(ms) && AllAlone(ms) then Some(Together(ms)) else None
    decreases |ms|
  {
    if ms != [] {
      var n := |ms| - 1;
      ReadIsTogether(ms[..n]);
      AloneSplits(ms);
      if AllAlone(ms[..n]) {
        TogetherPrevious(ms[..n]);
        RisingSplits(ms, Together(ms[..n]));
        SlotIsAlone(Together(ms[..n]), ms[n]);
      }
    }
  }

  lemma WrappingAssociates(a: nat, b: nat, c: nat)
    requires a < U64 && b < U64 && c < U64
    ensures WrappingAdd(WrappingAdd(a, b), c) == WrappingAdd(a, WrappingAdd(b, c)) < U64
  {
  }

  lemma AfterAssociates(a: Run, b: Run, c: Run)
    requires a.balance < U64 && b.balance < U64 && c.balance < U64
    ensures After(After(a, b), c) == After(a, After(b, c))
  {
    WrappingAssociates(a.balance, b.balance, c.balance);
    ConcatAssociates(a.named, b.named, c.named);
    ConcatAssociates(a.leaves, b.leaves, c.leaves);
    ConcatAssociates(a.messages, b.messages, c.messages);
    assert (a.mask + b.mask) + c.mask == a.mask + (b.mask + c.mask);
  }

  lemma AfterNothing(run: Run)
    requires run.balance < U64
    ensures After(run, NOTHING_READ) == run
  {
    assert run.mask + {} == run.mask;
    assert run.named + [] == run.named && run.leaves + [] == run.leaves && run.messages + [] == run.messages;
  }

  lemma {:induction false} TogetherConcat(a: seq<Marked>, b: seq<Marked>)
    ensures Together(a + b) == After(Together(a), Together(b))
    decreases |b|
  {
    if b == [] {
      assert a + b == a;
      AfterNothing(Together(a));
    } else {
      var n := |b| - 1;
      TogetherConcat(a, b[..n]);
      ConcatLast(a, b);
      AfterAssociates(Together(a), Together(b[..n]), AloneRun(b[n]));
    }
  }

  // ---- what a list is worth, in any order -------------------------------------------------------------

  /** What counting takes from a run. */
  datatype Tally = Tally(balance: nat, mask: set<nat>, gathered: Option<Gathered>)

  function TallyOf(run: Run): Tally
  {
    Tally(run.balance, run.mask, Gather(run.messages))
  }

  function StepTally(t: Tally, m: Marked): Tally
  {
    var run := AloneRun(m);
    Tally(WrappingAdd(t.balance, run.balance), t.mask + run.mask, GatherFrom(t.gathered, run.messages))
  }

  function TallyAll(ms: seq<Marked>): Tally
  {
    FoldAll(StepTally, TallyOf(NOTHING_READ), ms)
  }

  lemma GatherOn(a: seq<SignedMessage>, b: seq<SignedMessage>)
    ensures Gather(a + b) == GatherFrom(Gather(a), b)
  {
    GatherIsFold(a + b);
    GatherIsFold(a);
    FoldConcat(StepGather, Some(NOTHING_GATHERED), a, b);
  }

  lemma {:induction false} TallyIsTogether(ms: seq<Marked>)
    ensures TallyOf(Together(ms)) == TallyAll(ms)
    decreases |ms|
  {
    if ms != [] {
      var n := |ms| - 1;
      TallyIsTogether(ms[..n]);
      GatherOn(Together(ms[..n]).messages, AloneRun(ms[n]).messages);
    }
  }

  lemma GatherSwaps(g: Option<Gathered>, a: seq<SignedMessage>, b: seq<SignedMessage>)
    ensures GatherFrom(GatherFrom(g, a), b) == GatherFrom(GatherFrom(g, b), a)
  {
    FoldConcat(StepGather, g, a, b);
    FoldConcat(StepGather, g, b, a);
    GatherFromPermutes(g, a + b, b + a);
  }

  lemma WrappingSwaps(a: nat, b: nat, c: nat)
    requires b < U64 && c < U64
    ensures WrappingAdd(WrappingAdd(a, b), c) == WrappingAdd(WrappingAdd(a, c), b)
  {
  }

  lemma StepTallySwaps()
    ensures Swaps(StepTally)
  {
    forall t: Tally, m: Marked, n: Marked ensures StepTally(StepTally(t, m), n) == StepTally(StepTally(t, n), m) {
      var a, b := AloneRun(m), AloneRun(n);
      WrappingSwaps(t.balance, a.balance, b.balance);
      GatherSwaps(t.gathered, a.messages, b.messages);
      assert t.mask + a.mask + b.mask == t.mask + b.mask + a.mask;
    }
  }

  /** The order of slots changes neither the balance, nor the mask, nor what is gathered. */
  lemma TallyPermutes(a: seq<Marked>, b: seq<Marked>)
    requires multiset(a) == multiset(b)
    ensures TallyOf(Together(a)) == TallyOf(Together(b))
  {
    TallyIsTogether(a);
    TallyIsTogether(b);
    StepTallySwaps();
    FoldPermutes(StepTally, TallyOf(NOTHING_READ), a, b);
  }

  lemma AlonePermutes(a: seq<Marked>, b: seq<Marked>)
    requires multiset(a) == multiset(b)
    ensures AllAlone(a) <==> AllAlone(b)
  {
    forall m ensures m in a <==> m in b {
      SameElements(a, b, m);
    }
  }

  // ---- slots counted once -----------------------------------------------------------------------------

  /** No slot twice: as many slots as slot witnesses. */
  predicate CountedOnce(ms: seq<Marked>)
  {
    |Together(ms).mask| == |ms|
  }

  lemma UnionSize(a: set<nat>, b: set<nat>)
    ensures |a + b| <= |a| + |b|
    ensures |a + b| == |a| + |b| <==> a * b == {}
  {
    assert |a + b| == |a| + |b| - |a * b|;
  }

  lemma {:induction false} MaskWithin(ms: seq<Marked>)
    ensures |Together(ms).mask| <= |ms|
    decreases |ms|
  {
    if ms != [] {
      MaskWithin(ms[..|ms| - 1]);
      UnionSize(Together(ms[..|ms| - 1]).mask, AloneRun(ms[|ms| - 1]).mask);
    }
  }

  lemma OnceSplits(a: seq<Marked>, b: seq<Marked>)
    ensures CountedOnce(a + b)
        <==> CountedOnce(a) && CountedOnce(b) && Together(a).mask * Together(b).mask == {}
  {
    TogetherConcat(a, b);
    MaskWithin(a);
    MaskWithin(b);
    UnionSize(Together(a).mask, Together(b).mask);
  }

  lemma {:induction false} MaskBelow(ms: seq<Marked>, x: nat)
    requires AllAlone(ms) && Rising(ms)
    ensures x in Together(ms).mask ==> ms != [] && x <= ms[|ms| - 1].slot.slot
    decreases |ms|
  {
    if ms != [] {
      var n := |ms| - 1;
      AloneSplits(ms);
      MaskBelow(ms[..n], x);
      assert n > 0 ==> ms[n - 1].slot.slot < ms[n].slot.slot;
    }
  }

  lemma {:induction false} RisingOnce(ms: seq<Marked>)
    requires AllAlone(ms) && Rising(ms)
    ensures CountedOnce(ms)
    decreases |ms|
  {
    if ms != [] {
      var n := |ms| - 1;
      AloneSplits(ms);
      RisingOnce(ms[..n]);
      MaskBelow(ms[..n], ms[n].slot.slot);
      assert n > 0 ==> ms[n - 1].slot.slot < ms[n].slot.slot;
      UnionSize(Together(ms[..n]).mask, {ms[n].slot.slot});
    }
  }

  /** Where `m` belongs among rising slots. */
  function Placed(m: Marked, ms: seq<Marked>): (r: seq<Marked>)
    ensures multiset(r) == multiset(ms) + multiset{m}
  {
    if ms == [] || m.slot.slot < ms[0].slot.slot then [m] + ms
    else
      assert ms == [ms[0]] + ms[1..];
      [ms[0]] + Placed(m, ms[1..])
  }

  lemma RisingTail(ms: seq<Marked>)
    requires Rising(ms) && ms != []
    ensures Rising(ms[1..]) && forall m :: m in ms[1..] ==> ms[0].slot.slot < m.slot.slot
  {
  }

  lemma RisingCons(m: Marked, ms: seq<Marked>)
    requires Rising(ms) && forall n :: n in ms ==> m.slot.slot < n.slot.slot
    ensures Rising([m] + ms)
  {
  }

  lemma PlacedHolds(m: Marked, ms: seq<Marked>, n: Marked)
    requires n in Placed(m, ms)
    ensures n == m || n in ms
  {
    assert n in multiset(Placed(m, ms));
  }

  lemma {:induction false} PlacedRises(m: Marked, ms: seq<Marked>)
    requires Rising(ms) && forall n :: n in ms ==> n.slot.slot != m.slot.slot
    ensures Rising(Placed(m, ms))
    decreases |ms|
  {
    if ms == [] {
      RisingCons(m, ms);
    } else {
      RisingTail(ms);
      if m.slot.slot < ms[0].slot.slot {
        assert ms == [ms[0]] + ms[1..];
        RisingCons(m, ms);
      } else {
        assert ms[0] in ms;
        PlacedRises(m, ms[1..]);
        forall n | n in Placed(m, ms[1..]) ensures ms[0].slot.slot < n.slot.slot {
          PlacedHolds(m, ms[1..], n);
        }
        RisingCons(ms[0], Placed(m, ms[1..]));
      }
    }
  }

  lemma {:induction false} MaskHolds(ms: seq<Marked>, m: Marked)
    requires AllAlone(ms) && m in ms
    ensures m.slot.slot in Together(ms).mask
    decreases |ms|
  {
    var n := |ms| - 1;
    PrefixGrows(ms, n);
    assert ms[n] in ms;
    if m in ms[..n] {
      AloneSplits(ms);
      MaskHolds(ms[..n], m);
    }
  }

  /** Slots counted once have an order in which they rise. */
  lemma {:induction false} Arranged(ms: seq<Marked>) returns (all: seq<Marked>)
    requires AllAlone(ms) && CountedOnce(ms)
    ensures multiset(all) == multiset(ms) && Rising(all)
    decreases |ms|
  {
    if ms == [] {
      all := [];
    } else {
      var n := |ms| - 1;
      var front := ms[..n];
      PrefixGrows(ms, n);
      AloneSplits(ms);
      OnceSplits(front, [ms[n]]);
      all := Arranged(front);
      assert Together([ms[n]]).mask == {ms[n].slot.slot} by {
        assert [ms[n]][..0] == [] && {} + {ms[n].slot.slot} == {ms[n].slot.slot};
      }
      forall m | m in all ensures m.slot.slot != ms[n].slot.slot {
        SameElements(all, front, m);
        MaskHolds(front, m);
      }
      PlacedRises(ms[n], all);
      all := Placed(ms[n], all);
    }
  }

  // ---- any cut ------------------------------------------------------------------------------------------

  /** Groups read one by one and added, as the folds add them: no slot may be counted twice. */
  function ReadParts(parts: seq<seq<SlotWitness>>, claim: Claim): Option<Run>
    decreases |parts|
  {
    if parts == [] then Some(NOTHING_READ)
    else
      var before :- ReadParts(parts[..|parts| - 1], claim);
      var later :- TakeSlots(parts[|parts| - 1], claim);
      if before.mask * later.mask != {} then None else Some(After(before, later))
  }

  /** The messages each group pairs. */
  function MessagesOf(parts: seq<seq<SlotWitness>>, claim: Claim): seq<seq<SignedMessage>>
    decreases |parts|
  {
    if parts == [] then []
    else MessagesOf(parts[..|parts| - 1], claim) + [Together(Marks(parts[|parts| - 1], claim)).messages]
  }

  predicate Increasing(slots: seq<SlotWitness>)
  {
    forall i, j :: 0 <= i < j < |slots| ==> slots[i].slot < slots[j].slot
  }

  predicate AllIncreasing(parts: seq<seq<SlotWitness>>)
  {
    forall p :: p in parts ==> Increasing(p)
  }

  lemma IncreasingIsRising(slots: seq<SlotWitness>, claim: Claim)
    ensures Rising(Marks(slots, claim)) <==> Increasing(slots)
  {
    if Rising(Marks(slots, claim)) {
      forall i, j | 0 <= i < j < |slots| ensures slots[i].slot < slots[j].slot {
        assert Marks(slots, claim)[i].slot.slot < Marks(slots, claim)[j].slot.slot;
      }
    }
  }

  lemma TakeIsTogether(slots: seq<SlotWitness>, claim: Claim)
    ensures TakeSlots(slots, claim)
         == if Increasing(slots) && AllAlone(Marks(slots, claim)) then Some(Together(Marks(slots, claim))) else None
  {
    MarksRead(slots, claim);
    IncreasingIsRising(slots, claim);
    ReadIsTogether(Marks(slots, claim));
  }

  lemma MarksConcat(a: seq<SlotWitness>, b: seq<SlotWitness>, claim: Claim)
    ensures Marks(a + b, claim) == Marks(a, claim) + Marks(b, claim)
  {
  }

  lemma AloneConcat(a: seq<Marked>, b: seq<Marked>)
    ensures AllAlone(a + b) <==> AllAlone(a) && AllAlone(b)
  {
    if AllAlone(a + b) {
      forall m | m in a ensures ReadAlone(m).Some? {
        assert m in a + b;
      }
      forall m | m in b ensures ReadAlone(m).Some? {
        assert m in a + b;
      }
    }
  }

  /** Every slot of the parts, under one claim. */
  function AllMarks(parts: seq<seq<SlotWitness>>, claim: Claim): seq<Marked>
  {
    Marks(Flatten(parts), claim)
  }

  predicate Readable(parts: seq<seq<SlotWitness>>, claim: Claim)
  {
    AllIncreasing(parts) && AllAlone(AllMarks(parts, claim)) && CountedOnce(AllMarks(parts, claim))
  }

  lemma ReadableSplits(parts: seq<seq<SlotWitness>>, claim: Claim)
    requires parts != []
    ensures
      var front, last := parts[..|parts| - 1], Marks(parts[|parts| - 1], claim);
      && AllMarks(parts, claim) == AllMarks(front, claim) + last
      && (Readable(parts, claim)
          <==> Readable(front, claim) && Increasing(parts[|parts| - 1]) && AllAlone(last) && CountedOnce(last)
               && Together(AllMarks(front, claim)).mask * Together(last).mask == {})
  {
    var n := |parts| - 1;
    PrefixGrows(parts, n);
    MarksConcat(Flatten(parts[..n]), parts[n], claim);
    AloneConcat(AllMarks(parts[..n], claim), Marks(parts[n], claim));
    OnceSplits(AllMarks(parts[..n], claim), Marks(parts[n], claim));
    if AllIncreasing(parts[..n]) && Increasing(parts[n]) {
      forall p | p in parts ensures Increasing(p) {
        assert p in parts[..n] || p == parts[n];
      }
    }
  }

  lemma {:induction false} PartsAreTogether(parts: seq<seq<SlotWitness>>, claim: Claim)
    ensures ReadParts(parts, claim) == if Readable(parts, claim) then Some(Together(AllMarks(parts, claim))) else None
    decreases |parts|
  {
    if parts != [] {
      var front, last := parts[..|parts| - 1], parts[|parts| - 1];
      PartsAreTogether(front, claim);
      TakeIsTogether(last, claim);
      ReadableSplits(parts, claim);
      TogetherConcat(AllMarks(front, claim), Marks(last, claim));
      if Increasing(last) && AllAlone(Marks(last, claim)) {
        IncreasingIsRising(last, claim);
        RisingOnce(Marks(last, claim));
      }
    }
  }

  lemma {:induction false} PartsMessages(parts: seq<seq<SlotWitness>>, claim: Claim)
    ensures Together(AllMarks(parts, claim)).messages == Flatten(MessagesOf(parts, claim))
    decreases |parts|
  {
    if parts != [] {
      var front, last := parts[..|parts| - 1], parts[|parts| - 1];
      PartsMessages(front, claim);
      MarksConcat(Flatten(front), last, claim);
      TogetherConcat(AllMarks(front, claim), Marks(last, claim));
      FlattenAppends(MessagesOf(front, claim), Together(Marks(last, claim)).messages);
    }
  }

  lemma {:induction false} MarksCount(slots: seq<SlotWitness>, claim: Claim, m: Marked)
    ensures multiset(Marks(slots, claim))[m] == if m.claim == claim then multiset(slots)[m.slot] else 0
    decreases |slots|
  {
    if slots != [] {
      var n := |slots| - 1;
      MarksCount(slots[..n], claim, m);
      PrefixGrows(slots, n);
      MarksConcat(slots[..n], [slots[n]], claim);
      assert Marks([slots[n]], claim) == [Marked(slots[n], claim)];
    }
  }

  lemma MarksPermute(a: seq<SlotWitness>, b: seq<SlotWitness>, claim: Claim)
    requires multiset(a) == multiset(b)
    ensures multiset(Marks(a, claim)) == multiset(Marks(b, claim))
  {
    forall m ensures multiset(Marks(a, claim))[m] == multiset(Marks(b, claim))[m] {
      MarksCount(a, claim, m);
      MarksCount(b, claim, m);
    }
  }

  lemma OncePermutes(a: seq<Marked>, b: seq<Marked>)
    requires multiset(a) == multiset(b)
    ensures CountedOnce(a) <==> CountedOnce(b)
  {
    TallyPermutes(a, b);
    assert TallyOf(Together(a)).mask == TallyOf(Together(b)).mask;
    assert |a| == |multiset(a)| == |multiset(b)| == |b|;
  }

  /** Cutting an epoch into groups changes nothing. For every way to share increasing slots out
      among groups, interleaved or not and in whatever order they are folded: the slots are read
      at once exactly when the groups are, where each group's own slots increase; the balance,
      the mask and what is gathered are the same; and where each group has its accumulator, the
      one of all slots, defined when nothing cancels, is the groups' product. */
  lemma CutChangesNothing(parts: seq<seq<SlotWitness>>, all: seq<SlotWitness>, claim: Claim)
    requires multiset(all) == multiset(Flatten(parts)) && Increasing(all)
    ensures ReadParts(parts, claim).Some? <==> TakeSlots(all, claim).Some? && AllIncreasing(parts)
    ensures ReadParts(parts, claim).Some? ==>
      var once, cut := TakeSlots(all, claim).value, ReadParts(parts, claim).value;
      && once.balance == cut.balance && once.mask == cut.mask
      && Gather(once.messages) == Gather(cut.messages)
      && (ProductOf(MessagesOf(parts, claim)).Some? ==>
            MillerAccumulator(once.messages) == AtOnce(once.messages, ProductOf(MessagesOf(parts, claim)).value))
  {
    PartsAreTogether(parts, claim);
    TakeIsTogether(all, claim);
    MarksPermute(all, Flatten(parts), claim);
    AlonePermutes(Marks(all, claim), AllMarks(parts, claim));
    OncePermutes(Marks(all, claim), AllMarks(parts, claim));
    TallyPermutes(Marks(all, claim), AllMarks(parts, claim));
    if AllAlone(Marks(all, claim)) {
      IncreasingIsRising(all, claim);
      RisingOnce(Marks(all, claim));
    }
    if ReadParts(parts, claim).Some? && ProductOf(MessagesOf(parts, claim)).Some? {
      PartsMessages(parts, claim);
      ProductGathers(MessagesOf(parts, claim));
      AccumulatesAtOnce(TakeSlots(all, claim).value.messages, ProductOf(MessagesOf(parts, claim)).value);
    }
  }

  /** Groups that are read share out slots that do increase in some order. */
  lemma ReadPartsIncrease(parts: seq<seq<SlotWitness>>, claim: Claim) returns (all: seq<SlotWitness>)
    requires ReadParts(parts, claim).Some?
    ensures multiset(all) == multiset(Flatten(parts)) && Increasing(all)
  {
    PartsAreTogether(parts, claim);
    var marks := Arranged(AllMarks(parts, claim));
    all := SlotsOf(marks);
    forall m | m in marks ensures m.claim == claim {
      SameElements(marks, AllMarks(parts, claim), m);
    }
    assert Marks(all, claim) == marks;
    IncreasingIsRising(all, claim);
    forall s ensures multiset(all)[s] == multiset(Flatten(parts))[s] {
      MarksCount(all, claim, Marked(s, claim));
      MarksCount(Flatten(parts), claim, Marked(s, claim));
    }
  }

  function SlotsOf(ms: seq<Marked>): (slots: seq<SlotWitness>)
    ensures |slots| == |ms| && forall i :: 0 <= i < |ms| ==> slots[i] == ms[i].slot
  {
    seq(|ms|, (i: nat) requires i < |ms| => ms[i].slot)
  }
}
