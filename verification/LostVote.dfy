/** A validator the collector has heard and leaves out: two network aggregates of one committee
    that overlap, of which packing can take only the first. */
module LostVote {
  import opened Wrappers
  import opened FormalSums
  import opened Ssz
  import opened Bls
  import opened UnitSums
  import opened SlotProof
  import opened Folds
  import opened Splitting
  import opened Merkle
  import opened Bitfields
  import opened Collector
  import opened Packing
  import opened SlotStream
  import Bytes

  /** A network aggregate of one committee, signed by the members whose bits are set. */
  function Aggregated(d: AttestationData, bits: seq<Bytes.Byte>, signers: set<nat>, t: Target): Response
  {
    Response(d, None, [], bits, Compressed(SignedBy(signers, t.RootOf(d))))
  }

  function Filed(d: AttestationData, signers: set<nat>, t: Target): Aggregate
  {
    Aggregate(d, SignedBy(signers, t.RootOf(d)), signers)
  }

  /** The committee of a message is validators 1, 2 and 3. */
  predicate SeatsOneTwoThree(d: AttestationData, t: Target)
  {
    && d.link == t.link && (d.slot, d.index) in t.committees.table
    && t.committees.table[(d.slot, d.index)] == [1, 2, 3]
  }

  lemma CompressedReads(signers: set<nat>, root: Bytes32)
    ensures Decompressed(Compressed(SignedBy(signers, root))) == Some(SignedBy(signers, root))
  {
  }

  lemma AttestingOf(byte: Bytes.Byte)
    ensures byte == 3 ==> ToSet(Attesting([1, 2, 3], [byte], 0)) == {1, 2}
    ensures byte == 6 ==> ToSet(Attesting([1, 2, 3], [byte], 0)) == {2, 3}
  {
    assert High(byte, 0) == byte && High(byte, 1) == byte / 2 && High(byte, 2) == High(byte / 2, 1) == byte / 2 / 2;
    assert [1, 2, 3][..2] == [1, 2] && [1, 2][..1] == [1] && [1][..0] == [];
    assert Attesting([], [byte], 0) == [];
    assert Attesting([1], [byte], 0) == if GetBit([byte], 0) then [] + [1] else [];
    assert Attesting([1, 2], [byte], 0)
        == Attesting([1], [byte], 0) + if GetBit([byte], 1) then [2] else [];
  }

  /** One network aggregate of the committee is filed with its signers. */
  lemma AggregateFiled(st: State, d: AttestationData, bits: seq<Bytes.Byte>, signers: set<nat>, t: Target)
    requires SeatsOneTwoThree(d, t) && d.slot !in st.closed && signers != {}
    requires ToSet(Attesting([1, 2, 3], bits, 0)) == signers
    ensures Honest(Aggregated(d, bits, signers, t), t)
    ensures IngestOne(st, Aggregated(d, bits, signers, t), t)
         == Fed(st.(pending := st.pending[d.slot := PendingAt(st, d.slot) + [Filed(d, signers, t)]]), true)
  {
    CompressedReads(signers, t.RootOf(d));
    var resolved := Attesting([1, 2, 3], bits, 0);
    assert Resolve(Aggregated(d, bits, signers, t), t.committees) == Some(resolved);
    ResolvedIsHonest(Aggregated(d, bits, signers, t), t);
    assert resolved != [];
  }

  /** Validators 1 and 2 in one aggregate, 2 and 3 in the next. */
  function First(d: AttestationData, t: Target): Response
  {
    Aggregated(d, [3], {1, 2}, t)
  }

  function Second(d: AttestationData, t: Target): Response
  {
    Aggregated(d, [6], {2, 3}, t)
  }

  function Held(d: AttestationData, aggregates: seq<Aggregate>): State
  {
    State(map[d.slot := aggregates], map[], {})
  }

  function BothFiled(d: AttestationData, t: Target): seq<Aggregate>
  {
    [Filed(d, {1, 2}, t)] + [Filed(d, {2, 3}, t)]
  }

  lemma FirstIngested(d: AttestationData, t: Target)
    requires SeatsOneTwoThree(d, t)
    ensures Honest(First(d, t), t)
    ensures IngestOne(NOTHING_HELD, First(d, t), t) == Fed(Held(d, [Filed(d, {1, 2}, t)]), true)
  {
    AttestingOf(3);
    assert ToSet(Attesting([1, 2, 3], [3], 0)) == {1, 2};
    AggregateFiled(NOTHING_HELD, d, [3], {1, 2}, t);
    assert [] + [Filed(d, {1, 2}, t)] == [Filed(d, {1, 2}, t)];
  }

  lemma SecondIngested(d: AttestationData, t: Target)
    requires SeatsOneTwoThree(d, t)
    ensures Honest(Second(d, t), t)
    ensures IngestOne(Held(d, [Filed(d, {1, 2}, t)]), Second(d, t), t) == Fed(Held(d, BothFiled(d, t)), true)
  {
    AttestingOf(6);
    assert ToSet(Attesting([1, 2, 3], [6], 0)) == {2, 3};
    AggregateFiled(Held(d, [Filed(d, {1, 2}, t)]), d, [6], {2, 3}, t);
    MapTwice(d.slot, [Filed(d, {1, 2}, t)], BothFiled(d, t));
  }

  lemma MapTwice<K, V>(k: K, v: V, w: V)
    ensures map[k := v][k := w] == map[k := w]
  {
  }

  lemma IngestedTwo(st: State, first: Response, second: Response, t: Target)
    requires IngestOne(st, first, t).ok
    ensures Ingested(st, [first] + [second], t) == IngestOne(IngestOne(st, first, t).state, second, t)
  {
    assert ([first] + [second])[..1] == [first] && [first][..0] == [];
    assert Ingested(st, [], t) == Fed(st, true);
    assert Ingested(st, [first], t) == IngestOne(st, first, t);
  }

  lemma BothIngested(d: AttestationData, t: Target)
    requires SeatsOneTwoThree(d, t)
    ensures AllHonest([First(d, t)] + [Second(d, t)], t)
    ensures Ingested(NOTHING_HELD, [First(d, t)] + [Second(d, t)], t).state == Held(d, BothFiled(d, t))
  {
    FirstIngested(d, t);
    SecondIngested(d, t);
    IngestedTwo(NOTHING_HELD, First(d, t), Second(d, t), t);
  }

  /** Of two aggregates of one size the first to arrive is packed, and the second refused if it
      overlaps. */
  lemma FirstIsPacked(a: Aggregate, b: Aggregate)
    requires a.data == b.data && |a.signers| == |b.signers| && Overlap(a.signers, b.signers)
    ensures PackOf(SortedBySize([a] + [b])) == [a]
  {
    assert ([a] + [b])[..1] == [a] && [a][..0] == [];
    assert SortedBySize([]) == [] && SortedBySize([a]) == [a];
    assert [a][1..] == [] && InsertedBySize([], b) == [b];
    assert SortedBySize([a] + [b]) == [a] + [b];
    Appended([], a, a.data);
    assert [] + [a] == [a] && !Overlap({}, a.signers);
    assert PackOf([]) == [] && PackOf([a]) == [a];
    assert Cover([a], a.data) == {} + a.signers == a.signers;
  }

  lemma BothPacked(d: AttestationData, t: Target)
    ensures PackedAt(Held(d, BothFiled(d, t)), d.slot) == [Filed(d, {1, 2}, t)]
  {
    assert 2 in {1, 2} && 2 in {2, 3};
    FirstIsPacked(Filed(d, {1, 2}, t), Filed(d, {2, 3}, t));
  }

  lemma CoverOfOne(a: Aggregate, e: AttestationData)
    ensures Cover([a], e) == if a.data == e then a.signers else {}
  {
    assert [a][..0] == [];
    assert {} + a.signers == a.signers;
  }

  lemma OnlyOneMessage(d: AttestationData, t: Target, e: AttestationData, v: nat)
    ensures HeardFor(Held(d, BothFiled(d, t)), e, v) ==> e == d
  {
    var st := Held(d, BothFiled(d, t));
    if HeardFor(st, e, v) {
      var a := CoverFrom(PendingAt(st, e.slot), e, v);
    }
  }

  lemma OnlyTwoCovered(d: AttestationData, t: Target, e: AttestationData, v: nat)
    ensures CoveredFor(Held(d, BothFiled(d, t)), e, v) <==> e == d && v in {1, 2}
  {
    var st := Held(d, BothFiled(d, t));
    BothPacked(d, t);
    CoverOfOne(Filed(d, {1, 2}, t), d);
    if CoveredFor(st, e, v) {
      CoveredIsHeard(st, e, v);
      OnlyOneMessage(d, t, e, v);
    }
  }

  /** Everyone heard is not everyone covered: after these two honest aggregates validator 3 is
      heard, and what `peek` covers is validators 1 and 2. */
  lemma HeardAndNotCovered(d: AttestationData, t: Target)
    requires SeatsOneTwoThree(d, t)
    ensures AllHonest([First(d, t)] + [Second(d, t)], t)
    ensures
      var st := Ingested(NOTHING_HELD, [First(d, t)] + [Second(d, t)], t).state;
      && Inv(st, t) && OneMessageEach(st, d.slot) && HeardFor(st, d, 3)
      && forall r, cover :: Sound(r, cover, st, d.slot, t) ==> cover == {1, 2}
  {
    var st := Held(d, BothFiled(d, t));
    BothIngested(d, t);
    EmptyIsInv(t);
    IngestKeepsInv(NOTHING_HELD, [First(d, t)] + [Second(d, t)], t);
    CoverHas(BothFiled(d, t), Filed(d, {2, 3}, t));
    forall e: AttestationData, v: nat ensures HeardFor(st, e, v) ==> e == d {
      OnlyOneMessage(d, t, e, v);
    }
    forall r, cover | Sound(r, cover, st, d.slot, t) ensures cover == {1, 2} {
      SoundCoversTwo(r, cover, d, t);
    }
  }

  lemma SoundCoversTwo(r: SlotComplement, cover: set<nat>, d: AttestationData, t: Target)
    requires Sound(r, cover, Held(d, BothFiled(d, t)), d.slot, t)
    ensures cover == {1, 2}
  {
    hide WellFormed, NamedOk, LargestCover, NamesEach;
    var e := r.complement.primary[0].data;
    forall v: nat ensures CoveredFor(Held(d, BothFiled(d, t)), e, v) <==> e == d && v in {1, 2} {
      OnlyTwoCovered(d, t, e, v);
    }
  }

  // ---- a stream that loses one ----------------------------------------------------------------------

  /** Three validators of balance 1. */
  function Three(): map<nat, OpenedValidator>
  {
    map v: nat | v in {1, 2, 3} :: OpenedValidator(v, Unit<nat>(v), 1)
  }

  function ThreeSeats(d: AttestationData): Committees
  {
    Committees(map[(d.slot, d.index) := [1, 2, 3]], [[1, 2, 3]], [Some(CommitteeAggregate(KeyOf({1, 2, 3}), 3))], Three())
  }

  /** Epochs of one slot, whose one committee they are. */
  function OneSlotTarget(d: AttestationData, domain: Bytes32): Target
  {
    Target(d.link, domain, 1, ThreeSeats(d))
  }

  lemma ThreeBalances(d: AttestationData)
    ensures BalanceSum([1, 2, 3], ThreeSeats(d)) == 3
  {
    var c := ThreeSeats(d);
    assert [1, 2, 3][..2] == [1, 2] && [1, 2][..1] == [1] && [1][..0] == [];
    assert BalanceSum([1], c) == 1 && BalanceSum([1, 2], c) == 2;
  }

  lemma OneSlotIsWellFormed(d: AttestationData, domain: Bytes32)
    ensures WellFormed(OneSlotTarget(d, domain)) && SeatsOneTwoThree(d, OneSlotTarget(d, domain))
  {
    hide BalanceSum, KeyOf;
    ThreeBalances(d);
    assert ToSet([1, 2, 3]) == {1, 2, 3};
    var c := ThreeSeats(d);
    forall k | k in c.table ensures k == (d.slot, d.index) && k.0 % 1 == 0 {
      EveryMultiple(k.0);
    }
    assert forall s :: 0 <= s < |c.members| ==> c.members[s] == [1, 2, 3] && Distinct(c.members[s]);
  }

  lemma EveryMultiple(n: nat)
    ensures n % 1 == 0
  {
  }

  lemma OneSlotIsComplementable(d: AttestationData, domain: Bytes32)
    ensures Complementable(Held(d, BothFiled(d, OneSlotTarget(d, domain))), d.slot, OneSlotTarget(d, domain))
  {
    var aggregates := BothFiled(d, OneSlotTarget(d, domain));
    assert aggregates[0].signers == {1, 2} && aggregates[0] in aggregates;
    CoverHas(aggregates, aggregates[0]);
    assert HeardFor(Held(d, aggregates), d, 1);
  }

  /** A stream over that target hears validator 3 and hands over a complement that names it as
      absent: the two aggregates are ingested, and `peek` covers validators 1 and 2. */
  method LoseOne(d: AttestationData, domain: Bytes32) returns (r: Option<SlotComplement>)
    ensures
      var t := OneSlotTarget(d, domain);
      var st := Ingested(NOTHING_HELD, [First(d, t)] + [Second(d, t)], t).state;
      && HeardFor(st, d, 3) && r.Some? && Sound(r.value, {1, 2}, st, d.slot, t) && r.value.named == [3]
  {
    var t := OneSlotTarget(d, domain);
    OneSlotIsWellFormed(d, domain);
    OneSlotIsComplementable(d, domain);
    HeardAndNotCovered(d, t);
    BothIngested(d, t);
    var stream := new SlotStream(t);
    var ok := stream.Ingest([First(d, t)] + [Second(d, t)]);
    ghost var cover;
    r, cover := stream.Peek(d.slot);
    ThreeIsNamed(r.value, cover, d, t, domain);
  }

  lemma ThreeIsNamed(r: SlotComplement, cover: set<nat>, d: AttestationData, t: Target, domain: Bytes32)
    requires t == OneSlotTarget(d, domain) && Sound(r, cover, Held(d, BothFiled(d, t)), d.slot, t)
    ensures cover == {1, 2} && r.named == [3]
  {
    hide WellFormed, NamedOk, LargestCover, PrimarySound, FromOpenings, NamedIn, NamesEach, BothFiled;
    SoundCoversTwo(r, cover, d, t);
    assert ToSet([1, 2, 3]) - {1, 2} == {3};
    OnlyThree(r.named);
  }

  lemma OnlyThree(s: seq<nat>)
    requires NamesEach(s, {3})
    ensures s == [3]
  {
    assert forall i :: 0 <= i < |s| ==> s[i] in ToSet(s);
    assert 3 in ToSet(s);
    assert s[0] == s[|s| - 1];
  }
}
