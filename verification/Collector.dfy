/** What the attestation collector holds: network aggregates waiting to be packed, and
    unaggregated attestations summed per message and committee as they arrive. */
module Collector {
  import opened Wrappers
  import opened FormalSums
  import opened Ssz
  import opened Bls
  import opened SlotProof
  import opened Folds
  import opened Splitting
  import opened Bitfields
  import Bytes

  // ---- ballots -----------------------------------------------------------------------------

  function Pairs(signers: set<nat>, root: Bytes32): (r: set<Vote>)
    ensures forall v: nat, m: Bytes32 :: (v, m) in r <==> v in signers && m == root
  {
    set v | v in signers :: (v, root)
  }

  /** One vote of each signer for one message. */
  function Ballots(signers: set<nat>, root: Bytes32): (r: Combo<Vote>)
    ensures forall v: nat, m: Bytes32 :: Coef(r, (v, m)) == if v in signers && m == root then 1 else 0
  {
    map p | p in Pairs(signers, root) :: if p in Pairs(signers, root) then 1 else 0
  }

  lemma BallotsJoin(a: set<nat>, b: set<nat>, root: Bytes32)
    requires a !! b
    ensures Plus(Ballots(a, root), Ballots(b, root)) == Ballots(a + b, root)
  {
    var sum, all := Plus(Ballots(a, root), Ballots(b, root)), Ballots(a + b, root);
    forall p: Vote ensures Coef(sum, p) == Coef(all, p) {
      assert p == (p.0, p.1);
    }
    SameCombo(sum, all);
  }

  /** The signature that exactly these signers would make together. */
  function SignedBy(signers: set<nat>, root: Bytes32): SignatureSum
  {
    SignatureSum(Ballots(signers, root), 0)
  }

  lemma SignedJoin(a: set<nat>, b: set<nat>, root: Bytes32)
    requires a !! b
    ensures Both(SignedBy(a, root), SignedBy(b, root)) == SignedBy(a + b, root)
  {
    BallotsJoin(a, b, root);
  }

  // ---- what arrives -----------------------------------------------------------------------

  datatype SingleAttester = SingleAttester(committee: nat, attester: nat)

  datatype Response = Response(
    data: AttestationData, single: Option<SingleAttester>,
    committeeBits: seq<Bytes.Byte>, aggregationBits: seq<Bytes.Byte>, signature: Signature)

  /** `Signature::from_bytes` */
  function Decompressed(s: Signature): Option<SignatureSum>
  {
    match s
    case Malformed => None
    case Infinity => Some(NO_SIGNATURES)
    case OnCurve(sum, cofactor) => Some(SignatureSum(sum, cofactor))
  }

  /** `to_bytes` */
  function Compressed(s: SignatureSum): Signature
  {
    if s == NO_SIGNATURES then Infinity else OnCurve(s.votes, s.cofactor)
  }

  /** The epoch's committees as the node reported them, and the openings of their members. */
  datatype Committees = Committees(
    table: map<(nat, nat), seq<nat>>, members: seq<seq<nat>>, aggregates: seq<Option<CommitteeAggregate>>,
    openings: map<nat, OpenedValidator>)

  /** The stream's constants. */
  datatype Target = Target(link: Link, domain: Bytes32, slotsPerEpoch: nat, committees: Committees)
  {
    function RootOf(d: AttestationData): Bytes32
    {
      SigningRoot(AttestationDataRoot(d), domain)
    }
  }

  /** The members of a committee whose bits are set, from `offset` on. */
  function Attesting(committee: seq<nat>, bits: seq<Bytes.Byte>, offset: nat): (r: seq<nat>)
    ensures forall v :: v in r ==> v in committee
    decreases |committee|
  {
    if committee == [] then []
    else
      var n := |committee| - 1;
      var before := Attesting(committee[..n], bits, offset);
      if GetBit(bits, offset + n) then before + [committee[n]] else before
  }

  /** Whether an attestation names a committee of its slot that the table has. */
  predicate NamesCommittee(att: Response, c: Committees, k: nat)
  {
    GetBit(att.committeeBits, k) && (att.data.slot, k) in c.table
  }

  /** Where the bits of committee `k` start: after those of the committees named before it. */
  function BitsBefore(att: Response, c: Committees, k: nat): nat
  {
    if k == 0 then 0
    else BitsBefore(att, c, k - 1) + if NamesCommittee(att, c, k - 1) then |c.table[(att.data.slot, k - 1)]| else 0
  }

  /** The signers in the first `k` committees. */
  function AttestingBelow(att: Response, c: Committees, k: nat): seq<nat>
  {
    if k == 0 then []
    else
      var before := AttestingBelow(att, c, k - 1);
      if !NamesCommittee(att, c, k - 1) then before
      else before + Attesting(c.table[(att.data.slot, k - 1)], att.aggregationBits, BitsBefore(att, c, k - 1))
  }

  /** `resolve_attesting_validators`; `None` where a committee is missing. */
  function Resolve(att: Response, c: Committees): Option<seq<nat>>
  {
    if att.single.Some? then
      var s := att.single.value;
      if (att.data.slot, s.committee) !in c.table then None
      else if s.attester in c.table[(att.data.slot, s.committee)] then Some([s.attester])
      else Some([])
    else if att.committeeBits == [] then
      if (att.data.slot, att.data.index) !in c.table then None
      else Some(Attesting(c.table[(att.data.slot, att.data.index)], att.aggregationBits, 0))
    else Some(AttestingBelow(att, c, 8 * |att.committeeBits|))
  }

  /** The members of one committee whose bits are set. */
  method AddAttesting(result: seq<nat>, committee: seq<nat>, bits: seq<Bytes.Byte>, offset: nat) returns (r: seq<nat>)
    ensures r == result + Attesting(committee, bits, offset)
  {
    r := result;
    assert result + [] == result;
    for j := 0 to |committee|
      invariant r == result + Attesting(committee[..j], bits, offset)
    {
      assert committee[..j + 1][..j] == committee[..j];
      if GetBit(bits, offset + j) {
        r := r + [committee[j]];
      }
    }
    assert committee[..|committee|] == committee;
  }

  /** `resolve_attesting_validators`, as it runs. */
  method ResolveAttesting(att: Response, c: Committees) returns (r: Option<seq<nat>>)
    ensures r == Resolve(att, c)
  {
    if att.single.Some? {
      var s := att.single.value;
      if (att.data.slot, s.committee) !in c.table {
        return None;
      }
      return Some(if s.attester in c.table[(att.data.slot, s.committee)] then [s.attester] else []);
    }
    var result: seq<nat> := [];
    if att.committeeBits == [] {
      if (att.data.slot, att.data.index) !in c.table {
        return None;
      }
      var committee := c.table[(att.data.slot, att.data.index)];
      result := AddAttesting(result, committee, att.aggregationBits, 0);
      assert result == Attesting(committee, att.aggregationBits, 0);
      return Some(result);
    }
    var offset: nat := 0;
    for k := 0 to 8 * |att.committeeBits|
      invariant result == AttestingBelow(att, c, k) && offset == BitsBefore(att, c, k)
    {
      if GetBit(att.committeeBits, k) && (att.data.slot, k) in c.table {
        var committee := c.table[(att.data.slot, k)];
        result := AddAttesting(result, committee, att.aggregationBits, offset);
        offset := offset + |committee|;
      }
    }
    r := Some(result);
  }

  // ---- who an attestation names, bit by bit ---------------------------------------------------

  /** Its committee is known, if it names just one. */
  predicate Resolvable(att: Response, c: Committees)
  {
    if att.single.Some? then (att.data.slot, att.single.value.committee) in c.table
    else att.committeeBits == [] ==> (att.data.slot, att.data.index) in c.table
  }

  /** Validator `v` stands at place `j` of a committee whose bits start at `start`, and its bit is set. */
  predicate BitSet(committee: seq<nat>, bits: seq<Bytes.Byte>, start: nat, j: nat, v: nat)
  {
    j < |committee| && committee[j] == v && GetBit(bits, start + j)
  }

  /** A validator that an attestation names: its one attester, if that sits in the committee given;
      or a member of its committee whose bit is set; or a member of a named committee whose bit is
      set among that committee's own, which follow those of all committees named before. */
  ghost predicate Attests(att: Response, c: Committees, v: nat)
  {
    if att.single.Some? then
      var s := att.single.value;
      v == s.attester && (att.data.slot, s.committee) in c.table && v in c.table[(att.data.slot, s.committee)]
    else if att.committeeBits == [] then
      (att.data.slot, att.data.index) in c.table
      && exists j: nat :: BitSet(c.table[(att.data.slot, att.data.index)], att.aggregationBits, 0, j, v)
    else AttestsBelow(att, c, 8 * |att.committeeBits|, v)
  }

  ghost predicate AttestsBelow(att: Response, c: Committees, n: nat, v: nat)
  {
    exists k: nat :: k < n && AttestsIn(att, c, k, v)
  }

  ghost predicate AttestsIn(att: Response, c: Committees, k: nat, v: nat)
  {
    && GetBit(att.committeeBits, k) && (att.data.slot, k) in c.table
    && exists j: nat :: BitSet(c.table[(att.data.slot, k)], att.aggregationBits, |NamedBelow(att, c, k)|, j, v)
  }

  /** The members of the committees below `k` that are named and in the table, one after the other. */
  ghost function NamedBelow(att: Response, c: Committees, k: nat): seq<nat>
  {
    if k == 0 then []
    else
      NamedBelow(att, c, k - 1)
      + if GetBit(att.committeeBits, k - 1) && (att.data.slot, k - 1) in c.table then c.table[(att.data.slot, k - 1)] else []
  }

  lemma {:induction false} BitsRunOn(att: Response, c: Committees, k: nat)
    ensures BitsBefore(att, c, k) == |NamedBelow(att, c, k)|
  {
    if k > 0 {
      BitsRunOn(att, c, k - 1);
    }
  }

  /** A row of validators with `v` at a place whose bit is set. */
  ghost predicate InRow(row: seq<nat>, bits: seq<Bytes.Byte>, v: nat)
  {
    exists p: nat :: BitSet(row, bits, 0, p, v)
  }

  lemma RowSplits(before: seq<nat>, committee: seq<nat>, bits: seq<Bytes.Byte>, v: nat)
    ensures InRow(before + committee, bits, v)
       <==> InRow(before, bits, v) || exists j: nat :: BitSet(committee, bits, |before|, j, v)
  {
    var row, start := before + committee, |before|;
    if p: nat :| BitSet(before, bits, 0, p, v) {
      assert BitSet(row, bits, 0, p, v);
    }
    if j: nat :| BitSet(committee, bits, start, j, v) {
      assert row[start + j] == v;
      assert BitSet(row, bits, 0, start + j, v);
    }
    if p: nat :| BitSet(row, bits, 0, p, v) {
      if p < start {
        assert BitSet(before, bits, 0, p, v);
      } else {
        assert BitSet(committee, bits, start, p - start, v);
      }
    }
  }

  lemma BelowSplits(att: Response, c: Committees, n: nat, v: nat)
    requires n > 0
    ensures AttestsBelow(att, c, n, v) <==> AttestsBelow(att, c, n - 1, v) || AttestsIn(att, c, n - 1, v)
  {
    hide AttestsIn;
    if k: nat :| k < n && AttestsIn(att, c, k, v) {
      assert k == n - 1 || k < n - 1;
    }
  }

  /** The bits run over all named committees in a row: who attests in one of them is who has a set
      bit in that row. */
  lemma {:induction false} AttestsInARow(att: Response, c: Committees, n: nat, v: nat)
    ensures AttestsBelow(att, c, n, v) <==> InRow(NamedBelow(att, c, n), att.aggregationBits, v)
  {
    if n > 0 {
      hide BitSet, InRow;
      AttestsInARow(att, c, n - 1, v);
      BelowSplits(att, c, n, v);
      var named := GetBit(att.committeeBits, n - 1) && (att.data.slot, n - 1) in c.table;
      RowSplits(NamedBelow(att, c, n - 1), if named then c.table[(att.data.slot, n - 1)] else [], att.aggregationBits, v);
      NoneInNone(att.aggregationBits, |NamedBelow(att, c, n - 1)|, v);
    }
  }

  lemma NoneInNone(bits: seq<Bytes.Byte>, start: nat, v: nat)
    ensures !exists j: nat :: BitSet([], bits, start, j, v)
  {
  }

  lemma {:induction false} AttestingExact(committee: seq<nat>, bits: seq<Bytes.Byte>, offset: nat, v: nat)
    ensures v in Attesting(committee, bits, offset) <==> exists j: nat :: BitSet(committee, bits, offset, j, v)
    decreases |committee|
  {
    if committee != [] {
      var n: nat := |committee| - 1;
      AttestingExact(committee[..n], bits, offset, v);
      if j: nat :| BitSet(committee, bits, offset, j, v) {
        assert j == n || BitSet(committee[..n], bits, offset, j, v);
      }
      if j: nat :| BitSet(committee[..n], bits, offset, j, v) {
        assert BitSet(committee, bits, offset, j, v);
      }
      assert GetBit(bits, offset + n) && committee[n] == v ==> BitSet(committee, bits, offset, n, v);
    }
  }

  lemma {:induction false} BelowExact(att: Response, c: Committees, n: nat, v: nat)
    ensures v in AttestingBelow(att, c, n) <==> AttestsBelow(att, c, n, v)
  {
    hide BitSet, AttestsIn;
    if n > 0 {
      BelowExact(att, c, n - 1, v);
      InExact(att, c, n - 1, v);
      if k: nat :| k < n && AttestsIn(att, c, k, v) {
        assert k == n - 1 || k < n - 1;
      }
    }
  }

  lemma InExact(att: Response, c: Committees, k: nat, v: nat)
    ensures AttestsIn(att, c, k, v)
       <==> NamesCommittee(att, c, k)
            && v in Attesting(c.table[(att.data.slot, k)], att.aggregationBits, BitsBefore(att, c, k))
  {
    BitsRunOn(att, c, k);
    if NamesCommittee(att, c, k) {
      AttestingExact(c.table[(att.data.slot, k)], att.aggregationBits, BitsBefore(att, c, k), v);
    }
  }

  /** Resolving is exact: it fails only where the one committee is missing, and otherwise lists
      those the bits name and no one else. */
  lemma ResolveIsExact(att: Response, c: Committees)
    ensures Resolve(att, c).Some? <==> Resolvable(att, c)
    ensures Resolve(att, c).Some? ==> forall v :: v in Resolve(att, c).value <==> Attests(att, c, v)
  {
    hide BitSet, AttestsBelow;
    if Resolve(att, c).Some? {
      forall v ensures v in Resolve(att, c).value <==> Attests(att, c, v) {
        if att.single.None? && att.committeeBits == [] {
          AttestingExact(c.table[(att.data.slot, att.data.index)], att.aggregationBits, 0, v);
        } else if att.single.None? {
          BelowExact(att, c, 8 * |att.committeeBits|, v);
        }
      }
    }
  }

  // ---- the state ---------------------------------------------------------------------------

  datatype Aggregate = Aggregate(data: AttestationData, signature: SignatureSum, signers: set<nat>)

  /** One committee's unaggregated attestations over one message, and their running sum. */
  datatype Summed = Summed(data: AttestationData, signature: SignatureSum, signers: map<nat, SignatureSum>)

  datatype State = State(
    pending: map<nat, seq<Aggregate>>, summed: map<nat, map<(AttestationData, nat), Summed>>, closed: set<nat>)

  const NOTHING_HELD := State(map[], map[], {})

  function PendingAt(st: State, slot: nat): seq<Aggregate>
  {
    if slot in st.pending then st.pending[slot] else []
  }

  function SummedAt(st: State, slot: nat): map<(AttestationData, nat), Summed>
  {
    if slot in st.summed then st.summed[slot] else map[]
  }

  function ToSet(s: seq<nat>): (r: set<nat>)
    ensures forall v :: v in r <==> v in s
  {
    set v | v in s
  }

  /** `sum_single`: a validator already in the bucket is not added again. */
  function SumSingle(st: State, data: AttestationData, single: SingleAttester, signature: SignatureSum): State
  {
    var buckets, key := SummedAt(st, data.slot), (data, single.committee);
    if key !in buckets then
      st.(summed := st.summed[data.slot := buckets[key := FirstSigner(data, single.attester, signature)]])
    else
      var s := buckets[key];
      if single.attester in s.signers then st.(summed := st.summed[data.slot := buckets])
      else
        st.(summed := st.summed[data.slot := buckets[key := NextSigner(s, single.attester, signature)]])
  }

  /** A state, and whether feeding went on. */
  datatype Fed = Fed(state: State, ok: bool)

  /** One attestation: filtered, resolved, and filed. */
  function IngestOne(st: State, att: Response, t: Target): Fed
  {
    if att.data.link != t.link || att.data.slot in st.closed then Fed(st, true)
    else
      match Resolve(att, t.committees)
      case None => Fed(st, false)
      case Some(signers) =>
        if signers == [] then Fed(st, true)
        else
          match Decompressed(att.signature)
          case None => Fed(st, att.single.None?)
          case Some(signature) =>
            if att.single.Some? then Fed(SumSingle(st, att.data, att.single.value, signature), true)
            else
              var slot := att.data.slot;
              Fed(st.(pending := st.pending[slot := PendingAt(st, slot) + [Aggregate(att.data, signature, ToSet(signers))]]), true)
  }

  /** `ingest`: in order, up to the first error. */
  function Ingested(st: State, atts: seq<Response>, t: Target): Fed
    decreases |atts|
  {
    if atts == [] then Fed(st, true)
    else
      var before := Ingested(st, atts[..|atts| - 1], t);
      if !before.ok then before else IngestOne(before.state, atts[|atts| - 1], t)
  }

  /** `forget` */
  function Forgotten(st: State, slot: nat): State
  {
    State(st.pending - {slot}, st.summed - {slot}, st.closed + {slot})
  }

  // ---- what every history keeps ---------------------------------------------------------------

  /** A response whose signature is what those it names would make together. */
  ghost predicate Honest(att: Response, t: Target)
  {
    Resolvable(att, t.committees) && !att.signature.Malformed? ==>
      forall signers: set<nat> :: NamedExactly(signers, att, t.committees) ==>
        Spells(att.signature, SignedBy(signers, t.RootOf(att.data)))
  }

  /** The bytes of a signature are those of this sum; the point at infinity is the sum of none. */
  predicate Spells(s: Signature, sum: SignatureSum)
  {
    match s
    case Malformed => false
    case Infinity => sum.votes == map[] && sum.cofactor == 0
    case OnCurve(votes, cofactor) => sum.votes == votes && sum.cofactor == cofactor
  }

  /** A set of just those an attestation names. */
  ghost predicate NamedExactly(signers: set<nat>, att: Response, c: Committees)
  {
    forall v :: v in signers <==> Attests(att, c, v)
  }

  /** A signature of those resolved is honest. */
  lemma ResolvedIsHonest(att: Response, t: Target)
    requires Resolve(att, t.committees).Some? && Decompressed(att.signature).Some?
    requires Decompressed(att.signature).value == SignedBy(ToSet(Resolve(att, t.committees).value), t.RootOf(att.data))
    ensures Honest(att, t)
  {
    ResolveIsExact(att, t.committees);
    var resolved := ToSet(Resolve(att, t.committees).value);
    forall signers: set<nat> | NamedExactly(signers, att, t.committees) ensures signers == resolved {
      assert forall v :: v in resolved <==> Attests(att, t.committees, v);
    }
  }

  lemma HonestResolved(att: Response, t: Target)
    requires Honest(att, t) && Resolve(att, t.committees).Some? && Decompressed(att.signature).Some?
    ensures Decompressed(att.signature).value
         == SignedBy(ToSet(Resolve(att, t.committees).value), t.RootOf(att.data))
  {
    ResolveIsExact(att, t.committees);
    assert NamedExactly(ToSet(Resolve(att, t.committees).value), att, t.committees);
  }

  ghost predicate AllHonest(atts: seq<Response>, t: Target)
  {
    forall att :: att in atts ==> Honest(att, t)
  }

  ghost predicate AggregateOk(a: Aggregate, slot: nat, t: Target)
  {
    && a.data.slot == slot && a.data.link == t.link && a.signers != {}
    && a.signature == SignedBy(a.signers, t.RootOf(a.data))
    && forall v :: v in a.signers ==> exists c :: (slot, c) in t.committees.table && v in t.committees.table[(slot, c)]
  }

  ghost predicate SummedOk(s: Summed, key: (AttestationData, nat), slot: nat, t: Target)
  {
    && s.data == key.0 && s.data.slot == slot && s.data.link == t.link && s.signers != map[]
    && s.signature == SignedBy(s.signers.Keys, t.RootOf(s.data))
    && (slot, key.1) in t.committees.table
    && forall v :: v in s.signers ==>
         s.signers[v] == SignedBy({v}, t.RootOf(s.data)) && v in t.committees.table[(slot, key.1)]
  }

  /** Every bucket holds honest signatures of its own committee, every aggregate is honest, and
      nothing is held for a closed slot. */
  ghost predicate Inv(st: State, t: Target)
  {
    && (forall slot :: slot in st.summed ==> slot !in st.closed)
    && (forall slot :: slot in st.pending ==> slot !in st.closed)
    && (forall slot :: slot in st.summed ==> forall k :: k in st.summed[slot] ==> SummedOk(st.summed[slot][k], k, slot, t))
    && (forall slot :: slot in st.pending ==> forall a :: a in st.pending[slot] ==> AggregateOk(a, slot, t))
  }

  lemma EmptyIsInv(t: Target)
    ensures Inv(NOTHING_HELD, t)
  {
  }

  lemma ForgottenKeepsInv(st: State, slot: nat, t: Target)
    requires Inv(st, t)
    ensures Inv(Forgotten(st, slot), t)
  {
  }

  ghost predicate BucketsOk(buckets: map<(AttestationData, nat), Summed>, slot: nat, t: Target)
  {
    forall k :: k in buckets ==> SummedOk(buckets[k], k, slot, t)
  }

  lemma WithBuckets(st: State, slot: nat, buckets: map<(AttestationData, nat), Summed>, t: Target)
    requires Inv(st, t) && slot !in st.closed && BucketsOk(buckets, slot, t)
    ensures Inv(st.(summed := st.summed[slot := buckets]), t)
  {
  }

  lemma WithPending(st: State, slot: nat, aggregates: seq<Aggregate>, t: Target)
    requires Inv(st, t) && slot !in st.closed && forall a :: a in aggregates ==> AggregateOk(a, slot, t)
    ensures Inv(st.(pending := st.pending[slot := aggregates]), t)
  {
  }

  lemma KeysGrow<K, V>(m: map<K, V>, k: K, v: V)
    ensures m[k := v].Keys == m.Keys + {k}
    ensures map[k := v].Keys == {k}
  {
  }

  function FirstSigner(data: AttestationData, v: nat, one: SignatureSum): Summed
  {
    Summed(data, one, map[v := one])
  }

  function NextSigner(s: Summed, v: nat, one: SignatureSum): Summed
  {
    Summed(s.data, Both(s.signature, one), s.signers[v := one])
  }

  lemma FirstSignerOk(key: (AttestationData, nat), v: nat, t: Target)
    requires key.0.link == t.link && (key.0.slot, key.1) in t.committees.table
    requires v in t.committees.table[(key.0.slot, key.1)]
    ensures SummedOk(FirstSigner(key.0, v, SignedBy({v}, t.RootOf(key.0))), key, key.0.slot, t)
  {
    KeysGrow(map[], v, SignedBy({v}, t.RootOf(key.0)));
  }

  lemma NextSignerOk(s: Summed, key: (AttestationData, nat), v: nat, t: Target)
    requires SummedOk(s, key, key.0.slot, t) && v !in s.signers && v in t.committees.table[(key.0.slot, key.1)]
    ensures SummedOk(NextSigner(s, v, SignedBy({v}, t.RootOf(key.0))), key, key.0.slot, t)
  {
    var one := SignedBy({v}, t.RootOf(key.0));
    assert s.signers.Keys !! {v};
    SignedJoin(s.signers.Keys, {v}, t.RootOf(key.0));
    KeysGrow(s.signers, v, one);
    forall u | u in s.signers[v := one] ensures s.signers[v := one][u] == SignedBy({u}, t.RootOf(s.data)) {
    }
  }

  lemma SumSingleKeepsInv(st: State, data: AttestationData, single: SingleAttester, t: Target)
    requires Inv(st, t) && data.link == t.link && data.slot !in st.closed
    requires (data.slot, single.committee) in t.committees.table
    requires single.attester in t.committees.table[(data.slot, single.committee)]
    ensures Inv(SumSingle(st, data, single, SignedBy({single.attester}, t.RootOf(data))), t)
  {
    var key, v := (data, single.committee), single.attester;
    var buckets, one := SummedAt(st, data.slot), SignedBy({v}, t.RootOf(data));
    assert BucketsOk(buckets, data.slot, t);
    var after := buckets;
    if key !in buckets {
      FirstSignerOk(key, v, t);
      after := buckets[key := FirstSigner(data, v, one)];
    } else if v !in buckets[key].signers {
      NextSignerOk(buckets[key], key, v, t);
      after := buckets[key := NextSigner(buckets[key], v, one)];
    }
    WithBuckets(st, data.slot, after, t);
  }

  /** Those named sit in a committee of the slot they attest to. */
  lemma AttestsFromCommittees(att: Response, c: Committees, v: nat)
    requires Attests(att, c, v)
    ensures exists i :: (att.data.slot, i) in c.table && v in c.table[(att.data.slot, i)]
  {
    if att.single.Some? {
      assert (att.data.slot, att.single.value.committee) in c.table;
    } else if att.committeeBits == [] {
      var j: nat :| BitSet(c.table[(att.data.slot, att.data.index)], att.aggregationBits, 0, j, v);
    } else {
      var k: nat :| k < 8 * |att.committeeBits| && AttestsIn(att, c, k, v);
    }
  }

  /** Every honest history keeps the invariant. */
  lemma IngestOneKeepsInv(st: State, att: Response, t: Target)
    requires Inv(st, t) && Honest(att, t)
    ensures Inv(IngestOne(st, att, t).state, t)
  {
    var signers, signature := Resolve(att, t.committees), Decompressed(att.signature);
    if att.data.link == t.link && att.data.slot !in st.closed && signers.Some? && signers.value != [] && signature.Some? {
      HonestResolved(att, t);
      if att.single.Some? {
        assert ToSet(signers.value) == {att.single.value.attester};
        SumSingleKeepsInv(st, att.data, att.single.value, t);
      } else {
        ResolveIsExact(att, t.committees);
        forall v | v in signers.value
          ensures exists i :: (att.data.slot, i) in t.committees.table && v in t.committees.table[(att.data.slot, i)]
        {
          AttestsFromCommittees(att, t.committees, v);
        }
        var a := Aggregate(att.data, signature.value, ToSet(signers.value));
        assert signers.value[0] in a.signers;
        assert AggregateOk(a, att.data.slot, t);
        WithPending(st, att.data.slot, PendingAt(st, att.data.slot) + [a], t);
      }
    }
  }

  lemma {:induction false} IngestKeepsInv(st: State, atts: seq<Response>, t: Target)
    requires Inv(st, t) && AllHonest(atts, t)
    ensures Inv(Ingested(st, atts, t).state, t)
    decreases |atts|
  {
    if atts != [] {
      var n := |atts| - 1;
      IngestKeepsInv(st, atts[..n], t);
      IngestOneKeepsInv(Ingested(st, atts[..n], t).state, atts[n], t);
    }
  }

  /** Validators heard one by one for a message. */
  ghost predicate HeardSingly(st: State, d: AttestationData, v: nat)
  {
    exists c :: (d, c) in SummedAt(st, d.slot) && v in SummedAt(st, d.slot)[(d, c)].signers
  }

  /** What is heard stays heard until its slot is forgotten; an accepted single is heard. */
  lemma IngestOneHears(st: State, att: Response, t: Target, d: AttestationData, v: nat)
    ensures HeardSingly(st, d, v) ==> HeardSingly(IngestOne(st, att, t).state, d, v)
    ensures IngestOne(st, att, t).ok && att.data.link == t.link && att.data.slot !in st.closed && att.single.Some?
            && Resolve(att, t.committees) == Some([v]) && d == att.data
            ==> HeardSingly(IngestOne(st, att, t).state, d, v)
    ensures IngestOne(st, att, t).state.closed == st.closed
  {
    var after := IngestOne(st, att, t).state;
    if HeardSingly(st, d, v) {
      var c :| (d, c) in SummedAt(st, d.slot) && v in SummedAt(st, d.slot)[(d, c)].signers;
      assert (d, c) in SummedAt(after, d.slot) && v in SummedAt(after, d.slot)[(d, c)].signers;
    }
    if att.single.Some? && d == att.data && Resolve(att, t.committees) == Some([v]) && IngestOne(st, att, t).ok
       && att.data.link == t.link && att.data.slot !in st.closed {
      var key := (d, att.single.value.committee);
      assert key in SummedAt(after, d.slot) && v in SummedAt(after, d.slot)[key].signers;
    }
  }
}
