/** What one attestation changes: who is heard afterwards, and when feeding stops. */
module IngestExact {
  import opened Wrappers
  import opened FormalSums
  import opened Ssz
  import opened Bls
  import opened Folds
  import opened Splitting
  import opened Collector
  import opened Packing
  import opened SlotStream

  /** An attestation the collector takes in: of its link, for an open slot, of known committees,
      naming someone, and with a readable signature. */
  ghost predicate Accepted(st: State, att: Response, t: Target)
  {
    && att.data.link == t.link && att.data.slot !in st.closed
    && Resolvable(att, t.committees) && (exists v :: Attests(att, t.committees, v))
    && !att.signature.Malformed?
  }

  /** One that stops the feed: of its link and for an open slot, but of an unknown committee, or one
      named attester's with a signature that cannot be read. */
  ghost predicate Stops(st: State, att: Response, t: Target)
  {
    && att.data.link == t.link && att.data.slot !in st.closed
    && (!Resolvable(att, t.committees)
        || (att.single.Some? && att.signature.Malformed? && exists v :: Attests(att, t.committees, v)))
  }

  lemma SomeoneNamed(att: Response, t: Target)
    requires Resolve(att, t.committees).Some?
    ensures Resolve(att, t.committees).value != [] <==> exists v :: Attests(att, t.committees, v)
  {
    var signers := Resolve(att, t.committees).value;
    ResolveIsExact(att, t.committees);
    if signers != [] {
      assert signers[0] in signers;
    }
  }

  lemma Files(st: State, a: Aggregate, slot: nat, d: AttestationData, v: nat)
    requires a.data.slot == slot
    ensures
      var after := st.(pending := st.pending[slot := PendingAt(st, slot) + [a]]);
      HeardFor(after, d, v) <==> HeardFor(st, d, v) || (d == a.data && v in a.signers)
  {
    var after := st.(pending := st.pending[slot := PendingAt(st, slot) + [a]]);
    Appended(PendingAt(st, slot), a, d);
    assert SummedAt(after, d.slot) == SummedAt(st, d.slot);
    assert d.slot != slot ==> PendingAt(after, d.slot) == PendingAt(st, d.slot);
    assert HeardSingly(after, d, v) <==> HeardSingly(st, d, v);
  }

  lemma SumsSingly(st: State, data: AttestationData, single: SingleAttester, signature: SignatureSum, d: AttestationData,
                   v: nat)
    ensures HeardSingly(SumSingle(st, data, single, signature), d, v)
       <==> HeardSingly(st, d, v) || (d == data && v == single.attester)
  {
    var after, key := SumSingle(st, data, single, signature), (data, single.committee);
    var was, now := SummedAt(st, d.slot), SummedAt(after, d.slot);
    if HeardSingly(st, d, v) {
      var c :| (d, c) in was && v in was[(d, c)].signers;
      assert (d, c) in now && v in now[(d, c)].signers;
    }
    if HeardSingly(after, d, v) && !HeardSingly(st, d, v) {
      var c :| (d, c) in now && v in now[(d, c)].signers;
      assert (d, c) in was ==> v !in was[(d, c)].signers;
    }
    if d == data && v == single.attester {
      assert key in now && v in now[key].signers;
    }
  }

  lemma Sums(st: State, data: AttestationData, single: SingleAttester, signature: SignatureSum, d: AttestationData, v: nat)
    ensures HeardFor(SumSingle(st, data, single, signature), d, v)
       <==> HeardFor(st, d, v) || (d == data && v == single.attester)
  {
    SumsSingly(st, data, single, signature, d, v);
    assert PendingAt(SumSingle(st, data, single, signature), d.slot) == PendingAt(st, d.slot);
    hide SumSingle, HeardSingly;
  }

  /** Ingesting is exact. An attestation that is accepted makes those it names heard for its
      message, and no one else; any other changes nothing; and only the two kinds of faulty one
      stop the feed. */
  lemma IngestIsExact(st: State, att: Response, t: Target, d: AttestationData, v: nat)
    ensures IngestOne(st, att, t).ok <==> !Stops(st, att, t)
    ensures !Accepted(st, att, t) ==> IngestOne(st, att, t).state == st
    ensures Accepted(st, att, t) ==>
      (HeardFor(IngestOne(st, att, t).state, d, v)
       <==> HeardFor(st, d, v) || (d == att.data && Attests(att, t.committees, v)))
  {
    hide Attests, HeardFor;
    ResolveIsExact(att, t.committees);
    if att.data.link == t.link && att.data.slot !in st.closed && Resolve(att, t.committees).Some? {
      SomeoneNamed(att, t);
      var signers := Resolve(att, t.committees).value;
      if signers != [] && Decompressed(att.signature).Some? {
        if att.single.Some? {
          Sums(st, att.data, att.single.value, Decompressed(att.signature).value, d, v);
          assert signers == [att.single.value.attester];
        } else {
          Files(st, Aggregate(att.data, Decompressed(att.signature).value, ToSet(signers)), att.data.slot, d, v);
        }
      }
    }
  }
}
