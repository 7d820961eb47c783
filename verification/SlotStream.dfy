/** The collector itself: fed as attestations arrive, and read out as the complement a slot
    proof is built from. */
module SlotStream {
  import opened Wrappers
  import opened FormalSums
  import opened Ssz
  import opened Bls
  import opened UnitSums
  import opened MultiProof
  import opened SlotProof
  import opened SlotSound
  import opened Folds
  import opened Splitting
  import opened Collector
  import opened Packing

  datatype SlotComplement = SlotComplement(slot: nat, complement: SlotWitness, marginal: nat, named: seq<nat>)

  // ---- lists that name a set ---------------------------------------------------------------

  predicate Distinct(s: seq<nat>)
  {
    forall i, j :: 0 <= i < j < |s| ==> s[i] != s[j]
  }

  /** A list names each member of a set once, and no one else. */
  predicate NamesEach(s: seq<nat>, members: set<nat>)
  {
    Distinct(s) && ToSet(s) == members
  }

  lemma NamesJoin(s: seq<nat>, a: set<nat>, t: seq<nat>, b: set<nat>)
    requires NamesEach(s, a) && NamesEach(t, b) && a !! b
    ensures NamesEach(s + t, a + b)
  {
    forall i, j | 0 <= i < j < |s + t| ensures (s + t)[i] != (s + t)[j] {
      if i < |s| <= j {
        assert s[i] in a && t[j - |s|] in b;
      }
    }
    assert ToSet(s + t) == a + b;
  }

  lemma LeastExists(s: set<nat>) returns (m: nat)
    requires s != {}
    ensures m in s && forall v :: v in s ==> m <= v
  {
    m :| m in s;
    if s != {m} {
      var n := LeastExists(s - {m});
      assert forall v :: v in s ==> v == m || v in s - {m};
      m := if n < m then n else m;
    }
  }

  /** Iterating an ordered set. */
  method Ascending(members: set<nat>) returns (s: seq<nat>)
    ensures NamesEach(s, members) && Increasing(s)
  {
    s := [];
    var rest := members;
    while rest != {}
      invariant rest <= members && NamesEach(s, members - rest) && Increasing(s)
      invariant forall v, w :: v in s && w in rest ==> v < w
      decreases rest
    {
      ghost var least := LeastExists(rest);
      var v: nat :| v in rest && forall w :: w in rest ==> v <= w;
      NamesJoin(s, members - rest, [v], {v});
      assert members - rest + {v} == members - (rest - {v});
      forall i | 0 <= i < |s| ensures s[i] < v {
        assert s[i] in s;
      }
      s := s + [v];
      rest := rest - {v};
    }
    assert members - rest == members;
  }

  // ---- opening validators -------------------------------------------------------------------

  function IndicesOf(vs: seq<OpenedValidator>): (s: seq<nat>)
    ensures |s| == |vs|
  {
    seq(|vs|, (i: nat) requires i < |vs| => vs[i].index)
  }

  /** The committee proof's members, each under its own index. */
  ghost predicate OpensThemselves(c: Committees)
  {
    forall v :: v in c.openings ==> c.openings[v].index == v
  }

  /** Validators as the committee proof opens them. */
  ghost predicate FromOpenings(vs: seq<OpenedValidator>, c: Committees)
  {
    forall v :: v in vs ==> v.index in c.openings && c.openings[v.index] == v
  }

  /** `opened` for each of a list, or nothing if one is unknown. */
  method OpenEach(s: seq<nat>, c: Committees) returns (r: Option<seq<OpenedValidator>>)
    requires OpensThemselves(c)
    ensures r.Some? ==> IndicesOf(r.value) == s && FromOpenings(r.value, c)
    ensures r.None? ==> exists v :: v in s && v !in c.openings
  {
    var vs: seq<OpenedValidator> := [];
    for i := 0 to |s|
      invariant IndicesOf(vs) == s[..i] && FromOpenings(vs, c)
    {
      if s[i] !in c.openings {
        assert s[i] in s;
        return None;
      }
      vs := vs + [c.openings[s[i]]];
      assert s[..i + 1] == s[..i] + [s[i]];
    }
    assert s[..|s|] == s;
    r := Some(vs);
  }

  // ---- the aggregates of one message ---------------------------------------------------------

  function Union(aggregates: seq<Aggregate>): set<nat>
    decreases |aggregates|
  {
    if aggregates == [] then {} else Union(aggregates[..|aggregates| - 1]) + aggregates[|aggregates| - 1].signers
  }

  predicate Apart(aggregates: seq<Aggregate>)
    decreases |aggregates|
  {
    if aggregates == [] then true
    else
      var n := |aggregates| - 1;
      Apart(aggregates[..n]) && Union(aggregates[..n]) !! aggregates[n].signers
  }

  lemma UnionAppends(aggregates: seq<Aggregate>, last: Aggregate)
    ensures Union(aggregates + [last]) == Union(aggregates) + last.signers
    ensures Apart(aggregates + [last]) <==> Apart(aggregates) && Union(aggregates) !! last.signers
  {
    assert (aggregates + [last])[..|aggregates|] == aggregates;
  }

  /** The aggregates counted for one message are apart and make its cover. */
  lemma {:induction false} OfIsApart(counted: seq<Aggregate>, d: AttestationData)
    requires Separate(counted)
    ensures Apart(Of(counted, d)) && Union(Of(counted, d)) == Cover(counted, d)
    ensures forall a :: a in Of(counted, d) ==> a in counted && a.data == d
    decreases |counted|
  {
    if counted != [] {
      var n := |counted| - 1;
      OfIsApart(counted[..n], d);
      if counted[n].data == d {
        UnionAppends(Of(counted[..n], d), counted[n]);
      }
    }
  }

  /** The signatures of a list of aggregates, added up. */
  function SumOf(aggregates: seq<Aggregate>): SignatureSum
    requires aggregates != []
    decreases |aggregates|
  {
    var n := |aggregates| - 1;
    if n == 0 then aggregates[0].signature else Both(SumOf(aggregates[..n]), aggregates[n].signature)
  }

  /** `merge` */
  method Merge(aggregates: seq<Aggregate>) returns (r: Option<Attestation>)
    ensures r == if aggregates == [] then None
                 else Some(Attestation(aggregates[0].data, Compressed(SumOf(aggregates)), []))
  {
    if aggregates == [] {
      return None;
    }
    var sum := aggregates[0].signature;
    for i := 1 to |aggregates|
      invariant sum == SumOf(aggregates[..i])
    {
      PrefixGrows(aggregates, i);
      sum := Both(sum, aggregates[i].signature);
    }
    assert aggregates[..|aggregates|] == aggregates;
    r := Some(Attestation(aggregates[0].data, Compressed(sum), []));
  }

  /** Honest aggregates that are apart add up to one signature of everyone in them, once. */
  lemma {:induction false} SumOfApart(aggregates: seq<Aggregate>, root: Bytes32)
    requires aggregates != [] && Apart(aggregates)
    requires forall a :: a in aggregates ==> a.signature == SignedBy(a.signers, root)
    ensures SumOf(aggregates) == SignedBy(Union(aggregates), root)
    decreases |aggregates|
  {
    var n := |aggregates| - 1;
    if n == 0 {
      assert Union(aggregates[..0]) == {};
      assert Union(aggregates) == aggregates[0].signers;
    } else {
      SumOfApart(aggregates[..n], root);
      SignedJoin(Union(aggregates[..n]), aggregates[n].signers, root);
    }
  }

  // ---- naming the minority messages -----------------------------------------------------------

  /** Everyone a list of attestations names. */
  function SignersIn(atts: seq<Attestation>): seq<nat>
    decreases |atts|
  {
    if atts == [] then [] else SignersIn(atts[..|atts| - 1]) + IndicesOf(atts[|atts| - 1].signers)
  }

  lemma {:induction false} SignersInJoin(a: seq<Attestation>, b: seq<Attestation>)
    ensures SignersIn(a + b) == SignersIn(a) + SignersIn(b)
    decreases |b|
  {
    if b == [] {
      assert a + b == a;
    } else {
      ConcatLast(a, b);
      SignersInJoin(a, b[..|b| - 1]);
      ConcatAssociates(SignersIn(a), SignersIn(b[..|b| - 1]), IndicesOf(b[|b| - 1].signers));
    }
  }

  /** A named attestation: signed by exactly the validators it names, for the stream's link. */
  ghost predicate NamedOk(s: Attestation, slot: nat, t: Target)
  {
    && s.data.slot == slot && s.data.link == t.link
    && s.signers != [] && FromOpenings(s.signers, t.committees)
    && s.signature == Compressed(SignedBy(ToSet(IndicesOf(s.signers)), t.RootOf(s.data)))
  }

  lemma NamedIsOk(a: Aggregate, signers: seq<OpenedValidator>, slot: nat, t: Target)
    requires AggregateOk(a, slot, t) && NamesEach(IndicesOf(signers), a.signers) && FromOpenings(signers, t.committees)
    ensures NamedOk(Attestation(a.data, Compressed(a.signature), signers), slot, t)
  {
  }

  /** Everyone who signed is in the committee proof. */
  ghost predicate SignersOpen(aggregates: seq<Aggregate>, c: Committees)
  {
    forall a, v :: a in aggregates && v in a.signers ==> v in c.openings
  }

  /** The aggregates of one message with their signers opened: each validator named once. */
  method NameMessage(aggregates: seq<Aggregate>, c: Committees, ghost slot: nat, ghost t: Target)
    returns (r: Option<seq<Attestation>>)
    requires OpensThemselves(c) && c == t.committees && Apart(aggregates) && forall a :: a in aggregates ==> AggregateOk(a, slot, t)
    ensures r.Some? ==> NamesEach(SignersIn(r.value), Union(aggregates))
    ensures r.Some? ==> forall s :: s in r.value ==> NamedOk(s, slot, t)
    ensures SignersOpen(aggregates, c) ==> r.Some?
  {
    hide NamedOk, AggregateOk, FromOpenings;
    var atts: seq<Attestation> := [];
    for i := 0 to |aggregates|
      invariant forall s :: s in atts ==> NamedOk(s, slot, t)
      invariant NamesEach(SignersIn(atts), Union(aggregates[..i])) && Apart(aggregates[..i])
    {
      var a := aggregates[i];
      PrefixGrows(aggregates, i);
      UnionAppends(aggregates[..i], a);
      ApartPrefix(aggregates, i + 1);
      var order := Ascending(a.signers);
      var signers := OpenEach(order, c);
      if signers.None? {
        assert a in aggregates;
        return None;
      }
      NamesJoin(SignersIn(atts), Union(aggregates[..i]), order, a.signers);
      var att := Attestation(a.data, Compressed(a.signature), signers.value);
      NamedIsOk(a, signers.value, slot, t);
      assert (atts + [att])[..|atts|] == atts;
      atts := atts + [att];
    }
    assert aggregates[..|aggregates|] == aggregates;
    r := Some(atts);
  }

  lemma {:induction false} ApartPrefix(aggregates: seq<Aggregate>, n: nat)
    requires Apart(aggregates) && n <= |aggregates|
    ensures Apart(aggregates[..n])
    decreases |aggregates|
  {
    if n == |aggregates| {
      assert aggregates[..n] == aggregates;
    } else {
      assert aggregates[..|aggregates| - 1][..n] == aggregates[..n];
      ApartPrefix(aggregates[..|aggregates| - 1], n);
    }
  }

  // ---- what is assumed of the node ---------------------------------------------------------

  function BalanceSum(s: seq<nat>, c: Committees): nat
    decreases |s|
  {
    if s == [] then 0
    else
      var v := s[|s| - 1];
      BalanceSum(s[..|s| - 1], c) + if v in c.openings then c.openings[v].balance else 0
  }

  /** Committees of a slot that share no validator and lie inside the slot's member list, whose
      aggregate sums those members' keys and balances; each validator opened under its own key. */
  ghost predicate WellFormed(t: Target)
  {
    var c := t.committees;
    && t.slotsPerEpoch > 0 && OpensThemselves(c) && |c.members| == |c.aggregates| <= MAX_SLOTS
    && (forall v :: v in c.openings ==> c.openings[v].key == Unit(v))
    && (forall k :: k in c.table ==> k.0 % t.slotsPerEpoch < |c.members|)
    && (forall k: (nat, nat), v :: k in c.table && v in c.table[k] ==> v in c.members[k.0 % t.slotsPerEpoch])
    && (forall j: (nat, nat), k: (nat, nat), v :: j in c.table && k in c.table && j.0 == k.0 && v in c.table[j] && v in c.table[k] ==> j == k)
    && (forall s :: 0 <= s < |c.members| ==> Distinct(c.members[s]))
    && (forall s :: 0 <= s < |c.members| && c.aggregates[s].Some? ==>
          && c.aggregates[s].value.key == KeyOf(ToSet(c.members[s]))
          && c.aggregates[s].value.balance == BalanceSum(c.members[s], c))
  }

  /** A validator heard for a message, alone or in an aggregate. */
  ghost predicate HeardFor(st: State, d: AttestationData, v: nat)
  {
    v in Cover(PendingAt(st, d.slot), d) || HeardSingly(st, d, v)
  }

  /** The network aggregates packing takes for a slot. */
  function PackedAt(st: State, slot: nat): seq<Aggregate>
  {
    PackOf(SortedBySize(PendingAt(st, slot)))
  }

  /** A validator the cover of its message holds: in a packed aggregate, or heard alone. */
  ghost predicate CoveredFor(st: State, d: AttestationData, v: nat)
  {
    v in Cover(PackedAt(st, d.slot), d) || HeardSingly(st, d, v)
  }

  lemma CoveredIsHeard(st: State, d: AttestationData, v: nat)
    requires CoveredFor(st, d, v)
    ensures HeardFor(st, d, v)
  {
    if !HeardSingly(st, d, v) {
      var order := SortedBySize(PendingAt(st, d.slot));
      var a := CoverFrom(PackOf(order), d, v);
      PackOfTakes(order);
      SortedDescends(PendingAt(st, d.slot));
      SameElements(order, PendingAt(st, d.slot), a);
      CoverHas(PendingAt(st, d.slot), a);
    }
  }

  /** No validator signed two messages of a slot. */
  ghost predicate OneMessageEach(st: State, slot: nat)
  {
    forall d: AttestationData, e: AttestationData, v: nat :: d.slot == slot && e.slot == slot && HeardFor(st, d, v) && HeardFor(st, e, v) ==> d == e
  }

  // ---- the cover -----------------------------------------------------------------------------

  /** Counted for each message: exactly the packed and the singly heard. */
  ghost predicate CoversExactly(counted: seq<Aggregate>, st: State, slot: nat)
  {
    forall d, v :: v in Cover(counted, d) <==> d.slot == slot && CoveredFor(st, d, v)
  }

  /** What is counted for a slot: honest aggregates, no validator twice for a message, for each
      message exactly the packed and the singly heard, and no network aggregate left out that
      still fits. */
  ghost predicate Counted(counted: seq<Aggregate>, st: State, slot: nat, t: Target)
  {
    && Separate(counted)
    && (forall a :: a in counted ==> AggregateOk(a, slot, t))
    && CoversExactly(counted, st, slot)
    && (forall a :: a in PendingAt(st, slot) ==> a in counted || Overlap(Cover(counted, a.data), a.signers))
    && (forall a :: a in PendingAt(st, slot) ==> Matched(a, counted))
  }

  lemma {:induction false} CoverJoin(a: seq<Aggregate>, b: seq<Aggregate>, d: AttestationData)
    ensures Cover(a + b, d) == Cover(a, d) + Cover(b, d)
    decreases |b|
  {
    if b == [] {
      assert a + b == a;
    } else {
      ConcatLast(a, b);
      CoverJoin(a, b[..|b| - 1], d);
      Appended(a + b[..|b| - 1], b[|b| - 1], d);
    }
  }

  /** Where a residual came from. */
  lemma ResidualSource(ours: seq<Aggregate>, keys: seq<Key>, st: State, slot: nat,
                       packed: map<AttestationData, set<nat>>, t: Target, i: nat, v: nat)
    requires ResidualsOf(ours, keys, SummedAt(st, slot).Keys, SummedAt(st, slot), packed, t)
    requires BucketsOk(SummedAt(st, slot), slot, t) && i < |ours| && v in ours[i].signers
    ensures ours[i].data == keys[i].0 && ours[i].data.slot == slot && v !in CoveredBy(packed, ours[i].data)
    ensures keys[i] in SummedAt(st, slot) && v in SummedAt(st, slot)[keys[i]].signers
    ensures (slot, keys[i].1) in t.committees.table && v in t.committees.table[(slot, keys[i].1)]
    ensures AggregateOk(ours[i], slot, t)
  {
    assert SummedOk(SummedAt(st, slot)[keys[i]], keys[i], slot, t);
    assert Residual(SummedAt(st, slot)[keys[i]], CoveredBy(packed, keys[i].0), t) == Some(ours[i]);
  }

  /** Two residuals of one message share no validator. */
  lemma ResidualsApart(ours: seq<Aggregate>, keys: seq<Key>, st: State, slot: nat,
                       packed: map<AttestationData, set<nat>>, t: Target, i: nat, j: nat, v: nat)
    requires ResidualsOf(ours, keys, SummedAt(st, slot).Keys, SummedAt(st, slot), packed, t) && i < j < |ours|
    requires BucketsOk(SummedAt(st, slot), slot, t) && WellFormed(t)
    requires ours[i].data == ours[j].data && v in ours[i].signers
    ensures v !in ours[j].signers
  {
    if v in ours[j].signers {
      ResidualSource(ours, keys, st, slot, packed, t, i, v);
      ResidualSource(ours, keys, st, slot, packed, t, j, v);
      SameBucket(keys, i, j, slot, v, t);
    }
  }

  /** A residual shares no validator with the packing or the residuals before it. */
  lemma ResidualIsNew(chosen: seq<Aggregate>, ours: seq<Aggregate>, keys: seq<Key>, st: State, slot: nat,
                      packed: map<AttestationData, set<nat>>, t: Target, n: nat, v: nat)
    requires ResidualsOf(ours, keys, SummedAt(st, slot).Keys, SummedAt(st, slot), packed, t) && n < |ours|
    requires BucketsOk(SummedAt(st, slot), slot, t) && WellFormed(t) && CoversOf(packed, chosen)
    requires v in Cover(chosen + ours[..n], ours[n].data)
    ensures v !in ours[n].signers
  {
    CoverJoin(chosen, ours[..n], ours[n].data);
    if v in Cover(ours[..n], ours[n].data) {
      var b := CoverFrom(ours[..n], ours[n].data, v);
      var j: nat :| j < n && ours[j] == b;
      ResidualsApart(ours, keys, st, slot, packed, t, j, n, v);
    } else if v in ours[n].signers {
      ResidualSource(ours, keys, st, slot, packed, t, n, v);
    }
  }

  /** Residuals are apart from the packing by construction and from each other because
      committees are. */
  lemma {:induction false} ResidualsSeparate(chosen: seq<Aggregate>, ours: seq<Aggregate>, keys: seq<Key>, st: State,
                                             slot: nat, packed: map<AttestationData, set<nat>>, t: Target, n: nat)
    requires ResidualsOf(ours, keys, SummedAt(st, slot).Keys, SummedAt(st, slot), packed, t) && n <= |ours|
    requires BucketsOk(SummedAt(st, slot), slot, t) && WellFormed(t) && Separate(chosen) && CoversOf(packed, chosen)
    ensures Separate(chosen + ours[..n])
    decreases n
  {
    if n == 0 {
      assert chosen + ours[..0] == chosen;
    } else {
      ResidualsSeparate(chosen, ours, keys, st, slot, packed, t, n - 1);
      PrefixStep(chosen, ours, n);
      SeparateGrows(chosen, ours, keys, st, slot, packed, t, n - 1, chosen + ours[..n - 1]);
    }
  }

  lemma SeparateGrows(chosen: seq<Aggregate>, ours: seq<Aggregate>, keys: seq<Key>, st: State, slot: nat,
                      packed: map<AttestationData, set<nat>>, t: Target, n: nat, before: seq<Aggregate>)
    requires ResidualsOf(ours, keys, SummedAt(st, slot).Keys, SummedAt(st, slot), packed, t) && n < |ours|
    requires BucketsOk(SummedAt(st, slot), slot, t) && WellFormed(t) && CoversOf(packed, chosen)
    requires before == chosen + ours[..n] && Separate(before)
    ensures Separate(before + [ours[n]])
  {
    var covered, a := Cover(before, ours[n].data), ours[n];
    forall v | v in covered ensures v !in a.signers {
      ResidualIsNew(chosen, ours, keys, st, slot, packed, t, n, v);
    }
    Appended(before, a, a.data);
  }

  lemma PrefixStep<T>(a: seq<T>, b: seq<T>, n: nat)
    requires 0 < n <= |b|
    ensures a + b[..n] == (a + b[..n - 1]) + [b[n - 1]]
  {
  }

  /** Two buckets of one message never hold the same validator. */
  lemma SameBucket(keys: seq<Key>, i: nat, j: nat, slot: nat, v: nat, t: Target)
    requires WellFormed(t) && i < j < |keys| && keys[i].0 == keys[j].0
    requires (slot, keys[i].1) in t.committees.table && v in t.committees.table[(slot, keys[i].1)]
    requires (slot, keys[j].1) in t.committees.table && v in t.committees.table[(slot, keys[j].1)]
    ensures keys[i] == keys[j]
  {
    assert (slot, keys[i].1) == (slot, keys[j].1);
  }

  /** The packing and the residuals together are what a slot counts. */
  lemma CountedTogether(st: State, slot: nat, t: Target, order: seq<Aggregate>, packed: map<AttestationData, set<nat>>,
                        chosen: seq<Aggregate>, ours: seq<Aggregate>, keys: seq<Key>)
    requires Inv(st, t) && WellFormed(t) && multiset(order) == multiset(PendingAt(st, slot))
    requires Packed(order, packed, chosen) && chosen == PackedAt(st, slot)
    requires ResidualsOf(ours, keys, SummedAt(st, slot).Keys, SummedAt(st, slot), packed, t)
    ensures TakeSeparate(chosen, ours) == chosen + ours && Counted(chosen + ours, st, slot, t)
  {
    var counted := chosen + ours;
    assert BucketsOk(SummedAt(st, slot), slot, t);
    ResidualsSeparate(chosen, ours, keys, st, slot, packed, t, |ours|);
    assert ours[..|ours|] == ours;
    TakesAll(chosen, ours);
    forall a | a in counted ensures AggregateOk(a, slot, t) {
      CountedIsOk(st, slot, t, order, packed, chosen, ours, keys, a);
    }
    forall d, v ensures v in Cover(counted, d) <==> d.slot == slot && CoveredFor(st, d, v) {
      if v in Cover(counted, d) {
        CountedIsCovered(st, slot, t, order, packed, chosen, ours, keys, d, v);
      }
      if d.slot == slot && CoveredFor(st, d, v) {
        CoveredIsCounted(st, slot, t, order, packed, chosen, ours, keys, d, v);
      }
    }
    forall a | a in PendingAt(st, slot)
      ensures (a in counted || Overlap(Cover(counted, a.data), a.signers)) && Matched(a, counted)
    {
      RefusedOverlaps(order, packed, chosen, ours, PendingAt(st, slot), a);
    }
  }

  lemma CountedIsOk(st: State, slot: nat, t: Target, order: seq<Aggregate>, packed: map<AttestationData, set<nat>>,
                    chosen: seq<Aggregate>, ours: seq<Aggregate>, keys: seq<Key>, a: Aggregate)
    requires Inv(st, t) && multiset(order) == multiset(PendingAt(st, slot)) && Packed(order, packed, chosen)
    requires ResidualsOf(ours, keys, SummedAt(st, slot).Keys, SummedAt(st, slot), packed, t)
    requires a in chosen + ours
    ensures AggregateOk(a, slot, t)
  {
    if a in chosen {
      SameElements(order, PendingAt(st, slot), a);
    } else {
      var i: nat :| i < |ours| && ours[i] == a;
      assert BucketsOk(SummedAt(st, slot), slot, t);
      assert Residual(SummedAt(st, slot)[keys[i]], CoveredBy(packed, keys[i].0), t) == Some(a);
      var v :| v in a.signers;
      ResidualSource(ours, keys, st, slot, packed, t, i, v);
    }
  }

  lemma CountedIsCovered(st: State, slot: nat, t: Target, order: seq<Aggregate>, packed: map<AttestationData, set<nat>>,
                         chosen: seq<Aggregate>, ours: seq<Aggregate>, keys: seq<Key>, d: AttestationData, v: nat)
    requires Inv(st, t) && multiset(order) == multiset(PendingAt(st, slot)) && Packed(order, packed, chosen)
    requires ResidualsOf(ours, keys, SummedAt(st, slot).Keys, SummedAt(st, slot), packed, t)
    requires v in Cover(chosen + ours, d)
    ensures d.slot == slot && (v in Cover(chosen, d) || HeardSingly(st, d, v))
  {
    var a := CoverFrom(chosen + ours, d, v);
    CountedIsOk(st, slot, t, order, packed, chosen, ours, keys, a);
    if a in chosen {
      CoverHas(chosen, a);
    } else {
      var i: nat :| i < |ours| && ours[i] == a;
      assert BucketsOk(SummedAt(st, slot), slot, t);
      ResidualSource(ours, keys, st, slot, packed, t, i, v);
      assert keys[i] == (d, keys[i].1);
    }
  }

  /** An uncovered member of a bucket is in its residual. */
  lemma InResidual(ours: seq<Aggregate>, keys: seq<Key>, buckets: map<Key, Summed>,
                   packed: map<AttestationData, set<nat>>, t: Target, k: Key, v: nat)
    requires ResidualsOf(ours, keys, buckets.Keys, buckets, packed, t)
    requires k in buckets && buckets[k].data == k.0 && v in buckets[k].signers && v !in CoveredBy(packed, k.0)
    ensures v in Cover(ours, k.0)
  {
    assert v in buckets[k].signers.Keys - CoveredBy(packed, k.0);
    assert Residual(buckets[k], CoveredBy(packed, k.0), t).Some?;
    var i: nat :| i < |keys| && keys[i] == k;
    CoverHas(ours, ours[i]);
  }

  lemma CoveredIsCounted(st: State, slot: nat, t: Target, order: seq<Aggregate>, packed: map<AttestationData, set<nat>>,
                         chosen: seq<Aggregate>, ours: seq<Aggregate>, keys: seq<Key>, d: AttestationData, v: nat)
    requires Inv(st, t) && Packed(order, packed, chosen)
    requires ResidualsOf(ours, keys, SummedAt(st, slot).Keys, SummedAt(st, slot), packed, t)
    requires d.slot == slot && (v in Cover(chosen, d) || HeardSingly(st, d, v))
    ensures v in Cover(chosen + ours, d)
  {
    CoverJoin(chosen, ours, d);
    if v !in Cover(chosen, d) {
      var c: nat :| (d, c) in SummedAt(st, slot) && v in SummedAt(st, slot)[(d, c)].signers;
      assert SummedOk(SummedAt(st, slot)[(d, c)], (d, c), slot, t);
      InResidual(ours, keys, SummedAt(st, slot), packed, t, (d, c), v);
    }
  }

  lemma RefusedOverlaps(order: seq<Aggregate>, packed: map<AttestationData, set<nat>>, chosen: seq<Aggregate>,
                        ours: seq<Aggregate>, pending: seq<Aggregate>, a: Aggregate)
    requires Packed(order, packed, chosen) && multiset(order) == multiset(pending) && a in pending
    ensures a in chosen + ours || Overlap(Cover(chosen + ours, a.data), a.signers)
    ensures Matched(a, chosen + ours)
  {
    SameElements(order, pending, a);
    var b :| b in chosen && b.data == a.data && |b.signers| >= |a.signers|;
    assert b in chosen + ours;
    if a !in chosen {
      var v :| v in Cover(chosen, a.data) && v in a.signers;
      CoverJoin(chosen, ours, a.data);
      assert v in Cover(chosen + ours, a.data);
    }
  }

  /** The cover of a slot, grouped by message. */
  method CountSlot(st: State, slot: nat, ghost t: Target) returns (byMessage: Messages, ghost counted: seq<Aggregate>)
    requires Inv(st, t) && WellFormed(t)
    ensures Grouped(byMessage, counted) && Counted(counted, st, slot, t)
  {
    var order := BySize(PendingAt(st, slot));
    SortedDescends(PendingAt(st, slot));
    var packed, chosen := Pack(order);
    assert BucketsOk(SummedAt(st, slot), slot, t);
    var ours, keys := Residuals(SummedAt(st, slot), packed, slot, t);
    var filed := FileChosen(packed, chosen, order);
    byMessage := FileOurs(filed, chosen, ours);
    CountedTogether(st, slot, t, order, packed, chosen, ours, keys);
    counted := chosen + ours;
  }

  // ---- the complement ---------------------------------------------------------------------

  /** Everyone a slot's witness names: signers of the minority messages, then absentees. */
  function NamedIn(c: SlotWitness): seq<nat>
  {
    SignersIn(c.secondary) + IndicesOf(c.absentees)
  }

  /** The covers of all messages but one, together. */
  ghost predicate OthersCover(named: set<nat>, counted: seq<Aggregate>, primary: AttestationData)
  {
    && (forall d, v :: d != primary && v in Cover(counted, d) ==> v in named)
    && (forall v :: v in named ==> exists d :: d != primary && v in Cover(counted, d))
  }

  ghost predicate HeardAllSingly(st: State, d: AttestationData, s: set<nat>)
  {
    forall v :: v in s ==> HeardSingly(st, d, v)
  }

  /** One primary attestation, signed by each of the cover once; the cover someone, and exactly
      those in a packed aggregate of the message or heard alone for it. */
  ghost predicate PrimarySound(c: SlotWitness, cover: set<nat>, st: State, slot: nat, t: Target)
  {
    && cover != {} && |c.primary| == 1 && OneUnnamedMessage(c.primary)
    && c.primary[0].data.slot == slot && c.primary[0].data.link == t.link
    && c.primary[0].signature == Compressed(SignedBy(cover, t.RootOf(c.primary[0].data)))
    && (forall v :: v in cover <==> CoveredFor(st, c.primary[0].data, v))
  }

  /** No smaller than any aggregate, or any message's single signers. */
  ghost predicate LargestCover(cover: set<nat>, st: State, slot: nat)
  {
    && (forall a :: a in PendingAt(st, slot) ==> |a.signers| <= |cover|)
    && (forall d: AttestationData, s: set<nat> :: d.slot == slot && HeardAllSingly(st, d, s) ==> |s| <= |cover|)
  }

  /** What a complement promises. `cover` is who its primary signature is of; everyone else of
      the committee is named exactly once, and the balance is what the circuit will count. */
  ghost predicate Sound(r: SlotComplement, cover: set<nat>, st: State, slot: nat, t: Target)
  {
    && t.slotsPerEpoch > 0 && slot % t.slotsPerEpoch < |t.committees.members| == |t.committees.aggregates|
    && var c, members := r.complement, ToSet(t.committees.members[slot % t.slotsPerEpoch]);
    && r.slot == slot && c.slot == slot % t.slotsPerEpoch
    && t.committees.aggregates[c.slot] == Some(c.committee)
    && PrimarySound(c, cover, st, slot, t) && LargestCover(cover, st, slot)
    && (forall s :: s in c.secondary ==> NamedOk(s, slot, t)) && FromOpenings(c.absentees, t.committees)
    && cover <= members && NamesEach(NamedIn(c), members - cover)
    && NamesEach(r.named, members - cover) && Increasing(r.named)
    && r.marginal == SlotSupport(c)
  }

  /** Everyone counted is a member of the slot. */
  lemma CoverIsMembers(counted: seq<Aggregate>, st: State, slot: nat, t: Target, d: AttestationData, v: nat)
    requires Counted(counted, st, slot, t) && WellFormed(t) && v in Cover(counted, d)
    ensures slot % t.slotsPerEpoch < |t.committees.members| && v in t.committees.members[slot % t.slotsPerEpoch]
    ensures d.slot == slot
  {
    var a := CoverFrom(counted, d, v);
    assert AggregateOk(a, slot, t);
    var c :| (slot, c) in t.committees.table && v in t.committees.table[(slot, c)];
  }

  lemma CountedIsHeard(counted: seq<Aggregate>, st: State, slot: nat, t: Target, d: AttestationData, v: nat)
    requires Counted(counted, st, slot, t) && v in Cover(counted, d)
    ensures d.slot == slot && HeardFor(st, d, v)
  {
    CoveredIsHeard(st, d, v);
  }

  /** Covers of different messages share no one. */
  lemma CoversApart(counted: seq<Aggregate>, st: State, slot: nat, t: Target, d: AttestationData, e: AttestationData)
    requires Counted(counted, st, slot, t) && WellFormed(t) && OneMessageEach(st, slot) && d != e
    ensures Cover(counted, d) !! Cover(counted, e)
  {
    forall v | v in Cover(counted, d) ensures v !in Cover(counted, e) {
      if v in Cover(counted, e) {
        CountedIsHeard(counted, st, slot, t, d, v);
        CountedIsHeard(counted, st, slot, t, e, v);
      }
    }
  }

  /** Every member of the slot is in the committee proof. */
  ghost predicate MembersOpen(t: Target, slot: nat)
  {
    && t.slotsPerEpoch > 0 && slot % t.slotsPerEpoch < |t.committees.members|
    && forall v :: v in t.committees.members[slot % t.slotsPerEpoch] ==> v in t.committees.openings
  }

  /** What naming a message's signers needs. */
  lemma MessageReady(counted: seq<Aggregate>, st: State, slot: nat, t: Target, d: AttestationData)
    requires Counted(counted, st, slot, t) && WellFormed(t)
    ensures OpensThemselves(t.committees)
    ensures Apart(Of(counted, d)) && Union(Of(counted, d)) == Cover(counted, d)
    ensures forall a :: a in Of(counted, d) ==> AggregateOk(a, slot, t)
    ensures MembersOpen(t, slot) ==> SignersOpen(Of(counted, d), t.committees)
  {
    OfIsApart(counted, d);
    SignersAreOpen(counted, st, slot, t, d);
  }

  lemma SignersAreOpen(counted: seq<Aggregate>, st: State, slot: nat, t: Target, d: AttestationData)
    requires Counted(counted, st, slot, t) && WellFormed(t)
    ensures MembersOpen(t, slot) ==> SignersOpen(Of(counted, d), t.committees)
  {
    OfIsApart(counted, d);
    forall a, v | a in Of(counted, d) && v in a.signers
      ensures slot % t.slotsPerEpoch < |t.committees.members| && v in t.committees.members[slot % t.slotsPerEpoch]
    {
      CoverHas(counted, a);
      CoverIsMembers(counted, st, slot, t, d, v);
    }
  }

  /** Whoever is heard, someone is covered for that message. */
  lemma HeardIsCovered(counted: seq<Aggregate>, st: State, slot: nat, t: Target, d: AttestationData, v: nat)
    requires Counted(counted, st, slot, t) && d.slot == slot && HeardFor(st, d, v)
    ensures Cover(counted, d) != {}
  {
    if HeardSingly(st, d, v) {
      assert CoveredFor(st, d, v);
    } else {
      var a := CoverFrom(PendingAt(st, slot), d, v);
      if a in counted { CoverHas(counted, a); }
    }
  }

  /** A message that covers someone has aggregates to merge. */
  lemma CoveredHasAggregates(counted: seq<Aggregate>, d: AttestationData)
    requires Separate(counted) && Cover(counted, d) != {}
    ensures Of(counted, d) != []
  {
    OfIsApart(counted, d);
  }

  /** The minority messages, each signer named once. */
  method NameMinority(byMessage: Messages, primary: AttestationData, t: Target, ghost counted: seq<Aggregate>,
                      ghost st: State, ghost slot: nat)
    returns (ok: bool, secondary: seq<Attestation>, named: set<nat>)
    requires Grouped(byMessage, counted) && Counted(counted, st, slot, t) && WellFormed(t) && OneMessageEach(st, slot)
    ensures ok ==> NamesEach(SignersIn(secondary), named) && OthersCover(named, counted, primary)
    ensures ok ==> forall s :: s in secondary ==> NamedOk(s, slot, t)
    ensures MembersOpen(t, slot) ==> ok
  {
    hide Counted, WellFormed, OneMessageEach, SignersOpen, MembersOpen, NamedOk, AggregateOk, Separate;
    secondary, named := [], {};
    var rest: set<AttestationData> := byMessage.Keys - {primary};
    ghost var done: set<AttestationData> := {};
    while rest != {}
      invariant rest <= byMessage.Keys - {primary} && done == byMessage.Keys - {primary} - rest
      invariant NamesEach(SignersIn(secondary), named) && CoversOfDone(named, done, counted)
      invariant forall s :: s in secondary ==> NamedOk(s, slot, t)
      decreases rest
    {
      var d: AttestationData :| d in rest;
      MessageReady(counted, st, slot, t, d);
      var atts := NameMessage(byMessage[d].0, t.committees, slot, t);
      if atts.None? {
        return false, secondary, named;
      }
      NewMessage(named, done, counted, st, slot, t, d);
      NamesJoin(SignersIn(secondary), named, SignersIn(atts.value), Cover(counted, d));
      SignersInJoin(secondary, atts.value);
      secondary, named := secondary + atts.value, named + byMessage[d].1;
      rest := rest - {d};
      done := done + {d};
    }
    ok := true;
    assert done == byMessage.Keys - {primary};
  }

  ghost predicate CoversOfDone(named: set<nat>, done: set<AttestationData>, counted: seq<Aggregate>)
  {
    && (forall d, v :: d in done && v in Cover(counted, d) ==> v in named)
    && (forall v :: v in named ==> exists d :: d in done && v in Cover(counted, d))
  }

  lemma NewMessage(named: set<nat>, done: set<AttestationData>, counted: seq<Aggregate>, st: State, slot: nat, t: Target,
                   d: AttestationData)
    requires CoversOfDone(named, done, counted) && d !in done
    requires Counted(counted, st, slot, t) && WellFormed(t) && OneMessageEach(st, slot)
    ensures named !! Cover(counted, d)
    ensures CoversOfDone(named + Cover(counted, d), done + {d}, counted)
  {
    forall v | v in named ensures v !in Cover(counted, d) {
      var e :| e in done && v in Cover(counted, e);
      CoversApart(counted, st, slot, t, d, e);
    }
    forall v | v in named + Cover(counted, d) ensures exists e :: e in done + {d} && v in Cover(counted, e) {
      if v in named {
        var e :| e in done && v in Cover(counted, e);
        assert e in done + {d};
      } else {
        assert d in done + {d};
      }
    }
  }

  /** The members before `i` neither covered nor named are opened, and weigh no more than all. */
  ghost predicate AbsentSoFar(vs: seq<OpenedValidator>, members: seq<nat>, i: nat, cover: set<nat>, named: set<nat>,
                              c: Committees)
    requires i <= |members|
  {
    && NamesEach(IndicesOf(vs), ToSet(members[..i]) - cover - named) && FromOpenings(vs, c)
    && NamedBalance(vs) <= BalanceSum(members[..i], c)
  }

  lemma MemberSkipped(vs: seq<OpenedValidator>, members: seq<nat>, i: nat, cover: set<nat>, named: set<nat>, c: Committees)
    requires Distinct(members) && i < |members| && AbsentSoFar(vs, members, i, cover, named, c)
    requires members[i] in cover || members[i] in named
    ensures AbsentSoFar(vs, members, i + 1, cover, named, c)
  {
    hide NamesEach, FromOpenings, IndicesOf, NamedBalance;
    NextMember(members, i, cover, named);
    assert members[..i + 1][..i] == members[..i];
  }

  lemma MemberNamed(vs: seq<OpenedValidator>, members: seq<nat>, i: nat, cover: set<nat>, named: set<nat>, c: Committees)
    requires Distinct(members) && OpensThemselves(c) && i < |members| && AbsentSoFar(vs, members, i, cover, named, c)
    requires members[i] !in cover && members[i] !in named && members[i] in c.openings
    ensures AbsentSoFar(vs + [c.openings[members[i]]], members, i + 1, cover, named, c)
  {
    hide NamesEach;
    var v := members[i];
    NextMember(members, i, cover, named);
    assert members[..i + 1][..i] == members[..i] && members[..i + 1][i] == v;
    assert IndicesOf(vs + [c.openings[v]]) == IndicesOf(vs) + [v];
    JustOne(v);
    NamesJoin(IndicesOf(vs), ToSet(members[..i]) - cover - named, [v], {v});
    assert (vs + [c.openings[v]])[..|vs|] == vs;
  }

  lemma JustOne(v: nat)
    ensures NamesEach([v], {v})
  {
  }

  /** Committee members neither covered nor named, opened, and what they weigh. */
  method NameAbsentees(members: seq<nat>, cover: set<nat>, named: set<nat>, c: Committees)
    returns (r: Option<seq<OpenedValidator>>)
    requires Distinct(members) && OpensThemselves(c)
    ensures r.Some? ==> NamesEach(IndicesOf(r.value), ToSet(members) - cover - named) && FromOpenings(r.value, c)
    ensures r.Some? ==> NamedBalance(r.value) <= BalanceSum(members, c)
    ensures (forall v :: v in members ==> v in c.openings) ==> r.Some?
  {
    var vs: seq<OpenedValidator> := [];
    for i := 0 to |members|
      invariant AbsentSoFar(vs, members, i, cover, named, c)
    {
      var v := members[i];
      if v !in cover && v !in named {
        if v !in c.openings {
          assert v in members;
          return None;
        }
        MemberNamed(vs, members, i, cover, named, c);
        vs := vs + [c.openings[v]];
      } else {
        MemberSkipped(vs, members, i, cover, named, c);
      }
    }
    assert members[..|members|] == members;
    r := Some(vs);
  }

  lemma NextMember(members: seq<nat>, i: nat, cover: set<nat>, named: set<nat>)
    requires Distinct(members) && i < |members|
    ensures
      var v, before := members[i], ToSet(members[..i]) - cover - named;
      && v !in before
      && ToSet(members[..i + 1]) - cover - named == if v in cover || v in named then before else before + {v}
  {
    assert members[..i + 1] == members[..i] + [members[i]];
  }

  /** The committee less the cover is the minority's signers and the absentees. */
  lemma NamedIsRest(members: set<nat>, cover: set<nat>, named: set<nat>)
    requires named <= members && named !! cover
    ensures named + (members - cover - named) == members - cover
  {
  }

  lemma OthersAreMembers(named: set<nat>, counted: seq<Aggregate>, primary: AttestationData, st: State, slot: nat, t: Target)
    requires OthersCover(named, counted, primary) && Counted(counted, st, slot, t) && WellFormed(t)
    requires OneMessageEach(st, slot) && slot % t.slotsPerEpoch < |t.committees.members|
    ensures named <= ToSet(t.committees.members[slot % t.slotsPerEpoch]) && named !! Cover(counted, primary)
  {
    forall v | v in named ensures v in t.committees.members[slot % t.slotsPerEpoch] && v !in Cover(counted, primary) {
      var d :| d != primary && v in Cover(counted, d);
      CoverIsMembers(counted, st, slot, t, d, v);
      CoversApart(counted, st, slot, t, d, primary);
    }
  }

  /** The primary attestation: one signature of everyone covered, once each. */
  lemma PrimarySigned(counted: seq<Aggregate>, st: State, slot: nat, t: Target, d: AttestationData)
    requires Counted(counted, st, slot, t) && Of(counted, d) != []
    ensures SumOf(Of(counted, d)) == SignedBy(Cover(counted, d), t.RootOf(d))
    ensures Of(counted, d)[0].data == d && d.slot == slot && d.link == t.link
  {
    OfIsApart(counted, d);
    forall a | a in Of(counted, d) ensures a.signature == SignedBy(a.signers, t.RootOf(d)) {
      assert AggregateOk(a, slot, t);
    }
    assert AggregateOk(Of(counted, d)[0], slot, t);
    SumOfApart(Of(counted, d), t.RootOf(d));
  }

  lemma AloneIsOneMessage(a: Attestation)
    requires a.signers == []
    ensures OneUnnamedMessage([a])
  {
  }

  lemma SomeoneSigned(counted: seq<Aggregate>, st: State, slot: nat, t: Target, d: AttestationData)
    requires Counted(counted, st, slot, t) && Of(counted, d) != []
    ensures Cover(counted, d) != {}
  {
    OfIsApart(counted, d);
    var a := Of(counted, d)[0];
    assert AggregateOk(a, slot, t);
    CoverHas(counted, a);
  }

  lemma PrimaryIsSound(c: SlotWitness, counted: seq<Aggregate>, st: State, slot: nat, t: Target, d: AttestationData)
    requires Counted(counted, st, slot, t) && Of(counted, d) != []
    requires c.primary == [Attestation(Of(counted, d)[0].data, Compressed(SumOf(Of(counted, d))), [])]
    ensures PrimarySound(c, Cover(counted, d), st, slot, t)
  {
    PrimarySigned(counted, st, slot, t, d);
    SomeoneSigned(counted, st, slot, t, d);
    AloneIsOneMessage(c.primary[0]);
    assert c.primary == [c.primary[0]];
  }

  /** The minority's signers and the absentees are the committee less the cover. */
  lemma RestIsNamed(counted: seq<Aggregate>, st: State, slot: nat, t: Target, primary: AttestationData,
                    secondary: seq<Attestation>, named: set<nat>, absentees: seq<OpenedValidator>)
    requires Counted(counted, st, slot, t) && WellFormed(t) && OneMessageEach(st, slot)
    requires slot % t.slotsPerEpoch < |t.committees.members|
    requires NamesEach(SignersIn(secondary), named) && OthersCover(named, counted, primary)
    requires NamesEach(IndicesOf(absentees),
                       ToSet(t.committees.members[slot % t.slotsPerEpoch]) - Cover(counted, primary) - named)
    ensures
      var rest := ToSet(t.committees.members[slot % t.slotsPerEpoch]) - Cover(counted, primary);
      && Cover(counted, primary) <= ToSet(t.committees.members[slot % t.slotsPerEpoch])
      && NamesEach(SignersIn(secondary) + IndicesOf(absentees), rest)
      && named + ToSet(IndicesOf(absentees)) == rest
  {
    var members, cover := ToSet(t.committees.members[slot % t.slotsPerEpoch]), Cover(counted, primary);
    OthersAreMembers(named, counted, primary, st, slot, t);
    CoverWithinMembers(counted, st, slot, t, primary);
    NamedIsRest(members, cover, named);
    NamesJoin(SignersIn(secondary), named, IndicesOf(absentees), members - cover - named);
  }

  /** Cover, minority and absentees, put together. */
  lemma PartsAreSound(c: SlotWitness, counted: seq<Aggregate>, st: State, slot: nat, t: Target, primary: AttestationData,
                      named: set<nat>)
    requires Counted(counted, st, slot, t) && WellFormed(t) && OneMessageEach(st, slot)
    requires slot % t.slotsPerEpoch < |t.committees.members| && Of(counted, primary) != []
    requires c.primary == [Attestation(Of(counted, primary)[0].data, Compressed(SumOf(Of(counted, primary))), [])]
    requires NamesEach(SignersIn(c.secondary), named) && OthersCover(named, counted, primary)
    requires NamesEach(IndicesOf(c.absentees),
                       ToSet(t.committees.members[slot % t.slotsPerEpoch]) - Cover(counted, primary) - named)
    ensures
      var cover, members := Cover(counted, primary), ToSet(t.committees.members[slot % t.slotsPerEpoch]);
      && PrimarySound(c, cover, st, slot, t) && cover <= members
      && NamesEach(NamedIn(c), members - cover) && named + ToSet(IndicesOf(c.absentees)) == members - cover
  {
    RestIsNamed(counted, st, slot, t, primary, c.secondary, named, c.absentees);
    PrimaryIsSound(c, counted, st, slot, t, primary);
  }

  lemma AssembledIsSound(r: SlotComplement, counted: seq<Aggregate>, st: State, slot: nat, t: Target,
                         primary: AttestationData, named: set<nat>)
    requires Counted(counted, st, slot, t) && WellFormed(t) && OneMessageEach(st, slot)
    requires slot % t.slotsPerEpoch < |t.committees.members| && Of(counted, primary) != []
    requires r.slot == slot && r.complement.slot == slot % t.slotsPerEpoch && r.marginal == SlotSupport(r.complement)
    requires t.committees.aggregates[r.complement.slot] == Some(r.complement.committee)
    requires r.complement.primary == [Attestation(Of(counted, primary)[0].data, Compressed(SumOf(Of(counted, primary))), [])]
    requires NamesEach(SignersIn(r.complement.secondary), named) && OthersCover(named, counted, primary)
    requires forall s :: s in r.complement.secondary ==> NamedOk(s, slot, t)
    requires FromOpenings(r.complement.absentees, t.committees)
    requires NamesEach(IndicesOf(r.complement.absentees),
                       ToSet(t.committees.members[slot % t.slotsPerEpoch]) - Cover(counted, primary) - named)
    requires NamesEach(r.named, named + ToSet(IndicesOf(r.complement.absentees))) && Increasing(r.named)
    requires LargestCover(Cover(counted, primary), st, slot)
    ensures Sound(r, Cover(counted, primary), st, slot, t)
  {
    PartsAreSound(r.complement, counted, st, slot, t, primary, named);
  }

  lemma CoverWithinMembers(counted: seq<Aggregate>, st: State, slot: nat, t: Target, d: AttestationData)
    requires Counted(counted, st, slot, t) && WellFormed(t) && slot % t.slotsPerEpoch < |t.committees.members|
    ensures Cover(counted, d) <= ToSet(t.committees.members[slot % t.slotsPerEpoch])
  {
    forall v | v in Cover(counted, d) ensures v in t.committees.members[slot % t.slotsPerEpoch] {
      CoverIsMembers(counted, st, slot, t, d, v);
    }
  }

  lemma Smaller(s: set<nat>, t: set<nat>)
    requires s <= t
    ensures |s| <= |t|
  {
    if s != {} {
      var v :| v in s;
      Smaller(s - {v}, t - {v});
    }
  }

  /** The largest message's cover is no smaller than any aggregate or any message's singles. */
  lemma LargestOfAll(byMessage: Messages, counted: seq<Aggregate>, st: State, slot: nat, t: Target, primary: AttestationData)
    requires Grouped(byMessage, counted) && Counted(counted, st, slot, t) && primary in byMessage
    requires forall e :: e in byMessage ==> |byMessage[e].1| <= |byMessage[primary].1|
    ensures LargestCover(Cover(counted, primary), st, slot)
  {
    forall a | a in PendingAt(st, slot) ensures |a.signers| <= |Cover(counted, primary)| {
      var b :| b in counted && b.data == a.data && |b.signers| >= |a.signers|;
      CoverHas(counted, b);
      Smaller(b.signers, Cover(counted, b.data));
    }
    forall d: AttestationData, s: set<nat> | d.slot == slot && HeardAllSingly(st, d, s)
      ensures |s| <= |Cover(counted, primary)|
    {
      assert s <= Cover(counted, d);
      Smaller(s, Cover(counted, d));
    }
  }

  /** A committee for the slot, its members known, and someone heard. */
  ghost predicate Complementable(st: State, slot: nat, t: Target)
  {
    && MembersOpen(t, slot) && slot % t.slotsPerEpoch < |t.committees.aggregates|
    && t.committees.aggregates[slot % t.slotsPerEpoch].Some?
    && SomeoneHeard(st, slot)
  }

  ghost predicate SomeoneHeard(st: State, slot: nat)
  {
    exists d: AttestationData, v: nat :: d.slot == slot && HeardFor(st, d, v)
  }

  lemma SomeoneCovered(byMessage: Messages, counted: seq<Aggregate>, st: State, slot: nat, t: Target)
    requires Grouped(byMessage, counted) && Counted(counted, st, slot, t)
    ensures SomeoneHeard(st, slot) ==> exists d :: d in byMessage && byMessage[d].1 != {}
  {
    if SomeoneHeard(st, slot) {
      var d: AttestationData, v: nat :| d.slot == slot && HeardFor(st, d, v);
      HeardIsCovered(counted, st, slot, t, d, v);
      assert d in byMessage && byMessage[d].1 != {};
    }
  }

  /** Nothing held, no one heard. */
  lemma SilentSlot(st: State, slot: nat)
    requires PendingAt(st, slot) == [] && SummedAt(st, slot) == map[]
    ensures !SomeoneHeard(st, slot)
  {
  }

  class SlotStream {
    const target: Target
    var pending: map<nat, seq<Aggregate>>
    var summed: map<nat, map<(AttestationData, nat), Summed>>
    var closed: set<nat>

    function Held(): State
      reads this
    {
      State(pending, summed, closed)
    }

    constructor (target: Target)
      ensures this.target == target && Held() == NOTHING_HELD && Inv(Held(), target)
    {
      this.target := target;
      pending, summed, closed := map[], map[], {};
      new;
      EmptyIsInv(target);
    }

    /** `ingest`: feeds what has arrived, up to the first attestation that fails. */
    method Ingest(attestations: seq<Response>) returns (ok: bool)
      modifies this
      ensures Held() == Ingested(old(Held()), attestations, target).state
      ensures ok == Ingested(old(Held()), attestations, target).ok
      ensures Inv(old(Held()), target) && AllHonest(attestations, target) ==> Inv(Held(), target)
    {
      if Inv(Held(), target) && AllHonest(attestations, target) {
        IngestKeepsInv(Held(), attestations, target);
      }
      for i := 0 to |attestations|
        invariant Ingested(old(Held()), attestations[..i], target) == Fed(Held(), true)
      {
        assert attestations[..i + 1][..i] == attestations[..i];
        ok := FeedOne(attestations[i]);
        if !ok {
          IngestStops(old(Held()), attestations, target, i + 1);
          return;
        }
      }
      assert attestations[..|attestations|] == attestations;
      ok := true;
    }

    method FeedOne(att: Response) returns (ok: bool)
      modifies this
      ensures Fed(Held(), ok) == IngestOne(old(Held()), att, target)
    {
      if att.data.link != target.link || att.data.slot in closed {
        return true;
      }
      var signers := ResolveAttesting(att, target.committees);
      if signers.None? {
        return false;
      }
      if signers.value == [] {
        return true;
      }
      var signature := Decompressed(att.signature);
      if att.single.Some? {
        if signature.None? {
          return false;
        }
        AddSingle(att.data, att.single.value, signature.value);
      } else if signature.Some? {
        var slot := att.data.slot;
        var held := if slot in pending then pending[slot] else [];
        pending := pending[slot := held + [Aggregate(att.data, signature.value, ToSet(signers.value))]];
      }
      ok := true;
    }

    /** `sum_single` */
    method AddSingle(data: AttestationData, single: SingleAttester, signature: SignatureSum)
      modifies this`summed
      ensures Held() == SumSingle(old(Held()), data, single, signature)
    {
      var buckets := if data.slot in summed then summed[data.slot] else map[];
      var key := (data, single.committee);
      if key !in buckets {
        buckets := buckets[key := FirstSigner(data, single.attester, signature)];
      } else if single.attester !in buckets[key].signers {
        buckets := buckets[key := NextSigner(buckets[key], single.attester, signature)];
      }
      summed := summed[data.slot := buckets];
    }

    /** `forget` */
    method Forget(slot: nat)
      modifies this
      ensures Held() == Forgotten(old(Held()), slot)
      ensures Inv(old(Held()), target) ==> Inv(Held(), target)
    {
      if Inv(Held(), target) {
        ForgottenKeepsInv(Held(), slot, target);
      }
      pending := pending - {slot};
      summed := summed - {slot};
      closed := closed + {slot};
    }

    /** `peek`: cover selection. For every history that keeps the invariant, with disjoint
        committees and no validator signing two messages of the slot, what it returns is a sound
        complement. It does return one as soon as anyone is heard and the slot's members are
        known; and for a closed slot it returns nothing. */
    method Peek(slot: nat) returns (r: Option<SlotComplement>, ghost cover: set<nat>)
      requires Inv(Held(), target) && WellFormed(target) && OneMessageEach(Held(), slot)
      ensures r.Some? ==> Sound(r.value, cover, Held(), slot, target)
      ensures slot in closed ==> r.None?
      ensures Complementable(Held(), slot, target) ==> r.Some?
    {
      cover := {};
      var slotInEpoch := slot % target.slotsPerEpoch;
      if slotInEpoch >= |target.committees.aggregates| || target.committees.aggregates[slotInEpoch].None? {
        return None, cover;
      }
      if (slot !in summed || summed[slot] == map[]) && (slot !in pending || pending[slot] == []) {
        SilentSlot(Held(), slot);
        return None, cover;
      }
      var byMessage, counted := CountSlot(Held(), slot, target);
      SomeoneCovered(byMessage, counted, Held(), slot, target);
      if byMessage == map[] {
        return None, cover;
      }
      var primary := Largest(byMessage);
      r := Assemble(slot, byMessage, primary, counted);
      cover := Cover(counted, primary);
    }

    /** The witness over a chosen primary message. */
    method Assemble(slot: nat, byMessage: Messages, primary: AttestationData, ghost counted: seq<Aggregate>)
      returns (r: Option<SlotComplement>)
      requires WellFormed(target) && OneMessageEach(Held(), slot)
      requires Grouped(byMessage, counted) && Counted(counted, Held(), slot, target) && primary in byMessage
      requires slot % target.slotsPerEpoch < |target.committees.aggregates|
      requires target.committees.aggregates[slot % target.slotsPerEpoch].Some?
      requires forall e :: e in byMessage ==> |byMessage[e].1| <= |byMessage[primary].1|
      ensures r.Some? ==> Sound(r.value, Cover(counted, primary), Held(), slot, target)
      ensures MembersOpen(target, slot) && Cover(counted, primary) != {} ==> r.Some?
    {
      hide OneMessageEach, PrimarySound, LargestCover, OthersCover;
      var slotInEpoch := slot % target.slotsPerEpoch;
      var committee, members := target.committees.aggregates[slotInEpoch].value, target.committees.members[slotInEpoch];
      var attestation := Merge(byMessage[primary].0);
      if attestation.None? {
        if Cover(counted, primary) != {} { CoveredHasAggregates(counted, primary); }
        return None;
      }
      var ok, secondary, named := NameMinority(byMessage, primary, target, counted, Held(), slot);
      if !ok {
        return None;
      }
      var covered := byMessage[primary].1;
      var absentees := NameAbsentees(members, covered, named, target.committees);
      if absentees.None? {
        return None;
      }
      var all := Ascending(named + ToSet(IndicesOf(absentees.value)));
      var c := SlotWitness(slotInEpoch, committee, [attestation.value], secondary, absentees.value);
      var complement := SlotComplement(slot, c, committee.balance - NamedBalance(absentees.value), all);
      LargestOfAll(byMessage, counted, Held(), slot, target, primary);
      AssembledIsSound(complement, counted, Held(), slot, target, primary, named);
      r := Some(complement);
    }

    /** `close` */
    method Close(slot: nat) returns (r: Option<SlotComplement>, ghost cover: set<nat>)
      requires Inv(Held(), target) && WellFormed(target) && OneMessageEach(Held(), slot)
      modifies this
      ensures r.Some? ==> Sound(r.value, cover, old(Held()), slot, target) && Held() == Forgotten(old(Held()), slot)
      ensures r.None? ==> Held() == old(Held())
      ensures Inv(Held(), target)
      ensures Complementable(old(Held()), slot, target) ==> r.Some?
    {
      r, cover := Peek(slot);
      if r.Some? {
        Forget(slot);
      }
    }
  }

  lemma {:induction false} IngestStops(st: State, atts: seq<Response>, t: Target, n: nat)
    requires n <= |atts| && !Ingested(st, atts[..n], t).ok
    ensures Ingested(st, atts, t) == Ingested(st, atts[..n], t)
    decreases |atts| - n
  {
    if n == |atts| {
      assert atts[..n] == atts;
    } else {
      assert atts[..n + 1][..n] == atts[..n];
      IngestStops(st, atts, t, n + 1);
    }
  }

  /** A forgotten slot holds nothing, and no later feeding brings it back. */
  lemma {:induction false} ForgottenStaysForgotten(st: State, atts: seq<Response>, t: Target, slot: nat)
    requires slot in st.closed && slot !in st.pending && slot !in st.summed
    ensures
      var after := Ingested(st, atts, t).state;
      slot in after.closed && slot !in after.pending && slot !in after.summed
    decreases |atts|
  {
    if atts != [] {
      ForgottenStaysForgotten(st, atts[..|atts| - 1], t, slot);
    }
  }

  // ---- every history ------------------------------------------------------------------------

  /** What a caller may do to the collector. */
  datatype Step = Feed(attestations: seq<Response>) | Drop(slot: nat)

  function Taken(st: State, step: Step, t: Target): State
  {
    match step
    case Feed(attestations) => Ingested(st, attestations, t).state
    case Drop(slot) => Forgotten(st, slot)
  }

  function Reached(steps: seq<Step>, t: Target): State
    decreases |steps|
  {
    if steps == [] then NOTHING_HELD else Taken(Reached(steps[..|steps| - 1], t), steps[|steps| - 1], t)
  }

  ghost predicate HonestSteps(steps: seq<Step>, t: Target)
  {
    forall s :: s in steps && s.Feed? ==> AllHonest(s.attestations, t)
  }

  /** Every history of honest responses, fed and forgotten in any order, keeps the invariant. */
  lemma {:induction false} ReachedIsInv(steps: seq<Step>, t: Target)
    requires HonestSteps(steps, t)
    ensures Inv(Reached(steps, t), t)
    decreases |steps|
  {
    if steps == [] {
      EmptyIsInv(t);
    } else {
      var n := |steps| - 1;
      ReachedIsInv(steps[..n], t);
      match steps[n] {
        case Feed(attestations) => IngestKeepsInv(Reached(steps[..n], t), attestations, t);
        case Drop(slot) => ForgottenKeepsInv(Reached(steps[..n], t), slot, t);
      }
    }
  }

  // ---- whom packing misses --------------------------------------------------------------------

  /** Packing loses no one of a message: each aggregate is taken in its turn, or everyone in it
      is covered without it. */
  ghost predicate NoneLost(st: State, d: AttestationData)
  {
    var order := SortedBySize(PendingAt(st, d.slot));
    forall i :: 0 <= i < |order| && order[i].data == d ==> TakenInTurn(order, i) || AllCovered(st, d, order[i].signers)
  }

  ghost predicate AllCovered(st: State, d: AttestationData, signers: set<nat>)
  {
    forall v :: v in signers ==> CoveredFor(st, d, v)
  }

  /** Everyone heard for a message is covered exactly when packing loses no one. */
  lemma HeardIsCoveredUnlessLost(st: State, d: AttestationData)
    ensures (forall v :: HeardFor(st, d, v) ==> CoveredFor(st, d, v)) <==> NoneLost(st, d)
  {
    var pending := PendingAt(st, d.slot);
    var order := SortedBySize(pending);
    SortedDescends(pending);
    if NoneLost(st, d) {
      forall v | HeardFor(st, d, v) ensures CoveredFor(st, d, v) {
        if !HeardSingly(st, d, v) {
          var a := CoverFrom(pending, d, v);
          SameElements(order, pending, a);
          var i: nat :| i < |order| && order[i] == a;
          if TakenInTurn(order, i) {
            TurnIsCovered(order, i);
          }
        }
      }
    }
    if forall v :: HeardFor(st, d, v) ==> CoveredFor(st, d, v) {
      forall i, v | 0 <= i < |order| && order[i].data == d && v in order[i].signers ensures CoveredFor(st, d, v) {
        SameElements(order, pending, order[i]);
        CoverHas(pending, order[i]);
        assert HeardFor(st, d, v);
      }
    }
  }

  /** What `peek` returns covers everyone heard for its message exactly when packing loses no one. */
  lemma PeekCoversUnlessLost(r: SlotComplement, cover: set<nat>, st: State, slot: nat, t: Target)
    requires Sound(r, cover, st, slot, t)
    ensures
      var d := r.complement.primary[0].data;
      (forall v :: HeardFor(st, d, v) ==> v in cover) <==> NoneLost(st, d)
  {
    HeardIsCoveredUnlessLost(st, r.complement.primary[0].data);
  }
}
