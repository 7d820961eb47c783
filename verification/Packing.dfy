/** Choosing a cover: network aggregates packed greedily, unaggregated attestations filling what
    the packing missed, everything grouped by message. */
module Packing {
  import opened Wrappers
  import opened FormalSums
  import opened Ssz
  import opened Bls
  import opened Folds
  import opened Splitting
  import opened Collector

  /** The signers a list of aggregates counts for one message. */
  function Cover(aggregates: seq<Aggregate>, d: AttestationData): set<nat>
    decreases |aggregates|
  {
    if aggregates == [] then {}
    else
      var before, last := Cover(aggregates[..|aggregates| - 1], d), aggregates[|aggregates| - 1];
      if last.data == d then before + last.signers else before
  }

  /** The aggregates of one message, in order. */
  function Of(aggregates: seq<Aggregate>, d: AttestationData): seq<Aggregate>
    decreases |aggregates|
  {
    if aggregates == [] then []
    else
      var before, last := Of(aggregates[..|aggregates| - 1], d), aggregates[|aggregates| - 1];
      if last.data == d then before + [last] else before
  }

  /** No validator counted twice for one message. */
  ghost predicate Separate(aggregates: seq<Aggregate>)
    decreases |aggregates|
  {
    if aggregates == [] then true
    else
      var last := aggregates[|aggregates| - 1];
      Separate(aggregates[..|aggregates| - 1]) && Cover(aggregates[..|aggregates| - 1], last.data) !! last.signers
  }

  lemma Appended(aggregates: seq<Aggregate>, last: Aggregate, d: AttestationData)
    ensures Cover(aggregates + [last], d) == if last.data == d then Cover(aggregates, d) + last.signers else Cover(aggregates, d)
    ensures Of(aggregates + [last], d) == if last.data == d then Of(aggregates, d) + [last] else Of(aggregates, d)
    ensures Separate(aggregates + [last]) <==> Separate(aggregates) && Cover(aggregates, last.data) !! last.signers
  {
    assert (aggregates + [last])[..|aggregates|] == aggregates;
  }

  lemma {:induction false} CoverHas(aggregates: seq<Aggregate>, a: Aggregate)
    requires a in aggregates
    ensures a.signers <= Cover(aggregates, a.data)
    decreases |aggregates|
  {
    var n := |aggregates| - 1;
    if a != aggregates[n] {
      CoverHas(aggregates[..n], a);
    }
  }

  lemma {:induction false} CoverFrom(aggregates: seq<Aggregate>, d: AttestationData, v: nat) returns (a: Aggregate)
    requires v in Cover(aggregates, d)
    ensures a in aggregates && a.data == d && v in a.signers
    decreases |aggregates|
  {
    var n := |aggregates| - 1;
    if aggregates[n].data == d && v in aggregates[n].signers {
      a := aggregates[n];
    } else {
      a := CoverFrom(aggregates[..n], d, v);
    }
  }

  // ---- packing ----------------------------------------------------------------------------

  function CoveredBy(packed: map<AttestationData, set<nat>>, d: AttestationData): set<nat>
  {
    if d in packed then packed[d] else {}
  }

  predicate Overlap(s: set<nat>, t: set<nat>)
  {
    exists v :: v in s && v in t
  }

  /** Each message seen, with the signers the chosen aggregates count for it. */
  ghost predicate CoversOf(packed: map<AttestationData, set<nat>>, chosen: seq<Aggregate>)
  {
    && (forall d :: d in packed ==> packed[d] == Cover(chosen, d))
    && (forall d :: d !in packed ==> Cover(chosen, d) == {})
  }

  /** What greedy packing of a list leaves: some of its aggregates, separate, and no other that
      could still have been taken. */
  ghost predicate Greedy(order: seq<Aggregate>, chosen: seq<Aggregate>)
  {
    && (forall a :: a in chosen ==> a in order)
    && Separate(chosen)
    && (forall a :: a in order ==> a in chosen || Overlap(Cover(chosen, a.data), a.signers))
    && (forall a :: a in order ==> Matched(a, chosen))
  }

  /** Some chosen aggregate of the same message is at least as large. */
  ghost predicate Matched(a: Aggregate, chosen: seq<Aggregate>)
  {
    exists b :: b in chosen && b.data == a.data && |b.signers| >= |a.signers|
  }

  predicate Descending(order: seq<Aggregate>)
  {
    forall i, j :: 0 <= i < j < |order| ==> |order[i].signers| >= |order[j].signers|
  }

  ghost predicate Packed(order: seq<Aggregate>, packed: map<AttestationData, set<nat>>, chosen: seq<Aggregate>)
  {
    && CoversOf(packed, chosen) && Greedy(order, chosen)
    && (forall a :: a in order ==> a.data in packed)
  }

  lemma CoversTake(packed: map<AttestationData, set<nat>>, chosen: seq<Aggregate>, a: Aggregate)
    requires CoversOf(packed, chosen)
    ensures CoversOf(packed[a.data := Cover(chosen, a.data) + a.signers], chosen + [a])
  {
    var next := packed[a.data := Cover(chosen, a.data) + a.signers];
    forall d | d in next ensures next[d] == Cover(chosen + [a], d) {
      Appended(chosen, a, d);
    }
    forall d | d !in next ensures Cover(chosen + [a], d) == {} {
      Appended(chosen, a, d);
    }
  }

  lemma GreedyTakes(order: seq<Aggregate>, chosen: seq<Aggregate>, a: Aggregate)
    requires Greedy(order, chosen) && !Overlap(Cover(chosen, a.data), a.signers)
    ensures Greedy(order + [a], chosen + [a])
  {
    assert Cover(chosen, a.data) !! a.signers;
    Appended(chosen, a, a.data);
    forall b | b in order + [a] ensures Matched(b, chosen + [a]) {
      if b in order {
        var c :| c in chosen && c.data == b.data && |c.signers| >= |b.signers|;
        assert c in chosen + [a];
      } else {
        assert a in chosen + [a];
      }
    }
    forall b | b in order + [a] ensures b in chosen + [a] || Overlap(Cover(chosen + [a], b.data), b.signers) {
      if b !in chosen + [a] {
        Appended(chosen, a, b.data);
        var v :| v in Cover(chosen, b.data) && v in b.signers;
        assert v in Cover(chosen + [a], b.data);
      }
    }
  }

  ghost predicate NoneSmaller(order: seq<Aggregate>, a: Aggregate)
  {
    forall b :: b in order ==> |b.signers| >= |a.signers|
  }

  lemma EarlierAreLarger(order: seq<Aggregate>, i: nat)
    requires Descending(order) && i < |order|
    ensures NoneSmaller(order[..i], order[i])
  {
    forall b | b in order[..i] ensures |b.signers| >= |order[i].signers| {
      var j: nat :| j < i && order[j] == b;
    }
  }

  /** An aggregate refused after larger ones overlaps one that was taken, and is no larger. */
  lemma GreedyRefuses(order: seq<Aggregate>, chosen: seq<Aggregate>, a: Aggregate)
    requires Greedy(order, chosen) && Overlap(Cover(chosen, a.data), a.signers) && NoneSmaller(order, a)
    ensures Greedy(order + [a], chosen)
  {
    var v :| v in Cover(chosen, a.data) && v in a.signers;
    var b := CoverFrom(chosen, a.data, v);
    assert b in order;
    assert Matched(a, chosen);
  }

  lemma PackedTakes(order: seq<Aggregate>, packed: map<AttestationData, set<nat>>, chosen: seq<Aggregate>, a: Aggregate)
    requires Packed(order, packed, chosen) && !Overlap(CoveredBy(packed, a.data), a.signers)
    ensures Packed(order + [a], packed[a.data := CoveredBy(packed, a.data) + a.signers], chosen + [a])
  {
    assert CoveredBy(packed, a.data) == Cover(chosen, a.data);
    GreedyTakes(order, chosen, a);
    CoversTake(packed, chosen, a);
  }

  lemma PackedRefuses(order: seq<Aggregate>, packed: map<AttestationData, set<nat>>, chosen: seq<Aggregate>, a: Aggregate)
    requires Packed(order, packed, chosen) && Overlap(CoveredBy(packed, a.data), a.signers) && NoneSmaller(order, a)
    ensures Packed(order + [a], packed[a.data := CoveredBy(packed, a.data)], chosen)
  {
    assert CoveredBy(packed, a.data) == Cover(chosen, a.data);
    GreedyRefuses(order, chosen, a);
  }

  /** Aggregates added to a cover in order, each only where it is disjoint from what is there. */
  function TakeSeparate(start: seq<Aggregate>, more: seq<Aggregate>): seq<Aggregate>
    decreases |more|
  {
    if more == [] then start
    else
      var c, last := TakeSeparate(start, more[..|more| - 1]), more[|more| - 1];
      if Overlap(Cover(c, last.data), last.signers) then c else c + [last]
  }

  /** What packing takes from a list, in order. */
  function PackOf(order: seq<Aggregate>): seq<Aggregate>
  {
    TakeSeparate([], order)
  }

  lemma PackOfStep(order: seq<Aggregate>, i: nat)
    requires i < |order|
    ensures PackOf(order[..i + 1])
         == if Overlap(Cover(PackOf(order[..i]), order[i].data), order[i].signers) then PackOf(order[..i])
            else PackOf(order[..i]) + [order[i]]
  {
    PrefixGrows(order, i);
  }

  /** The packing loop of `peek`: largest first, and only where disjoint. */
  method Pack(order: seq<Aggregate>) returns (packed: map<AttestationData, set<nat>>, chosen: seq<Aggregate>)
    requires Descending(order)
    ensures chosen == PackOf(order) && Packed(order, packed, chosen)
  {
    packed, chosen := map[], [];
    for i := 0 to |order|
      invariant chosen == PackOf(order[..i]) && Packed(order[..i], packed, chosen)
    {
      PrefixGrows(order, i);
      PackOfStep(order, i);
      var a := order[i];
      var signers := CoveredBy(packed, a.data);
      if Overlap(signers, a.signers) {
        EarlierAreLarger(order, i);
        PackedRefuses(order[..i], packed, chosen, a);
        packed := packed[a.data := signers];
      } else {
        PackedTakes(order[..i], packed, chosen, a);
        packed, chosen := packed[a.data := signers + a.signers], chosen + [a];
      }
    }
    assert order[..|order|] == order;
  }

  /** Packing only adds: what a prefix covers stays covered. */
  lemma {:induction false} PackOfGrows(order: seq<Aggregate>, i: nat, d: AttestationData)
    requires i <= |order|
    ensures Cover(PackOf(order[..i]), d) <= Cover(PackOf(order), d)
    decreases |order| - i
  {
    if i == |order| {
      assert order[..i] == order;
    } else {
      PackOfStep(order, i);
      Appended(PackOf(order[..i]), order[i], d);
      PackOfGrows(order, i + 1, d);
    }
  }

  lemma {:induction false} PackOfTakes(order: seq<Aggregate>)
    ensures forall a :: a in PackOf(order) ==> a in order
    decreases |order|
  {
    if order != [] {
      PackOfTakes(order[..|order| - 1]);
      PrefixGrows(order, |order| - 1);
    }
  }

  /** An aggregate packing takes when its turn comes: no one in it is covered for its message yet. */
  predicate TakenInTurn(order: seq<Aggregate>, i: nat)
    requires i < |order|
  {
    !Overlap(Cover(PackOf(order[..i]), order[i].data), order[i].signers)
  }

  lemma TurnIsCovered(order: seq<Aggregate>, i: nat)
    requires i < |order| && TakenInTurn(order, i)
    ensures order[i].signers <= Cover(PackOf(order), order[i].data)
  {
    PackOfStep(order, i);
    Appended(PackOf(order[..i]), order[i], order[i].data);
    PackOfGrows(order, i + 1, order[i].data);
  }

  // ---- the order -----------------------------------------------------------------------------

  /** Where one aggregate belongs among larger and smaller ones: after those of its own size. */
  function InsertedBySize(order: seq<Aggregate>, a: Aggregate): (r: seq<Aggregate>)
    ensures multiset(r) == multiset(order) + multiset{a}
  {
    if order == [] || |order[0].signers| < |a.signers| then [a] + order
    else
      assert order == [order[0]] + order[1..];
      [order[0]] + InsertedBySize(order[1..], a)
  }

  /** Largest first, in order of arrival among equals. */
  function SortedBySize(aggregates: seq<Aggregate>): seq<Aggregate>
    decreases |aggregates|
  {
    if aggregates == [] then []
    else InsertedBySize(SortedBySize(aggregates[..|aggregates| - 1]), aggregates[|aggregates| - 1])
  }

  ghost predicate AllAtMost(order: seq<Aggregate>, size: nat)
  {
    forall b :: b in order ==> |b.signers| <= size
  }

  lemma DescendingTail(order: seq<Aggregate>)
    requires Descending(order) && order != []
    ensures Descending(order[1..]) && AllAtMost(order, |order[0].signers|)
  {
  }

  lemma DescendingCons(first: Aggregate, rest: seq<Aggregate>)
    requires Descending(rest) && AllAtMost(rest, |first.signers|)
    ensures Descending([first] + rest)
  {
  }

  lemma InsertedHolds(order: seq<Aggregate>, a: Aggregate, b: Aggregate)
    requires b in InsertedBySize(order, a)
    ensures b == a || b in order
  {
    assert b in multiset(InsertedBySize(order, a));
  }

  lemma {:induction false} InsertedDescends(order: seq<Aggregate>, a: Aggregate)
    requires Descending(order)
    ensures Descending(InsertedBySize(order, a))
    decreases |order|
  {
    if order == [] {
      DescendingCons(a, order);
    } else {
      DescendingTail(order);
      if |order[0].signers| < |a.signers| {
        DescendingCons(a, order);
      } else {
        InsertedDescends(order[1..], a);
        forall b | b in InsertedBySize(order[1..], a) ensures |b.signers| <= |order[0].signers| {
          InsertedHolds(order[1..], a, b);
        }
        DescendingCons(order[0], InsertedBySize(order[1..], a));
      }
    }
  }

  lemma {:induction false} SortedDescends(aggregates: seq<Aggregate>)
    ensures Descending(SortedBySize(aggregates)) && multiset(SortedBySize(aggregates)) == multiset(aggregates)
    decreases |aggregates|
  {
    if aggregates != [] {
      var n := |aggregates| - 1;
      PrefixGrows(aggregates, n);
      SortedDescends(aggregates[..n]);
      InsertedDescends(SortedBySize(aggregates[..n]), aggregates[n]);
    }
  }

  /** `sort_by_key` on descending size, which is stable: the same aggregates, largest first. */
  method BySize(aggregates: seq<Aggregate>) returns (order: seq<Aggregate>)
    ensures order == SortedBySize(aggregates)
  {
    order := [];
    for i := 0 to |aggregates|
      invariant order == SortedBySize(aggregates[..i])
    {
      PrefixGrows(aggregates, i);
      order := InsertBySize(order, aggregates[i]);
    }
    assert aggregates[..|aggregates|] == aggregates;
  }

  method InsertBySize(order: seq<Aggregate>, a: Aggregate) returns (out: seq<Aggregate>)
    ensures out == InsertedBySize(order, a)
  {
    hide InsertedBySize;
    var at: nat := 0;
    assert order[0..] == order;
    while at < |order| && |order[at].signers| >= |a.signers|
      invariant at <= |order| && InsertedBySize(order, a) == order[..at] + InsertedBySize(order[at..], a)
    {
      InsertedStep(order, a, at);
      at := at + 1;
    }
    out := order[..at] + [a] + order[at..];
    InsertedHere(order, a, at);
  }

  lemma InsertedHere(order: seq<Aggregate>, a: Aggregate, at: nat)
    requires at <= |order| && (at < |order| ==> |order[at].signers| < |a.signers|)
    ensures order[..at] + InsertedBySize(order[at..], a) == order[..at] + [a] + order[at..]
  {
    if at < |order| {
      SuffixShrinks(order, at);
    }
    ConcatAssociates(order[..at], [a], order[at..]);
  }

  lemma InsertedStep(order: seq<Aggregate>, a: Aggregate, at: nat)
    requires at < |order| && |order[at].signers| >= |a.signers|
    ensures order[..at] + InsertedBySize(order[at..], a) == order[..at + 1] + InsertedBySize(order[at + 1..], a)
  {
    SuffixShrinks(order, at);
    ConcatAssociates(order[..at], [order[at]], InsertedBySize(order[at + 1..], a));
    PrefixGrows(order, at);
  }

  // ---- residuals -----------------------------------------------------------------------------

  /** A running sum of signatures, absent until one is added. */
  ghost predicate SumsTo(sum: Option<SignatureSum>, signers: set<nat>, root: Bytes32)
  {
    sum == if signers == {} then None else Some(SignedBy(signers, root))
  }

  function Added(sum: Option<SignatureSum>, signature: SignatureSum): Option<SignatureSum>
  {
    if sum.None? then Some(signature) else Some(Both(sum.value, signature))
  }

  lemma SumGrows(sum: Option<SignatureSum>, signers: set<nat>, v: nat, root: Bytes32)
    requires SumsTo(sum, signers, root) && v !in signers
    ensures SumsTo(Added(sum, SignedBy({v}, root)), signers + {v}, root)
  {
    if signers == {} {
      assert signers + {v} == {v};
    } else {
      assert signers !! {v};
      SignedJoin(signers, {v}, root);
      assert v in signers + {v};
    }
  }

  lemma SetStep(keys: set<nat>, covered: set<nat>, rest: set<nat>, v: nat)
    requires v in rest && rest <= keys
    ensures keys - covered - (rest - {v}) == if v in covered then keys - covered - rest else (keys - covered - rest) + {v}
    ensures v !in keys - covered - rest
  {
  }

  /** The uncovered members summed one by one. */
  method SumUncovered(signatures: map<nat, SignatureSum>, covered: set<nat>, ghost root: Bytes32)
    returns (sum: Option<SignatureSum>, signers: set<nat>)
    requires forall v :: v in signatures ==> signatures[v] == SignedBy({v}, root)
    ensures signers == signatures.Keys - covered && SumsTo(sum, signers, root)
  {
    sum, signers := None, {};
    var rest: set<nat> := signatures.Keys;
    while rest != {}
      invariant rest <= signatures.Keys && signers == signatures.Keys - covered - rest
      invariant SumsTo(sum, signers, root)
      decreases rest
    {
      var v: nat :| v in rest;
      SetStep(signatures.Keys, covered, rest, v);
      rest := rest - {v};
      if v !in covered {
        SumGrows(sum, signers, v, root);
        sum, signers := Added(sum, signatures[v]), signers + {v};
      }
    }
  }

  lemma NothingTaken(s: set<nat>, t: set<nat>)
    requires s * t == {}
    ensures s - t == s
  {
    assert forall v :: v in s && v in t ==> v in s * t;
  }

  /** What is left of a bucket once `covered` is taken out, under a signature of just that. */
  function Residual(s: Summed, covered: set<nat>, t: Target): Option<Aggregate>
  {
    var left := s.signers.Keys - covered;
    if left == {} then None else Some(Aggregate(s.data, SignedBy(left, t.RootOf(s.data)), left))
  }

  /** `residual`: the running total when nothing is covered, a fresh sum otherwise. */
  method ResidualOf(s: Summed, covered: set<nat>, ghost key: (AttestationData, nat), ghost slot: nat, ghost t: Target)
    returns (r: Option<Aggregate>)
    requires SummedOk(s, key, slot, t)
    ensures r == Residual(s, covered, t)
  {
    if s.signers.Keys * covered == {} {
      NothingTaken(s.signers.Keys, covered);
      assert s.signers.Keys != {};
      return Some(Aggregate(s.data, s.signature, s.signers.Keys));
    }
    var sum, signers := SumUncovered(s.signers, covered, t.RootOf(s.data));
    r := if sum.None? then None else Some(Aggregate(s.data, sum.value, signers));
  }

  type Key = (AttestationData, nat)

  /** Residuals of distinct buckets, and of every bucket in `done` that leaves one. */
  ghost predicate ResidualsOf(ours: seq<Aggregate>, keys: seq<Key>, done: set<Key>, buckets: map<Key, Summed>,
                              packed: map<AttestationData, set<nat>>, t: Target)
  {
    && |keys| == |ours|
    && (forall i, j :: 0 <= i < j < |keys| ==> keys[i] != keys[j])
    && (forall i :: 0 <= i < |keys| ==>
          keys[i] in done && keys[i] in buckets
          && Residual(buckets[keys[i]], CoveredBy(packed, keys[i].0), t) == Some(ours[i]))
    && (forall k :: k in done && k in buckets ==> k in keys || Residual(buckets[k], CoveredBy(packed, k.0), t).None?)
  }

  lemma ResidualsGrow(ours: seq<Aggregate>, keys: seq<Key>, done: set<Key>, buckets: map<Key, Summed>,
                      packed: map<AttestationData, set<nat>>, t: Target, k: Key, a: Aggregate)
    requires ResidualsOf(ours, keys, done, buckets, packed, t) && k in buckets && k !in done
    requires Residual(buckets[k], CoveredBy(packed, k.0), t) == Some(a)
    ensures ResidualsOf(ours + [a], keys + [k], done + {k}, buckets, packed, t)
  {
  }

  lemma ResidualsSkip(ours: seq<Aggregate>, keys: seq<Key>, done: set<Key>, buckets: map<Key, Summed>,
                      packed: map<AttestationData, set<nat>>, t: Target, k: Key)
    requires ResidualsOf(ours, keys, done, buckets, packed, t)
    requires k in buckets && Residual(buckets[k], CoveredBy(packed, k.0), t).None?
    ensures ResidualsOf(ours, keys, done + {k}, buckets, packed, t)
  {
  }

  lemma TakenOut<T>(all: set<T>, rest: set<T>, x: T)
    requires x in rest && rest <= all
    ensures x in all && x !in all - rest && all - (rest - {x}) == (all - rest) + {x}
  {
  }

  /** Every bucket's residual, in whatever order the map yields them. */
  method Residuals(buckets: map<Key, Summed>, packed: map<AttestationData, set<nat>>, ghost slot: nat, ghost t: Target)
    returns (ours: seq<Aggregate>, ghost keys: seq<Key>)
    requires BucketsOk(buckets, slot, t)
    ensures ResidualsOf(ours, keys, buckets.Keys, buckets, packed, t)
  {
    ours, keys := [], [];
    var rest: set<Key> := buckets.Keys;
    while rest != {}
      invariant rest <= buckets.Keys
      invariant ResidualsOf(ours, keys, buckets.Keys - rest, buckets, packed, t)
      decreases rest
    {
      var k: Key :| k in rest;
      TakenOut(buckets.Keys, rest, k);
      var r := ResidualOf(buckets[k], CoveredBy(packed, k.0), k, slot, t);
      if r.Some? {
        ResidualsGrow(ours, keys, buckets.Keys - rest, buckets, packed, t, k, r.value);
        ours, keys := ours + [r.value], keys + [k];
      } else {
        ResidualsSkip(ours, keys, buckets.Keys - rest, buckets, packed, t, k);
      }
      rest := rest - {k};
    }
    assert buckets.Keys - {} == buckets.Keys;
  }

  // ---- grouping by message ---------------------------------------------------------------------

  lemma {:induction false} TakesAll(start: seq<Aggregate>, more: seq<Aggregate>)
    requires Separate(start + more)
    ensures TakeSeparate(start, more) == start + more
    decreases |more|
  {
    if more == [] {
      assert start + more == start;
    } else {
      var n := |more| - 1;
      ConcatLast(start, more);
      Appended(start + more[..n], more[n], more[n].data);
      TakesAll(start, more[..n]);
    }
  }

  type Messages = map<AttestationData, (seq<Aggregate>, set<nat>)>

  /** Each message with its aggregates and the signers they count. */
  ghost predicate Grouped(byMessage: Messages, counted: seq<Aggregate>)
  {
    && (forall d :: d in byMessage ==> byMessage[d] == (Of(counted, d), Cover(counted, d)))
    && (forall a :: a in counted ==> a.data in byMessage)
    && (forall d :: d !in byMessage ==> Of(counted, d) == [] && Cover(counted, d) == {})
  }

  lemma GroupedTakes(byMessage: Messages, counted: seq<Aggregate>, a: Aggregate)
    requires Grouped(byMessage, counted)
    ensures Grouped(byMessage[a.data := (Of(counted, a.data) + [a], Cover(counted, a.data) + a.signers)], counted + [a])
  {
    var next := byMessage[a.data := (Of(counted, a.data) + [a], Cover(counted, a.data) + a.signers)];
    forall d | d in next ensures next[d] == (Of(counted + [a], d), Cover(counted + [a], d)) {
      Appended(counted, a, d);
    }
    forall d | d !in next ensures Of(counted + [a], d) == [] && Cover(counted + [a], d) == {} {
      Appended(counted, a, d);
    }
  }

  function Entry(byMessage: Messages, d: AttestationData): (seq<Aggregate>, set<nat>)
  {
    if d in byMessage then byMessage[d] else ([], {})
  }

  /** The packing's aggregates filed so far, beside its whole covers. */
  ghost predicate Filed(byMessage: Messages, packed: map<AttestationData, set<nat>>, some: seq<Aggregate>)
  {
    && byMessage.Keys == packed.Keys
    && forall d :: d in byMessage ==> byMessage[d] == (Of(some, d), packed[d])
  }

  lemma FiledTakes(byMessage: Messages, packed: map<AttestationData, set<nat>>, some: seq<Aggregate>, a: Aggregate)
    requires Filed(byMessage, packed, some) && a.data in byMessage
    ensures Filed(byMessage[a.data := (byMessage[a.data].0 + [a], byMessage[a.data].1)], packed, some + [a])
  {
    var next := byMessage[a.data := (byMessage[a.data].0 + [a], byMessage[a.data].1)];
    forall d | d in next ensures next[d] == (Of(some + [a], d), packed[d]) {
      Appended(some, a, d);
    }
  }

  /** The packed aggregates filed under their messages. */
  method FileChosen(packed: map<AttestationData, set<nat>>, chosen: seq<Aggregate>, ghost order: seq<Aggregate>)
    returns (byMessage: Messages)
    requires Packed(order, packed, chosen)
    ensures Grouped(byMessage, chosen)
  {
    byMessage := map d | d in packed :: ([], packed[d]);
    for i := 0 to |chosen|
      invariant Filed(byMessage, packed, chosen[..i])
    {
      var a := chosen[i];
      PrefixGrows(chosen, i);
      assert a in order;
      FiledTakes(byMessage, packed, chosen[..i], a);
      byMessage := byMessage[a.data := (byMessage[a.data].0 + [a], byMessage[a.data].1)];
    }
    assert chosen[..|chosen|] == chosen;
    FiledAll(byMessage, packed, chosen, order);
  }

  lemma FiledAll(byMessage: Messages, packed: map<AttestationData, set<nat>>, chosen: seq<Aggregate>, order: seq<Aggregate>)
    requires Filed(byMessage, packed, chosen) && Packed(order, packed, chosen)
    ensures Grouped(byMessage, chosen)
  {
    forall d | d !in byMessage ensures Of(chosen, d) == [] {
      NoneOf(chosen, d);
    }
  }

  lemma {:induction false} NoneOf(aggregates: seq<Aggregate>, d: AttestationData)
    requires forall a :: a in aggregates ==> a.data != d
    ensures Of(aggregates, d) == []
    decreases |aggregates|
  {
    if aggregates != [] {
      NoneOf(aggregates[..|aggregates| - 1], d);
    }
  }

  /** The residuals added, each only where disjoint from what is counted already. */
  method FileOurs(filed: Messages, chosen: seq<Aggregate>, ours: seq<Aggregate>) returns (byMessage: Messages)
    requires Grouped(filed, chosen)
    ensures Grouped(byMessage, TakeSeparate(chosen, ours))
  {
    byMessage := filed;
    for i := 0 to |ours|
      invariant Grouped(byMessage, TakeSeparate(chosen, ours[..i]))
    {
      var a := ours[i];
      PrefixGrows(ours, i);
      var entry := Entry(byMessage, a.data);
      ghost var counted := TakeSeparate(chosen, ours[..i]);
      assert entry == (Of(counted, a.data), Cover(counted, a.data));
      if Overlap(entry.1, a.signers) {
        GroupedTouch(byMessage, counted, a.data);
        byMessage := byMessage[a.data := entry];
      } else {
        GroupedTakes(byMessage, counted, a);
        byMessage := byMessage[a.data := (entry.0 + [a], entry.1 + a.signers)];
      }
    }
    assert ours[..|ours|] == ours;
  }

  lemma GroupedTouch(byMessage: Messages, counted: seq<Aggregate>, d: AttestationData)
    requires Grouped(byMessage, counted)
    ensures Grouped(byMessage[d := Entry(byMessage, d)], counted)
  {
  }

  /** `max_by_key` on the number of signers. */
  method Largest(byMessage: Messages) returns (d: AttestationData)
    requires byMessage != map[]
    ensures d in byMessage && forall e :: e in byMessage ==> |byMessage[e].1| <= |byMessage[d].1|
  {
    d :| d in byMessage;
    var rest: set<AttestationData> := byMessage.Keys - {d};
    while rest != {}
      invariant d in byMessage && rest <= byMessage.Keys
      invariant forall e :: e in byMessage && e !in rest ==> |byMessage[e].1| <= |byMessage[d].1|
      decreases rest
    {
      var e: AttestationData :| e in rest;
      if |byMessage[e].1| >= |byMessage[d].1| {
        d := e;
      }
      rest := rest - {e};
    }
  }
}
