/** Splitting the pairing: however a list of messages is cut and in whatever order it is read,
    what is gathered is the same, and the accumulator is the product of the parts'. */
module Splitting {
  import opened Wrappers
  import opened FormalSums
  import opened Ssz
  import opened Bls
  import opened Folds

  const NOTHING_GATHERED := Gathered(map[], NO_SIGNATURES)

  function Both(a: SignatureSum, b: SignatureSum): SignatureSum
  {
    SignatureSum(Plus(a.votes, b.votes), a.cofactor + b.cofactor)
  }

  function Joined(a: Gathered, b: Gathered): Gathered
  {
    Gathered(Plus(a.keys, b.keys), Both(a.sum, b.sum))
  }

  lemma JoinedNothing(a: Gathered)
    ensures Joined(a, NOTHING_GATHERED) == a && Joined(NOTHING_GATHERED, a) == a
  {
    PlusNothing(a.keys);
    PlusNothing(a.sum.votes);
  }

  lemma SwapCombos(a: Combo<Vote>, b: Combo<Vote>, c: Combo<Vote>)
    ensures Plus(Plus(a, b), c) == Plus(Plus(a, c), b)
  {
    SameCombo(Plus(Plus(a, b), c), Plus(Plus(a, c), b));
  }

  lemma JoinedSwaps(a: Gathered, b: Gathered, c: Gathered)
    ensures Joined(Joined(a, b), c) == Joined(Joined(a, c), b)
  {
    SwapCombos(a.keys, b.keys, c.keys);
    SwapCombos(a.sum.votes, b.sum.votes, c.sum.votes);
  }

  function BothMaybe(base: SignatureSum, s: Option<SignatureSum>): Option<SignatureSum>
  {
    if s.None? then None else Some(Both(base, s.value))
  }

  function JoinedMaybe(base: Gathered, g: Option<Gathered>): Option<Gathered>
  {
    if g.None? then None else Some(Joined(base, g.value))
  }

  /** Signatures added to a running sum are their own sum added to it, if they have one. */
  lemma {:induction false} SignaturesShift(base: SignatureSum, start: SignatureSum, signatures: seq<Signature>)
    ensures SumSignatures(Both(base, start), signatures) == BothMaybe(base, SumSignatures(start, signatures))
    decreases |signatures|
  {
    if signatures != [] {
      var front, last := signatures[..|signatures| - 1], signatures[|signatures| - 1];
      SignaturesShift(base, start, front);
      if SumSignatures(start, front).Some? && last.OnCurve? {
        PlusAssociates(base.votes, SumSignatures(start, front).value.votes, last.sum);
      }
    }
  }

  /** What one message gathers does not depend on what was gathered before it. */
  lemma GatherOneShift(base: Gathered, g: Gathered, m: SignedMessage)
    ensures GatherOne(Joined(base, g), m) == JoinedMaybe(base, GatherOne(g, m))
  {
    SignaturesShift(base.sum, g.sum, m.signatures);
    var agg := AddAll(PointSum(None), m.pubkeys);
    if agg.Some? && agg.value.value.Some? {
      PlusAssociates(base.keys, g.keys, Tag(agg.value.value.value, m.root));
    }
  }

  /** One message by itself. */
  function GatherAlone(m: SignedMessage): Option<Gathered>
  {
    GatherOne(NOTHING_GATHERED, m)
  }

  lemma GatherOneIsAlone(g: Gathered, m: SignedMessage)
    ensures GatherOne(g, m) == JoinedMaybe(g, GatherAlone(m))
  {
    JoinedNothing(g);
    GatherOneShift(g, NOTHING_GATHERED, m);
  }

  // ---- gathering as a fold --------------------------------------------------------------------

  function StepGather(g: Option<Gathered>, m: SignedMessage): Option<Gathered>
  {
    if g.None? then None else GatherOne(g.value, m)
  }

  function GatherFrom(g: Option<Gathered>, messages: seq<SignedMessage>): Option<Gathered>
  {
    FoldAll(StepGather, g, messages)
  }

  lemma {:induction false} GatherIsFold(messages: seq<SignedMessage>)
    ensures Gather(messages) == GatherFrom(Some(NOTHING_GATHERED), messages)
    decreases |messages|
  {
    if messages != [] {
      GatherIsFold(messages[..|messages| - 1]);
    }
  }

  lemma StepsSwap(g: Option<Gathered>, m: SignedMessage, n: SignedMessage)
    ensures StepGather(StepGather(g, m), n) == StepGather(StepGather(g, n), m)
  {
    if g.Some? {
      GatherOneIsAlone(g.value, m);
      GatherOneIsAlone(g.value, n);
      var a, b := GatherAlone(m), GatherAlone(n);
      if a.Some? {
        GatherOneIsAlone(Joined(g.value, a.value), n);
      }
      if b.Some? {
        GatherOneIsAlone(Joined(g.value, b.value), m);
      }
      if a.Some? && b.Some? {
        JoinedSwaps(g.value, a.value, b.value);
      }
    }
  }

  lemma StepGatherSwaps()
    ensures Swaps(StepGather)
  {
    forall g: Option<Gathered>, m: SignedMessage, n: SignedMessage
      ensures StepGather(StepGather(g, m), n) == StepGather(StepGather(g, n), m)
    {
      StepsSwap(g, m, n);
    }
  }

  lemma GatherFromPermutes(g: Option<Gathered>, a: seq<SignedMessage>, b: seq<SignedMessage>)
    requires multiset(a) == multiset(b)
    ensures GatherFrom(g, a) == GatherFrom(g, b)
  {
    StepGatherSwaps();
    FoldPermutes(StepGather, g, a, b);
  }

  /** The order of messages does not matter: what is gathered, if anything, is the same. */
  lemma GatherPermutes(a: seq<SignedMessage>, b: seq<SignedMessage>)
    requires multiset(a) == multiset(b)
    ensures Gather(a) == Gather(b)
  {
    GatherIsFold(a);
    GatherIsFold(b);
    GatherFromPermutes(Some(NOTHING_GATHERED), a, b);
  }

  /** Nor does it to the accumulator. */
  lemma MillerPermutes(a: seq<SignedMessage>, b: seq<SignedMessage>)
    requires multiset(a) == multiset(b)
    ensures MillerAccumulator(a) == MillerAccumulator(b)
  {
    GatherPermutes(a, b);
    assert |a| == |multiset(a)| == |multiset(b)| == |b|;
    forall m ensures m in a <==> m in b {
      SameElements(a, b, m);
    }
  }

  lemma {:induction false} GatherFromShift(base: Gathered, g: Gathered, messages: seq<SignedMessage>)
    ensures GatherFrom(Some(Joined(base, g)), messages) == JoinedMaybe(base, GatherFrom(Some(g), messages))
    decreases |messages|
  {
    if messages != [] {
      var front, last := messages[..|messages| - 1], messages[|messages| - 1];
      GatherFromShift(base, g, front);
      if GatherFrom(Some(g), front).Some? {
        GatherOneShift(base, GatherFrom(Some(g), front).value, last);
      }
    }
  }

  lemma {:induction false} GatherFromNone(messages: seq<SignedMessage>)
    ensures GatherFrom(None, messages) == None
    decreases |messages|
  {
    if messages != [] {
      GatherFromNone(messages[..|messages| - 1]);
    }
  }

  /** Two lists of messages gather together exactly when each does, and then what they gather adds. */
  lemma GatherConcat(a: seq<SignedMessage>, b: seq<SignedMessage>)
    ensures Gather(a + b) == if Gather(a).None? then None else JoinedMaybe(Gather(a).value, Gather(b))
  {
    GatherIsFold(a + b);
    GatherIsFold(a);
    GatherIsFold(b);
    FoldConcat(StepGather, Some(NOTHING_GATHERED), a, b);
    if Gather(a).None? {
      GatherFromNone(b);
    } else {
      JoinedNothing(Gather(a).value);
      GatherFromShift(Gather(a).value, NOTHING_GATHERED, b);
    }
  }

  // ---- groups of messages ---------------------------------------------------------------------

  /** The product of the parts' accumulators, folded in order; none if some part has none. */
  function ProductOf(parts: seq<seq<SignedMessage>>): Option<Fp12>
    decreases |parts|
  {
    if parts == [] then Some(FP12_ONE)
    else
      var f :- ProductOf(parts[..|parts| - 1]);
      var g :- MillerAccumulator(parts[|parts| - 1]);
      Some(Fp12Mul(f, g))
  }

  /** What an accumulator holds of the messages it was made from. */
  predicate Accumulates(f: Fp12, g: Option<Gathered>)
  {
    g == Some(Gathered(f.keys, SignatureSum(f.sigs, 0)))
  }

  lemma AccumulatesProduct(f: Fp12, g: Fp12, a: seq<SignedMessage>, b: seq<SignedMessage>)
    requires Accumulates(f, Gather(a)) && Accumulates(g, Gather(b))
    ensures Accumulates(Fp12Mul(f, g), Gather(a + b))
  {
    GatherConcat(a, b);
  }

  lemma {:induction false} ProductGathers(parts: seq<seq<SignedMessage>>)
    requires ProductOf(parts).Some?
    ensures Accumulates(ProductOf(parts).value, Gather(Flatten(parts)))
    decreases |parts|
  {
    if parts != [] {
      var front, last := parts[..|parts| - 1], parts[|parts| - 1];
      ProductGathers(front);
      AccumulatesProduct(ProductOf(front).value, MillerAccumulator(last).value, Flatten(front), last);
    }
  }

  /** A list of messages can be paired at once unless the keys of one message, or all the
      signatures together, cancel to the identity. */
  predicate NothingCancels(messages: seq<SignedMessage>, f: Fp12)
  {
    messages != [] && f.sigs != map[] && AllKeyed(messages, f.keys)
  }

  /** The accumulator of messages an accumulator was made of, in whatever pieces. */
  function AtOnce(messages: seq<SignedMessage>, f: Fp12): Option<Fp12>
  {
    if NothingCancels(messages, f) then Some(f) else None
  }

  lemma AccumulatesAtOnce(messages: seq<SignedMessage>, f: Fp12)
    requires Accumulates(f, Gather(messages))
    ensures MillerAccumulator(messages) == AtOnce(messages, f)
  {
  }

  /** Splitting the pairing changes nothing: where every part has an accumulator, pairing all
      messages at once, in any order, is defined exactly when nothing cancels, and then gives
      the product of the parts and so the same verdict. */
  lemma SplittingPreserves(parts: seq<seq<SignedMessage>>, all: seq<SignedMessage>)
    requires ProductOf(parts).Some? && multiset(all) == multiset(Flatten(parts))
    ensures MillerAccumulator(all) == AtOnce(all, ProductOf(parts).value)
  {
    ProductGathers(parts);
    GatherPermutes(all, Flatten(parts));
    AccumulatesAtOnce(all, ProductOf(parts).value);
  }

  // ---- keys that cancel -------------------------------------------------------------------------

  /** A key of one validator less another, and a vote to go with it. */
  function Difference(v: nat, less: nat, root: Bytes32): SignedMessage
  {
    SignedMessage([Minus(Unit(v), Unit(less))], root, [OnCurve(Unit((v, root)), 0)])
  }

  lemma DifferenceAlone(v: nat, less: nat, root: Bytes32)
    requires v != less
    ensures
      var key := Minus(Unit(v), Unit(less));
      && GatherAlone(Difference(v, less, root)) == Some(Gathered(Tag(key, root), SignatureSum(Unit((v, root)), 0)))
      && MillerAccumulator([Difference(v, less, root)]) == Some(Fp12(Tag(key, root), Unit((v, root))))
  {
    var m, key: Point := Difference(v, less, root), Minus(Unit(v), Unit(less));
    assert m.pubkeys == [key] && m.pubkeys[..0] == [] && m.signatures[..0] == [];
    assert AddAll(PointSum(None), []) == Some(PointSum(None));
    assert AddAll(PointSum(None), m.pubkeys) == Some(PointSum(Some(key)));
    PlusNothing<Vote>(Tag(key, root));
    PlusNothing<Vote>(Unit((v, root)));
    assert SumSignatures(NO_SIGNATURES, []) == Some(NO_SIGNATURES);
    assert SumSignatures(NO_SIGNATURES, m.signatures) == Some(SignatureSum(Unit((v, root)), 0));
    assert [m][..0] == [] && Gather([]) == Some(NOTHING_GATHERED);
    assert Gather([m]) == GatherAlone(m);
    assert Coef(KeyAt(Tag(key, root), root), v) == Coef(key, v) == 1;
    assert Coef(Unit<Vote>((v, root)), (v, root)) == 1;
  }

  lemma ProductAppends(parts: seq<seq<SignedMessage>>, f: Fp12, last: seq<SignedMessage>, g: Fp12)
    requires ProductOf(parts) == Some(f) && MillerAccumulator(last) == Some(g)
    ensures ProductOf(parts + [last]) == Some(Fp12Mul(f, g))
  {
    assert (parts + [last])[..|parts|] == parts;
  }

  lemma ProductOfTwo(a: seq<SignedMessage>, b: seq<SignedMessage>, f: Fp12, g: Fp12)
    requires MillerAccumulator(a) == Some(f) && MillerAccumulator(b) == Some(g)
    ensures ProductOf([a] + [b]) == Some(Fp12Mul(Fp12Mul(FP12_ONE, f), g))
  {
    var none: seq<seq<SignedMessage>> := [];
    ProductAppends(none, FP12_ONE, a, f);
    assert none + [a] == [a];
    ProductAppends([a], Fp12Mul(FP12_ONE, f), b, g);
  }

  lemma OppositesCancel(v: nat, u: nat, root: Bytes32)
    ensures
      var there, back: Point := Minus(Unit(v), Unit(u)), Minus(Unit(u), Unit(v));
      KeyAt(Plus(Plus(map[], Tag(there, root)), Tag(back, root)), root) == IDENTITY
  {
    hide Tag, KeyAt, Plus, Negated, Minus;
    var there, back: Point := Minus(Unit(v), Unit(u)), Minus(Unit(u), Unit(v));
    var first := Plus(map[], Tag(there, root));
    forall x: nat ensures Coef(KeyAt(Plus(first, Tag(back, root)), root), x) == 0 {
      assert Coef(KeyAt(Plus(first, Tag(back, root)), root), x) == Coef(Plus(first, Tag(back, root)), (x, root));
      assert Coef(Tag(there, root), (x, root)) == Coef(there, x) && Coef(Tag(back, root), (x, root)) == Coef(back, x);
    }
    SameCombo(KeyAt(Plus(first, Tag(back, root)), root), IDENTITY);
  }

  /** They can cancel: two messages over one root, one validator less another and the reverse.
      Each has an accumulator by itself, so the parts have a product; read at once they have none. */
  lemma CancelledKeysHaveNone(v: nat, u: nat, root: Bytes32)
    requires v != u
    ensures
      var there, back := [Difference(v, u, root)], [Difference(u, v, root)];
      && MillerAccumulator(there).Some? && MillerAccumulator(back).Some?
      && ProductOf([there] + [back]).Some?
      && MillerAccumulator(there + back) == None
  {
    var there, back := [Difference(v, u, root)], [Difference(u, v, root)];
    DifferenceAlone(v, u, root);
    DifferenceAlone(u, v, root);
    ProductOfTwo(there, back, MillerAccumulator(there).value, MillerAccumulator(back).value);
    FlattenTwo(there, back);
    SplittingPreserves([there] + [back], there + back);
    OppositesCancel(v, u, root);
    assert (there + back)[0] in there + back && (there + back)[0].root == root;
  }
}
