/** The pairing accumulator, exactly: when a list of messages has one, and how often it pairs and
    counts each vote. */
module PairingExact {
  import opened Wrappers
  import opened FormalSums
  import opened Ssz
  import opened Bls
  import opened Folds
  import opened SlotExact

  // ---- the two sides, vote by vote -------------------------------------------------------------------

  function PointTotal(points: seq<Point>): Point
    decreases |points|
  {
    if points == [] then IDENTITY else Plus(PointTotal(points[..|points| - 1]), points[|points| - 1])
  }

  /** Each point but the first can be added to those before it. */
  predicate CanAddUp(points: seq<Point>)
  {
    forall k :: 1 <= k < |points| ==> !Alike(PointTotal(points[..k]), points[k])
  }

  /** How often the messages' keys pair a vote. */
  function KeyedAs(messages: seq<SignedMessage>, p: Vote): int
    decreases |messages|
  {
    if messages == [] then 0
    else
      var last := messages[|messages| - 1];
      KeyedAs(messages[..|messages| - 1], p) + if last.root == p.1 then Coef(PointTotal(last.pubkeys), p.0) else 0
  }

  function VotesIn(s: Signature, p: Vote): int
  {
    if s.OnCurve? then Coef(s.sum, p) else 0
  }

  function CofactorIn(s: Signature): int
  {
    if s.OnCurve? then s.cofactor else 0
  }

  function SignedOnce(signatures: seq<Signature>, p: Vote): int
    decreases |signatures|
  {
    if signatures == [] then 0
    else SignedOnce(signatures[..|signatures| - 1], p) + VotesIn(signatures[|signatures| - 1], p)
  }

  function CofactorOnce(signatures: seq<Signature>): int
    decreases |signatures|
  {
    if signatures == [] then 0
    else CofactorOnce(signatures[..|signatures| - 1]) + CofactorIn(signatures[|signatures| - 1])
  }

  /** How often the messages' signatures hold a vote. */
  function SignedAs(messages: seq<SignedMessage>, p: Vote): int
    decreases |messages|
  {
    if messages == [] then 0
    else SignedAs(messages[..|messages| - 1], p) + SignedOnce(messages[|messages| - 1].signatures, p)
  }

  function CofactorOf(messages: seq<SignedMessage>): int
    decreases |messages|
  {
    if messages == [] then 0
    else CofactorOf(messages[..|messages| - 1]) + CofactorOnce(messages[|messages| - 1].signatures)
  }

  /** A message with keys that add up and signatures on the curve. */
  predicate MessageOk(m: SignedMessage)
  {
    && m.pubkeys != [] && CanAddUp(m.pubkeys)
    && m.signatures != [] && forall s :: s in m.signatures ==> s.OnCurve?
  }

  ghost predicate SomeKey(messages: seq<SignedMessage>, root: Bytes32)
  {
    exists v: nat :: KeyedAs(messages, (v, root)) != 0
  }

  ghost predicate SomeVote(messages: seq<SignedMessage>)
  {
    exists p: Vote :: SignedAs(messages, p) != 0
  }

  /** When messages have an accumulator: each is well formed, nothing of the signatures lies outside
      the subgroup, and neither the signatures nor any message's keys cancel. */
  ghost predicate Pairable(messages: seq<SignedMessage>)
  {
    && messages != [] && (forall m :: m in messages ==> MessageOk(m))
    && CofactorOf(messages) == 0 && SomeVote(messages)
    && forall m :: m in messages ==> SomeKey(messages, m.root)
  }

  // ---- the first pass ------------------------------------------------------------------------------------

  lemma AddUpSplits(points: seq<Point>)
    requires points != []
    ensures
      var n := |points| - 1;
      CanAddUp(points) <==> CanAddUp(points[..n]) && (n > 0 ==> !Alike(PointTotal(points[..n]), points[n]))
  {
    hide Alike, PointTotal;
    var n := |points| - 1;
    assert forall k :: 0 <= k < n ==> points[..n][..k] == points[..k] && points[..n][k] == points[k];
  }

  function TotalHeld(points: seq<Point>): PointSum
  {
    PointSum(if points == [] then None else Some(PointTotal(points)))
  }

  lemma {:induction false} AddAllExact(points: seq<Point>)
    ensures AddAll(PointSum(None), points) == if CanAddUp(points) then Some(TotalHeld(points)) else None
    decreases |points|
  {
    if points != [] {
      var n := |points| - 1;
      AddAllExact(points[..n]);
      AlikeIsShared(PointTotal(points[..n]), points[n]);
      hide CanAddUp, Alike, SharesX;
      AddUpSplits(points);
      if n == 0 {
        PlusNothing(points[0]);
      }
    }
  }

  /** A running signature sum after more signatures. */
  ghost predicate SummedTo(before: SignatureSum, signatures: seq<Signature>, after: SignatureSum)
  {
    && after.cofactor == before.cofactor + CofactorOnce(signatures)
    && forall p: Vote :: Coef(after.votes, p) == Coef(before.votes, p) + SignedOnce(signatures, p)
  }

  lemma {:induction false} SignaturesExact(start: SignatureSum, signatures: seq<Signature>)
    ensures SumSignatures(start, signatures).Some? <==> forall s :: s in signatures ==> s.OnCurve?
    ensures SumSignatures(start, signatures).Some? ==> SummedTo(start, signatures, SumSignatures(start, signatures).value)
    decreases |signatures|
  {
    if signatures != [] {
      var n := |signatures| - 1;
      SignaturesExact(start, signatures[..n]);
      assert forall s :: s in signatures <==> s in signatures[..n] || s == signatures[n];
    }
  }

  ghost predicate GatheredFrom(g: Gathered, messages: seq<SignedMessage>)
  {
    && g.sum.cofactor == CofactorOf(messages)
    && (forall p: Vote :: Coef(g.keys, p) == KeyedAs(messages, p))
    && forall p: Vote :: Coef(g.sum.votes, p) == SignedAs(messages, p)
  }

  lemma GatherOneUnfolds(g: Gathered, m: SignedMessage)
    ensures GatherOne(g, m).Some? <==> MessageOk(m)
    ensures GatherOne(g, m).Some? ==>
      var after := GatherOne(g, m).value;
      after.keys == Plus(g.keys, Tag(PointTotal(m.pubkeys), m.root)) && SummedTo(g.sum, m.signatures, after.sum)
  {
    hide CanAddUp, PointTotal, SummedTo, AddAll, SumSignatures, Plus, Tag;
    AddAllExact(m.pubkeys);
    SignaturesExact(g.sum, m.signatures);
  }

  lemma OneMoreMessage(messages: seq<SignedMessage>, m: SignedMessage, p: Vote)
    ensures KeyedAs(messages + [m], p) == KeyedAs(messages, p) + Coef(Tag(PointTotal(m.pubkeys), m.root), p)
    ensures SignedAs(messages + [m], p) == SignedAs(messages, p) + SignedOnce(m.signatures, p)
    ensures CofactorOf(messages + [m]) == CofactorOf(messages) + CofactorOnce(m.signatures)
  {
    hide PointTotal, SignedOnce, CofactorOnce, Tag;
    assert (messages + [m])[..|messages|] == messages;
    assert p == (p.0, p.1);
  }

  lemma GatherOneExact(g: Gathered, messages: seq<SignedMessage>, m: SignedMessage)
    requires GatheredFrom(g, messages)
    ensures GatherOne(g, m).Some? <==> MessageOk(m)
    ensures GatherOne(g, m).Some? ==> GatheredFrom(GatherOne(g, m).value, messages + [m])
  {
    hide MessageOk, GatherOne, PointTotal, KeyedAs, SignedAs, CofactorOf, SignedOnce, CofactorOnce, Tag;
    GatherOneUnfolds(g, m);
    forall p: Vote
      ensures KeyedAs(messages + [m], p) == KeyedAs(messages, p) + Coef(Tag(PointTotal(m.pubkeys), m.root), p)
      ensures SignedAs(messages + [m], p) == SignedAs(messages, p) + SignedOnce(m.signatures, p)
    {
      OneMoreMessage(messages, m, p);
    }
    OneMoreMessage(messages, m, (0, m.root));
  }

  lemma {:induction false} GatherExact(messages: seq<SignedMessage>)
    ensures Gather(messages).Some? <==> forall m :: m in messages ==> MessageOk(m)
    ensures Gather(messages).Some? ==> GatheredFrom(Gather(messages).value, messages)
    decreases |messages|
  {
    hide MessageOk, GatherOne;
    if messages != [] {
      var n := |messages| - 1;
      GatherExact(messages[..n]);
      PrefixGrows(messages, n);
      assert forall m :: m in messages <==> m in messages[..n] || m == messages[n];
      hide GatheredFrom;
      if Gather(messages[..n]).Some? {
        GatherOneExact(Gather(messages[..n]).value, messages[..n], messages[n]);
      }
    }
  }

  // ---- the accumulator -----------------------------------------------------------------------------------

  lemma HasVote(votes: Combo<Vote>)
    ensures votes != map[] <==> exists p: Vote :: Coef(votes, p) != 0
  {
    if votes != map[] {
      var p :| p in votes;
      assert Coef(votes, p) != 0;
    }
  }

  lemma HasKey(key: Point)
    ensures key != IDENTITY <==> exists v: nat :: Coef(key, v) != 0
  {
    if key != IDENTITY {
      var v :| v in key;
      assert Coef(key, v) != 0;
    }
  }

  lemma KeyedIsKeyAt(g: Gathered, messages: seq<SignedMessage>, root: Bytes32)
    requires GatheredFrom(g, messages)
    ensures KeyAt(g.keys, root) != IDENTITY <==> SomeKey(messages, root)
  {
    hide KeyAt, KeyedAs;
    HasKey(KeyAt(g.keys, root));
    forall v: nat ensures Coef(KeyAt(g.keys, root), v) == KeyedAs(messages, (v, root)) {
    }
  }

  lemma VotesAreSigned(g: Gathered, messages: seq<SignedMessage>)
    requires GatheredFrom(g, messages)
    ensures g.sum.votes != map[] <==> SomeVote(messages)
  {
    hide SignedAs;
    HasVote(g.sum.votes);
  }

  /** The accumulator, exactly: messages have one if and only if they are `Pairable`, and then it
      pairs every vote as often as their keys do and holds it as often as their signatures do. */
  lemma MillerIsExact(messages: seq<SignedMessage>)
    ensures MillerAccumulator(messages).Some? <==> Pairable(messages)
    ensures MillerAccumulator(messages).Some? ==>
      var f := MillerAccumulator(messages).value;
      && (forall p: Vote :: Coef(f.keys, p) == KeyedAs(messages, p))
      && (forall p: Vote :: Coef(f.sigs, p) == SignedAs(messages, p))
  {
    hide MessageOk, SomeKey, SomeVote, KeyAt, Gather;
    GatherExact(messages);
    if Gather(messages).Some? {
      var g := Gather(messages).value;
      VotesAreSigned(g, messages);
      forall m | m in messages ensures KeyAt(g.keys, m.root) != IDENTITY <==> SomeKey(messages, m.root) {
        KeyedIsKeyAt(g, messages, m.root);
      }
    }
  }
}
