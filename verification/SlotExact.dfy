/** Reading a slot, exactly: when it is accepted, and everything it then adds, in terms of the
    witness's lists and no running values. */
module SlotExact {
  import opened Wrappers
  import opened FormalSums
  import opened Ssz
  import opened Bls
  import opened Merkle
  import opened MultiProof
  import opened Accumulator
  import opened SlotProof
  import opened SlotSound
  import opened Folds
  import opened SlotCuts
  import opened Containers

  // ---- keys taken out and summed up --------------------------------------------------------------

  /** The keys of a list, added up. */
  function KeySum(vs: seq<OpenedValidator>): Point
    decreases |vs|
  {
    if vs == [] then IDENTITY else Plus(KeySum(vs[..|vs| - 1]), vs[|vs| - 1].key)
  }

  /** What is left of a key without those of a list. */
  function KeyWithout(key: Point, vs: seq<OpenedValidator>): Point
  {
    Minus(key, KeySum(vs))
  }

  /** Two points the curve addition cannot add: the same, or opposite. */
  predicate Alike(a: Point, b: Point)
  {
    a == b || Plus(a, b) == IDENTITY
  }

  lemma AlikeIsShared(a: Point, b: Point)
    ensures Alike(a, b) <==> SharesX(a, b)
    ensures Alike(a, b) <==> SharesX(a, Negated(b))
  {
    if Plus(a, b) == IDENTITY {
      forall v ensures Coef(a, v) == Coef(Negated(b), v) {
        assert Coef(Plus(a, b), v) == Coef(a, v) + Coef(b, v);
      }
      SameCombo(a, Negated(b));
    }
    if a == Negated(b) {
      SameCombo(Plus(a, b), IDENTITY);
    }
    SameCombo(Negated(Negated(b)), b);
  }

  /** Each key of the list can be taken out in its turn. */
  predicate CanTakeOut(key: Point, vs: seq<OpenedValidator>)
  {
    forall k :: 0 <= k < |vs| ==> !Alike(KeyWithout(key, vs[..k]), vs[k].key)
  }

  /** Each key of the list but the first can be added to those before it. */
  predicate CanSum(vs: seq<OpenedValidator>)
  {
    forall k :: 1 <= k < |vs| ==> !Alike(KeySum(vs[..k]), vs[k].key)
  }

  lemma WithoutNothing(key: Point)
    ensures KeyWithout(key, []) == key
  {
    SameCombo(Minus(key, IDENTITY), key);
  }

  lemma WithoutOneMore(key: Point, vs: seq<OpenedValidator>, v: OpenedValidator)
    ensures KeySum(vs + [v]) == Plus(KeySum(vs), v.key)
    ensures KeyWithout(key, vs + [v]) == Plus(KeyWithout(key, vs), Negated(v.key))
  {
    assert (vs + [v])[..|vs|] == vs;
    var left, right := KeyWithout(key, vs + [v]), Plus(KeyWithout(key, vs), Negated(v.key));
    forall u ensures Coef(left, u) == Coef(right, u) {
      assert Coef(Plus(KeySum(vs), v.key), u) == Coef(KeySum(vs), u) + Coef(v.key, u);
    }
    SameCombo(left, right);
  }

  lemma {:induction false} SumOfBoth(a: seq<OpenedValidator>, b: seq<OpenedValidator>)
    ensures KeySum(a + b) == Plus(KeySum(a), KeySum(b))
    decreases |b|
  {
    if b == [] {
      assert a + b == a;
      PlusNothing(KeySum(a));
    } else {
      var n := |b| - 1;
      ConcatLast(a, b);
      SumOfBoth(a, b[..n]);
      PlusAssociates(KeySum(a), KeySum(b[..n]), b[n].key);
    }
  }

  lemma WithoutBoth(key: Point, a: seq<OpenedValidator>, b: seq<OpenedValidator>)
    ensures KeyWithout(KeyWithout(key, a), b) == KeyWithout(key, a + b)
  {
    SumOfBoth(a, b);
    var left, right := KeyWithout(KeyWithout(key, a), b), KeyWithout(key, a + b);
    forall u ensures Coef(left, u) == Coef(right, u) {
      assert Coef(Plus(KeySum(a), KeySum(b)), u) == Coef(KeySum(a), u) + Coef(KeySum(b), u);
    }
    SameCombo(left, right);
  }

  lemma TakeOutSplits(key: Point, vs: seq<OpenedValidator>)
    requires vs != []
    ensures
      var n := |vs| - 1;
      CanTakeOut(key, vs) <==> CanTakeOut(key, vs[..n]) && !Alike(KeyWithout(key, vs[..n]), vs[n].key)
  {
    hide Alike, KeyWithout;
    var n := |vs| - 1;
    assert forall k :: 0 <= k < n ==> vs[..n][..k] == vs[..k] && vs[..n][k] == vs[k];
  }

  lemma SumSplits(vs: seq<OpenedValidator>)
    requires vs != []
    ensures
      var n := |vs| - 1;
      CanSum(vs) <==> CanSum(vs[..n]) && (n > 0 ==> !Alike(KeySum(vs[..n]), vs[n].key))
  {
    hide Alike, KeySum;
    var n := |vs| - 1;
    assert forall k :: 0 <= k < n ==> vs[..n][..k] == vs[..k] && vs[..n][k] == vs[k];
  }

  /** The sum of a list as the circuit holds it: nothing yet, or a point. */
  function SumHeld(vs: seq<OpenedValidator>): PointSum
  {
    PointSum(if vs == [] then None else Some(KeySum(vs)))
  }

  function Held(key: Point): PointSum
  {
    PointSum(Some(key))
  }

  lemma TakesOne(key: Point, v: OpenedValidator)
    ensures Held(key).Sub(v.key) == if Alike(key, v.key) then None else Some(Held(Plus(key, Negated(v.key))))
  {
    AlikeIsShared(key, v.key);
  }

  lemma SumsOne(vs: seq<OpenedValidator>, v: OpenedValidator)
    ensures SumHeld(vs).Add(v.key)
         == if vs != [] && Alike(KeySum(vs), v.key) then None else Some(SumHeld(vs + [v]))
  {
    AlikeIsShared(KeySum(vs), v.key);
    WithoutOneMore(IDENTITY, vs, v);
    if vs == [] {
      PlusNothing(v.key);
    }
  }

  /** A run of named signers, taken out and summed up. */
  function Stripped(w: Working, key: Point, vs: seq<OpenedValidator>): Working
  {
    w.(key := Held(KeyWithout(key, vs)), named := w.named + NamedLeaves(vs))
  }

  lemma StripOne(w: Working, key: Point, vs: seq<OpenedValidator>, v: OpenedValidator)
    requires w.key == Held(key)
    ensures NameSigner(Signers(Stripped(w, key, vs), SumHeld(vs)), v)
         == if Alike(KeyWithout(key, vs), v.key) || (vs != [] && Alike(KeySum(vs), v.key)) then None
            else Some(Signers(Stripped(w, key, vs + [v]), SumHeld(vs + [v])))
  {
    TakesOne(KeyWithout(key, vs), v);
    SumsOne(vs, v);
    WithoutOneMore(key, vs, v);
    assert (vs + [v])[..|vs|] == vs;
    ConcatAssociates(w.named, NamedLeaves(vs), [NamedLeaf(v)]);
  }

  lemma {:induction false} SignersExact(w: Working, key: Point, vs: seq<OpenedValidator>)
    requires w.key == Held(key)
    ensures NameSigners(w, vs)
         == if CanTakeOut(key, vs) && CanSum(vs) then Some(Signers(Stripped(w, key, vs), SumHeld(vs))) else None
    decreases |vs|
  {
    hide Alike, NameSigner, Stripped, SumHeld;
    if vs == [] {
      NothingStripped(w, key);
    } else {
      var n := |vs| - 1;
      SignersExact(w, key, vs[..n]);
      hide CanTakeOut, CanSum;
      TakeOutSplits(key, vs);
      SumSplits(vs);
      StripOne(w, key, vs[..n], vs[n]);
      PrefixGrows(vs, n);
    }
  }

  lemma NothingStripped(w: Working, key: Point)
    requires w.key == Held(key)
    ensures Stripped(w, key, []) == w && SumHeld([]) == PointSum(None)
  {
    WithoutNothing(key);
    assert w.named + [] == w.named;
  }

  // ---- the minority's aggregates -------------------------------------------------------------------

  /** Everyone the secondary aggregates name, in order. */
  function SignersOf(secondary: seq<Attestation>): seq<OpenedValidator>
    decreases |secondary|
  {
    if secondary == [] then [] else SignersOf(secondary[..|secondary| - 1]) + secondary[|secondary| - 1].signers
  }

  /** One message an aggregate: its signers' keys summed, over what they signed. */
  function SecondaryMessages(secondary: seq<Attestation>, domain: Bytes32): (ms: seq<SignedMessage>)
    ensures |ms| == |secondary|
    ensures forall i :: 0 <= i < |ms| ==>
      ms[i] == SignedMessage([KeySum(secondary[i].signers)], SignedRoot(secondary[i].data, domain), [secondary[i].signature])
  {
    seq(|secondary|, (i: nat) requires i < |secondary| =>
      SignedMessage([KeySum(secondary[i].signers)], SignedRoot(secondary[i].data, domain), [secondary[i].signature]))
  }

  /** A secondary aggregate names someone, is for the link, and its keys can be summed. */
  predicate SecondaryOk(a: Attestation, link: Link)
  {
    a.signers != [] && a.data.link == link && CanSum(a.signers)
  }

  lemma TakeOutConcat(key: Point, a: seq<OpenedValidator>, b: seq<OpenedValidator>)
    ensures CanTakeOut(key, a + b) <==> CanTakeOut(key, a) && CanTakeOut(KeyWithout(key, a), b)
    decreases |b|
  {
    hide Alike, KeyWithout;
    if b == [] {
      assert a + b == a;
    } else {
      var n := |b| - 1;
      ConcatLast(a, b);
      TakeOutConcat(key, a, b[..n]);
      WithoutBoth(key, a, b[..n]);
      hide CanTakeOut;
      TakeOutSplits(key, a + b);
      TakeOutSplits(KeyWithout(key, a), b);
    }
  }

  lemma {:induction false} LeavesOfBoth(a: seq<OpenedValidator>, b: seq<OpenedValidator>)
    ensures NamedLeaves(a + b) == NamedLeaves(a) + NamedLeaves(b)
    decreases |b|
  {
    if b == [] {
      assert a + b == a;
    } else {
      ConcatLast(a, b);
      LeavesOfBoth(a, b[..|b| - 1]);
      ConcatAssociates(NamedLeaves(a), NamedLeaves(b[..|b| - 1]), [NamedLeaf(b[|b| - 1])]);
    }
  }

  /** What pushing an aggregate adds. */
  function Pushed(w: Working, m: SignedMessage): Working
  {
    w.(messages := w.messages + [m])
  }

  lemma PushExact(w: Working, aggregates: seq<Attestation>, key: Point, claim: Claim)
    requires aggregates != []
    ensures PushMessage(w, aggregates, key, claim)
         == if aggregates[0].data.link != claim.link then None
            else Some(Pushed(w, SignedMessage([key], SignedRoot(aggregates[0].data, claim.domain), SignaturesOf(aggregates))))
  {
    SignedRootIs(aggregates[0].data, claim.domain);
  }

  lemma SecondaryExact(w: Working, key: Point, a: Attestation, claim: Claim)
    requires w.key == Held(key)
    ensures TakeSecondary(w, a, claim)
         == if SecondaryOk(a, claim.link) && CanTakeOut(key, a.signers)
            then Some(Pushed(Stripped(w, key, a.signers), SecondaryMessages([a], claim.domain)[0])) else None
  {
    hide NameSigners, SignedRoot, CanTakeOut, CanSum, PushMessage;
    SignersExact(w, key, a.signers);
    PushExact(Stripped(w, key, a.signers), [a], KeySum(a.signers), claim);
    assert SignaturesOf([a]) == [a.signature];
  }

  /** The secondary aggregates together. */
  function Minority(w: Working, key: Point, secondary: seq<Attestation>, domain: Bytes32): Working
  {
    Stripped(w, key, SignersOf(secondary)).(messages := w.messages + SecondaryMessages(secondary, domain))
  }

  predicate MinorityOk(key: Point, secondary: seq<Attestation>, link: Link)
  {
    (forall a :: a in secondary ==> SecondaryOk(a, link)) && CanTakeOut(key, SignersOf(secondary))
  }

  lemma MinoritySplits(key: Point, secondary: seq<Attestation>, link: Link)
    requires secondary != []
    ensures
      var front, last := secondary[..|secondary| - 1], secondary[|secondary| - 1];
      MinorityOk(key, secondary, link) <==> MinorityOk(key, front, link) && SecondaryOk(last, link)
                                            && CanTakeOut(KeyWithout(key, SignersOf(front)), last.signers)
  {
    hide SecondaryOk, CanTakeOut;
    var front, last := secondary[..|secondary| - 1], secondary[|secondary| - 1];
    PrefixGrows(secondary, |secondary| - 1);
    TakeOutConcat(key, SignersOf(front), last.signers);
    assert forall a :: a in secondary <==> a in front || a == last;
  }

  lemma MinorityGrows(w: Working, key: Point, secondary: seq<Attestation>, domain: Bytes32)
    requires secondary != []
    ensures
      var front, last := secondary[..|secondary| - 1], secondary[|secondary| - 1];
      var rest := KeyWithout(key, SignersOf(front));
      && Minority(w, key, front, domain).key == Held(rest)
      && Minority(w, key, secondary, domain)
         == Pushed(Stripped(Minority(w, key, front, domain), rest, last.signers), SecondaryMessages([last], domain)[0])
  {
    hide KeyWithout, SignedRoot, KeySum;
    var front, last := secondary[..|secondary| - 1], secondary[|secondary| - 1];
    WithoutBoth(key, SignersOf(front), last.signers);
    LeavesOfBoth(SignersOf(front), last.signers);
    ConcatAssociates(w.named, NamedLeaves(SignersOf(front)), NamedLeaves(last.signers));
    MessagesGrow(secondary, domain);
    ConcatAssociates(w.messages, SecondaryMessages(front, domain), [SecondaryMessages([last], domain)[0]]);
  }

  lemma MessagesGrow(secondary: seq<Attestation>, domain: Bytes32)
    requires secondary != []
    ensures
      var n := |secondary| - 1;
      SecondaryMessages(secondary, domain)
      == SecondaryMessages(secondary[..n], domain) + [SecondaryMessages([secondary[n]], domain)[0]]
  {
    hide SignedRoot, KeySum;
  }

  lemma {:induction false} MinorityExact(w: Working, key: Point, secondary: seq<Attestation>, claim: Claim)
    requires w.key == Held(key)
    ensures TakeSecondaries(w, secondary, claim)
         == if MinorityOk(key, secondary, claim.link) then Some(Minority(w, key, secondary, claim.domain)) else None
    decreases |secondary|
  {
    hide TakeSecondary, SecondaryOk, CanTakeOut, Stripped;
    if secondary == [] {
      NoMinority(w, key, claim);
    } else {
      var n := |secondary| - 1;
      MinorityExact(w, key, secondary[..n], claim);
      hide MinorityOk, Minority;
      MinoritySplits(key, secondary, claim.link);
      MinorityGrows(w, key, secondary, claim.domain);
      SecondaryExact(Minority(w, key, secondary[..n], claim.domain), KeyWithout(key, SignersOf(secondary[..n])),
                     secondary[n], claim);
    }
  }

  lemma NoMinority(w: Working, key: Point, claim: Claim)
    requires w.key == Held(key)
    ensures MinorityOk(key, [], claim.link) && Minority(w, key, [], claim.domain) == w
  {
    NothingStripped(w, key);
    assert w.messages + [] == w.messages;
  }

  // ---- absentees -------------------------------------------------------------------------------------

  function Lowered(w: Working, key: Point, vs: seq<OpenedValidator>): Working
    requires NamedBalance(vs) <= w.support
  {
    Stripped(w, key, vs).(support := w.support - NamedBalance(vs))
  }

  lemma {:induction false} AbsenteesExact(w: Working, key: Point, vs: seq<OpenedValidator>)
    requires w.key == Held(key)
    ensures TakeAbsentees(w, vs)
         == if CanTakeOut(key, vs) && NamedBalance(vs) <= w.support then Some(Lowered(w, key, vs)) else None
    decreases |vs|
  {
    hide Alike, TakeAbsentee;
    if vs == [] {
      NothingStripped(w, key);
    } else {
      var n := |vs| - 1;
      AbsenteesExact(w, key, vs[..n]);
      hide CanTakeOut;
      TakeOutSplits(key, vs);
      PrefixGrows(vs, n);
      if NamedBalance(vs[..n]) <= w.support {
        LowerOne(w, key, vs[..n], vs[n]);
      }
    }
  }

  lemma LowerOne(w: Working, key: Point, vs: seq<OpenedValidator>, v: OpenedValidator)
    requires w.key == Held(key) && NamedBalance(vs) <= w.support
    ensures TakeAbsentee(Lowered(w, key, vs), v)
         == if Alike(KeyWithout(key, vs), v.key) || NamedBalance(vs + [v]) > w.support then None
            else Some(Lowered(w, key, vs + [v]))
  {
    hide Alike, KeyWithout, NamedLeaves, NamedBalance;
    OneMoreNamed(vs, v);
    TakesOne(KeyWithout(key, vs), v);
    WithoutOneMore(key, vs, v);
    ConcatAssociates(w.named, NamedLeaves(vs), [NamedLeaf(v)]);
  }

  lemma OneMoreNamed(vs: seq<OpenedValidator>, v: OpenedValidator)
    ensures NamedLeaves(vs + [v]) == NamedLeaves(vs) + [NamedLeaf(v)]
    ensures NamedBalance(vs + [v]) == NamedBalance(vs) + v.balance
  {
    assert (vs + [v])[..|vs|] == vs;
  }

  // ---- one slot --------------------------------------------------------------------------------------

  /** Everyone a slot names: the minority's signers, then the absentees. */
  function NamedIn(slot: SlotWitness): seq<OpenedValidator>
  {
    SignersOf(slot.secondary) + slot.absentees
  }

  /** When a slot can be read: one primary message for the link, naming no one; minority aggregates
      for the link, each naming someone; keys that can be added and taken out one by one; and no
      more balance absent than the committee has. */
  predicate SlotOk(slot: SlotWitness, claim: Claim)
  {
    && slot.slot < MAX_SLOTS && slot.primary != []
    && (forall a :: a in slot.primary ==> a.signers == [] && a.data == slot.primary[0].data && a.data.link == claim.link)
    && (forall a :: a in slot.secondary ==> SecondaryOk(a, claim.link))
    && CanTakeOut(slot.committee.key, NamedIn(slot))
    && NamedBalance(slot.absentees) <= slot.committee.balance
  }

  /** The primary message: signed by the committee without everyone named. */
  function PrimaryMessage(slot: SlotWitness, domain: Bytes32): SignedMessage
    requires slot.primary != []
  {
    SignedMessage([KeyWithout(slot.committee.key, NamedIn(slot))], SignedRoot(slot.primary[0].data, domain),
                  SignaturesOf(slot.primary))
  }

  /** What reading a slot adds. */
  function SlotAdds(slot: SlotWitness, domain: Bytes32): Run
    requires slot.primary != [] && NamedBalance(slot.absentees) <= slot.committee.balance
  {
    Run(slot.committee.balance - NamedBalance(slot.absentees), {slot.slot}, Some(slot.slot),
        NamedLeaves(NamedIn(slot)), [Opened(Leaf(slot.committee.key, slot.committee.balance), slot.slot)],
        SecondaryMessages(slot.secondary, domain) + [PrimaryMessage(slot, domain)])
  }

  /** The committee with everyone named taken out. */
  function Left(slot: SlotWitness, domain: Bytes32): Working
    requires NamedBalance(slot.absentees) <= slot.committee.balance
  {
    Working(Held(KeyWithout(slot.committee.key, NamedIn(slot))), slot.committee.balance - NamedBalance(slot.absentees),
            NamedLeaves(NamedIn(slot)), SecondaryMessages(slot.secondary, domain))
  }

  lemma RemainingExact(slot: SlotWitness, claim: Claim)
    ensures Remaining(OpenSlot(NOTHING_READ, slot), slot, claim)
         == if (forall a :: a in slot.secondary ==> SecondaryOk(a, claim.link))
               && CanTakeOut(slot.committee.key, NamedIn(slot))
               && NamedBalance(slot.absentees) <= slot.committee.balance
            then Some(Left(slot, claim.domain)) else None
  {
    hide TakeSecondaries, TakeAbsentees, SecondaryOk, CanTakeOut, KeyWithout, SignedRoot;
    var key, w := slot.committee.key, OpenSlot(NOTHING_READ, slot);
    var named := SignersOf(slot.secondary);
    MinorityExact(w, key, slot.secondary, claim);
    TakeOutConcat(key, named, slot.absentees);
    AbsenteesExact(Minority(w, key, slot.secondary, claim.domain), KeyWithout(key, named), slot.absentees);
    WithoutBoth(key, named, slot.absentees);
    LeavesOfBoth(named, slot.absentees);
    assert [] + NamedLeaves(named) == NamedLeaves(named);
    assert [] + SecondaryMessages(slot.secondary, claim.domain) == SecondaryMessages(slot.secondary, claim.domain);
  }

  /** Slot reading, exactly: a slot alone is accepted if and only if `SlotOk`, and then adds
      `SlotAdds`. */
  lemma SlotIsExact(slot: SlotWitness, claim: Claim)
    ensures ReadAlone(Marked(slot, claim)) == if SlotOk(slot, claim) then Some(SlotAdds(slot, claim.domain)) else None
  {
    hide Remaining, SecondaryOk, CanTakeOut, KeyWithout, SignedRoot, PushMessage;
    RemainingExact(slot, claim);
    if slot.slot < MAX_SLOTS && OneUnnamedMessage(slot.primary) && Remaining(OpenSlot(NOTHING_READ, slot), slot, claim).Some? {
      PushExact(Left(slot, claim.domain), slot.primary, KeyWithout(slot.committee.key, NamedIn(slot)), claim);
      assert slot.primary[0] in slot.primary;
      assert {} + {slot.slot} == {slot.slot} && NOTHING_READ.leaves
        + [Opened(Leaf(slot.committee.key, slot.committee.balance), slot.slot)]
        == [Opened(Leaf(slot.committee.key, slot.committee.balance), slot.slot)];
    }
  }
}
