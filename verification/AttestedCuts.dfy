/** Groups that were each accepted, verified as one list of slots: exactly when that is accepted
    too, and that it then counts what the groups count. */
module AttestedCuts {
  import opened Wrappers
  import opened Bls
  import opened Merkle
  import opened MultiProof
  import opened ProofBuilding
  import opened Accumulator
  import opened SlotProof
  import opened NamedOnce
  import opened Folds
  import opened Splitting
  import opened SlotCuts

  // ---- indices named over several groups --------------------------------------------------------

  predicate AtMostOnce(bag: multiset<nat>)
  {
    forall i :: i in bag ==> bag[i] == 1
  }

  function SumBags(bags: seq<multiset<nat>>): multiset<nat>
    decreases |bags|
  {
    if bags == [] then multiset{} else SumBags(bags[..|bags| - 1]) + bags[|bags| - 1]
  }

  predicate PairwiseDisjoint(bags: seq<multiset<nat>>)
  {
    forall k, l :: 0 <= k < l < |bags| ==> bags[k] !! bags[l]
  }

  lemma {:induction false} InSum(bags: seq<multiset<nat>>, i: nat)
    ensures i in SumBags(bags) <==> exists k :: 0 <= k < |bags| && i in bags[k]
    decreases |bags|
  {
    if bags != [] {
      var n := |bags| - 1;
      InSum(bags[..n], i);
      if exists k :: 0 <= k < |bags| && i in bags[k] {
        var k :| 0 <= k < |bags| && i in bags[k];
        assert k < n ==> i in bags[..n][k];
      }
      if i in SumBags(bags[..n]) {
        var k :| 0 <= k < n && i in bags[..n][k];
        assert i in bags[k];
      }
    }
  }

  lemma OnceAdds(a: multiset<nat>, b: multiset<nat>)
    ensures AtMostOnce(a + b) <==> AtMostOnce(a) && AtMostOnce(b) && a !! b
  {
    if AtMostOnce(a + b) {
      forall i ensures (i in a ==> a[i] == 1 && i !in b) && (i in b ==> b[i] == 1) {
        assert (a + b)[i] == a[i] + b[i];
      }
    }
  }

  lemma DisjointSplits(bags: seq<multiset<nat>>)
    requires bags != []
    ensures PairwiseDisjoint(bags)
        <==> PairwiseDisjoint(bags[..|bags| - 1]) && SumBags(bags[..|bags| - 1]) !! bags[|bags| - 1]
  {
    var n := |bags| - 1;
    var front, last := bags[..n], bags[n];
    if PairwiseDisjoint(bags) {
      forall k, l | 0 <= k < l < n ensures front[k] !! front[l] {
        assert bags[k] !! bags[l];
      }
      forall i ensures !(i in SumBags(front) && i in last) {
        InSum(front, i);
        assert forall k :: 0 <= k < n ==> bags[k] !! bags[n];
      }
    }
    if PairwiseDisjoint(front) && SumBags(front) !! last {
      forall k, l | 0 <= k < l < |bags| ensures bags[k] !! bags[l] {
        if l < n {
          assert front[k] !! front[l];
        } else {
          forall i | i in bags[k] ensures i !in last {
            assert i in front[k];
            InSum(front, i);
          }
        }
      }
    }
  }

  /** Bags without repeats add up to one exactly when no two of them meet. */
  lemma {:induction false} OnceInSum(bags: seq<multiset<nat>>)
    requires forall k :: 0 <= k < |bags| ==> AtMostOnce(bags[k])
    ensures AtMostOnce(SumBags(bags)) <==> PairwiseDisjoint(bags)
    decreases |bags|
  {
    if bags != [] {
      OnceInSum(bags[..|bags| - 1]);
      DisjointSplits(bags);
      OnceAdds(SumBags(bags[..|bags| - 1]), bags[|bags| - 1]);
    }
  }

  /** Indices that agree above the tree's width. */
  predicate AlikeAbove(indices: multiset<nat>, depth: nat)
  {
    forall i, j :: i in indices && j in indices ==> High(i, depth) == High(j, depth)
  }

  predicate AllAlike(bags: seq<multiset<nat>>, depth: nat)
  {
    forall a, b, i, j :: a in bags && b in bags && i in a && j in b ==> High(i, depth) == High(j, depth)
  }

  lemma AlikeInSum(bags: seq<multiset<nat>>, depth: nat)
    ensures AlikeAbove(SumBags(bags), depth) <==> AllAlike(bags, depth)
  {
    hide SumBags, High;
    if AlikeAbove(SumBags(bags), depth) {
      forall a, b, i, j | a in bags && b in bags && i in a && j in b ensures High(i, depth) == High(j, depth) {
        InSum(bags, i);
        InSum(bags, j);
      }
    }
    if AllAlike(bags, depth) {
      forall i, j | i in SumBags(bags) && j in SumBags(bags) ensures High(i, depth) == High(j, depth) {
        InSum(bags, i);
        InSum(bags, j);
      }
    }
  }

  // ---- what was named, whatever the order --------------------------------------------------------

  /** What is named, and how often each index is. */
  datatype Names = Names(items: set<Opened<Digest>>, indices: multiset<nat>)

  function NamesOf(named: seq<Opened<Digest>>): Names
  {
    Names(set x | x in named, multiset(Indices(named)))
  }

  function JoinNames(a: Names, b: Names): Names
  {
    Names(a.items + b.items, a.indices + b.indices)
  }

  lemma NamesConcat(a: seq<Opened<Digest>>, b: seq<Opened<Digest>>)
    ensures NamesOf(a + b) == JoinNames(NamesOf(a), NamesOf(b))
  {
    assert Indices(a + b) == Indices(a) + Indices(b);
    assert (set x | x in a + b) == (set x | x in a) + (set x | x in b);
  }

  function NamedBy(m: Marked): Names
  {
    NamesOf(AloneRun(m).named)
  }

  function StepNames(n: Names, m: Marked): Names
  {
    JoinNames(n, NamedBy(m))
  }

  lemma {:induction false} NamesAreFold(ms: seq<Marked>)
    ensures NamesOf(Together(ms).named) == FoldAll(StepNames, NamesOf([]), ms)
    decreases |ms|
  {
    if ms != [] {
      var n := |ms| - 1;
      NamesAreFold(ms[..n]);
      NamesConcat(Together(ms[..n]).named, AloneRun(ms[n]).named);
    }
  }

  lemma JoinedSwaps(n: Names, a: Names, b: Names)
    ensures JoinNames(JoinNames(n, a), b) == JoinNames(JoinNames(n, b), a)
  {
    assert n.items + a.items + b.items == n.items + b.items + a.items;
    assert n.indices + a.indices + b.indices == n.indices + b.indices + a.indices;
  }

  lemma NamesPermute(a: seq<Marked>, b: seq<Marked>)
    requires multiset(a) == multiset(b)
    ensures NamesOf(Together(a).named) == NamesOf(Together(b).named)
  {
    hide NamedBy, JoinNames;
    NamesAreFold(a);
    NamesAreFold(b);
    forall n: Names, x: Marked, y: Marked ensures StepNames(StepNames(n, x), y) == StepNames(StepNames(n, y), x) {
      JoinedSwaps(n, NamedBy(x), NamedBy(y));
    }
    FoldPermutes(StepNames, NamesOf([]), a, b);
  }

  // ---- which names open ----------------------------------------------------------------------------

  predicate OwnAt(items: set<Opened<Digest>>, leaves: seq<Digest>, depth: nat)
  {
    forall x :: x in items ==> x.leaf == Node(Compress, Zero, leaves, 0, Low(x.index, depth))
  }

  predicate CanOpen(n: Names, leaves: seq<Digest>, depth: nat)
  {
    AtMostOnce(n.indices) && AlikeAbove(n.indices, depth) && OwnAt(n.items, leaves, depth)
  }

  lemma IndexIn(items: seq<Opened<Digest>>, i: nat)
    ensures i in multiset(Indices(items)) <==> exists x :: x in items && x.index == i
  {
    if i in Indices(items) {
      var k: nat :| k < |items| && Indices(items)[k] == i;
      assert items[k] in items;
    }
    if exists x :: x in items && x.index == i {
      var x :| x in items && x.index == i;
      var k: nat :| k < |items| && items[k] == x;
      assert Indices(items)[k] == i;
    }
  }

  lemma {:induction false} ApartIsOnce(items: seq<Opened<Digest>>)
    ensures Apart(items) <==> AtMostOnce(multiset(Indices(items)))
    decreases |items|
  {
    if items != [] {
      var rest := items[1..];
      ApartIsOnce(rest);
      IndexIn(rest, items[0].index);
      assert Indices(items) == [items[0].index] + Indices(rest);
      OnceAdds(multiset([items[0].index]), multiset(Indices(rest)));
    }
  }

  lemma OpensWhenExact(named: seq<Opened<Digest>>, leaves: seq<Digest>, depth: nat) returns (aux: seq<Digest>)
    requires CanOpen(NamesOf(named), leaves, depth)
    ensures NamedOpen(named, aux, Root(Compress, Zero, leaves, depth), depth)
  {
    var sorted := SortedByIndex(named);
    if named == [] {
      aux := [];
    } else {
      ApartIsOnce(named);
      ApartSorts(named);
      RisingIncreases(-1, sorted);
      var prefix := High(named[0].index, depth);
      assert named[0] in sorted;
      forall x | x in sorted
        ensures High(x.index, depth) == prefix && x.leaf == Node(Compress, Zero, leaves, 0, Low(x.index, depth))
      {
        assert x in NamesOf(named).items;
        IndexIn(named, x.index);
        IndexIn(named, named[0].index);
      }
      aux := OpenableComplete(Compress, Zero, leaves, sorted, depth, prefix);
    }
  }

  lemma ExactWhenOpens(named: seq<Opened<Digest>>, aux: seq<Digest>, leaves: seq<Digest>, depth: nat)
    requires NamedOpen(named, aux, Root(Compress, Zero, leaves, depth), depth)
    ensures CanOpen(NamesOf(named), leaves, depth)
  {
    OpenedApart(named, aux, leaves, depth);
    ApartIsOnce(named);
    if named != [] {
      var sorted := SortedByIndex(named);
      ReachedShares(Compress, sorted, aux, depth);
      forall i | i in NamesOf(named).indices ensures High(i, depth) == High(sorted[0].index, depth) {
        IndexIn(named, i);
        IndexIn(sorted, i);
      }
    }
  }

  // ---- what the groups name --------------------------------------------------------------------------

  /** The indices a group names. */
  function IndicesNamed(slots: seq<SlotWitness>, claim: Claim): multiset<nat>
  {
    if TakeSlots(slots, claim).Some? then multiset(Indices(TakeSlots(slots, claim).value.named)) else multiset{}
  }

  function BagsOf(parts: seq<seq<SlotWitness>>, claim: Claim): (bags: seq<multiset<nat>>)
    ensures |bags| == |parts| && forall k :: 0 <= k < |bags| ==> bags[k] == IndicesNamed(parts[k], claim)
  {
    seq(|parts|, (k: nat) requires k < |parts| => IndicesNamed(parts[k], claim))
  }

  ghost predicate AllTaken(parts: seq<seq<SlotWitness>>, claim: Claim)
  {
    forall k :: 0 <= k < |parts| ==> TakeSlots(parts[k], claim).Some?
  }

  function NamesTogether(parts: seq<seq<SlotWitness>>, claim: Claim): Names
  {
    NamesOf(Together(AllMarks(parts, claim)).named)
  }

  lemma NamesSplit(parts: seq<seq<SlotWitness>>, claim: Claim)
    requires parts != [] && TakeSlots(parts[|parts| - 1], claim).Some?
    ensures NamesTogether(parts, claim)
         == JoinNames(NamesTogether(parts[..|parts| - 1], claim), NamesOf(TakeSlots(parts[|parts| - 1], claim).value.named))
  {
    hide TakeSlots, Together, NamesOf, JoinNames, Marks, Readable, AllAlone, CountedOnce;
    var front, last := parts[..|parts| - 1], Marks(parts[|parts| - 1], claim);
    TakeIsTogether(parts[|parts| - 1], claim);
    ReadableSplits(parts, claim);
    TogetherConcat(AllMarks(front, claim), last);
    NamesConcat(Together(AllMarks(front, claim)).named, Together(last).named);
  }

  lemma {:induction false} PartsNames(parts: seq<seq<SlotWitness>>, claim: Claim)
    requires AllTaken(parts, claim)
    ensures NamesTogether(parts, claim).indices == SumBags(BagsOf(parts, claim))
    ensures forall x :: x in NamesTogether(parts, claim).items ==>
      exists k :: 0 <= k < |parts| && x in TakeSlots(parts[k], claim).value.named
    decreases |parts|
  {
    hide TakeSlots, Together;
    if parts == [] {
      NothingNamed(claim);
    } else {
      var n := |parts| - 1;
      var front := parts[..n];
      assert forall k :: 0 <= k < n ==> front[k] == parts[k];
      PartsNames(front, claim);
      hide NamesTogether;
      NamesSplit(parts, claim);
      assert BagsOf(parts, claim)[..n] == BagsOf(front, claim);
    }
  }

  lemma NothingNamed(claim: Claim)
    ensures NamesTogether([], claim) == Names({}, multiset{})
  {
    assert AllMarks([], claim) == [];
  }

  // ---- the committees' leaves ------------------------------------------------------------------------

  function CommitteeLeaf(slot: SlotWitness): Opened<Digest>
  {
    Opened(Leaf(slot.committee.key, slot.committee.balance), slot.slot)
  }

  lemma AloneLeaf(m: Marked)
    requires ReadAlone(m).Some?
    ensures AloneRun(m).leaves == [CommitteeLeaf(m.slot)] && m.slot.slot < MAX_SLOTS
  {
    assert NOTHING_READ.leaves + [CommitteeLeaf(m.slot)] == [CommitteeLeaf(m.slot)];
  }

  function CommitteeLeaves(ms: seq<Marked>): (leaves: seq<Opened<Digest>>)
    ensures |leaves| == |ms| && forall i :: 0 <= i < |ms| ==> leaves[i] == CommitteeLeaf(ms[i].slot)
  {
    seq(|ms|, (i: nat) requires i < |ms| => CommitteeLeaf(ms[i].slot))
  }

  lemma CommitteeLeavesAppend(ms: seq<Marked>)
    requires ms != []
    ensures CommitteeLeaves(ms) == CommitteeLeaves(ms[..|ms| - 1]) + [CommitteeLeaf(ms[|ms| - 1].slot)]
  {
    hide CommitteeLeaf;
  }

  lemma LeavesAppend(ms: seq<Marked>)
    requires ms != [] && AllAlone(ms)
    ensures AllAlone(ms[..|ms| - 1])
    ensures Together(ms).leaves == Together(ms[..|ms| - 1]).leaves + [CommitteeLeaf(ms[|ms| - 1].slot)]
  {
    hide AloneRun, ReadAlone;
    AloneSplits(ms);
    AloneLeaf(ms[|ms| - 1]);
  }

  /** One leaf a slot, in order. */
  lemma {:induction false} LeavesFollow(ms: seq<Marked>)
    requires AllAlone(ms)
    ensures Together(ms).leaves == CommitteeLeaves(ms)
    decreases |ms|
  {
    hide AllAlone, CommitteeLeaf;
    if ms != [] {
      hide Together;
      LeavesAppend(ms);
      LeavesFollow(ms[..|ms| - 1]);
      hide CommitteeLeaves;
      CommitteeLeavesAppend(ms);
    }
  }

  lemma FitsTree(slot: nat)
    requires slot < MAX_SLOTS
    ensures slot < Pow2(TREE_DEPTH)
  {
  }

  /** An accepted group's committees are the tree's own. */
  lemma OwnCommittee(slots: seq<SlotWitness>, at: Openings, claim: Claim, accDepth: nat, committees: seq<Digest>, k: nat)
    requires AttestedBy(slots, at, claim, accDepth).Some? && k < |slots|
    requires at.committeeRoot == Root(Compress, Zero, committees, TREE_DEPTH)
    ensures slots[k].slot < MAX_SLOTS && CommitteeLeaf(slots[k]).leaf == Node(Compress, Zero, committees, 0, slots[k].slot)
  {
    hide Together, TakeSlots, NamedOpen, MillerAccumulator, RootOfLeaves, Root, Low, ReadAlone, Marks;
    var ms := Marks(slots, claim);
    TakeIsTogether(slots, claim);
    LeavesFollow(ms);
    assert ms[k] in ms;
    AloneLeaf(ms[k]);
    BatchSound(Compress, Zero, committees, CommitteeLeaves(ms), at.committeeAux, TREE_DEPTH);
    FitsTree(slots[k].slot);
    SmallIndex(slots[k].slot, TREE_DEPTH);
    assert CommitteeLeaves(ms)[k] == CommitteeLeaf(slots[k]);
  }

  lemma CommitteesOpen(all: seq<SlotWitness>, claim: Claim, committees: seq<Digest>) returns (aux: seq<Digest>)
    requires all != [] && SlotCuts.Increasing(all) && AllAlone(Marks(all, claim))
    requires forall s :: s in all ==>
      s.slot < MAX_SLOTS && CommitteeLeaf(s).leaf == Node(Compress, Zero, committees, 0, s.slot)
    ensures RootOfLeaves(Compress, Together(Marks(all, claim)).leaves, aux, TREE_DEPTH)
         == Some(Root(Compress, Zero, committees, TREE_DEPTH))
  {
    hide Together, AllAlone, RootOfLeaves, ProofAux, Root, Node, Pow2;
    LeavesFollow(Marks(all, claim));
    var items := CommitteeLeaves(Marks(all, claim));
    var idx := Indices(items);
    forall i | 0 <= i < |all| ensures items[i].leaf == Node(Compress, Zero, committees, 0, idx[i]) && idx[i] < Pow2(TREE_DEPTH) {
      assert all[i] in all;
      FitsTree(all[i].slot);
    }
    assert OpenedAt(Compress, Zero, committees, idx) == items;
    BatchComplete(Compress, Zero, committees, TREE_DEPTH, idx);
    aux := ProofAux(Compress, Zero, committees, 0, TREE_DEPTH, idx);
  }

  // ---- groups accepted apart -------------------------------------------------------------------------

  /** Openings against these two trees. */
  ghost predicate RootedIn(at: Openings, leaves: seq<Digest>, accDepth: nat, committees: seq<Digest>)
  {
    && at.accRoot == Root(Compress, Zero, leaves, accDepth)
    && at.committeeRoot == Root(Compress, Zero, committees, TREE_DEPTH)
  }

  /** Each group is accepted by itself, whatever openings it came with. */
  ghost predicate EachAttested(parts: seq<seq<SlotWitness>>, ats: seq<Openings>, claim: Claim,
                               leaves: seq<Digest>, accDepth: nat, committees: seq<Digest>)
  {
    && |ats| == |parts|
    && forall k :: 0 <= k < |parts| ==>
         RootedIn(ats[k], leaves, accDepth, committees) && AttestedBy(parts[k], ats[k], claim, accDepth).Some?
  }

  /** No index is named by two groups, and all that are named agree above the tree's width, as
      those of leaves the tree stores do. */
  predicate NobodyTwice(parts: seq<seq<SlotWitness>>, claim: Claim, accDepth: nat)
  {
    PairwiseDisjoint(BagsOf(parts, claim)) && AllAlike(BagsOf(parts, claim), accDepth)
  }

  ghost predicate EachOpens(parts: seq<seq<SlotWitness>>, claim: Claim, leaves: seq<Digest>, accDepth: nat)
  {
    && AllTaken(parts, claim)
    && forall k :: 0 <= k < |parts| ==> CanOpen(NamesOf(TakeSlots(parts[k], claim).value.named), leaves, accDepth)
  }

  lemma EachGroupOpens(parts: seq<seq<SlotWitness>>, ats: seq<Openings>, claim: Claim,
                       leaves: seq<Digest>, accDepth: nat, committees: seq<Digest>)
    requires EachAttested(parts, ats, claim, leaves, accDepth, committees)
    ensures EachOpens(parts, claim, leaves, accDepth)
  {
    hide TakeSlots, CanOpen, NamesOf, NamedOpen, Root, RootOfLeaves, MillerAccumulator;
    forall k | 0 <= k < |parts|
      ensures TakeSlots(parts[k], claim).Some? && CanOpen(NamesOf(TakeSlots(parts[k], claim).value.named), leaves, accDepth)
    {
      ExactWhenOpens(TakeSlots(parts[k], claim).value.named, ats[k].accAux, leaves, accDepth);
    }
  }

  /** What groups name opens at once exactly when nobody is named twice. */
  lemma NamesOpenAtOnce(parts: seq<seq<SlotWitness>>, claim: Claim, leaves: seq<Digest>, accDepth: nat)
    requires EachOpens(parts, claim, leaves, accDepth)
    ensures CanOpen(NamesTogether(parts, claim), leaves, accDepth) <==> NobodyTwice(parts, claim, accDepth)
  {
    hide TakeSlots, NamesTogether, AlikeAbove, AllAlike, AtMostOnce, PairwiseDisjoint, SumBags, NamesOf, OwnAt;
    PartsNames(parts, claim);
    NamesAreOwn(parts, claim, leaves, accDepth);
    forall k | 0 <= k < |parts| ensures AtMostOnce(BagsOf(parts, claim)[k]) {
      NamesOfTaken(parts[k], claim);
    }
    OnceInSum(BagsOf(parts, claim));
    AlikeInSum(BagsOf(parts, claim), accDepth);
  }

  lemma NamesOfTaken(slots: seq<SlotWitness>, claim: Claim)
    requires TakeSlots(slots, claim).Some?
    ensures NamesOf(TakeSlots(slots, claim).value.named).indices == IndicesNamed(slots, claim)
  {
  }

  lemma NamesAreOwn(parts: seq<seq<SlotWitness>>, claim: Claim, leaves: seq<Digest>, accDepth: nat)
    requires EachOpens(parts, claim, leaves, accDepth)
    ensures OwnAt(NamesTogether(parts, claim).items, leaves, accDepth)
  {
    hide TakeSlots, NamesTogether, AtMostOnce, AlikeAbove, Node, Low;
    PartsNames(parts, claim);
    forall x | x in NamesTogether(parts, claim).items ensures x.leaf == Node(Compress, Zero, leaves, 0, Low(x.index, accDepth)) {
      var k :| 0 <= k < |parts| && x in TakeSlots(parts[k], claim).value.named;
      assert x in NamesOf(TakeSlots(parts[k], claim).value.named).items;
    }
  }

  // ---- accepted at once --------------------------------------------------------------------------------

  lemma {:induction false} PartsAlone(parts: seq<seq<SlotWitness>>, claim: Claim)
    requires AllTaken(parts, claim)
    ensures AllIncreasing(parts) && AllAlone(AllMarks(parts, claim))
    decreases |parts|
  {
    hide TakeSlots, AllAlone, CountedOnce, Together;
    if parts == [] {
      assert AllMarks(parts, claim) == [];
      NothingAlone();
    } else {
      var n := |parts| - 1;
      assert forall k :: 0 <= k < n ==> parts[..n][k] == parts[k];
      PartsAlone(parts[..n], claim);
      TakeIsTogether(parts[n], claim);
      MarksConcat(Flatten(parts[..n]), parts[n], claim);
      AloneConcat(AllMarks(parts[..n], claim), Marks(parts[n], claim));
      PrefixGrows(parts, n);
    }
  }

  lemma NothingAlone()
    ensures AllAlone([])
  {
  }

  /** Slots shared out among groups that were read are read at once, and so are the groups. */
  lemma TakenTogether(parts: seq<seq<SlotWitness>>, all: seq<SlotWitness>, claim: Claim)
    requires multiset(all) == multiset(Flatten(parts)) && SlotCuts.Increasing(all) && AllTaken(parts, claim)
    ensures TakeSlots(all, claim) == Some(Together(Marks(all, claim))) && AllAlone(Marks(all, claim))
    ensures ReadParts(parts, claim).Some?
    ensures NamesOf(TakeSlots(all, claim).value.named) == NamesTogether(parts, claim)
  {
    hide TakeSlots, AllAlone, Together, Gather, MillerAccumulator, NamesOf, ReadParts, ProductOf;
    PartsAlone(parts, claim);
    MarksPermute(all, Flatten(parts), claim);
    AlonePermutes(Marks(all, claim), AllMarks(parts, claim));
    TakeIsTogether(all, claim);
    CutChangesNothing(parts, all, claim);
    NamesPermute(Marks(all, claim), AllMarks(parts, claim));
  }

  /** A group has an accumulator of its own. */
  predicate Paired(slots: seq<SlotWitness>, claim: Claim)
  {
    TakeSlots(slots, claim).Some? && MillerAccumulator(TakeSlots(slots, claim).value.messages).Some?
  }

  lemma PairedAppends(parts: seq<seq<SlotWitness>>, claim: Claim)
    requires parts != [] && ProductOf(MessagesOf(parts[..|parts| - 1], claim)).Some? && Paired(parts[|parts| - 1], claim)
    ensures ProductOf(MessagesOf(parts, claim)).Some?
  {
    hide TakeSlots, Together, MillerAccumulator, ProductOf, Marks;
    var front, slots := MessagesOf(parts[..|parts| - 1], claim), parts[|parts| - 1];
    TakeIsTogether(slots, claim);
    var last := Together(Marks(slots, claim)).messages;
    ProductAppends(front, ProductOf(front).value, last, MillerAccumulator(last).value);
  }

  lemma {:induction false} EachHasProduct(parts: seq<seq<SlotWitness>>, claim: Claim)
    requires forall k :: 0 <= k < |parts| ==> Paired(parts[k], claim)
    ensures ProductOf(MessagesOf(parts, claim)).Some?
    decreases |parts|
  {
    hide Paired;
    if parts != [] {
      hide MessagesOf, ProductOf;
      assert forall k :: 0 <= k < |parts| - 1 ==> parts[..|parts| - 1][k] == parts[k];
      EachHasProduct(parts[..|parts| - 1], claim);
      PairedAppends(parts, claim);
    }
  }

  lemma SlotsAreOwn(parts: seq<seq<SlotWitness>>, ats: seq<Openings>, all: seq<SlotWitness>, claim: Claim,
                    leaves: seq<Digest>, accDepth: nat, committees: seq<Digest>, s: SlotWitness)
    requires EachAttested(parts, ats, claim, leaves, accDepth, committees)
    requires multiset(all) == multiset(Flatten(parts)) && s in all
    ensures s.slot < MAX_SLOTS && CommitteeLeaf(s).leaf == Node(Compress, Zero, committees, 0, s.slot)
  {
    hide AttestedBy, Root, Node, CommitteeLeaf;
    SameElements(all, Flatten(parts), s);
    var k, j := InFlatten(parts, s);
    OwnCommittee(parts[k], ats[k], claim, accDepth, committees, j);
  }

  lemma {:induction false} InFlatten<T>(parts: seq<seq<T>>, x: T) returns (k: nat, j: nat)
    requires x in Flatten(parts)
    ensures k < |parts| && j < |parts[k]| && parts[k][j] == x
    decreases |parts|
  {
    var n := |parts| - 1;
    if x in parts[n] {
      k := n;
      j :| 0 <= j < |parts[n]| && parts[n][j] == x;
    } else {
      k, j := InFlatten(parts[..n], x);
    }
  }

  lemma EachIsPaired(parts: seq<seq<SlotWitness>>, ats: seq<Openings>, claim: Claim,
                     leaves: seq<Digest>, accDepth: nat, committees: seq<Digest>)
    requires EachAttested(parts, ats, claim, leaves, accDepth, committees)
    ensures AllTaken(parts, claim) && ProductOf(MessagesOf(parts, claim)).Some?
  {
    hide TakeSlots, MillerAccumulator, NamedOpen, RootOfLeaves, RootedIn, ProductOf, MessagesOf;
    forall k | 0 <= k < |parts| ensures Paired(parts[k], claim) {
      assert AttestedBy(parts[k], ats[k], claim, accDepth).Some?;
    }
    EachHasProduct(parts, claim);
  }

  /** The openings of all slots, if what they name can be opened. */
  lemma OpeningsAtOnce(all: seq<SlotWitness>, claim: Claim, leaves: seq<Digest>, accDepth: nat, committees: seq<Digest>)
    returns (at: Openings)
    requires all != [] && SlotCuts.Increasing(all) && AllAlone(Marks(all, claim))
    requires TakeSlots(all, claim) == Some(Together(Marks(all, claim)))
    requires forall s :: s in all ==>
      s.slot < MAX_SLOTS && CommitteeLeaf(s).leaf == Node(Compress, Zero, committees, 0, s.slot)
    requires CanOpen(NamesOf(TakeSlots(all, claim).value.named), leaves, accDepth)
    ensures RootedIn(at, leaves, accDepth, committees)
    ensures
      var run := TakeSlots(all, claim).value;
      && NamedOpen(run.named, at.accAux, at.accRoot, accDepth)
      && RootOfLeaves(Compress, run.leaves, at.committeeAux, TREE_DEPTH) == Some(at.committeeRoot)
  {
    hide TakeSlots, Together, AllAlone, NamesOf, CanOpen, Root, Node, RootOfLeaves, NamedOpen, CommitteeLeaf;
    var accAux := OpensWhenExact(TakeSlots(all, claim).value.named, leaves, accDepth);
    var committeeAux := CommitteesOpen(all, claim, committees);
    at := Openings(Root(Compress, Zero, leaves, accDepth), accAux, Root(Compress, Zero, committees, TREE_DEPTH), committeeAux);
  }

  /** Groups accepted apart are accepted at once, under some openings against the same trees, if
      and only if nobody is named by two of them and no keys or signatures cancel; and then the
      one list counts what the folds of the groups count. */
  lemma AcceptedAtOnce(parts: seq<seq<SlotWitness>>, ats: seq<Openings>, all: seq<SlotWitness>, claim: Claim,
                       leaves: seq<Digest>, accDepth: nat, committees: seq<Digest>)
    requires EachAttested(parts, ats, claim, leaves, accDepth, committees)
    requires multiset(all) == multiset(Flatten(parts)) && SlotCuts.Increasing(all)
    ensures TakeSlots(all, claim).Some? && ReadParts(parts, claim).Some? && ProductOf(MessagesOf(parts, claim)).Some?
    ensures
      var cut, product := ReadParts(parts, claim).value, ProductOf(MessagesOf(parts, claim)).value;
      && ((exists at :: RootedIn(at, leaves, accDepth, committees) && AttestedBy(all, at, claim, accDepth).Some?)
          <==> NobodyTwice(parts, claim, accDepth) && NothingCancels(TakeSlots(all, claim).value.messages, product))
      && forall at :: RootedIn(at, leaves, accDepth, committees) && AttestedBy(all, at, claim, accDepth).Some? ==>
           AttestedBy(all, at, claim, accDepth) == Some(Attested(cut.balance, cut.mask, product))
  {
    hide TakeSlots, Together, AllAlone, NamesOf, NamesTogether, CanOpen, Root, Node, RootOfLeaves, NamedOpen, CommitteeLeaf;
    hide MillerAccumulator, ProductOf, MessagesOf, ReadParts, Gather, NobodyTwice, NothingCancels, RootedIn, Marks, EachAttested;
    EachIsPaired(parts, ats, claim, leaves, accDepth, committees);
    TakenTogether(parts, all, claim);
    CutChangesNothing(parts, all, claim);
    EachGroupOpens(parts, ats, claim, leaves, accDepth, committees);
    NamesOpenAtOnce(parts, claim, leaves, accDepth);
    var product := ProductOf(MessagesOf(parts, claim)).value;
    var run := TakeSlots(all, claim).value;
    forall at | RootedIn(at, leaves, accDepth, committees) && AttestedBy(all, at, claim, accDepth).Some?
      ensures NobodyTwice(parts, claim, accDepth)
    {
      NamesOpenRooted(run.named, at, leaves, accDepth, committees);
    }
    if NobodyTwice(parts, claim, accDepth) && NothingCancels(run.messages, product) {
      forall s | s in all ensures s.slot < MAX_SLOTS && CommitteeLeaf(s).leaf == Node(Compress, Zero, committees, 0, s.slot) {
        SlotsAreOwn(parts, ats, all, claim, leaves, accDepth, committees, s);
      }
      MessagesMeanSlots(all, claim, product);
      var at := OpeningsAtOnce(all, claim, leaves, accDepth, committees);
      assert AttestedBy(all, at, claim, accDepth).Some?;
    }
  }

  lemma NamesOpenRooted(named: seq<Opened<Digest>>, at: Openings, leaves: seq<Digest>, accDepth: nat, committees: seq<Digest>)
    requires RootedIn(at, leaves, accDepth, committees) && NamedOpen(named, at.accAux, at.accRoot, accDepth)
    ensures CanOpen(NamesOf(named), leaves, accDepth)
  {
    ExactWhenOpens(named, at.accAux, leaves, accDepth);
  }

  lemma MessagesMeanSlots(all: seq<SlotWitness>, claim: Claim, product: Fp12)
    requires TakeSlots(all, claim).Some? && NothingCancels(TakeSlots(all, claim).value.messages, product)
    ensures all != []
  {
  }
}
