/** What a running count stands for: a balance that is exactly the weight of a formal key in
    which no validator counts more than once. */
module Tallies {
  import opened FormalSums
  import opened Ssz
  import opened Bls
  import opened Merkle
  import opened Accumulator
  import opened SlotProof

  /** One at `u`, zero elsewhere. */
  ghost function Indicator(u: nat): nat -> int
  {
    (i: nat) => if i == u then 1 else 0
  }

  /** A measure of validators, read off votes. */
  ghost function ByVoter(g: nat -> int): Vote -> int
  {
    (p: Vote) => g(p.0)
  }

  lemma WeighIndicator(c: Point, u: nat)
    ensures Weigh(c, Indicator(u)) == Coef(c, u)
  {
    var s: set<nat> := c.Keys + {u};
    WeighWithin(c, Indicator(u), s);
    SumSpike<nat>(s, Term(c, Indicator(u)), u);
  }

  // ---- the committee tree -------------------------------------------------------------------

  /** How often validator `u` stands in the committee of a slot. */
  ghost function MemberAt(committees: seq<Digest>, u: nat): nat -> int
  {
    (s: nat) => if s < |committees| && committees[s].Leaf? then Coef(committees[s].key, u) else 0
  }

  /** A committee leaf holds the sum of some validators' keys and the sum of their balances. */
  ghost predicate Summed(committee: Digest, leaves: seq<Digest>)
  {
    || committee == Zero
    || (committee.Leaf? && Weigh(committee.key, Balances(leaves)) == committee.balance)
  }

  ghost function TimesSeated(committees: seq<Digest>, slots: set<nat>, u: nat): int
  {
    SumOver(slots, MemberAt(committees, u))
  }

  ghost function SlotsBalance(committees: seq<Digest>, slots: set<nat>): int
  {
    SumOver(slots, Balances(committees))
  }

  /** Committees that share no validator, together within the committed total. */
  ghost predicate Partition(committees: seq<Digest>, leaves: seq<Digest>)
  {
    && |committees| == MAX_SLOTS
    && (forall s :: 0 <= s < MAX_SLOTS ==> Summed(committees[s], leaves))
    && (forall u: nat, s: nat :: MemberAt(committees, u)(s) >= 0)
    && (forall u: nat :: TimesSeated(committees, FirstPositions(|committees|), u) <= 1)
    && SlotsBalance(committees, FirstPositions(|committees|)) <= Total(leaves) < U64
  }

  lemma SeatedOnce(committees: seq<Digest>, leaves: seq<Digest>, mask: set<nat>, u: nat)
    requires Partition(committees, leaves) && mask <= FirstPositions(|committees|)
    ensures TimesSeated(committees, mask, u) <= 1
  {
    assert TimesSeated(committees, FirstPositions(|committees|), u) <= 1;
    SumPart<nat>(mask, FirstPositions(|committees|), MemberAt(committees, u));
  }

  lemma WithinTotal(committees: seq<Digest>, leaves: seq<Digest>, mask: set<nat>)
    requires Partition(committees, leaves) && mask <= FirstPositions(|committees|)
    ensures 0 <= SlotsBalance(committees, mask) <= Total(leaves)
  {
    SumPart<nat>(mask, FirstPositions(|committees|), Balances(committees));
  }

  // ---- sound tallies ----------------------------------------------------------------------

  /** Where a count happens: the accumulator's leaves, the committee tree, the link voted for,
      and the votes the supplied signatures are made of. */
  datatype Epoch = Epoch(leaves: seq<Digest>, committees: seq<Digest>, link: Link, votes: set<Vote>)

  ghost predicate Sound(t: Attested, e: Epoch)
  {
    && t.mask <= FirstPositions(|e.committees|)
    && t.balance == Weigh(t.miller.keys, ByVoter(Balances(e.leaves)))
    && t.balance <= SlotsBalance(e.committees, t.mask)
    && (forall u: nat :: Weigh(t.miller.keys, ByVoter(Indicator(u))) <= TimesSeated(e.committees, t.mask, u))
    && (forall p :: p in t.miller.keys ==> Names(p.1, e.link))
    && t.miller.sigs.Keys <= e.votes
  }

  lemma NothingCountedIsSound(e: Epoch)
    ensures Sound(Attested(0, {}, FP12_ONE), e)
  {
    forall u: nat ensures Weigh(FP12_ONE.keys, ByVoter(Indicator(u))) <= TimesSeated(e.committees, {}, u) {
    }
  }

  /** Counts of different slots add: no balance wraps, and no validator reaches two. */
  lemma SoundCountsAdd(a: Attested, b: Attested, e: Epoch)
    requires Sound(a, e) && Sound(b, e) && a.mask !! b.mask && Partition(e.committees, e.leaves)
    ensures a.balance + b.balance < U64
    ensures Sound(Added(a, b), e)
  {
    BalancesAdd(a, b, e);
    NoWrap(a.balance, b.balance);
    SumIsSound(a, b, Added(a, b), e);
  }

  lemma SumIsSound(a: Attested, b: Attested, sum: Attested, e: Epoch)
    requires Sound(a, e) && Sound(b, e) && a.mask !! b.mask && sum.mask == a.mask + b.mask
    requires sum.miller.keys == Plus(a.miller.keys, b.miller.keys) && sum.miller.sigs == Plus(a.miller.sigs, b.miller.sigs)
    requires sum.balance == Weigh(sum.miller.keys, ByVoter(Balances(e.leaves)))
    requires sum.balance <= SlotsBalance(e.committees, sum.mask)
    ensures Sound(sum, e)
  {
    SeatsAdd(a, b, e);
    VotesAdd(a, b, e);
  }

  lemma VotesAdd(a: Attested, b: Attested, e: Epoch)
    requires Sound(a, e) && Sound(b, e)
    ensures forall p :: p in Plus(a.miller.keys, b.miller.keys) ==> Names(p.1, e.link)
    ensures Plus(a.miller.sigs, b.miller.sigs).Keys <= e.votes
  {
    forall p | p in Plus(a.miller.keys, b.miller.keys) ensures Names(p.1, e.link) {
      PlusSupport(a.miller.keys, b.miller.keys, p);
    }
    forall p | p in Plus(a.miller.sigs, b.miller.sigs) ensures p in e.votes {
      PlusSupport(a.miller.sigs, b.miller.sigs, p);
    }
  }

  lemma BalancesAdd(a: Attested, b: Attested, e: Epoch)
    requires Sound(a, e) && Sound(b, e) && a.mask !! b.mask && Partition(e.committees, e.leaves)
    ensures a.balance + b.balance < U64
    ensures a.balance + b.balance == Weigh(Plus(a.miller.keys, b.miller.keys), ByVoter(Balances(e.leaves)))
    ensures a.balance + b.balance <= SlotsBalance(e.committees, a.mask + b.mask)
  {
    SumDisjoint<nat>(a.mask, b.mask, Balances(e.committees));
    WithinTotal(e.committees, e.leaves, a.mask + b.mask);
    WeighPlus(a.miller.keys, b.miller.keys, ByVoter(Balances(e.leaves)));
  }

  lemma SeatsAdd(a: Attested, b: Attested, e: Epoch)
    requires Sound(a, e) && Sound(b, e) && a.mask !! b.mask
    ensures forall u: nat ::
      Weigh(Plus(a.miller.keys, b.miller.keys), ByVoter(Indicator(u))) <= TimesSeated(e.committees, a.mask + b.mask, u)
  {
    forall u: nat
      ensures Weigh(Plus(a.miller.keys, b.miller.keys), ByVoter(Indicator(u)))
           <= TimesSeated(e.committees, a.mask + b.mask, u)
    {
      SumDisjoint<nat>(a.mask, b.mask, MemberAt(e.committees, u));
      WeighPlus(a.miller.keys, b.miller.keys, ByVoter(Indicator(u)));
    }
  }

  lemma PlusSupport(a: Combo<Vote>, b: Combo<Vote>, p: Vote)
    requires p in Plus(a, b)
    ensures p in a || p in b
  {
    assert Coef(Plus(a, b), p) == Coef(a, p) + Coef(b, p);
  }

  // ---- who signed ---------------------------------------------------------------------------

  function Voters(votes: set<Vote>): (r: set<nat>)
    ensures forall p :: p in votes ==> p.0 in r
  {
    set p | p in votes :: p.0
  }

  /** The terms of one voter. */
  ghost function OfVoter(h: Vote -> int, u: nat): Vote -> int
  {
    (p: Vote) => if p.0 == u then h(p) else 0
  }

  /** Each vote's term at the weight of its voter. */
  ghost function Scaled(h: Vote -> int, g: nat -> int): Vote -> int
  {
    (p: Vote) => h(p) * g(p.0)
  }

  /** Each voter's weight times the sum of its terms. */
  ghost function Collected(votes: set<Vote>, h: Vote -> int, g: nat -> int): nat -> int
  {
    (u: nat) => SumOver(votes, OfVoter(h, u)) * g(u)
  }

  ghost function Spike(x: nat, amount: int): nat -> int
  {
    (u: nat) => if u == x then amount else 0
  }

  lemma CollectedTakes(votes: set<Vote>, h: Vote -> int, g: nat -> int, p: Vote, u: nat)
    requires p in votes
    ensures Collected(votes, h, g)(u) == Spike(p.0, h(p) * g(p.0))(u) + Collected(votes - {p}, h, g)(u)
  {
    SumTakes(votes, OfVoter(h, u), p);
    Distributes(OfVoter(h, u)(p), SumOver(votes - {p}, OfVoter(h, u)), g(u));
  }

  lemma Distributes(a: int, b: int, c: int)
    ensures (a + b) * c == a * c + b * c
  {
  }

  /** Summing by vote is summing by voter. */
  lemma {:induction false} SumByVoter(votes: set<Vote>, h: Vote -> int, g: nat -> int, all: set<nat>)
    requires forall p :: p in votes ==> p.0 in all
    ensures SumOver(votes, Scaled(h, g)) == SumOver(all, Collected(votes, h, g))
    decreases votes
  {
    if votes == {} {
      SumExtends<nat>({}, all, Collected(votes, h, g));
    } else {
      var p :| p in votes;
      SumByVoter(votes - {p}, h, g, all);
      SumTakes(votes, Scaled(h, g), p);
      var spike := Spike(p.0, h(p) * g(p.0));
      SumSpike<nat>(all, spike, p.0);
      forall u: nat | u in all
        ensures Collected(votes, h, g)(u) == spike(u) + Collected(votes - {p}, h, g)(u)
      {
        CollectedTakes(votes, h, g, p, u);
      }
      SumAdds<nat>(all, spike, Collected(votes - {p}, h, g), Collected(votes, h, g));
    }
  }

  ghost function CoefIn(keys: Combo<Vote>): Vote -> int
  {
    (p: Vote) => Coef(keys, p)
  }

  lemma NetIsVoterSum(keys: Combo<Vote>, u: nat)
    ensures Weigh(keys, ByVoter(Indicator(u))) == SumOver(keys.Keys, OfVoter(CoefIn(keys), u))
  {
    SumSame(keys.Keys, Term(keys, ByVoter(Indicator(u))), OfVoter(CoefIn(keys), u));
  }

  /** The weight of a combination of votes, collected by voter. */
  lemma WeighByVoter(keys: Combo<Vote>, g: nat -> int)
    ensures Weigh(keys, ByVoter(g)) == SumOver(Voters(keys.Keys), Collected(keys.Keys, CoefIn(keys), g))
  {
    SumSame(keys.Keys, Term(keys, ByVoter(g)), Scaled(CoefIn(keys), g));
    SumByVoter(keys.Keys, CoefIn(keys), g, Voters(keys.Keys));
  }

  /** Once the pairing is settled, the count is within the balance of distinct validators who
      each voted for the link. */
  lemma SettledCount(t: Attested, e: Epoch) returns (signers: set<nat>)
    requires Sound(t, e) && Partition(e.committees, e.leaves) && FinalExpIsOne(t.miller)
    ensures forall u :: u in signers ==> Voted(u, e)
    ensures t.balance <= SumOver(signers, Balances(e.leaves))
  {
    var keys, bal := t.miller.keys, Balances(e.leaves);
    signers := Voters(keys.Keys);
    forall u | u in signers ensures Voted(u, e) {
      var p :| p in keys.Keys && p.0 == u;
      assert (u, p.1) == p && p in t.miller.sigs;
    }
    WeighByVoter(keys, bal);
    forall u: nat | u in signers ensures Collected(keys.Keys, CoefIn(keys), bal)(u) <= bal(u) {
      CountsOnce(t, e, u);
    }
    SumBounded<nat>(signers, Collected(keys.Keys, CoefIn(keys), bal), bal);
  }

  /** A validator signed a message of this link. */
  ghost predicate Voted(u: nat, e: Epoch)
  {
    exists m: Bytes32 :: (u, m) in e.votes && Names(m, e.link)
  }

  lemma CountsOnce(t: Attested, e: Epoch, u: nat)
    requires Sound(t, e) && Partition(e.committees, e.leaves)
    ensures
      var bal := Balances(e.leaves);
      Collected(t.miller.keys.Keys, CoefIn(t.miller.keys), bal)(u) <= bal(u)
  {
    NetIsVoterSum(t.miller.keys, u);
    SeatedOnce(e.committees, e.leaves, t.mask, u);
    NotMore(SumOver(t.miller.keys.Keys, OfVoter(CoefIn(t.miller.keys), u)), Balances(e.leaves)(u));
  }

  lemma NotMore(n: int, b: int)
    requires b >= 0 && n <= 1
    ensures n * b <= b
  {
  }
}
