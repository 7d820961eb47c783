/** From a position in the shuffled order to the slot that attests there, computed two
    independent ways: by formula, and by cutting the shuffled list into committees. */
module Slots {
  import opened DivMod
  import opened SwapOrNot
  import opened ListShuffle

  const SLOTS_PER_EPOCH: nat := 32
  const TARGET_COMMITTEE_SIZE: nat := 128
  const MAX_COMMITTEES_PER_SLOT: nat := 64
  const NO_SLOT: nat := U32 - 1

  /** `slot_of_position` */
  function SlotOfPosition(p: nat, n: nat, slots: nat): (s: nat)
    requires n > 0 && slots > 0
  {
    MulMonotone(slots, 1, p + 1);
    var s := (slots * (p + 1) - 1) / n;
    if s >= slots then slots - 1 else s
  }

  /** The first position of slot `s`: `floor(s * n / slots)`. */
  function Boundary(s: nat, n: nat, slots: nat): nat
    requires slots > 0
  {
    MulMonotone(n, 0, s);
    n * s / slots
  }

  lemma BoundaryEnds(n: nat, slots: nat)
    requires slots > 0
    ensures Boundary(0, n, slots) == 0 && Boundary(slots, n, slots) == n
  {
    DivModUnique(n * slots, slots, n, 0);
  }

  lemma BoundaryMonotone(a: nat, b: nat, n: nat, slots: nat)
    requires slots > 0 && a <= b
    ensures Boundary(a, n, slots) <= Boundary(b, n, slots)
  {
    MulMonotone(n, a, b);
    DivMonotone(n * a, n * b, slots);
  }

  /** The cap in `slot_of_position` never applies to a real position. */
  lemma SlotQuotient(p: nat, n: nat, slots: nat, s: nat)
    requires p < n && slots > 0 && s == SlotOfPosition(p, n, slots)
    ensures s < slots && n * s < slots * (p + 1) <= n * (s + 1)
  {
    MulMonotone(slots, 1, p + 1);
    MulMonotone(slots, p + 1, n);
    QuotientBounds(slots * (p + 1) - 1, n, slots);
  }

  lemma QuotientBounds(a: nat, n: nat, slots: nat)
    requires n > 0 && slots > 0 && a < n * slots
    ensures a / n < slots && n * (a / n) <= a < n * (a / n + 1)
  {
    DivAtMost(a, n, slots - 1);
    DivAtMost(a, n, a / n);
    assert a == n * (a / n) + a % n;
  }

  /** A position's slot is the one whose boundaries enclose it. */
  lemma SlotEncloses(p: nat, n: nat, slots: nat)
    requires p < n && slots > 0
    ensures
      var s := SlotOfPosition(p, n, slots);
      s < slots && Boundary(s, n, slots) <= p < Boundary(s + 1, n, slots)
  {
    var s := SlotOfPosition(p, n, slots);
    SlotQuotient(p, n, slots, s);
    DivAtMost(n * s, slots, p);
    DivAtMost(n * (s + 1), slots, p);
  }

  lemma SlotIsUnique(p: nat, n: nat, slots: nat, s: nat)
    requires p < n && slots > 0 && s < slots
    requires Boundary(s, n, slots) <= p < Boundary(s + 1, n, slots)
    ensures SlotOfPosition(p, n, slots) == s
  {
    SlotEncloses(p, n, slots);
    var t := SlotOfPosition(p, n, slots);
    if t < s {
      BoundaryMonotone(t + 1, s, n, slots);
    } else if s < t {
      BoundaryMonotone(s + 1, t, n, slots);
    }
  }

  /** Every slot gets `n / slots` positions or one more, so any two differ by at most one. */
  lemma SlotSizes(s: nat, n: nat, slots: nat)
    requires slots > 0
    ensures n / slots <= Boundary(s + 1, n, slots) - Boundary(s, n, slots) <= n / slots + 1
  {
    var q, r := n * s / slots, n * s % slots;
    var q', r' := n / slots, n % slots;
    assert n * (s + 1) == slots * (q + q') + (r + r');
    if r + r' < slots {
      DivModUnique(n * (s + 1), slots, q + q', r + r');
    } else {
      DivModUnique(n * (s + 1), slots, q + q' + 1, r + r' - slots);
    }
  }

  // ---- the committee cut -------------------------------------------------------------

  function CommitteesPerSlot(len: nat): (c: nat)
    ensures 1 <= c <= MAX_COMMITTEES_PER_SLOT
  {
    var c := len / SLOTS_PER_EPOCH / TARGET_COMMITTEE_SIZE;
    if c < 1 then 1 else if c > MAX_COMMITTEES_PER_SLOT then MAX_COMMITTEES_PER_SLOT else c
  }

  /** One committee a slot for every 4096 validators, but at least one and at most 64. */
  lemma CommitteeCount(len: nat)
    ensures
      var c := CommitteesPerSlot(len);
      && 1 <= c <= 64
      && (c > 1 ==> c * 4096 <= len) && (c < 64 ==> len < (c + 1) * 4096)
  {
    assert len / 32 / 128 == len / 4096;
  }

  /** Where committee `c` of `count` starts in the shuffled list. */
  function CommitteeStart(c: nat, count: nat, len: nat): nat
    requires count > 0
  {
    Boundary(c, len, count)
  }

  /** However many committees a slot has, committee `c` lies inside slot `c / per`. */
  lemma CommitteeInsideSlot(c: nat, per: nat, len: nat, slots: nat, s: nat)
    requires per > 0 && slots > 0 && s == c / per
    ensures slots * per > 0
    ensures Boundary(s, len, slots) <= CommitteeStart(c, slots * per, len)
    ensures CommitteeStart(c + 1, slots * per, len) <= Boundary(s + 1, len, slots)
  {
    SlotStart(s, per, len, slots);
    SlotStart(s + 1, per, len, slots);
    SlotOfCommittee(c, per, s);
    BoundaryMonotone(s * per, c, len, slots * per);
    BoundaryMonotone(c + 1, (s + 1) * per, len, slots * per);
  }

  lemma SlotOfCommittee(c: nat, per: nat, s: nat)
    requires per > 0 && s == c / per
    ensures s * per <= c < (s + 1) * per
  {
    assert c == per * s + c % per;
  }

  lemma SlotStart(s: nat, per: nat, len: nat, slots: nat)
    requires per > 0 && slots > 0
    ensures 0 <= s * per && slots * per > 0
    ensures CommitteeStart(s * per, slots * per, len) == Boundary(s, len, slots)
  {
    MulMonotone(per, 0, s);
    MulPositive(slots, per);
    assert len * (s * per) == (len * s) * per;
    DivCancels(len * s, slots, per);
  }

  lemma CommitteeSlot(p: nat, c: nat, per: nat, len: nat, slots: nat)
    requires per > 0 && slots > 0 && c < slots * per && p < len
    requires CommitteeStart(c, slots * per, len) <= p < CommitteeStart(c + 1, slots * per, len)
    ensures SlotOfPosition(p, len, slots) == c / per
  {
    hide SlotOfPosition, CommitteeStart;
    CommitteeInsideSlot(c, per, len, slots, c / per);
    DivAtMost(c, per, slots - 1);
    SlotIsUnique(p, len, slots, c / per);
  }

  // ---- the assignment table ----------------------------------------------------------------

  /** The global slot of shuffled position `p`, as the `u32` the table stores. */
  function TableSlot(p: nat, len: nat, epoch: nat): nat
    requires p < len
  {
    (epoch * SLOTS_PER_EPOCH + SlotOfPosition(p, len, SLOTS_PER_EPOCH)) % U32
  }

  ghost predicate Distinct(active: seq<nat>)
  {
    forall i, j :: 0 <= i < j < |active| ==> active[i] != active[j]
  }

  ghost predicate Below(active: seq<nat>, n: nat)
  {
    forall i :: 0 <= i < |active| ==> active[i] < n
  }

  /** The table after the validators at shuffled positions below `done` have their slots. */
  ghost predicate TableUpTo(table: seq<nat>, shuffled: seq<nat>, done: nat, epoch: nat)
    requires done <= |shuffled|
  {
    && (forall p: nat :: p < done ==> shuffled[p] < |table| && table[shuffled[p]] == TableSlot(p, |shuffled|, epoch))
    && (forall v: nat :: v < |table| && v !in shuffled[..done] ==> table[v] == NO_SLOT)
  }

  /** What the finished table says: every active validator has the slot of its committee
      position, and no one else has one. */
  ghost predicate Assigns(table: seq<nat>, active: seq<nat>, h: Seed, rounds: nat, epoch: nat)
  {
    && (forall i: nat :: i < |active| ==>
         && active[i] < |table|
         && table[active[i]] == TableSlot(CommitteePosition(h, |active|, rounds, i), |active|, epoch))
    && (forall v: nat :: v < |table| && v !in active ==> table[v] == NO_SLOT)
  }

  /** `assignment_table`: shuffle the active set backwards, cut it into committees, and
      give every member of committee `c` the slot `c / committees_per_slot`. */
  method AssignmentTable(active: seq<nat>, h: Seed, rounds: nat, epoch: nat, n: nat) returns (table: array<nat>)
    requires rounds > 0 && Distinct(active) && Below(active, n)
    ensures table.Length == n && Assigns(table[..], active, h, rounds, epoch)
  {
    var len := |active|;
    var per := CommitteesPerSlot(len);
    var list := new nat[len](i requires 0 <= i < len => active[i]);
    assert list[..] == active;
    ShuffleList(list, rounds, h, false);
    ShuffledMembers(h, rounds, active, n);
    table := FillTable(list, per, epoch, n);
    ReadByOffset(h, rounds, active, table[..], epoch);
  }

  method FillTable(list: array<nat>, per: nat, epoch: nat, n: nat) returns (table: array<nat>)
    requires per > 0 && Distinct(list[..]) && Below(list[..], n)
    ensures fresh(table) && table.Length == n && TableUpTo(table[..], list[..], list.Length, epoch)
  {
    var count := per * SLOTS_PER_EPOCH;
    table := new nat[n](_ => NO_SLOT);
    BoundaryEnds(list.Length, count);
    for c := 0 to count
      invariant CommitteeStart(c, count, list.Length) <= list.Length
      invariant TableUpTo(table[..], list[..], CommitteeStart(c, count, list.Length), epoch)
    {
      BoundaryMonotone(c, c + 1, list.Length, count);
      BoundaryMonotone(c + 1, count, list.Length, count);
      FillCommittee(table, list, c, per, epoch);
    }
  }

  method FillCommittee(table: array<nat>, list: array<nat>, c: nat, per: nat, epoch: nat)
    requires table != list && per > 0 && c < per * SLOTS_PER_EPOCH
    requires Distinct(list[..]) && Below(list[..], table.Length)
    requires CommitteeStart(c, per * SLOTS_PER_EPOCH, list.Length)
          <= CommitteeStart(c + 1, per * SLOTS_PER_EPOCH, list.Length) <= list.Length
    requires TableUpTo(table[..], list[..], CommitteeStart(c, per * SLOTS_PER_EPOCH, list.Length), epoch)
    modifies table
    ensures TableUpTo(table[..], list[..], CommitteeStart(c + 1, per * SLOTS_PER_EPOCH, list.Length), epoch)
  {
    var count := per * SLOTS_PER_EPOCH;
    var start, end := CommitteeStart(c, count, list.Length), CommitteeStart(c + 1, count, list.Length);
    var slot := (epoch * SLOTS_PER_EPOCH + c / per) % U32;
    for p := start to end
      invariant TableUpTo(table[..], list[..], p, epoch)
    {
      CommitteeSlot(p, c, per, list.Length, SLOTS_PER_EPOCH);
      ghost var before := table[..];
      table[list[p]] := slot;
      OneMore(before, table[..], list[..], p, epoch);
    }
  }

  lemma OneMore(before: seq<nat>, after: seq<nat>, shuffled: seq<nat>, p: nat, epoch: nat)
    requires p < |shuffled| && Distinct(shuffled) && shuffled[p] < |before|
    requires TableUpTo(before, shuffled, p, epoch)
    requires after == before[shuffled[p] := TableSlot(p, |shuffled|, epoch)]
    ensures TableUpTo(after, shuffled, p + 1, epoch)
  {
    assert shuffled[..p + 1] == shuffled[..p] + [shuffled[p]];
  }

  /** Shuffling keeps the members and keeps them distinct. */
  lemma ShuffledMembers(h: Seed, rounds: nat, active: seq<nat>, n: nat)
    requires Distinct(active) && Below(active, n)
    ensures Distinct(ShuffledBackwards(h, rounds, active)) && Below(ShuffledBackwards(h, rounds, active), n)
  {
    var s := ShuffledBackwards(h, rounds, active);
    forall i, j | 0 <= i < j < |s| ensures s[i] != s[j] {
      BackwardsReadsShuffle(h, rounds, active, i);
      BackwardsReadsShuffle(h, rounds, active, j);
      ShuffleIsInjective(h, |active|, rounds, i, j);
    }
    forall i | 0 <= i < |s| ensures s[i] < n {
      BackwardsReadsShuffle(h, rounds, active, i);
    }
  }

  /** Position by position is offset by offset, through the committee position. */
  lemma ReadByOffset(h: Seed, rounds: nat, active: seq<nat>, table: seq<nat>, epoch: nat)
    requires var s := ShuffledBackwards(h, rounds, active); TableUpTo(table, s, |s|, epoch)
    ensures Assigns(table, active, h, rounds, epoch)
  {
    var s := ShuffledBackwards(h, rounds, active);
    forall i: nat | i < |active|
      ensures active[i] < |table|
      ensures table[active[i]] == TableSlot(CommitteePosition(h, |active|, rounds, i), |active|, epoch)
    {
      var p := CommitteePosition(h, |active|, rounds, i);
      PositionInvertsShuffle(h, |active|, rounds, i);
      BackwardsReadsShuffle(h, rounds, active, p);
      assert s[p] == active[i];
    }
    forall v: nat | v < |table| && v !in active ensures table[v] == NO_SLOT {
      forall p: nat | p < |s| ensures s[p] != v {
        BackwardsReadsShuffle(h, rounds, active, p);
      }
    }
  }

  /** While slots fit a `u32` below the marker, the table holds the global slot itself and
      a validator has one exactly when it is active. */
  lemma TableIsExact(table: seq<nat>, active: seq<nat>, h: Seed, rounds: nat, epoch: nat, i: nat)
    requires Assigns(table, active, h, rounds, epoch) && i < |active|
    requires (epoch + 1) * 32 <= 0xFFFF_FFFF
    ensures active[i] < |table|
    ensures table[active[i]] == epoch * 32 + SlotOfPosition(CommitteePosition(h, |active|, rounds, i), |active|, 32)
    ensures table[active[i]] != 0xFFFF_FFFF
    ensures forall v: nat :: v < |table| && v !in active ==> table[v] == 0xFFFF_FFFF
  {
    TableSlotExact(CommitteePosition(h, |active|, rounds, i), |active|, epoch);
  }

  lemma TableSlotExact(p: nat, len: nat, epoch: nat)
    requires p < len && (epoch + 1) * SLOTS_PER_EPOCH <= NO_SLOT
    ensures TableSlot(p, len, epoch) == epoch * SLOTS_PER_EPOCH + SlotOfPosition(p, len, SLOTS_PER_EPOCH) < NO_SLOT
  {
    SlotEncloses(p, len, SLOTS_PER_EPOCH);
    var x := epoch * SLOTS_PER_EPOCH + SlotOfPosition(p, len, SLOTS_PER_EPOCH);
    DivModUnique(x, U32, 0, x);
  }

  // ---- how many validators a slot gets ------------------------------------------------------

  /** Every offset's committee position, and every position's offset. */
  ghost function Positions(h: Seed, n: nat, rounds: nat): seq<nat>
  {
    seq(n, (i: nat) requires i < n => CommitteePosition(h, n, rounds, i))
  }

  ghost function Offsets(h: Seed, n: nat, rounds: nat): seq<nat>
  {
    seq(n, (p: nat) requires p < n => ShuffledIndex(h, n, rounds, p))
  }

  ghost predicate Inverses(ps: seq<nat>, os: seq<nat>)
  {
    && |ps| == |os|
    && (forall i: nat :: i < |ps| ==> ps[i] < |ps| && os[ps[i]] == i)
    && (forall p: nat :: p < |ps| ==> os[p] < |ps| && ps[os[p]] == p)
  }

  lemma PositionsInvertOffsets(h: Seed, n: nat, rounds: nat)
    ensures Inverses(Positions(h, n, rounds), Offsets(h, n, rounds))
  {
    forall i: nat | i < n
      ensures CommitteePosition(h, n, rounds, ShuffledIndex(h, n, rounds, i)) == i
      ensures ShuffledIndex(h, n, rounds, CommitteePosition(h, n, rounds, i)) == i
    {
      PositionInvertsShuffle(h, n, rounds, i);
    }
  }

  /** The offsets whose position falls in `[lo, hi)`. */
  ghost function OffsetsBetween(ps: seq<nat>, lo: nat, hi: nat): set<nat>
  {
    set i: nat | i < |ps| && lo <= ps[i] < hi
  }

  lemma {:induction false} OffsetsSize(ps: seq<nat>, os: seq<nat>, lo: nat, hi: nat)
    requires Inverses(ps, os) && lo <= hi <= |ps|
    ensures |OffsetsBetween(ps, lo, hi)| == hi - lo
    decreases hi - lo
  {
    if lo == hi {
      assert OffsetsBetween(ps, lo, hi) == {};
    } else {
      OffsetsSize(ps, os, lo, hi - 1);
      assert OffsetsBetween(ps, lo, hi) == OffsetsBetween(ps, lo, hi - 1) + {os[hi - 1]};
    }
  }

  lemma SlotIff(p: nat, n: nat, slots: nat, s: nat)
    requires p < n && s < slots
    ensures SlotOfPosition(p, n, slots) == s <==> Boundary(s, n, slots) <= p < Boundary(s + 1, n, slots)
  {
    SlotEncloses(p, n, slots);
    if Boundary(s, n, slots) <= p < Boundary(s + 1, n, slots) {
      SlotIsUnique(p, n, slots, s);
    }
  }

  /** The offsets of the active set that attest in slot `s`. */
  ghost function Attesters(h: Seed, n: nat, rounds: nat, slots: nat, s: nat): set<nat>
    requires slots > 0
  {
    set i: nat | i < n && SlotOfPosition(CommitteePosition(h, n, rounds, i), n, slots) == s
  }

  /** `n / slots` validators, or one more, attest in each slot. */
  lemma SlotPopulation(h: Seed, n: nat, rounds: nat, slots: nat, s: nat)
    requires s < slots
    ensures n / slots <= |Attesters(h, n, rounds, slots, s)| <= n / slots + 1
  {
    var lo, hi := Boundary(s, n, slots), Boundary(s + 1, n, slots);
    BoundaryEnds(n, slots);
    BoundaryMonotone(s, s + 1, n, slots);
    BoundaryMonotone(s + 1, slots, n, slots);
    AttestersBetween(h, n, rounds, slots, s);
    PositionsInvertOffsets(h, n, rounds);
    OffsetsSize(Positions(h, n, rounds), Offsets(h, n, rounds), lo, hi);
    SlotSizes(s, n, slots);
  }

  lemma AttestersBetween(h: Seed, n: nat, rounds: nat, slots: nat, s: nat)
    requires s < slots
    ensures Attesters(h, n, rounds, slots, s) ==
            OffsetsBetween(Positions(h, n, rounds), Boundary(s, n, slots), Boundary(s + 1, n, slots))
  {
    forall i: nat | i < n
      ensures i in Attesters(h, n, rounds, slots, s) <==>
              i in OffsetsBetween(Positions(h, n, rounds), Boundary(s, n, slots), Boundary(s + 1, n, slots))
    {
      SlotIff(CommitteePosition(h, n, rounds, i), n, slots, s);
    }
  }
}
