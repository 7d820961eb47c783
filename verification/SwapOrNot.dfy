/** The swap-or-not permutation: `compute_shuffled_index` of phase0/beacon-chain.md
    (Ethereum consensus specifications), its inverse, and the pairing of positions
    that lets a whole list be permuted in place. */
module SwapOrNot {
  import opened DivMod
  import opened Words

  const U32: nat := 0x1_0000_0000
  const USIZE: nat := 0x1_0000_0000_0000_0000

  /** What the shuffle reads of SHA-256 under one seed: per round the integer the pivot
      is reduced from, and per round and block of 256 positions the source bytes. */
  datatype Seed = Seed(pivotWord: nat -> nat, block: (nat, nat) -> Bytes32)

  function Pivot(h: Seed, n: nat, r: nat): (p: nat)
    requires n > 0
    ensures p < n
  {
    h.pivotWord(r) % n
  }

  /** The source byte of a position; the block number is hashed as a `u32`. */
  function SourceByte(h: Seed, r: nat, position: nat): Byte
  {
    h.block(r, (position / 256) % U32)[(position % 256) / 8]
  }

  predicate SwapBit(h: Seed, r: nat, position: nat)
  {
    SourceByte(h, r, position)[position % 8]
  }

  /** `(pivot + n - index) mod n` without the division. */
  function Flip(pivot: nat, index: nat, n: nat): (f: nat)
    requires pivot < n && index < n
    ensures f < n
  {
    var f := pivot + n - index;
    if f >= n then f - n else f
  }

  lemma FlipIsRemainder(pivot: nat, index: nat, n: nat)
    requires pivot < n && index < n
    ensures Flip(pivot, index, n) == (pivot + n - index) % n
  {
    var f := pivot + n - index;
    if f >= n {
      DivModUnique(f, n, 1, f - n);
    } else {
      DivModUnique(f, n, 0, f);
    }
  }

  /** One round, for one index. */
  function Round(h: Seed, n: nat, r: nat, i: nat): (q: nat)
    requires i < n
    ensures q < n
  {
    var flip := Flip(Pivot(h, n, r), i, n);
    var position := if i > flip then i else flip;
    if SwapBit(h, r, position) then flip else i
  }

  /** `compute_shuffled_index`: the rounds in ascending order. */
  function ShuffledIndex(h: Seed, n: nat, rounds: nat, i: nat): (q: nat)
    requires i < n
    ensures q < n
  {
    if rounds == 0 then i else Round(h, n, rounds - 1, ShuffledIndex(h, n, rounds - 1, i))
  }

  /** The rounds in descending order: from a validator's offset to its position. */
  function CommitteePosition(h: Seed, n: nat, rounds: nat, v: nat): (q: nat)
    requires v < n
    ensures q < n
  {
    if rounds == 0 then v else CommitteePosition(h, n, rounds - 1, Round(h, n, rounds - 1, v))
  }

  // ---- the specification's own words ----------------------------------------------------------------

  /** A round as it is specified: the pivot is the round's word modulo the size, the flip is the
      mirror image in it, and the bit that decides is bit `position % 8` of byte `position % 256 / 8`
      of the hash of block `position / 256`, at the larger of the two. */
  function SpecifiedRound(h: Seed, n: nat, r: nat, i: nat): nat
    requires i < n
  {
    var pivot := h.pivotWord(r) % n;
    var flip := (pivot + n - i) % n;
    var position := if i < flip then flip else i;
    var source := h.block(r, (position / 256) % 0x1_0000_0000);
    if source[position % 256 / 8][position % 8] then flip else i
  }

  lemma RoundIsSpecified(h: Seed, n: nat, r: nat, i: nat)
    requires i < n
    ensures Round(h, n, r, i) == SpecifiedRound(h, n, r, i)
  {
    FlipIsRemainder(Pivot(h, n, r), i, n);
  }

  /** An index taken through the specified rounds, the first round first. */
  ghost predicate Trajectory(h: Seed, n: nat, path: seq<nat>)
  {
    && path != [] && (forall r :: 0 <= r < |path| ==> path[r] < n)
    && forall r :: 0 <= r < |path| - 1 ==> path[r + 1] == SpecifiedRound(h, n, r, path[r])
  }

  /** Every specified trajectory ends at the shuffled index, and, read backwards, at the position. */
  lemma {:induction false} ShuffleIsSpecified(h: Seed, n: nat, path: seq<nat>)
    requires Trajectory(h, n, path)
    ensures path[|path| - 1] == ShuffledIndex(h, n, |path| - 1, path[0])
    ensures path[0] == CommitteePosition(h, n, |path| - 1, path[|path| - 1])
    decreases |path|
  {
    hide SpecifiedRound, Round;
    var last := |path| - 1;
    if last > 0 {
      ShuffleIsSpecified(h, n, path[..last]);
      RoundIsSpecified(h, n, last - 1, path[last - 1]);
    }
    PositionInvertsShuffle(h, n, last, path[0]);
  }

  // ---- each round undoes itself, so the two directions undo each other ------

  lemma FlipFlips(pivot: nat, i: nat, n: nat)
    requires pivot < n && i < n
    ensures Flip(pivot, Flip(pivot, i, n), n) == i
  {
  }

  lemma RoundInvolution(h: Seed, n: nat, r: nat, i: nat)
    requires i < n
    ensures Round(h, n, r, Round(h, n, r, i)) == i
  {
    FlipFlips(Pivot(h, n, r), i, n);
  }

  lemma PositionInvertsShuffle(h: Seed, n: nat, rounds: nat, i: nat)
    requires i < n
    ensures CommitteePosition(h, n, rounds, ShuffledIndex(h, n, rounds, i)) == i
    ensures ShuffledIndex(h, n, rounds, CommitteePosition(h, n, rounds, i)) == i
  {
    PositionAfterShuffle(h, n, rounds, i);
    ShuffleAfterPosition(h, n, rounds, i);
  }

  lemma {:induction false} PositionAfterShuffle(h: Seed, n: nat, rounds: nat, i: nat)
    requires i < n
    ensures CommitteePosition(h, n, rounds, ShuffledIndex(h, n, rounds, i)) == i
  {
    hide Round;
    if rounds > 0 {
      RoundInvolution(h, n, rounds - 1, ShuffledIndex(h, n, rounds - 1, i));
      PositionAfterShuffle(h, n, rounds - 1, i);
    }
  }

  lemma {:induction false} ShuffleAfterPosition(h: Seed, n: nat, rounds: nat, v: nat)
    requires v < n
    ensures ShuffledIndex(h, n, rounds, CommitteePosition(h, n, rounds, v)) == v
  {
    hide Round;
    if rounds > 0 {
      var q := Round(h, n, rounds - 1, v);
      RoundInvolution(h, n, rounds - 1, v);
      ShuffleAfterPosition(h, n, rounds - 1, q);
    }
  }

  // ---- the transcriptions ----------------------------------------------------

  /** One turn of the specification's loop, division and all. */
  method SpecRound(h: Seed, index: nat, n: nat, r: nat) returns (next: nat)
    requires index < n
    ensures next < n && next == Round(h, n, r, index)
  {
    var flip := (Pivot(h, n, r) + n - index) % n;
    FlipIsRemainder(Pivot(h, n, r), index, n);
    var position := if index > flip then index else flip;
    var source := h.block(r, (position / 256) % U32);
    next := if source[(position % 256) / 8][position % 8] then flip else index;
  }

  /** `spec_shuffled_index`, and `shuffled_index`/`committee_position`: the same loop
      with the rounds in either order. */
  method SpecShuffledIndex(h: Seed, start: nat, n: nat, rounds: nat, forwards: bool) returns (index: nat)
    requires start < n
    ensures index < n
    ensures forwards ==> index == ShuffledIndex(h, n, rounds, start)
    ensures !forwards ==> index == CommitteePosition(h, n, rounds, start)
  {
    index := start;
    for step := 0 to rounds
      invariant index < n
      invariant forwards ==> index == ShuffledIndex(h, n, step, start)
      invariant !forwards ==>
        CommitteePosition(h, n, rounds - step, index) == CommitteePosition(h, n, rounds, start)
    {
      index := SpecRound(h, index, n, if forwards then step else rounds - 1 - step);
    }
  }

  /** `traj_hashed`: the descending trajectory with hoisted pivots. */
  method TrajHashed(h: Seed, start: nat, n: nat, rounds: nat, pivots: seq<nat>) returns (index: nat)
    requires start < n && |pivots| == rounds
    requires forall r :: 0 <= r < rounds ==> pivots[r] == Pivot(h, n, r)
    ensures index < n && ShuffledIndex(h, n, rounds, index) == start
    ensures index == CommitteePosition(h, n, rounds, start)
  {
    index := start;
    for step := 0 to rounds
      invariant index < n
      invariant CommitteePosition(h, n, rounds - step, index) == CommitteePosition(h, n, rounds, start)
    {
      ghost var was := index;
      var r := rounds - 1 - step;
      var flip := Flip(pivots[r], index, n);
      var position := if index > flip then index else flip;
      if SwapBit(h, r, position) {
        index := flip;
      }
      assert index == Round(h, n, r, was);
    }
    PositionInvertsShuffle(h, n, rounds, start);
  }

  // ---- the two mirror runs of a round ----------------------------------------

  /** Pairs `(i0 + k, j0 - k)` for `k` below `count`. */
  datatype Run = Run(i0: nat, j0: nat, count: nat)

  /** The two ends of a run never meet. */
  ghost predicate Fits(run: Run, n: nat)
  {
    run.i0 + 2 * run.count <= run.j0 + 1 && run.j0 < n
  }

  function LowerRun(pivot: nat): Run
  {
    Run(0, pivot, (pivot + 1) / 2)
  }

  function UpperRun(pivot: nat, n: nat): Run
    requires pivot < n
  {
    Run(pivot + 1, n - 1, (pivot + n + 1) / 2 - (pivot + 1))
  }

  /** Where the content of position `p` came from, once the first `k` pairs of a run
      have each been exchanged or left alone by the source bit of their `j` side. */
  function Origin(h: Seed, r: nat, run: Run, k: nat, p: nat): (q: nat)
    requires k <= run.count && run.i0 + 2 * run.count <= run.j0 + 1
    ensures p <= run.j0 ==> q <= run.j0
    ensures run.j0 < p ==> q == p
    ensures p < run.i0 ==> q == p
    ensures run.i0 <= p ==> run.i0 <= q
  {
    if run.i0 <= p < run.i0 + k && SwapBit(h, r, run.j0 - (p - run.i0)) then run.j0 - (p - run.i0)
    else if run.j0 - k < p <= run.j0 && SwapBit(h, r, p) then run.i0 + (run.j0 - p)
    else p
  }

  lemma PlanFits(pivot: nat, n: nat)
    requires pivot < n
    ensures Fits(LowerRun(pivot), n) && Fits(UpperRun(pivot, n), n)
  {
  }

  /** The two runs of the plan together are exactly the round: every position that is
      not its own flip sits in one pair with its flip, and the pair's `j` side is the
      larger of the two. */
  lemma PlanIsRound(h: Seed, n: nat, r: nat, p: nat)
    requires p < n
    ensures
      var pivot := Pivot(h, n, r);
      var lower, upper := LowerRun(pivot), UpperRun(pivot, n);
      && Fits(lower, n) && Fits(upper, n)
      && Origin(h, r, lower, lower.count, Origin(h, r, upper, upper.count, p)) == Round(h, n, r, p)
  {
    var pivot := Pivot(h, n, r);
    PlanFits(pivot, n);
    if p <= pivot {
      LowerIsRound(h, n, r, p);
    } else {
      UpperIsRound(h, n, r, p);
    }
  }

  lemma LowerIsRound(h: Seed, n: nat, r: nat, p: nat)
    requires p < n && p <= Pivot(h, n, r)
    ensures var lower := LowerRun(Pivot(h, n, r)); Origin(h, r, lower, lower.count, p) == Round(h, n, r, p)
  {
    var pivot := Pivot(h, n, r);
    assert Flip(pivot, p, n) == pivot - p;
  }

  lemma UpperIsRound(h: Seed, n: nat, r: nat, p: nat)
    requires p < n && Pivot(h, n, r) < p
    ensures
      var upper := UpperRun(Pivot(h, n, r), n);
      Origin(h, r, upper, upper.count, p) == Round(h, n, r, p)
  {
    var pivot := Pivot(h, n, r);
    assert Flip(pivot, p, n) == pivot + n - p;
  }

  // ---- whole lists -------------------------------------------------------------

  /** A list after one round. */
  function RoundList<T>(h: Seed, r: nat, s: seq<T>): (t: seq<T>)
    ensures |t| == |s|
  {
    seq(|s|, (p: nat) requires p < |s| => s[Round(h, |s|, r, p)])
  }

  /** A list after the first `k` pairs of a run. */
  function RunList<T>(h: Seed, r: nat, run: Run, k: nat, s: seq<T>): (t: seq<T>)
    requires Fits(run, |s|) && k <= run.count
    ensures |t| == |s|
  {
    seq(|s|, (p: nat) requires p < |s| => s[Origin(h, r, run, k, p)])
  }

  /** The rounds in ascending order. */
  function ShuffledForwards<T>(h: Seed, rounds: nat, s: seq<T>): (t: seq<T>)
    ensures |t| == |s|
  {
    if rounds == 0 then s else RoundList(h, rounds - 1, ShuffledForwards(h, rounds - 1, s))
  }

  /** The rounds in descending order. */
  function ShuffledBackwards<T>(h: Seed, rounds: nat, s: seq<T>): (t: seq<T>)
    ensures |t| == |s|
    decreases rounds
  {
    if rounds == 0 then s else ShuffledBackwards(h, rounds - 1, RoundList(h, rounds - 1, s))
  }

  /** Run forwards, the list holds at `v` what stood at `v`'s committee position. */
  lemma {:induction false} ForwardsReadsPosition<T>(h: Seed, rounds: nat, s: seq<T>, v: nat)
    requires v < |s|
    ensures ShuffledForwards(h, rounds, s)[v] == s[CommitteePosition(h, |s|, rounds, v)]
  {
    hide SwapBit;
    if rounds > 0 {
      var q := Round(h, |s|, rounds - 1, v);
      ForwardsReadsPosition(h, rounds - 1, s, q);
      assert ShuffledForwards(h, rounds, s)[v] == ShuffledForwards(h, rounds - 1, s)[q];
    }
  }

  /** Run backwards, it holds at `p` what `compute_shuffled_index(p)` names. */
  lemma {:induction false} BackwardsReadsShuffle<T>(h: Seed, rounds: nat, s: seq<T>, p: nat)
    requires p < |s|
    ensures ShuffledBackwards(h, rounds, s)[p] == s[ShuffledIndex(h, |s|, rounds, p)]
    decreases rounds
  {
    hide SwapBit;
    if rounds > 0 {
      BackwardsReadsShuffle(h, rounds - 1, RoundList(h, rounds - 1, s), p);
    }
  }

  /** Shuffling forwards undoes shuffling backwards, and the reverse. */
  lemma DirectionsUndoEachOther<T>(h: Seed, rounds: nat, s: seq<T>)
    ensures ShuffledForwards(h, rounds, ShuffledBackwards(h, rounds, s)) == s
    ensures ShuffledBackwards(h, rounds, ShuffledForwards(h, rounds, s)) == s
  {
    var b, f := ShuffledBackwards(h, rounds, s), ShuffledForwards(h, rounds, s);
    forall v: nat | v < |s|
      ensures ShuffledForwards(h, rounds, b)[v] == s[v]
      ensures ShuffledBackwards(h, rounds, f)[v] == s[v]
    {
      PositionInvertsShuffle(h, |s|, rounds, v);
      ForwardsReadsPosition(h, rounds, b, v);
      BackwardsReadsShuffle(h, rounds, s, CommitteePosition(h, |s|, rounds, v));
      BackwardsReadsShuffle(h, rounds, f, v);
      ForwardsReadsPosition(h, rounds, s, ShuffledIndex(h, |s|, rounds, v));
    }
  }

  /** Neither direction loses or repeats an element. */
  lemma ShuffleIsInjective(h: Seed, n: nat, rounds: nat, a: nat, b: nat)
    requires a < n && b < n && a != b
    ensures ShuffledIndex(h, n, rounds, a) != ShuffledIndex(h, n, rounds, b)
    ensures CommitteePosition(h, n, rounds, a) != CommitteePosition(h, n, rounds, b)
  {
    PositionInvertsShuffle(h, n, rounds, a);
    PositionInvertsShuffle(h, n, rounds, b);
  }

  /** Both runs of a round, one after the other, are the round. */
  lemma RunsMakeRound<T>(h: Seed, r: nat, s: seq<T>)
    requires |s| > 0
    ensures
      var pivot := Pivot(h, |s|, r);
      var lower, upper := LowerRun(pivot), UpperRun(pivot, |s|);
      && Fits(lower, |s|) && Fits(upper, |s|)
      && RunList(h, r, upper, upper.count, RunList(h, r, lower, lower.count, s)) == RoundList(h, r, s)
  {
    var pivot := Pivot(h, |s|, r);
    PlanFits(pivot, |s|);
    var lower, upper := LowerRun(pivot), UpperRun(pivot, |s|);
    var t := RunList(h, r, upper, upper.count, RunList(h, r, lower, lower.count, s));
    forall p: nat | p < |s| ensures t[p] == RoundList(h, r, s)[p] {
      PlanIsRound(h, |s|, r, p);
    }
  }

  lemma OriginStep(h: Seed, r: nat, run: Run, k: nat, p: nat)
    requires run.i0 + 2 * run.count <= run.j0 + 1 && k < run.count
    ensures p == run.i0 + k || p == run.j0 - k ==> Origin(h, r, run, k, p) == p
    ensures p == run.i0 + k ==>
      Origin(h, r, run, k + 1, p) == if SwapBit(h, r, run.j0 - k) then run.j0 - k else p
    ensures p == run.j0 - k ==>
      Origin(h, r, run, k + 1, p) == if SwapBit(h, r, run.j0 - k) then run.i0 + k else p
    ensures p != run.i0 + k && p != run.j0 - k ==> Origin(h, r, run, k + 1, p) == Origin(h, r, run, k, p)
  {
  }

  /** Exchanging one more pair, when its source bit says so, is one more pair of the run. */
  lemma RunStep<T>(h: Seed, r: nat, run: Run, k: nat, s: seq<T>)
    requires Fits(run, |s|) && k < run.count
    ensures
      var cur := RunList(h, r, run, k, s);
      RunList(h, r, run, k + 1, s) ==
        if SwapBit(h, r, run.j0 - k)
        then cur[run.i0 + k := cur[run.j0 - k]][run.j0 - k := cur[run.i0 + k]]
        else cur
  {
    var cur, next := RunList(h, r, run, k, s), RunList(h, r, run, k + 1, s);
    var i, j := run.i0 + k, run.j0 - k;
    OriginStep(h, r, run, k, i);
    OriginStep(h, r, run, k, j);
    forall p: nat | p < |s| && p != i && p != j ensures next[p] == cur[p] {
      OriginStep(h, r, run, k, p);
    }
  }
}
