/** Slot labels through every form of the shuffle. All of them give each offset of the
    active set the slot of its committee position. */
module Labels {
  import opened DivMod
  import opened Words
  import opened SwapOrNot
  import opened ListShuffle
  import opened BitSlice
  import opened BitSliceShuffle
  import opened PlaneMajor
  import opened Bitmaps
  import opened Slots

  const SLOTS: nat := 32

  function PlaneWeight(q: nat): nat
    requires q < PLANES
  {
    if q == 0 then 1 else if q == 1 then 2 else if q == 2 then 4 else if q == 3 then 8 else 16
  }

  /** `(slot >> q) & 1` */
  function LabelBit(slot: nat, q: nat): bool
    requires q < PLANES
  {
    (slot / PlaneWeight(q)) % 2 == 1
  }

  function Label(p: nat, n: nat): nat
    requires p < n
  {
    SlotOfPosition(p, n, SLOTS)
  }

  /** The planes hold the labels of the positions below `p` and nothing above. */
  ghost predicate LabelledUpTo(v: seq<seq<bool>>, n: nat, p: nat)
    requires Lists(v, n) && p <= n
  {
    forall q: nat, u: nat :: q < PLANES && u < n ==> v[q][u] == (u < p && LabelBit(Label(u, n), q))
  }

  method OrBit(planes: array<Word>, stride: nat, n: nat, q: nat, p: nat, bit: bool)
    requires planes.Length == PLANES * stride && q < PLANES && p < n <= 64 * stride
    requires !View(planes[..], stride, n)[q][p]
    modifies planes
    ensures View(planes[..], stride, n)[q] == old(View(planes[..], stride, n))[q][p := bit]
    ensures forall o: nat :: o < PLANES && o != q ==>
      View(planes[..], stride, n)[o] == old(View(planes[..], stride, n))[o]
  {
    var w := ReadCell(planes, stride, q, p / 64);
    ghost var row := Rows(planes[..], stride)[q];
    WriteCell(planes, stride, q, p / 64, Or(w, OneBit(bit, p % 64)));
    forall u: nat | u < n
      ensures Bit(Rows(planes[..], stride)[q], u) == if u == p then bit else Bit(row, u)
    {
      assert u / 64 == p / 64 && u % 64 == p % 64 ==> u == p;
      assert OneBit(bit, p % 64)[u % 64] == (u % 64 == p % 64 && bit);
    }
  }

  /** The five bits of position `p`. */
  method LabelPosition(planes: array<Word>, stride: nat, n: nat, p: nat)
    requires planes.Length == PLANES * stride && p < n <= 64 * stride
    requires LabelledUpTo(View(planes[..], stride, n), n, p)
    modifies planes
    ensures LabelledUpTo(View(planes[..], stride, n), n, p + 1)
  {
    var slot := Label(p, n);
    ghost var before := View(planes[..], stride, n);
    for q := 0 to PLANES
      invariant forall o: nat :: o < q ==> View(planes[..], stride, n)[o] == before[o][p := LabelBit(slot, o)]
      invariant forall o: nat :: q <= o < PLANES ==> View(planes[..], stride, n)[o] == before[o]
    {
      OrBit(planes, stride, n, q, p, LabelBit(slot, q));
    }
  }

  /** `bitslice_init` */
  method BitsliceInit(n: nat) returns (planes: array<Word>, stride: nat)
    ensures fresh(planes) && planes.Length == PLANES * stride && n <= 64 * stride
    ensures LabelledUpTo(View(planes[..], stride, n), n, n)
  {
    stride := (n + 63) / 64 + 1;
    planes := new Word[PLANES * stride](_ => ZERO);
    BlankPlanes(planes[..], stride, n);
    for p := 0 to n
      invariant LabelledUpTo(View(planes[..], stride, n), n, p)
    {
      LabelPosition(planes, stride, n, p);
    }
  }

  lemma BlankPlanes(planes: seq<Word>, stride: nat, n: nat)
    requires |planes| == PLANES * stride && n <= 64 * stride
    requires forall i :: 0 <= i < |planes| ==> planes[i] == ZERO
    ensures LabelledUpTo(View(planes, stride, n), n, 0)
  {
    forall q: nat, u: nat | q < PLANES && u < n ensures !View(planes, stride, n)[q][u] {
      PlaneInside(stride, q);
      assert Rows(planes, stride)[q][u / 64] == ZERO;
    }
  }

  /** `bitslice_get`: the five bits of a position, weighted. */
  method BitsliceGet(planes: array<Word>, stride: nat, n: nat, p: nat, ghost slot: nat) returns (out: nat)
    requires planes.Length == PLANES * stride && p < n <= 64 * stride && slot < SLOTS
    requires forall q: nat :: q < PLANES ==> View(planes[..], stride, n)[q][p] == LabelBit(slot, q)
    ensures out == slot
  {
    out := 0;
    for q := 0 to PLANES
      invariant out == LowBits(slot, q)
    {
      var w := ReadCell(planes, stride, q, p / 64);
      assert w[p % 64] == View(planes[..], stride, n)[q][p];
      out := out + if w[p % 64] then PlaneWeight(q) else 0;
    }
    LabelsHaveFiveBits(slot);
  }

  /** The value of a label's lowest `q` bits. */
  function LowBits(slot: nat, q: nat): nat
    requires q <= PLANES
  {
    if q == 0 then 0 else LowBits(slot, q - 1) + if LabelBit(slot, q - 1) then PlaneWeight(q - 1) else 0
  }

  lemma LabelsHaveFiveBits(slot: nat)
    requires slot < SLOTS
    ensures LowBits(slot, PLANES) == slot
  {
    hide LowBits, LabelBit;
    LowBitsAre(slot, PLANES);
  }

  lemma {:induction false} LowBitsAre(slot: nat, q: nat)
    requires 0 < q <= PLANES
    ensures LowBits(slot, q) == slot % (2 * PlaneWeight(q - 1))
  {
    if q > 1 {
      LowBitsAre(slot, q - 1);
      assert PlaneWeight(q - 1) == 2 * PlaneWeight(q - 2);
    }
    NextBit(slot, PlaneWeight(q - 1));
  }

  lemma NextBit(x: nat, w: nat)
    requires w > 0
    ensures x % (2 * w) == x % w + if (x / w) % 2 == 1 then w else 0
  {
    var q, b := x / w / 2, (x / w) % 2;
    assert x == w * (2 * q + b) + x % w;
    assert w * (2 * q + b) == (2 * w) * q + w * b;
    DivModUnique(x, 2 * w, q, w * b + x % w);
  }

  /** Shuffled planes hold at `v` the label bits of `v`'s committee position. */
  lemma ShuffledLabel(h: Seed, n: nat, rounds: nat, s: seq<seq<bool>>, v: nat, q: nat)
    requires Lists(s, n) && LabelledUpTo(s, n, n) && v < n && q < PLANES
    ensures ShuffledLists(h, rounds, s, n)[q][v] == LabelBit(Label(CommitteePosition(h, n, rounds, v), n), q)
  {
    ForwardsReadsPosition(h, rounds, s[q], v);
  }

  ghost predicate LabelsByPosition(labels: seq<nat>, h: Seed, n: nat, rounds: nat)
  {
    |labels| == n && forall v: nat :: v < n ==> labels[v] == SlotOfPosition(CommitteePosition(h, n, rounds, v), n, 32)
  }

  /** Read every slot back out of shuffled planes. */
  method ReadLabels(planes: array<Word>, stride: nat, n: nat, ghost h: Seed, ghost rounds: nat,
                    ghost s: seq<seq<bool>>) returns (labels: seq<nat>)
    requires planes.Length == PLANES * stride && n <= 64 * stride && Lists(s, n) && LabelledUpTo(s, n, n)
    requires View(planes[..], stride, n) == ShuffledLists(h, rounds, s, n)
    ensures LabelsByPosition(labels, h, n, rounds)
  {
    labels := [];
    for v := 0 to n
      invariant |labels| == v
      invariant forall u: nat :: u < v ==> labels[u] == Label(CommitteePosition(h, n, rounds, u), n)
    {
      ghost var position := CommitteePosition(h, n, rounds, v);
      SlotEncloses(position, n, SLOTS);
      forall q: nat | q < PLANES
        ensures View(planes[..], stride, n)[q][v] == LabelBit(Label(position, n), q)
      {
        ShuffledLabel(h, n, rounds, s, v, q);
      }
      var slot := BitsliceGet(planes, stride, n, v, Label(position, n));
      labels := labels + [slot];
    }
  }

  /** The bit-sliced forms, block-major or plane-major, end to end. */
  method BitslicedLabels(n: nat, h: Seed, rounds: nat, planeMajor: bool) returns (labels: seq<nat>)
    requires n <= USIZE
    ensures LabelsByPosition(labels, h, n, rounds)
  {
    var planes, stride := BitsliceInit(n);
    ghost var s := View(planes[..], stride, n);
    if planeMajor {
      BitsliceShufflePlanes(planes, n, stride, h, rounds);
    } else {
      BitsliceShuffle(planes, n, stride, h, rounds);
    }
    labels := ReadLabels(planes, stride, n, h, rounds, s);
  }

  /** The element-wise form over labels. */
  method ListLabels(n: nat, h: Seed, rounds: nat) returns (labels: array<nat>)
    requires n <= USIZE
    ensures LabelsByPosition(labels[..], h, n, rounds)
  {
    labels := new nat[n](p requires 0 <= p < n => Label(p, n));
    ghost var s := labels[..];
    WholeSetShuffle(labels, h, rounds);
    forall v: nat | v < n ensures labels[..][v] == Label(CommitteePosition(h, n, rounds, v), n) {
      ForwardsReadsPosition(h, rounds, s, v);
    }
  }

  /** The sampled form: bitmaps, and a trajectory per offset. */
  method TrajectoryLabels(n: nat, h: Seed, rounds: nat) returns (labels: seq<nat>)
    requires n > 0
    ensures LabelsByPosition(labels, h, n, rounds)
  {
    var maps := Bitmaps.Bitmaps(h, n, rounds);
    var pivots := seq(rounds, (r: nat) requires r < rounds => Pivot(h, n, r));
    labels := ReadTrajectories(n, h, rounds, pivots, maps[..]);
  }

  method ReadTrajectories(n: nat, h: Seed, rounds: nat, pivots: seq<nat>, maps: seq<Byte>) returns (labels: seq<nat>)
    requires n > 0 && |pivots| == rounds && MapsReady(h, n, rounds, maps)
    requires forall r: nat :: r < rounds ==> pivots[r] == Pivot(h, n, r)
    ensures LabelsByPosition(labels, h, n, rounds)
  {
    labels := [];
    for v := 0 to n
      invariant |labels| == v
      invariant forall u: nat :: u < v ==> labels[u] == Label(CommitteePosition(h, n, rounds, u), n)
    {
      var p := TrajBitmap(h, v, n, rounds, pivots, maps);
      labels := labels + [Label(p, n)];
    }
  }

  /** The reference of `selftest`: every position written to the offset the specification
      shuffles it to. */
  method ReferenceLabels(n: nat, h: Seed, rounds: nat) returns (labels: array<nat>)
    ensures LabelsByPosition(labels[..], h, n, rounds)
  {
    labels := new nat[n](_ => 0);
    for p := 0 to n
      invariant forall u: nat :: u < n && CommitteePosition(h, n, rounds, u) < p ==>
        labels[u] == Label(CommitteePosition(h, n, rounds, u), n)
    {
      var v := SpecShuffledIndex(h, p, n, rounds, true);
      OnlyOffset(h, n, rounds, p);
      labels[v] := Label(p, n);
    }
  }

  lemma OnlyOffset(h: Seed, n: nat, rounds: nat, p: nat)
    requires p < n
    ensures forall u: nat :: u < n ==>
      (CommitteePosition(h, n, rounds, u) == p <==> u == ShuffledIndex(h, n, rounds, p))
  {
    forall u: nat | u < n
      ensures CommitteePosition(h, n, rounds, u) == p <==> u == ShuffledIndex(h, n, rounds, p)
    {
      PositionInvertsShuffle(h, n, rounds, p);
      PositionInvertsShuffle(h, n, rounds, u);
    }
  }

  /** Hashed trajectories, one per offset, over pivots worked out once. */
  method HashedLabels(n: nat, h: Seed, rounds: nat) returns (labels: seq<nat>)
    ensures LabelsByPosition(labels, h, n, rounds)
  {
    labels := [];
    if n == 0 {
      return;
    }
    var pivots := seq(rounds, (r: nat) requires r < rounds => Pivot(h, n, r));
    for v := 0 to n
      invariant |labels| == v
      invariant forall u: nat :: u < v ==> labels[u] == Label(CommitteePosition(h, n, rounds, u), n)
    {
      var p := TrajHashed(h, v, n, rounds, pivots);
      labels := labels + [Label(p, n)];
    }
  }

  /** The specification's rounds run in reverse for every offset. */
  method ReversedLabels(n: nat, h: Seed, rounds: nat) returns (labels: seq<nat>)
    ensures LabelsByPosition(labels, h, n, rounds)
  {
    labels := [];
    for v := 0 to n
      invariant |labels| == v
      invariant forall u: nat :: u < v ==> labels[u] == Label(CommitteePosition(h, n, rounds, u), n)
    {
      var p := SpecShuffledIndex(h, v, n, rounds, false);
      labels := labels + [Label(p, n)];
    }
  }

  /** The whole set of positions shuffled as a list, each then read as its slot. */
  method PositionLabels(n: nat, h: Seed, rounds: nat) returns (labels: seq<nat>)
    requires n <= USIZE
    ensures LabelsByPosition(labels, h, n, rounds)
  {
    hide CommitteePosition, ShuffledForwards, SlotOfPosition;
    var list := new nat[n](p => p);
    ghost var s := list[..];
    WholeSetShuffle(list, h, rounds);
    labels := [];
    for v := 0 to n
      invariant |labels| == v && list[..] == ShuffledForwards(h, rounds, s)
      invariant forall u: nat :: u < v ==> labels[u] == Label(CommitteePosition(h, n, rounds, u), n)
    {
      ForwardsReadsPosition(h, rounds, s, v);
      assert list[..][v] == CommitteePosition(h, n, rounds, v);
      labels := labels + [Label(list[v], n)];
    }
  }

  /** `selftest`: all its comparisons hold, for every size, seed and number of rounds. */
  method Selftest(n: nat, h: Seed, rounds: nat) returns (reference: array<nat>)
    requires 0 < n <= USIZE
    ensures LabelsByPosition(reference[..], h, n, rounds)
  {
    reference := ReferenceLabels(n, h, rounds);
    var byHash := HashedLabels(n, h, rounds);
    var byMap := TrajectoryLabels(n, h, rounds);
    var bySpec := ReversedLabels(n, h, rounds);
    assert reference[..] == byHash == byMap == bySpec;
    var byPosition := PositionLabels(n, h, rounds);
    var byList := ListLabels(n, h, rounds);
    assert reference[..] == byPosition == byList[..];
    var byBlocks := BitslicedLabels(n, h, rounds, false);
    var byPlanes := BitslicedLabels(n, h, rounds, true);
    assert reference[..] == byBlocks == byPlanes;
  }
}
