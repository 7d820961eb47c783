/** The sampled scheme: the source bits of every round hashed once into bitmaps, and
    trajectories read out of them. Only the blocks a round can address are hashed. */
module Bitmaps {
  import opened DivMod
  import opened Words
  import opened SwapOrNot
  import opened ListShuffle

  /** `n.div_ceil(8)` */
  function Stride(n: nat): nat
  {
    (n + 7) / 8
  }

  /** Positions some pair of the round reads its swap bit at. */
  ghost predicate Addressed(run: Run, p: nat)
  {
    run.j0 - run.count < p <= run.j0
  }

  ghost predicate AddressedInRound(h: Seed, n: nat, r: nat, p: nat)
    requires n > 0
  {
    var pivot := Pivot(h, n, r);
    Addressed(LowerRun(pivot), p) || Addressed(UpperRun(pivot, n), p)
  }

  /** The row of a round: right wherever the round can look. */
  ghost predicate RowReady(h: Seed, n: nat, r: nat, row: seq<Byte>)
    requires n > 0
  {
    && |row| == Stride(n)
    && forall p: nat :: p < n && AddressedInRound(h, n, r, p) ==> row[p / 8] == SourceByte(h, r, p)
  }

  /** Row `r` of the flat map. */
  function Row(maps: seq<Byte>, stride: nat, rounds: nat, r: nat): (row: seq<Byte>)
    requires r < rounds && |maps| == stride * rounds
    ensures |row| == stride
  {
    RowInside(stride, rounds, r);
    maps[stride * r..stride * r + stride]
  }

  lemma RowInside(stride: nat, rounds: nat, r: nat)
    requires r < rounds
    ensures 0 <= stride * r && stride * r + stride <= stride * rounds
  {
    MulMonotone(stride, 0, r);
    MulMonotone(stride, r + 1, rounds);
  }

  /** Every index that moves in a round moves by a bit the round addresses; an index that is
      its own flip reads a bit that does not matter. */
  lemma MovesAreAddressed(h: Seed, n: nat, r: nat, i: nat)
    requires i < n
    ensures
      var flip := Flip(Pivot(h, n, r), i, n);
      flip == i || AddressedInRound(h, n, r, if i > flip then i else flip)
  {
    var pivot := Pivot(h, n, r);
    if i <= pivot {
      assert Flip(pivot, i, n) == pivot - i;
    } else {
      assert Flip(pivot, i, n) == pivot + n - i;
    }
  }

  /** So a step read from a ready row is the round. */
  lemma ReadyRowSteps(h: Seed, n: nat, r: nat, row: seq<Byte>, i: nat)
    requires i < n && RowReady(h, n, r, row)
    ensures
      var flip := Flip(Pivot(h, n, r), i, n);
      var position := if i > flip then i else flip;
      position / 8 < |row| && Round(h, n, r, i) == if row[position / 8][position % 8] then flip else i
  {
    MovesAreAddressed(h, n, r, i);
  }

  ghost predicate MapsReady(h: Seed, n: nat, rounds: nat, maps: seq<Byte>)
    requires n > 0
  {
    && |maps| == Stride(n) * rounds
    && forall r: nat :: r < rounds ==> RowReady(h, n, r, Row(maps, Stride(n), rounds, r))
  }

  method BitmapStep(h: Seed, n: nat, r: nat, pivot: nat, index: nat, maps: seq<Byte>, ghost rounds: nat)
    returns (next: nat)
    requires index < n && pivot == Pivot(h, n, r) && r < rounds && MapsReady(h, n, rounds, maps)
    ensures next < n && next == Round(h, n, r, index)
  {
    RowInside(Stride(n), rounds, r);
    ghost var row := Row(maps, Stride(n), rounds, r);
    ReadyRowSteps(h, n, r, row, index);
    var flip := Flip(pivot, index, n);
    var position := if index > flip then index else flip;
    assert row[position / 8] == maps[Stride(n) * r + position / 8];
    next := if maps[Stride(n) * r + position / 8][position % 8] then flip else index;
  }

  /** `traj_bitmap`: the descending trajectory without hashing. */
  method TrajBitmap(h: Seed, start: nat, n: nat, rounds: nat, pivots: seq<nat>, maps: seq<Byte>) returns (index: nat)
    requires start < n && |pivots| == rounds && MapsReady(h, n, rounds, maps)
    requires forall r: nat :: r < rounds ==> pivots[r] == Pivot(h, n, r)
    ensures index < n && index == CommitteePosition(h, n, rounds, start)
  {
    hide Round, MapsReady;
    index := start;
    for r := rounds downto 0
      invariant index < n
      invariant CommitteePosition(h, n, r, index) == CommitteePosition(h, n, rounds, start)
    {
      index := BitmapStep(h, n, r, pivots[r], index, maps, rounds);
    }
  }

  // ---- building the maps ---------------------------------------------------------------------

  /** Byte `x` of round `r`, as the hash gives it. */
  ghost function HashedByte(h: Seed, r: nat, x: nat): Byte
  {
    h.block(r, (x / 32) % U32)[x % 32]
  }

  /** The bytes of the blocks from `lo` up to `hi`, not included, are the hashed ones. */
  ghost predicate BlocksRight(h: Seed, r: nat, row: seq<Byte>, lo: nat, hi: nat)
  {
    forall x: nat :: x < |row| && lo <= x / 32 < hi ==> row[x] == HashedByte(h, r, x)
  }

  /** A row with one block overwritten by its hash, cut off at the row's end. */
  ghost function WithBlock(h: Seed, r: nat, row: seq<Byte>, block: nat): (w: seq<Byte>)
    ensures |w| == |row|
  {
    seq(|row|, (x: nat) requires x < |row| => if x / 32 == block then HashedByte(h, r, x) else row[x])
  }

  method CopyBlock(maps: array<Byte>, base: nat, stride: nat, h: Seed, r: nat, block: nat)
    requires base + stride <= maps.Length && block * 32 < stride
    modifies maps
    ensures maps[base..base + stride] == WithBlock(h, r, old(maps[base..base + stride]), block)
    ensures maps[..base] == old(maps[..base]) && maps[base + stride..] == old(maps[base + stride..])
  {
    var bytes := h.block(r, block % U32);
    var at := block * 32;
    var end := if 32 < stride - at then 32 else stride - at;
    forall t | 0 <= t < end {
      maps[base + at + t] := bytes[t];
    }
    forall x: nat | x < stride
      ensures maps[base + x] == if x / 32 == block then HashedByte(h, r, x) else old(maps[base + x])
    {
      if x / 32 == block {
        assert x == at + x % 32;
      }
    }
  }

  lemma BlockWidensRight(h: Seed, r: nat, row: seq<Byte>, lo: nat, block: nat, lo': nat, hi': nat)
    requires BlocksRight(h, r, row, lo, block) && BlocksRight(h, r, row, lo', hi')
    ensures BlocksRight(h, r, WithBlock(h, r, row, block), lo, block + 1)
    ensures BlocksRight(h, r, WithBlock(h, r, row, block), lo', hi')
  {
  }

  /** The blocks of one run hashed into a row; whatever was right stays right. */
  method HashRun(maps: array<Byte>, base: nat, stride: nat, h: Seed, r: nat, run: Run, n: nat,
                 ghost lo: nat, ghost hi: nat)
    requires Fits(run, n) && stride == Stride(n) && base + stride <= maps.Length
    requires BlocksRight(h, r, maps[base..base + stride], lo, hi)
    modifies maps
    ensures BlocksRight(h, r, maps[base..base + stride], lo, hi)
    ensures run.count > 0 ==>
      BlocksRight(h, r, maps[base..base + stride], (run.j0 + 1 - run.count) / 256, run.j0 / 256 + 1)
    ensures maps[..base] == old(maps[..base]) && maps[base + stride..] == old(maps[base + stride..])
  {
    if run.count == 0 {
      return;
    }
    var first, last := (run.j0 + 1 - run.count) / 256, run.j0 / 256;
    for block := first to last + 1
      invariant BlocksRight(h, r, maps[base..base + stride], lo, hi)
      invariant BlocksRight(h, r, maps[base..base + stride], first, block)
      invariant maps[..base] == old(maps[..base]) && maps[base + stride..] == old(maps[base + stride..])
    {
      BlockWidensRight(h, r, maps[base..base + stride], first, block, lo, hi);
      CopyBlock(maps, base, stride, h, r, block);
    }
  }

  /** Both runs hashed: the row is ready. */
  lemma RunsMakeReady(h: Seed, n: nat, r: nat, row: seq<Byte>)
    requires n > 0 && |row| == Stride(n)
    requires
      var pivot := Pivot(h, n, r);
      var lower, upper := LowerRun(pivot), UpperRun(pivot, n);
      && (lower.count > 0 ==> BlocksRight(h, r, row, (lower.j0 + 1 - lower.count) / 256, lower.j0 / 256 + 1))
      && (upper.count > 0 ==> BlocksRight(h, r, row, (upper.j0 + 1 - upper.count) / 256, upper.j0 / 256 + 1))
    ensures RowReady(h, n, r, row)
  {
    var pivot := Pivot(h, n, r);
    forall p: nat | p < n && AddressedInRound(h, n, r, p) ensures row[p / 8] == SourceByte(h, r, p) {
      ByteOfBlock(p);
      if Addressed(LowerRun(pivot), p) {
        AddressedBlock(LowerRun(pivot), p);
      } else {
        AddressedBlock(UpperRun(pivot, n), p);
      }
      assert row[p / 8] == HashedByte(h, r, p / 8);
    }
  }

  lemma AddressedBlock(run: Run, p: nat)
    requires Addressed(run, p) && run.count <= run.j0 + 1
    ensures run.count > 0 && (run.j0 + 1 - run.count) / 256 <= (p / 8) / 32 < run.j0 / 256 + 1
  {
    ByteOfBlock(p);
    DivMonotone(run.j0 + 1 - run.count, p, 256);
    DivMonotone(p, run.j0, 256);
  }

  lemma NoBlocks(h: Seed, r: nat, row: seq<Byte>)
    ensures BlocksRight(h, r, row, 0, 0)
  {
  }

  method HashRow(maps: array<Byte>, base: nat, h: Seed, n: nat, r: nat)
    requires n > 0 && base + Stride(n) <= maps.Length
    modifies maps
    ensures RowReady(h, n, r, maps[base..base + Stride(n)])
    ensures maps[..base] == old(maps[..base]) && maps[base + Stride(n)..] == old(maps[base + Stride(n)..])
  {
    hide Pivot, RowReady, BlocksRight;
    var pivot := Pivot(h, n, r);
    PlanFits(pivot, n);
    var lower, upper := LowerRun(pivot), UpperRun(pivot, n);
    NoBlocks(h, r, maps[base..base + Stride(n)]);
    HashRun(maps, base, Stride(n), h, r, lower, n, 0, 0);
    ghost var lo, hi := 0, 0;
    if lower.count > 0 {
      lo, hi := (lower.j0 + 1 - lower.count) / 256, lower.j0 / 256 + 1;
    }
    HashRun(maps, base, Stride(n), h, r, upper, n, lo, hi);
    RunsMakeReady(h, n, r, maps[base..base + Stride(n)]);
  }

  /** `bitmaps`: one row a round, upper halves only, and every row is ready. */
  method Bitmaps(h: Seed, n: nat, rounds: nat) returns (maps: array<Byte>)
    requires n > 0
    ensures fresh(maps) && MapsReady(h, n, rounds, maps[..])
  {
    var stride := Stride(n);
    MulMonotone(stride, 0, rounds);
    maps := new Byte[stride * rounds](_ => seq(8, _ => false));
    for r := 0 to rounds
      invariant forall o: nat :: o < r ==> RowReady(h, n, o, Row(maps[..], stride, rounds, o))
    {
      RowInside(stride, rounds, r);
      ghost var before := maps[..];
      HashRow(maps, stride * r, h, n, r);
      forall o: nat | o < r ensures Row(maps[..], stride, rounds, o) == Row(before, stride, rounds, o) {
        EarlierRow(before, maps[..], stride, rounds, r, o);
      }
      assert Row(maps[..], stride, rounds, r) == maps[stride * r..stride * r + stride];
    }
  }

  lemma EarlierRow(before: seq<Byte>, after: seq<Byte>, stride: nat, rounds: nat, r: nat, o: nat)
    requires o < r < rounds && |before| == |after| == stride * rounds
    requires 0 <= stride * r <= |before| && before[..stride * r] == after[..stride * r]
    ensures Row(after, stride, rounds, o) == Row(before, stride, rounds, o)
  {
    RowInside(stride, rounds, o);
    MulMonotone(stride, o + 1, r);
    var b, a := before[..stride * r], after[..stride * r];
    assert Row(before, stride, rounds, o) == b[stride * o..stride * o + stride];
    assert Row(after, stride, rounds, o) == a[stride * o..stride * o + stride];
  }
}
