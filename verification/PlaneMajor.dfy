/** The plane-major bit-sliced shuffle: a round's masks are built once, and each plane
    is then walked on its own. The same permutation as the block-major form. */
module PlaneMajor {
  import opened DivMod
  import opened Words
  import opened SwapOrNot
  import opened ListShuffle
  import opened BitSlice
  import opened BitSliceShuffle

  /** Whole blocks after the head: `count.saturating_sub(head) / 64`. */
  function BlocksOf(run: Run): (blocks: nat)
    ensures HeadOf(run) + 64 * blocks <= run.count
  {
    (run.count - HeadOf(run)) / 64
  }

  /** `usize` subtraction, wrapping as release arithmetic does. */
  function WrapSub(a: nat, b: nat): (d: nat)
    ensures d < USIZE
    ensures b <= a < USIZE ==> d == a - b
  {
    (a - b) % USIZE
  }

  /** The windows of block `b` of a run. */
  lemma BlockStarts(run: Run, n: nat, b: nat)
    requires Fits(run, n) && b < BlocksOf(run)
    ensures BlockAt(run, HeadOf(run) + 64 * b)
    ensures run.j0 - HeadOf(run) - 64 * b >= 63
    ensures BlockWindows(run, HeadOf(run) + 64 * b, run.i0 + HeadOf(run) + 64 * b, run.j0 - HeadOf(run) - 64 * b - 63)
  {
    BlockGeometry(run, HeadOf(run) + 64 * b);
  }

  /** The first descending word. With no whole block the difference can wrap; no mask
      then uses it. */
  function DescendingWord(run: Run, n: nat): (jw: nat)
    requires Fits(run, n) && n <= USIZE
    ensures BlocksOf(run) > 0 ==> 64 * jw == run.j0 - HeadOf(run) - 63
  {
    assert BlocksOf(run) > 0 ==> BlockAt(run, HeadOf(run)) by {
      if BlocksOf(run) > 0 {
        BlockStarts(run, n, 0);
      }
    }
    WrapSub(WrapSub(run.j0, HeadOf(run)), 63) / 64
  }

  /** The round's masks hold what each block needs. */
  ghost predicate MasksReady(h: Seed, r: nat, run: Run, n: nat, masks: seq<Word>)
  {
    && Fits(run, n) && |masks| == BlocksOf(run)
    && forall b: nat :: b < |masks| ==> MaskReady(h, r, run, b, masks[b])
  }

  ghost predicate MaskReady(h: Seed, r: nat, run: Run, b: nat, m: Word)
  {
    run.j0 - HeadOf(run) - 64 * b >= 63 && MaskOf(h, r, run.j0 - HeadOf(run) - 64 * b, m)
  }

  method FillMasks(masks: array<Word>, src: Source, run: Run, n: nat)
    requires Fits(run, n) && n <= USIZE && masks.Length == n / 128 + 2 && src.Valid()
    modifies masks, src
    ensures src.Valid() && BlocksOf(run) <= masks.Length
    ensures MasksReady(src.h, src.round, run, n, masks[..BlocksOf(run)])
  {
    var head, blocks := HeadOf(run), BlocksOf(run);
    assert 2 * run.count <= n + 1 && blocks <= n / 128 + 2;
    for b := 0 to blocks
      invariant src.Valid()
      invariant forall c: nat :: c < b ==> MaskReady(src.h, src.round, run, c, masks[c])
    {
      BlockStarts(run, n, b);
      var m := BlockMask(src, run.j0 - head - 64 * b - 63);
      masks[b] := m;
    }
  }

  /** `bitslice_run`: one plane against all of a run's masks, `xw` climbing and `jw`
      descending a word a block. */
  method RunPlane(planes: array<Word>, ghost h: Seed, ghost r: nat, run: Run, n: nat, stride: nat, q: nat,
                  xw0: nat, jw0: nat, off: nat, masks: seq<Word>, ghost s: seq<bool>, ghost head: nat, ghost end: nat)
    requires planes.Length == PLANES * stride && n <= 64 * stride && q < PLANES && |s| == n
    requires MasksReady(h, r, run, n, masks) && head == HeadOf(run) && end == head + 64 * |masks|
    requires off < 64 && 64 * xw0 + off == run.i0 + head
    requires masks != [] ==> 64 * jw0 == run.j0 - head - 63
    requires View(planes[..], stride, n)[q] == RunList(h, r, run, head, s)
    modifies planes
    ensures View(planes[..], stride, n)[q] == RunList(h, r, run, end, s)
    ensures forall o: nat :: o < PLANES && o != q ==>
      View(planes[..], stride, n)[o] == old(View(planes[..], stride, n))[o]
  {
    hide View, RunList;
    var xw, jw := xw0, jw0 as int;
    for b := 0 to |masks|
      invariant xw == xw0 + b && jw == jw0 - b
      invariant View(planes[..], stride, n)[q] == RunList(h, r, run, head + 64 * b, s)
      invariant forall o: nat :: o < PLANES && o != q ==>
        View(planes[..], stride, n)[o] == old(View(planes[..], stride, n))[o]
    {
      RunPlaneBlock(planes, h, r, run, n, stride, q, b, head + 64 * b, xw, jw, off, masks[b], s);
      xw, jw := xw + 1, jw - 1;
    }
  }

  method RunPlaneBlock(planes: array<Word>, ghost h: Seed, ghost r: nat, ghost run: Run, n: nat, stride: nat,
                       q: nat, ghost b: nat, ghost k: nat, xw: nat, jw: int, off: nat, m: Word, ghost s: seq<bool>)
    requires planes.Length == PLANES * stride && n <= 64 * stride && q < PLANES && |s| == n
    requires Fits(run, n) && b < BlocksOf(run) && MaskReady(h, r, run, b, m) && k == HeadOf(run) + 64 * b
    requires off < 64 && 64 * xw + off == run.i0 + k && 64 * jw == run.j0 - k - 63
    requires View(planes[..], stride, n)[q] == RunList(h, r, run, k, s)
    modifies planes
    ensures View(planes[..], stride, n)[q] == RunList(h, r, run, k + 64, s)
    ensures forall o: nat :: o < PLANES && o != q ==>
      View(planes[..], stride, n)[o] == old(View(planes[..], stride, n))[o]
  {
    BlockStarts(run, n, b);
    ghost var ilo, jlo := run.i0 + k, run.j0 - k - 63;
    ExchangeOnPlane(planes, stride, n, q, xw, off, jw, m, ilo, jlo);
    RunBlock(h, r, run, k, s, m, ilo, jlo);
  }

  /** Every plane, one after the other. */
  method RunPlanes(planes: array<Word>, ghost h: Seed, ghost r: nat, run: Run, n: nat, stride: nat,
                   masks: seq<Word>, ghost s: seq<seq<bool>>, ghost end: nat)
    requires planes.Length == PLANES * stride && n <= 64 * stride && n <= USIZE
    requires Fits(run, n) && Lists(s, n) && MasksReady(h, r, run, n, masks)
    requires end == HeadOf(run) + 64 * |masks|
    requires View(planes[..], stride, n) == RunLists(h, r, run, HeadOf(run), s, n)
    modifies planes
    ensures View(planes[..], stride, n) == RunLists(h, r, run, end, s, n)
  {
    var head := HeadOf(run);
    var ilo := run.i0 + head;
    var iw0, off, jw0 := ilo / 64, ilo % 64, DescendingWord(run, n);
    assert 64 * iw0 + off == run.i0 + head;
    for q := 0 to PLANES
      invariant forall o: nat :: o < q ==> View(planes[..], stride, n)[o] == RunList(h, r, run, end, s[o])
      invariant forall o: nat :: q <= o < PLANES ==>
        View(planes[..], stride, n)[o] == RunList(h, r, run, head, s[o])
    {
      RunPlane(planes, h, r, run, n, stride, q, iw0, jw0, off, masks, s[q], head, end);
    }
  }

  /** One run: the head singly, the blocks plane by plane, the tail singly. */
  method RunPlaneMajor(planes: array<Word>, masks: array<Word>, src: Source, run: Run, n: nat, stride: nat)
    requires planes.Length == PLANES * stride && n <= 64 * stride && n <= USIZE
    requires planes != masks && masks.Length == n / 128 + 2
    requires src.Valid() && Fits(run, n)
    modifies planes, masks, src
    ensures src.Valid()
    ensures View(planes[..], stride, n) ==
            RunLists(src.h, src.round, run, run.count, old(View(planes[..], stride, n)), n)
  {
    ghost var s := View(planes[..], stride, n);
    StartLists(src.h, src.round, run, s, n);
    var head, blocks := HeadOf(run), BlocksOf(run);
    SwapSingly(planes, src, run, n, stride, 0, head, s);
    FillMasks(masks, src, run, n);
    RunPlanes(planes, src.h, src.round, run, n, stride, masks[..blocks], s, head + 64 * blocks);
    SwapSingly(planes, src, run, n, stride, head + 64 * blocks, run.count, s);
  }

  /** `bitslice_shuffle_planes`: each plane is shuffled forwards, for every `n`. */
  method BitsliceShufflePlanes(planes: array<Word>, n: nat, stride: nat, h: Seed, rounds: nat)
    requires planes.Length == PLANES * stride && n <= 64 * stride && n <= USIZE
    modifies planes
    ensures View(planes[..], stride, n) == ShuffledLists(h, rounds, old(View(planes[..], stride, n)), n)
  {
    ghost var s := View(planes[..], stride, n);
    if n <= 1 {
      ShortLists(h, rounds, s, n);
      return;
    }
    var masks := new Word[n / 128 + 2](_ => ZERO);
    ShuffledListsStep(h, 0, s, n);
    for r := 0 to rounds
      invariant View(planes[..], stride, n) == ShuffledLists(h, r, s, n)
    {
      var src := new Source(h, r);
      var pivot := Pivot(h, n, r);
      RunsMakeRoundLists(h, r, View(planes[..], stride, n), n);
      RunPlaneMajor(planes, masks, src, LowerRun(pivot), n, stride);
      RunPlaneMajor(planes, masks, src, UpperRun(pivot, n), n, stride);
      ShuffledListsStep(h, r, s, n);
    }
  }
}
