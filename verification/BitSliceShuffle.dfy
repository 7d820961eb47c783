/** The bit-sliced shuffles over the flat array of planes, block-major and plane-major. */
module BitSliceShuffle {
  import opened DivMod
  import opened Words
  import opened SwapOrNot
  import opened ListShuffle
  import opened BitSlice

  // ---- the planes as five lists of booleans -------------------------------------------

  function View(planes: seq<Word>, stride: nat, n: nat): (v: seq<seq<bool>>)
    requires |planes| == PLANES * stride && n <= 64 * stride
    ensures |v| == PLANES && forall q: nat :: q < PLANES ==> |v[q]| == n
  {
    var rows := Rows(planes, stride);
    seq(PLANES, (q: nat) requires q < PLANES => Bits(rows[q], n))
  }

  ghost predicate Lists(s: seq<seq<bool>>, n: nat)
  {
    |s| == PLANES && forall q: nat :: q < PLANES ==> |s[q]| == n
  }

  ghost function RunLists(h: Seed, r: nat, run: Run, k: nat, s: seq<seq<bool>>, n: nat): (t: seq<seq<bool>>)
    requires Lists(s, n) && Fits(run, n) && k <= run.count
    ensures Lists(t, n)
  {
    seq(PLANES, (q: nat) requires q < PLANES => RunList(h, r, run, k, s[q]))
  }

  ghost function RoundLists(h: Seed, r: nat, s: seq<seq<bool>>, n: nat): (t: seq<seq<bool>>)
    requires Lists(s, n)
    ensures Lists(t, n)
  {
    seq(PLANES, (q: nat) requires q < PLANES => RoundList(h, r, s[q]))
  }

  ghost function ShuffledLists(h: Seed, rounds: nat, s: seq<seq<bool>>, n: nat): (t: seq<seq<bool>>)
    requires Lists(s, n)
    ensures Lists(t, n)
  {
    seq(PLANES, (q: nat) requires q < PLANES => ShuffledForwards(h, rounds, s[q]))
  }

  // ---- single pairs -----------------------------------------------------------------------

  function Swapped(b: seq<bool>, i: nat, j: nat): seq<bool>
    requires i < |b| && j < |b|
  {
    b[i := b[j]][j := b[i]]
  }

  /** `bitslice_swap_one` */
  method SwapOne(planes: array<Word>, stride: nat, n: nat, a: nat, b: nat)
    requires planes.Length == PLANES * stride && a < n && b < n && a != b && n <= 64 * stride
    modifies planes
    ensures forall q: nat :: q < PLANES ==>
      View(planes[..], stride, n)[q] == Swapped(old(View(planes[..], stride, n))[q], a, b)
  {
    ghost var before := View(planes[..], stride, n);
    for q := 0 to PLANES
      invariant forall o: nat :: o < q ==> View(planes[..], stride, n)[o] == Swapped(before[o], a, b)
      invariant forall o: nat :: q <= o < PLANES ==> View(planes[..], stride, n)[o] == before[o]
    {
      SwapOneOnPlane(planes, stride, n, q, a, b);
    }
  }

  method SwapOneOnPlane(planes: array<Word>, stride: nat, n: nat, q: nat, a: nat, b: nat)
    requires planes.Length == PLANES * stride && q < PLANES && a < n && b < n && a != b && n <= 64 * stride
    modifies planes
    ensures View(planes[..], stride, n)[q] == Swapped(old(View(planes[..], stride, n))[q], a, b)
    ensures forall o: nat :: o < PLANES && o != q ==>
      View(planes[..], stride, n)[o] == old(View(planes[..], stride, n))[o]
  {
    ghost var row := Rows(planes[..], stride)[q];
    var wa := ReadCell(planes, stride, q, a / 64);
    var wb := ReadCell(planes, stride, q, b / 64);
    var t := wa[a % 64] != wb[b % 64];
    WriteCell(planes, stride, q, a / 64, Xor(wa, OneBit(t, a % 64)));
    wb := ReadCell(planes, stride, q, b / 64);
    WriteCell(planes, stride, q, b / 64, Xor(wb, OneBit(t, b % 64)));
    assert Rows(planes[..], stride)[q] == SwappedOne(row, a, b);
    SwappedOneList(row, n, a, b);
  }

  /** Pair `k` of a run, on every plane. */
  method SwapPairOnAll(planes: array<Word>, src: Source, run: Run, n: nat, stride: nat, k: nat,
                       ghost s: seq<seq<bool>>)
    requires planes.Length == PLANES * stride && n <= 64 * stride && n <= USIZE
    requires src.Valid() && Fits(run, n) && k < run.count && Lists(s, n)
    requires View(planes[..], stride, n) == RunLists(src.h, src.round, run, k, s, n)
    modifies planes, src
    ensures src.Valid()
    ensures View(planes[..], stride, n) == RunLists(src.h, src.round, run, k + 1, s, n)
  {
    hide View, RunLists, Swapped;
    var j := run.j0 - k;
    var byte := src.ByteOf(j);
    ghost var cur := View(planes[..], stride, n);
    if byte[j % 8] {
      SwapOne(planes, stride, n, run.i0 + k, j);
    }
    PairOnLists(src.h, src.round, run, k, n, s, cur, View(planes[..], stride, n));
  }

  lemma PairOnLists(h: Seed, r: nat, run: Run, k: nat, n: nat, s: seq<seq<bool>>,
                    cur: seq<seq<bool>>, next: seq<seq<bool>>)
    requires Lists(s, n) && Lists(next, n) && Fits(run, n) && k < run.count
    requires cur == RunLists(h, r, run, k, s, n)
    requires forall q: nat :: q < PLANES ==>
      next[q] == if SwapBit(h, r, run.j0 - k) then Swapped(cur[q], run.i0 + k, run.j0 - k) else cur[q]
    ensures next == RunLists(h, r, run, k + 1, s, n)
  {
    forall q: nat | q < PLANES ensures next[q] == RunList(h, r, run, k + 1, s[q]) {
      RunStep(h, r, run, k, s[q]);
    }
  }

  /** Pairs `from` up to `to` of a run, one at a time. */
  method SwapSingly(planes: array<Word>, src: Source, run: Run, n: nat, stride: nat, from: nat, to: nat,
                    ghost s: seq<seq<bool>>)
    requires planes.Length == PLANES * stride && n <= 64 * stride && n <= USIZE
    requires src.Valid() && Fits(run, n) && from <= to <= run.count && Lists(s, n)
    requires View(planes[..], stride, n) == RunLists(src.h, src.round, run, from, s, n)
    modifies planes, src
    ensures src.Valid()
    ensures View(planes[..], stride, n) == RunLists(src.h, src.round, run, to, s, n)
  {
    for k := from to to
      invariant src.Valid()
      invariant View(planes[..], stride, n) == RunLists(src.h, src.round, run, k, s, n)
    {
      SwapPairOnAll(planes, src, run, n, stride, k, s);
    }
  }

  // ---- blocks of sixty-four ------------------------------------------------------------------

  /** One block on one plane: the window at `ilo` against the word at `jlo`. */
  method ExchangeOnPlane(planes: array<Word>, stride: nat, n: nat, q: nat, iw: nat, off: nat, jw: nat, m: Word,
                         ghost ilo: nat, ghost jlo: nat)
    requires planes.Length == PLANES * stride && q < PLANES && n <= 64 * stride
    requires off < 64 && ilo == 64 * iw + off && jlo == 64 * jw && ilo + 64 <= jlo && jlo + 64 <= n
    modifies planes
    ensures View(planes[..], stride, n)[q] == Traded(old(View(planes[..], stride, n))[q], ilo, jlo, m)
    ensures forall o: nat :: o < PLANES && o != q ==>
      View(planes[..], stride, n)[o] == old(View(planes[..], stride, n))[o]
  {
    ghost var row := Rows(planes[..], stride)[q];
    ExchangeWords(planes, stride, q, iw, off, jw, m, ilo);
    ExchangedTrades(row, n, ilo, jw, jlo, m);
  }

  /** The funnel read, the masked exchange, the funnel write. */
  method ExchangeWords(planes: array<Word>, stride: nat, q: nat, iw: nat, off: nat, jw: nat, m: Word, ghost ilo: nat)
    requires planes.Length == PLANES * stride && q < PLANES
    requires off < 64 && ilo == 64 * iw + off && ilo + 64 <= 64 * jw && jw < stride
    modifies planes
    ensures Rows(planes[..], stride)[q] == Exchanged(old(Rows(planes[..], stride))[q], ilo, jw, m)
    ensures forall o: nat :: o < PLANES && o != q ==>
      Rows(planes[..], stride)[o] == old(Rows(planes[..], stride))[o]
  {
    assert ilo / 64 == iw && ilo % 64 == off;
    var jword := ReadCell(planes, stride, q, jw);
    var lo := ReadCell(planes, stride, q, iw);
    if off == 0 {
      var t := And(Xor(lo, Rev64(jword)), m);
      WriteCell(planes, stride, q, jw, Xor(jword, Rev64(t)));
      WriteCell(planes, stride, q, iw, Xor(lo, t));
    } else {
      var hi := ReadCell(planes, stride, q, iw + 1);
      var x := Or(Shr(lo, off), Shl(hi, 64 - off));
      var t := And(Xor(x, Rev64(jword)), m);
      WriteCell(planes, stride, q, jw, Xor(jword, Rev64(t)));
      var xt := Xor(x, t);
      WriteCell(planes, stride, q, iw, Or(And(lo, LowMask(off)), Shl(xt, off)));
      WriteCell(planes, stride, q, iw + 1, Or(And(hi, Not(LowMask(off))), Shr(xt, 64 - off)));
    }
  }

  method ExchangeOnAll(planes: array<Word>, stride: nat, n: nat, iw: nat, off: nat, jw: nat, m: Word,
                       ghost ilo: nat, ghost jlo: nat)
    requires planes.Length == PLANES * stride && n <= 64 * stride
    requires off < 64 && ilo == 64 * iw + off && jlo == 64 * jw && ilo + 64 <= jlo && jlo + 64 <= n
    modifies planes
    ensures forall q: nat :: q < PLANES ==>
      View(planes[..], stride, n)[q] == Traded(old(View(planes[..], stride, n))[q], ilo, jlo, m)
  {
    ghost var before := View(planes[..], stride, n);
    for q := 0 to PLANES
      invariant forall o: nat :: o < q ==> View(planes[..], stride, n)[o] == Traded(before[o], ilo, jlo, m)
      invariant forall o: nat :: q <= o < PLANES ==> View(planes[..], stride, n)[o] == before[o]
    {
      ExchangeOnPlane(planes, stride, n, q, iw, off, jw, m, ilo, jlo);
    }
  }

  /** The mask of the block whose descending side is the word at `jlo`. */
  method BlockMask(src: Source, jlo: nat) returns (m: Word)
    requires src.Valid() && jlo + 63 < USIZE && jlo % 64 == 0
    modifies src
    ensures src.Valid() && MaskOf(src.h, src.round, jlo + 63, m)
  {
    var w := src.WordOf(jlo);
    m := Rev64(w);
    forall t: nat | t < 64 ensures m[t] == SwapBit(src.h, src.round, jlo + 63 - t) {
      Rev64Reverses(w, t);
    }
  }

  lemma BlockOnLists(h: Seed, r: nat, run: Run, k: nat, n: nat, s: seq<seq<bool>>,
                     cur: seq<seq<bool>>, next: seq<seq<bool>>, m: Word, ilo: nat, jlo: nat)
    requires Lists(s, n) && Lists(next, n) && Fits(run, n)
    requires BlockWindows(run, k, ilo, jlo) && MaskOf(h, r, jlo + 63, m)
    requires cur == RunLists(h, r, run, k, s, n)
    requires forall q: nat :: q < PLANES ==> next[q] == Traded(cur[q], ilo, jlo, m)
    ensures next == RunLists(h, r, run, k + 64, s, n)
  {
    forall q: nat | q < PLANES ensures next[q] == RunList(h, r, run, k + 64, s[q]) {
      RunBlock(h, r, run, k, s[q], m, ilo, jlo);
    }
  }

  /** One whole block, on every plane. */
  method SwapBlock(planes: array<Word>, src: Source, run: Run, n: nat, stride: nat, k: nat, ghost s: seq<seq<bool>>)
    requires planes.Length == PLANES * stride && n <= 64 * stride && n <= USIZE
    requires src.Valid() && Fits(run, n) && BlockAt(run, k) && Lists(s, n)
    requires View(planes[..], stride, n) == RunLists(src.h, src.round, run, k, s, n)
    modifies planes, src
    ensures src.Valid()
    ensures View(planes[..], stride, n) == RunLists(src.h, src.round, run, k + 64, s, n)
  {
    BlockGeometry(run, k);
    var ilo, jlo := run.i0 + k, run.j0 - k - 63;
    var m := BlockMask(src, jlo);
    ghost var cur := View(planes[..], stride, n);
    ExchangeOnAll(planes, stride, n, ilo / 64, ilo % 64, jlo / 64, m, ilo, jlo);
    BlockOnLists(src.h, src.round, run, k, n, s, cur, View(planes[..], stride, n), m, ilo, jlo);
  }

  /** Pairs to take singly before the descending side reaches the top of a word. */
  function HeadOf(run: Run): (head: nat)
    ensures head <= run.count
    ensures run.i0 + 2 * run.count <= run.j0 + 1 && head < run.count ==> (run.j0 - head) % 64 == 63
  {
    if (run.j0 + 1) % 64 < run.count then (run.j0 + 1) % 64 else run.count
  }

  /** One run of the block-major shuffle. */
  method RunBlocks(planes: array<Word>, src: Source, run: Run, n: nat, stride: nat)
    requires planes.Length == PLANES * stride && n <= 64 * stride && n <= USIZE
    requires src.Valid() && Fits(run, n)
    modifies planes, src
    ensures src.Valid()
    ensures View(planes[..], stride, n) ==
            RunLists(src.h, src.round, run, run.count, old(View(planes[..], stride, n)), n)
  {
    ghost var s := View(planes[..], stride, n);
    StartLists(src.h, src.round, run, s, n);
    var head := HeadOf(run);
    SwapSingly(planes, src, run, n, stride, 0, head, s);
    var k := head;
    while k + 64 <= run.count
      invariant head <= k <= run.count && src.Valid()
      invariant k < run.count ==> (run.j0 - k) % 64 == 63
      invariant View(planes[..], stride, n) == RunLists(src.h, src.round, run, k, s, n)
    {
      SwapBlock(planes, src, run, n, stride, k, s);
      k := k + 64;
    }
    SwapSingly(planes, src, run, n, stride, k, run.count, s);
  }

  lemma StartLists(h: Seed, r: nat, run: Run, s: seq<seq<bool>>, n: nat)
    requires Lists(s, n) && Fits(run, n)
    ensures RunLists(h, r, run, 0, s, n) == s
  {
    forall q: nat | q < PLANES ensures RunLists(h, r, run, 0, s, n)[q] == s[q] {
      RunStart(h, r, run, s[q]);
    }
  }

  lemma RunsMakeRoundLists(h: Seed, r: nat, s: seq<seq<bool>>, n: nat)
    requires Lists(s, n) && n > 0
    ensures
      var pivot := Pivot(h, n, r);
      var lower, upper := LowerRun(pivot), UpperRun(pivot, n);
      && Fits(lower, n) && Fits(upper, n)
      && RunLists(h, r, upper, upper.count, RunLists(h, r, lower, lower.count, s, n), n) == RoundLists(h, r, s, n)
  {
    var pivot := Pivot(h, n, r);
    PlanFits(pivot, n);
    var lower, upper := LowerRun(pivot), UpperRun(pivot, n);
    var t := RunLists(h, r, upper, upper.count, RunLists(h, r, lower, lower.count, s, n), n);
    forall q: nat | q < PLANES ensures t[q] == RoundLists(h, r, s, n)[q] {
      RunsMakeRound(h, r, s[q]);
    }
  }

  lemma ShuffledListsStep(h: Seed, r: nat, s: seq<seq<bool>>, n: nat)
    requires Lists(s, n)
    ensures ShuffledLists(h, 0, s, n) == s
    ensures RoundLists(h, r, ShuffledLists(h, r, s, n), n) == ShuffledLists(h, r + 1, s, n)
  {
  }

  lemma ShortLists(h: Seed, rounds: nat, s: seq<seq<bool>>, n: nat)
    requires Lists(s, n) && n <= 1
    ensures ShuffledLists(h, rounds, s, n) == s
  {
    forall q: nat | q < PLANES ensures ShuffledLists(h, rounds, s, n)[q] == s[q] {
      EmptyShuffles(h, rounds, s[q]);
    }
  }

  /** `bitslice_shuffle`: each plane is shuffled forwards. */
  method BitsliceShuffle(planes: array<Word>, n: nat, stride: nat, h: Seed, rounds: nat)
    requires planes.Length == PLANES * stride && n <= 64 * stride && n <= USIZE
    modifies planes
    ensures View(planes[..], stride, n) == ShuffledLists(h, rounds, old(View(planes[..], stride, n)), n)
  {
    ghost var s := View(planes[..], stride, n);
    if n <= 1 {
      ShortLists(h, rounds, s, n);
      return;
    }
    ShuffledListsStep(h, 0, s, n);
    for r := 0 to rounds
      invariant View(planes[..], stride, n) == ShuffledLists(h, r, s, n)
    {
      var src := new Source(h, r);
      var pivot := Pivot(h, n, r);
      RunsMakeRoundLists(h, r, View(planes[..], stride, n), n);
      RunBlocks(planes, src, LowerRun(pivot), n, stride);
      RunBlocks(planes, src, UpperRun(pivot, n), n, stride);
      ShuffledListsStep(h, r, s, n);
    }
  }
}
