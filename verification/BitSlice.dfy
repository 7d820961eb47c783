/** The bit-sliced shuffle: five bitplanes of the slot label, exchanged sixty-four
    pairs at a time. Each plane undergoes the swap-or-not permutation. */
module BitSlice {
  import opened DivMod
  import opened Words
  import opened SwapOrNot
  import opened ListShuffle

  const PLANES: nat := 5

  // ---- a plane, as the row of words that holds it --------------------------------

  function Bit(row: seq<Word>, p: nat): bool
    requires p < 64 * |row|
  {
    row[p / 64][p % 64]
  }

  /** The words of plane `q` in the flat array of all planes. */
  function Row(planes: seq<Word>, stride: nat, q: nat): (row: seq<Word>)
    requires |planes| == PLANES * stride && q < PLANES
    ensures |row| == stride
  {
    PlaneInside(stride, q);
    planes[q * stride..q * stride + stride]
  }

  lemma PlaneInside(stride: nat, q: nat)
    requires q < PLANES
    ensures 0 <= q * stride && q * stride + stride <= PLANES * stride
  {
    MulMonotone(stride, 0, q);
    MulMonotone(stride, q + 1, PLANES);
  }

  function Rows(planes: seq<Word>, stride: nat): (rows: seq<seq<Word>>)
    requires |planes| == PLANES * stride
    ensures |rows| == PLANES && forall q: nat :: q < PLANES ==> |rows[q]| == stride
  {
    seq(PLANES, (q: nat) requires q < PLANES => Row(planes, stride, q))
  }

  function WithCell(rows: seq<seq<Word>>, q: nat, w: nat, x: Word): (r: seq<seq<Word>>)
    requires q < |rows| && w < |rows[q]|
  {
    var row: seq<Word> := rows[q][w := x];
    rows[q := row]
  }

  lemma RowAfterWrite(planes: seq<Word>, stride: nat, q: nat, w: nat, x: Word, o: nat)
    requires |planes| == PLANES * stride && q < PLANES && o < PLANES && w < stride
    ensures 0 <= q * stride && q * stride + w < |planes|
    ensures Row(planes[q * stride + w := x], stride, o) ==
            if o == q then Row(planes, stride, q)[w := x] else Row(planes, stride, o)
  {
    PlaneInside(stride, q);
    PlaneInside(stride, o);
    PlanesApart(stride, q, o);
  }

  lemma PlanesApart(stride: nat, q: nat, o: nat)
    ensures o < q ==> o * stride + stride <= q * stride
    ensures q < o ==> q * stride + stride <= o * stride
  {
    if o < q {
      MulMonotone(stride, o + 1, q);
    } else if q < o {
      MulMonotone(stride, q + 1, o);
    }
  }

  lemma RowsAfterWrite(planes: seq<Word>, stride: nat, q: nat, w: nat, x: Word)
    requires |planes| == PLANES * stride && q < PLANES && w < stride
    ensures 0 <= q * stride && q * stride + w < |planes|
    ensures Rows(planes[q * stride + w := x], stride) ==
            WithCell(Rows(planes, stride), q, w, x)
  {
    PlaneInside(stride, q);
    forall o: nat | o < PLANES
      ensures Rows(planes[q * stride + w := x], stride)[o] ==
              WithCell(Rows(planes, stride), q, w, x)[o]
    {
      RowAfterWrite(planes, stride, q, w, x, o);
    }
  }

  /** `planes[q * stride + w]` */
  method ReadCell(planes: array<Word>, stride: nat, q: nat, w: nat) returns (x: Word)
    requires planes.Length == PLANES * stride && q < PLANES && w < stride
    ensures x == Rows(planes[..], stride)[q][w]
  {
    PlaneInside(stride, q);
    x := planes[q * stride + w];
  }

  /** `planes[q * stride + w] = x` */
  method WriteCell(planes: array<Word>, stride: nat, q: nat, w: nat, x: Word)
    requires planes.Length == PLANES * stride && q < PLANES && w < stride
    modifies planes
    ensures Rows(planes[..], stride) ==
            WithCell(old(Rows(planes[..], stride)), q, w, x)
  {
    RowsAfterWrite(planes[..], stride, q, w, x);
    planes[q * stride + w] := x;
  }

  // ---- one pair -------------------------------------------------------------------

  /** `bit << b` for one bit. */
  function OneBit(bit: bool, b: nat): Word
  {
    Shl(seq(64, t => t == 0 && bit), b)
  }

  /** `row[p >> 6] ^= t << (p & 63)` */
  function XorBit(row: seq<Word>, p: nat, t: bool): (r: seq<Word>)
    requires p < 64 * |row|
    ensures |r| == |row|
  {
    row[p / 64 := Xor(row[p / 64], OneBit(t, p % 64))]
  }

  lemma XorBitFlips(row: seq<Word>, p: nat, t: bool, u: nat)
    requires p < 64 * |row| && u < 64 * |row|
    ensures Bit(XorBit(row, p, t), u) == if u == p then Bit(row, p) != t else Bit(row, u)
  {
    if u / 64 == p / 64 {
      assert OneBit(t, p % 64)[u % 64] == (u % 64 == p % 64 && t);
      assert u == p <==> u % 64 == p % 64;
    }
  }

  /** `bitslice_swap_one`, on one plane. */
  function SwappedOne(row: seq<Word>, a: nat, b: nat): (r: seq<Word>)
    requires a < 64 * |row| && b < 64 * |row|
    ensures |r| == |row|
  {
    var t := Bit(row, a) != Bit(row, b);
    XorBit(XorBit(row, a, t), b, t)
  }

  lemma SwappedOneBit(row: seq<Word>, a: nat, b: nat, u: nat)
    requires a < 64 * |row| && b < 64 * |row| && a != b && u < 64 * |row|
    ensures Bit(SwappedOne(row, a, b), u) ==
            if u == a then Bit(row, b) else if u == b then Bit(row, a) else Bit(row, u)
  {
    var t := Bit(row, a) != Bit(row, b);
    XorBitFlips(row, a, t, u);
    XorBitFlips(XorBit(row, a, t), b, t, u);
    XorBitFlips(row, a, t, b);
  }

  // ---- sixty-four pairs ---------------------------------------------------------------

  /** One block on one plane: the window of 64 bits from `ilo` against the whole word
      `jw`, exchanged under mask `m`. */
  function Exchanged(row: seq<Word>, ilo: nat, jw: nat, m: Word): (r: seq<Word>)
    requires ilo + 64 <= 64 * jw && jw < |row|
    ensures |r| == |row|
  {
    var iw, off := ilo / 64, ilo % 64;
    if off == 0 then
      var e := MaskedExchange(row[iw], row[jw], m);
      row[jw := e.1][iw := e.0]
    else
      var e := MaskedExchange(FunnelRead(row[iw], row[iw + 1], off), row[jw], m);
      var f := FunnelWrite(row[iw], row[iw + 1], off, e.0);
      row[jw := e.1][iw := f.0][iw + 1 := f.1]
  }

  /** The window and the word never share a word: the funnel write cannot touch `jw`. */
  lemma WindowsApart(ilo: nat, jw: nat)
    requires ilo + 64 <= 64 * jw
    ensures ilo / 64 < jw && (ilo % 64 != 0 ==> ilo / 64 + 1 < jw)
  {
  }

  /** Bit `t` of the window that starts at `ilo`. */
  lemma WindowBit(row: seq<Word>, ilo: nat, t: nat)
    requires t < 64 && ilo + 64 <= 64 * |row|
    ensures ilo % 64 == 0 ==> Bit(row, ilo + t) == row[ilo / 64][t]
    ensures ilo % 64 != 0 ==>
      ilo / 64 + 1 < |row| && Bit(row, ilo + t) == FunnelRead(row[ilo / 64], row[ilo / 64 + 1], ilo % 64)[t]
  {
    if ilo % 64 != 0 {
      FunnelReadBit(row[ilo / 64], row[ilo / 64 + 1], ilo % 64, t);
    }
  }

  /** The window's 64 bits, aligned or funnelled. */
  function Window(row: seq<Word>, ilo: nat): Word
    requires ilo + 64 <= 64 * |row|
  {
    if ilo % 64 == 0 then row[ilo / 64] else FunnelRead(row[ilo / 64], row[ilo / 64 + 1], ilo % 64)
  }

  lemma WindowReads(row: seq<Word>, ilo: nat, t: nat)
    requires t < 64 && ilo + 64 <= 64 * |row|
    ensures Window(row, ilo)[t] == Bit(row, ilo + t)
  {
    WindowBit(row, ilo, t);
  }

  lemma BitOfWord(row: seq<Word>, w: nat, t: nat)
    requires w < |row| && t < 64
    ensures Bit(row, 64 * w + t) == row[w][t]
  {
  }

  /** The descending word of the result. */
  lemma ExchangedWord(row: seq<Word>, ilo: nat, jw: nat, m: Word)
    requires ilo + 64 <= 64 * jw && jw < |row|
    ensures Exchanged(row, ilo, jw, m)[jw] == MaskedExchange(Window(row, ilo), row[jw], m).1
  {
    hide MaskedExchange, FunnelRead, FunnelWrite;
    WindowsApart(ilo, jw);
  }

  lemma ExchangedDescending(row: seq<Word>, ilo: nat, jw: nat, m: Word, t: nat, i: nat, j: nat)
    requires ilo + 64 <= 64 * jw && jw < |row| && t < 64
    requires i == ilo + t && j == 64 * jw + 63 - t
    ensures Bit(Exchanged(row, ilo, jw, m), j) == if m[t] then Bit(row, i) else Bit(row, j)
  {
    hide Exchanged, Window, MaskedExchange, Bit;
    ExchangedWord(row, ilo, jw, m);
    BitOfWord(Exchanged(row, ilo, jw, m), jw, 63 - t);
    BitOfWord(row, jw, 63 - t);
    WindowReads(row, ilo, t);
    MaskedExchangeBit(Window(row, ilo), row[jw], m, t);
  }

  lemma ExchangedAscending(row: seq<Word>, ilo: nat, jw: nat, m: Word, t: nat, i: nat, j: nat)
    requires ilo + 64 <= 64 * jw && jw < |row| && t < 64
    requires i == ilo + t && j == 64 * jw + 63 - t
    ensures Bit(Exchanged(row, ilo, jw, m), i) == if m[t] then Bit(row, j) else Bit(row, i)
  {
    hide Exchanged, Window, MaskedExchange, Bit;
    BitOfWord(row, jw, 63 - t);
    WindowReads(row, ilo, t);
    MaskedExchangeBit(Window(row, ilo), row[jw], m, t);
    ExchangedHoldsWindow(row, ilo, jw, m, t);
  }

  /** The words under the window, rewritten. */
  lemma ExchangedFunnel(row: seq<Word>, ilo: nat, jw: nat, m: Word)
    requires ilo + 64 <= 64 * jw && jw < |row|
    ensures ilo / 64 < jw && (ilo % 64 > 0 ==> ilo / 64 + 1 < jw)
    ensures
      var iw, off, e := ilo / 64, ilo % 64, MaskedExchange(Window(row, ilo), row[jw], m).0;
      if off == 0 then Exchanged(row, ilo, jw, m)[iw] == e
      else
        && Exchanged(row, ilo, jw, m)[iw] == FunnelWrite(row[iw], row[iw + 1], off, e).0
        && Exchanged(row, ilo, jw, m)[iw + 1] == FunnelWrite(row[iw], row[iw + 1], off, e).1
  {
    hide MaskedExchange, FunnelRead, FunnelWrite;
    WindowsApart(ilo, jw);
  }

  /** The ascending window of the result holds the exchanged window. */
  lemma ExchangedHoldsWindow(row: seq<Word>, ilo: nat, jw: nat, m: Word, t: nat)
    requires ilo + 64 <= 64 * jw && jw < |row| && t < 64
    ensures Bit(Exchanged(row, ilo, jw, m), ilo + t) == MaskedExchange(Window(row, ilo), row[jw], m).0[t]
  {
    hide Exchanged, Window, MaskedExchange, FunnelWrite, Bit;
    ExchangedFunnel(row, ilo, jw, m);
    var iw, off, e := ilo / 64, ilo % 64, MaskedExchange(Window(row, ilo), row[jw], m).0;
    if off + t < 64 {
      BitOfWord(Exchanged(row, ilo, jw, m), iw, off + t);
      if off > 0 {
        FunnelWriteBit(row[iw], row[iw + 1], off, e, off + t);
      }
    } else {
      BitOfWord(Exchanged(row, ilo, jw, m), iw + 1, off + t - 64);
      FunnelWriteBit(row[iw], row[iw + 1], off, e, off + t - 64);
    }
  }

  lemma ExchangedElsewhere(row: seq<Word>, ilo: nat, jw: nat, m: Word, u: nat)
    requires ilo + 64 <= 64 * jw && jw < |row| && u < 64 * |row|
    requires !(ilo <= u < ilo + 64) && u / 64 != jw
    ensures Bit(Exchanged(row, ilo, jw, m), u) == Bit(row, u)
  {
    var iw, off := ilo / 64, ilo % 64;
    if off != 0 {
      var e := MaskedExchange(FunnelRead(row[iw], row[iw + 1], off), row[jw], m);
      if u / 64 == iw {
        FunnelWriteBit(row[iw], row[iw + 1], off, e.0, u % 64);
      } else if u / 64 == iw + 1 {
        FunnelWriteBit(row[iw], row[iw + 1], off, e.0, u % 64);
      }
    }
  }

  // ---- a plane is a list of booleans ----------------------------------------------------

  /** The first `n` bits of a plane. */
  function Bits(row: seq<Word>, n: nat): (b: seq<bool>)
    requires n <= 64 * |row|
    ensures |b| == n
  {
    seq(n, (p: nat) requires p < n => Bit(row, p))
  }

  lemma SwappedOneList(row: seq<Word>, n: nat, a: nat, b: nat)
    requires a < n && b < n && a != b && n <= 64 * |row|
    ensures Bits(SwappedOne(row, a, b), n) == Bits(row, n)[a := Bits(row, n)[b]][b := Bits(row, n)[a]]
  {
    forall u: nat | u < n
      ensures Bits(SwappedOne(row, a, b), n)[u] == Bits(row, n)[a := Bits(row, n)[b]][b := Bits(row, n)[a]][u]
    {
      SwappedOneBit(row, a, b, u);
    }
  }

  /** Where bit `u` comes from when bit `t` of the window at `ilo` and bit `63 - t` of the
      window at `jlo` trade places wherever the mask says so. */
  function TradedFrom(ilo: nat, jlo: nat, m: Word, u: nat): nat
    requires ilo + 64 <= jlo
  {
    if ilo <= u < ilo + 64 && m[u - ilo] then jlo + 63 - (u - ilo)
    else if jlo <= u < jlo + 64 && m[jlo + 63 - u] then ilo + (jlo + 63 - u)
    else u
  }

  function Traded(cur: seq<bool>, ilo: nat, jlo: nat, m: Word): (next: seq<bool>)
    requires ilo + 64 <= jlo && jlo + 64 <= |cur|
    ensures |next| == |cur|
  {
    seq(|cur|, (u: nat) requires u < |cur| => cur[TradedFrom(ilo, jlo, m, u)])
  }

  lemma ExchangedTrades(row: seq<Word>, n: nat, ilo: nat, jw: nat, jlo: nat, m: Word)
    requires ilo + 64 <= jlo == 64 * jw && jlo + 64 <= n <= 64 * |row|
    ensures Bits(Exchanged(row, ilo, jw, m), n) == Traded(Bits(row, n), ilo, jlo, m)
  {
    forall u: nat | u < n
      ensures Bits(Exchanged(row, ilo, jw, m), n)[u] == Traded(Bits(row, n), ilo, jlo, m)[u]
    {
      ExchangedAt(row, ilo, jw, jlo, m, u);
    }
  }

  lemma ExchangedAt(row: seq<Word>, ilo: nat, jw: nat, jlo: nat, m: Word, u: nat)
    requires ilo + 64 <= jlo == 64 * jw && jw < |row| && u < 64 * |row|
    ensures Bit(Exchanged(row, ilo, jw, m), u) == Bit(row, TradedFrom(ilo, jlo, m, u))
  {
    if ilo <= u < ilo + 64 {
      AscendingAt(row, ilo, jw, jlo, m, u);
    } else if jlo <= u < jlo + 64 {
      DescendingAt(row, ilo, jw, jlo, m, u);
    } else {
      ExchangedElsewhere(row, ilo, jw, m, u);
    }
  }

  lemma AscendingAt(row: seq<Word>, ilo: nat, jw: nat, jlo: nat, m: Word, u: nat)
    requires ilo + 64 <= jlo == 64 * jw && jw < |row| && ilo <= u < ilo + 64
    ensures Bit(Exchanged(row, ilo, jw, m), u) == Bit(row, TradedFrom(ilo, jlo, m, u))
  {
    hide Exchanged, Bit;
    ExchangedAscending(row, ilo, jw, m, u - ilo, u, jlo + 63 - (u - ilo));
  }

  lemma DescendingAt(row: seq<Word>, ilo: nat, jw: nat, jlo: nat, m: Word, u: nat)
    requires ilo + 64 <= jlo == 64 * jw && jw < |row| && jlo <= u < jlo + 64
    ensures Bit(Exchanged(row, ilo, jw, m), u) == Bit(row, TradedFrom(ilo, jlo, m, u))
  {
    hide Exchanged, Bit;
    ExchangedDescending(row, ilo, jw, m, jlo + 63 - u, ilo + (jlo + 63 - u), u);
  }

  /** The mask of a block lists the swap bits of its descending side, pair by pair. */
  ghost predicate MaskOf(h: Seed, r: nat, jhi: nat, m: Word)
    requires jhi >= 63
  {
    forall t: nat :: t < 64 ==> m[t] == SwapBit(h, r, jhi - t)
  }

  /** Blocks start where the descending side is the top of a word. */
  ghost predicate BlockAt(run: Run, k: nat)
  {
    run.i0 + 2 * run.count <= run.j0 + 1 && k + 64 <= run.count && (run.j0 - k) % 64 == 63
  }

  lemma BlockGeometry(run: Run, k: nat)
    requires BlockAt(run, k)
    ensures run.j0 - k >= 63
    ensures BlockWindows(run, k, run.i0 + k, run.j0 - k - 63)
  {
  }

  /** What sixty-four more pairs do to the origin of a position. */
  lemma OriginBlock(h: Seed, r: nat, run: Run, k: nat, p: nat)
    requires BlockAt(run, k)
    ensures run.i0 + k <= p < run.i0 + k + 64 ==>
      && Origin(h, r, run, k, p) == p
      && Origin(h, r, run, k + 64, p) ==
         (if SwapBit(h, r, run.j0 - (p - run.i0)) then run.j0 - (p - run.i0) else p)
    ensures run.j0 - k - 64 < p <= run.j0 - k ==>
      && Origin(h, r, run, k, p) == p
      && Origin(h, r, run, k + 64, p) == (if SwapBit(h, r, p) then run.i0 + (run.j0 - p) else p)
    ensures !(run.i0 + k <= p < run.i0 + k + 64) && !(run.j0 - k - 64 < p <= run.j0 - k) ==>
      Origin(h, r, run, k + 64, p) == Origin(h, r, run, k, p)
  {
  }

  /** The two windows a block trades. */
  ghost predicate BlockWindows(run: Run, k: nat, ilo: nat, jlo: nat)
  {
    && BlockAt(run, k)
    && ilo == run.i0 + k && jlo + 63 == run.j0 - k && ilo + 64 <= jlo && jlo % 64 == 0
  }

  /** A traded block is sixty-four more pairs of the run. */
  lemma RunBlock(h: Seed, r: nat, run: Run, k: nat, s: seq<bool>, m: Word, ilo: nat, jlo: nat)
    requires Fits(run, |s|) && BlockWindows(run, k, ilo, jlo) && MaskOf(h, r, jlo + 63, m)
    ensures Traded(RunList(h, r, run, k, s), ilo, jlo, m) == RunList(h, r, run, k + 64, s)
  {
    var next := Traded(RunList(h, r, run, k, s), ilo, jlo, m);
    forall p: nat | p < |s| ensures next[p] == RunList(h, r, run, k + 64, s)[p] {
      BlockOrigin(h, r, run, k, m, ilo, jlo, p);
    }
  }

  lemma BlockOrigin(h: Seed, r: nat, run: Run, k: nat, m: Word, ilo: nat, jlo: nat, p: nat)
    requires BlockWindows(run, k, ilo, jlo) && MaskOf(h, r, jlo + 63, m)
    ensures Origin(h, r, run, k, TradedFrom(ilo, jlo, m, p)) == Origin(h, r, run, k + 64, p)
  {
    OriginBlock(h, r, run, k, p);
    if ilo <= p < ilo + 64 {
      assert m[p - ilo] == SwapBit(h, r, jlo + 63 - (p - ilo));
      OriginBlock(h, r, run, k, jlo + 63 - (p - ilo));
    } else if jlo <= p < jlo + 64 {
      assert m[jlo + 63 - p] == SwapBit(h, r, jlo + 63 - (jlo + 63 - p));
      OriginBlock(h, r, run, k, ilo + (jlo + 63 - p));
    }
  }
}
