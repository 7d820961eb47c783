/** Unsigned 64-bit words and bytes as their bits, least significant first.
    Every operator the shuffle applies to a `u64` is defined here bit by bit. */
module Words {
  import opened DivMod

  type Word = w: seq<bool> | |w| == 64 witness seq(64, _ => false)
  type Byte = b: seq<bool> | |b| == 8 witness seq(8, _ => false)
  type Bytes32 = s: seq<Byte> | |s| == 32 witness seq(32, _ => seq(8, _ => false))

  const ZERO: Word := seq(64, _ => false)

  function And(x: Word, y: Word): Word { seq(64, (t: nat) requires t < 64 => x[t] && y[t]) }
  function Or(x: Word, y: Word): Word { seq(64, (t: nat) requires t < 64 => x[t] || y[t]) }
  function Xor(x: Word, y: Word): Word { seq(64, (t: nat) requires t < 64 => x[t] != y[t]) }
  function Not(x: Word): Word { seq(64, (t: nat) requires t < 64 => !x[t]) }

  /** `x >> k` */
  function Shr(x: Word, k: nat): Word { seq(64, (t: nat) requires t < 64 => t + k < 64 && x[t + k]) }

  /** `x << k` */
  function Shl(x: Word, k: nat): Word { seq(64, (t: nat) requires t < 64 => k <= t && x[t - k]) }

  /** `(1 << k) - 1` */
  function LowMask(k: nat): Word { seq(64, t => t < k) }

  /** The word with `k` set bits, `k` clear bits, alternating from the bottom:
      `0x5555_5555_5555_5555` for 1, `0x3333_3333_3333_3333` for 2, and so on. */
  function Stripes(k: nat): Word
    requires k > 0
  {
    seq(64, t => (t / k) % 2 == 0)
  }

  /** `((x & m) << k) | ((x >> k) & m)`: one masked exchange of neighbouring groups of `k` bits. */
  function ExchangeGroups(x: Word, k: nat): Word
    requires k > 0
  {
    Or(Shl(And(x, Stripes(k)), k), And(Shr(x, k), Stripes(k)))
  }

  function RotateLeft32(x: Word): Word { Or(Shl(x, 32), Shr(x, 32)) }

  /** `rev64`: five masked exchanges and a rotation. */
  function Rev64(x: Word): Word
  {
    RotateLeft32(ExchangeGroups(ExchangeGroups(ExchangeGroups(ExchangeGroups(ExchangeGroups(x, 1), 2), 4), 8), 16))
  }

  /** `u64::from_le_bytes` over eight bytes. */
  function LeWord(b: seq<Byte>): Word
    requires |b| == 8
  {
    seq(64, (t: nat) requires t < 64 => b[t / 8][t % 8])
  }

  // ---- rev64 reverses the bits ---------------------------------------------

  /** `t` mirrored within its aligned group of `g` positions. */
  function Mirror(t: nat, g: nat): int
    requires g > 0
  {
    t - t % g + (g - 1 - t % g)
  }

  ghost predicate MirroredInGroups(y: Word, x: Word, g: nat)
    requires g > 0
  {
    forall t: nat :: t < 64 ==> 0 <= Mirror(t, g) < 64 && y[t] == x[Mirror(t, g)]
  }

  /** Groups pair up within the word. */
  ghost predicate HalfGroup(k: nat)
  {
    k > 0 && forall t: nat :: t < 64 && (t / k) % 2 == 0 ==> t + k < 64
  }

  lemma MirrorAcross(t: nat, k: nat)
    requires k > 0 && (t / k) % 2 == 0
    ensures ((t + k) / k) % 2 == 1
    ensures Mirror(t + k, k) == Mirror(t, 2 * k) && Mirror(t, k) == Mirror(t + k, 2 * k)
  {
    var q, r := t / k / 2, t % k;
    assert t == (2 * k) * q + r;
    DivModUnique(t, 2 * k, q, r);
    DivModUnique(t + k, 2 * k, q, r + k);
    DivModUnique(t + k, k, 2 * q + 1, r);
  }

  lemma ExchangeReads(y: Word, k: nat, t: nat)
    requires HalfGroup(k) && t + k < 64 && (t / k) % 2 == 0
    ensures ((t + k) / k) % 2 == 1
    ensures ExchangeGroups(y, k)[t + k] == y[t] && ExchangeGroups(y, k)[t] == y[t + k]
  {
    MirrorAcross(t, k);
    var a := And(y, Stripes(k));
    assert Shl(a, k)[t + k] == a[t] == y[t];
    assert !And(Shr(y, k), Stripes(k))[t + k];
    assert And(Shr(y, k), Stripes(k))[t] == y[t + k];
    if k <= t && ((t - k) / k) % 2 == 0 {
      MirrorAcross(t - k, k);
      assert false;
    }
    assert !Shl(a, k)[t];
  }

  /** Words mirrored in groups of `k` become mirrored in groups of `2k`. */
  lemma ExchangeDoublesMirror(y: Word, x: Word, k: nat)
    requires HalfGroup(k) && MirroredInGroups(y, x, k)
    ensures MirroredInGroups(ExchangeGroups(y, k), x, 2 * k)
  {
    forall t: nat | t < 64
      ensures 0 <= Mirror(t, 2 * k) < 64 && ExchangeGroups(y, k)[t] == x[Mirror(t, 2 * k)]
    {
      var s := if (t / k) % 2 == 0 then t else t - k;
      if (t / k) % 2 == 1 {
        LowHalf(t, k);
      }
      ExchangeReads(y, k, s);
      MirrorAcross(s, k);
    }
  }

  lemma LowHalf(t: nat, k: nat)
    requires k > 0 && (t / k) % 2 == 1
    ensures t >= k && ((t - k) / k) % 2 == 0
  {
    var q := t / k / 2;
    assert t == k * (2 * q + 1) + t % k;
    assert k * (2 * q + 1) == k + k * (2 * q);
    DivModUnique(t - k, k, 2 * q, t % k);
  }

  lemma HalfGroups()
    ensures HalfGroup(1) && HalfGroup(2) && HalfGroup(4) && HalfGroup(8) && HalfGroup(16)
  {
  }

  lemma Rev64Reverses(x: Word, t: nat)
    requires t < 64
    ensures Rev64(x)[t] == x[63 - t]
  {
    HalfGroups();
    var x1 := ExchangeGroups(x, 1);
    var x2 := ExchangeGroups(x1, 2);
    var x3 := ExchangeGroups(x2, 4);
    var x4 := ExchangeGroups(x3, 8);
    var x5 := ExchangeGroups(x4, 16);
    ExchangeDoublesMirror(x, x, 1);
    ExchangeDoublesMirror(x1, x, 2);
    ExchangeDoublesMirror(x2, x, 4);
    ExchangeDoublesMirror(x3, x, 8);
    ExchangeDoublesMirror(x4, x, 16);
    RotationMirrors(x5, x, t);
  }

  lemma RotationMirrors(y: Word, x: Word, t: nat)
    requires MirroredInGroups(y, x, 32) && t < 64
    ensures RotateLeft32(y)[t] == x[63 - t]
  {
    var s := if t < 32 then t + 32 else t - 32;
    assert RotateLeft32(y)[t] == y[s];
    assert Mirror(s, 32) == 63 - t;
  }

  lemma Rev64Involution(x: Word)
    ensures Rev64(Rev64(x)) == x
  {
    forall t: nat | t < 64 ensures Rev64(Rev64(x))[t] == x[t] {
      Rev64Reverses(Rev64(x), t);
      Rev64Reverses(x, 63 - t);
    }
  }

  // ---- the funnel -----------------------------------------------------------

  /** The 64 bits that start `off` bits into the pair `(lo, hi)`. */
  function FunnelRead(lo: Word, hi: Word, off: nat): Word
    requires 0 < off < 64
  {
    Or(Shr(lo, off), Shl(hi, 64 - off))
  }

  /** `(lo, hi)` with the window `FunnelRead` reads overwritten by `x`. */
  function FunnelWrite(lo: Word, hi: Word, off: nat, x: Word): (Word, Word)
    requires 0 < off < 64
  {
    (Or(And(lo, LowMask(off)), Shl(x, off)), Or(And(hi, Not(LowMask(off))), Shr(x, 64 - off)))
  }

  lemma FunnelReadBit(lo: Word, hi: Word, off: nat, t: nat)
    requires 0 < off < 64 && t < 64
    ensures FunnelRead(lo, hi, off)[t] == if t + off < 64 then lo[t + off] else hi[t + off - 64]
  {
    assert Shr(lo, off)[t] == (t + off < 64 && lo[t + off]);
    assert Shl(hi, 64 - off)[t] == (64 - off <= t && hi[t - (64 - off)]);
  }

  lemma FunnelWriteBit(lo: Word, hi: Word, off: nat, x: Word, t: nat)
    requires 0 < off < 64 && t < 64
    ensures FunnelWrite(lo, hi, off, x).0[t] == if t < off then lo[t] else x[t - off]
    ensures FunnelWrite(lo, hi, off, x).1[t] == if t < off then x[t + 64 - off] else hi[t]
  {
    assert And(lo, LowMask(off))[t] == (lo[t] && t < off);
    assert And(hi, Not(LowMask(off)))[t] == (hi[t] && t >= off);
    assert Shl(x, off)[t] == (off <= t && x[t - off]);
    assert Shr(x, 64 - off)[t] == (t + 64 - off < 64 && x[t + 64 - off]);
  }

  /** Masked exchange of a window with a reversed word: where the mask is set the
      two trade bits, elsewhere both keep theirs. */
  function MaskedExchange(x: Word, j: Word, m: Word): (Word, Word)
  {
    var t := And(Xor(x, Rev64(j)), m);
    (Xor(x, t), Xor(j, Rev64(t)))
  }

  lemma MaskedExchangeBit(x: Word, j: Word, m: Word, t: nat)
    requires t < 64
    ensures MaskedExchange(x, j, m).0[t] == if m[t] then j[63 - t] else x[t]
    ensures MaskedExchange(x, j, m).1[63 - t] == if m[t] then x[t] else j[63 - t]
  {
    var d := And(Xor(x, Rev64(j)), m);
    Rev64Reverses(j, t);
    Rev64Reverses(d, 63 - t);
    assert d[t] == (m[t] && x[t] != j[63 - t]);
    assert Xor(x, d)[t] == (x[t] != d[t]);
    assert Xor(j, Rev64(d))[63 - t] == (j[63 - t] != Rev64(d)[63 - t]);
  }
}
