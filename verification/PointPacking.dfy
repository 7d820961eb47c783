/** Hash preimages of the accumulator: a point's 768 bits repacked into 13 field elements. */
module PointPacking {
  import opened Words

  type Point = p: seq<Word> | |p| == 12 witness seq(12, _ => seq(64, _ => false))
  type State = s: seq<Word> | |s| == 16 witness seq(16, _ => seq(64, _ => false))
  type Quad = d: seq<Word> | |d| == 4 witness seq(4, _ => seq(64, _ => false))

  /** Sixty bits from bit `offset` of a limb on, spilling into the next limb if there is one. */
  function Cut(point: Point, limb: nat, offset: nat): Word
    requires limb < 12 && offset < 64
  {
    var v := Shr(point[limb], offset);
    And(if offset + 60 > 64 && limb + 1 < 12 then Or(v, Shl(point[limb + 1], 64 - offset)) else v, LowMask(60))
  }

  /** The window that starts at bit 60 * i. */
  function Window(point: Point, i: nat): Word
    requires i < 13
  {
    var bit := i * 60;
    Cut(point, bit / 64, bit % 64)
  }

  /** Bit k of the point read as one 768-bit integer. */
  function BitOf(point: Point, k: nat): bool {
    k < 768 && point[k / 64][k % 64]
  }

  lemma CutBit(point: Point, limb: nat, offset: nat, b: nat)
    requires limb < 12 && offset < 64 && b < 64
    ensures Cut(point, limb, offset)[b] == (b < 60 && BitOf(point, 64 * limb + offset + b))
  {
    assert LowMask(60)[b] == (b < 60);
    if b < 60 {
      SplitIndex(limb, offset, b);
      assert Shr(point[limb], offset)[b] == (b + offset < 64 && point[limb][b + offset]);
      if offset + 60 > 64 && limb + 1 < 12 {
        assert Shl(point[limb + 1], 64 - offset)[b] == (64 - offset <= b && point[limb + 1][b - (64 - offset)]);
      }
    }
  }

  lemma WindowBit(point: Point, i: nat, b: nat)
    requires i < 13 && b < 64
    ensures Window(point, i)[b] == (b < 60 && BitOf(point, 60 * i + b))
  {
    hide BitOf, Cut;
    var bit := i * 60;
    assert bit / 64 < 12 && 64 * (bit / 64) + bit % 64 == bit;
    CutBit(point, bit / 64, bit % 64, b);
  }

  lemma SplitIndex(limb: nat, offset: nat, b: nat)
    requires offset < 64 && b < 64
    ensures offset + b < 64 ==> (64 * limb + offset + b) / 64 == limb && (64 * limb + offset + b) % 64 == offset + b
    ensures offset + b >= 64 ==>
              (64 * limb + offset + b) / 64 == limb + 1 && (64 * limb + offset + b) % 64 == offset + b - 64
  {
  }

  /** `pack_point` */
  method PackPoint(point: Point) returns (out: seq<Word>)
    ensures |out| == 13 && forall i :: 0 <= i < 13 ==> out[i] == Window(point, i)
  {
    out := seq(13, _ => ZERO);
    for i := 0 to 13
      invariant |out| == 13 && forall j :: 0 <= j < i ==> out[j] == Window(point, j)
    {
      out := out[i := Window(point, i)];
    }
  }

  function Packed(point: Point): (out: seq<Word>)
    ensures |out| == 13
  {
    seq(13, (i: nat) requires i < 13 => Window(point, i))
  }

  // ---- the same integer ------------------------------------------------------

  ghost function Num(bits: seq<bool>): nat {
    if bits == [] then 0 else (if bits[0] then 1 else 0) + 2 * Num(bits[1..])
  }

  ghost function Pow2(k: nat): (p: nat) ensures p > 0 { if k == 0 then 1 else 2 * Pow2(k - 1) }

  lemma {:induction false} NumBound(bits: seq<bool>)
    ensures Num(bits) < Pow2(|bits|)
  {
    if bits != [] { NumBound(bits[1..]); }
  }

  lemma Doubled(p: nat, n: nat)
    ensures 2 * (p * n) == (2 * p) * n
  {
  }

  /** A number whose bits from w up are clear is below 2^w. */
  lemma HighBitsClear(bits: seq<bool>, w: nat)
    requires w <= |bits| && forall k :: w <= k < |bits| ==> !bits[k]
    ensures Num(bits) < Pow2(w)
  {
    assert bits == bits[..w] + bits[w..];
    NumConcat(bits[..w], bits[w..]);
    NumZeros(bits[w..]);
    NumBound(bits[..w]);
  }

  lemma {:induction false} NumConcat(a: seq<bool>, b: seq<bool>)
    ensures Num(a + b) == Num(a) + Pow2(|a|) * Num(b)
  {
    if a == [] {
      assert a + b == b;
    } else {
      assert (a + b)[0] == a[0] && (a + b)[1..] == a[1..] + b;
      NumConcat(a[1..], b);
      Doubled(Pow2(|a| - 1), Num(b));
    }
  }

  lemma {:induction false} NumZeros(bits: seq<bool>)
    requires forall k :: 0 <= k < |bits| ==> !bits[k]
    ensures Num(bits) == 0
  {
    if bits != [] { NumZeros(bits[1..]); }
  }

  /** Words read as digits of base 2^w, least significant first. */
  ghost function Radix(words: seq<Word>, w: nat): nat
    requires w <= 64
  {
    if words == [] then 0 else Num(words[0][..w]) + Pow2(w) * Radix(words[1..], w)
  }

  ghost function Flat(words: seq<Word>, w: nat): seq<bool>
    requires w <= 64
  {
    if words == [] then [] else words[0][..w] + Flat(words[1..], w)
  }

  lemma {:induction false} RadixIsFlat(words: seq<Word>, w: nat)
    requires w <= 64
    ensures Radix(words, w) == Num(Flat(words, w))
  {
    if words != [] {
      RadixIsFlat(words[1..], w);
      NumConcat(words[0][..w], Flat(words[1..], w));
    }
  }

  lemma {:induction false} FlatLength(words: seq<Word>, w: nat)
    requires w <= 64
    ensures |Flat(words, w)| == w * |words|
  {
    if words != [] {
      FlatLength(words[1..], w);
      assert w * |words| == w + w * (|words| - 1);
    }
  }

  lemma {:induction false} FlatAt(words: seq<Word>, w: nat, i: nat, b: nat)
    requires w <= 64 && i < |words| && b < w
    ensures w * i + b < |Flat(words, w)| && Flat(words, w)[w * i + b] == words[i][b]
  {
    if i > 0 {
      FlatAt(words[1..], w, i - 1, b);
      assert w * i == w + w * (i - 1);
    }
  }

  lemma PackKeepsBits(point: Point)
    ensures Flat(Packed(point), 60) == Flat(point, 64) + seq(12, _ => false)
  {
    hide Flat, Window;
    var out, bits := Packed(point), Flat(point, 64);
    FlatLength(out, 60);
    FlatLength(point, 64);
    forall k: nat | k < 780
      ensures Flat(out, 60)[k] == (bits + seq(12, _ => false))[k]
    {
      FlatAt(out, 60, k / 60, k % 60);
      WindowBit(point, k / 60, k % 60);
      if k < 768 { FlatAt(point, 64, k / 64, k % 64); }
    }
  }

  /** The windows are the same 768-bit integer in base 2^60, each digit below the field's modulus. */
  lemma PackKeepsInteger(point: Point)
    ensures Radix(Packed(point), 60) == Radix(point, 64)
    ensures forall i :: 0 <= i < 13 ==> Num(Packed(point)[i]) < Pow2(60)
  {
    PackKeepsBits(point);
    RadixIsFlat(Packed(point), 60);
    RadixIsFlat(point, 64);
    NumConcat(Flat(point, 64), seq(12, _ => false));
    NumZeros(seq(12, _ => false));
    forall i | 0 <= i < 13 ensures Num(Packed(point)[i]) < Pow2(60) {
      WindowIsSmall(point, i);
    }
  }

  lemma WindowIsSmall(point: Point, i: nat)
    requires i < 13
    ensures Num(Window(point, i)) < Pow2(60)
  {
    forall b | 60 <= b < 64 ensures !Window(point, i)[b] { WindowBit(point, i, b); }
    HighBitsClear(Window(point, i), 60);
  }

  /** Every bit of every limb is read back from one window. */
  lemma BitReadBack(p: Point, l: nat, b: nat, i: nat, c: nat)
    requires l < 12 && b < 64 && i < 13 && c < 60 && 60 * i + c == 64 * l + b
    ensures p[l][b] == Window(p, i)[c]
  {
    hide Window;
    WindowBit(p, i, c);
    SplitIndex(l, 0, b);
  }

  /** Nothing is lost: two points that pack alike are one point. */
  lemma PackIsInjective(p: Point, q: Point)
    requires forall i :: 0 <= i < 13 ==> Window(p, i) == Window(q, i)
    ensures p == q
  {
    forall l, b | 0 <= l < 12 && 0 <= b < 64 ensures p[l][b] == q[l][b] {
      var k := 64 * l + b;
      BitReadBack(p, l, b, k / 60, k % 60);
      BitReadBack(q, l, b, k / 60, k % 60);
    }
    forall l | 0 <= l < 12 ensures p[l] == q[l] {
      assert forall b :: 0 <= b < 64 ==> p[l][b] == q[l][b];
    }
  }

  // ---- the hash states ---------------------------------------------------------

  function Small(n: nat): Word { seq(64, (t: nat) requires t < 64 => t < 3 && Digit(n, t)) }

  function Digit(n: nat, t: nat): bool { (if t == 0 then n else if t == 1 then n / 2 else n / 4) % 2 == 1 }

  const DOMAIN_NODE: nat := 0
  const DOMAIN_LEAF: nat := 1
  const DOMAIN_COMMITMENT: nat := 2

  function Low(balance: Word): Word { And(balance, LowMask(32)) }
  function High(balance: Word): Word { Shr(balance, 32) }

  /** The state `acc::leaf` permutes. */
  function LeafState(point: Point, balance: Word): State {
    Packed(point) + [Low(balance), High(balance), Small(DOMAIN_LEAF)]
  }

  /** The state `acc::compress` permutes. */
  function NodeState(left: Quad, right: Quad): State {
    left + right + seq(7, _ => ZERO) + [Small(DOMAIN_NODE)]
  }

  /** The state `acc::commitment` permutes. */
  function CommitmentState(root: Quad, total: Word): State {
    root + [Low(total), High(total)] + seq(9, _ => ZERO) + [Small(DOMAIN_COMMITMENT)]
  }

  lemma HalvesBind(a: Word, b: Word)
    requires Low(a) == Low(b) && High(a) == High(b)
    ensures a == b
  {
    forall t: nat | t < 64 ensures a[t] == b[t] {
      if t < 32 {
        assert Low(a)[t] == a[t] && Low(b)[t] == b[t];
      } else {
        assert High(a)[t - 32] == a[t] && High(b)[t - 32] == b[t];
      }
    }
  }

  /** Equal leaf preimages come from one point and one balance. */
  lemma LeafStateBinds(p: Point, a: Word, q: Point, b: Word)
    requires LeafState(p, a) == LeafState(q, b)
    ensures p == q && a == b
  {
    forall i | 0 <= i < 13 ensures Window(p, i) == Window(q, i) {
      assert LeafState(p, a)[i] == Window(p, i) && LeafState(q, b)[i] == Window(q, i);
    }
    PackIsInjective(p, q);
    assert LeafState(p, a)[13] == Low(a) && LeafState(q, b)[13] == Low(b);
    assert LeafState(p, a)[14] == High(a) && LeafState(q, b)[14] == High(b);
    HalvesBind(a, b);
  }

  lemma CommitmentStateBinds(p: Quad, a: Word, q: Quad, b: Word)
    requires CommitmentState(p, a) == CommitmentState(q, b)
    ensures p == q && a == b
  {
    assert CommitmentState(p, a)[..4] == p && CommitmentState(q, b)[..4] == q;
    assert CommitmentState(p, a)[4] == Low(a) && CommitmentState(q, b)[4] == Low(b);
    assert CommitmentState(p, a)[5] == High(a) && CommitmentState(q, b)[5] == High(b);
    HalvesBind(a, b);
  }

  lemma NodeStateBinds(l: Quad, r: Quad, l': Quad, r': Quad)
    requires NodeState(l, r) == NodeState(l', r')
    ensures l == l' && r == r'
  {
    assert NodeState(l, r)[..4] == l && NodeState(l', r')[..4] == l';
    assert NodeState(l, r)[4..8] == r && NodeState(l', r')[4..8] == r';
  }

  /** The last element keeps the three kinds of preimage apart. */
  lemma DomainsApart(p: Point, a: Word, l: Quad, r: Quad, root: Quad, total: Word)
    ensures LeafState(p, a) != NodeState(l, r)
    ensures LeafState(p, a) != CommitmentState(root, total)
    ensures NodeState(l, r) != CommitmentState(root, total)
  {
    assert LeafState(p, a)[15] == Small(1) && NodeState(l, r)[15] == Small(0);
    assert CommitmentState(root, total)[15] == Small(2);
    assert Small(1)[0] && !Small(0)[0] && !Small(2)[0] && Small(2)[1] && !Small(0)[1];
  }

  /** The state with its first `i` windows written. */
  ghost function Written(point: Point, i: nat): State
    requires i <= 13
  {
    Packed(point)[..i] + seq(16 - i, _ => ZERO)
  }

  lemma WrittenStep(point: Point, i: nat)
    requires i < 13
    ensures Written(point, i)[i := Window(point, i)] == Written(point, i + 1)
  {
    assert Packed(point)[i] == Window(point, i);
  }

  lemma WrittenEnds(point: Point, balance: Word)
    ensures Written(point, 13)[13 := Low(balance)][14 := High(balance)][15 := Small(DOMAIN_LEAF)] == LeafState(point, balance)
  {
  }

  method SetWord(st: array<Word>, i: nat, word: Word)
    requires i < st.Length
    modifies st
    ensures st[..] == old(st[..])[i := word]
  {
    st[i] := word;
  }

  /** `leaf_in_place`: the windows written straight into the state fill the same sixteen words. */
  method LeafInPlace(st: array<Word>, point: Point, balance: Word)
    requires st.Length == 16 && st[..] == seq(16, _ => ZERO)
    modifies st
    ensures st[..] == LeafState(point, balance)
  {
    for i := 0 to 13
      invariant st[..] == Written(point, i)
    {
      SetWord(st, i, Window(point, i));
      WrittenStep(point, i);
    }
    SetWord(st, 13, Low(balance));
    SetWord(st, 14, High(balance));
    SetWord(st, 15, Small(DOMAIN_LEAF));
    WrittenEnds(point, balance);
  }
}
