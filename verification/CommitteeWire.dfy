/** The flat words a committee witness travels in, and which words the guest reads as one. */
module CommitteeWire {
  import opened Wrappers
  import opened Bytes

  const W64: nat := 0x1_0000_0000_0000_0000
  const W62: nat := 0x4000_0000_0000_0000
  const HEADER_WORDS: nat := 12
  const MEMBER_WORDS: nat := 15
  const DIGEST_WORDS: nat := 4

  type Digest4 = d: seq<U64> | |d| == 4 witness seq(4, _ => 0)
  type Point12 = p: seq<U64> | |p| == 12 witness seq(12, _ => 0)

  datatype Member = Member(index: U64, pubkey: Point12, balance: U64, slot: U64)

  datatype Witness = Witness(
    commitment: Digest4, root: Digest4, epoch: U64, total: U64, members: seq<Member>, aux: seq<Digest4>)

  /** The whole array is addressable. */
  predicate Fits(w: Witness) { HEADER_WORDS + MEMBER_WORDS * |w.members| + DIGEST_WORDS * |w.aux| < W64 }

  function MemberWords(m: Member): (r: seq<U64>)
    ensures |r| == MEMBER_WORDS
  {
    [m.index] + m.pubkey + [m.balance, m.slot]
  }

  function MembersWords(ms: seq<Member>): (r: seq<U64>)
    ensures |r| == MEMBER_WORDS * |ms|
  {
    if ms == [] then [] else MemberWords(ms[0]) + MembersWords(ms[1..])
  }

  function DigestsWords(ds: seq<Digest4>): (r: seq<U64>)
    ensures |r| == DIGEST_WORDS * |ds|
  {
    if ds == [] then [] else ds[0] + DigestsWords(ds[1..])
  }

  function Header(w: Witness): (r: seq<U64>)
    requires Fits(w)
    ensures |r| == HEADER_WORDS
  {
    w.commitment + w.root + [w.epoch, w.total, |w.members|, |w.aux|]
  }

  /** `encode` */
  function Encode(w: Witness): seq<U64>
    requires Fits(w)
  {
    Header(w) + (MembersWords(w.members) + DigestsWords(w.aux))
  }

  method EncodeWords(w: Witness) returns (words: seq<U64>)
    requires Fits(w)
    ensures words == Encode(w)
  {
    words := w.commitment + w.root + [w.epoch, w.total, |w.members|, |w.aux|];
    for i := 0 to |w.members|
      invariant words == Header(w) + MembersWords(w.members[..i])
    {
      MembersStep(w.members, i);
      words := words + MemberWords(w.members[i]);
    }
    assert w.members[..|w.members|] == w.members;
    ghost var start := words;
    for i := 0 to |w.aux|
      invariant words == start + DigestsWords(w.aux[..i])
    {
      DigestsStep(w.aux, i);
      words := words + w.aux[i];
    }
    assert w.aux[..|w.aux|] == w.aux;
  }

  lemma {:induction false} MembersStep(ms: seq<Member>, n: nat)
    requires n < |ms|
    ensures MembersWords(ms[..n + 1]) == MembersWords(ms[..n]) + MemberWords(ms[n])
  {
    if n > 0 {
      MembersStep(ms[1..], n - 1);
      assert ms[..n + 1][1..] == ms[1..][..n] && ms[..n][1..] == ms[1..][..n - 1];
    } else {
      assert ms[..1] == [ms[0]] && ms[..1][1..] == [];
    }
  }

  lemma {:induction false} DigestsStep(ds: seq<Digest4>, n: nat)
    requires n < |ds|
    ensures DigestsWords(ds[..n + 1]) == DigestsWords(ds[..n]) + ds[n]
  {
    if n > 0 {
      DigestsStep(ds[1..], n - 1);
      assert ds[..n + 1][1..] == ds[1..][..n] && ds[..n][1..] == ds[1..][..n - 1];
    } else {
      assert ds[..1] == [ds[0]] && ds[..1][1..] == [];
    }
  }

  // ---- reading -----------------------------------------------------------------------

  function MemberAt(r: seq<U64>): Member
    requires |r| == MEMBER_WORDS
  {
    Member(r[0], r[1..13], r[13], r[14])
  }

  /** `records`: a run of words as the fixed-stride members it holds. */
  function MembersAt(words: seq<U64>): (ms: seq<Member>)
    requires |words| % 15 == 0
    ensures 15 * |ms| == |words|
  {
    if words == [] then [] else [MemberAt(words[..15])] + MembersAt(words[15..])
  }

  function DigestsAt(words: seq<U64>): (ds: seq<Digest4>)
    requires |words| % 4 == 0
    ensures 4 * |ds| == |words|
  {
    if words == [] then [] else [words[..4]] + DigestsAt(words[4..])
  }

  /** The length the header names, in the machine's own wrapping arithmetic. */
  function MembersEnd(words: seq<U64>): nat
    requires |words| >= HEADER_WORDS
  {
    (HEADER_WORDS + words[10] * MEMBER_WORDS) % W64
  }

  function NamedLength(words: seq<U64>): nat
    requires |words| >= HEADER_WORDS
  {
    (MembersEnd(words) + words[11] * DIGEST_WORDS) % W64
  }

  /** What `verify` reads out of the array before it checks anything cryptographic. */
  function Parse(words: seq<U64>): Option<Witness> {
    if |words| < HEADER_WORDS || |words| != NamedLength(words) then None
    else
      var end := MembersEnd(words);
      if end < HEADER_WORDS || end > |words| || (end - HEADER_WORDS) % 15 != 0 || (|words| - end) % 4 != 0 then None
      else
        Some(Witness(words[..4], words[4..8], words[8], words[9],
                     MembersAt(words[HEADER_WORDS..end]), DigestsAt(words[end..])))
  }

  lemma {:induction false} MembersInvert(ms: seq<Member>)
    ensures MembersAt(MembersWords(ms)) == ms
  {
    if ms != [] {
      var words := MembersWords(ms);
      assert words[..15] == MemberWords(ms[0]) && words[15..] == MembersWords(ms[1..]);
      assert MemberWords(ms[0])[1..13] == ms[0].pubkey;
      MembersInvert(ms[1..]);
    }
  }

  lemma {:induction false} DigestsInvert(ds: seq<Digest4>)
    ensures DigestsAt(DigestsWords(ds)) == ds
  {
    if ds != [] {
      var words := DigestsWords(ds);
      assert words[..4] == ds[0] && words[4..] == DigestsWords(ds[1..]);
      DigestsInvert(ds[1..]);
    }
  }

  lemma {:induction false} MembersJoin(words: seq<U64>)
    requires |words| % 15 == 0
    ensures MembersWords(MembersAt(words)) == words
  {
    if words != [] {
      var first := words[..15];
      assert MemberWords(MemberAt(first)) == first;
      MembersJoin(words[15..]);
      assert words == words[..15] + words[15..];
      var ms := MembersAt(words);
      assert ms[0] == MemberAt(first) && ms[1..] == MembersAt(words[15..]);
    }
  }

  lemma {:induction false} DigestsJoin(words: seq<U64>)
    requires |words| % 4 == 0
    ensures DigestsWords(DigestsAt(words)) == words
  {
    if words != [] {
      DigestsJoin(words[4..]);
      assert words == words[..4] + words[4..];
      var ds := DigestsAt(words);
      assert ds[0] == words[..4] && ds[1..] == DigestsAt(words[4..]);
    }
  }

  /** The parts of a witness, found where the header says they are. */
  ghost predicate Holds(words: seq<U64>, w: Witness) {
    && |words| == HEADER_WORDS + MEMBER_WORDS * |w.members| + DIGEST_WORDS * |w.aux| < W64
    && words[..4] == w.commitment && words[4..8] == w.root && words[8] == w.epoch && words[9] == w.total
    && words[10] == |w.members| && words[11] == |w.aux|
    && words[12..12 + MEMBER_WORDS * |w.members|] == MembersWords(w.members)
    && words[12 + MEMBER_WORDS * |w.members|..] == DigestsWords(w.aux)
  }

  lemma Slices<T>(a: seq<T>, b: seq<T>, c: seq<T>)
    ensures (a + (b + c))[|a|..|a| + |b|] == b && (a + (b + c))[|a| + |b|..] == c
  {
  }

  lemma EncodedHolds(w: Witness)
    requires Fits(w)
    ensures Holds(Encode(w), w)
  {
    Slices(Header(w), MembersWords(w.members), DigestsWords(w.aux));
  }

  lemma HeldIsParsed(words: seq<U64>, w: Witness)
    requires Holds(words, w)
    ensures Parse(words) == Some(w)
  {
    hide MembersAt, DigestsAt, MembersWords, DigestsWords;
    assert MembersEnd(words) == HEADER_WORDS + MEMBER_WORDS * |w.members|;
    MembersInvert(w.members);
    DigestsInvert(w.aux);
  }

  /** The guest reads back every witness the host lays out. */
  lemma ParseInvertsEncode(w: Witness)
    requires Fits(w)
    ensures Parse(Encode(w)) == Some(w)
  {
    EncodedHolds(w);
    HeldIsParsed(Encode(w), w);
  }

  /** Fifteen is odd, so a wrapped product names no second member count. */
  lemma MemberCountIsExact(count: nat, k: nat)
    requires count < W64 && k < W64 && (HEADER_WORDS + count * MEMBER_WORDS) % W64 == HEADER_WORDS + MEMBER_WORDS * k
    ensures count == k
  {
    var q := (HEADER_WORDS + count * MEMBER_WORDS) / W64;
    assert 15 * (count - k) == W64 * q;
    assert W64 == 15 * 0x1111_1111_1111_1111 + 1;
    assert q == 15 * (count - k - 0x1111_1111_1111_1111 * q);
  }

  /** Four is not: the auxiliary count is read modulo 2^62 only. */
  lemma AuxCountModulo(end: nat, count: nat, length: nat)
    requires end <= length < W64 && (end + count * DIGEST_WORDS) % W64 == length
    ensures length - end == 4 * (count % W62)
  {
    var q := (end + count * DIGEST_WORDS) / W64;
    assert end + 4 * count == W64 * q + length;
    assert length - end == 4 * (count - W62 * q);
    assert count == W62 * q + (length - end) / 4;
    assert 0 <= (length - end) / 4 < W62;
  }

  /**
   * What the guest reads as a witness is that witness's own layout, word for word, except that
   * the auxiliary count may be off by any multiple of 2^62: that product wraps.
   */
  lemma ParsedIsEncoded(words: seq<U64>)
    requires |words| < W64 && Parse(words).Some?
    ensures var w := Parse(words).value;
            Fits(w) && words[11] % W62 == |w.aux| && words == Encode(w)[11 := words[11]]
  {
    var w := Parse(words).value;
    var end := MembersEnd(words);
    MemberCountIsExact(words[10], |w.members|);
    AuxCountModulo(end, words[11], |words|);
    MembersJoin(words[HEADER_WORDS..end]);
    DigestsJoin(words[end..]);
    SameHeader(words, w);
    CutInThree(words, 12, end);
    UpdateFront(Header(w), MembersWords(w.members) + DigestsWords(w.aux), 11, words[11]);
  }

  lemma CutInThree<T>(w: seq<T>, a: nat, b: nat)
    requires a <= b <= |w|
    ensures w == w[..a] + (w[a..b] + w[b..])
  {
  }

  lemma UpdateFront<T>(a: seq<T>, rest: seq<T>, k: nat, x: T)
    requires k < |a|
    ensures (a + rest)[k := x] == a[k := x] + rest
  {
  }

  lemma SameHeader(words: seq<U64>, w: Witness)
    requires |words| >= 12 && Fits(w) && words[10] == |w.members|
    requires words[..4] == w.commitment && words[4..8] == w.root && words[8] == w.epoch && words[9] == w.total
    ensures words[..12] == Header(w)[11 := words[11]]
  {
    assert words[..12] == words[..4] + words[4..8] + [words[8], words[9], words[10], words[11]];
  }

  /** The wrapped count is really accepted: an empty witness that names 2^62 auxiliaries. */
  lemma WrappedCountIsRead(w: Witness)
    requires w.members == [] && w.aux == []
    ensures Parse(Encode(w)[11 := W62]) == Some(w)
  {
    var words := Encode(w)[11 := W62];
    assert words[10] == 0 && words[11] == W62 && |words| == 12;
    assert words[..4] == w.commitment && words[4..8] == w.root && words[8] == w.epoch && words[9] == w.total;
    assert words[12..12] == [] && words[12..] == [];
  }

  lemma RecountedIsParsed(words: seq<U64>, w: Witness, count: U64)
    requires Fits(w) && count % W62 == |w.aux| && words == Encode(w)[11 := count]
    ensures Parse(words) == Some(w)
  {
    hide MembersAt, DigestsAt, MembersWords, DigestsWords;
    var end := HEADER_WORDS + MEMBER_WORDS * |w.members|;
    var e := Encode(w);
    Slices(Header(w), MembersWords(w.members), DigestsWords(w.aux));
    assert words[10] == |w.members| && words[11] == count;
    assert MembersEnd(words) == end;
    CountWraps(end, count, |w.aux|);
    assert words[..4] == w.commitment && words[4..8] == w.root && words[8] == w.epoch && words[9] == w.total;
    assert words[12..end] == e[12..end] && words[end..] == e[end..];
    MembersInvert(w.members);
    DigestsInvert(w.aux);
  }

  lemma CountWraps(end: nat, count: nat, held: nat)
    requires count % W62 == held && end + 4 * held < W64
    ensures (end + count * DIGEST_WORDS) % W64 == end + 4 * held
  {
    assert end + count * 4 == W64 * (count / W62) + (end + 4 * held);
  }

  /** Parsing, exactly: words are read as a witness if and only if they are its own layout, with any
      auxiliary count that is the real one modulo 2^62. */
  lemma ParseIsExact(words: seq<U64>, w: Witness)
    requires |words| < W64
    ensures Parse(words) == Some(w)
       <==> Fits(w) && exists count: U64 :: count % W62 == |w.aux| && words == Encode(w)[11 := count]
  {
    hide Parse;
    if Parse(words) == Some(w) {
      ParsedIsEncoded(words);
      assert words[11] % W62 == |w.aux|;
    }
    if Fits(w) {
      if count: U64 :| count % W62 == |w.aux| && words == Encode(w)[11 := count] {
        RecountedIsParsed(words, w, count);
      }
    }
  }
}
