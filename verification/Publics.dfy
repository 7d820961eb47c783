/** The bytes a proof commits to, the words they travel in, and how a parent reads a child. */
module Publics {
  import opened Wrappers
  import opened Bytes

  const MAX_PUBLIC_BYTES: nat := 256
  const ZISK_PUBLICS: nat := 64
  const VADCOP_FINAL_VK: seq<U64> := [6218392583875695404, 9353885302538021251, 8280779842059074605, 10684020678174455855]

  type Root32 = b: seq<Byte> | |b| == 32 witness seq(32, _ => 0)
  type Words4 = d: seq<U64> | |d| == 4 witness seq(4, _ => 0)

  /** One field of a proof's outputs; digests and program keys are four words. */
  datatype Field = Num(n: U64) | Root(b: Root32) | Words(d: Words4)

  datatype Kind = KNum | KRoot | KWords

  function KindOf(f: Field): Kind { match f case Num(_) => KNum case Root(_) => KRoot case Words(_) => KWords }

  function Width(k: Kind): nat { if k == KNum then 8 else 32 }

  function WordBytes(words: seq<U64>): (b: seq<Byte>)
    ensures |b| == 8 * |words|
  {
    if words == [] then [] else LeBytes(words[0], 8) + WordBytes(words[1..])
  }

  function FieldBytes(f: Field): (b: seq<Byte>)
    ensures |b| == Width(KindOf(f))
  {
    match f case Num(n) => LeBytes(n, 8) case Root(b) => b case Words(d) => WordBytes(d)
  }

  function Encode(fields: seq<Field>): seq<Byte> {
    if fields == [] then [] else FieldBytes(fields[0]) + Encode(fields[1..])
  }

  function Kinds(fields: seq<Field>): (k: seq<Kind>)
    ensures |k| == |fields|
  {
    if fields == [] then [] else [KindOf(fields[0])] + Kinds(fields[1..])
  }

  function Size(layout: seq<Kind>): nat { if layout == [] then 0 else Width(layout[0]) + Size(layout[1..]) }

  // The order in which each output's fields are written.
  const SLOT: seq<Kind> := [KWords, KWords, KNum, KRoot, KNum, KRoot, KNum, KNum]
  const COMMITTEE: seq<Kind> := [KWords, KNum, KWords]
  const EPOCH_DIFF: seq<Kind> := [KWords, KRoot, KNum, KWords, KWords, KNum, KRoot, KNum]
  const JUSTIFICATION: seq<Kind> := [KWords, KWords, KNum, KRoot, KNum, KRoot, KNum, KNum, KNum, KWords]
  const FINALIZATION: seq<Kind> := [KWords, KWords, KNum, KRoot, KRoot]
  const GROUP: seq<Kind> := [KWords, KWords, KNum, KRoot, KNum, KRoot, KNum, KNum, KWords]
  const AGGREGATE: seq<Kind> := [KWords, KWords, KWords, KRoot, KNum, KRoot, KNum, KNum, KWords, KWords]
  const STREAM_FINAL: seq<Kind> := [KWords, KWords, KNum, KRoot, KRoot, KNum, KRoot, KWords]

  lemma {:induction false} EncodeLength(fields: seq<Field>)
    ensures |Encode(fields)| == Size(Kinds(fields))
  {
    if fields != [] { EncodeLength(fields[1..]); }
  }

  lemma {:induction false} WordBytesInjective(a: seq<U64>, b: seq<U64>)
    requires |a| == |b| && WordBytes(a) == WordBytes(b)
    ensures a == b
  {
    if a != [] {
      FrontsAgree(LeBytes(a[0], 8), WordBytes(a[1..]), LeBytes(b[0], 8), WordBytes(b[1..]));
      U64Inverts(a[0]);
      U64Inverts(b[0]);
      WordBytesInjective(a[1..], b[1..]);
    }
  }

  lemma FrontsAgree<T>(a: seq<T>, b: seq<T>, c: seq<T>, d: seq<T>)
    requires a + b == c + d && |a| == |c|
    ensures a == c && b == d
  {
    assert (a + b)[..|a|] == a && (c + d)[..|a|] == c;
    assert (a + b)[|a|..] == b && (c + d)[|a|..] == d;
  }

  lemma Reassociated<T>(a: seq<T>, b: seq<T>, c: seq<T>)
    ensures a + b + c == a + (b + c)
  {
  }

  lemma FieldBytesInjective(f: Field, g: Field)
    requires KindOf(f) == KindOf(g) && FieldBytes(f) == FieldBytes(g)
    ensures f == g
  {
    match f
    case Num(n) => U64Inverts(n); U64Inverts(g.n);
    case Root(_) =>
    case Words(d) => WordBytesInjective(d, g.d);
  }

  /** Outputs of one layout are told apart by their bytes, even behind different tails. */
  lemma {:induction false} EncodeInjective(f: seq<Field>, g: seq<Field>, s: seq<Byte>, t: seq<Byte>)
    requires Kinds(f) == Kinds(g) && Encode(f) + s == Encode(g) + t
    ensures f == g && s == t
  {
    if f == [] {
      assert g == [];
      assert Encode(f) + s == s && Encode(g) + t == t;
    } else {
      assert Kinds(f)[0] == Kinds(g)[0] && Kinds(f)[1..] == Kinds(g)[1..];
      Reassociated(FieldBytes(f[0]), Encode(f[1..]), s);
      Reassociated(FieldBytes(g[0]), Encode(g[1..]), t);
      FrontsAgree(FieldBytes(f[0]), Encode(f[1..]) + s, FieldBytes(g[0]), Encode(g[1..]) + t);
      FieldBytesInjective(f[0], g[0]);
      EncodeInjective(f[1..], g[1..], s, t);
    }
  }

  /** The size summed field by field from the left. */
  function Total(layout: seq<Kind>, n: nat): nat
    requires n <= |layout|
  {
    if n == 0 then 0 else Total(layout, n - 1) + Width(layout[n - 1])
  }

  lemma {:induction false} SizeIsTotal(layout: seq<Kind>, n: nat)
    requires n <= |layout|
    ensures Size(layout) == Total(layout, n) + Size(layout[n..])
  {
    if n == 0 {
      assert layout[0..] == layout;
    } else {
      SizeIsTotal(layout, n - 1);
      assert layout[n - 1..][1..] == layout[n..];
    }
  }

  lemma FoldTotals()
    ensures Total(AGGREGATE, 10) == 248
    ensures Total(JUSTIFICATION, 10) == 200
  {
    assert Total(AGGREGATE, 3) == 96 && Total(AGGREGATE, 6) == 168;
    assert Total(JUSTIFICATION, 3) == 72 && Total(JUSTIFICATION, 6) == 144;
  }

  lemma LinkTotals()
    ensures Total(GROUP, 9) == 192
    ensures Total(SLOT, 8) == 160
    ensures Total(STREAM_FINAL, 8) == 208
  {
    assert Total(GROUP, 3) == 72 && Total(GROUP, 6) == 144;
    assert Total(SLOT, 4) == 104 && Total(STREAM_FINAL, 4) == 104;
  }

  lemma OtherTotals()
    ensures Total(COMMITTEE, 3) == 72
    ensures Total(EPOCH_DIFF, 8) == 184
    ensures Total(FINALIZATION, 5) == 136
  {
  }

  lemma SizeOf(layout: seq<Kind>)
    ensures Size(layout) == Total(layout, |layout|)
  {
    SizeIsTotal(layout, |layout|);
  }

  /** Every output fits the 256 bytes a proof can commit to, the widest with eight to spare. */
  lemma LayoutsFit()
    ensures Size(SLOT) == 160 && Size(GROUP) == 192 && Size(STREAM_FINAL) == 208
    ensures Size(AGGREGATE) == 248 && Size(JUSTIFICATION) == 200
    ensures Size(COMMITTEE) == 72 && Size(EPOCH_DIFF) == 184 && Size(FINALIZATION) == 136
    ensures 248 <= MAX_PUBLIC_BYTES
  {
    LinkSizes();
    FoldSizes();
    OtherSizes();
  }

  lemma LinkSizes()
    ensures Size(SLOT) == 160 && Size(GROUP) == 192 && Size(STREAM_FINAL) == 208
  {
    hide Total, Size;
    LinkTotals();
    SizeOf(SLOT);
    SizeOf(GROUP);
    SizeOf(STREAM_FINAL);
  }

  lemma FoldSizes()
    ensures Size(AGGREGATE) == 248 && Size(JUSTIFICATION) == 200
  {
    hide Total, Size;
    FoldTotals();
    SizeOf(AGGREGATE);
    SizeOf(JUSTIFICATION);
  }

  lemma OtherSizes()
    ensures Size(COMMITTEE) == 72 && Size(EPOCH_DIFF) == 184 && Size(FINALIZATION) == 136
  {
    hide Total, Size;
    OtherTotals();
    SizeOf(COMMITTEE);
    SizeOf(EPOCH_DIFF);
    SizeOf(FINALIZATION);
  }

  // ---- writing -------------------------------------------------------------------

  /** Where a proof's outputs are appended field by field. */
  class PublicWriter {
    var bytes: seq<Byte>

    constructor ()
      ensures bytes == []
    {
      bytes := [];
    }

    method Put(field: Field)
      modifies this
      ensures bytes == old(bytes) + FieldBytes(field)
    {
      match field
      case Num(n) => bytes := bytes + LeBytes(n, 8);
      case Root(b) => bytes := bytes + b;
      case Words(d) =>
        ghost var before := bytes;
        for i := 0 to |d|
          invariant bytes == before + WordBytes(d[..i])
        {
          bytes := bytes + LeBytes(d[i], 8);
          WordBytesStep(before, d, i);
        }
        assert d[..|d|] == d;
    }

    /** Refuses outputs longer than a proof carries. */
    method Finish() returns (r: Option<seq<Byte>>)
      ensures r == if |bytes| <= MAX_PUBLIC_BYTES then Some(bytes) else None
    {
      if |bytes| > MAX_PUBLIC_BYTES { return None; }
      return Some(bytes);
    }
  }

  lemma {:induction false} WordBytesAppends(a: seq<U64>, w: U64)
    ensures WordBytes(a + [w]) == WordBytes(a) + LeBytes(w, 8)
  {
    if a == [] {
      assert (a + [w])[1..] == [];
    } else {
      assert (a + [w])[1..] == a[1..] + [w];
      WordBytesAppends(a[1..], w);
    }
  }

  lemma WordBytesStep(before: seq<Byte>, d: seq<U64>, i: nat)
    requires i < |d|
    ensures before + WordBytes(d[..i]) + LeBytes(d[i], 8) == before + WordBytes(d[..i + 1])
  {
    assert d[..i + 1] == d[..i] + [d[i]];
    WordBytesAppends(d[..i], d[i]);
  }

  lemma {:induction false} EncodeAppends(a: seq<Field>, f: Field)
    ensures Encode(a + [f]) == Encode(a) + FieldBytes(f)
  {
    if a == [] {
      assert (a + [f])[1..] == [];
    } else {
      assert (a + [f])[1..] == a[1..] + [f];
      EncodeAppends(a[1..], f);
    }
  }

  /** `public_bytes`: the fields in order, refused when they do not fit. */
  method PublicBytes(fields: seq<Field>) returns (r: Option<seq<Byte>>)
    ensures r == if Size(Kinds(fields)) <= MAX_PUBLIC_BYTES then Some(Encode(fields)) else None
  {
    var writer := new PublicWriter();
    for i := 0 to |fields|
      invariant writer.bytes == Encode(fields[..i])
    {
      writer.Put(fields[i]);
      assert fields[..i + 1] == fields[..i] + [fields[i]];
      EncodeAppends(fields[..i], fields[i]);
    }
    assert fields[..|fields|] == fields;
    EncodeLength(fields);
    r := writer.Finish();
  }

  // ---- reading a child -------------------------------------------------------------

  /** `is_uncompressed` */
  predicate IsUncompressed(proof: seq<U64>) { |proof| >= 75 && proof[0] == 0 }

  /** The committed public words, four bytes each; a wider word is refused. */
  function WordsAsBytes(words: seq<U64>): Option<seq<Byte>> {
    if words == [] then Some([])
    else if words[0] >= 0x1_0000_0000 then None
    else
      var rest := WordsAsBytes(words[1..]);
      if rest.None? then None else Some(LeBytes(words[0], 4) + rest.value)
  }

  lemma {:induction false} WordsAsBytesFails(words: seq<U64>, i: nat)
    requires i < |words| && words[i] >= 0x1_0000_0000
    ensures WordsAsBytes(words) == None
  {
    if i > 0 { WordsAsBytesFails(words[1..], i - 1); }
  }

  lemma {:induction false} WordsAsBytesAppends(a: seq<U64>, w: U64, bytes: seq<Byte>)
    requires WordsAsBytes(a) == Some(bytes) && w < 0x1_0000_0000
    ensures WordsAsBytes(a + [w]) == Some(bytes + LeBytes(w, 4))
  {
    if a == [] {
      assert a + [w] == [w] && [w][1..] == [];
      assert bytes == [] && bytes + LeBytes(w, 4) == LeBytes(w, 4) + [];
      assert WordsAsBytes([w]) == Some(LeBytes(w, 4) + []);
    } else {
      assert (a + [w])[1..] == a[1..] + [w];
      var rest := WordsAsBytes(a[1..]).value;
      WordsAsBytesAppends(a[1..], w, rest);
      Reassociated(LeBytes(a[0], 4), rest, LeBytes(w, 4));
    }
  }

  /** `child_public_bytes`, over the 64 public words of an uncompressed proof. */
  method ChildPublicBytes(proof: seq<U64>) returns (r: Option<seq<Byte>>)
    ensures r == if IsUncompressed(proof) then WordsAsBytes(proof[7..71]) else None
  {
    if !IsUncompressed(proof) { return None; }
    var out: seq<Byte> := [];
    for i := 0 to ZISK_PUBLICS
      invariant WordsAsBytes(proof[7..7 + i]) == Some(out)
    {
      var word := proof[7 + i];
      if word > 0xFFFF_FFFF {
        WordsAsBytesFails(proof[7..71], i);
        return None;
      }
      assert proof[7..7 + i + 1] == proof[7..7 + i] + [word];
      WordsAsBytesAppends(proof[7..7 + i], word, out);
      out := out + LeBytes(word, 4);
    }
    return Some(out);
  }

  /** Outputs followed by the zeros that fill the committed bytes. */
  function Padded(bytes: seq<Byte>): (p: seq<Byte>)
    requires |bytes| <= MAX_PUBLIC_BYTES
    ensures |p| == MAX_PUBLIC_BYTES
  {
    bytes + seq(MAX_PUBLIC_BYTES - |bytes|, _ => 0)
  }

  /** What a proof must carry to stand for a program's outputs. */
  predicate Carries(proof: seq<U64>, vk: seq<U64>, outputs: seq<Byte>)
    requires |outputs| <= MAX_PUBLIC_BYTES
  {
    && IsUncompressed(proof)
    && proof[|proof| - 4..] == VADCOP_FINAL_VK
    && proof[3..7] == vk
    && WordsAsBytes(proof[7..71]) == Some(Padded(outputs))
  }

  lemma {:induction false} WordsAsBytesLength(words: seq<U64>)
    requires WordsAsBytes(words).Some?
    ensures |WordsAsBytes(words).value| == 4 * |words|
  {
    if words != [] { WordsAsBytesLength(words[1..]); }
  }

  predicate PrefixAndZeros(publics: seq<Byte>, outputs: seq<Byte>)
    requires |publics| == MAX_PUBLIC_BYTES && |outputs| <= MAX_PUBLIC_BYTES
  {
    publics[..|outputs|] == outputs && forall k :: |outputs| <= k < |publics| ==> publics[k] == 0
  }

  lemma PaddedIsPrefix(outputs: seq<Byte>)
    requires |outputs| <= MAX_PUBLIC_BYTES
    ensures PrefixAndZeros(Padded(outputs), outputs)
  {
    assert Padded(outputs)[..|outputs|] == outputs;
  }

  lemma PrefixIsPadded(publics: seq<Byte>, outputs: seq<Byte>)
    requires |publics| == MAX_PUBLIC_BYTES && |outputs| <= MAX_PUBLIC_BYTES && PrefixAndZeros(publics, outputs)
    ensures publics == Padded(outputs)
  {
    assert publics == publics[..|outputs|] + publics[|outputs|..];
  }

  /** `verify_child` as a guest runs it; outputs past the capacity abort. */
  method VerifyChild(proof: seq<U64>, expectedVk: Words4, expected: seq<Byte>, starkHolds: bool)
    returns (r: Option<bool>)
    ensures proof == [] ==> r == Some(false)
    ensures proof != [] && |expected| > MAX_PUBLIC_BYTES ==> r == None
    ensures proof != [] && |expected| <= MAX_PUBLIC_BYTES ==> r == Some(Carries(proof, expectedVk, expected) && starkHolds)
  {
    if |proof| == 0 { return Some(false); }
    if |expected| > MAX_PUBLIC_BYTES { return None; }
    if !IsUncompressed(proof) || proof[|proof| - 4..] != VADCOP_FINAL_VK { return Some(false); }
    if proof[3..7] != expectedVk { return Some(false); }
    var publics := ChildPublicBytes(proof);
    if publics.None? { return Some(false); }
    WordsAsBytesLength(proof[7..71]);
    PaddedIsPrefix(expected);
    if publics.value[..|expected|] != expected { return Some(false); }
    for k := |expected| to |publics.value|
      invariant forall j :: |expected| <= j < k ==> publics.value[j] == 0
    {
      if publics.value[k] != 0 { return Some(false); }
    }
    PrefixIsPadded(publics.value, expected);
    return Some(starkHolds);
  }

  /** The prefix-and-zero-tail comparison binds one program and one output. The program key in a
      proof fixes the layout its outputs are written in, so nothing is asked of two outputs but
      that each has the layout of the program it is checked against. */
  lemma ChildBindsOutput(proof: seq<U64>, layoutOf: seq<U64> -> seq<Kind>, vk: seq<U64>, f: seq<Field>,
                         vk': seq<U64>, g: seq<Field>)
    requires Kinds(f) == layoutOf(vk) && Kinds(g) == layoutOf(vk')
    requires |Encode(f)| <= MAX_PUBLIC_BYTES && Carries(proof, vk, Encode(f))
    requires |Encode(g)| <= MAX_PUBLIC_BYTES && Carries(proof, vk', Encode(g))
    ensures vk == vk' && f == g
  {
    EncodeInjective(f, g, seq(MAX_PUBLIC_BYTES - |Encode(f)|, _ => 0), seq(MAX_PUBLIC_BYTES - |Encode(g)|, _ => 0));
  }

  // ---- `split` -----------------------------------------------------------------------

  datatype StoredProof = StoredProof(minimal: bool, starkPublics: seq<U64>, proof: seq<U64>, ziskVk: seq<U64>) {
    function PublicsFull(): seq<U64>
      requires !minimal ==> starkPublics != []
    {
      if minimal then starkPublics else starkPublics[1..]
    }

    function Joined(): seq<nat> {
      [if minimal then 1 else 0, |starkPublics|] + starkPublics + proof + ziskVk
    }

    predicate WellFormed() {
      |starkPublics| == (if minimal then 68 else 69) && proof != [] && |ziskVk| == 4
    }
  }

  /** `split` */
  function Split(words: seq<U64>): Option<StoredProof> {
    if |words| < 2 || words[0] > 1 then None
    else
      var minimal, n, rest := words[0] == 1, words[1], words[2..];
      if n != (if minimal then 68 else 69) || |rest| < n || |rest[n..]| < 4 || |rest[n..]| == 4 then None
      else Some(StoredProof(minimal, rest[..n], rest[n..|rest| - 4], rest[|rest| - 4..]))
  }

  /** Splitting finds the parts of exactly the words that parts of the right lengths join to. */
  lemma SplitInvertsJoin(words: seq<U64>)
    ensures Split(words).Some? ==> Split(words).value.WellFormed() && Split(words).value.Joined() == words
    ensures forall p: StoredProof :: p.WellFormed() && p.Joined() == words ==> Split(words) == Some(p)
  {
    forall p: StoredProof | p.WellFormed() && p.Joined() == words ensures Split(words) == Some(p) {
      SplitOfJoined(p, words);
    }
  }

  lemma SplitOfJoined(p: StoredProof, words: seq<U64>)
    requires p.WellFormed() && p.Joined() == words
    ensures Split(words) == Some(p)
  {
    var n, rest := |p.starkPublics|, words[2..];
    assert rest == p.starkPublics + p.proof + p.ziskVk;
    assert rest[..n] == p.starkPublics && rest[n..|rest| - 4] == p.proof && rest[|rest| - 4..] == p.ziskVk;
  }

  /** A wrapper and a verifying parent read the same key, program and publics out of one proof. */
  lemma SplitAgreesWithChild(words: seq<U64>, p: StoredProof)
    requires Split(words) == Some(p)
    ensures IsUncompressed(words) <==> !p.minimal
    ensures !p.minimal ==> p.ziskVk == words[|words| - 4..] && p.PublicsFull() == words[3..7] + words[7..71]
  {
    if !p.minimal {
      var rest := words[2..];
      assert p.starkPublics == rest[..69] && rest[..69][1..] == words[3..71];
      assert words[3..71] == words[3..7] + words[7..71];
      assert rest[|rest| - 4..] == words[|words| - 4..];
    }
  }
}
