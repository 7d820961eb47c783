/** Where each byte and word of the formats lies. */
module Layouts {
  import opened Wrappers
  import opened DivMod
  import opened Bytes
  import ProofWords
  import BoundaryFile
  import Publics
  import CommitteeWire
  import PointPacking
  import Words

  // ---- numbers in bytes ------------------------------------------------------------------------------

  /** The `i`-th base-256 digit of a number, lowest first. */
  ghost function ByteOf(n: nat, i: nat): (b: Byte)
  {
    (n / Pow256(i)) % 256
  }

  lemma DivTwice(n: nat, p: nat)
    requires p > 0
    ensures n / 256 / p == n / (256 * p)
  {
    var q, r := n / 256, n % 256;
    var low := 256 * (q % p) + r;
    assert n == 256 * (p * (q / p) + q % p) + r;
    assert n == (256 * p) * (q / p) + low;
    DivModUnique(n, 256 * p, q / p, low);
  }

  lemma {:induction false} LeByteAt(n: nat, width: nat, i: nat)
    requires i < width
    ensures LeBytes(n, width)[i] == ByteOf(n, i)
    decreases width
  {
    if i > 0 {
      LeByteAt(n / 256, width - 1, i - 1);
      DivTwice(n, Pow256(i - 1));
    }
  }

  /** A number of so many bytes at an offset of a file, lowest byte first. */
  ghost predicate NumberAt(file: seq<Byte>, at: nat, n: nat, width: nat)
  {
    at + width <= |file| && forall i :: 0 <= i < width ==> file[at + i] == ByteOf(n, i)
  }

  predicate BytesAt(file: seq<Byte>, at: nat, bytes: seq<Byte>)
  {
    at + |bytes| <= |file| && file[at..at + |bytes|] == bytes
  }

  lemma WrittenAt(file: seq<Byte>, at: nat, n: nat, width: nat)
    requires BytesAt(file, at, LeBytes(n, width))
    ensures NumberAt(file, at, n, width)
  {
    forall i | 0 <= i < width ensures file[at + i] == ByteOf(n, i) {
      LeByteAt(n, width, i);
      assert file[at..at + width][i] == file[at + i];
    }
  }

  lemma SliceOfSlice<T>(s: seq<T>, a: nat, b: nat, c: nat, d: nat)
    requires a <= b <= |s| && c <= d <= b - a
    ensures s[a..b][c..d] == s[a + c..a + d]
  {
    forall i | 0 <= i < d - c ensures s[a..b][c..d][i] == s[a + c..a + d][i] {
      assert s[a..b][c + i] == s[a + c + i];
    }
  }

  lemma PartAt(front: seq<Byte>, bytes: seq<Byte>, rest: seq<Byte>)
    ensures BytesAt(front + (bytes + rest), |front|, bytes)
  {
    var file := front + (bytes + rest);
    assert file[|front|..] == bytes + rest;
    assert file[|front|..|front| + |bytes|] == (bytes + rest)[..|bytes|];
  }

  lemma FirstAt(bytes: seq<Byte>, rest: seq<Byte>)
    ensures BytesAt(bytes + rest, 0, bytes)
  {
  }

  lemma LaterAt(front: seq<Byte>, rest: seq<Byte>, at: nat, bytes: seq<Byte>)
    requires BytesAt(rest, at, bytes)
    ensures BytesAt(front + rest, |front| + at, bytes)
  {
    assert (front + rest)[|front| + at..|front| + at + |bytes|] == rest[at..at + |bytes|];
  }

  // ---- variable-width integers -------------------------------------------------------------------------

  /** One byte below 251; above, a tag and two, four, eight or sixteen bytes, lowest first. */
  lemma VarintLayout(v: ProofWords.U128)
    ensures
      var b := ProofWords.Varint(v);
      && (v < 251 ==> b == [v])
      && (251 <= v < 0x1_0000 ==> |b| == 3 && b[0] == 251 && NumberAt(b, 1, v, 2))
      && (0x1_0000 <= v < 0x1_0000_0000 ==> |b| == 5 && b[0] == 252 && NumberAt(b, 1, v, 4))
      && (0x1_0000_0000 <= v < 0x1_0000_0000_0000_0000 ==> |b| == 9 && b[0] == 253 && NumberAt(b, 1, v, 8))
      && (0x1_0000_0000_0000_0000 <= v ==> |b| == 17 && b[0] == 254 && NumberAt(b, 1, v, 16))
  {
    var b := ProofWords.Varint(v);
    if v >= 251 {
      assert b[1..] == LeBytes(v, |b| - 1);
      WrittenAt(b, 1, v, |b| - 1);
    }
  }

  /** A vector: its length, then its numbers, one after the other. */
  lemma VectorLayout(xs: seq<U64>, i: nat)
    requires i < |xs| < 0x1_0000_0000_0000_0000_0000_0000_0000_0000
    ensures BytesAt(ProofWords.VecU64(xs), 0, ProofWords.Varint(|xs|))
    ensures BytesAt(ProofWords.VecU64(xs), |ProofWords.Varint(|xs|)| + VarintStart(xs, i), ProofWords.Varint(xs[i]))
  {
    hide ProofWords.Varint, ProofWords.Varints, BytesAt, VarintStart;
    FirstAt(ProofWords.Varint(|xs|), ProofWords.Varints(xs));
    VarintAt(xs, i);
    LaterAt(ProofWords.Varint(|xs|), ProofWords.Varints(xs), VarintStart(xs, i), ProofWords.Varint(xs[i]));
  }

  function VarintStart(xs: seq<U64>, i: nat): nat
    requires i <= |xs|
  {
    if i == 0 then 0 else |ProofWords.Varint(xs[0])| + VarintStart(xs[1..], i - 1)
  }

  lemma {:induction false} VarintAt(xs: seq<U64>, i: nat)
    requires i < |xs|
    ensures BytesAt(ProofWords.Varints(xs), VarintStart(xs, i), ProofWords.Varint(xs[i]))
    decreases i
  {
    hide ProofWords.Varint;
    var first, rest := ProofWords.Varint(xs[0]), ProofWords.Varints(xs[1..]);
    if i == 0 {
      FirstAt(first, rest);
    } else {
      VarintAt(xs[1..], i - 1);
      LaterAt(first, rest, VarintStart(xs[1..], i - 1), ProofWords.Varint(xs[i]));
    }
  }

  // ---- public outputs ---------------------------------------------------------------------------------

  /** Where a field of so many starts: numbers take eight bytes, everything else 32. */
  function FieldStart(fields: seq<Publics.Field>, i: nat): nat
    requires i <= |fields|
  {
    if i == 0 then 0 else FieldStart(fields, i - 1) + if fields[i - 1].Num? then 8 else 32
  }

  /** A field at an offset: a number in eight bytes, a root as it is, a digest as four numbers. */
  ghost predicate FieldAt(file: seq<Byte>, at: nat, f: Publics.Field)
  {
    match f
    case Num(n) => NumberAt(file, at, n, 8)
    case Root(b) => BytesAt(file, at, b)
    case Words(d) => forall i :: 0 <= i < 4 ==> NumberAt(file, at + 8 * i, d[i], 8)
  }

  lemma {:induction false} FieldStartShifts(fields: seq<Publics.Field>, i: nat)
    requires 0 < i <= |fields|
    ensures FieldStart(fields, i) == (if fields[0].Num? then 8 else 32) + FieldStart(fields[1..], i - 1)
  {
    if i > 1 {
      FieldStartShifts(fields, i - 1);
      assert fields[i - 1] == fields[1..][i - 2];
    }
  }

  lemma {:induction false} FieldBytesAt(fields: seq<Publics.Field>, i: nat)
    requires i < |fields|
    ensures BytesAt(Publics.Encode(fields), FieldStart(fields, i), Publics.FieldBytes(fields[i]))
    decreases |fields|
  {
    hide Publics.FieldBytes;
    var first, rest := Publics.FieldBytes(fields[0]), Publics.Encode(fields[1..]);
    if i == 0 {
      FirstAt(first, rest);
    } else {
      FieldBytesAt(fields[1..], i - 1);
      LaterAt(first, rest, FieldStart(fields[1..], i - 1), Publics.FieldBytes(fields[i]));
      FieldStartShifts(fields, i);
    }
  }

  lemma {:induction false} WordBytesAt(words: seq<U64>, i: nat)
    requires i < |words|
    ensures BytesAt(Publics.WordBytes(words), 8 * i, LeBytes(words[i], 8))
    decreases |words|
  {
    var first, rest := LeBytes(words[0], 8), Publics.WordBytes(words[1..]);
    if i == 0 {
      FirstAt(first, rest);
    } else {
      WordBytesAt(words[1..], i - 1);
      LaterAt(first, rest, 8 * (i - 1), LeBytes(words[i], 8));
    }
  }

  lemma InsideAt(file: seq<Byte>, at: nat, bytes: seq<Byte>, k: nat, part: seq<Byte>)
    requires BytesAt(file, at, bytes) && BytesAt(bytes, k, part)
    ensures BytesAt(file, at + k, part)
  {
    SliceOfSlice(file, at, at + |bytes|, k, k + |part|);
  }

  /** Each field of a proof's outputs, in its place. */
  lemma FieldsInPlace(fields: seq<Publics.Field>, i: nat)
    requires i < |fields|
    ensures FieldAt(Publics.Encode(fields), FieldStart(fields, i), fields[i])
  {
    hide Publics.Encode, FieldStart, BytesAt, NumberAt, Publics.WordBytes;
    var file, at := Publics.Encode(fields), FieldStart(fields, i);
    FieldBytesAt(fields, i);
    match fields[i]
    case Num(n) => WrittenAt(file, at, n, 8);
    case Root(_) =>
    case Words(d) =>
      forall k | 0 <= k < 4 ensures NumberAt(file, at + 8 * k, d[k], 8) {
        WordBytesAt(d, k);
        InsideAt(file, at, Publics.WordBytes(d), 8 * k, LeBytes(d[k], 8));
        WrittenAt(file, at + 8 * k, d[k], 8);
      }
  }

  // ---- what a parent reads of a child ---------------------------------------------------------------------

  /** Byte `j` of words that carry four bytes each. */
  ghost function CarriedByte(words: seq<U64>, j: nat): Byte
    requires j < 4 * |words|
  {
    ByteOf(words[j / 4], j % 4)
  }

  lemma {:induction false} WordsAsBytesExact(words: seq<U64>)
    ensures Publics.WordsAsBytes(words).Some? <==> forall w :: w in words ==> w < 0x1_0000_0000
    ensures Publics.WordsAsBytes(words).Some? ==> |Publics.WordsAsBytes(words).value| == 4 * |words|
    ensures Publics.WordsAsBytes(words).Some? ==>
      forall j :: 0 <= j < 4 * |words| ==> Publics.WordsAsBytes(words).value[j] == CarriedByte(words, j)
    decreases |words|
  {
    hide ByteOf;
    if words != [] {
      WordsAsBytesExact(words[1..]);
      FirstWord(words);
      if Publics.WordsAsBytes(words).Some? {
        forall j | 0 <= j < 4 * |words| ensures Publics.WordsAsBytes(words).value[j] == CarriedByte(words, j) {
          if j < 4 {
            LeByteAt(words[0], 4, j);
          } else {
            NextWord(words, j);
          }
        }
      }
    }
  }

  lemma FirstWord(words: seq<U64>)
    requires words != []
    ensures words[0] in words && forall w :: w in words <==> w == words[0] || w in words[1..]
  {
  }

  lemma NextWord(words: seq<U64>, j: nat)
    requires 4 <= j < 4 * |words|
    ensures CarriedByte(words, j) == CarriedByte(words[1..], j - 4)
  {
    assert j / 4 - 1 == (j - 4) / 4 && j % 4 == (j - 4) % 4;
  }

  /** A proof carries a program's outputs exactly when it is not compressed, was made under the
      pinned circuit, names the program in words 3 to 6, and its words 7 to 70 hold the outputs,
      four bytes each, lowest first, and zeros after them. */
  lemma ChildLayout(proof: seq<U64>, vk: seq<U64>, outputs: seq<Byte>)
    requires |outputs| <= 256
    ensures Publics.Carries(proof, vk, outputs)
       <==>
       && |proof| >= 75 && proof[0] == 0 && proof[|proof| - 4..] == Publics.VADCOP_FINAL_VK && proof[3..7] == vk
       && (forall w :: w in proof[7..71] ==> w < 0x1_0000_0000)
       && forall j :: 0 <= j < 256 ==> CarriedByte(proof[7..71], j) == if j < |outputs| then outputs[j] else 0
  {
    hide CarriedByte, Publics.WordsAsBytes;
    if |proof| >= 75 {
      WordsAsBytesExact(proof[7..71]);
      var padded := Publics.Padded(outputs);
      assert forall j :: 0 <= j < 256 ==> padded[j] == if j < |outputs| then outputs[j] else 0;
      if Publics.WordsAsBytes(proof[7..71]).Some? {
        var bytes := Publics.WordsAsBytes(proof[7..71]).value;
        assert bytes == padded <==> forall j :: 0 <= j < 256 ==> bytes[j] == padded[j];
      }
    }
  }

  // ---- committee witnesses ------------------------------------------------------------------------------

  lemma {:induction false} MemberAtStride(ms: seq<CommitteeWire.Member>, i: nat)
    requires i < |ms|
    ensures CommitteeWire.MembersWords(ms)[15 * i..15 * i + 15] == CommitteeWire.MemberWords(ms[i])
    decreases |ms|
  {
    var first, rest := CommitteeWire.MemberWords(ms[0]), CommitteeWire.MembersWords(ms[1..]);
    if i > 0 {
      MemberAtStride(ms[1..], i - 1);
      assert (first + rest)[15 * i..15 * i + 15] == rest[15 * (i - 1)..15 * (i - 1) + 15];
    }
  }

  lemma {:induction false} DigestAtStride(ds: seq<CommitteeWire.Digest4>, i: nat)
    requires i < |ds|
    ensures CommitteeWire.DigestsWords(ds)[4 * i..4 * i + 4] == ds[i]
    decreases |ds|
  {
    var first: seq<U64> := ds[0];
    var rest := CommitteeWire.DigestsWords(ds[1..]);
    if i > 0 {
      DigestAtStride(ds[1..], i - 1);
      assert (first + rest)[4 * i..4 * i + 4] == rest[4 * (i - 1)..4 * (i - 1) + 4];
    }
  }

  /** The header: both digests, the epoch, the total and the two counts. */
  lemma WireHeader(w: CommitteeWire.Witness)
    requires CommitteeWire.Fits(w)
    ensures
      var e := CommitteeWire.Encode(w);
      && |e| == 12 + 15 * |w.members| + 4 * |w.aux|
      && e[0..4] == w.commitment && e[4..8] == w.root
      && e[8] == w.epoch && e[9] == w.total && e[10] == |w.members| && e[11] == |w.aux|
  {
  }

  /** Member `i`: its index, its key's twelve words, its balance and its slot. */
  lemma WireMember(w: CommitteeWire.Witness, i: nat)
    requires CommitteeWire.Fits(w) && i < |w.members|
    ensures
      var e, at := CommitteeWire.Encode(w), 12 + 15 * i;
      && at + 15 <= |e| && e[at] == w.members[i].index && e[at + 1..at + 13] == w.members[i].pubkey
      && e[at + 13] == w.members[i].balance && e[at + 14] == w.members[i].slot
  {
    hide CommitteeWire.MembersWords, CommitteeWire.DigestsWords, CommitteeWire.Header;
    var e, at := CommitteeWire.Encode(w), 12 + 15 * i;
    var m := CommitteeWire.MemberWords(w.members[i]);
    MemberAtStride(w.members, i);
    assert e[at..at + 15] == CommitteeWire.MembersWords(w.members)[15 * i..15 * i + 15];
    SliceOfSlice(e, at, at + 15, 1, 13);
    assert m[0] == e[at] && m[13] == e[at + 13] && m[14] == e[at + 14] && m[1..13] == w.members[i].pubkey;
  }

  /** Auxiliary `i`, after every member. */
  lemma WireAux(w: CommitteeWire.Witness, i: nat)
    requires CommitteeWire.Fits(w) && i < |w.aux|
    ensures
      var e, at := CommitteeWire.Encode(w), 12 + 15 * |w.members| + 4 * i;
      at + 4 <= |e| && e[at..at + 4] == w.aux[i]
  {
    hide CommitteeWire.MembersWords, CommitteeWire.DigestsWords, CommitteeWire.Header;
    var e, at := CommitteeWire.Encode(w), 12 + 15 * |w.members| + 4 * i;
    DigestAtStride(w.aux, i);
    assert e[at..at + 4] == CommitteeWire.DigestsWords(w.aux)[4 * i..4 * i + 4];
  }

  // ---- boundary files -------------------------------------------------------------------------------------

  /** Where item `i` of a run starts. */
  function ItemStart<T>(write: T -> seq<Byte>, items: seq<T>, i: nat): nat
    requires i <= |items|
  {
    if i == 0 then 0 else ItemStart(write, items, i - 1) + |write(items[i - 1])|
  }

  lemma {:induction false} ItemStartShifts<T>(write: T -> seq<Byte>, items: seq<T>, i: nat)
    requires 0 < i <= |items|
    ensures ItemStart(write, items, i) == |write(items[0])| + ItemStart(write, items[1..], i - 1)
    decreases i
  {
    if i > 1 {
      ItemStartShifts(write, items, i - 1);
      assert items[i - 1] == items[1..][i - 2];
    }
  }

  lemma {:induction false} ItemAt<T>(write: T -> seq<Byte>, items: seq<T>, i: nat)
    requires i < |items|
    ensures BytesAt(BoundaryFile.Concat(write, items), ItemStart(write, items, i), write(items[i]))
    decreases |items|
  {
    var first, rest := write(items[0]), BoundaryFile.Concat(write, items[1..]);
    if i == 0 {
      FirstAt(first, rest);
    } else {
      ItemAt(write, items[1..], i - 1);
      ItemStartShifts(write, items, i);
      LaterAt(first, rest, ItemStart(write, items[1..], i - 1), write(items[i]));
    }
  }

  lemma {:induction false} ItemsEnd<T>(write: T -> seq<Byte>, items: seq<T>)
    ensures |BoundaryFile.Concat(write, items)| == ItemStart(write, items, |items|)
    decreases |items|
  {
    if items != [] {
      ItemsEnd(write, items[1..]);
      ItemStartShifts(write, items, |items|);
    }
  }

  lemma {:induction false} EvenlySpaced<T>(write: T -> seq<Byte>, items: seq<T>, width: nat, i: nat)
    requires i <= |items| && forall x :: x in items ==> |write(x)| == width
    ensures ItemStart(write, items, i) == width * i
    decreases i
  {
    if i > 0 {
      EvenlySpaced(write, items, width, i - 1);
      assert width * i == width * (i - 1) + width;
    }
  }

  /** A validator in 129 bytes: index, key, credentials, five numbers and a flag. */
  ghost predicate ValidatorAt(file: seq<Byte>, at: nat, v: BoundaryFile.Validator)
  {
    && NumberAt(file, at, v.index, 8) && BytesAt(file, at + 8, v.pubkey) && BytesAt(file, at + 56, v.withdrawalCredentials)
    && NumberAt(file, at + 88, v.effectiveBalance, 8) && NumberAt(file, at + 96, v.activationEligibilityEpoch, 8)
    && NumberAt(file, at + 104, v.activationEpoch, 8) && NumberAt(file, at + 112, v.exitEpoch, 8)
    && NumberAt(file, at + 120, v.withdrawableEpoch, 8) && BytesAt(file, at + 128, [if v.slashed then 1 else 0])
  }

  lemma ValidatorParts(v: BoundaryFile.Validator)
    ensures
      var b := BoundaryFile.ValidatorBytes(v);
      && |b| == 129
      && BytesAt(b, 0, LeBytes(v.index, 8)) && BytesAt(b, 8, v.pubkey) && BytesAt(b, 56, v.withdrawalCredentials)
      && BytesAt(b, 88, LeBytes(v.effectiveBalance, 8)) && BytesAt(b, 96, LeBytes(v.activationEligibilityEpoch, 8))
      && BytesAt(b, 104, LeBytes(v.activationEpoch, 8)) && BytesAt(b, 112, LeBytes(v.exitEpoch, 8))
      && BytesAt(b, 120, LeBytes(v.withdrawableEpoch, 8)) && BytesAt(b, 128, [if v.slashed then 1 else 0])
  {
  }

  lemma ValidatorIsAt(file: seq<Byte>, at: nat, v: BoundaryFile.Validator)
    requires BytesAt(file, at, BoundaryFile.ValidatorBytes(v))
    ensures ValidatorAt(file, at, v)
  {
    hide BytesAt, NumberAt, BoundaryFile.ValidatorBytes;
    var b := BoundaryFile.ValidatorBytes(v);
    ValidatorParts(v);
    InsideAt(file, at, b, 0, LeBytes(v.index, 8));
    WrittenAt(file, at, v.index, 8);
    InsideAt(file, at, b, 8, v.pubkey);
    InsideAt(file, at, b, 56, v.withdrawalCredentials);
    InsideAt(file, at, b, 88, LeBytes(v.effectiveBalance, 8));
    WrittenAt(file, at + 88, v.effectiveBalance, 8);
    InsideAt(file, at, b, 96, LeBytes(v.activationEligibilityEpoch, 8));
    WrittenAt(file, at + 96, v.activationEligibilityEpoch, 8);
    InsideAt(file, at, b, 104, LeBytes(v.activationEpoch, 8));
    WrittenAt(file, at + 104, v.activationEpoch, 8);
    InsideAt(file, at, b, 112, LeBytes(v.exitEpoch, 8));
    WrittenAt(file, at + 112, v.exitEpoch, 8);
    InsideAt(file, at, b, 120, LeBytes(v.withdrawableEpoch, 8));
    WrittenAt(file, at + 120, v.withdrawableEpoch, 8);
    InsideAt(file, at, b, 128, [if v.slashed then 1 else 0]);
  }

  /** Where committee `k` starts: after 52 bytes of header, both counts, the validators and the
      committees before it. */
  function CommitteeStart(x: BoundaryFile.Inputs, k: nat): nat
    requires k <= |x.committees|
  {
    if k == 0 then 68 + 129 * |x.validators|
    else CommitteeStart(x, k - 1) + 24 + 8 * |x.committees[k - 1].validators|
  }

  /** A committee: its slot, its index, its size, and its validators. */
  ghost predicate CommitteeAt(file: seq<Byte>, at: nat, c: BoundaryFile.Committee)
  {
    && NumberAt(file, at, c.slot, 8) && NumberAt(file, at + 8, c.index, 8) && NumberAt(file, at + 16, |c.validators|, 8)
    && forall j :: 0 <= j < |c.validators| ==> NumberAt(file, at + 24 + 8 * j, c.validators[j], 8)
  }

  lemma NumbersSpaced(ns: seq<U64>, i: nat)
    requires i <= |ns|
    ensures ItemStart(BoundaryFile.U64Bytes, ns, i) == 8 * i
  {
    EvenlySpaced(BoundaryFile.U64Bytes, ns, 8, i);
  }

  lemma FourPartsAt(a: seq<Byte>, b: seq<Byte>, c: seq<Byte>, e: seq<Byte>)
    ensures
      var all := a + (b + (c + e));
      && |all| == |a| + |b| + |c| + |e|
      && BytesAt(all, 0, a) && BytesAt(all, |a|, b) && BytesAt(all, |a| + |b|, c) && BytesAt(all, |a| + |b| + |c|, e)
  {
    hide BytesAt;
    FirstAt(a, b + (c + e));
    PartAt(a, b, c + e);
    PartAt(b, c, e);
    LaterAt(a, b + (c + e), |b|, c);
    WholeAt(e);
    LaterAt(c, e, 0, e);
    LaterAt(b, c + e, |c|, e);
    LaterAt(a, b + (c + e), |b| + |c|, e);
  }

  lemma WholeAt(e: seq<Byte>)
    ensures BytesAt(e, 0, e)
  {
  }

  lemma CommitteeParts(c: BoundaryFile.Committee)
    ensures
      var b := BoundaryFile.CommitteeBytes(c);
      && |b| == 24 + 8 * |c.validators|
      && BytesAt(b, 0, LeBytes(c.slot, 8)) && BytesAt(b, 8, LeBytes(c.index, 8)) && BytesAt(b, 16, LeBytes(|c.validators|, 8))
      && BytesAt(b, 24, BoundaryFile.Concat(BoundaryFile.U64Bytes, c.validators))
  {
    hide BytesAt, LeBytes, BoundaryFile.Concat, ItemStart;
    ItemsEnd(BoundaryFile.U64Bytes, c.validators);
    NumbersSpaced(c.validators, |c.validators|);
    FourPartsAt(LeBytes(c.slot, 8), LeBytes(c.index, 8), LeBytes(|c.validators|, 8),
                BoundaryFile.Concat(BoundaryFile.U64Bytes, c.validators));
  }

  lemma NumbersAt(file: seq<Byte>, at: nat, ns: seq<U64>, j: nat)
    requires BytesAt(file, at, BoundaryFile.Concat(BoundaryFile.U64Bytes, ns)) && j < |ns|
    ensures NumberAt(file, at + 8 * j, ns[j], 8)
  {
    hide BytesAt, NumberAt, BoundaryFile.Concat, LeBytes;
    ItemAt(BoundaryFile.U64Bytes, ns, j);
    NumbersSpaced(ns, j);
    InsideAt(file, at, BoundaryFile.Concat(BoundaryFile.U64Bytes, ns), 8 * j, LeBytes(ns[j], 8));
    WrittenAt(file, at + 8 * j, ns[j], 8);
  }

  lemma CommitteeIsAt(file: seq<Byte>, at: nat, c: BoundaryFile.Committee)
    requires BytesAt(file, at, BoundaryFile.CommitteeBytes(c))
    ensures CommitteeAt(file, at, c)
  {
    hide BytesAt, NumberAt, BoundaryFile.CommitteeBytes, BoundaryFile.Concat, LeBytes;
    var b := BoundaryFile.CommitteeBytes(c);
    CommitteeParts(c);
    InsideAt(file, at, b, 0, LeBytes(c.slot, 8));
    WrittenAt(file, at, c.slot, 8);
    InsideAt(file, at, b, 8, LeBytes(c.index, 8));
    WrittenAt(file, at + 8, c.index, 8);
    InsideAt(file, at, b, 16, LeBytes(|c.validators|, 8));
    WrittenAt(file, at + 16, |c.validators|, 8);
    InsideAt(file, at, b, 24, BoundaryFile.Concat(BoundaryFile.U64Bytes, c.validators));
    forall j | 0 <= j < |c.validators| ensures NumberAt(file, at + 24 + 8 * j, c.validators[j], 8) {
      NumbersAt(file, at + 24, c.validators, j);
    }
  }

  lemma {:induction false} CommitteesSpaced(x: BoundaryFile.Inputs, k: nat)
    requires k <= |x.committees|
    ensures CommitteeStart(x, k) == 68 + 129 * |x.validators| + ItemStart(BoundaryFile.CommitteeBytes, x.committees, k)
    decreases k
  {
    if k > 0 {
      CommitteesSpaced(x, k - 1);
      CommitteeParts(x.committees[k - 1]);
    }
  }

  lemma ValidatorsSpaced(vs: seq<BoundaryFile.Validator>, i: nat)
    requires i <= |vs|
    ensures ItemStart(BoundaryFile.ValidatorBytes, vs, i) == 129 * i
  {
    forall v | v in vs ensures |BoundaryFile.ValidatorBytes(v)| == 129 {
      ValidatorParts(v);
    }
    EvenlySpaced(BoundaryFile.ValidatorBytes, vs, 129, i);
  }

  function RegistryBytes(x: BoundaryFile.Inputs): seq<Byte>
  {
    BoundaryFile.Concat(BoundaryFile.ValidatorBytes, x.validators)
  }

  function AssignmentBytes(x: BoundaryFile.Inputs): seq<Byte>
  {
    BoundaryFile.Concat(BoundaryFile.CommitteeBytes, x.committees)
  }

  lemma RegistrySize(x: BoundaryFile.Inputs)
    ensures |RegistryBytes(x)| == 129 * |x.validators|
  {
    hide BoundaryFile.Concat;
    ItemsEnd(BoundaryFile.ValidatorBytes, x.validators);
    ValidatorsSpaced(x.validators, |x.validators|);
  }

  lemma FileParts(x: BoundaryFile.Inputs, sha: BoundaryFile.Checksum)
    ensures
      var file, n := BoundaryFile.Encode(x, sha), |x.validators|;
      && |RegistryBytes(x)| == 129 * n && |file| == 68 + 129 * n + |AssignmentBytes(x)|
      && BytesAt(file, 0, [90, 75, 66, 79, 85, 78, 68, 1]) && BytesAt(file, 8, LeBytes(1, 4))
      && BytesAt(file, 12, LeBytes(x.slot, 8)) && BytesAt(file, 20, sha(file[52..])) && BytesAt(file, 52, LeBytes(n, 8))
      && BytesAt(file, 60, RegistryBytes(x)) && BytesAt(file, 60 + 129 * n, LeBytes(|x.committees|, 8))
      && BytesAt(file, 68 + 129 * n, AssignmentBytes(x))
  {
    hide BytesAt, BoundaryFile.Encode, BoundaryFile.BodyBytes, RegistryBytes, AssignmentBytes;
    RegistrySize(x);
    HeaderParts(x, sha);
    BodyParts(x);
    var file, body, n := BoundaryFile.Encode(x, sha), BoundaryFile.BodyBytes(x), |x.validators|;
    InsideAt(file, 52, body, 0, LeBytes(n, 8));
    InsideAt(file, 52, body, 8, RegistryBytes(x));
    InsideAt(file, 52, body, 8 + 129 * n, LeBytes(|x.committees|, 8));
    InsideAt(file, 52, body, 16 + 129 * n, AssignmentBytes(x));
  }

  lemma HeaderParts(x: BoundaryFile.Inputs, sha: BoundaryFile.Checksum)
    ensures
      var file := BoundaryFile.Encode(x, sha);
      && BytesAt(file, 0, [90, 75, 66, 79, 85, 78, 68, 1]) && BytesAt(file, 8, LeBytes(1, 4))
      && BytesAt(file, 12, LeBytes(x.slot, 8)) && |file| == 52 + |BoundaryFile.BodyBytes(x)|
      && file[52..] == BoundaryFile.BodyBytes(x)
      && BytesAt(file, 20, sha(file[52..])) && BytesAt(file, 52, BoundaryFile.BodyBytes(x))
  {
    hide BoundaryFile.BodyBytes;
  }

  lemma BodyParts(x: BoundaryFile.Inputs)
    requires |RegistryBytes(x)| == 129 * |x.validators|
    ensures
      var body, n := BoundaryFile.BodyBytes(x), |x.validators|;
      && |body| == 16 + 129 * n + |AssignmentBytes(x)|
      && BytesAt(body, 0, LeBytes(n, 8)) && BytesAt(body, 8, RegistryBytes(x))
      && BytesAt(body, 8 + 129 * n, LeBytes(|x.committees|, 8)) && BytesAt(body, 16 + 129 * n, AssignmentBytes(x))
  {
    hide BoundaryFile.Concat;
  }

  /** A boundary file: its magic, its version, the slot, the checksum of all that follows, the
      validators in 129 bytes each and the committees, with their counts, and nothing after them. */
  lemma FileLayout(x: BoundaryFile.Inputs, sha: BoundaryFile.Checksum)
    ensures
      var file, n := BoundaryFile.Encode(x, sha), |x.validators|;
      && BytesAt(file, 0, [90, 75, 66, 79, 85, 78, 68, 1]) && NumberAt(file, 8, 1, 4) && NumberAt(file, 12, x.slot, 8)
      && BytesAt(file, 20, sha(file[52..]))
      && NumberAt(file, 52, n, 8) && NumberAt(file, 60 + 129 * n, |x.committees|, 8)
      && |file| == CommitteeStart(x, |x.committees|)
    ensures forall i :: 0 <= i < |x.validators| ==>
      ValidatorAt(BoundaryFile.Encode(x, sha), 60 + 129 * i, x.validators[i])
    ensures forall k :: 0 <= k < |x.committees| ==>
      CommitteeAt(BoundaryFile.Encode(x, sha), CommitteeStart(x, k), x.committees[k])
  {
    hide BytesAt, NumberAt, BoundaryFile.Encode, BoundaryFile.Concat, BoundaryFile.ValidatorBytes, BoundaryFile.CommitteeBytes,
      ItemStart, CommitteeStart, ValidatorAt, CommitteeAt;
    var file, n := BoundaryFile.Encode(x, sha), |x.validators|;
    FileParts(x, sha);
    WrittenAt(file, 8, 1, 4);
    WrittenAt(file, 12, x.slot, 8);
    WrittenAt(file, 52, n, 8);
    WrittenAt(file, 60 + 129 * n, |x.committees|, 8);
    ItemsEnd(BoundaryFile.CommitteeBytes, x.committees);
    CommitteesSpaced(x, |x.committees|);
    forall i | 0 <= i < n ensures ValidatorAt(file, 60 + 129 * i, x.validators[i]) {
      ItemAt(BoundaryFile.ValidatorBytes, x.validators, i);
      ValidatorsSpaced(x.validators, i);
      InsideAt(file, 60, RegistryBytes(x), 129 * i, BoundaryFile.ValidatorBytes(x.validators[i]));
      ValidatorIsAt(file, 60 + 129 * i, x.validators[i]);
    }
    forall k | 0 <= k < |x.committees| ensures CommitteeAt(file, CommitteeStart(x, k), x.committees[k]) {
      ItemAt(BoundaryFile.CommitteeBytes, x.committees, k);
      CommitteesSpaced(x, k);
      InsideAt(file, 68 + 129 * n, AssignmentBytes(x), ItemStart(BoundaryFile.CommitteeBytes, x.committees, k),
               BoundaryFile.CommitteeBytes(x.committees[k]));
      CommitteeIsAt(file, CommitteeStart(x, k), x.committees[k]);
    }
  }

  // ---- hashed states -------------------------------------------------------------------------------------

  /** A word cut into its low and high halves. */
  lemma HalvesMakeWord(w: Words.Word)
    ensures PointPacking.Num(PointPacking.Low(w)) < 0x1_0000_0000 && PointPacking.Num(PointPacking.High(w)) < 0x1_0000_0000
    ensures PointPacking.Num(PointPacking.Low(w)) + 0x1_0000_0000 * PointPacking.Num(PointPacking.High(w))
         == PointPacking.Num(w)
  {
    hide PointPacking.Num;
    ThirtyTwoBits();
    var none: seq<bool> := seq(32, _ => false);
    PointPacking.NumZeros(none);
    assert PointPacking.Low(w) == w[..32] + none;
    assert PointPacking.High(w) == w[32..] + none;
    assert w == w[..32] + w[32..];
    PointPacking.NumConcat(w[..32], none);
    PointPacking.NumConcat(w[32..], none);
    PointPacking.NumConcat(w[..32], w[32..]);
    PointPacking.NumBound(w[..32]);
    PointPacking.NumBound(w[32..]);
  }

  lemma ThirtyTwoBits()
    ensures PointPacking.Pow2(32) == 0x1_0000_0000
  {
    assert PointPacking.Pow2(8) == 256;
    assert PointPacking.Pow2(16) == 256 * PointPacking.Pow2(8);
    assert PointPacking.Pow2(24) == 256 * PointPacking.Pow2(16);
    assert PointPacking.Pow2(32) == 256 * PointPacking.Pow2(24);
  }

  lemma SmallIs(n: nat)
    requires n < 8
    ensures PointPacking.Num(PointPacking.Small(n)) == n
  {
    var w := PointPacking.Small(n);
    var none: seq<bool> := seq(61, _ => false);
    assert w == [w[0]] + ([w[1]] + ([w[2]] + none));
    PointPacking.NumZeros(none);
    assert PointPacking.Num([w[2]] + none) == if w[2] then 1 else 0 by { assert ([w[2]] + none)[1..] == none; }
    assert ([w[1]] + ([w[2]] + none))[1..] == [w[2]] + none;
    assert w[1..] == [w[1]] + ([w[2]] + none);
  }

  /** The hashed states: sixteen words, the last of which says what is hashed. A leaf is the point's
      windows and the balance's halves; a node its two children; a commitment its root and the
      total's halves; what is left over is zero. */
  lemma StatesInPlace(point: PointPacking.Point, balance: Words.Word, left: PointPacking.Quad, right: PointPacking.Quad)
    ensures
      var s := PointPacking.LeafState(point, balance);
      && (forall i :: 0 <= i < 13 ==> s[i] == PointPacking.Window(point, i))
      && PointPacking.Num(s[13]) + 0x1_0000_0000 * PointPacking.Num(s[14]) == PointPacking.Num(balance)
      && PointPacking.Num(s[13]) < 0x1_0000_0000 && PointPacking.Num(s[15]) == 1
    ensures
      var s := PointPacking.NodeState(left, right);
      && s[0..4] == left && s[4..8] == right
      && (forall i :: 8 <= i < 15 ==> s[i] == Words.ZERO) && PointPacking.Num(s[15]) == 0
    ensures
      var s := PointPacking.CommitmentState(left, balance);
      && s[0..4] == left && PointPacking.Num(s[4]) + 0x1_0000_0000 * PointPacking.Num(s[5]) == PointPacking.Num(balance)
      && PointPacking.Num(s[4]) < 0x1_0000_0000
      && (forall i :: 6 <= i < 15 ==> s[i] == Words.ZERO) && PointPacking.Num(s[15]) == 2
  {
    hide PointPacking.Num, PointPacking.Small, PointPacking.Low, PointPacking.High, PointPacking.Window;
    HalvesMakeWord(balance);
    SmallIs(0);
    SmallIs(1);
    SmallIs(2);
  }
}
