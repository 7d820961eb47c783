/** Proof files to and from the flat word layout: bincode's variable-width integers, both ways. */
module ProofWords {
  import opened Wrappers
  import opened Bytes

  type U128 = n: nat | n < 0x1_0000_0000_0000_0000_0000_0000_0000_0000

  /** "Poseidon1" */
  const HASH_FAMILY: seq<Byte> := [80, 111, 115, 101, 105, 100, 111, 110, 49]

  // ---- writing ---------------------------------------------------------------------

  /** `varint` */
  function Varint(v: U128): seq<Byte> {
    if v < 251 then [v]
    else if v < 0x1_0000 then [251] + LeBytes(v, 2)
    else if v < 0x1_0000_0000 then [252] + LeBytes(v, 4)
    else if v < 0x1_0000_0000_0000_0000 then [253] + LeBytes(v, 8)
    else [254] + LeBytes(v, 16)
  }

  function Varints(xs: seq<U64>): seq<Byte> {
    if xs == [] then [] else Varint(xs[0]) + Varints(xs[1..])
  }

  /** `vec_u64` */
  function VecU64(xs: seq<U64>): seq<Byte>
    requires |xs| < 0x1_0000_0000_0000_0000_0000_0000_0000_0000
  {
    Varint(|xs|) + Varints(xs)
  }

  /** The parts of a word vector that the script splits apart. */
  datatype Parts = Parts(kind: nat, publicsFull: seq<U64>, proof: seq<U64>, ziskVk: seq<U64>)

  /** Files may prefix the word count; the count is dropped. */
  function Stripped(w: seq<U64>): seq<U64> {
    if w != [] && w[0] == |w| - 1 then w[1..] else w
  }

  /** Every rejection of the script, from a missing word to an unknown flag. */
  function PartsOf(w: seq<U64>): (r: Option<Parts>)
    ensures r.Some? ==> |r.value.publicsFull| < 0x1_0000_0000_0000_0000 && |r.value.ziskVk| == 4
  {
    if |w| < 2 || w[0] > 1 then None
    else
      var n: nat := w[1];
      if |w| < 2 + n || |w| <= 6 + n then None
      else
        var publics, proof, key := w[2..2 + n], w[2 + n..|w| - 4], w[|w| - 4..];
        if w[0] == 1 then Some(Parts(2, publics, proof, key))
        else if publics == [] || publics[0] > 1 then None
        else Some(Parts(1 - publics[0], publics[1..], proof, key))
  }

  /** The program key: the first words of the publics again. */
  function ProgramKey(publicsFull: seq<U64>): seq<U64> {
    if |publicsFull| < 4 then publicsFull else publicsFull[..4]
  }

  function Tail(p: Parts): seq<Byte>
    requires |p.publicsFull| < 0x1_0000_0000_0000_0000
  {
    VecU64(p.publicsFull) + (VecU64(ProgramKey(p.publicsFull)) + Varint(0))
  }

  /** What `zisk_proof_bincode.py` writes for a word vector. */
  function ToBincode(w: seq<U64>): Option<seq<Byte>> {
    var p :- PartsOf(Stripped(w));
    if |p.proof| >= 0x1_0000_0000_0000_0000_0000_0000_0000_0000 || p.kind > 2 then None
    else
      Some(Varint(0) + (VecU64(p.proof) + (VecU64(p.ziskVk) + (Varint(p.kind)
           + (Varint(|HASH_FAMILY|) + (HASH_FAMILY + Tail(p)))))))
  }

  // ---- reading ---------------------------------------------------------------------

  /** A slice that runs past the end is cut short, not refused. */
  function Upto(d: seq<Byte>, n: nat): nat { if n < |d| then n else |d| }

  function WidthOf(tag: Byte): nat
    requires 251 <= tag < 255
  {
    if tag == 251 then 2 else if tag == 252 then 4 else if tag == 253 then 8 else 16
  }

  /** `Reader.varint` on what is left of the file. */
  function ReadVarint(d: seq<Byte>): Option<(nat, seq<Byte>)> {
    if d == [] || d[0] == 255 then None
    else if d[0] < 251 then Some((d[0], d[1..]))
    else
      var rest, width := d[1..], WidthOf(d[0]);
      Some((FromLe(rest[..Upto(rest, width)]), rest[Upto(rest, width)..]))
  }

  function ReadVarints(d: seq<Byte>, n: nat): Option<(seq<nat>, seq<Byte>)>
    decreases n
  {
    if n == 0 then Some(([], d))
    else
      var head := ReadVarint(d);
      if head.None? then None
      else
        var tail := ReadVarints(head.value.1, n - 1);
        if tail.None? then None else Some(([head.value.0] + tail.value.0, tail.value.1))
  }

  /** `Reader.vec_u64` */
  function ReadVec(d: seq<Byte>): Option<(seq<nat>, seq<Byte>)> {
    var n := ReadVarint(d);
    if n.None? then None else ReadVarints(n.value.1, n.value.0)
  }

  /** `Reader.string`; bytes that are no text are refused. */
  function ReadText(d: seq<Byte>, isText: seq<Byte> -> bool): Option<(seq<Byte>, seq<Byte>)> {
    var n := ReadVarint(d);
    if n.None? then None
    else
      var rest := n.value.1;
      var end := Upto(rest, n.value.0);
      if isText(rest[..end]) then Some((rest[..end], rest[end..])) else None
  }

  function JoinedWords(proof: seq<nat>, ziskVk: seq<nat>, kind: nat, publicsFull: seq<nat>): seq<nat> {
    var stark := (if kind == 0 then [1] else if kind == 1 then [0] else []) + publicsFull;
    [if kind == 2 then 1 else 0, |stark|] + stark + proof + ziskVk
  }

  /** The words of a parsed proof, refused where a value does not fit a word. */
  function Joined(proof: seq<nat>, ziskVk: seq<nat>, kind: nat, publicsFull: seq<nat>): Option<seq<nat>> {
    if kind > 2 then None
    else
      var words := JoinedWords(proof, ziskVk, kind, publicsFull);
      if forall k :: 0 <= k < |words| ==> words[k] < 0x1_0000_0000_0000_0000 then Some(words) else None
  }

  /** What `zisk_proof_words.py` makes of a file. */
  function ToWords(d: seq<Byte>, isText: seq<Byte> -> bool): Option<seq<nat>> {
    var body :- ReadVarint(d);
    if body.0 != 0 then None
    else
      var proof :- ReadVec(body.1);
      var key :- ReadVec(proof.1);
      var kind :- ReadVarint(key.1);
      var family :- ReadText(kind.1, isText);
      var publics :- ReadVec(family.1);
      Joined(proof.0, key.0, kind.0, publics.0)
  }

  /** The reader's state: a file and a position that slices may push past its end. */
  class Reader {
    const d: seq<Byte>
    var i: nat

    constructor (data: seq<Byte>)
      ensures d == data && Rest() == data
    {
      d, i := data, 0;
    }

    function Rest(): seq<Byte>
      reads this
    {
      if i <= |d| then d[i..] else []
    }

    method U8() returns (r: Option<Byte>)
      modifies this
      ensures r == if old(Rest()) == [] then None else Some(old(Rest())[0])
      ensures r.Some? ==> Rest() == old(Rest())[1..]
    {
      if i >= |d| { return None; }
      i := i + 1;
      return Some(d[i - 1]);
    }

    /** The next `n` bytes, fewer at the end of the file. */
    method Slice(n: nat) returns (r: seq<Byte>)
      modifies this
      ensures var rest := old(Rest()); r == rest[..Upto(rest, n)] && Rest() == rest[Upto(rest, n)..]
    {
      if i >= |d| {
        r := [];
      } else {
        r := d[i..if i + n < |d| then i + n else |d|];
      }
      i := i + n;
    }

    method Varint() returns (r: Option<nat>)
      modifies this
      ensures r.None? <==> ReadVarint(old(Rest())).None?
      ensures r.Some? ==> ReadVarint(old(Rest())) == Some((r.value, Rest()))
    {
      var tag := U8();
      if tag.None? || tag.value == 255 { return None; }
      if tag.value < 251 { return Some(tag.value); }
      var b := Slice(WidthOf(tag.value));
      return Some(FromLe(b));
    }

    method Vec() returns (r: Option<seq<nat>>)
      modifies this
      ensures r.None? <==> ReadVec(old(Rest())).None?
      ensures r.Some? ==> ReadVec(old(Rest())) == Some((r.value, Rest()))
    {
      var n := Varint();
      if n.None? { return None; }
      ghost var start := Rest();
      var xs := [];
      for k := 0 to n.value
        invariant ReadVarints(start, k) == Some((xs, Rest()))
      {
        ghost var before := Rest();
        var x := Varint();
        ReadVarintsStep(start, k, xs, before);
        if x.None? {
          ReadVarintsStop(start, k + 1, n.value);
          return None;
        }
        xs := xs + [x.value];
      }
      return Some(xs);
    }

    method Text(isText: seq<Byte> -> bool) returns (r: Option<seq<Byte>>)
      modifies this
      ensures r.None? <==> ReadText(old(Rest()), isText).None?
      ensures r.Some? ==> ReadText(old(Rest()), isText) == Some((r.value, Rest()))
    {
      var n := Varint();
      if n.None? { return None; }
      var s := Slice(n.value);
      return if isText(s) then Some(s) else None;
    }
  }

  lemma {:induction false} ReadVarintsStep(d: seq<Byte>, k: nat, xs: seq<nat>, rest: seq<Byte>)
    requires ReadVarints(d, k) == Some((xs, rest))
    ensures ReadVarint(rest).None? ==> ReadVarints(d, k + 1).None?
    ensures ReadVarint(rest).Some? ==>
              ReadVarints(d, k + 1) == Some((xs + [ReadVarint(rest).value.0], ReadVarint(rest).value.1))
  {
    if k > 0 {
      var head := ReadVarint(d).value;
      ReadVarintsStep(head.1, k - 1, xs[1..], rest);
      if ReadVarint(rest).Some? {
        var v := ReadVarint(rest).value.0;
        assert xs + [v] == [xs[0]] + (xs[1..] + [v]);
      }
    } else if ReadVarint(d).Some? {
      var head := ReadVarint(d).value;
      assert ReadVarints(head.1, 0) == Some(([], head.1));
      assert [head.0] + [] == xs + [head.0];
    }
  }

  lemma {:induction false} ReadVarintsStop(d: seq<Byte>, k: nat, n: nat)
    requires ReadVarints(d, k).None? && k <= n
    ensures ReadVarints(d, n).None?
  {
    if k > 0 && ReadVarint(d).Some? {
      ReadVarintsStop(ReadVarint(d).value.1, k - 1, n - 1);
    }
  }

  /** The script's main: the file read front to back by one reader. */
  method WordsOfFile(data: seq<Byte>, isText: seq<Byte> -> bool) returns (r: Option<seq<nat>>)
    ensures r == ToWords(data, isText)
  {
    var reader := new Reader(data);
    var body := reader.Varint();
    if body.None? || body.value != 0 { return None; }
    var proof := reader.Vec();
    if proof.None? { return None; }
    var key := reader.Vec();
    if key.None? { return None; }
    var kind := reader.Varint();
    if kind.None? { return None; }
    var family := reader.Text(isText);
    if family.None? { return None; }
    var publics := reader.Vec();
    if publics.None? { return None; }
    return Joined(proof.value, key.value, kind.value, publics.value);
  }

  // ---- the round trip ----------------------------------------------------------------

  lemma WidthsHold()
    ensures Pow256(2) == 0x1_0000 && Pow256(4) == 0x1_0000_0000 && Pow256(8) == 0x1_0000_0000_0000_0000
    ensures Pow256(16) == 0x1_0000_0000_0000_0000_0000_0000_0000_0000
  {
    EightBytesHoldU64();
    assert Pow256(2) == 0x1_0000;
    assert Pow256(10) == 0x1_0000 * Pow256(8);
    assert Pow256(12) == 0x1_0000 * Pow256(10);
    assert Pow256(14) == 0x1_0000 * Pow256(12);
    assert Pow256(16) == 0x1_0000 * Pow256(14);
  }

  lemma TaggedRead(tag: Byte, v: nat, rest: seq<Byte>)
    requires 251 <= tag < 255 && v < Pow256(WidthOf(tag))
    ensures ReadVarint([tag] + LeBytes(v, WidthOf(tag)) + rest) == Some((v, rest))
  {
    var b := LeBytes(v, WidthOf(tag));
    var d := [tag] + b + rest;
    FromLeInverts(v, WidthOf(tag));
    assert d[0] == tag && d[1..] == b + rest;
    assert d[1..][..|b|] == b && d[1..][|b|..] == rest;
  }

  /** The variable-width format reads back what it wrote, at every width. */
  lemma VarintRead(v: U128, rest: seq<Byte>)
    ensures ReadVarint(Varint(v) + rest) == Some((v, rest))
  {
    WidthsHold();
    if v < 251 {
    } else if v < 0x1_0000 {
      TaggedRead(251, v, rest);
    } else if v < 0x1_0000_0000 {
      TaggedRead(252, v, rest);
    } else if v < 0x1_0000_0000_0000_0000 {
      TaggedRead(253, v, rest);
    } else {
      TaggedRead(254, v, rest);
    }
  }

  lemma {:induction false} VarintsRead(xs: seq<U64>, rest: seq<Byte>)
    ensures ReadVarints(Varints(xs) + rest, |xs|) == Some((xs, rest))
  {
    if xs == [] {
      assert Varints(xs) + rest == rest;
    } else {
      assert Varints(xs) + rest == Varint(xs[0]) + (Varints(xs[1..]) + rest);
      VarintRead(xs[0], Varints(xs[1..]) + rest);
      VarintsRead(xs[1..], rest);
      var words: seq<nat> := xs;
      assert [words[0]] + words[1..] == words;
    }
  }

  lemma VecRead(xs: seq<U64>, rest: seq<Byte>)
    requires |xs| < 0x1_0000_0000_0000_0000_0000_0000_0000_0000
    ensures ReadVec(VecU64(xs) + rest) == Some((xs, rest))
  {
    assert VecU64(xs) + rest == Varint(|xs|) + (Varints(xs) + rest);
    VarintRead(|xs|, Varints(xs) + rest);
    VarintsRead(xs, rest);
  }

  lemma TextRead(isText: seq<Byte> -> bool, rest: seq<Byte>)
    requires isText(HASH_FAMILY)
    ensures ReadText(Varint(|HASH_FAMILY|) + (HASH_FAMILY + rest), isText) == Some((HASH_FAMILY, rest))
  {
    VarintRead(|HASH_FAMILY|, HASH_FAMILY + rest);
    assert (HASH_FAMILY + rest)[..|HASH_FAMILY|] == HASH_FAMILY;
  }

  /** The parts join back to the words they were split from. */
  lemma PartsJoin(w: seq<U64>)
    requires PartsOf(w).Some?
    ensures var p := PartsOf(w).value; Joined(p.proof, p.ziskVk, p.kind, p.publicsFull) == Some(w)
  {
    var p := PartsOf(w).value;
    var publics := w[2..2 + w[1]];
    assert w == [w[0], w[1]] + publics + p.proof + p.ziskVk;
    if w[0] == 0 { assert publics == [publics[0]] + publics[1..]; }
    assert p.kind == 2 ==> [] + p.publicsFull == p.publicsFull;
  }

  /** words to bincode to words is the identity on every vector the writer accepts. */
  lemma WordsRoundTrip(w: seq<U64>, isText: seq<Byte> -> bool)
    requires ToBincode(w).Some? && isText(HASH_FAMILY)
    ensures ToWords(ToBincode(w).value, isText) == Some(Stripped(w))
  {
    var p := PartsOf(Stripped(w)).value;
    var text := Varint(|HASH_FAMILY|) + (HASH_FAMILY + Tail(p));
    VarintRead(0, VecU64(p.proof) + (VecU64(p.ziskVk) + (Varint(p.kind) + text)));
    VecRead(p.proof, VecU64(p.ziskVk) + (Varint(p.kind) + text));
    VecRead(p.ziskVk, Varint(p.kind) + text);
    VarintRead(p.kind, text);
    TextRead(isText, Tail(p));
    VecRead(p.publicsFull, VecU64(ProgramKey(p.publicsFull)) + Varint(0));
    PartsJoin(Stripped(w));
  }

  /** A bare proof is never mistaken for one with a word count, and a count is always dropped. */
  lemma CountIsUnambiguous(w: seq<U64>)
    requires PartsOf(w).Some?
    ensures Stripped(w) == w
    ensures |w| < 0x1_0000_0000_0000_0000 ==> Stripped([|w|] + w) == w
  {
  }
}
