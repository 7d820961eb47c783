/** Which words and which files are a proof's. */
module ProofExact {
  import opened Wrappers
  import opened Bytes
  import opened ProofWords

  // ---- flat words ------------------------------------------------------------------------------------

  /** A kind of proof, with publics whose count fits a word. */
  predicate Countable(kind: nat, publics: seq<U64>)
  {
    kind <= 2 && |publics| + (if kind == 2 then 0 else 1) < 0x1_0000_0000_0000_0000
  }

  /** The flat words of a proof: a flag, the length of what the hash commits to, that, the proof and
      its verification key. A proof of the first two kinds says which in one more word. */
  function FlatWords(kind: nat, publics: seq<U64>, proof: seq<U64>, key: seq<U64>): seq<U64>
    requires Countable(kind, publics)
  {
    (if kind == 2 then [1, |publics|] else [0, |publics| + 1, 1 - kind]) + publics + proof + key
  }

  lemma FlatIsSplit(kind: nat, publics: seq<U64>, proof: seq<U64>, key: seq<U64>)
    requires Countable(kind, publics) && |key| == 4 && proof != []
    ensures PartsOf(Stripped(FlatWords(kind, publics, proof, key)))
         == Some(Parts(kind, publics, proof, key))
  {
    var w := FlatWords(kind, publics, proof, key);
    var start := if kind == 2 then [1, |publics|] else [0, |publics| + 1, 1 - kind];
    var at := |start| + |publics|;
    assert w == start + (publics + (proof + key));
    assert Stripped(w) == w;
    assert w[0] == start[0] && w[1] == start[1];
    assert w[at..|w| - 4] == proof;
    assert w[|w| - 4..] == key;
    if kind == 2 {
      assert w[2..at] == publics;
    } else {
      assert w[2..at][0] == start[2];
      assert w[2..at][1..] == publics;
    }
  }

  lemma OneDigit(v: U128)
    requires v < 251
    ensures Varint(v) == [v]
  {
  }

  /** Splitting words apart finds parts if and only if the words are those parts laid flat. */
  lemma PartsAreFlat(w: seq<U64>, p: Parts)
    ensures PartsOf(w) == Some(p)
       <==> Countable(p.kind, p.publicsFull) && |p.ziskVk| == 4 && p.proof != []
            && w == FlatWords(p.kind, p.publicsFull, p.proof, p.ziskVk)
  {
    if PartsOf(w) == Some(p) {
      var n: nat := w[1];
      var publics := w[2..2 + n];
      CutInThree(w, 2 + n, |w| - 4);
      if w[0] == 1 {
        assert w[..2 + n] == [1, n] + publics;
      } else {
        assert w[..2 + n] == [0, n, publics[0]] + publics[1..];
      }
    }
    if Countable(p.kind, p.publicsFull) && |p.ziskVk| == 4 && p.proof != []
       && w == FlatWords(p.kind, p.publicsFull, p.proof, p.ziskVk) {
      FlatIsSplit(p.kind, p.publicsFull, p.proof, p.ziskVk);
    }
  }

  lemma CutInThree(w: seq<U64>, a: nat, b: nat)
    requires a <= b <= |w|
    ensures w == w[..a] + w[a..b] + w[b..]
  {
  }

  // ---- words to file ---------------------------------------------------------------------------------

  predicate WellFormed(p: Parts)
  {
    && Countable(p.kind, p.publicsFull) && |p.ziskVk| == 4
    && 0 < |p.proof| < 0x1_0000_0000_0000_0000_0000_0000_0000_0000
  }

  function Flat(p: Parts): seq<U64>
    requires WellFormed(p)
  {
    FlatWords(p.kind, p.publicsFull, p.proof, p.ziskVk)
  }

  /** After the hash's name: what the hash commits to, the first four words of that, and a zero. */
  function ProgramPart(publics: seq<U64>): seq<Byte>
    requires |publics| < 0x1_0000_0000_0000_0000
  {
    VecU64(publics) + (VecU64(if |publics| < 4 then publics else publics[..4]) + [0])
  }

  /** The hash's name, behind its length. */
  function HashPart(): seq<Byte>
  {
    [9, 80, 111, 115, 101, 105, 100, 111, 110, 49]
  }

  /** From the kind of proof on. */
  function KindPart(kind: Byte, publics: seq<U64>): seq<Byte>
    requires |publics| < 0x1_0000_0000_0000_0000
  {
    [kind] + (HashPart() + ProgramPart(publics))
  }

  /** A proof file: a zero, the proof, its key, its kind, the hash's name in nine letters, and the
      program's part. */
  function ProofFile(p: Parts): seq<Byte>
    requires WellFormed(p)
  {
    [0] + (VecU64(p.proof) + (VecU64(p.ziskVk) + KindPart(p.kind, p.publicsFull)))
  }

  lemma HashIsNamed(rest: seq<Byte>)
    ensures HashPart() + rest == Varint(|HASH_FAMILY|) + (HASH_FAMILY + rest)
  {
    OneDigit(9);
    assert HashPart() == [9] + HASH_FAMILY;
  }

  lemma FileIsProofs(w: seq<U64>, p: Parts)
    requires PartsOf(Stripped(w)) == Some(p) && WellFormed(p)
    ensures ToBincode(w) == Some(ProofFile(p))
  {
    hide VecU64, Varint, PartsOf, Stripped;
    OneDigit(0);
    OneDigit(p.kind);
    HashIsNamed(ProgramPart(p.publicsFull));
  }

  /** The words of a proof, with or without their count in front. */
  predicate WordsOf(w: seq<U64>, p: Parts)
    requires WellFormed(p)
  {
    w == Flat(p) || (w != [] && w[0] == |Flat(p)| && w[1..] == Flat(p))
  }

  lemma StrippedIsFlat(w: seq<U64>, p: Parts)
    requires WellFormed(p)
    ensures PartsOf(Stripped(w)) == Some(p) <==> WordsOf(w, p)
  {
    hide PartsOf, FlatWords;
    PartsAreFlat(Stripped(w), p);
    FlatHead(p);
  }

  lemma FlatHead(p: Parts)
    requires WellFormed(p)
    ensures |Flat(p)| > 6 && Flat(p)[0] <= 1
  {
  }

  /** Words become a file if and only if they are a proof's, and then the file is that proof's. */
  lemma BincodeIsExact(w: seq<U64>, file: seq<Byte>)
    ensures ToBincode(w) == Some(file) <==> exists p: Parts :: WellFormed(p) && WordsOf(w, p) && file == ProofFile(p)
  {
    hide Flat, ProofFile, WordsOf, Stripped, PartsOf;
    if ToBincode(w) == Some(file) {
      var p := AcceptedParts(w);
      StrippedIsFlat(w, p);
      FileIsProofs(w, p);
    }
    if p: Parts :| WellFormed(p) && WordsOf(w, p) && file == ProofFile(p) {
      StrippedIsFlat(w, p);
      FileIsProofs(w, p);
    }
  }

  lemma AcceptedParts(w: seq<U64>) returns (p: Parts)
    requires ToBincode(w).Some?
    ensures PartsOf(Stripped(w)) == Some(p) && WellFormed(p)
  {
    p := PartsOf(Stripped(w)).value;
    PartsAreFlat(Stripped(w), p);
  }

  // ---- file to words ---------------------------------------------------------------------------------

  function Numbers(xs: seq<U128>): seq<Byte>
  {
    if xs == [] then [] else Varint(xs[0]) + Numbers(xs[1..])
  }

  function Vec(xs: seq<U128>): seq<Byte>
    requires |xs| < 0x1_0000_0000_0000_0000_0000_0000_0000_0000
  {
    Varint(|xs|) + Numbers(xs)
  }

  /** What a proof file says, whatever it says. */
  datatype Said = Said(body: U128, proof: seq<U128>, key: seq<U128>, kind: U128, name: seq<Byte>, publics: seq<U128>)

  predicate Writable(s: Said)
  {
    && |s.proof| < 0x1_0000_0000_0000_0000_0000_0000_0000_0000 && |s.key| < 0x1_0000_0000_0000_0000_0000_0000_0000_0000
    && |s.name| < 0x1_0000_0000_0000_0000_0000_0000_0000_0000 && |s.publics| < 0x1_0000_0000_0000_0000_0000_0000_0000_0000
  }

  function Written(s: Said, rest: seq<Byte>): seq<Byte>
    requires Writable(s)
  {
    Varint(s.body) + (Vec(s.proof) + (Vec(s.key) + (Varint(s.kind) + (Varint(|s.name|) + (s.name + (Vec(s.publics) + rest))))))
  }

  /** A flag, a count, which of the first two kinds, and the three vectors. */
  function Laid(proof: seq<nat>, key: seq<nat>, kind: nat, publics: seq<nat>): seq<nat>
    requires kind <= 2
  {
    (if kind == 2 then [1, |publics|] else [0, |publics| + 1, 1 - kind]) + publics + proof + key
  }

  /** The words it would make. */
  function Words(s: Said): seq<nat>
    requires s.kind <= 2
  {
    Laid(s.proof, s.key, s.kind, s.publics)
  }

  predicate AllWords(words: seq<nat>)
  {
    forall k :: 0 <= k < |words| ==> words[k] < 0x1_0000_0000_0000_0000
  }

  lemma {:induction false} NumbersRead(xs: seq<U128>, rest: seq<Byte>)
    ensures ReadVarints(Numbers(xs) + rest, |xs|) == Some((xs, rest))
    decreases |xs|
  {
    hide Varint, ReadVarint;
    if xs == [] {
      assert Numbers(xs) + rest == rest;
    } else {
      assert Numbers(xs) + rest == Varint(xs[0]) + (Numbers(xs[1..]) + rest);
      VarintRead(xs[0], Numbers(xs[1..]) + rest);
      NumbersRead(xs[1..], rest);
      assert [xs[0]] + xs[1..] == xs;
    }
  }

  lemma VecRead(xs: seq<U128>, rest: seq<Byte>)
    requires |xs| < 0x1_0000_0000_0000_0000_0000_0000_0000_0000
    ensures ReadVec(Vec(xs) + rest) == Some((xs, rest))
  {
    hide Varint, ReadVarint, ReadVarints, Numbers;
    assert Vec(xs) + rest == Varint(|xs|) + (Numbers(xs) + rest);
    VarintRead(|xs|, Numbers(xs) + rest);
    NumbersRead(xs, rest);
  }

  lemma TextRead(name: seq<Byte>, rest: seq<Byte>, isText: seq<Byte> -> bool)
    requires |name| < 0x1_0000_0000_0000_0000_0000_0000_0000_0000
    ensures ReadText(Varint(|name|) + (name + rest), isText) == if isText(name) then Some((name, rest)) else None
  {
    hide Varint, ReadVarint;
    VarintRead(|name|, name + rest);
    assert (name + rest)[..|name|] == name && (name + rest)[|name|..] == rest;
  }

  /** The reader makes words of a file that says these things, whatever follows them, if and only if
      it starts with a zero, its kind is known, its name is text and every number is a word. */
  lemma WordsAreSaid(s: Said, rest: seq<Byte>, isText: seq<Byte> -> bool)
    requires Writable(s)
    ensures ToWords(Written(s, rest), isText)
         == if s.body == 0 && s.kind <= 2 && isText(s.name) && AllWords(Words(s)) then Some(Words(s)) else None
  {
    hide Varint, Vec, ReadVarint, ReadVec, ReadText, Joined;
    var d5 := Vec(s.publics) + rest;
    var d4 := Varint(|s.name|) + (s.name + d5);
    var d3 := Varint(s.kind) + d4;
    var d2 := Vec(s.key) + d3;
    var d1 := Vec(s.proof) + d2;
    VarintRead(s.body, d1);
    VecRead(s.proof, d2);
    VecRead(s.key, d3);
    VarintRead(s.kind, d4);
    TextRead(s.name, d5, isText);
    VecRead(s.publics, rest);
    JoinedIsLaid(s.proof, s.key, s.kind, s.publics);
  }

  lemma JoinedIsLaid(proof: seq<nat>, key: seq<nat>, kind: nat, publics: seq<nat>)
    ensures Joined(proof, key, kind, publics)
         == if kind <= 2 && AllWords(Laid(proof, key, kind, publics)) then Some(Laid(proof, key, kind, publics)) else None
  {
    hide Laid, JoinedWords;
    if kind <= 2 {
      JoinedWordsAreLaid(proof, key, kind, publics);
    }
  }

  lemma JoinedWordsAreLaid(proof: seq<nat>, key: seq<nat>, kind: nat, publics: seq<nat>)
    requires kind <= 2
    ensures JoinedWords(proof, key, kind, publics) == Laid(proof, key, kind, publics)
  {
    var stark := (if kind == 0 then [1] else if kind == 1 then [0] else []) + publics;
    StarkIsLaid(stark, kind, publics);
    assert [if kind == 2 then 1 else 0, |stark|] + stark + proof + key == Laid(proof, key, kind, publics);
  }

  lemma StarkIsLaid(stark: seq<nat>, kind: nat, publics: seq<nat>)
    requires kind <= 2 && stark == (if kind == 0 then [1] else if kind == 1 then [0] else []) + publics
    ensures [if kind == 2 then 1 else 0, |stark|] + stark
         == (if kind == 2 then [1, |publics|] else [0, |publics| + 1, 1 - kind]) + publics
  {
    if kind < 2 {
      assert [0, |stark|] + ([1 - kind] + publics) == [0, |stark|, 1 - kind] + publics;
    } else {
      assert [] + publics == publics;
    }
  }
}
