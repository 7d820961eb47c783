/** Which bytes are a boundary file: those the writer makes, but for the flag bytes, of which only
    a one counts. */
module BoundaryDecode {
  import opened Wrappers
  import opened Bytes
  import opened BoundaryFile

  /** Flag bytes that say of each validator whether it is slashed. */
  predicate FlagsOf(flags: seq<Byte>, vs: seq<Validator>)
  {
    |flags| == |vs| && forall i :: 0 <= i < |vs| ==> (flags[i] == 1 <==> vs[i].slashed)
  }

  /** A validator under a flag byte of its own. */
  function FlaggedBytes(v: Validator, flag: Byte): (b: seq<Byte>)
    ensures |b| == 129
  {
    LeBytes(v.index, 8) + (v.pubkey + (v.withdrawalCredentials + (LeBytes(v.effectiveBalance, 8)
    + (LeBytes(v.activationEligibilityEpoch, 8) + (LeBytes(v.activationEpoch, 8) + (LeBytes(v.exitEpoch, 8)
    + (LeBytes(v.withdrawableEpoch, 8) + [flag])))))))
  }

  function FlaggedRegistry(vs: seq<Validator>, flags: seq<Byte>): seq<Byte>
    requires |flags| == |vs|
  {
    if vs == [] then [] else FlaggedBytes(vs[0], flags[0]) + FlaggedRegistry(vs[1..], flags[1..])
  }

  function FlaggedBody(x: Inputs, flags: seq<Byte>): seq<Byte>
    requires |flags| == |x.validators|
  {
    LeBytes(|x.validators|, 8) + (FlaggedRegistry(x.validators, flags)
    + (LeBytes(|x.committees|, 8) + Concat(CommitteeBytes, x.committees)))
  }

  /** A file as the writer makes it, under these flag bytes. */
  function FlaggedFile(x: Inputs, flags: seq<Byte>, sha: Checksum): seq<Byte>
    requires |flags| == |x.validators|
  {
    var body := FlaggedBody(x, flags);
    [90, 75, 66, 79, 85, 78, 68, 1] + (LeBytes(1, 4) + (LeBytes(x.slot, 8) + (sha(body) + body)))
  }

  // ---- what is read was written ----------------------------------------------------------------------

  /** Whatever the parser reads is what the writer writes. */
  ghost predicate ReadsBack<T(!new)>(write: T -> seq<Byte>, read: Parser<T>)
  {
    forall d :: read(d).Some? ==> d == write(read(d).value.0) + read(d).value.1
  }

  lemma U64ReadsBack()
    ensures ReadsBack(U64Bytes, ReadU64)
  {
    forall d | ReadU64(d).Some? ensures d == U64Bytes(ReadU64(d).value.0) + ReadU64(d).value.1 {
      LeInverts(d[..8]);
    }
  }

  lemma {:induction false} ManyReadBack<T(!new)>(write: T -> seq<Byte>, read: Parser<T>, d: seq<Byte>, n: nat)
    requires ReadsBack(write, read) && ReadMany(read, d, n).Some?
    ensures
      var r := ReadMany(read, d, n).value;
      |r.0| == n && d == Concat(write, r.0) + r.1
    decreases n
  {
    if n > 0 {
      var head := read(d).value;
      ManyReadBack(write, read, head.1, n - 1);
      var tail := ReadMany(read, head.1, n - 1).value;
      assert ([head.0] + tail.0)[1..] == tail.0;
      assert write(head.0) + (Concat(write, tail.0) + tail.1) == (write(head.0) + Concat(write, tail.0)) + tail.1;
    } else {
      assert d == [] + d;
    }
  }

  lemma CommitteeReadsBack()
    ensures ReadsBack(CommitteeBytes, ReadCommittee)
  {
    U64ReadsBack();
    forall d | ReadCommittee(d).Some? ensures d == CommitteeBytes(ReadCommittee(d).value.0) + ReadCommittee(d).value.1 {
      CommitteeReadBack(d);
    }
  }

  lemma CommitteeReadBack(d: seq<Byte>)
    requires ReadCommittee(d).Some? && ReadsBack(U64Bytes, ReadU64)
    ensures
      var r := ReadCommittee(d).value;
      |r.0.validators| < 0x1_0000_0000_0000_0000 && d == CommitteeBytes(r.0) + r.1
  {
    hide LeBytes, Concat;
    var r := ReadCommittee(d).value;
    var slot := ReadU64(d).value;
    var index := ReadU64(slot.1).value;
    var members := ReadU64(index.1).value;
    ManyReadBack(U64Bytes, ReadU64, members.1, members.0);
    FourParts(LeBytes(slot.0, 8), LeBytes(index.0, 8), LeBytes(members.0, 8), Concat(U64Bytes, r.0.validators), r.1);
  }

  lemma FourParts(a: seq<Byte>, b: seq<Byte>, c: seq<Byte>, e: seq<Byte>, rest: seq<Byte>)
    ensures a + (b + (c + (e + rest))) == (a + (b + (c + e))) + rest
  {
    assert (c + (e + rest)) == (c + e) + rest;
    assert (b + ((c + e) + rest)) == (b + (c + e)) + rest;
  }

  lemma TakenBack(d: seq<Byte>, n: nat)
    requires Take(d, n).Some?
    ensures |Take(d, n).value.0| == n && d == Take(d, n).value.0 + Take(d, n).value.1
  {
  }

  lemma Nested(a: seq<Byte>, inner: seq<Byte>, rest: seq<Byte>)
    ensures a + (inner + rest) == (a + inner) + rest
  {
  }

  /** A validator read is one under the flag byte found. */
  lemma ValidatorReadBack(d: seq<Byte>) returns (flag: Byte)
    requires ReadValidator(d).Some?
    ensures
      var r := ReadValidator(d).value;
      d == FlaggedBytes(r.0, flag) + r.1 && (r.0.slashed <==> flag == 1)
  {
    hide LeBytes, ReadU64, Take;
    U64ReadsBack();
    var index := ReadU64(d).value;
    TakenBack(index.1, 48);
    var pubkey := Take(index.1, 48).value;
    TakenBack(pubkey.1, 32);
    var credentials := Take(pubkey.1, 32).value;
    var balance := ReadU64(credentials.1).value;
    var eligibility := ReadU64(balance.1).value;
    var activation := ReadU64(eligibility.1).value;
    var exit := ReadU64(activation.1).value;
    var withdrawable := ReadU64(exit.1).value;
    TakenBack(withdrawable.1, 1);
    var slashed := Take(withdrawable.1, 1).value;
    flag := slashed.0[0];
    assert slashed.0 == [flag];
    var s7 := LeBytes(withdrawable.0, 8) + slashed.0;
    Nested(LeBytes(withdrawable.0, 8), slashed.0, slashed.1);
    var s6 := LeBytes(exit.0, 8) + s7;
    Nested(LeBytes(exit.0, 8), s7, slashed.1);
    var s5 := LeBytes(activation.0, 8) + s6;
    Nested(LeBytes(activation.0, 8), s6, slashed.1);
    var s4 := LeBytes(eligibility.0, 8) + s5;
    Nested(LeBytes(eligibility.0, 8), s5, slashed.1);
    var s3 := LeBytes(balance.0, 8) + s4;
    Nested(LeBytes(balance.0, 8), s4, slashed.1);
    var s2 := credentials.0 + s3;
    Nested(credentials.0, s3, slashed.1);
    var s1 := pubkey.0 + s2;
    Nested(pubkey.0, s2, slashed.1);
    Nested(LeBytes(index.0, 8), s1, slashed.1);
  }

  lemma {:induction false} RegistryReadBack(d: seq<Byte>, n: nat) returns (flags: seq<Byte>)
    requires ReadMany(ReadValidator, d, n).Some?
    ensures
      var r := ReadMany(ReadValidator, d, n).value;
      |r.0| == n && FlagsOf(flags, r.0) && d == FlaggedRegistry(r.0, flags) + r.1
    decreases n
  {
    hide ReadValidator, FlaggedBytes;
    if n == 0 {
      flags := [];
      assert d == [] + d;
    } else {
      var flag := ValidatorReadBack(d);
      var head := ReadValidator(d).value;
      var others := RegistryReadBack(head.1, n - 1);
      var tail := ReadMany(ReadValidator, head.1, n - 1).value;
      flags := [flag] + others;
      assert ([head.0] + tail.0)[1..] == tail.0 && flags[1..] == others;
      Nested(FlaggedBytes(head.0, flag), FlaggedRegistry(tail.0, others), tail.1);
    }
  }

  lemma BodyReadBack(slot: U64, d: seq<Byte>) returns (flags: seq<Byte>)
    requires ReadBody(slot, d).Some?
    ensures
      var x, rest := ReadBody(slot, d).value.0, ReadBody(slot, d).value.1;
      x.slot == slot && Sized(x) && FlagsOf(flags, x.validators) && d == FlaggedBody(x, flags) + rest
  {
    hide LeBytes, ReadValidator, ReadCommittee, Concat, FlaggedRegistry;
    U64ReadsBack();
    var x, rest := ReadBody(slot, d).value.0, ReadBody(slot, d).value.1;
    var validators := ReadU64(d).value;
    flags := RegistryReadBack(validators.1, validators.0);
    var registry := ReadMany(ReadValidator, validators.1, validators.0).value;
    var committees := ReadU64(registry.1).value;
    CommitteeReadsBack();
    ManyReadBack(CommitteeBytes, ReadCommittee, committees.1, committees.0);
    CommitteesSized(committees.1, committees.0);
    FourParts(LeBytes(validators.0, 8), FlaggedRegistry(x.validators, flags), LeBytes(committees.0, 8),
              Concat(CommitteeBytes, x.committees), rest);
  }

  lemma {:induction false} CommitteesSized(d: seq<Byte>, n: nat)
    requires ReadMany(ReadCommittee, d, n).Some?
    ensures forall c :: c in ReadMany(ReadCommittee, d, n).value.0 ==> |c.validators| < 0x1_0000_0000_0000_0000
    decreases n
  {
    hide ReadCommittee;
    if n > 0 {
      U64ReadsBack();
      CommitteeReadBack(d);
      CommitteesSized(ReadCommittee(d).value.1, n - 1);
    }
  }

  // ---- what was written is read ----------------------------------------------------------------------

  lemma FlaggedReads(v: Validator, flag: Byte, rest: seq<Byte>)
    requires flag == 1 <==> v.slashed
    ensures ReadValidator(FlaggedBytes(v, flag) + rest) == Some((v, rest))
  {
    hide LeBytes, ReadU64, Take;
    var d7 := LeBytes(v.withdrawableEpoch, 8) + ([flag] + rest);
    Nested(LeBytes(v.withdrawableEpoch, 8), [flag], rest);
    var s7 := LeBytes(v.withdrawableEpoch, 8) + [flag];
    var d6 := LeBytes(v.exitEpoch, 8) + d7;
    Nested(LeBytes(v.exitEpoch, 8), s7, rest);
    var s6 := LeBytes(v.exitEpoch, 8) + s7;
    var d5 := LeBytes(v.activationEpoch, 8) + d6;
    Nested(LeBytes(v.activationEpoch, 8), s6, rest);
    var s5 := LeBytes(v.activationEpoch, 8) + s6;
    var d4 := LeBytes(v.activationEligibilityEpoch, 8) + d5;
    Nested(LeBytes(v.activationEligibilityEpoch, 8), s5, rest);
    var s4 := LeBytes(v.activationEligibilityEpoch, 8) + s5;
    var d3 := LeBytes(v.effectiveBalance, 8) + d4;
    Nested(LeBytes(v.effectiveBalance, 8), s4, rest);
    var s3 := LeBytes(v.effectiveBalance, 8) + s4;
    var d2 := v.withdrawalCredentials + d3;
    Nested(v.withdrawalCredentials, s3, rest);
    var s2 := v.withdrawalCredentials + s3;
    var d1 := v.pubkey + d2;
    Nested(v.pubkey, s2, rest);
    var s1 := v.pubkey + s2;
    Nested(LeBytes(v.index, 8), s1, rest);
    U64Reads(v.index, d1);
    TakeWritten(v.pubkey, d2);
    TakeWritten(v.withdrawalCredentials, d3);
    U64Reads(v.effectiveBalance, d4);
    U64Reads(v.activationEligibilityEpoch, d5);
    U64Reads(v.activationEpoch, d6);
    U64Reads(v.exitEpoch, d7);
    U64Reads(v.withdrawableEpoch, [flag] + rest);
    TakeWritten([flag], rest);
  }

  lemma {:induction false} RegistryReads(vs: seq<Validator>, flags: seq<Byte>, rest: seq<Byte>)
    requires FlagsOf(flags, vs)
    ensures ReadMany(ReadValidator, FlaggedRegistry(vs, flags) + rest, |vs|) == Some((vs, rest))
    decreases |vs|
  {
    hide ReadValidator, FlaggedBytes;
    if vs == [] {
      assert FlaggedRegistry(vs, flags) + rest == rest;
    } else {
      var others := FlaggedRegistry(vs[1..], flags[1..]);
      Nested(FlaggedBytes(vs[0], flags[0]), others, rest);
      FlaggedReads(vs[0], flags[0], others + rest);
      RegistryReads(vs[1..], flags[1..], rest);
      assert [vs[0]] + vs[1..] == vs;
    }
  }

  lemma FlaggedBodyReads(x: Inputs, flags: seq<Byte>)
    requires Sized(x) && FlagsOf(flags, x.validators)
    ensures ReadBody(x.slot, FlaggedBody(x, flags)) == Some((x, []))
  {
    hide LeBytes, ReadU64, ReadValidator, ReadCommittee, Concat, FlaggedRegistry, ReadMany;
    var d3 := Concat(CommitteeBytes, x.committees);
    var d2 := LeBytes(|x.committees|, 8) + d3;
    U64Reads(|x.validators|, FlaggedRegistry(x.validators, flags) + d2);
    RegistryReads(x.validators, flags, d2);
    U64Reads(|x.committees|, d3);
    CommitteesRead(x);
    assert d3 + [] == d3;
  }

  lemma CommitteesRead(x: Inputs)
    requires Sized(x)
    ensures ReadMany(ReadCommittee, Concat(CommitteeBytes, x.committees) + [], |x.committees|) == Some((x.committees, []))
  {
    hide ReadCommittee, CommitteeBytes, ReadMany;
    forall k | 0 <= k < |x.committees| ensures Inverts(CommitteeBytes, ReadCommittee, x.committees[k]) {
      forall more ensures ReadCommittee(CommitteeBytes(x.committees[k]) + more) == Some((x.committees[k], more)) {
        CommitteeReads(x.committees[k], more);
      }
    }
    ManyInvert(CommitteeBytes, ReadCommittee, x.committees, []);
  }

  // ---- the theorem -----------------------------------------------------------------------------------

  lemma HeaderIsExact(bytes: seq<Byte>, sha: Checksum, x: Inputs)
    ensures Decode(bytes, sha) == Some(x)
       <==>
       && |bytes| >= 52 && bytes[..8] == [90, 75, 66, 79, 85, 78, 68, 1] && bytes[8..12] == LeBytes(1, 4)
       && bytes[12..20] == LeBytes(x.slot, 8) && bytes[20..52] == sha(bytes[52..])
       && DecodeBody(x.slot, bytes[52..]) == Some(x)
  {
    hide LeBytes, FromLe, DecodeBody;
    if |bytes| >= 52 {
      LeInverts(bytes[8..12]);
      LeInverts(bytes[12..20]);
      U64Inverts(x.slot);
      EightBytesHoldU64();
      FromLeInverts(1, 4);
      SlotIsKept(bytes, sha, x);
    }
  }

  lemma SlotIsKept(bytes: seq<Byte>, sha: Checksum, x: Inputs)
    ensures Decode(bytes, sha) == Some(x) ==> |bytes| >= 52 && x.slot == FromLe(bytes[12..20])
  {
    hide LeBytes, FromLe, ReadMany, ReadU64;
  }

  lemma CutOff(bytes: seq<Byte>, a: nat, b: nat)
    requires a <= b <= |bytes|
    ensures bytes[a..] == bytes[a..b] + bytes[b..]
  {
  }

  lemma CutAtHeader(bytes: seq<Byte>)
    requires |bytes| >= 52
    ensures bytes == bytes[..8] + (bytes[8..12] + (bytes[12..20] + (bytes[20..52] + bytes[52..])))
  {
    assert bytes == bytes[..8] + bytes[8..];
    CutOff(bytes, 8, 12);
    CutOff(bytes, 12, 20);
    CutOff(bytes, 20, 52);
  }

  /** Decoding, exactly. Bytes decode to a registry and its committees if and only if they are the
      file the writer makes for them, checksum and all and nothing after, except that any flag byte
      but a one stands for a validator that is not slashed. */
  lemma DecodeIsExact(bytes: seq<Byte>, sha: Checksum, x: Inputs)
    ensures Decode(bytes, sha) == Some(x)
       <==> Sized(x) && exists flags :: FlagsOf(flags, x.validators) && bytes == FlaggedFile(x, flags, sha)
  {
    hide LeBytes, Decode, ReadBody, FlaggedBody, Sized;
    HeaderIsExact(bytes, sha, x);
    if Decode(bytes, sha) == Some(x) {
      var flags := BodyReadBack(x.slot, bytes[52..]);
      assert bytes[52..] == FlaggedBody(x, flags) by { assert FlaggedBody(x, flags) + [] == FlaggedBody(x, flags); }
      CutAtHeader(bytes);
      assert bytes == FlaggedFile(x, flags, sha);
    }
    if flags :| Sized(x) && FlagsOf(flags, x.validators) && bytes == FlaggedFile(x, flags, sha) {
      HeaderReads(LeBytes(x.slot, 8), LeBytes(1, 4), sha(FlaggedBody(x, flags)), FlaggedBody(x, flags));
      FlaggedBodyReads(x, flags);
    }
  }

  /** The writer's own file is the one whose flag bytes are zeros and ones. */
  lemma EncodeIsFlagged(x: Inputs, sha: Checksum) returns (flags: seq<Byte>)
    ensures FlagsOf(flags, x.validators) && (forall f :: f in flags ==> f <= 1)
    ensures Encode(x, sha) == FlaggedFile(x, flags, sha)
  {
    flags := seq(|x.validators|, (i: nat) requires i < |x.validators| => if x.validators[i].slashed then 1 else 0);
    RegistryIsFlagged(x.validators, flags);
  }

  lemma {:induction false} RegistryIsFlagged(vs: seq<Validator>, flags: seq<Byte>)
    requires |flags| == |vs| && forall i :: 0 <= i < |vs| ==> flags[i] == if vs[i].slashed then 1 else 0
    ensures Concat(ValidatorBytes, vs) == FlaggedRegistry(vs, flags)
    decreases |vs|
  {
    hide LeBytes;
    if vs != [] {
      RegistryIsFlagged(vs[1..], flags[1..]);
    }
  }
}
