/** The file an epoch boundary is kept in: its layout, its writer and its cursor. */
module BoundaryFile {
  import opened Wrappers
  import opened Bytes

  type Key48 = b: seq<Byte> | |b| == 48 witness seq(48, _ => 0)
  type Root32 = b: seq<Byte> | |b| == 32 witness seq(32, _ => 0)

  datatype Validator = Validator(
    index: U64, pubkey: Key48, withdrawalCredentials: Root32, effectiveBalance: U64,
    activationEligibilityEpoch: U64, activationEpoch: U64, exitEpoch: U64, withdrawableEpoch: U64, slashed: bool)

  datatype Committee = Committee(slot: U64, index: U64, validators: seq<U64>)

  datatype Inputs = Inputs(slot: U64, validators: seq<Validator>, committees: seq<Committee>)

  /** Vectors are no longer than a machine word counts. */
  predicate Sized(x: Inputs) {
    && |x.validators| < 0x1_0000_0000_0000_0000 && |x.committees| < 0x1_0000_0000_0000_0000
    && forall k :: 0 <= k < |x.committees| ==> |x.committees[k].validators| < 0x1_0000_0000_0000_0000
  }

  /** "ZKBOUND" and a one. */
  const MAGIC: seq<Byte> := [90, 75, 66, 79, 85, 78, 68, 1]
  const FORMAT_VERSION: nat := 1
  const HEADER: nat := 52

  // ---- writing -----------------------------------------------------------------------

  function ValidatorBytes(v: Validator): seq<Byte> {
    LeBytes(v.index, 8) + (v.pubkey + (v.withdrawalCredentials + (LeBytes(v.effectiveBalance, 8)
    + (LeBytes(v.activationEligibilityEpoch, 8) + (LeBytes(v.activationEpoch, 8) + (LeBytes(v.exitEpoch, 8)
    + (LeBytes(v.withdrawableEpoch, 8) + [if v.slashed then 1 else 0])))))))
  }

  function U64Bytes(n: U64): seq<Byte> { LeBytes(n, 8) }

  /** Items one after the other. */
  function Concat<T>(write: T -> seq<Byte>, items: seq<T>): seq<Byte> {
    if items == [] then [] else write(items[0]) + Concat(write, items[1..])
  }

  function CommitteeBytes(c: Committee): seq<Byte> {
    LeBytes(c.slot, 8) + (LeBytes(c.index, 8) + (LeBytes(|c.validators|, 8) + Concat(U64Bytes, c.validators)))
  }

  function BodyBytes(x: Inputs): seq<Byte> {
    LeBytes(|x.validators|, 8) + (Concat(ValidatorBytes, x.validators)
    + (LeBytes(|x.committees|, 8) + Concat(CommitteeBytes, x.committees)))
  }

  /** A checksum of 32 bytes. */
  type Checksum = seq<Byte> -> Root32

  /** `encode` */
  function Encode(x: Inputs, sha: Checksum): seq<Byte> {
    MAGIC + (LeBytes(FORMAT_VERSION, 4) + (LeBytes(x.slot, 8) + (sha(BodyBytes(x)) + BodyBytes(x))))
  }

  // ---- reading -----------------------------------------------------------------------

  function ReadU64(d: seq<Byte>): (r: Option<(U64, seq<Byte>)>) {
    if |d| < 8 then None
    else
      LeIsU64(d[..8]);
      Some((FromLe(d[..8]), d[8..]))
  }

  lemma LeIsU64(b: seq<Byte>)
    requires |b| == 8
    ensures FromLe(b) < 0x1_0000_0000_0000_0000
  {
    LeInverts(b);
    EightBytesHoldU64();
  }

  function ReadValidator(d: seq<Byte>): Option<(Validator, seq<Byte>)> {
    var index :- ReadU64(d);
    var pubkey :- Take(index.1, 48);
    var credentials :- Take(pubkey.1, 32);
    var balance :- ReadU64(credentials.1);
    var eligibility :- ReadU64(balance.1);
    var activation :- ReadU64(eligibility.1);
    var exit :- ReadU64(activation.1);
    var withdrawable :- ReadU64(exit.1);
    var slashed :- Take(withdrawable.1, 1);
    Some((Validator(index.0, pubkey.0, credentials.0, balance.0, eligibility.0, activation.0, exit.0,
                    withdrawable.0, slashed.0[0] == 1), slashed.1))
  }

  type Parser<!T> = seq<Byte> -> Option<(T, seq<Byte>)>

  /** `n` items off the front. */
  function ReadMany<T>(read: Parser<T>, d: seq<Byte>, n: nat): Option<(seq<T>, seq<Byte>)>
    decreases n
  {
    if n == 0 then Some(([], d))
    else
      var head :- read(d);
      var tail :- ReadMany(read, head.1, n - 1);
      Some(([head.0] + tail.0, tail.1))
  }

  function ReadCommittee(d: seq<Byte>): Option<(Committee, seq<Byte>)> {
    var slot :- ReadU64(d);
    var index :- ReadU64(slot.1);
    var members :- ReadU64(index.1);
    var validators :- ReadMany(ReadU64, members.1, members.0);
    Some((Committee(slot.0, index.0, validators.0), validators.1))
  }

  function ReadBody(slot: U64, d: seq<Byte>): Option<(Inputs, seq<Byte>)> {
    var validators :- ReadU64(d);
    var registry :- ReadMany(ReadValidator, validators.1, validators.0);
    var committees :- ReadU64(registry.1);
    var assignment :- ReadMany(ReadCommittee, committees.1, committees.0);
    Some((Inputs(slot, registry.0, assignment.0), assignment.1))
  }

  /** The body's fields and nothing after them. */
  function DecodeBody(slot: U64, body: seq<Byte>): Option<Inputs> {
    var read :- ReadBody(slot, body);
    if read.1 != [] then None else Some(read.0)
  }

  /** `decode` */
  function Decode(bytes: seq<Byte>, sha: Checksum): Option<Inputs> {
    if |bytes| < HEADER || bytes[..8] != MAGIC || FromLe(bytes[8..12]) != FORMAT_VERSION then None
    else
      LeIsU64(bytes[12..20]);
      if sha(bytes[52..]) != bytes[20..52] then None else DecodeBody(FromLe(bytes[12..20]), bytes[52..])
  }

  // ---- the round trip ------------------------------------------------------------------

  /** Reading undoes writing this item, whatever follows it. */
  ghost predicate Inverts<T>(write: T -> seq<Byte>, read: Parser<T>, item: T) {
    forall rest :: read(write(item) + rest) == Some((item, rest))
  }

  lemma {:induction false} ManyInvert<T>(write: T -> seq<Byte>, read: Parser<T>, items: seq<T>, rest: seq<Byte>)
    requires forall k :: 0 <= k < |items| ==> Inverts(write, read, items[k])
    ensures ReadMany(read, Concat(write, items) + rest, |items|) == Some((items, rest))
  {
    if items == [] {
      assert Concat(write, items) + rest == rest;
    } else {
      var others := Concat(write, items[1..]) + rest;
      assert Concat(write, items) + rest == write(items[0]) + others;
      assert Inverts(write, read, items[0]);
      ManyInvert(write, read, items[1..], rest);
      assert [items[0]] + items[1..] == items;
    }
  }

  lemma U64Reads(n: U64, rest: seq<Byte>)
    ensures ReadU64(LeBytes(n, 8) + rest) == Some((n, rest))
  {
    U64Inverts(n);
    assert (LeBytes(n, 8) + rest)[..8] == LeBytes(n, 8);
  }

  lemma ValidatorReads(v: Validator, rest: seq<Byte>)
    ensures ReadValidator(ValidatorBytes(v) + rest) == Some((v, rest))
  {
    var flag := [if v.slashed then 1 else 0];
    var d7 := LeBytes(v.withdrawableEpoch, 8) + (flag + rest);
    var d6 := LeBytes(v.exitEpoch, 8) + d7;
    var d5 := LeBytes(v.activationEpoch, 8) + d6;
    var d4 := LeBytes(v.activationEligibilityEpoch, 8) + d5;
    var d3 := LeBytes(v.effectiveBalance, 8) + d4;
    var d2 := v.withdrawalCredentials + d3;
    var d1 := v.pubkey + d2;
    assert ValidatorBytes(v) + rest == LeBytes(v.index, 8) + d1;
    U64Reads(v.index, d1);
    TakeWritten(v.pubkey, d2);
    TakeWritten(v.withdrawalCredentials, d3);
    U64Reads(v.effectiveBalance, d4);
    U64Reads(v.activationEligibilityEpoch, d5);
    U64Reads(v.activationEpoch, d6);
    U64Reads(v.exitEpoch, d7);
    U64Reads(v.withdrawableEpoch, flag + rest);
    TakeWritten(flag, rest);
  }

  lemma CommitteeReads(c: Committee, rest: seq<Byte>)
    requires |c.validators| < 0x1_0000_0000_0000_0000
    ensures ReadCommittee(CommitteeBytes(c) + rest) == Some((c, rest))
  {
    var d3 := Concat(U64Bytes, c.validators) + rest;
    var d2 := LeBytes(|c.validators|, 8) + d3;
    var d1 := LeBytes(c.index, 8) + d2;
    assert CommitteeBytes(c) + rest == LeBytes(c.slot, 8) + d1;
    U64Reads(c.slot, d1);
    U64Reads(c.index, d2);
    U64Reads(|c.validators|, d3);
    forall k | 0 <= k < |c.validators| ensures Inverts(U64Bytes, ReadU64, c.validators[k]) {
      forall more ensures ReadU64(U64Bytes(c.validators[k]) + more) == Some((c.validators[k], more)) {
        U64Reads(c.validators[k], more);
      }
    }
    ManyInvert(U64Bytes, ReadU64, c.validators, rest);
  }

  lemma BodyReads(x: Inputs, rest: seq<Byte>)
    requires Sized(x)
    ensures ReadBody(x.slot, BodyBytes(x) + rest) == Some((x, rest))
  {
    hide LeBytes, Concat, ReadU64, ReadMany, ValidatorBytes, CommitteeBytes, ReadValidator, ReadCommittee;
    var d3 := Concat(CommitteeBytes, x.committees) + rest;
    var d2 := LeBytes(|x.committees|, 8) + d3;
    var d1 := Concat(ValidatorBytes, x.validators) + d2;
    assert BodyBytes(x) + rest == LeBytes(|x.validators|, 8) + d1;
    U64Reads(|x.validators|, d1);
    U64Reads(|x.committees|, d3);
    forall k | 0 <= k < |x.validators| ensures Inverts(ValidatorBytes, ReadValidator, x.validators[k]) {
      forall more ensures ReadValidator(ValidatorBytes(x.validators[k]) + more) == Some((x.validators[k], more)) {
        ValidatorReads(x.validators[k], more);
      }
    }
    ManyInvert(ValidatorBytes, ReadValidator, x.validators, d2);
    forall k | 0 <= k < |x.committees| ensures Inverts(CommitteeBytes, ReadCommittee, x.committees[k]) {
      forall more ensures ReadCommittee(CommitteeBytes(x.committees[k]) + more) == Some((x.committees[k], more)) {
        CommitteeReads(x.committees[k], more);
      }
    }
    ManyInvert(CommitteeBytes, ReadCommittee, x.committees, rest);
  }

  /** A body that goes on after its last committee is refused, and only then. */
  lemma LeftoverIsRefused(x: Inputs, extra: seq<Byte>)
    requires Sized(x)
    ensures DecodeBody(x.slot, BodyBytes(x) + extra) == if extra == [] then Some(x) else None
  {
    BodyReads(x, extra);
  }

  lemma HeaderReads(slot: seq<Byte>, version: seq<Byte>, sum: seq<Byte>, body: seq<Byte>)
    requires |version| == 4 && |slot| == 8 && |sum| == 32
    ensures var b := MAGIC + (version + (slot + (sum + body)));
            |b| >= HEADER && b[..8] == MAGIC && b[8..12] == version && b[12..20] == slot && b[20..52] == sum && b[52..] == body
  {
  }

  /** `decode` undoes `encode` for every registry and assignment, under any checksum. */
  lemma DecodeInvertsEncode(x: Inputs, sha: Checksum)
    requires Sized(x)
    ensures Decode(Encode(x, sha), sha) == Some(x)
  {
    var body := BodyBytes(x);
    HeaderReads(LeBytes(x.slot, 8), LeBytes(FORMAT_VERSION, 4), sha(body), body);
    U64Inverts(x.slot);
    EightBytesHoldU64();
    FromLeInverts(FORMAT_VERSION, 4);
    LeftoverIsRefused(x, []);
    assert body + [] == body;
  }

  /** Bytes appended to a file are refused even when the checksum is made to match them. */
  lemma AppendedIsRefused(x: Inputs, extra: seq<Byte>, sha: Checksum)
    requires Sized(x) && extra != []
    ensures Decode(MAGIC + (LeBytes(FORMAT_VERSION, 4) + (LeBytes(x.slot, 8)
                   + (sha(BodyBytes(x) + extra) + (BodyBytes(x) + extra)))), sha) == None
  {
    var body := BodyBytes(x) + extra;
    HeaderReads(LeBytes(x.slot, 8), LeBytes(FORMAT_VERSION, 4), sha(body), body);
    U64Inverts(x.slot);
    LeftoverIsRefused(x, extra);
  }

  // ---- the loops -------------------------------------------------------------------------

  lemma {:induction false} ConcatStep<T>(write: T -> seq<Byte>, items: seq<T>, n: nat)
    requires n < |items|
    ensures Concat(write, items[..n + 1]) == Concat(write, items[..n]) + write(items[n])
  {
    ConcatAppends(write, items[..n], items[n]);
    assert items[..n + 1] == items[..n] + [items[n]];
  }

  lemma {:induction false} ConcatAppends<T>(write: T -> seq<Byte>, items: seq<T>, item: T)
    ensures Concat(write, items + [item]) == Concat(write, items) + write(item)
  {
    if items == [] {
      assert (items + [item])[1..] == [];
    } else {
      assert (items + [item])[1..] == items[1..] + [item];
      ConcatAppends(write, items[1..], item);
    }
  }

  /** Items appended to a buffer one by one. */
  method AppendAll<T>(buffer: seq<Byte>, write: T -> seq<Byte>, items: seq<T>) returns (out: seq<Byte>)
    ensures out == buffer + Concat(write, items)
  {
    out := buffer;
    for i := 0 to |items|
      invariant out == buffer + Concat(write, items[..i])
    {
      ConcatStep(write, items, i);
      out := out + write(items[i]);
    }
    assert items[..|items|] == items;
  }

  /** `encode`'s body: both vectors behind their counts. */
  method WriteBody(x: Inputs) returns (body: seq<Byte>)
    ensures body == BodyBytes(x)
  {
    body := AppendAll(LeBytes(|x.validators|, 8), ValidatorBytes, x.validators);
    body := body + LeBytes(|x.committees|, 8);
    body := AppendAll(body, CommitteeBytes, x.committees);
  }

  lemma {:induction false} ManyStep<T>(read: Parser<T>, d: seq<Byte>, k: nat, items: seq<T>, rest: seq<Byte>)
    requires ReadMany(read, d, k) == Some((items, rest))
    ensures read(rest).None? ==> ReadMany(read, d, k + 1).None?
    ensures read(rest).Some? ==> ReadMany(read, d, k + 1) == Some((items + [read(rest).value.0], read(rest).value.1))
    decreases k
  {
    if k > 0 {
      var head := read(d).value;
      ManyStep(read, head.1, k - 1, items[1..], rest);
      if read(rest).Some? {
        var item := read(rest).value.0;
        assert items + [item] == [items[0]] + (items[1..] + [item]);
      }
    } else if read(d).Some? {
      var head := read(d).value;
      assert ReadMany(read, head.1, 0) == Some(([], head.1));
      assert [head.0] + [] == items + [head.0];
    }
  }

  lemma {:induction false} ManyStops<T>(read: Parser<T>, d: seq<Byte>, k: nat, n: nat)
    requires ReadMany(read, d, k).None? && k <= n
    ensures ReadMany(read, d, n).None?
    decreases k
  {
    if k > 0 && read(d).Some? {
      ManyStops(read, read(d).value.1, k - 1, n - 1);
    }
  }

  /** A position in a file's body that only moves forward. */
  class Cursor {
    const body: seq<Byte>
    var at: nat

    ghost predicate Valid() reads this { at <= |body| }

    function Rest(): seq<Byte>
      requires Valid()
      reads this
    {
      body[at..]
    }

    constructor (bytes: seq<Byte>)
      ensures Valid() && body == bytes && Rest() == bytes
    {
      body, at := bytes, 0;
    }

    method TakeBytes(n: nat) returns (r: Option<seq<Byte>>)
      requires Valid()
      modifies this
      ensures Valid() && (r.None? <==> Take(old(Rest()), n).None?)
      ensures r.Some? ==> Take(old(Rest()), n) == Some((r.value, Rest()))
    {
      if at + n > |body| { return None; }
      ghost var rest := Rest();
      at := at + n;
      assert rest[..n] == body[at - n..at] && rest[n..] == Rest();
      return Some(body[at - n..at]);
    }

    method NextU64() returns (r: Option<U64>)
      requires Valid()
      modifies this
      ensures Valid() && (r.None? <==> ReadU64(old(Rest())).None?)
      ensures r.Some? ==> ReadU64(old(Rest())) == Some((r.value, Rest()))
    {
      var b := TakeBytes(8);
      if b.None? { return None; }
      LeIsU64(b.value);
      return Some(FromLe(b.value));
    }

    method NextValidator() returns (r: Option<Validator>)
      requires Valid()
      modifies this
      ensures Valid() && (r.None? <==> ReadValidator(old(Rest())).None?)
      ensures r.Some? ==> ReadValidator(old(Rest())) == Some((r.value, Rest()))
    {
      var index := NextU64();
      if index.None? { return None; }
      var pubkey := TakeBytes(48);
      if pubkey.None? { return None; }
      var credentials := TakeBytes(32);
      if credentials.None? { return None; }
      var balance := NextU64();
      if balance.None? { return None; }
      var eligibility := NextU64();
      if eligibility.None? { return None; }
      var activation := NextU64();
      if activation.None? { return None; }
      var exit := NextU64();
      if exit.None? { return None; }
      var withdrawable := NextU64();
      if withdrawable.None? { return None; }
      var slashed := TakeBytes(1);
      if slashed.None? { return None; }
      return Some(Validator(index.value, pubkey.value, credentials.value, balance.value, eligibility.value,
                            activation.value, exit.value, withdrawable.value, slashed.value[0] == 1));
    }

    method NextCommittee() returns (r: Option<Committee>)
      requires Valid()
      modifies this
      ensures Valid() && (r.None? <==> ReadCommittee(old(Rest())).None?)
      ensures r.Some? ==> ReadCommittee(old(Rest())) == Some((r.value, Rest()))
    {
      var slot := NextU64();
      if slot.None? { return None; }
      var index := NextU64();
      if index.None? { return None; }
      var members := NextU64();
      if members.None? { return None; }
      ghost var start := Rest();
      var validators: seq<U64> := [];
      for k := 0 to members.value
        invariant Valid() && ReadMany(ReadU64, start, k) == Some((validators, Rest()))
      {
        ManyStep(ReadU64, start, k, validators, Rest());
        var x := NextU64();
        if x.None? {
          ManyStops(ReadU64, start, k + 1, members.value);
          return None;
        }
        validators := validators + [x.value];
      }
      return Some(Committee(slot.value, index.value, validators));
    }

    method NextRegistry(n: nat) returns (r: Option<seq<Validator>>)
      requires Valid()
      modifies this
      ensures Valid() && (r.None? <==> ReadMany(ReadValidator, old(Rest()), n).None?)
      ensures r.Some? ==> ReadMany(ReadValidator, old(Rest()), n) == Some((r.value, Rest()))
    {
      ghost var start := Rest();
      var validators := [];
      for k := 0 to n
        invariant Valid() && ReadMany(ReadValidator, start, k) == Some((validators, Rest()))
      {
        ManyStep(ReadValidator, start, k, validators, Rest());
        var v := NextValidator();
        if v.None? {
          ManyStops(ReadValidator, start, k + 1, n);
          return None;
        }
        validators := validators + [v.value];
      }
      return Some(validators);
    }

    method NextCommittees(n: nat) returns (r: Option<seq<Committee>>)
      requires Valid()
      modifies this
      ensures Valid() && (r.None? <==> ReadMany(ReadCommittee, old(Rest()), n).None?)
      ensures r.Some? ==> ReadMany(ReadCommittee, old(Rest()), n) == Some((r.value, Rest()))
    {
      ghost var start := Rest();
      var committees := [];
      for k := 0 to n
        invariant Valid() && ReadMany(ReadCommittee, start, k) == Some((committees, Rest()))
      {
        ManyStep(ReadCommittee, start, k, committees, Rest());
        var c := NextCommittee();
        if c.None? {
          ManyStops(ReadCommittee, start, k + 1, n);
          return None;
        }
        committees := committees + [c.value];
      }
      return Some(committees);
    }
  }

  /** `decode`'s body, read by one cursor that must end where the file does. */
  method DecodeByCursor(slot: U64, body: seq<Byte>) returns (r: Option<Inputs>)
    ensures r == DecodeBody(slot, body)
  {
    var cursor := new Cursor(body);
    var validators := cursor.NextU64();
    if validators.None? { return None; }
    var registry := cursor.NextRegistry(validators.value);
    if registry.None? { return None; }
    var committees := cursor.NextU64();
    if committees.None? { return None; }
    var assignment := cursor.NextCommittees(committees.value);
    if assignment.None? { return None; }
    if cursor.at != |cursor.body| { return None; }
    return Some(Inputs(slot, registry.value, assignment.value));
  }
}
