/** Fixed-width little-endian integers. */
module Bytes {
  import opened Wrappers

  type Byte = b: nat | b < 256

  ghost function Pow256(k: nat): (p: nat) ensures p > 0 { if k == 0 then 1 else 256 * Pow256(k - 1) }

  /** `to_le_bytes` */
  function LeBytes(n: nat, width: nat): (b: seq<Byte>)
    ensures |b| == width
  {
    if width == 0 then [] else [n % 256] + LeBytes(n / 256, width - 1)
  }

  /** `from_le_bytes` */
  function FromLe(b: seq<Byte>): nat {
    if b == [] then 0 else b[0] + 256 * FromLe(b[1..])
  }

  lemma {:induction false} FromLeInverts(n: nat, width: nat)
    requires n < Pow256(width)
    ensures FromLe(LeBytes(n, width)) == n
  {
    if width > 0 {
      FromLeInverts(n / 256, width - 1);
      assert LeBytes(n, width)[1..] == LeBytes(n / 256, width - 1);
    }
  }

  lemma {:induction false} LeInverts(b: seq<Byte>)
    ensures FromLe(b) < Pow256(|b|) && LeBytes(FromLe(b), |b|) == b
  {
    if b != [] {
      LeInverts(b[1..]);
      assert FromLe(b) / 256 == FromLe(b[1..]);
    }
  }

  type U64 = n: nat | n < 0x1_0000_0000_0000_0000

  lemma EightBytesHoldU64()
    ensures Pow256(4) == 0x1_0000_0000
    ensures Pow256(8) == 0x1_0000_0000_0000_0000
  {
    assert Pow256(2) == 0x1_0000;
    assert Pow256(4) == 0x1_0000 * Pow256(2);
    assert Pow256(6) == 0x1_0000 * Pow256(4);
    assert Pow256(8) == 0x1_0000 * Pow256(6);
  }

  /** A written u64 reads back. */
  lemma U64Inverts(n: U64)
    ensures FromLe(LeBytes(n, 8)) == n
  {
    EightBytesHoldU64();
    FromLeInverts(n, 8);
  }

  /** `n` bytes off the front, or a truncated input. */
  function Take(d: seq<Byte>, n: nat): Option<(seq<Byte>, seq<Byte>)> {
    if |d| < n then None else Some((d[..n], d[n..]))
  }

  lemma TakeWritten(b: seq<Byte>, rest: seq<Byte>)
    ensures Take(b + rest, |b|) == Some((b, rest))
  {
  }
}
