/** The balance accumulator: its hashes idealised as a free datatype, and what a commitment
    to it means. */
module Accumulator {
  import opened FormalSums
  import opened Merkle
  import opened Bls

  /** A digest remembers its preimage and its domain. */
  datatype Digest =
    | Zero
    | Leaf(key: Point, balance: nat)
    | Inner(left: Digest, right: Digest)
    | Commitment(root: Digest, total: nat)
    | MillerDigest(accumulator: Fp12)

  function Compress(left: Digest, right: Digest): Digest
  {
    Inner(left, right)
  }

  const U64: nat := 0x1_0000_0000_0000_0000

  type UInt64 = n: nat | n < U64

  /** Unchecked subtraction of two 64-bit words in a release build. */
  function WrappingSub(a: nat, b: nat): int
  {
    if a >= b then a - b else a - b + U64
  }

  /** Unchecked addition of two 64-bit words in a release build. */
  function WrappingAdd(a: nat, b: nat): (r: nat)
    ensures a < U64 && b < U64 ==> r < U64
  {
    if a + b < U64 then a + b else a + b - U64
  }

  lemma NoWrap(a: nat, b: nat)
    requires a + b < U64
    ensures WrappingAdd(a, b) == a + b
  {
  }

  function BalanceOf(leaf: Digest): nat
  {
    if leaf.Leaf? then leaf.balance else 0
  }

  /** The total a leaf vector carries. */
  function Total(leaves: seq<Digest>): nat
  {
    if leaves == [] then 0 else Total(leaves[..|leaves| - 1]) + BalanceOf(leaves[|leaves| - 1])
  }

  /** Each occupied position holds the key of the validator it is named after. */
  ghost predicate Registry(leaves: seq<Digest>)
  {
    forall i: nat :: i < |leaves| ==> leaves[i] == Zero || (leaves[i].Leaf? && leaves[i].key == Unit(i))
  }

  /** A commitment to a whole tree of leaves and to their total. */
  ghost predicate Commits(commitment: Digest, leaves: seq<Digest>, depth: nat)
  {
    && |leaves| == Pow2(depth)
    && Total(leaves) < U64
    && commitment == Commitment(Root(Compress, Zero, leaves, depth), Total(leaves))
  }

  /** The balance at a position, zero outside the tree. */
  ghost function Balances(leaves: seq<Digest>): nat -> int
  {
    (i: nat) => if i < |leaves| then BalanceOf(leaves[i]) else 0
  }

  function FirstPositions(n: nat): (s: set<nat>)
    ensures forall i: nat :: i in s <==> i < n
  {
    if n == 0 then {} else FirstPositions(n - 1) + {n - 1}
  }

  lemma {:induction false} TotalIsSum(leaves: seq<Digest>, n: nat)
    requires n <= |leaves|
    ensures Total(leaves[..n]) == SumOver(FirstPositions(n), Balances(leaves))
  {
    var below: set<nat> := FirstPositions(n);
    if n == 0 {
      assert below == {};
    } else {
      assert leaves[..n][..n - 1] == leaves[..n - 1];
      TotalIsSum(leaves, n - 1);
      SumTakes<nat>(below, Balances(leaves), n - 1);
      assert below - {n - 1} == FirstPositions(n - 1);
    }
  }

  /** Balances of distinct positions never exceed the total. */
  lemma PartOfTotal(leaves: seq<Digest>, positions: set<nat>)
    ensures 0 <= SumOver(positions, Balances(leaves)) <= Total(leaves)
  {
    var bal := Balances(leaves);
    var all: set<nat> := FirstPositions(|leaves|);
    SumExtends<nat>(positions * all, positions, bal);
    SumPart<nat>(positions * all, all, bal);
    TotalIsSum(leaves, |leaves|);
    assert leaves[..|leaves|] == leaves;
  }
}
