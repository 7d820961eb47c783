/** Merkle trees of unbounded depth over any digest type, and the batched multi-proof scan. */
module Merkle {
  import opened Wrappers

  // ---- the tree itself -----------------------------------------------------------------

  /** Node `i` of level `k` over a leaf vector that continues with `zero` for ever. */
  function Node<T>(compress: (T, T) -> T, zero: T, leaves: seq<T>, k: nat, i: nat): T
    decreases k
  {
    if k == 0 then
      if i < |leaves| then leaves[i] else zero
    else
      compress(Node(compress, zero, leaves, k - 1, 2 * i), Node(compress, zero, leaves, k - 1, 2 * i + 1))
  }

  /** Root of the tree with `2^depth` leaves. */
  function Root<T>(compress: (T, T) -> T, zero: T, leaves: seq<T>, depth: nat): T
  {
    Node(compress, zero, leaves, depth, 0)
  }

  ghost predicate Injective<T(!new)>(compress: (T, T) -> T)
  {
    forall a: T, b: T, c: T, d: T :: compress(a, b) == compress(c, d) ==> a == c && b == d
  }

  // ---- binary digits of an index ----------------------------------------------------------

  /** `i mod 2^d` */
  function Low(i: nat, d: nat): nat
  {
    if d == 0 then 0 else 2 * Low(i / 2, d - 1) + i % 2
  }

  /** `i >> d` */
  function High(i: nat, d: nat): nat
  {
    if d == 0 then i else High(i / 2, d - 1)
  }

  function Pow2(d: nat): (p: nat)
    ensures p > 0
  {
    if d == 0 then 1 else 2 * Pow2(d - 1)
  }

  lemma Doubled(a: nat, b: nat)
    ensures (2 * a) * b == 2 * (a * b)
  {
  }

  lemma {:induction false} DigitsSplit(i: nat, d: nat)
    ensures i == Pow2(d) * High(i, d) + Low(i, d) && Low(i, d) < Pow2(d)
  {
    if d > 0 {
      DigitsSplit(i / 2, d - 1);
      Doubled(Pow2(d - 1), High(i / 2, d - 1));
    }
  }

  lemma {:induction false} SmallIndex(i: nat, d: nat)
    requires i < Pow2(d)
    ensures Low(i, d) == i && High(i, d) == 0
  {
    if d > 0 {
      SmallIndex(i / 2, d - 1);
    }
  }

  lemma {:induction false} DigitsDetermine(a: nat, b: nat, d: nat)
    requires Low(a, d) == Low(b, d) && High(a, d) == High(b, d)
    ensures a == b
  {
    if d > 0 {
      DigitsDetermine(a / 2, b / 2, d - 1);
    }
  }

  // ---- one path -----------------------------------------------------------------------------

  /** `compute_root` */
  function PathRoot<T>(compress: (T, T) -> T, leaf: T, index: nat, siblings: seq<T>): T
    decreases |siblings|
  {
    if siblings == [] then leaf
    else
      var parent := if index % 2 == 0 then compress(leaf, siblings[0]) else compress(siblings[0], leaf);
      PathRoot(compress, parent, index / 2, siblings[1..])
  }

  method ComputeRoot<T>(compress: (T, T) -> T, leaf: T, index: nat, siblings: seq<T>) returns (current: T)
    ensures current == PathRoot(compress, leaf, index, siblings)
  {
    current := leaf;
    var idx := index;
    for s := 0 to |siblings|
      invariant PathRoot(compress, current, idx, siblings[s..]) == PathRoot(compress, leaf, index, siblings)
    {
      current := if idx % 2 == 0 then compress(current, siblings[s]) else compress(siblings[s], current);
      idx := idx / 2;
    }
  }

  /** The siblings of leaf position `i` from level `k` up. */
  function PathOf<T>(compress: (T, T) -> T, zero: T, leaves: seq<T>, k: nat, d: nat, i: nat): (p: seq<T>)
    ensures |p| == d
    decreases d
  {
    if d == 0 then []
    else
      [Node(compress, zero, leaves, k, if i % 2 == 0 then i + 1 else i - 1)]
      + PathOf(compress, zero, leaves, k + 1, d - 1, i / 2)
  }

  /** A path that reaches the root opens the tree's own leaf, beside the tree's own siblings. */
  lemma {:induction false} PathOpens<T(!new)>(compress: (T, T) -> T, zero: T, leaves: seq<T>, k: nat,
                                              leaf: T, index: nat, siblings: seq<T>)
    requires Injective(compress)
    requires PathRoot(compress, leaf, index, siblings) == Node(compress, zero, leaves, k + |siblings|, 0)
    ensures leaf == Node(compress, zero, leaves, k, Low(index, |siblings|))
    ensures siblings == PathOf(compress, zero, leaves, k, |siblings|, Low(index, |siblings|))
    decreases |siblings|
  {
    hide Node, Injective;
    if siblings != [] {
      var d := |siblings| - 1;
      var parent := if index % 2 == 0 then compress(leaf, siblings[0]) else compress(siblings[0], leaf);
      PathOpens(compress, zero, leaves, k + 1, parent, index / 2, siblings[1..]);
      OneStepDown(compress, zero, leaves, k, leaf, index, siblings[0], Low(index / 2, d));
      assert PathOf(compress, zero, leaves, k, d + 1, Low(index, d + 1))
          == [siblings[0]] + PathOf(compress, zero, leaves, k + 1, d, Low(index / 2, d));
    }
  }

  /** Two children that hash to a node are the node's children. */
  lemma OneStepDown<T(!new)>(compress: (T, T) -> T, zero: T, leaves: seq<T>, k: nat,
                             leaf: T, index: nat, sibling: T, parent: nat)
    requires Injective(compress)
    requires Node(compress, zero, leaves, k + 1, parent) ==
             if index % 2 == 0 then compress(leaf, sibling) else compress(sibling, leaf)
    ensures
      var i := 2 * parent + index % 2;
      && leaf == Node(compress, zero, leaves, k, i)
      && sibling == Node(compress, zero, leaves, k, if i % 2 == 0 then i + 1 else i - 1)
      && i / 2 == parent
  {
    assert Node(compress, zero, leaves, k + 1, parent)
        == compress(Node(compress, zero, leaves, k, 2 * parent), Node(compress, zero, leaves, k, 2 * parent + 1));
  }

  /** The tree's own leaf and siblings do reach the root. */
  lemma {:induction false} PathReaches<T>(compress: (T, T) -> T, zero: T, leaves: seq<T>, k: nat, d: nat, i: nat)
    ensures PathRoot(compress, Node(compress, zero, leaves, k, i), i, PathOf(compress, zero, leaves, k, d, i))
         == Node(compress, zero, leaves, k + d, High(i, d))
    decreases d
  {
    if d > 0 {
      PathReaches(compress, zero, leaves, k + 1, d - 1, i / 2);
      var path := PathOf(compress, zero, leaves, k, d, i);
      assert path[1..] == PathOf(compress, zero, leaves, k + 1, d - 1, i / 2);
    }
  }

  /** Replacing a leaf changes no sibling on its path, so the same path opens the new leaf. */
  lemma {:induction false} PathSurvivesUpdate<T>(compress: (T, T) -> T, zero: T, leaves: seq<T>, leaf: T, d: nat, at: nat)
    requires at < |leaves|
    ensures PathOf(compress, zero, leaves[at := leaf], 0, d, at) == PathOf(compress, zero, leaves, 0, d, at)
  {
    PathUpdateFrom(compress, zero, leaves, leaf, 0, d, at);
  }

  lemma {:induction false} PathUpdateFrom<T>(compress: (T, T) -> T, zero: T, leaves: seq<T>, leaf: T,
                                             k: nat, d: nat, at: nat)
    requires at < |leaves|
    ensures PathOf(compress, zero, leaves[at := leaf], k, d, High(at, k)) == PathOf(compress, zero, leaves, k, d, High(at, k))
    decreases d
  {
    if d > 0 {
      var i := High(at, k);
      var sibling := if i % 2 == 0 then i + 1 else i - 1;
      UpdateElsewhere(compress, zero, leaves, leaf, at, k, sibling);
      HighStep(at, k);
      PathUpdateFrom(compress, zero, leaves, leaf, k + 1, d - 1, at);
    }
  }

  lemma {:induction false} HighStep(i: nat, k: nat)
    ensures High(i, k + 1) == High(i, k) / 2
  {
    if k > 0 {
      HighStep(i / 2, k - 1);
    }
  }

  /** A node that is not above the replaced leaf keeps its digest. */
  lemma {:induction false} UpdateElsewhere<T>(compress: (T, T) -> T, zero: T, leaves: seq<T>, leaf: T,
                                              at: nat, k: nat, i: nat)
    requires at < |leaves| && i != High(at, k)
    ensures Node(compress, zero, leaves[at := leaf], k, i) == Node(compress, zero, leaves, k, i)
    decreases k
  {
    if k > 0 {
      HighStep(at, k - 1);
      UpdateElsewhere(compress, zero, leaves, leaf, at, k - 1, 2 * i);
      UpdateElsewhere(compress, zero, leaves, leaf, at, k - 1, 2 * i + 1);
    }
  }

  /** What one verified path update does: the leaf it opened is the tree's, and the root it
      writes is the root of the tree with exactly that leaf replaced. */
  lemma PathUpdates<T(!new)>(compress: (T, T) -> T, zero: T, leaves: seq<T>, old_: T, new_: T, index: nat, siblings: seq<T>)
    requires Injective(compress) && |leaves| == Pow2(|siblings|)
    requires PathRoot(compress, old_, index, siblings) == Root(compress, zero, leaves, |siblings|)
    ensures
      var at := Low(index, |siblings|);
      && at < |leaves| && leaves[at] == old_
      && PathRoot(compress, new_, index, siblings) == Root(compress, zero, leaves[at := new_], |siblings|)
  {
    var d := |siblings|;
    var at := Low(index, d);
    DigitsSplit(index, d);
    PathOpens(compress, zero, leaves, 0, old_, index, siblings);
    var after := leaves[at := new_];
    PathSurvivesUpdate(compress, zero, leaves, new_, d, at);
    SmallIndex(at, d);
    PathReaches(compress, zero, after, 0, d, at);
    PathReadsLow(compress, new_, index, siblings);
  }

  lemma LowStep(index: nat, d: nat)
    ensures Low(index, d + 1) % 2 == index % 2 && Low(index, d + 1) / 2 == Low(index / 2, d)
  {
  }

  /** Only the low digits of an index steer a path. */
  lemma {:induction false} PathReadsLow<T>(compress: (T, T) -> T, leaf: T, index: nat, siblings: seq<T>)
    ensures PathRoot(compress, leaf, index, siblings) == PathRoot(compress, leaf, Low(index, |siblings|), siblings)
    decreases |siblings|
  {
    hide Low;
    if siblings != [] {
      var parent := if index % 2 == 0 then compress(leaf, siblings[0]) else compress(siblings[0], leaf);
      PathReadsLow(compress, parent, index / 2, siblings[1..]);
      LowStep(index, |siblings| - 1);
    }
  }
}
