/** The host's sparse accumulator tree: dense levels stored, everything above and beyond
    them supplied by precomputed hashes of empty subtrees. */
module AccTree {
  import opened DivMod
  import opened Wrappers
  import opened Merkle
  import opened MultiProof
  import opened ProofBuilding

  /** Digest of an empty subtree of height `k`. */
  function ZeroHash<T>(compress: (T, T) -> T, zero: T, k: nat): T
  {
    if k == 0 then zero else compress(ZeroHash(compress, zero, k - 1), ZeroHash(compress, zero, k - 1))
  }

  lemma ChildrenBeyond(half: nat, i: nat)
    ensures (2 * half) * i == half * (2 * i) <= half * (2 * i + 1)
  {
  }

  /** A node above no leaf is an empty subtree. */
  lemma {:induction false} NodeBeyond<T>(compress: (T, T) -> T, zero: T, leaves: seq<T>, k: nat, i: nat)
    requires |leaves| <= Pow2(k) * i
    ensures Node(compress, zero, leaves, k, i) == ZeroHash(compress, zero, k)
    decreases k
  {
    if k > 0 {
      ChildrenBeyond(Pow2(k - 1), i);
      NodeBeyond(compress, zero, leaves, k - 1, 2 * i);
      NodeBeyond(compress, zero, leaves, k - 1, 2 * i + 1);
    }
  }

  /** The smallest `d` with `2^d >= n`. */
  function CeilLog2(n: nat): (d: nat)
    ensures n <= Pow2(d) && (d > 0 ==> Pow2(d - 1) < n)
  {
    if n <= 1 then 0 else CeilLog2((n + 1) / 2) + 1
  }

  /** `leaves.resize(size, zero)` */
  function Resized<T>(leaves: seq<T>, size: nat, zero: T): (r: seq<T>)
    ensures |r| == size
  {
    if |leaves| >= size then leaves[..size] else leaves + seq(size - |leaves|, _ => zero)
  }

  lemma HalvesFit(half: nat, i: nat)
    ensures (2 * half) * (i + 1) == half * (2 * i + 1 + 1) && half * (2 * i + 1) <= half * (2 * i + 1 + 1)
  {
  }

  /** Resizing to at least the leaves, or to the tree's whole width, keeps the root. */
  lemma {:induction false} ResizedNode<T>(compress: (T, T) -> T, zero: T, leaves: seq<T>, size: nat, k: nat, i: nat)
    requires |leaves| <= size || Pow2(k) * (i + 1) <= size
    ensures Node(compress, zero, Resized(leaves, size, zero), k, i) == Node(compress, zero, leaves, k, i)
    decreases k
  {
    if k > 0 {
      HalvesFit(Pow2(k - 1), i);
      ResizedNode(compress, zero, leaves, size, k - 1, 2 * i);
      ResizedNode(compress, zero, leaves, size, k - 1, 2 * i + 1);
    }
  }

  /** Level `d` of the tree over `2^dense` leaves. */
  function LevelOf<T>(compress: (T, T) -> T, zero: T, leaves: seq<T>, dense: nat, d: nat): (level: seq<T>)
    requires d <= dense
    ensures |level| == Pow2(dense - d)
  {
    seq(Pow2(dense - d), (i: nat) => Node(compress, zero, leaves, d, i))
  }

  /** Every pair of a level, compressed. */
  function Compressed<T>(compress: (T, T) -> T, level: seq<T>): (up: seq<T>)
    ensures |up| == |level| / 2
  {
    seq(|level| / 2, (i: nat) requires i < |level| / 2 => compress(level[2 * i], level[2 * i + 1]))
  }

  lemma LevelAbove<T>(compress: (T, T) -> T, zero: T, leaves: seq<T>, dense: nat, d: nat)
    requires d < dense
    ensures Compressed(compress, LevelOf(compress, zero, leaves, dense, d)) == LevelOf(compress, zero, leaves, dense, d + 1)
  {
  }

  lemma LevelZero<T>(compress: (T, T) -> T, zero: T, leaves: seq<T>, dense: nat)
    requires |leaves| == Pow2(dense)
    ensures LevelOf(compress, zero, leaves, dense, 0) == leaves
  {
  }

  /** What `verify_consistent` checks: levels of the right sizes, each hashing to the next. */
  ghost predicate Consistent<T>(compress: (T, T) -> T, levels: seq<seq<T>>, dense: nat)
  {
    && |levels| == dense + 1
    && (forall d: nat :: d <= dense ==> |levels[d]| == Pow2(dense - d))
    && (forall d: nat :: d < dense ==> levels[d + 1] == Compressed(compress, levels[d]))
  }

  /** The stored levels are the tree over the stored leaves. */
  ghost predicate IsTree<T>(compress: (T, T) -> T, zero: T, levels: seq<seq<T>>, dense: nat)
  {
    && |levels| == dense + 1
    && |levels[0]| == Pow2(dense)
    && forall d: nat :: d <= dense ==> levels[d] == LevelOf(compress, zero, levels[0], dense, d)
  }

  lemma ConsistentIsTree<T>(compress: (T, T) -> T, zero: T, levels: seq<seq<T>>, dense: nat)
    ensures Consistent(compress, levels, dense) <==> IsTree(compress, zero, levels, dense)
  {
    if Consistent(compress, levels, dense) {
      forall d: nat | d <= dense ensures levels[d] == LevelOf(compress, zero, levels[0], dense, d) {
        ConsistentLevel(compress, zero, levels, dense, d);
      }
    }
    if IsTree(compress, zero, levels, dense) {
      forall d: nat | d < dense ensures levels[d + 1] == Compressed(compress, levels[d]) {
        LevelAbove(compress, zero, levels[0], dense, d);
      }
    }
  }

  lemma {:induction false} ConsistentLevel<T>(compress: (T, T) -> T, zero: T, levels: seq<seq<T>>, dense: nat, d: nat)
    requires Consistent(compress, levels, dense) && d <= dense
    ensures levels[d] == LevelOf(compress, zero, levels[0], dense, d)
    decreases d
  {
    if d == 0 {
      LevelZero(compress, zero, levels[0], dense);
    } else {
      ConsistentLevel(compress, zero, levels, dense, d - 1);
      LevelAbove(compress, zero, levels[0], dense, d - 1);
    }
  }

  /** One step of `update_leaf`: rewriting the one parent of the changed node turns a level of
      the old tree into that level of the new tree. */
  lemma LevelUpdated<T>(compress: (T, T) -> T, zero: T, leaves: seq<T>, leaf: T, dense: nat, d: nat, at: nat, parent: nat)
    requires at < |leaves| && d < dense && parent == High(at, d + 1) && parent < Pow2(dense - (d + 1))
    ensures 2 * parent + 1 < Pow2(dense - d)
    ensures
      var after := leaves[at := leaf];
      var lower := LevelOf(compress, zero, after, dense, d);
      LevelOf(compress, zero, leaves, dense, d + 1)[parent := compress(lower[2 * parent], lower[2 * parent + 1])]
      == LevelOf(compress, zero, after, dense, d + 1)
  {
    var after := leaves[at := leaf];
    var above := LevelOf(compress, zero, leaves, dense, d + 1);
    forall i: nat | i < |above| && i != parent
      ensures above[i] == LevelOf(compress, zero, after, dense, d + 1)[i]
    {
      UpdateElsewhere(compress, zero, leaves, leaf, at, d + 1, i);
    }
  }

  /** `compute_zero_hashes` */
  method ComputeZeroHashes<T>(compress: (T, T) -> T, zero: T, depth: nat) returns (zh: seq<T>)
    ensures |zh| == depth + 1
    ensures forall d: nat :: d <= depth ==> zh[d] == ZeroHash(compress, zero, d)
  {
    zh := [zero];
    for d := 1 to depth + 1
      invariant |zh| == d && forall e: nat :: e < d ==> zh[e] == ZeroHash(compress, zero, e)
    {
      zh := zh + [compress(zh[d - 1], zh[d - 1])];
    }
  }

  /** The first levels of the tree over `leaves`. */
  ghost predicate Started<T>(compress: (T, T) -> T, zero: T, leaves: seq<T>, dense: nat, levels: seq<seq<T>>)
  {
    && 0 < |levels| <= dense + 1
    && forall e: nat :: e < |levels| ==> levels[e] == LevelOf(compress, zero, leaves, dense, e)
  }

  lemma StartedStep<T>(compress: (T, T) -> T, zero: T, leaves: seq<T>, dense: nat, levels: seq<seq<T>>)
    requires Started(compress, zero, leaves, dense, levels) && |levels| <= dense
    ensures Started(compress, zero, leaves, dense, levels + [Compressed(compress, levels[|levels| - 1])])
  {
    hide LevelOf, Compressed;
    LevelAbove(compress, zero, leaves, dense, |levels| - 1);
    var more := levels + [Compressed(compress, levels[|levels| - 1])];
    forall e: nat | e < |more| ensures more[e] == LevelOf(compress, zero, leaves, dense, e) {
      assert e < |levels| ==> more[e] == levels[e];
    }
  }

  method BuildLevels<T>(compress: (T, T) -> T, zero: T, leaves: seq<T>, dense: nat) returns (levels: seq<seq<T>>)
    requires |leaves| == Pow2(dense)
    ensures IsTree(compress, zero, levels, dense) && levels[0] == leaves
  {
    levels := [leaves];
    LevelZero(compress, zero, leaves, dense);
    for d := 0 to dense
      invariant |levels| == d + 1 && Started(compress, zero, leaves, dense, levels)
    {
      StartedStep(compress, zero, leaves, dense, levels);
      levels := levels + [Compressed(compress, levels[d])];
    }
  }

  method CheckLevels<T(==)>(compress: (T, T) -> T, levels: seq<seq<T>>, dense: nat) returns (ok: bool)
    ensures ok <==> Consistent(compress, levels, dense)
  {
    if |levels| != dense + 1 {
      return false;
    }
    for d := 0 to dense + 1
      invariant forall e: nat :: e < d ==> |levels[e]| == Pow2(dense - e)
    {
      if |levels[d]| != Pow2(dense - d) {
        return false;
      }
    }
    for d := 0 to dense
      invariant forall e: nat :: e < d ==> levels[e + 1] == Compressed(compress, levels[e])
    {
      if Compressed(compress, levels[d]) != levels[d + 1] {
        return false;
      }
    }
    ok := true;
  }

  lemma HeadIncreases(first: nat, idx: seq<nat>)
    requires Increasing(idx) && forall i :: i in idx ==> first < i
    ensures Increasing([first] + idx)
  {
    assert idx != [] ==> idx[0] in idx;
    IncreasesFrom(first, idx);
  }

  lemma TailFollows(idx: seq<nat>)
    requires Increasing(idx) && idx != []
    ensures Increasing(idx[1..]) && forall i :: i in idx[1..] ==> idx[0] < i
    ensures forall i :: i in idx <==> i == idx[0] || i in idx[1..]
  {
    assert idx == [idx[0]] + idx[1..];
  }

  /** An index put in its place among increasing ones, unless it is there. */
  function Placed(idx: seq<nat>, x: nat): (out: seq<nat>)
    requires Increasing(idx)
    ensures Increasing(out) && forall i :: i in out <==> i in idx || i == x
  {
    if idx == [] then [x]
    else
      TailFollows(idx);
      if x < idx[0] then
        HeadIncreases(x, idx);
        [x] + idx
      else if x == idx[0] then idx
      else
        HeadIncreases(idx[0], Placed(idx[1..], x));
        [idx[0]] + Placed(idx[1..], x)
  }

  /** `sort_unstable` and `dedup`. */
  function InOrder(positions: seq<nat>): (idx: seq<nat>)
    ensures Increasing(idx) && forall i :: i in idx <==> i in positions
  {
    if positions == [] then []
    else
      assert positions == [positions[0]] + positions[1..];
      Placed(InOrder(positions[1..]), positions[0])
  }

  lemma PairAt(idx: seq<nat>, i: nat)
    requires i < |idx|
    ensures PairedWithNext(idx[i..]) <==> idx[i] % 2 == 0 && i + 1 < |idx| && idx[i + 1] == idx[i] + 1
  {
  }

  class AccTree<T(==)> {
    const compress: (T, T) -> T
    const zero: T
    const depth: nat
    const dense: nat
    var levels: seq<seq<T>>
    var zeroHashes: seq<T>

    ghost predicate Valid()
      reads this
    {
      && dense <= depth
      && IsTree(compress, zero, levels, dense)
      && HasZeroHashes()
    }

    ghost predicate HasZeroHashes()
      reads this
    {
      && |zeroHashes| == depth + 1
      && forall d: nat :: d <= depth ==> zeroHashes[d] == ZeroHash(compress, zero, d)
    }

    ghost function Leaves(): seq<T>
      reads this
      requires Valid()
    {
      levels[0]
    }

    ghost function TreeRoot(): T
      reads this
      requires Valid()
    {
      Root(compress, zero, Leaves(), depth)
    }

    /** The stored node. */
    lemma Stored(d: nat, i: nat)
      requires Valid() && d <= dense && i < Pow2(dense - d)
      ensures |levels[d]| == Pow2(dense - d) && levels[d][i] == Node(compress, zero, Leaves(), d, i)
    {
      assert levels[d] == LevelOf(compress, zero, levels[0], dense, d);
    }

    /** At and above the dense root only position 0 has leaves below it. */
    lemma Empty(d: nat, i: nat)
      requires Valid() && (if d >= dense then i > 0 else i >= Pow2(dense - d))
      ensures Node(compress, zero, Leaves(), d, i) == ZeroHash(compress, zero, d)
    {
      if d >= dense {
        Pow2Monotone(dense, d);
        MulMonotone(Pow2(d), 1, i);
      } else {
        Pow2Adds(d, dense - d);
        MulMonotone(Pow2(d), Pow2(dense - d), i);
      }
      NodeBeyond(compress, zero, Leaves(), d, i);
    }

    /** `build`: the validators' leaves, padded to the dense capacity (or cut to the whole
        tree when even that is smaller), hashed level by level. */
    constructor Build(compress: (T, T) -> T, zero: T, leaves: seq<T>, depth: nat)
      ensures Valid() && this.compress == compress && this.zero == zero && this.depth == depth
      ensures Leaves() == Resized(leaves, Pow2(dense), zero)
      ensures TreeRoot() == Root(compress, zero, leaves, depth)
    {
      this.compress, this.zero, this.depth := compress, zero, depth;
      var wanted := if CeilLog2(|leaves|) < 1 then 1 else CeilLog2(|leaves|);
      var dense := if wanted < depth then wanted else depth;
      this.dense := dense;
      var zeroHashes := ComputeZeroHashes(compress, zero, depth);
      var levels := BuildLevels(compress, zero, Resized(leaves, Pow2(dense), zero), dense);
      this.levels, this.zeroHashes := levels, zeroHashes;
      new;
      if dense < depth {
        Pow2Monotone(CeilLog2(|leaves|), dense);
      }
      ResizedNode(compress, zero, leaves, Pow2(dense), depth, 0);
    }

    /** `from_raw`: levels read back from storage, not trusted yet. */
    constructor FromRaw(compress: (T, T) -> T, zero: T, levels: seq<seq<T>>, depth: nat, dense: nat)
      ensures this.levels == levels && this.depth == depth && this.dense == dense
      ensures this.compress == compress && this.zero == zero
      ensures HasZeroHashes()
    {
      this.compress, this.zero, this.depth, this.dense, this.levels := compress, zero, depth, dense, levels;
      var zeroHashes := ComputeZeroHashes(compress, zero, depth);
      this.zeroHashes := zeroHashes;
    }

    /** `verify_consistent`: accepts exactly the levels that are a Merkle tree. */
    method VerifyConsistent() returns (ok: bool)
      requires HasZeroHashes()
      ensures ok <==> Valid()
    {
      ok := dense <= depth;
      if ok {
        ok := CheckLevels(compress, levels, dense);
      }
      ConsistentIsTree(compress, zero, levels, dense);
    }

    /** `root`: the dense root chained through the empty subtrees beside it. */
    method ReadRoot() returns (current: T)
      requires Valid()
      ensures current == TreeRoot()
    {
      Stored(dense, 0);
      current := levels[dense][0];
      for d := dense to depth
        invariant current == Node(compress, zero, Leaves(), d, 0)
      {
        Empty(d, 1);
        current := compress(current, zeroHashes[d]);
      }
    }

    lemma SiblingsStart(index: nat)
      requires Valid()
      ensures High(index, 0) == index && PathOf(compress, zero, Leaves(), 0, 0, index) == []
      ensures dense <= depth && (High(index, dense) < Pow2(0) ==> High(index, dense) == 0)
    {
    }

    lemma SiblingStored(d: nat, i: nat)
      requires Valid() && d < dense && i < Pow2(dense - d)
      ensures |levels| > d && Sibling(i) < |levels[d]|
      ensures levels[d][Sibling(i)] == Node(compress, zero, Leaves(), d, Sibling(i))
      ensures i / 2 < Pow2(dense - (d + 1))
    {
      assert Pow2(dense - d) == 2 * Pow2(dense - (d + 1));
      Stored(d, Sibling(i));
    }

    lemma SiblingEmpty(d: nat)
      requires Valid() && dense <= d < depth
      ensures |zeroHashes| > d && Sibling(0) == 1 && zeroHashes[d] == Node(compress, zero, Leaves(), d, 1)
    {
      Empty(d, 1);
    }

    /** `get_siblings` */
    method GetSiblings(index: nat) returns (siblings: seq<T>)
      requires Valid() && index < Pow2(dense)
      ensures siblings == PathOf(compress, zero, Leaves(), 0, depth, index)
    {
      hide Pow2, Node, PathOf, Sibling, High, ZeroHash, Valid;
      siblings := [];
      var idx: nat := index;
      SiblingsStart(index);
      for d := 0 to dense
        invariant idx == High(index, d) && idx < Pow2(dense - d)
        invariant siblings == PathOf(compress, zero, Leaves(), 0, d, index)
      {
        SiblingStored(d, idx);
        PathExtends(compress, zero, Leaves(), 0, d, index);
        HighStep(index, d);
        siblings := siblings + [levels[d][Sibling(idx)]];
        idx := idx / 2;
      }
      for d := dense to depth
        invariant High(index, d) == 0
        invariant siblings == PathOf(compress, zero, Leaves(), 0, d, index)
      {
        SiblingEmpty(d);
        PathExtends(compress, zero, Leaves(), 0, d, index);
        HighStep(index, d);
        siblings := siblings + [zeroHashes[d]];
      }
    }

    /** What `get_node` answers: the tree's node, but the empty subtree at and above the dense
        root, position 0 included. */
    ghost function Answer(level: nat, idx: nat): T
      reads this
      requires Valid()
    {
      if level >= dense && idx == 0 then ZeroHash(compress, zero, level) else Node(compress, zero, Leaves(), level, idx)
    }

    /** `get_node` */
    method GetNode(level: nat, idx: nat) returns (n: T)
      requires Valid() && level < depth
      ensures n == Answer(level, idx)
    {
      if level < dense && idx < |levels[level]| {
        Stored(level, idx);
        return levels[level][idx];
      }
      if level < dense || idx > 0 {
        Empty(level, idx);
      }
      n := zeroHashes[level];
    }

    /** The second of a pair of siblings. */
    ghost predicate PairedWithLast(idx: seq<nat>, i: nat)
    {
      0 < i < |idx| && idx[i] % 2 == 1 && idx[i] == idx[i - 1] + 1
    }

    /** Every sibling a level asks for is answered as in the tree over `leaves`. */
    ghost predicate AnsweredAs(leaves: seq<T>, level: nat, idx: seq<nat>)
      reads this
      requires Valid()
    {
      forall i: nat :: i < |idx| && !PairedWithLast(idx, i) ==>
        Answer(level, Sibling(idx[i])) == Node(compress, zero, leaves, level, Sibling(idx[i]))
    }

    /** One level of `build_multi_proof`. */
    method LevelProof(level: nat, idx: seq<nat>, auxiliaries: seq<T>, ghost leaves: seq<T>)
      returns (aux: seq<T>, next: seq<nat>)
      requires Valid() && level < depth && AnsweredAs(leaves, level, idx)
      ensures aux == auxiliaries + LevelAux(compress, zero, leaves, level, idx)
      ensures next == Parents(idx)
    {
      hide Answer, LevelAux, Parents, AnsweredAs, PairedWithNext, Sibling, Valid;
      aux, next := auxiliaries, [];
      var i: nat := 0;
      assert idx[0..] == idx;
      while i < |idx|
        invariant i <= |idx| && !PairedWithLast(idx, i)
        invariant aux + LevelAux(compress, zero, leaves, level, idx[i..])
               == auxiliaries + LevelAux(compress, zero, leaves, level, idx)
        invariant next + Parents(idx[i..]) == Parents(idx)
      {
        var k := idx[i];
        ParentsGrow(next, idx, i);
        PairAt(idx, i);
        if k % 2 == 0 && i + 1 < |idx| && idx[i + 1] == k + 1 {
          LevelSkips(level, idx, i, leaves);
          i := i + 2;
        } else {
          var n := GetNode(level, Sibling(k));
          AnsweredAt(leaves, level, idx, i);
          LevelGrows(aux, n, level, idx, i, leaves);
          aux := aux + [n];
          i := i + 1;
        }
        next := next + [k / 2];
      }
      LevelDone(level, leaves);
      assert idx[i..] == [] && aux + [] == aux && next + [] == next;
    }

    lemma AnsweredAt(leaves: seq<T>, level: nat, idx: seq<nat>, i: nat)
      requires Valid() && AnsweredAs(leaves, level, idx) && i < |idx| && !PairedWithLast(idx, i)
      ensures Answer(level, Sibling(idx[i])) == Node(compress, zero, leaves, level, Sibling(idx[i]))
    {
    }

    lemma LevelDone(level: nat, leaves: seq<T>)
      ensures LevelAux(compress, zero, leaves, level, []) == [] && Parents([]) == []
    {
    }

    lemma LevelSkips(level: nat, idx: seq<nat>, i: nat, leaves: seq<T>)
      requires i < |idx| && PairedWithNext(idx[i..])
      ensures i + 2 <= |idx|
      ensures LevelAux(compress, zero, leaves, level, idx[i..]) == LevelAux(compress, zero, leaves, level, idx[i + 2..])
    {
      assert idx[i..][2..] == idx[i + 2..];
    }

    lemma LevelGrows(aux: seq<T>, n: T, level: nat, idx: seq<nat>, i: nat, leaves: seq<T>)
      requires i < |idx| && !PairedWithNext(idx[i..])
      requires n == Node(compress, zero, leaves, level, Sibling(idx[i]))
      ensures aux + LevelAux(compress, zero, leaves, level, idx[i..])
           == (aux + [n]) + LevelAux(compress, zero, leaves, level, idx[i + 1..])
    {
      assert idx[i..][1..] == idx[i + 1..];
      assert aux + ([n] + LevelAux(compress, zero, leaves, level, idx[i + 1..]))
          == (aux + [n]) + LevelAux(compress, zero, leaves, level, idx[i + 1..]);
    }

    /** Whether any of these positions, in increasing order, lies under the dense part. */
    ghost predicate Touches(idx: seq<nat>)
    {
      idx != [] && idx[0] < Pow2(dense)
    }

    /** The tree a proof at these positions is drawn from: this one if they touch its dense part,
        and otherwise the empty one. */
    ghost function DrawnFrom(idx: seq<nat>): seq<T>
      reads this
      requires Valid()
    {
      if Touches(idx) then Leaves() else []
    }

    /** Where the positions have got to at `level`. */
    ghost predicate Inside(level: nat, idx: seq<nat>)
    {
      idx != [] && Increasing(idx) && idx[0] < if level < dense then Pow2(dense - level) else 1
    }

    ghost predicate Outside(level: nat, idx: seq<nat>)
    {
      Increasing(idx) && (level < dense && idx != [] ==> idx[0] >= Pow2(dense - level))
    }

    lemma InsideStep(level: nat, idx: seq<nat>)
      requires Valid() && Inside(level, idx)
      ensures AnsweredAs(Leaves(), level, idx) && Inside(level + 1, Parents(idx))
    {
      ParentsIncrease(idx);
      forall i: nat | i < |idx| && !PairedWithLast(idx, i)
        ensures Answer(level, Sibling(idx[i])) == Node(compress, zero, Leaves(), level, Sibling(idx[i]))
      {
        if level >= dense && i > 0 {
          assert idx[0] < idx[i] && (i > 1 ==> idx[0] < idx[1] < idx[i]);
        }
      }
    }

    lemma OutsideAnswer(level: nat, k: nat)
      requires Valid() && (level < dense ==> k >= Pow2(dense - level))
      ensures Answer(level, Sibling(k)) == Node(compress, zero, [], level, Sibling(k))
    {
      hide Node, ZeroHash, IsTree, HasZeroHashes;
      var s := Sibling(k);
      NodeBeyond(compress, zero, [], level, s);
      if level < dense {
        assert Pow2(dense - level) == 2 * Pow2(dense - level - 1);
        Empty(level, s);
      } else if s > 0 {
        Empty(level, s);
      }
    }

    lemma OutsideStep(level: nat, idx: seq<nat>)
      requires Valid() && Outside(level, idx)
      ensures AnsweredAs([], level, idx) && Outside(level + 1, Parents(idx))
    {
      hide Answer, Node, Sibling, Valid;
      ParentsIncrease(idx);
      forall i: nat | i < |idx| && !PairedWithLast(idx, i)
        ensures Answer(level, Sibling(idx[i])) == Node(compress, zero, [], level, Sibling(idx[i]))
      {
        assert i > 0 ==> idx[0] < idx[i];
        OutsideAnswer(level, idx[i]);
      }
    }

    /** `build_multi_proof`, for any positions in any order and with repeats. The auxiliaries are
        exactly what the batched scan needs in the tree they are drawn from; so they open this
        tree's leaves against this tree's root exactly when the positions lie in one tree's width
        and one of them under the dense part, or this tree is empty too. */
    method BuildMultiProof(positions: seq<nat>) returns (aux: seq<T>)
      requires Valid()
      ensures aux == ProofAux(compress, zero, DrawnFrom(InOrder(positions)), 0, depth, InOrder(positions))
      ensures
        var idx := InOrder(positions);
        RootOfLeaves(compress, OpenedAt(compress, zero, Leaves(), idx), aux, depth) == Some(TreeRoot()) <==>
          && idx != [] && Share(idx, depth, High(idx[0], depth))
          && (Touches(idx) || TreeRoot() == ZeroHash(compress, zero, depth))
    {
      hide RootOfLeaves, OpenedAt, LevelAux, Root, ProofAux, Pow2, Parents, Inside, Outside, Increasing, InOrder;
      var current: seq<nat> := InOrder(positions);
      ghost var idx := current;
      aux := [];
      ghost var leaves := DrawnFrom(idx);
      Starts(idx);
      for level := 0 to depth
        invariant if Touches(idx) then Inside(level, current) else Outside(level, current)
        invariant aux + ProofAux(compress, zero, leaves, level, depth - level, current)
               == ProofAux(compress, zero, leaves, 0, depth, idx)
      {
        if Touches(idx) { InsideStep(level, current); } else { OutsideStep(level, current); }
        ghost var before, was := aux, current;
        aux, current := LevelProof(level, current, aux, leaves);
        ProofGrows(before, aux, level, was, leaves);
      }
      NothingLeft(current, leaves);
      assert aux + [] == aux;
      Authenticates(idx);
    }

    lemma Starts(idx: seq<nat>)
      requires Increasing(idx)
      ensures if Touches(idx) then Inside(0, idx) else Outside(0, idx)
    {
    }

    lemma NothingLeft(idx: seq<nat>, leaves: seq<T>)
      ensures ProofAux(compress, zero, leaves, depth, 0, idx) == []
    {
    }

    /** Both trees hold the same leaves at the positions. */
    lemma SameLeaves(idx: seq<nat>)
      requires Valid() && Increasing(idx)
      ensures OpenedAt(compress, zero, DrawnFrom(idx), idx) == OpenedAt(compress, zero, Leaves(), idx)
    {
      forall j: nat | j < |idx| && !Touches(idx)
        ensures Node(compress, zero, [], 0, idx[j]) == Node(compress, zero, Leaves(), 0, idx[j])
      {
        assert j > 0 ==> idx[0] < idx[j];
      }
    }

    lemma Authenticates(idx: seq<nat>)
      requires Valid() && Increasing(idx)
      ensures RootOfLeaves(compress, OpenedAt(compress, zero, Leaves(), idx),
                           ProofAux(compress, zero, DrawnFrom(idx), 0, depth, idx), depth) == Some(TreeRoot()) <==>
        && idx != [] && Share(idx, depth, High(idx[0], depth))
        && (Touches(idx) || TreeRoot() == ZeroHash(compress, zero, depth))
    {
      hide RootOfLeaves, OpenedAt, ProofAux, Root, Share, Increasing;
      SameLeaves(idx);
      var leaves := DrawnFrom(idx);
      var items := OpenedAt(compress, zero, leaves, idx);
      if RootOfLeaves(compress, items, ProofAux(compress, zero, leaves, 0, depth, idx), depth).Some? {
        ReachedShares(compress, items, ProofAux(compress, zero, leaves, 0, depth, idx), depth);
        OpenedIndices(compress, zero, leaves, idx);
      }
      if idx != [] && Share(idx, depth, High(idx[0], depth)) {
        SubtreeComplete(compress, zero, leaves, depth, idx, High(idx[0], depth));
        RootDrawn(idx);
      }
    }

    /** The node over the positions, in the tree they are drawn from. */
    lemma RootDrawn(idx: seq<nat>)
      requires Valid() && idx != []
      ensures Node(compress, zero, DrawnFrom(idx), depth, High(idx[0], depth))
           == if Touches(idx) then TreeRoot() else ZeroHash(compress, zero, depth)
    {
      if Touches(idx) {
        Pow2Monotone(dense, depth);
        SmallIndex(idx[0], depth);
      } else {
        NodeBeyond(compress, zero, [], depth, High(idx[0], depth));
      }
    }

    lemma ProofGrows(before: seq<T>, after: seq<T>, level: nat, idx: seq<nat>, leaves: seq<T>)
      requires level < depth
      requires after == before + LevelAux(compress, zero, leaves, level, idx)
      ensures before + ProofAux(compress, zero, leaves, level, depth - level, idx)
           == after + ProofAux(compress, zero, leaves, level + 1, depth - (level + 1), Parents(idx))
    {
      var rest := ProofAux(compress, zero, leaves, level + 1, depth - (level + 1), Parents(idx));
      assert before + (LevelAux(compress, zero, leaves, level, idx) + rest) == after + rest;
    }

    /** `update_leaf`: the tree of the same leaves with one replaced; the siblings returned
        open the old leaf against the old root and the new leaf against the new one. */
    method UpdateLeaf(index: nat, leaf: T) returns (siblings: seq<T>)
      requires Valid() && index < Pow2(dense)
      modifies this`levels
      ensures Valid() && Leaves() == old(Leaves())[index := leaf]
      ensures siblings == PathOf(compress, zero, old(Leaves()), 0, depth, index)
      ensures PathRoot(compress, old(Leaves())[index], index, siblings) == old(TreeRoot())
      ensures PathRoot(compress, leaf, index, siblings) == TreeRoot()
    {
      siblings := GetSiblings(index);
      ghost var before := Leaves();
      levels := levels[0 := levels[0][index := leaf]];
      LevelZero(compress, zero, levels[0], dense);
      var idx := index;
      for d := 0 to dense
        invariant idx == High(index, d) && idx < Pow2(dense - d)
        invariant Climbed(levels, before, index, leaf, d)
      {
        var parent := idx / 2;
        HighStep(index, d);
        ClimbOne(levels, before, index, leaf, d, parent);
        var left, right := levels[d][parent * 2], levels[d][parent * 2 + 1];
        levels := levels[d + 1 := levels[d + 1][parent := compress(left, right)]];
        idx := parent;
      }
      UpdatedRoots(before, index, leaf, siblings);
    }

    /** The levels up to `d` are the updated tree's, the ones above still the old tree's. */
    ghost predicate Climbed(levels: seq<seq<T>>, before: seq<T>, index: nat, leaf: T, d: nat)
    {
      && |levels| == dense + 1 && index < |before| == Pow2(dense) && levels[0] == before[index := leaf]
      && (forall e: nat :: e <= d && e <= dense ==> levels[e] == LevelOf(compress, zero, before[index := leaf], dense, e))
      && (forall e: nat :: d < e <= dense ==> levels[e] == LevelOf(compress, zero, before, dense, e))
    }

    lemma ClimbOne(levels: seq<seq<T>>, before: seq<T>, index: nat, leaf: T, d: nat, parent: nat)
      requires Climbed(levels, before, index, leaf, d) && d < dense
      requires parent == High(index, d + 1) && High(index, d) < Pow2(dense - d) && parent == High(index, d) / 2
      ensures |levels[d]| > 2 * parent + 1 && |levels[d + 1]| > parent
      ensures
        var up := levels[d + 1][parent := compress(levels[d][parent * 2], levels[d][parent * 2 + 1])];
        Climbed(levels[d + 1 := up], before, index, leaf, d + 1)
    {
      LevelUpdated(compress, zero, before, leaf, dense, d, index, parent);
    }

    lemma UpdatedRoots(leaves: seq<T>, index: nat, leaf: T, siblings: seq<T>)
      requires |leaves| == Pow2(dense) && dense <= depth && index < |leaves|
      requires siblings == PathOf(compress, zero, leaves, 0, depth, index)
      ensures PathRoot(compress, leaves[index], index, siblings) == Root(compress, zero, leaves, depth)
      ensures PathRoot(compress, leaf, index, siblings) == Root(compress, zero, leaves[index := leaf], depth)
    {
      Pow2Monotone(dense, depth);
      SmallIndex(index, depth);
      PathReaches(compress, zero, leaves, 0, depth, index);
      PathSurvivesUpdate(compress, zero, leaves, leaf, depth, index);
      PathReaches(compress, zero, leaves[index := leaf], 0, depth, index);
    }
  }

  lemma {:induction false} Pow2Monotone(a: nat, b: nat)
    requires a <= b
    ensures Pow2(a) <= Pow2(b)
    decreases b
  {
    if a < b {
      Pow2Monotone(a, b - 1);
    }
  }

  lemma {:induction false} Pow2Adds(a: nat, b: nat)
    ensures Pow2(a) * Pow2(b) == Pow2(a + b)
    decreases a
  {
    if a > 0 {
      Pow2Adds(a - 1, b);
      Doubled(Pow2(a - 1), Pow2(b));
    }
  }
}
