/** The four-ary batch root: an opened prefix of leaves over subtrees that are otherwise empty. */
module QuadTree {
  import opened Wrappers

  /** How four digests are hashed into one, and the digest of an empty leaf. */
  datatype Hasher<!D> = Hasher(node4: (D, D, D, D) -> D, zero: D)

  datatype Quad<D> = Quad(a: D, b: D, c: D, d: D) {
    function At(child: nat): D requires child < 4 {
      if child == 0 then a else if child == 1 then b else if child == 2 then c else d
    }
    function With(child: nat, x: D): Quad<D> requires child < 4 {
      if child == 0 then this.(a := x) else if child == 1 then this.(b := x)
      else if child == 2 then this.(c := x) else this.(d := x)
    }
  }

  function Hash<D>(h: Hasher<D>, q: Quad<D>): D { h.node4(q.a, q.b, q.c, q.d) }

  ghost predicate Increasing(idx: seq<nat>) {
    forall i, j :: 0 <= i < j < |idx| ==> idx[i] < idx[j]
  }

  /** The leaf at a position of the whole tree: an opened value, or the empty leaf. */
  ghost function LeafAt<D>(h: Hasher<D>, idx: seq<nat>, val: seq<D>, i: nat): D
    requires |idx| == |val|
  {
    if j :| 0 <= j < |idx| && idx[j] == i then val[j] else h.zero
  }

  /** The digest of node i, k levels up, of the tree of all those leaves. */
  ghost function NodeAt<D>(h: Hasher<D>, idx: seq<nat>, val: seq<D>, k: nat, i: nat): D
    requires |idx| == |val|
  {
    if k == 0 then LeafAt(h, idx, val, i)
    else
      h.node4(
        NodeAt(h, idx, val, k - 1, 4 * i), NodeAt(h, idx, val, k - 1, 4 * i + 1),
        NodeAt(h, idx, val, k - 1, 4 * i + 2), NodeAt(h, idx, val, k - 1, 4 * i + 3))
  }

  /** The k-th ancestor's index. */
  ghost function Up(k: nat, i: nat): nat { if k == 0 then i else Up(k - 1, i) / 4 }

  /** A level the scan holds stands for every node of that level: named ones and empty ones. */
  ghost predicate Stands<D(!new)>(nodes: nat -> D, idx: seq<nat>, val: seq<D>, empty: D) {
    && Increasing(idx) && |idx| == |val|
    && (forall j :: 0 <= j < |idx| ==> val[j] == nodes(idx[j]))
    && (forall i: nat :: i !in idx ==> nodes(i) == empty)
  }

  ghost function Parents<D(!new)>(h: Hasher<D>, nodes: nat -> D): nat -> D {
    (i: nat) => h.node4(nodes(4 * i), nodes(4 * i + 1), nodes(4 * i + 2), nodes(4 * i + 3))
  }

  /** The indices of one level are the distinct parents of the level below. */
  ghost predicate ParentsOf(below: seq<nat>, above: seq<nat>) {
    && (forall j :: 0 <= j < |below| ==> below[j] / 4 in above)
    && (forall m :: 0 <= m < |above| ==> exists j :: 0 <= j < |below| && below[j] / 4 == above[m])
  }

  /** A state half filled: children still to come may be missing, the others are right. */
  ghost predicate Filled<D(!new)>(nodes: nat -> D, parent: nat, state: Quad<D>, rest: seq<nat>) {
    forall c: nat {:trigger state.At(c)} :: c < 4 && 4 * parent + c !in rest ==> state.At(c) == nodes(4 * parent + c)
  }

  /** Before the run: a child not ahead was not behind either, so it is empty. */
  lemma StartsFilled<D(!new)>(nodes: nat -> D, idx: seq<nat>, val: seq<D>, empty: D, start: nat)
    requires Stands(nodes, idx, val, empty) && start < |idx|
    requires forall j :: 0 <= j < start ==> idx[j] / 4 < idx[start] / 4
    ensures Filled(nodes, idx[start] / 4, Quad(empty, empty, empty, empty), idx[start..])
  {
    var parent := idx[start] / 4;
    forall c: nat | c < 4 && 4 * parent + c !in idx[start..]
      ensures Quad(empty, empty, empty, empty).At(c) == nodes(4 * parent + c)
    {
      NotBehind(idx, start, 4 * parent + c);
    }
  }

  lemma NotBehind(idx: seq<nat>, start: nat, i: nat)
    requires start < |idx| && forall j :: 0 <= j < start ==> idx[j] / 4 < idx[start] / 4
    requires i / 4 == idx[start] / 4 && i !in idx[start..]
    ensures i !in idx
  {
    forall j | 0 <= j < |idx| ensures idx[j] != i {
      if j >= start { assert idx[start..][j - start] == idx[j]; }
    }
  }

  lemma FillsOne<D(!new)>(nodes: nat -> D, parent: nat, state: Quad<D>, idx: seq<nat>, val: seq<D>, empty: D, i: nat)
    requires Stands(nodes, idx, val, empty) && i < |idx| && idx[i] / 4 == parent
    requires Filled(nodes, parent, state, idx[i..])
    ensures Filled(nodes, parent, state.With(idx[i] % 4, val[i]), idx[i + 1..])
  {
    assert idx[i..] == [idx[i]] + idx[i + 1..];
    FillsChild(nodes, parent, state, idx[i], idx[i..], idx[i + 1..]);
  }

  lemma FillsChild<D(!new)>(
    nodes: nat -> D, parent: nat, state: Quad<D>, at: nat, here: seq<nat>, rest: seq<nat>)
    requires Filled(nodes, parent, state, here) && at / 4 == parent && here == [at] + rest
    ensures Filled(nodes, parent, state.With(at % 4, nodes(at)), rest)
  {
    var next := state.With(at % 4, nodes(at));
    assert at == 4 * parent + at % 4;
    forall c: nat | c < 4 && 4 * parent + c !in rest ensures next.At(c) == nodes(4 * parent + c) {
      if c != at % 4 {
        assert 4 * parent + c !in here;
        assert next.At(c) == state.At(c);
      }
    }
  }

  /** After the run: whatever is left lies under a later parent. */
  lemma EndsFilled<D(!new)>(h: Hasher<D>, nodes: nat -> D, idx: seq<nat>, parent: nat, state: Quad<D>, i: nat)
    requires Increasing(idx) && 0 < i <= |idx| && idx[i - 1] / 4 == parent
    requires i < |idx| ==> idx[i] / 4 != parent
    requires Filled(nodes, parent, state, idx[i..])
    ensures Hash(h, state) == Parents(h, nodes)(parent)
    ensures forall j :: i <= j < |idx| ==> parent < idx[j] / 4
  {
    forall j | i <= j < |idx| ensures parent < idx[j] / 4 {
      assert idx[i - 1] < idx[i] && (i < j ==> idx[i] < idx[j]);
    }
    assert forall k :: k in idx[i..] ==> parent < k / 4;
    assert state.At(0) == nodes(4 * parent) && state.At(1) == nodes(4 * parent + 1);
    assert state.At(2) == nodes(4 * parent + 2) && state.At(3) == nodes(4 * parent + 3);
  }

  /** The run of children that share a parent, written into the node's state. */
  method FillRun<D(!new)>(
    ghost nodes: nat -> D, idx: seq<nat>, val: seq<D>, empty: D, start: nat, parent: nat
  ) returns (state: Quad<D>, i: nat)
    requires Stands(nodes, idx, val, empty) && start < |idx| && idx[start] / 4 == parent
    requires Filled(nodes, parent, Quad(empty, empty, empty, empty), idx[start..])
    ensures start < i <= |idx| && idx[i - 1] / 4 == parent
    ensures i < |idx| ==> idx[i] / 4 != parent
    ensures Filled(nodes, parent, state, idx[i..])
  {
    state := Quad(empty, empty, empty, empty);
    i := start;
    while i < |idx| && idx[i] / 4 == parent
      invariant start <= i <= |idx|
      invariant start < i ==> idx[i - 1] / 4 == parent
      invariant Filled(nodes, parent, state, idx[i..])
    {
      FillsOne(nodes, parent, state, idx, val, empty, i);
      state := state.With(idx[i] % 4, val[i]);
      i := i + 1;
    }
  }

  /** One node of the next level. */
  method FillNode<D(!new)>(
    h: Hasher<D>, ghost nodes: nat -> D, idx: seq<nat>, val: seq<D>, empty: D, start: nat
  ) returns (digest: D, i: nat)
    requires Stands(nodes, idx, val, empty) && start < |idx|
    requires forall j :: 0 <= j < start ==> idx[j] / 4 < idx[start] / 4
    ensures start < i <= |idx| && idx[i - 1] / 4 == idx[start] / 4
    ensures digest == Parents(h, nodes)(idx[start] / 4)
    ensures forall j :: i <= j < |idx| ==> idx[start] / 4 < idx[j] / 4
  {
    StartsFilled(nodes, idx, val, empty, start);
    var state;
    state, i := FillRun(nodes, idx, val, empty, start, idx[start] / 4);
    EndsFilled(h, nodes, idx, idx[start] / 4, state, i);
    digest := Hash(h, state);
  }

  /** The first `i` indices scanned: their parents listed in order, all behind what follows. */
  ghost predicate Scanned<D(!new)>(
    above: nat -> D, idx: seq<nat>, i: nat, nextIdx: seq<nat>, nextVal: seq<D>)
  {
    && i <= |idx| && |nextIdx| == |nextVal| && Increasing(nextIdx)
    && (forall j :: 0 <= j < |nextIdx| ==> nextVal[j] == above(nextIdx[j]))
    && ParentsOf(idx[..i], nextIdx)
    && (i < |idx| ==> forall m :: 0 <= m < |nextIdx| ==> nextIdx[m] < idx[i] / 4)
  }

  lemma ScanStep<D(!new)>(
    above: nat -> D, idx: seq<nat>, start: nat, i: nat, nextIdx: seq<nat>, nextVal: seq<D>)
    requires Increasing(idx) && Scanned(above, idx, start, nextIdx, nextVal)
    requires start < i <= |idx| && idx[i - 1] / 4 == idx[start] / 4
    requires forall j :: i <= j < |idx| ==> idx[start] / 4 < idx[j] / 4
    ensures Scanned(above, idx, i, nextIdx + [idx[start] / 4], nextVal + [above(idx[start] / 4)])
  {
    ParentsGrow(idx, start, i, nextIdx);
  }

  lemma BehindTheNext<D(!new)>(
    above: nat -> D, idx: seq<nat>, i: nat, nextIdx: seq<nat>, nextVal: seq<D>)
    requires Scanned(above, idx, i, nextIdx, nextVal) && i < |idx|
    ensures forall j :: 0 <= j < i ==> idx[j] / 4 < idx[i] / 4
  {
    forall j | 0 <= j < i ensures idx[j] / 4 < idx[i] / 4 {
      assert idx[..i][j] / 4 in nextIdx;
    }
  }

  /** One level of the scan: the parents of the named nodes, and the next empty digest. */
  method ScanLevel<D(!new)>(h: Hasher<D>, ghost nodes: nat -> D, idx: seq<nat>, val: seq<D>, empty: D)
    returns (nextIdx: seq<nat>, nextVal: seq<D>)
    requires Stands(nodes, idx, val, empty)
    ensures Stands(Parents(h, nodes), nextIdx, nextVal, h.node4(empty, empty, empty, empty))
    ensures ParentsOf(idx, nextIdx)
  {
    nextIdx, nextVal := [], [];
    var i := 0;
    while i < |idx|
      invariant Scanned(Parents(h, nodes), idx, i, nextIdx, nextVal)
    {
      BehindTheNext(Parents(h, nodes), idx, i, nextIdx, nextVal);
      var digest, next := FillNode(h, nodes, idx, val, empty, i);
      ScanStep(Parents(h, nodes), idx, i, next, nextIdx, nextVal);
      nextIdx, nextVal := nextIdx + [idx[i] / 4], nextVal + [digest];
      i := next;
    }
    assert idx[..i] == idx;
    OthersEmpty(h, nodes, idx, val, empty, nextIdx);
  }

  lemma ParentsGrow(idx: seq<nat>, start: nat, i: nat, was: seq<nat>)
    requires Increasing(idx) && start < i <= |idx| && ParentsOf(idx[..start], was)
    requires idx[i - 1] / 4 == idx[start] / 4
    ensures ParentsOf(idx[..i], was + [idx[start] / 4])
    ensures forall j :: start <= j < i ==> idx[j] / 4 == idx[start] / 4
  {
    forall j | start <= j < i ensures idx[j] / 4 == idx[start] / 4 {
      assert start < j ==> idx[start] < idx[j];
      assert j < i - 1 ==> idx[j] < idx[i - 1];
    }
    var now := was + [idx[start] / 4];
    forall j | 0 <= j < i ensures idx[..i][j] / 4 in now {
      if j < start { assert idx[..start][j] / 4 in was; }
      assert now[|was|] == idx[start] / 4;
    }
    forall m | 0 <= m < |now| ensures exists j :: 0 <= j < i && idx[..i][j] / 4 == now[m] {
      if m < |was| {
        var j :| 0 <= j < start && idx[..start][j] / 4 == was[m];
        assert idx[..i][j] / 4 == now[m];
      } else {
        assert idx[..i][start] / 4 == now[m];
      }
    }
  }

  /** A parent nobody named has four empty children. */
  lemma OthersEmpty<D(!new)>(h: Hasher<D>, nodes: nat -> D, idx: seq<nat>, val: seq<D>, empty: D, nextIdx: seq<nat>)
    requires Stands(nodes, idx, val, empty) && forall j :: 0 <= j < |idx| ==> idx[j] / 4 in nextIdx
    ensures forall i: nat :: i !in nextIdx ==> Parents(h, nodes)(i) == h.node4(empty, empty, empty, empty)
  {
    forall i: nat | i !in nextIdx
      ensures Parents(h, nodes)(i) == h.node4(empty, empty, empty, empty)
    {
      NotNamed(idx, nextIdx, i);
    }
  }

  lemma NotNamed(idx: seq<nat>, nextIdx: seq<nat>, i: nat)
    requires (forall j :: 0 <= j < |idx| ==> idx[j] / 4 in nextIdx) && i !in nextIdx
    ensures 4 * i !in idx && 4 * i + 1 !in idx && 4 * i + 2 !in idx && 4 * i + 3 !in idx
  {
    forall j | 0 <= j < |idx| ensures idx[j] / 4 != i {
      assert idx[j] / 4 in nextIdx;
    }
    forall c | c in idx ensures c / 4 != i {}
  }

  ghost function Nodes<D(!new)>(h: Hasher<D>, idx: seq<nat>, val: seq<D>, k: nat): nat -> D
    requires |idx| == |val|
  {
    (i: nat) => NodeAt(h, idx, val, k, i)
  }

  lemma LeavesStand<D(!new)>(h: Hasher<D>, idx: seq<nat>, val: seq<D>)
    requires |idx| == |val| && Increasing(idx)
    ensures Stands(Nodes(h, idx, val, 0), idx, val, h.zero)
  {
  }

  lemma NodesRise<D(!new)>(h: Hasher<D>, leaves: seq<nat>, digests: seq<D>, k: nat, idx: seq<nat>, val: seq<D>, empty: D)
    requires |leaves| == |digests|
    requires Stands(Parents(h, Nodes(h, leaves, digests, k)), idx, val, empty)
    ensures Stands(Nodes(h, leaves, digests, k + 1), idx, val, empty)
  {
    forall i: nat
      ensures Nodes(h, leaves, digests, k + 1)(i) == Parents(h, Nodes(h, leaves, digests, k))(i)
    {
      NodeRises(h, leaves, digests, k, i);
    }
  }

  lemma NodeRises<D(!new)>(h: Hasher<D>, leaves: seq<nat>, digests: seq<D>, k: nat, i: nat)
    requires |leaves| == |digests|
    ensures NodeAt(h, leaves, digests, k + 1, i) == Parents(h, Nodes(h, leaves, digests, k))(i)
  {
  }

  /** Which k-th ancestors the level holds: those of the opened leaves. */
  ghost predicate AncestorsOf(leaves: seq<nat>, k: nat, above: seq<nat>) {
    && (forall j :: 0 <= j < |leaves| ==> Up(k, leaves[j]) in above)
    && (forall m :: 0 <= m < |above| ==> HasLeaf(leaves, k, above[m]))
  }

  /** Some opened leaf has this k-th ancestor. */
  ghost predicate HasLeaf(leaves: seq<nat>, k: nat, i: nat) {
    exists j :: LeafUnder(leaves, k, i, j)
  }

  ghost predicate LeafUnder(leaves: seq<nat>, k: nat, i: nat, j: nat) {
    j < |leaves| && Up(k, leaves[j]) == i
  }

  lemma LeavesAreAncestors(leaves: seq<nat>)
    ensures AncestorsOf(leaves, 0, leaves)
  {
    forall m | 0 <= m < |leaves| ensures HasLeaf(leaves, 0, leaves[m]) && Up(0, leaves[m]) in leaves {
      assert LeafUnder(leaves, 0, leaves[m], m);
    }
  }

  lemma AncestorsRise(leaves: seq<nat>, k: nat, level: seq<nat>, above: seq<nat>)
    requires AncestorsOf(leaves, k, level) && ParentsOf(level, above)
    ensures AncestorsOf(leaves, k + 1, above)
  {
    forall j | 0 <= j < |leaves| ensures Up(k + 1, leaves[j]) in above {
      var m :| 0 <= m < |level| && level[m] == Up(k, leaves[j]);
      assert level[m] / 4 in above;
    }
    forall m | 0 <= m < |above| ensures HasLeaf(leaves, k + 1, above[m]) {
      var n :| 0 <= n < |level| && level[n] / 4 == above[m];
      var j: nat :| LeafUnder(leaves, k, level[n], j);
      assert LeafUnder(leaves, k + 1, above[m], j);
    }
  }

  /** The scan ends on one node exactly when some leaf was opened and all share their ancestor. */
  lemma OneAncestor(leaves: seq<nat>, k: nat, above: seq<nat>)
    requires AncestorsOf(leaves, k, above) && Increasing(above)
    ensures |above| == 1 <==> OneTree(leaves, k)
    ensures leaves != [] && |above| == 1 ==> above[0] == Up(k, leaves[0])
  {
    if leaves == [] {
      assert |above| == 0;
      return;
    }
    var m :| 0 <= m < |above| && above[m] == Up(k, leaves[0]);
    if |above| == 1 {
      forall j | 0 <= j < |leaves| ensures Up(k, leaves[j]) == Up(k, leaves[0]) {
        assert Up(k, leaves[j]) in above;
      }
    } else {
      var other := if m == 0 then 1 else 0;
      assert above[0] < above[1] && above[other] != above[m];
      var j: nat :| LeafUnder(leaves, k, above[other], j);
    }
  }

  /** What the scan holds after k levels. */
  ghost predicate Reached<D(!new)>(
    h: Hasher<D>, leaves: seq<nat>, digests: seq<D>, k: nat, idx: seq<nat>, val: seq<D>, empty: D)
  {
    |leaves| == |digests| && Stands(Nodes(h, leaves, digests, k), idx, val, empty) && AncestorsOf(leaves, k, idx)
  }

  /** One level up from what was reached. */
  method Rise<D(!new)>(
    h: Hasher<D>, ghost leaves: seq<nat>, ghost digests: seq<D>, ghost k: nat, idx: seq<nat>, val: seq<D>, empty: D
  ) returns (nextIdx: seq<nat>, nextVal: seq<D>)
    requires Reached(h, leaves, digests, k, idx, val, empty)
    ensures Reached(h, leaves, digests, k + 1, nextIdx, nextVal, h.node4(empty, empty, empty, empty))
  {
    nextIdx, nextVal := ScanLevel(h, Nodes(h, leaves, digests, k), idx, val, empty);
    NodesRise(h, leaves, digests, k, nextIdx, nextVal, h.node4(empty, empty, empty, empty));
    AncestorsRise(leaves, k, idx, nextIdx);
  }

  lemma StartsReached<D(!new)>(h: Hasher<D>, leaves: seq<nat>, digests: seq<D>)
    requires |leaves| == |digests| && Increasing(leaves)
    ensures Reached(h, leaves, digests, 0, leaves, digests, h.zero)
  {
    LeavesStand(h, leaves, digests);
    LeavesAreAncestors(leaves);
  }

  lemma EndsReached<D(!new)>(
    h: Hasher<D>, leaves: seq<nat>, digests: seq<D>, k: nat, idx: seq<nat>, val: seq<D>, empty: D)
    requires Reached(h, leaves, digests, k, idx, val, empty)
    ensures |idx| == |val|
    ensures |idx| == 1 <==> OneTree(leaves, k)
    ensures |idx| == 1 ==> val[0] == NodeAt(h, leaves, digests, k, Up(k, leaves[0]))
  {
    OneAncestor(leaves, k, idx);
    if |idx| == 1 { assert val[0] == Nodes(h, leaves, digests, k)(idx[0]); }
  }

  /** Some leaf is opened and all opened leaves lie in one tree of that depth. */
  ghost predicate OneTree(leaves: seq<nat>, depth: nat) {
    leaves != [] && forall j :: 0 <= j < |leaves| ==> Up(depth, leaves[j]) == Up(depth, leaves[0])
  }

  /**
   * `batch_root4`: the root of the whole tree of opened leaves padded with empty ones; it fails
   * exactly when nothing is opened or the leaves reach past one tree of that depth.
   */
  method BatchRoot4<D(!new)>(h: Hasher<D>, leaves: seq<nat>, digests: seq<D>, depth: nat)
    returns (root: Option<D>)
    requires |leaves| == |digests| && Increasing(leaves)
    ensures root.Some? <==> OneTree(leaves, depth)
    ensures root.Some? ==> root.value == NodeAt(h, leaves, digests, depth, Up(depth, leaves[0]))
  {
    var idx, val, empty := leaves, digests, h.zero;
    StartsReached(h, leaves, digests);
    for k := 0 to depth
      invariant Reached(h, leaves, digests, k, idx, val, empty)
    {
      idx, val := Rise(h, leaves, digests, k, idx, val, empty);
      empty := h.node4(empty, empty, empty, empty);
    }
    EndsReached(h, leaves, digests, depth, idx, val, empty);
    if |val| != 1 { return None; }
    return Some(val[0]);
  }

  ghost function Pow4(k: nat): (p: nat) ensures p > 0 { if k == 0 then 1 else 4 * Pow4(k - 1) }

  /** Leaves below 4^depth all lie in the tree whose root is node 0. */
  lemma UpIsZero(k: nat, i: nat)
    ensures Up(k, i) == 0 <==> i < Pow4(k)
  {
    UpIsBelow(k, i, 1);
  }

  /** Leaves below 4^depth make one tree, so the scan succeeds on any non-empty set of them. */
  lemma BelowIsOneTree(leaves: seq<nat>, depth: nat)
    requires leaves != [] && forall j :: 0 <= j < |leaves| ==> leaves[j] < Pow4(depth)
    ensures OneTree(leaves, depth) && Up(depth, leaves[0]) == 0
  {
    forall j | 0 <= j < |leaves| ensures Up(depth, leaves[j]) == 0 {
      UpIsZero(depth, leaves[j]);
    }
  }

  lemma Regrouped(a: nat, p: nat)
    ensures (4 * a) * p == a * (4 * p)
  {
  }

  lemma {:induction false} UpIsBelow(k: nat, i: nat, bound: nat)
    ensures Up(k, i) < bound <==> i < bound * Pow4(k)
  {
    if k > 0 {
      UpIsBelow(k - 1, i, 4 * bound);
      Regrouped(bound, Pow4(k - 1));
    }
  }
}
