/** The batched multi-proof: a linear scan per level over the opened positions, taking from
    the auxiliaries only what the opened positions do not determine. */
module MultiProof {
  import opened Wrappers
  import opened Merkle

  /** The nodes of one level in index order, and the auxiliaries not taken yet. */
  datatype Level<T> = Level(idx: seq<nat>, val: seq<T>, aux: seq<T>)
  {
    ghost predicate Valid() { |idx| == |val| }
  }

  predicate Increasing(idx: seq<nat>)
  {
    forall i, j :: 0 <= i < j < |idx| ==> idx[i] < idx[j]
  }

  function Prepend<T>(index: nat, value: T, rest: Option<Level<T>>): Option<Level<T>>
  {
    match rest
    case None => None
    case Some(l) => Some(Level([index] + l.idx, [value] + l.val, l.aux))
  }

  predicate PairedWithNext(idx: seq<nat>)
  {
    |idx| > 1 && idx[0] % 2 == 0 && idx[1] == idx[0] + 1
  }

  /** One level: every node is joined with its neighbour if that is open too, and with the
      next auxiliary if not. */
  function Scan<T>(compress: (T, T) -> T, idx: seq<nat>, val: seq<T>, aux: seq<T>): (r: Option<Level<T>>)
    requires |idx| == |val|
    ensures r.Some? ==> r.value.Valid()
    decreases |idx|
  {
    if idx == [] then Some(Level([], [], aux))
    else if PairedWithNext(idx) then
      Prepend(idx[0] / 2, compress(val[0], val[1]), Scan(compress, idx[2..], val[2..], aux))
    else if aux == [] then None
    else
      var parent := if idx[0] % 2 == 0 then compress(val[0], aux[0]) else compress(aux[0], val[0]);
      Prepend(idx[0] / 2, parent, Scan(compress, idx[1..], val[1..], aux[1..]))
  }

  function Scans<T>(compress: (T, T) -> T, idx: seq<nat>, val: seq<T>, aux: seq<T>, depth: nat): (r: Option<Level<T>>)
    requires |idx| == |val|
    ensures r.Some? ==> r.value.Valid()
    decreases depth
  {
    if depth == 0 then Some(Level(idx, val, aux))
    else
      match Scan(compress, idx, val, aux)
      case None => None
      case Some(l) => Scans(compress, l.idx, l.val, l.aux, depth - 1)
  }

  /** What `batch_root_columns` returns; `None` where it panics. */
  function RootOfColumns<T>(compress: (T, T) -> T, idx: seq<nat>, val: seq<T>, aux: seq<T>, depth: nat): Option<T>
    requires |idx| == |val|
  {
    if idx == [] then None
    else
      match Scans(compress, idx, val, aux, depth)
      case None => None
      case Some(l) => if l.aux == [] && |l.val| == 1 then Some(l.val[0]) else None
  }

  /** One opened position: a leaf digest and its index. */
  datatype Opened<T> = Opened(leaf: T, index: nat)

  function Indices<T>(leaves: seq<Opened<T>>): (idx: seq<nat>)
    ensures |idx| == |leaves|
  {
    seq(|leaves|, (i: nat) requires i < |leaves| => leaves[i].index)
  }

  function Digests<T>(leaves: seq<Opened<T>>): (val: seq<T>)
    ensures |val| == |leaves|
  {
    seq(|leaves|, (i: nat) requires i < |leaves| => leaves[i].leaf)
  }

  /** What `batch_root` returns. */
  function RootOfLeaves<T>(compress: (T, T) -> T, leaves: seq<Opened<T>>, aux: seq<T>, depth: nat): Option<T>
  {
    if Increasing(Indices(leaves)) then RootOfColumns(compress, Indices(leaves), Digests(leaves), aux, depth)
    else None
  }

  // ---- the loops ---------------------------------------------------------------------------

  function Joined<T>(idx: seq<nat>, val: seq<T>, rest: Option<Level<T>>): Option<Level<T>>
  {
    match rest
    case None => None
    case Some(l) => Some(Level(idx + l.idx, val + l.val, l.aux))
  }

  lemma JoinedNothing<T>(rest: Option<Level<T>>)
    ensures Joined([], [], rest) == rest
  {
    if rest.Some? {
      assert [] + rest.value.idx == rest.value.idx && [] + rest.value.val == rest.value.val;
    }
  }

  lemma JoinedPrepend<T>(idx: seq<nat>, val: seq<T>, index: nat, value: T, rest: Option<Level<T>>)
    ensures Joined(idx, val, Prepend(index, value, rest)) == Joined(idx + [index], val + [value], rest)
  {
    if rest.Some? {
      assert idx + ([index] + rest.value.idx) == (idx + [index]) + rest.value.idx;
      assert val + ([value] + rest.value.val) == (val + [value]) + rest.value.val;
    }
  }

  /** The inner scan of `batch_root_columns`, with its cursor into the auxiliaries. */
  method ScanLevel<T>(compress: (T, T) -> T, idx: seq<nat>, val: seq<T>, aux: seq<T>, from: nat)
    returns (ok: bool, nextIdx: seq<nat>, nextVal: seq<T>, cursor: nat)
    requires |idx| == |val| && from <= |aux|
    ensures ok ==> cursor <= |aux| && Scan(compress, idx, val, aux[from..]) == Some(Level(nextIdx, nextVal, aux[cursor..]))
    ensures !ok ==> Scan(compress, idx, val, aux[from..]) == None
  {
    hide Scan, Joined;
    nextIdx, nextVal, cursor := [], [], from;
    var i: nat := 0;
    JoinedNothing(Scan(compress, idx, val, aux[from..]));
    assert idx[0..] == idx && val[0..] == val;
    while i < |idx|
      invariant i <= |idx| && cursor <= |aux|
      invariant Joined(nextIdx, nextVal, Scan(compress, idx[i..], val[i..], aux[cursor..]))
             == Scan(compress, idx, val, aux[from..])
    {
      var k := idx[i];
      var left, right;
      var was := i;
      ghost var auxWas := cursor;
      ScanUnfolds(compress, idx[i..], val[i..], aux[cursor..]);
      JoinedFails(nextIdx, nextVal, Scan(compress, idx[i..], val[i..], aux[cursor..]));
      if k % 2 == 0 {
        left := val[i];
        if i + 1 < |idx| && idx[i + 1] == k + 1 {
          i := i + 2;
          right := val[i - 1];
        } else {
          if cursor == |aux| {
            return false, nextIdx, nextVal, cursor;
          }
          right, cursor, i := aux[cursor], cursor + 1, i + 1;
        }
      } else {
        if cursor == |aux| {
          return false, nextIdx, nextVal, cursor;
        }
        left, cursor, i := aux[cursor], cursor + 1, i + 1;
        right := val[i - 1];
      }
      JoinedPrepend(nextIdx, nextVal, k / 2, compress(left, right), Scan(compress, idx[i..], val[i..], aux[cursor..]));
      assert idx[was..][1..] == idx[was + 1..] && val[was..][1..] == val[was + 1..];
      nextIdx, nextVal := nextIdx + [k / 2], nextVal + [compress(left, right)];
    }
    ok := true;
    assert idx[i..] == [] && val[i..] == [];
    ScanNothing(compress, nextIdx, nextVal, aux[cursor..]);
  }

  lemma ScanNothing<T>(compress: (T, T) -> T, idx: seq<nat>, val: seq<T>, aux: seq<T>)
    ensures Joined(idx, val, Scan(compress, [], [], aux)) == Some(Level(idx, val, aux))
  {
    assert idx + [] == idx && val + [] == val;
  }

  lemma JoinedFails<T>(idx: seq<nat>, val: seq<T>, rest: Option<Level<T>>)
    ensures rest == None ==> Joined(idx, val, rest) == None
  {
  }

  lemma ScanUnfolds<T>(compress: (T, T) -> T, idx: seq<nat>, val: seq<T>, aux: seq<T>)
    requires |idx| == |val| > 0
    ensures PairedWithNext(idx) ==>
      Scan(compress, idx, val, aux)
      == Prepend(idx[0] / 2, compress(val[0], val[1]), Scan(compress, idx[2..], val[2..], aux))
    ensures !PairedWithNext(idx) && aux != [] ==>
      Scan(compress, idx, val, aux)
      == Prepend(idx[0] / 2, if idx[0] % 2 == 0 then compress(val[0], aux[0]) else compress(aux[0], val[0]),
                 Scan(compress, idx[1..], val[1..], aux[1..]))
    ensures !PairedWithNext(idx) && aux == [] ==> Scan(compress, idx, val, aux) == None
  {
  }

  /** `batch_root_columns` */
  method BatchRootColumns<T>(compress: (T, T) -> T, idx0: seq<nat>, val0: seq<T>, aux: seq<T>, depth: nat)
    returns (r: Option<T>)
    requires |idx0| == |val0|
    ensures r == RootOfColumns(compress, idx0, val0, aux, depth)
  {
    if idx0 == [] {
      return None;
    }
    var idx, val := idx0, val0;
    var cursor: nat := 0;
    assert aux[0..] == aux;
    for level := 0 to depth
      invariant |idx| == |val| && cursor <= |aux|
      invariant Scans(compress, idx, val, aux[cursor..], depth - level) == Scans(compress, idx0, val0, aux, depth)
    {
      var ok, nextIdx, nextVal, next := ScanLevel(compress, idx, val, aux, cursor);
      assert depth - level > 0;
      if !ok {
        return None;
      }
      idx, val, cursor := nextIdx, nextVal, next;
    }
    if cursor != |aux| || |val| != 1 {
      return None;
    }
    r := Some(val[0]);
  }

  /** `batch_root` */
  method BatchRoot<T>(compress: (T, T) -> T, leaves: seq<Opened<T>>, aux: seq<T>, depth: nat) returns (r: Option<T>)
    ensures r == RootOfLeaves(compress, leaves, aux, depth)
  {
    var idx, val := [], [];
    for i := 0 to |leaves|
      invariant |idx| == |val| == i && Increasing(idx)
      invariant idx == Indices(leaves)[..i] && val == Digests(leaves)[..i]
    {
      if i > 0 && leaves[i].index <= idx[i - 1] {
        assert Indices(leaves)[i] <= Indices(leaves)[i - 1];
        return None;
      }
      idx, val := idx + [leaves[i].index], val + [leaves[i].leaf];
    }
    assert idx == Indices(leaves) && val == Digests(leaves);
    r := BatchRootColumns(compress, idx, val, aux, depth);
  }

  // ---- soundness ------------------------------------------------------------------------------

  /** The values of a level are the tree's nodes at their indices, read modulo the level's width. */
  ghost predicate Agrees<T>(compress: (T, T) -> T, zero: T, leaves: seq<T>, k: nat, d: nat, idx: seq<nat>, val: seq<T>)
    requires |idx| == |val|
  {
    forall j: nat :: j < |idx| ==> val[j] == Node(compress, zero, leaves, k, Low(idx[j], d))
  }

  lemma AgreesTail<T>(compress: (T, T) -> T, zero: T, leaves: seq<T>, k: nat, d: nat, idx: seq<nat>, val: seq<T>)
    requires |idx| == |val| > 0 && Agrees(compress, zero, leaves, k, d, idx, val)
    ensures Agrees(compress, zero, leaves, k, d, idx[1..], val[1..])
  {
  }

  lemma AgreesPrepend<T>(compress: (T, T) -> T, zero: T, leaves: seq<T>, k: nat, d: nat,
                         index: nat, value: T, idx: seq<nat>, val: seq<T>)
    requires |idx| == |val| && Agrees(compress, zero, leaves, k, d, [index] + idx, [value] + val)
    ensures value == Node(compress, zero, leaves, k, Low(index, d))
    ensures Agrees(compress, zero, leaves, k, d, idx, val)
  {
    var indices, values := [index] + idx, [value] + val;
    AgreesTail(compress, zero, leaves, k, d, indices, values);
    assert indices[1..] == idx && values[1..] == val;
    assert values[0] == value && indices[0] == index;
  }

  lemma AgreesJoin<T>(compress: (T, T) -> T, zero: T, leaves: seq<T>, k: nat, d: nat, idx: seq<nat>, val: seq<T>, s: nat)
    requires |idx| == |val| && s <= |idx|
    requires Agrees(compress, zero, leaves, k, d, idx[s..], val[s..])
    requires forall j: nat :: j < s ==> val[j] == Node(compress, zero, leaves, k, Low(idx[j], d))
    ensures Agrees(compress, zero, leaves, k, d, idx, val)
  {
    forall j: nat | j < |idx| ensures val[j] == Node(compress, zero, leaves, k, Low(idx[j], d)) {
      if j >= s {
        assert val[j] == val[s..][j - s] && idx[j] == idx[s..][j - s];
      }
    }
  }

  /** A node joined with a sibling into an agreeing parent agrees, and so does the sibling. */
  lemma ParentAgrees<T(!new)>(compress: (T, T) -> T, zero: T, leaves: seq<T>, k: nat, d: nat,
                              index: nat, value: T, sibling: T)
    requires Injective(compress)
    requires Node(compress, zero, leaves, k + 1, Low(index / 2, d)) ==
             if index % 2 == 0 then compress(value, sibling) else compress(sibling, value)
    ensures value == Node(compress, zero, leaves, k, Low(index, d + 1))
    ensures index % 2 == 0 ==> sibling == Node(compress, zero, leaves, k, Low(index + 1, d + 1))
  {
    OneStepDown(compress, zero, leaves, k, value, index, sibling, Low(index / 2, d));
    assert index % 2 == 0 ==> (index + 1) / 2 == index / 2;
  }

  /** If the level above agrees with the tree, so does this one. */
  lemma {:induction false} ScanSound<T(!new)>(compress: (T, T) -> T, zero: T, leaves: seq<T>, k: nat, d: nat,
                                              idx: seq<nat>, val: seq<T>, aux: seq<T>)
    requires Injective(compress) && |idx| == |val|
    requires
      var r := Scan(compress, idx, val, aux);
      r.Some? && Agrees(compress, zero, leaves, k + 1, d, r.value.idx, r.value.val)
    ensures Agrees(compress, zero, leaves, k, d + 1, idx, val)
    decreases |idx|
  {
    hide Node, Low;
    if idx != [] {
      ScanUnfolds(compress, idx, val, aux);
      var parent := Scan(compress, idx, val, aux).value.val[0];
      if PairedWithNext(idx) {
        var rest := Scan(compress, idx[2..], val[2..], aux).value;
        AgreesPrepend(compress, zero, leaves, k + 1, d, idx[0] / 2, parent, rest.idx, rest.val);
        ScanSound(compress, zero, leaves, k, d, idx[2..], val[2..], aux);
        ParentAgrees(compress, zero, leaves, k, d, idx[0], val[0], val[1]);
        AgreesJoin(compress, zero, leaves, k, d + 1, idx, val, 2);
      } else {
        var rest := Scan(compress, idx[1..], val[1..], aux[1..]).value;
        AgreesPrepend(compress, zero, leaves, k + 1, d, idx[0] / 2, parent, rest.idx, rest.val);
        ScanSound(compress, zero, leaves, k, d, idx[1..], val[1..], aux[1..]);
        ParentAgrees(compress, zero, leaves, k, d, idx[0], val[0], aux[0]);
        AgreesJoin(compress, zero, leaves, k, d + 1, idx, val, 1);
      }
    }
  }

  lemma HeadOrTail(idx: seq<nat>, step: nat, i: nat)
    requires i in idx && 0 < step <= 2 && step <= |idx|
    ensures i in idx[step..] || i == idx[0] || (step == 2 && i == idx[1])
  {
    assert idx == idx[..step] + idx[step..];
  }

  /** The indices a scan leaves are the parents of the ones it got. */
  lemma {:induction false} ScanKeepsParents<T>(compress: (T, T) -> T, idx: seq<nat>, val: seq<T>, aux: seq<T>)
    requires |idx| == |val| && Scan(compress, idx, val, aux).Some?
    ensures forall i :: i in idx ==> i / 2 in Scan(compress, idx, val, aux).value.idx
    decreases |idx|
  {
    hide Scan;
    if idx != [] {
      ScanUnfolds(compress, idx, val, aux);
      var step := if PairedWithNext(idx) then 2 else 1;
      ScanKeepsParents(compress, idx[step..], val[step..], if step == 2 then aux else aux[1..]);
      forall i | i in idx ensures i / 2 in Scan(compress, idx, val, aux).value.idx {
        HeadOrTail(idx, step, i);
      }
    }
  }

  lemma {:induction false} ScansSound<T(!new)>(compress: (T, T) -> T, zero: T, leaves: seq<T>, k: nat, depth: nat,
                                               idx: seq<nat>, val: seq<T>, aux: seq<T>, prefix: nat)
    requires Injective(compress) && |idx| == |val|
    requires
      var r := Scans(compress, idx, val, aux, depth);
      && r.Some? && r.value.idx == [prefix]
      && r.value.val == [Node(compress, zero, leaves, k + depth, 0)]
    ensures Agrees(compress, zero, leaves, k, depth, idx, val)
    ensures forall i :: i in idx ==> High(i, depth) == prefix
    decreases depth
  {
    hide Node, Scan;
    if depth > 0 {
      var l := Scan(compress, idx, val, aux).value;
      ScansSound(compress, zero, leaves, k + 1, depth - 1, l.idx, l.val, l.aux, prefix);
      ScanSound(compress, zero, leaves, k, depth - 1, idx, val, aux);
      ScanKeepsParents(compress, idx, val, aux);
    }
  }

  /** Multi-proof soundness. Whatever auxiliaries a prover supplies, a batch that reaches the
      root of a tree opens the tree's own leaves, at distinct positions, all the indices
      sharing what lies above the tree's width. */
  lemma BatchSound<T(!new)>(compress: (T, T) -> T, zero: T, tree: seq<T>, items: seq<Opened<T>>, aux: seq<T>, depth: nat)
    requires Injective(compress)
    requires RootOfLeaves(compress, items, aux, depth) == Some(Root(compress, zero, tree, depth))
    ensures items != []
    ensures forall j: nat :: j < |items| ==>
      items[j].leaf == Node(compress, zero, tree, 0, Low(items[j].index, depth))
    ensures forall i: nat, j: nat :: i < j < |items| ==>
      && items[i].index < items[j].index
      && High(items[i].index, depth) == High(items[j].index, depth)
      && Low(items[i].index, depth) != Low(items[j].index, depth)
  {
    var idx, val := Indices(items), Digests(items);
    var l := Scans(compress, idx, val, aux, depth).value;
    var prefix := l.idx[0];
    assert l.idx == [prefix] && l.val == [l.val[0]];
    ScansSound(compress, zero, tree, 0, depth, idx, val, aux, prefix);
    forall j: nat | j < |items|
      ensures items[j].leaf == Node(compress, zero, tree, 0, Low(items[j].index, depth))
      ensures High(items[j].index, depth) == prefix
    {
      assert val[j] == items[j].leaf && idx[j] == items[j].index && idx[j] in idx;
    }
    forall i: nat, j: nat | i < j < |items|
      ensures items[i].index < items[j].index
      ensures Low(items[i].index, depth) != Low(items[j].index, depth)
    {
      assert idx[i] < idx[j];
      if Low(idx[i], depth) == Low(idx[j], depth) {
        DigitsDetermine(idx[i], idx[j], depth);
      }
    }
  }
}
