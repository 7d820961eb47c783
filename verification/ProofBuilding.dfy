/** Which auxiliaries a set of positions needs, and that they are exactly what the batched
    scan takes to reach the root. */
module ProofBuilding {
  import opened Wrappers
  import opened Merkle
  import opened MultiProof

  function Sibling(i: nat): nat
  {
    if i % 2 == 0 then i + 1 else i - 1
  }

  /** A path grows at its top by the sibling of the ancestor there. */
  lemma {:induction false} PathExtends<T>(compress: (T, T) -> T, zero: T, leaves: seq<T>, k: nat, d: nat, i: nat)
    ensures PathOf(compress, zero, leaves, k, d + 1, i)
         == PathOf(compress, zero, leaves, k, d, i) + [Node(compress, zero, leaves, k + d, Sibling(High(i, d)))]
    decreases d
  {
    if d > 0 {
      PathExtends(compress, zero, leaves, k + 1, d - 1, i / 2);
    }
  }

  /** The indices one level up, neighbours merged. */
  function Parents(idx: seq<nat>): seq<nat>
    decreases |idx|
  {
    if idx == [] then []
    else if PairedWithNext(idx) then [idx[0] / 2] + Parents(idx[2..])
    else [idx[0] / 2] + Parents(idx[1..])
  }

  lemma ParentsGrow(next: seq<nat>, idx: seq<nat>, i: nat)
    requires i < |idx|
    ensures
      var step := if PairedWithNext(idx[i..]) then 2 else 1;
      i + step <= |idx| && next + Parents(idx[i..]) == (next + [idx[i] / 2]) + Parents(idx[i + step..])
  {
    var step := if PairedWithNext(idx[i..]) then 2 else 1;
    assert idx[i..][step..] == idx[i + step..];
    assert next + ([idx[i] / 2] + Parents(idx[i + step..])) == (next + [idx[i] / 2]) + Parents(idx[i + step..]);
  }

  /** The nodes one level lacks. */
  function LevelAux<T>(compress: (T, T) -> T, zero: T, leaves: seq<T>, k: nat, idx: seq<nat>): seq<T>
    decreases |idx|
  {
    if idx == [] then []
    else if PairedWithNext(idx) then LevelAux(compress, zero, leaves, k, idx[2..])
    else [Node(compress, zero, leaves, k, Sibling(idx[0]))] + LevelAux(compress, zero, leaves, k, idx[1..])
  }

  /** The nodes `d` levels lack, bottom up. */
  function ProofAux<T>(compress: (T, T) -> T, zero: T, leaves: seq<T>, k: nat, d: nat, idx: seq<nat>): seq<T>
    decreases d
  {
    if d == 0 then []
    else LevelAux(compress, zero, leaves, k, idx) + ProofAux(compress, zero, leaves, k + 1, d - 1, Parents(idx))
  }

  function NodesAt<T>(compress: (T, T) -> T, zero: T, leaves: seq<T>, k: nat, idx: seq<nat>): (v: seq<T>)
    ensures |v| == |idx|
  {
    seq(|idx|, (j: nat) requires j < |idx| => Node(compress, zero, leaves, k, idx[j]))
  }

  lemma {:induction false} ScanComplete<T>(compress: (T, T) -> T, zero: T, leaves: seq<T>, k: nat, idx: seq<nat>, rest: seq<T>)
    ensures Scan(compress, idx, NodesAt(compress, zero, leaves, k, idx), LevelAux(compress, zero, leaves, k, idx) + rest)
         == Some(Level(Parents(idx), NodesAt(compress, zero, leaves, k + 1, Parents(idx)), rest))
    decreases |idx|
  {
    var val, aux := NodesAt(compress, zero, leaves, k, idx), LevelAux(compress, zero, leaves, k, idx) + rest;
    if idx == [] {
      assert aux == rest;
    } else {
      var step := if PairedWithNext(idx) then 2 else 1;
      ScanComplete(compress, zero, leaves, k, idx[step..], rest);
      NodesSplit(compress, zero, leaves, k, idx, step);
      if step == 1 {
        assert aux[1..] == LevelAux(compress, zero, leaves, k, idx[1..]) + rest;
      }
      ScanUnfolds(compress, idx, val, aux);
      NodesPrepend(compress, zero, leaves, k + 1, idx[0] / 2, Parents(idx[step..]));
    }
  }

  lemma NodesSplit<T>(compress: (T, T) -> T, zero: T, leaves: seq<T>, k: nat, idx: seq<nat>, step: nat)
    requires step <= |idx|
    ensures NodesAt(compress, zero, leaves, k, idx)[step..] == NodesAt(compress, zero, leaves, k, idx[step..])
  {
  }

  lemma NodesPrepend<T>(compress: (T, T) -> T, zero: T, leaves: seq<T>, k: nat, first: nat, rest: seq<nat>)
    ensures NodesAt(compress, zero, leaves, k, [first] + rest)
         == [Node(compress, zero, leaves, k, first)] + NodesAt(compress, zero, leaves, k, rest)
  {
  }

  /** Indices that share what lies above `d` levels. */
  ghost predicate Share(idx: seq<nat>, d: nat, prefix: nat)
  {
    forall i :: i in idx ==> High(i, d) == prefix
  }

  ghost predicate Below(idx: seq<nat>, bound: nat)
  {
    forall i :: i in idx ==> i < bound
  }

  ghost predicate HalvesOf(up: seq<nat>, idx: seq<nat>)
  {
    forall p :: p in up ==> exists i :: i in idx && i / 2 == p
  }

  lemma {:induction false} ParentsIncrease(idx: seq<nat>)
    requires Increasing(idx)
    ensures Increasing(Parents(idx)) && HalvesOf(Parents(idx), idx)
    ensures idx != [] ==> Parents(idx) != [] && Parents(idx)[0] == idx[0] / 2
    decreases |idx|
  {
    if idx != [] {
      var step := if PairedWithNext(idx) then 2 else 1;
      var tail := idx[step..];
      TailIncreases(idx, step);
      ParentsIncrease(tail);
      if tail != [] {
        assert idx[0] < idx[step] && (step == 2 ==> idx[1] < idx[2]);
      }
      IncreasesFrom(idx[0] / 2, Parents(tail));
      HalvesGrow(idx, step);
    }
  }

  lemma HalvesGrow(idx: seq<nat>, step: nat)
    requires 0 < step <= |idx| && HalvesOf(Parents(idx[step..]), idx[step..])
    ensures HalvesOf([idx[0] / 2] + Parents(idx[step..]), idx)
  {
    var up := Parents(idx[step..]);
    forall p | p in [idx[0] / 2] + up ensures exists i :: i in idx && i / 2 == p {
      if p in up {
        var i :| i in idx[step..] && i / 2 == p;
        assert i in idx;
      } else {
        assert idx[0] in idx;
      }
    }
  }

  lemma ParentsShare(idx: seq<nat>, d: nat, prefix: nat)
    requires Increasing(idx) && Share(idx, d + 1, prefix)
    ensures Share(Parents(idx), d, prefix)
  {
    ParentsIncrease(idx);
    forall p | p in Parents(idx) ensures High(p, d) == prefix {
      var i :| i in idx && i / 2 == p;
    }
  }

  lemma TailIncreases(idx: seq<nat>, step: nat)
    requires Increasing(idx) && step <= |idx|
    ensures Increasing(idx[step..])
    ensures forall i :: i in idx[step..] ==> i in idx
  {
    forall i, j | 0 <= i < j < |idx| - step ensures idx[step..][i] < idx[step..][j] {
      assert idx[step + i] < idx[step + j];
    }
  }

  lemma IncreasesFrom(first: nat, rest: seq<nat>)
    requires Increasing(rest) && (rest != [] ==> first < rest[0])
    ensures Increasing([first] + rest)
  {
  }

  lemma OnlyOne(idx: seq<nat>, prefix: nat)
    requires idx != [] && Increasing(idx) && Share(idx, 0, prefix)
    ensures idx == [prefix]
  {
    assert idx[0] in idx && idx[|idx| - 1] in idx;
  }

  lemma {:induction false} ScansComplete<T>(compress: (T, T) -> T, zero: T, leaves: seq<T>, k: nat, d: nat, idx: seq<nat>,
                                            prefix: nat)
    requires idx != [] && Increasing(idx) && Share(idx, d, prefix)
    ensures Scans(compress, idx, NodesAt(compress, zero, leaves, k, idx), ProofAux(compress, zero, leaves, k, d, idx), d)
         == Some(Level([prefix], [Node(compress, zero, leaves, k + d, prefix)], []))
    decreases d
  {
    if d == 0 {
      OnlyOne(idx, prefix);
      assert NodesAt(compress, zero, leaves, k, idx) == [Node(compress, zero, leaves, k, prefix)];
    } else {
      var up := Parents(idx);
      ParentsIncrease(idx);
      ParentsShare(idx, d - 1, prefix);
      ScansComplete(compress, zero, leaves, k + 1, d - 1, up, prefix);
      ScanComplete(compress, zero, leaves, k, idx, ProofAux(compress, zero, leaves, k + 1, d - 1, up));
    }
  }

  /** The leaves at a set of positions, as a prover opens them. */
  function OpenedAt<T>(compress: (T, T) -> T, zero: T, leaves: seq<T>, idx: seq<nat>): seq<Opened<T>>
  {
    seq(|idx|, (j: nat) requires j < |idx| => Opened(Node(compress, zero, leaves, 0, idx[j]), idx[j]))
  }

  lemma OpenedIndices<T>(compress: (T, T) -> T, zero: T, leaves: seq<T>, idx: seq<nat>)
    ensures Indices(OpenedAt(compress, zero, leaves, idx)) == idx
    ensures idx != [] ==> OpenedAt(compress, zero, leaves, idx)[0].index == idx[0]
  {
  }

  /** Any subtree: its leaves and these auxiliaries reach its root, with none left over. */
  lemma SubtreeComplete<T>(compress: (T, T) -> T, zero: T, leaves: seq<T>, depth: nat, idx: seq<nat>, prefix: nat)
    requires idx != [] && Increasing(idx) && Share(idx, depth, prefix)
    ensures RootOfLeaves(compress, OpenedAt(compress, zero, leaves, idx), ProofAux(compress, zero, leaves, 0, depth, idx), depth)
         == Some(Node(compress, zero, leaves, depth, prefix))
  {
    var items := OpenedAt(compress, zero, leaves, idx);
    assert Indices(items) == idx && Digests(items) == NodesAt(compress, zero, leaves, 0, idx);
    ScansComplete(compress, zero, leaves, 0, depth, idx, prefix);
  }

  /** Multi-proof completeness: the tree's own leaves and these auxiliaries reach the root,
      with none left over. */
  lemma BatchComplete<T>(compress: (T, T) -> T, zero: T, leaves: seq<T>, depth: nat, idx: seq<nat>)
    requires idx != [] && Increasing(idx) && Below(idx, Pow2(depth))
    ensures RootOfLeaves(compress, OpenedAt(compress, zero, leaves, idx), ProofAux(compress, zero, leaves, 0, depth, idx), depth)
         == Some(Root(compress, zero, leaves, depth))
  {
    forall i | i in idx ensures High(i, depth) == 0 {
      SmallIndex(i, depth);
    }
    SubtreeComplete(compress, zero, leaves, depth, idx, 0);
  }

  /** A batch that reaches any root at all has indices in one tree's width. */
  lemma ReachedShares<T>(compress: (T, T) -> T, items: seq<Opened<T>>, aux: seq<T>, depth: nat)
    requires RootOfLeaves(compress, items, aux, depth).Some?
    ensures items != [] && Share(Indices(items), depth, High(items[0].index, depth))
  {
    var l := Scans(compress, Indices(items), Digests(items), aux, depth).value;
    var prefix := l.idx[0];
    assert l.idx == [prefix];
    ScansShare(compress, Indices(items), Digests(items), aux, depth, prefix);
    assert Indices(items)[0] in Indices(items);
  }

  lemma {:induction false} ScansShare<T>(compress: (T, T) -> T, idx: seq<nat>, val: seq<T>, aux: seq<T>, depth: nat, prefix: nat)
    requires |idx| == |val| && Scans(compress, idx, val, aux, depth).Some?
    requires Scans(compress, idx, val, aux, depth).value.idx == [prefix]
    ensures Share(idx, depth, prefix)
    decreases depth
  {
    hide Scan;
    if depth > 0 {
      var l := Scan(compress, idx, val, aux).value;
      ScansShare(compress, l.idx, l.val, l.aux, depth - 1, prefix);
      ScanKeepsParents(compress, idx, val, aux);
    }
  }

  // ---- indices above the tree -------------------------------------------------------------------

  /** The leaves after so many empty positions. */
  function Shifted<T>(zero: T, leaves: seq<T>, gap: nat): seq<T>
  {
    seq(gap, (j: nat) => zero) + leaves
  }

  lemma TwiceTheGap(gap: nat, half: nat)
    ensures gap * (2 * half) == (2 * gap) * half
  {
  }

  lemma {:induction false} ShiftedNode<T>(compress: (T, T) -> T, zero: T, leaves: seq<T>, k: nat, gap: nat, i: nat)
    ensures Node(compress, zero, Shifted(zero, leaves, gap * Pow2(k)), k, gap + i) == Node(compress, zero, leaves, k, i)
    decreases k
  {
    if k > 0 {
      TwiceTheGap(gap, Pow2(k - 1));
      ShiftedNode(compress, zero, leaves, k - 1, 2 * gap, 2 * i);
      ShiftedNode(compress, zero, leaves, k - 1, 2 * gap, 2 * i + 1);
    }
  }

  /** Openings a tree can answer: its own leaf at the low digits of each index, the indices
      increasing and alike above the tree's width. */
  ghost predicate Openable<T>(compress: (T, T) -> T, zero: T, tree: seq<T>, items: seq<Opened<T>>, depth: nat, prefix: nat)
  {
    && items != [] && Increasing(Indices(items))
    && forall x :: x in items ==> High(x.index, depth) == prefix && x.leaf == Node(compress, zero, tree, 0, Low(x.index, depth))
  }

  lemma ShiftedLeaf<T>(compress: (T, T) -> T, zero: T, tree: seq<T>, depth: nat, prefix: nat, index: nat)
    requires High(index, depth) == prefix
    ensures Node(compress, zero, Shifted(zero, tree, prefix * Pow2(depth)), 0, index)
         == Node(compress, zero, tree, 0, Low(index, depth))
  {
    DigitsSplit(index, depth);
    assert Pow2(depth) * prefix == prefix * Pow2(depth);
  }

  lemma OpenableIsOpened<T>(compress: (T, T) -> T, zero: T, tree: seq<T>, items: seq<Opened<T>>, depth: nat, prefix: nat)
    requires Openable(compress, zero, tree, items, depth, prefix)
    ensures OpenedAt(compress, zero, Shifted(zero, tree, prefix * Pow2(depth)), Indices(items)) == items
    ensures Share(Indices(items), depth, prefix)
  {
    var moved := Shifted(zero, tree, prefix * Pow2(depth));
    forall j | 0 <= j < |items|
      ensures OpenedAt(compress, zero, moved, Indices(items))[j] == items[j] && High(items[j].index, depth) == prefix
    {
      assert items[j] in items;
      ShiftedLeaf(compress, zero, tree, depth, prefix, items[j].index);
    }
  }

  lemma OpenableComplete<T>(compress: (T, T) -> T, zero: T, tree: seq<T>, items: seq<Opened<T>>, depth: nat, prefix: nat)
    returns (aux: seq<T>)
    requires Openable(compress, zero, tree, items, depth, prefix)
    ensures RootOfLeaves(compress, items, aux, depth) == Some(Root(compress, zero, tree, depth))
  {
    var moved := Shifted(zero, tree, prefix * Pow2(depth));
    aux := ProofAux(compress, zero, moved, 0, depth, Indices(items));
    OpenableIsOpened(compress, zero, tree, items, depth, prefix);
    SubtreeComplete(compress, zero, moved, depth, Indices(items), prefix);
    ShiftedNode(compress, zero, tree, depth, prefix, 0);
  }

  /** Multi-proofs are exact: some auxiliaries carry a list of openings to a tree's root if and
      only if each is the tree's own leaf at the low digits of its index, the indices increase,
      and they share what lies above the tree's width, be it zero or not. */
  lemma BatchExact<T(!new)>(compress: (T, T) -> T, zero: T, tree: seq<T>, items: seq<Opened<T>>, depth: nat)
    requires Injective(compress)
    ensures (exists aux :: RootOfLeaves(compress, items, aux, depth) == Some(Root(compress, zero, tree, depth)))
        <==> exists prefix :: Openable(compress, zero, tree, items, depth, prefix)
  {
    if exists prefix :: Openable(compress, zero, tree, items, depth, prefix) {
      var prefix: nat :| Openable(compress, zero, tree, items, depth, prefix);
      var aux := OpenableComplete(compress, zero, tree, items, depth, prefix);
    }
    if exists aux :: RootOfLeaves(compress, items, aux, depth) == Some(Root(compress, zero, tree, depth)) {
      var aux: seq<T> :| RootOfLeaves(compress, items, aux, depth) == Some(Root(compress, zero, tree, depth));
      BatchSound(compress, zero, tree, items, aux, depth);
      var prefix := High(items[0].index, depth);
      forall x | x in items
        ensures High(x.index, depth) == prefix && x.leaf == Node(compress, zero, tree, 0, Low(x.index, depth))
      {
        var j: nat :| j < |items| && items[j] == x;
      }
      assert Openable(compress, zero, tree, items, depth, prefix);
    }
  }
}
