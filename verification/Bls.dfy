/** BLS verification over formal groups: a public key is a combination of validators, a
    signature or a pairing product a combination of (validator, message) pairs. */
module Bls {
  import opened FormalSums
  import opened Ssz
  import opened Wrappers

  type Point = Combo<nat>

  /** One validator's signature over one signing root. */
  type Vote = (nat, Bytes32)

  const IDENTITY: Point := map[]

  /** What decompressing ninety-six bytes gives. `cofactor` is the part outside the subgroup. */
  datatype Signature = Malformed | Infinity | OnCurve(sum: Combo<Vote>, cofactor: int)

  /** The key as a combination of votes for one message: `e(key, H(message))`. */
  function Tag(key: Point, message: Bytes32): (r: Combo<Vote>)
    ensures forall v: nat, m: Bytes32 :: Coef(r, (v, m)) == if m == message then Coef(key, v) else 0
  {
    map p | p in (set v | v in key :: (v, message)) :: if p.1 == message then Coef(key, p.0) else 0
  }

  /** What a combination of votes says about one message. */
  function KeyAt(votes: Combo<Vote>, message: Bytes32): (r: Point)
    ensures forall v: nat :: Coef(r, v) == Coef(votes, (v, message))
  {
    map v | v in (set p | p in votes && p.1 == message :: p.0) :: Coef(votes, (v, message))
  }

  // ---- PointSum --------------------------------------------------------------------------

  /** The precompile is undefined on a shared x-coordinate: equal or opposite operands. */
  predicate SharesX(a: Point, b: Point)
  {
    a == b || a == Negated(b)
  }

  datatype PointSum = PointSum(value: Option<Point>)
  {
    function Add(point: Point): Option<PointSum>
    {
      match value
      case None => Some(PointSum(Some(point)))
      case Some(current) => if SharesX(current, point) then None else Some(PointSum(Some(Plus(current, point))))
    }

    function Sub(point: Point): Option<PointSum>
    {
      Add(Negated(point))
    }
  }

  /** Adding points one by one. */
  function AddAll(start: PointSum, points: seq<Point>): Option<PointSum>
    decreases |points|
  {
    if points == [] then Some(start)
    else
      var last := |points| - 1;
      var sum :- AddAll(start, points[..last]);
      sum.Add(points[last])
  }

  /** `aggregate_points` */
  method AggregatePoints(points: seq<Point>) returns (r: Option<Point>)
    ensures r == (var sum :- AddAll(PointSum(None), points); sum.value)
  {
    var sum := PointSum(None);
    for i := 0 to |points|
      invariant AddAll(PointSum(None), points[..i]) == Some(sum)
    {
      assert points[..i + 1][..i] == points[..i];
      var next := sum.Add(points[i]);
      if next.None? {
        AddAllFails(PointSum(None), points, i + 1);
        return None;
      }
      sum := next.value;
    }
    assert points[..|points|] == points;
    r := sum.value;
  }

  lemma {:induction false} AddAllFails(start: PointSum, points: seq<Point>, n: nat)
    requires n <= |points| && AddAll(start, points[..n]).None?
    ensures AddAll(start, points).None?
    decreases |points|
  {
    if n == |points| {
      assert points[..n] == points;
    } else {
      var front := points[..|points| - 1];
      assert front[..n] == points[..n];
      AddAllFails(start, front, n);
    }
  }

  // ---- the pairing, split into its two halves ----------------------------------------------

  /** A Miller-loop accumulator: the keys paired with their messages on one side, the
      signatures paired with the generator on the other. */
  datatype Fp12 = Fp12(keys: Combo<Vote>, sigs: Combo<Vote>)

  const FP12_ONE := Fp12(map[], map[])

  function Fp12Mul(a: Fp12, b: Fp12): Fp12
  {
    Fp12(Plus(a.keys, b.keys), Plus(a.sigs, b.sigs))
  }

  /** The final exponentiation comes out at one exactly when the two sides agree. */
  predicate FinalExpIsOne(f: Fp12)
  {
    f.keys == f.sigs
  }

  datatype SignedMessage = SignedMessage(pubkeys: seq<Point>, root: Bytes32, signatures: seq<Signature>)

  /** A sum of signatures, the part outside the subgroup kept apart. */
  datatype SignatureSum = SignatureSum(votes: Combo<Vote>, cofactor: int)
  {
    function Plus(s: Signature): Option<SignatureSum>
    {
      if s.OnCurve? then Some(SignatureSum(FormalSums.Plus(votes, s.sum), cofactor + s.cofactor)) else None
    }
  }

  const NO_SIGNATURES := SignatureSum(map[], 0)

  function SumSignatures(start: SignatureSum, signatures: seq<Signature>): Option<SignatureSum>
    decreases |signatures|
  {
    if signatures == [] then Some(start)
    else
      var last := |signatures| - 1;
      var sum :- SumSignatures(start, signatures[..last]);
      sum.Plus(signatures[last])
  }

  /** The two sides of the pairing equation of a list of messages. */
  datatype Gathered = Gathered(keys: Combo<Vote>, sum: SignatureSum)

  function GatherOne(g: Gathered, m: SignedMessage): Option<Gathered>
  {
    var agg :- AddAll(PointSum(None), m.pubkeys);
    var key :- agg.value;
    var sum :- SumSignatures(g.sum, m.signatures);
    if m.signatures == [] then None else Some(Gathered(Plus(g.keys, Tag(key, m.root)), sum))
  }

  function Gather(messages: seq<SignedMessage>): Option<Gathered>
    decreases |messages|
  {
    if messages == [] then Some(Gathered(map[], NO_SIGNATURES))
    else
      var last := |messages| - 1;
      var g :- Gather(messages[..last]);
      GatherOne(g, messages[last])
  }

  /** No message whose keys, all its aggregates merged, come to the identity. */
  predicate AllKeyed(messages: seq<SignedMessage>, keys: Combo<Vote>)
  {
    forall m :: m in messages ==> KeyAt(keys, m.root) != IDENTITY
  }

  /** What `miller_accumulator` returns. */
  function MillerAccumulator(messages: seq<SignedMessage>): Option<Fp12>
  {
    if messages == [] then None
    else
      var g :- Gather(messages);
      if g.sum.cofactor != 0 || g.sum.votes == map[] || !AllKeyed(messages, g.keys) then None
      else Some(Fp12(g.keys, g.sum.votes))
  }

  lemma GatherStep(messages: seq<SignedMessage>, i: nat)
    requires i < |messages|
    ensures messages[..i + 1] == messages[..i] + [messages[i]]
    ensures Gather(messages[..i + 1]) == (var g :- Gather(messages[..i]); GatherOne(g, messages[i]))
  {
    assert messages[..i + 1][..i] == messages[..i];
  }

  lemma {:induction false} GatherFails(messages: seq<SignedMessage>, n: nat)
    requires n <= |messages| && Gather(messages[..n]).None?
    ensures Gather(messages).None?
    decreases |messages|
  {
    if n == |messages| {
      assert messages[..n] == messages;
    } else {
      var front := messages[..|messages| - 1];
      assert front[..n] == messages[..n];
      GatherFails(front, n);
    }
  }

  method AddSignatures(start: SignatureSum, signatures: seq<Signature>) returns (r: Option<SignatureSum>)
    ensures r == SumSignatures(start, signatures)
  {
    var sum := start;
    for i := 0 to |signatures|
      invariant SumSignatures(start, signatures[..i]) == Some(sum)
    {
      assert signatures[..i + 1][..i] == signatures[..i];
      var next := sum.Plus(signatures[i]);
      if next.None? {
        SumSignaturesFails(start, signatures, i + 1);
        return None;
      }
      sum := next.value;
    }
    assert signatures[..|signatures|] == signatures;
    r := Some(sum);
  }

  lemma {:induction false} SumSignaturesFails(start: SignatureSum, signatures: seq<Signature>, n: nat)
    requires n <= |signatures| && SumSignatures(start, signatures[..n]).None?
    ensures SumSignatures(start, signatures).None?
    decreases |signatures|
  {
    if n == |signatures| {
      assert signatures[..n] == signatures;
    } else {
      var front := signatures[..|signatures| - 1];
      assert front[..n] == signatures[..n];
      SumSignaturesFails(start, front, n);
    }
  }

  // ---- merging aggregates over one message ---------------------------------------------------

  /** One entry per distinct message, each the sum of its keys. */
  ghost predicate Merged(keys: Combo<Vote>, roots: seq<Bytes32>, aggs: seq<Point>)
  {
    && |roots| == |aggs|
    && (forall i, j :: 0 <= i < j < |roots| ==> roots[i] != roots[j])
    && (forall j :: 0 <= j < |roots| ==> aggs[j] == KeyAt(keys, roots[j]))
    && (forall p :: p in keys ==> p.1 in roots)
  }

  lemma KeyAtPlus(keys: Combo<Vote>, agg: Point, root: Bytes32, other: Bytes32)
    ensures KeyAt(Plus(keys, Tag(agg, root)), other)
         == if other == root then Plus(KeyAt(keys, other), agg) else KeyAt(keys, other)
  {
    var tagged := Tag(agg, root);
    var sum := Plus(keys, tagged);
    var at := KeyAt(sum, other);
    var expected := if other == root then Plus(KeyAt(keys, other), agg) else KeyAt(keys, other);
    forall v: nat ensures Coef(at, v) == Coef(expected, v) {
      var p: Vote := (v, other);
      assert Coef(sum, p) == Coef(keys, p) + Coef(tagged, p);
    }
    SameCombo(at, expected);
  }

  lemma SupportPlus(keys: Combo<Vote>, agg: Point, root: Bytes32, p: Vote)
    requires p in Plus(keys, Tag(agg, root))
    ensures p in keys || p.1 == root
  {
    assert Coef(Plus(keys, Tag(agg, root)), p) == Coef(keys, p) + Coef(Tag(agg, root), (p.0, p.1));
  }

  /** A message seen before: its key is added to the entry. */
  lemma MergedFold(keys: Combo<Vote>, roots: seq<Bytes32>, aggs: seq<Point>, agg: Point, at: nat)
    requires Merged(keys, roots, aggs) && at < |roots|
    ensures Merged(Plus(keys, Tag(agg, roots[at])), roots, aggs[at := Plus(aggs[at], agg)])
  {
    var sum := Plus(keys, Tag(agg, roots[at]));
    var after := aggs[at := Plus(aggs[at], agg)];
    forall j | 0 <= j < |roots| ensures after[j] == KeyAt(sum, roots[j]) {
      MergedEntry(keys, roots, aggs, agg, at, j);
    }
    forall p | p in sum ensures p.1 in roots {
      SupportPlus(keys, agg, roots[at], p);
    }
  }

  lemma MergedEntry(keys: Combo<Vote>, roots: seq<Bytes32>, aggs: seq<Point>, agg: Point, at: nat, j: nat)
    requires Merged(keys, roots, aggs) && at < |roots| && j < |roots|
    ensures aggs[at := Plus(aggs[at], agg)][j] == KeyAt(Plus(keys, Tag(agg, roots[at])), roots[j])
  {
    KeyAtPlus(keys, agg, roots[at], roots[j]);
    assert j < at ==> roots[j] != roots[at];
    assert at < j ==> roots[at] != roots[j];
  }

  /** A new message: a new entry. */
  lemma MergedNew(keys: Combo<Vote>, roots: seq<Bytes32>, aggs: seq<Point>, agg: Point, root: Bytes32)
    requires Merged(keys, roots, aggs) && root !in roots
    ensures Merged(Plus(keys, Tag(agg, root)), roots + [root], aggs + [agg])
  {
    var sum := Plus(keys, Tag(agg, root));
    forall j | 0 <= j < |roots| + 1 ensures (aggs + [agg])[j] == KeyAt(sum, (roots + [root])[j]) {
      KeyAtPlus(keys, agg, root, (roots + [root])[j]);
      if j == |roots| {
        AbsentKey(keys, roots, aggs, root);
        PlusNothing(agg);
      }
    }
    forall p | p in sum ensures p.1 in roots + [root] {
      SupportPlus(keys, agg, root, p);
    }
  }

  lemma AbsentKey(keys: Combo<Vote>, roots: seq<Bytes32>, aggs: seq<Point>, root: Bytes32)
    requires Merged(keys, roots, aggs) && root !in roots
    ensures KeyAt(keys, root) == IDENTITY
  {
    forall v: nat ensures Coef(KeyAt(keys, root), v) == 0 {
      assert Coef(KeyAt(keys, root), v) == Coef(keys, (v, root));
    }
    SameCombo(KeyAt(keys, root), IDENTITY);
  }

  /** The product of one Miller loop per entry. */
  function Product(roots: seq<Bytes32>, aggs: seq<Point>): Combo<Vote>
    requires |roots| == |aggs|
  {
    if roots == [] then map[]
    else
      var last := |roots| - 1;
      Plus(Product(roots[..last], aggs[..last]), Tag(aggs[last], roots[last]))
  }

  lemma {:induction false} ProductAbsent(roots: seq<Bytes32>, aggs: seq<Point>, v: nat, m: Bytes32)
    requires |roots| == |aggs| && m !in roots
    ensures Coef(Product(roots, aggs), (v, m)) == 0
  {
    if roots != [] {
      var last := |roots| - 1;
      ProductAbsent(roots[..last], aggs[..last], v, m);
      ProductTakes(roots, aggs, (v, m));
    }
  }

  lemma ProductTakes(roots: seq<Bytes32>, aggs: seq<Point>, p: Vote)
    requires |roots| == |aggs| > 0
    ensures
      var last := |roots| - 1;
      Coef(Product(roots, aggs), p)
      == Coef(Product(roots[..last], aggs[..last]), p) + if roots[last] == p.1 then Coef(aggs[last], p.0) else 0
  {
    var last := |roots| - 1;
    assert Coef(Tag(aggs[last], roots[last]), (p.0, p.1)) == if roots[last] == p.1 then Coef(aggs[last], p.0) else 0;
  }

  lemma {:induction false} ProductAt(roots: seq<Bytes32>, aggs: seq<Point>, v: nat, j: nat)
    requires |roots| == |aggs| && j < |roots| && forall i, j :: 0 <= i < j < |roots| ==> roots[i] != roots[j]
    ensures Coef(Product(roots, aggs), (v, roots[j])) == Coef(aggs[j], v)
  {
    var last := |roots| - 1;
    ProductTakes(roots, aggs, (v, roots[j]));
    if j == last {
      ProductAbsent(roots[..last], aggs[..last], v, roots[j]);
    } else {
      ProductAt(roots[..last], aggs[..last], v, j);
    }
  }

  lemma ProductIsKeys(keys: Combo<Vote>, roots: seq<Bytes32>, aggs: seq<Point>)
    requires Merged(keys, roots, aggs)
    ensures Product(roots, aggs) == keys
  {
    forall p: Vote ensures Coef(Product(roots, aggs), p) == Coef(keys, p) {
      assert p == (p.0, p.1);
      if p.1 in roots {
        var j :| 0 <= j < |roots| && roots[j] == p.1;
        ProductAt(roots, aggs, p.0, j);
        assert Coef(KeyAt(keys, p.1), p.0) == Coef(keys, (p.0, p.1));
      } else {
        ProductAbsent(roots, aggs, p.0, p.1);
      }
    }
    SameCombo(Product(roots, aggs), keys);
  }

  /** `position` */
  method Position(roots: seq<Bytes32>, root: Bytes32) returns (at: Option<nat>)
    ensures at.None? ==> root !in roots
    ensures at.Some? ==> at.value < |roots| && roots[at.value] == root
  {
    for i := 0 to |roots|
      invariant root !in roots[..i]
    {
      if roots[i] == root {
        return Some(i);
      }
    }
    at := None;
  }

  lemma ProductStep(roots: seq<Bytes32>, aggs: seq<Point>, j: nat)
    requires j < |roots| == |aggs|
    ensures Product(roots[..j + 1], aggs[..j + 1]) == Plus(Product(roots[..j], aggs[..j]), Tag(aggs[j], roots[j]))
    ensures IDENTITY in aggs[..j + 1] <==> IDENTITY in aggs[..j] || aggs[j] == IDENTITY
  {
    assert roots[..j + 1][..j] == roots[..j] && aggs[..j + 1][..j] == aggs[..j];
    assert aggs[..j + 1] == aggs[..j] + [aggs[j]];
  }

  /** The product over the distinct messages, unless one of them has no key left. */
  method PairAll(roots: seq<Bytes32>, aggs: seq<Point>) returns (product: Option<Combo<Vote>>)
    requires |roots| == |aggs|
    ensures product == if IDENTITY in aggs then None else Some(Product(roots, aggs))
  {
    var soFar: Combo<Vote> := map[];
    for j := 0 to |roots|
      invariant soFar == Product(roots[..j], aggs[..j])
      invariant IDENTITY !in aggs[..j]
    {
      if aggs[j] == IDENTITY {
        return None;
      }
      ProductStep(roots, aggs, j);
      soFar := Plus(soFar, Tag(aggs[j], roots[j]));
    }
    assert roots[..|roots|] == roots && aggs[..|aggs|] == aggs;
    product := Some(soFar);
  }

  ghost predicate SameRoots(roots: seq<Bytes32>, messages: seq<SignedMessage>)
  {
    && (forall root :: root in roots ==> exists m :: m in messages && m.root == root)
    && (forall m :: m in messages ==> m.root in roots)
  }

  lemma SameRootsStep(roots: seq<Bytes32>, messages: seq<SignedMessage>, m: SignedMessage)
    requires SameRoots(roots, messages)
    ensures SameRoots(if m.root in roots then roots else roots + [m.root], messages + [m])
  {
    var after := if m.root in roots then roots else roots + [m.root];
    forall root | root in after ensures exists n :: n in messages + [m] && n.root == root {
      if root in roots {
        var n :| n in messages && n.root == root;
        assert n in messages + [m];
      } else {
        assert m in messages + [m];
      }
    }
  }

  lemma SameIdentities(keys: Combo<Vote>, roots: seq<Bytes32>, aggs: seq<Point>, messages: seq<SignedMessage>)
    requires Merged(keys, roots, aggs) && SameRoots(roots, messages)
    ensures IDENTITY in aggs <==> !AllKeyed(messages, keys)
  {
    if IDENTITY in aggs {
      var j :| 0 <= j < |aggs| && aggs[j] == IDENTITY;
      assert roots[j] in roots;
      var m :| m in messages && m.root == roots[j];
    }
    if !AllKeyed(messages, keys) {
      var m :| m in messages && KeyAt(keys, m.root) == IDENTITY;
      var j :| 0 <= j < |roots| && roots[j] == m.root;
      assert aggs[j] == IDENTITY;
    }
  }

  /** One aggregate entered into the list of distinct messages. */
  method Enter(roots: seq<Bytes32>, aggs: seq<Point>, root: Bytes32, agg: Point, ghost keys: Combo<Vote>)
    returns (newRoots: seq<Bytes32>, newAggs: seq<Point>)
    requires Merged(keys, roots, aggs)
    ensures Merged(Plus(keys, Tag(agg, root)), newRoots, newAggs)
    ensures newRoots == if root in roots then roots else roots + [root]
  {
    var at := Position(roots, root);
    match at {
      case Some(j) =>
        MergedFold(keys, roots, aggs, agg, j);
        newRoots, newAggs := roots, aggs[j := Plus(aggs[j], agg)];
      case None =>
        MergedNew(keys, roots, aggs, agg, root);
        newRoots, newAggs := roots + [root], aggs + [agg];
    }
  }

  /** The first pass: every key into its message's entry, every signature into one sum. */
  method MergeMessages(messages: seq<SignedMessage>)
    returns (ok: bool, roots: seq<Bytes32>, aggs: seq<Point>, sum: SignatureSum, ghost keys: Combo<Vote>)
    ensures Gather(messages) == if ok then Some(Gathered(keys, sum)) else None
    ensures ok ==> Merged(keys, roots, aggs) && SameRoots(roots, messages)
  {
    roots, aggs, sum, keys := [], [], NO_SIGNATURES, map[];
    for i := 0 to |messages|
      invariant Gather(messages[..i]) == Some(Gathered(keys, sum))
      invariant Merged(keys, roots, aggs) && SameRoots(roots, messages[..i])
    {
      var m := messages[i];
      GatherStep(messages, i);
      SameRootsStep(roots, messages[..i], m);
      var agg := AggregatePoints(m.pubkeys);
      var total := AddSignatures(sum, m.signatures);
      if agg.None? || m.signatures == [] || total.None? {
        GatherFails(messages, i + 1);
        return false, roots, aggs, sum, keys;
      }
      roots, aggs := Enter(roots, aggs, m.root, agg.value, keys);
      sum, keys := total.value, Plus(keys, Tag(agg.value, m.root));
    }
    assert messages[..|messages|] == messages;
    ok := true;
  }

  /** `miller_accumulator`: one pairing per distinct message. */
  method ComputeMillerAccumulator(messages: seq<SignedMessage>) returns (r: Option<Fp12>)
    ensures r == MillerAccumulator(messages)
  {
    if messages == [] {
      return None;
    }
    var ok, roots, aggs, sum, keys := MergeMessages(messages);
    if !ok || sum.votes == map[] || sum.cofactor != 0 {
      return None;
    }
    SameIdentities(keys, roots, aggs, messages);
    ProductIsKeys(keys, roots, aggs);
    var product := PairAll(roots, aggs);
    if product.None? {
      return None;
    }
    r := Some(Fp12(product.value, sum.votes));
  }
}
