/** Montgomery's trick, and the level-by-level point sum that rests on it. */
module Batching {
  import opened Wrappers

  /** The base field, by its operations. */
  datatype Field<!F(!new)> = Field(mul: (F, F) -> F, sub: (F, F) -> F, inv: F -> F, zero: F, one: F)

  /** Names an instance of a law, so that laws are used only where they are wanted. */
  predicate At<F>(a: F, b: F, c: F) { true }

  /** The laws the trick rests on. */
  ghost predicate Laws<F(!new)>(f: Field<F>)
  {
    && f.one != f.zero
    && (forall a: F, b: F, c: F {:trigger At(a, b, c)} :: f.mul(f.mul(a, b), c) == f.mul(a, f.mul(b, c)))
    && (forall a: F, b: F, c: F {:trigger At(a, b, c)} :: f.mul(a, b) == f.mul(b, a))
    && (forall a: F, b: F, c: F {:trigger At(a, b, c)} :: f.mul(f.one, a) == a)
    && (forall a: F, b: F, c: F {:trigger At(a, b, c)} :: f.mul(a, b) == f.zero <==> a == f.zero || b == f.zero)
    && (forall a: F, b: F, c: F {:trigger At(a, b, c)} :: a != f.zero ==> f.mul(f.inv(a), a) == f.one)
    && (forall a: F, b: F, c: F {:trigger At(a, b, c)} :: f.sub(a, b) == f.zero <==> a == b)
  }

  ghost predicate AllNonZero<F(!new)>(f: Field<F>, values: seq<F>) {
    forall i :: 0 <= i < |values| ==> values[i] != f.zero
  }

  ghost function Product<F(!new)>(f: Field<F>, values: seq<F>, n: nat): F
    requires 0 < n <= |values|
  {
    if n == 1 then values[0] else f.mul(Product(f, values, n - 1), values[n - 1])
  }

  lemma {:induction false} ProductNonZero<F(!new)>(f: Field<F>, values: seq<F>, n: nat)
    requires Laws(f) && 0 < n <= |values| && AllNonZero(f, values)
    ensures Product(f, values, n) != f.zero
  {
    if n > 1 {
      ProductNonZero(f, values, n - 1);
      assert At(Product(f, values, n - 1), values[n - 1], f.zero);
    }
  }

  /** One step down: peeling the last factor off an inverse of a product. */
  lemma Peel<F(!new)>(f: Field<F>, inverse: F, before: F, value: F)
    requires Laws(f) && f.mul(inverse, f.mul(before, value)) == f.one
    ensures f.mul(f.mul(inverse, before), value) == f.one
    ensures f.mul(f.mul(inverse, value), before) == f.one
  {
    assert At(inverse, before, value);
    assert At(before, value, inverse);
    assert At(inverse, value, before);
  }

  /** A non-zero element has one inverse. */
  lemma InverseIsUnique<F(!new)>(f: Field<F>, v: F, a: F)
    requires Laws(f) && a != f.zero && f.mul(v, a) == f.one
    ensures v == f.inv(a)
  {
    assert At(a, a, a);
    assert At(f.inv(a), a, v);
    assert At(v, a, a) && At(a, v, a);
    assert At(f.one, f.inv(a), a) && At(f.inv(a), f.one, a);
  }

  lemma {:induction false} ProductWithZero<F(!new)>(f: Field<F>, values: seq<F>, n: nat, j: nat)
    requires Laws(f) && j < n <= |values| && values[j] == f.zero
    ensures Product(f, values, n) == f.zero
  {
    if n > 1 {
      if j < n - 1 { ProductWithZero(f, values, n - 1, j); }
      assert At(Product(f, values, n - 1), values[n - 1], f.zero);
    }
  }

  /** Each non-zero element has its inverse. */
  ghost predicate Inverted<F(!new)>(f: Field<F>, values: seq<F>, out: seq<F>)
    requires |out| == |values|
  {
    forall i :: 0 <= i < |values| && values[i] != f.zero ==> out[i] == f.inv(values[i])
  }

  /** Beside a zero every element comes out as zero. */
  ghost predicate Poisoned<F(!new)>(f: Field<F>, values: seq<F>, out: seq<F>)
    requires |out| == |values|
  {
    forall i, j :: 0 <= i < |values| && 0 <= j < |values| && i != j && values[j] == f.zero ==> out[i] == f.zero
  }

  ghost predicate AllZero<F(!new)>(f: Field<F>, values: seq<F>) {
    forall i :: 0 <= i < |values| ==> values[i] == f.zero
  }

  lemma InvertedWhenUniform<F(!new)>(f: Field<F>, values: seq<F>, out: seq<F>)
    requires Laws(f) && |out| == |values| && Poisoned(f, values, out)
    requires AllNonZero(f, values) ==> Inverted(f, values, out)
    ensures Inverted(f, values, out) <==> AllNonZero(f, values) || AllZero(f, values)
  {
    if Inverted(f, values, out) && !AllNonZero(f, values) {
      var j :| 0 <= j < |values| && values[j] == f.zero;
      forall i | 0 <= i < |values| ensures values[i] == f.zero {
        assert At(values[i], f.zero, f.zero) && At(f.inv(values[i]), values[i], f.zero);
      }
    }
  }

  /** `batch_inverse`: each element's inverse, from one inversion, that of the product. One zero
      spoils every other element, so the non-zero ones are inverted exactly when none or all of
      them are zero. */
  method BatchInverse<F(!new)>(f: Field<F>, values: seq<F>) returns (out: seq<F>)
    requires Laws(f) && values != []
    ensures |out| == |values|
    ensures AllNonZero(f, values) ==> forall i :: 0 <= i < |values| ==> out[i] == f.inv(values[i])
    ensures |values| == 1 ==> out[0] == f.inv(values[0])
    ensures Poisoned(f, values, out)
    ensures Inverted(f, values, out) <==> AllNonZero(f, values) || AllZero(f, values)
  {
    var running := values[0];
    var prefix := [running];
    for i := 1 to |values|
      invariant |prefix| == i && running == Product(f, values, i)
      invariant forall j :: 0 <= j < i ==> prefix[j] == Product(f, values, j + 1)
    {
      running := f.mul(running, values[i]);
      prefix := prefix + [running];
    }
    var inverse := f.inv(running);
    if AllNonZero(f, values) {
      ProductNonZero(f, values, |values|);
      assert At(running, running, running);
    }
    out := values;
    for i := |values| downto 1
      invariant |out| == |values|
      invariant AllNonZero(f, values) ==> f.mul(inverse, Product(f, values, i)) == f.one
      invariant AllNonZero(f, values) ==> forall j :: i <= j < |values| ==> out[j] == f.inv(values[j])
      invariant |values| == 1 ==> inverse == f.inv(values[0])
      invariant (exists j :: i <= j < |values| && values[j] == f.zero) ==> inverse == f.zero
      invariant forall k, j :: i <= k < |values| && 0 <= j < |values| && k != j && values[j] == f.zero ==> out[k] == f.zero
    {
      if AllNonZero(f, values) {
        Peel(f, inverse, prefix[i - 1], values[i]);
        InverseIsUnique(f, f.mul(inverse, prefix[i - 1]), values[i]);
      }
      forall j | 0 <= j < i && values[j] == f.zero ensures prefix[i - 1] == f.zero {
        ProductWithZero(f, values, i, j);
      }
      assert At(inverse, prefix[i - 1], f.zero) && At(inverse, values[i], f.zero);
      out := out[i := f.mul(inverse, prefix[i - 1])];
      inverse := f.mul(inverse, values[i]);
    }
    out := out[0 := inverse];
    if AllNonZero(f, values) { InverseIsUnique(f, inverse, values[0]); }
    InvertedWhenUniform(f, values, out);
  }

  datatype Point<F> = Point(x: F, y: F)

  /** The line through two points with different x meets the curve again; its mirror is their sum. */
  function ChordWith<F(!new)>(f: Field<F>, a: Point<F>, b: Point<F>, inverse: F): Point<F> {
    var lambda := f.mul(f.sub(b.y, a.y), inverse);
    var x3 := f.sub(f.sub(f.mul(lambda, lambda), a.x), b.x);
    Point(x3, f.sub(f.mul(lambda, f.sub(a.x, x3)), a.y))
  }

  ghost function Chord<F(!new)>(f: Field<F>, a: Point<F>, b: Point<F>): Point<F> {
    ChordWith(f, a, b, f.inv(f.sub(b.x, a.x)))
  }

  /** A curve: its affine points, the group they sit in, and its addition. */
  datatype Curve<!F(!new), !G> = Curve(plus: (G, G) -> G, affine: Point<F> -> G, on: Point<F> -> bool)

  /** Off equal x, the chord of two points of the curve is a third, and is their sum. Of points
      off the curve nothing is said: there the chord does not associate. */
  ghost predicate IsCurve<F(!new), G(!new)>(f: Field<F>, c: Curve<F, G>) {
    && (forall a: G, b: G, d: G {:trigger At(a, b, d)} :: c.plus(c.plus(a, b), d) == c.plus(a, c.plus(b, d)))
    && (forall a: Point<F>, b: Point<F> {:trigger Chord(f, a, b)} ::
          c.on(a) && c.on(b) && a.x != b.x ==>
            c.on(Chord(f, a, b)) && c.plus(c.affine(a), c.affine(b)) == c.affine(Chord(f, a, b)))
  }

  ghost predicate AllOn<F(!new), G(!new)>(c: Curve<F, G>, points: seq<Point<F>>) {
    forall i :: 0 <= i < |points| ==> c.on(points[i])
  }

  /** The first n points added up from left to right. */
  ghost function FoldedSum<F(!new), G>(c: Curve<F, G>, points: seq<Point<F>>, n: nat): G
    requires 0 < n <= |points|
  {
    if n == 1 then c.affine(points[0]) else c.plus(FoldedSum(c, points, n - 1), c.affine(points[n - 1]))
  }

  ghost predicate PairsApart<F(!new)>(points: seq<Point<F>>) {
    forall k :: 0 <= 2 * k < |points| - 1 ==> points[2 * k].x != points[2 * k + 1].x
  }

  /** One level of the reduction: neighbours added, an odd last point carried over. */
  ghost function Halved<F(!new)>(f: Field<F>, points: seq<Point<F>>): (r: seq<Point<F>>)
    ensures |r| == (|points| + 1) / 2
  {
    seq((|points| + 1) / 2, k requires 0 <= k < (|points| + 1) / 2 =>
      if 2 * k + 1 < |points| then Chord(f, points[2 * k], points[2 * k + 1]) else points[2 * k])
  }

  /** No pair the reduction ever adds shares an x-coordinate. */
  ghost predicate Apart<F(!new)>(f: Field<F>, points: seq<Point<F>>)
    decreases |points|
  {
    |points| > 1 ==> PairsApart(points) && Apart(f, Halved(f, points))
  }

  /** A level stays on the curve. */
  lemma HalvedStaysOn<F(!new), G(!new)>(f: Field<F>, c: Curve<F, G>, points: seq<Point<F>>)
    requires IsCurve(f, c) && AllOn(c, points) && PairsApart(points)
    ensures AllOn(c, Halved(f, points))
  {
    forall k | 0 <= k < (|points| + 1) / 2 ensures c.on(Halved(f, points)[k]) {
      if 2 * k + 1 < |points| {
        assert Halved(f, points)[k] == Chord(f, points[2 * k], points[2 * k + 1]);
      } else {
        assert Halved(f, points)[k] == points[2 * k];
      }
    }
  }

  lemma {:induction false} HalvedPrefix<F(!new), G(!new)>(f: Field<F>, c: Curve<F, G>, points: seq<Point<F>>, k: nat)
    requires IsCurve(f, c) && AllOn(c, points) && PairsApart(points) && 0 < k && 2 * k <= |points|
    ensures FoldedSum(c, Halved(f, points), k) == FoldedSum(c, points, 2 * k)
  {
    hide ChordWith, Apart;
    var a, b := points[2 * (k - 1)], points[2 * (k - 1) + 1];
    assert Halved(f, points)[k - 1] == Chord(f, a, b);
    if k == 1 {
      assert FoldedSum(c, points, 1) == c.affine(a);
    } else {
      HalvedPrefix(f, c, points, k - 1);
      assert At(FoldedSum(c, points, 2 * k - 2), c.affine(a), c.affine(b));
      assert FoldedSum(c, points, 2 * k - 1) == c.plus(FoldedSum(c, points, 2 * k - 2), c.affine(a));
    }
  }

  /** A level changes no sum, whether the length is even or odd. */
  lemma {:induction false} HalvedKeepsSum<F(!new), G(!new)>(f: Field<F>, c: Curve<F, G>, points: seq<Point<F>>)
    requires IsCurve(f, c) && AllOn(c, points) && PairsApart(points) && |points| > 1
    ensures FoldedSum(c, Halved(f, points), (|points| + 1) / 2) == FoldedSum(c, points, |points|)
  {
    var pairs := |points| / 2;
    HalvedPrefix(f, c, points, pairs);
    if |points| % 2 == 1 {
      assert Halved(f, points)[pairs] == points[2 * pairs];
    }
  }

  /** The differences of x a level divides by. */
  method Denominators<F(!new)>(f: Field<F>, points: seq<Point<F>>) returns (out: seq<F>)
    requires Laws(f)
    ensures |out| == |points| / 2
    ensures forall k :: 0 <= k < |out| ==> out[k] == f.sub(points[2 * k + 1].x, points[2 * k].x)
    ensures PairsApart(points) ==> AllNonZero(f, out)
  {
    out := [];
    for pair := 0 to |points| / 2
      invariant |out| == pair
      invariant forall k :: 0 <= k < pair ==> out[k] == f.sub(points[2 * k + 1].x, points[2 * k].x)
      invariant PairsApart(points) ==> AllNonZero(f, out)
    {
      var a, b := points[2 * pair], points[2 * pair + 1];
      assert At(b.x, a.x, a.x);
      assert PairsApart(points) ==> a.x != b.x;
      out := out + [f.sub(b.x, a.x)];
    }
  }

  lemma HalvedPair<F(!new)>(f: Field<F>, points: seq<Point<F>>, k: nat)
    requires 2 * k + 1 < |points|
    ensures Halved(f, points)[k]
         == ChordWith(f, points[2 * k], points[2 * k + 1], f.inv(f.sub(points[2 * k + 1].x, points[2 * k].x)))
  {
  }

  lemma HalvedLast<F(!new)>(f: Field<F>, points: seq<Point<F>>)
    ensures |points| % 2 == 1 ==> Halved(f, points)[|points| / 2] == points[|points| - 1]
  {
  }

  /** One level in place: sums are written over points that were already read. */
  method ReduceLevel<F(!new)>(f: Field<F>, before: seq<Point<F>>) returns (points: seq<Point<F>>)
    requires Laws(f) && |before| > 1
    ensures |points| == (|before| + 1) / 2
    ensures PairsApart(before) || |before| == 2 ==> points == Halved(f, before)
  {
    hide ChordWith, Halved, Laws, AllNonZero, PairsApart;
    points := before;
    var pairs := |points| / 2;
    var denominators := Denominators(f, points);
    var inverses := BatchInverse(f, denominators);
    for pair := 0 to pairs
      invariant |points| == |before|
      invariant forall k :: pair <= k < |points| ==> points[k] == before[k]
      invariant PairsApart(before) || |before| == 2 ==> forall k :: 0 <= k < pair ==> points[k] == Halved(f, before)[k]
    {
      var a, b := points[2 * pair], points[2 * pair + 1];
      HalvedPair(f, before, pair);
      points := points[pair := ChordWith(f, a, b, inverses[pair])];
    }
    HalvedLast(f, before);
    if |points| % 2 == 1 {
      points := points[pairs := points[|points| - 1]];
      points := points[..pairs + 1];
    } else {
      points := points[..pairs];
    }
  }

  /** `reduce_batched`: nothing for an empty bucket, else the left-to-right sum, a point of the
      curve. */
  method ReduceBatched<F(!new), G(!new)>(f: Field<F>, ghost c: Curve<F, G>, bucket: seq<Point<F>>)
    returns (sum: Option<Point<F>>)
    requires Laws(f) && IsCurve(f, c) && AllOn(c, bucket)
    ensures sum.None? <==> bucket == []
    ensures bucket != [] && Apart(f, bucket) ==>
      c.on(sum.value) && c.affine(sum.value) == FoldedSum(c, bucket, |bucket|)
    ensures |bucket| == 2 ==> sum == Some(Chord(f, bucket[0], bucket[1]))
  {
    if |bucket| == 0 { return None; }
    var points := bucket;
    while |points| > 1
      invariant |points| > 0
      invariant |bucket| == 2 ==> points == bucket || points == [Chord(f, bucket[0], bucket[1])]
      invariant Apart(f, bucket) ==> Apart(f, points) && AllOn(c, points)
      invariant Apart(f, bucket) ==> FoldedSum(c, points, |points|) == FoldedSum(c, bucket, |bucket|)
      decreases |points|
    {
      ghost var before := points;
      points := ReduceLevel(f, points);
      if Apart(f, bucket) {
        HalvedKeepsSum(f, c, before);
        HalvedStaysOn(f, c, before);
      }
    }
    return Some(points[0]);
  }
}
