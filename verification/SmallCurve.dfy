/** A curve that meets what the batched reduction rests on: y^2 = x^3 + 4, the equation of the
    curve the keys are on, over the field of five elements. */
module SmallCurve {
  import opened Batching

  datatype Residue = Zero | One | Two | Three | Four

  function Next(a: Residue): Residue {
    match a case Zero => One case One => Two case Two => Three case Three => Four case Four => Zero
  }

  function Before(a: Residue): Residue {
    match a case Zero => Four case One => Zero case Two => One case Three => Two case Four => Three
  }

  function Minus(a: Residue): Residue {
    match a case Zero => Zero case One => Four case Two => Three case Three => Two case Four => One
  }

  function Double(a: Residue): Residue {
    match a case Zero => Zero case One => Two case Two => Four case Three => One case Four => Three
  }

  function Mul(a: Residue, b: Residue): Residue {
    match b
    case Zero => Zero
    case One => a
    case Two => Double(a)
    case Three => Minus(Double(a))
    case Four => Minus(a)
  }

  function Sub(a: Residue, b: Residue): Residue {
    match b
    case Zero => a
    case One => Before(a)
    case Two => Before(Before(a))
    case Three => Next(Next(a))
    case Four => Next(a)
  }

  function Inv(a: Residue): Residue {
    match a case Zero => Zero case One => One case Two => Three case Three => Two case Four => Four
  }

  function Five(): Field<Residue> {
    Field(Mul, Sub, Inv, Zero, One)
  }

  function ValueOf(a: Residue): int {
    match a case Zero => 0 case One => 1 case Two => 2 case Three => 3 case Four => 4
  }

  lemma ModuloFive(a: Residue, b: Residue)
    ensures ValueOf(Mul(a, b)) == (ValueOf(a) * ValueOf(b)) % 5 && ValueOf(Sub(a, b)) == (ValueOf(a) - ValueOf(b)) % 5
  {
    match b case Zero => case One => case Two => case Three => case Four =>
  }

  lemma FiveAssociates(a: Residue, b: Residue, c: Residue)
    ensures Mul(Mul(a, b), c) == Mul(a, Mul(b, c))
  {
    match c case Zero => case One => case Two => case Three => case Four =>
  }

  lemma FiveLaws(a: Residue, b: Residue)
    ensures Mul(a, b) == Mul(b, a) && Mul(One, a) == a
    ensures Mul(a, b) == Zero <==> a == Zero || b == Zero
    ensures a != Zero ==> Mul(Inv(a), a) == One
    ensures Sub(a, b) == Zero <==> a == b
  {
  }

  /** The operations are those of the integers modulo five. */
  lemma FiveIsField()
    ensures Laws(Five())
    ensures forall a, b :: ValueOf(Five().mul(a, b)) == (ValueOf(a) * ValueOf(b)) % 5
    ensures forall a, b :: ValueOf(Five().sub(a, b)) == (ValueOf(a) - ValueOf(b)) % 5
  {
    hide Mul, Sub, Inv, ValueOf;
    forall a: Residue, b: Residue, c: Residue ensures Mul(Mul(a, b), c) == Mul(a, Mul(b, c)) {
      FiveAssociates(a, b, c);
    }
    forall a: Residue, b: Residue
      ensures Mul(a, b) == Mul(b, a) && (Mul(a, b) == Zero <==> a == Zero || b == Zero)
    {
      FiveLaws(a, b);
    }
    forall a: Residue, b: Residue ensures Sub(a, b) == Zero <==> a == b {
      FiveLaws(a, b);
    }
    forall a: Residue, b: Residue
      ensures ValueOf(Mul(a, b)) == (ValueOf(a) * ValueOf(b)) % 5 && ValueOf(Sub(a, b)) == (ValueOf(a) - ValueOf(b)) % 5
    {
      ModuloFive(a, b);
    }
    forall a: Residue ensures Mul(One, a) == a {
      FiveLaws(a, a);
    }
    forall a: Residue ensures a != Zero ==> Mul(Inv(a), a) == One {
      FiveLaws(a, a);
    }
  }

  /** y^2 = x^3 - 1, where -1 is 4. */
  predicate On(p: Point<Residue>) {
    Mul(p.y, p.y) == Sub(Mul(Mul(p.x, p.x), p.x), One)
  }

  function Plus(a: int, b: int): int {
    (a + b) % 6
  }

  /** The points as multiples of (3, 1); the point at infinity is the sixth. */
  function Affine(p: Point<Residue>): int {
    match p.x
    case Three => if p.y.One? then 1 else 5
    case Zero => if p.y.Two? then 2 else 4
    case _ => 3
  }

  function Six(): Curve<Residue, int> {
    Curve(Plus, Affine, On)
  }

  /** The five points. */
  lemma PointsOn(p: Point<Residue>)
    ensures On(p) <==> p in {Point(Three, One), Point(Zero, Two), Point(One, Zero), Point(Zero, Three), Point(Three, Four)}
  {
  }

  predicate SumIsChord(a: Point<Residue>, b: Point<Residue>, inverse: Residue) {
    var sum := ChordWith(Five(), a, b, inverse);
    On(sum) && Plus(Affine(a), Affine(b)) == Affine(sum)
  }

  lemma ChordOn(a: Point<Residue>, b: Point<Residue>)
    requires On(a) && On(b) && a.x != b.x
    ensures SumIsChord(a, b, Inv(Sub(b.x, a.x)))
  {
    PointsOn(a);
    PointsOn(b);
    match a.x case Zero => case One => case _ =>
  }

  lemma PlusAssociates(a: int, b: int, d: int)
    ensures Plus(Plus(a, b), d) == Plus(a, Plus(b, d))
  {
    assert (a + b) % 6 == a + b - 6 * ((a + b) / 6);
    assert (b + d) % 6 == b + d - 6 * ((b + d) / 6);
  }

  lemma ToldApart(p: Point<Residue>, q: Point<Residue>)
    requires On(p) && On(q) && Affine(p) == Affine(q)
    ensures p == q
  {
    PointsOn(p);
    PointsOn(q);
  }

  /** The reduction's hypotheses hold of this curve, and its group tells its points apart. */
  lemma SixIsCurve()
    ensures Laws(Five()) && IsCurve(Five(), Six())
    ensures forall p, q :: Six().on(p) && Six().on(q) && Six().affine(p) == Six().affine(q) ==> p == q
  {
    hide On, Affine, Plus, Mul, Sub, Inv, ChordWith, Laws;
    FiveIsField();
    forall a: int, b: int, d: int | At(a, b, d) ensures Plus(Plus(a, b), d) == Plus(a, Plus(b, d)) {
      PlusAssociates(a, b, d);
    }
    forall a: Point<Residue>, b: Point<Residue> | On(a) && On(b) && a.x != b.x
      ensures SumIsChord(a, b, Inv(Sub(b.x, a.x)))
    {
      ChordOn(a, b);
    }
    forall p, q | On(p) && On(q) && Affine(p) == Affine(q) ensures p == q {
      ToldApart(p, q);
    }
  }

  /** Four points, one of them twice, that reduce in two levels without sharing an x. */
  lemma FourReduce()
    ensures
      var bucket := [Point(Zero, Two), Point(One, Zero), Point(Three, One), Point(One, Zero)];
      AllOn(Six(), bucket) && Apart(Five(), bucket) && FoldedSum(Six(), bucket, 4) == Affine(Point(One, Zero))
  {
    var bucket := [Point(Zero, Two), Point(One, Zero), Point(Three, One), Point(One, Zero)];
    var once := [Point(Three, Four), Point(Zero, Three)];
    assert Halved(Five(), bucket) == once;
    assert |Halved(Five(), once)| == 1;
    assert FoldedSum(Six(), bucket, 1) == 2;
    assert FoldedSum(Six(), bucket, 2) == 5;
    assert FoldedSum(Six(), bucket, 3) == 0;
  }

  /** Points that share an x are not added: the chord of (3, 1) with itself, which is what a bucket
      of it twice reduces to whatever the inverse of zero is, is off the curve. */
  lemma TwiceIsOff(inverse: Residue)
    ensures
      var p := Point(Three, One);
      && On(p) && ChordWith(Five(), p, p, inverse) == Point(Four, Four) && !On(Point(Four, Four))
      && FoldedSum(Six(), [p, p], 2) == Affine(Point(Zero, Two))
  {
    assert FoldedSum(Six(), [Point(Three, One), Point(Three, One)], 1) == 1;
    assert Mul(Zero, inverse) == Zero;
  }
}
