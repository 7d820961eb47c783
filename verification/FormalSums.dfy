/** Formal integer combinations, and sums over finite sets. A curve point is a combination of
    validators; a pairing product is a combination of (validator, message) pairs. */
module FormalSums {
  /** A combination: no term has coefficient zero, so equal combinations are equal values. */
  type Combo<!X(==,!new)> = c: map<X, int> | forall x :: x in c ==> c[x] != 0 witness map[]

  function Coef<X(==,!new)>(c: Combo<X>, x: X): int
  {
    if x in c then c[x] else 0
  }

  function Plus<X(==,!new)>(a: Combo<X>, b: Combo<X>): (r: Combo<X>)
    ensures forall x :: Coef(r, x) == Coef(a, x) + Coef(b, x)
  {
    map x | x in a.Keys + b.Keys && Coef(a, x) + Coef(b, x) != 0 :: Coef(a, x) + Coef(b, x)
  }

  function Negated<X(==,!new)>(a: Combo<X>): (r: Combo<X>)
    ensures forall x :: Coef(r, x) == -Coef(a, x)
  {
    map x | x in a :: -Coef(a, x)
  }

  function Minus<X(==,!new)>(a: Combo<X>, b: Combo<X>): (r: Combo<X>)
    ensures forall x :: Coef(r, x) == Coef(a, x) - Coef(b, x)
  {
    Plus(a, Negated(b))
  }

  function Unit<X(==,!new)>(x: X): (r: Combo<X>)
    ensures forall y :: Coef(r, y) == if y == x then 1 else 0
  {
    map[x := 1]
  }

  lemma SameCombo<X(!new)>(a: Combo<X>, b: Combo<X>)
    requires forall x :: Coef(a, x) == Coef(b, x)
    ensures a == b
  {
    forall x ensures x in a <==> x in b {
      assert Coef(a, x) == Coef(b, x);
    }
    assert a.Keys == b.Keys;
    forall x | x in a ensures a[x] == b[x] {
      assert Coef(a, x) == Coef(b, x);
    }
  }

  lemma PlusAssociates<X(!new)>(a: Combo<X>, b: Combo<X>, c: Combo<X>)
    ensures Plus(Plus(a, b), c) == Plus(a, Plus(b, c))
  {
    SameCombo(Plus(Plus(a, b), c), Plus(a, Plus(b, c)));
  }

  lemma PlusNothing<X(!new)>(a: Combo<X>)
    ensures Plus(a, map[]) == a && Plus(map[], a) == a
  {
    SameCombo(Plus(a, map[]), a);
    SameCombo(Plus(map[], a), a);
  }

  // ---- sums over finite sets -----------------------------------------------------------

  ghost function SumOver<X(!new)>(s: set<X>, h: X -> int): int
  {
    if s == {} then 0
    else
      var x :| x in s;
      h(x) + SumOver(s - {x}, h)
  }

  /** Any element may be taken out first. */
  lemma {:induction false} SumTakes<X(!new)>(s: set<X>, h: X -> int, x: X)
    requires x in s
    ensures SumOver(s, h) == h(x) + SumOver(s - {x}, h)
  {
    var y :| y in s && SumOver(s, h) == h(y) + SumOver(s - {y}, h);
    if x != y {
      SumTakes(s - {y}, h, x);
      SumTakes(s - {x}, h, y);
      assert s - {y} - {x} == s - {x} - {y};
    }
  }

  lemma {:induction false} SumSame<X(!new)>(s: set<X>, h: X -> int, k: X -> int)
    requires forall x :: x in s ==> h(x) == k(x)
    ensures SumOver(s, h) == SumOver(s, k)
  {
    if s != {} {
      var x :| x in s;
      SumTakes(s, h, x);
      SumTakes(s, k, x);
      SumSame(s - {x}, h, k);
    }
  }

  lemma {:induction false} SumAdds<X(!new)>(s: set<X>, h: X -> int, k: X -> int, sum: X -> int)
    requires forall x :: x in s ==> sum(x) == h(x) + k(x)
    ensures SumOver(s, sum) == SumOver(s, h) + SumOver(s, k)
  {
    if s != {} {
      var x :| x in s;
      SumTakes(s, h, x);
      SumTakes(s, k, x);
      SumTakes(s, sum, x);
      SumAdds(s - {x}, h, k, sum);
    }
  }

  lemma {:induction false} SumBounded<X(!new)>(s: set<X>, h: X -> int, k: X -> int)
    requires forall x :: x in s ==> h(x) <= k(x)
    ensures SumOver(s, h) <= SumOver(s, k)
  {
    if s != {} {
      var x :| x in s;
      SumTakes(s, h, x);
      SumTakes(s, k, x);
      SumBounded(s - {x}, h, k);
    }
  }

  /** Terms outside `s` that are zero may be added to the set. */
  lemma {:induction false} SumExtends<X(!new)>(s: set<X>, t: set<X>, h: X -> int)
    requires s <= t && forall x :: x in t - s ==> h(x) == 0
    ensures SumOver(s, h) == SumOver(t, h)
    decreases t - s
  {
    if t - s == {} {
      assert forall x :: x in t ==> x in s || x in t - s;
      assert s == t;
    } else {
      var x :| x in t - s;
      SumTakes(t, h, x);
      SumExtends(s, t - {x}, h);
    }
  }

  lemma {:induction false} SumDisjoint<X(!new)>(s: set<X>, t: set<X>, h: X -> int)
    requires s !! t
    ensures SumOver(s + t, h) == SumOver(s, h) + SumOver(t, h)
  {
    if s == {} {
      assert s + t == t;
    } else {
      var x :| x in s;
      SumTakes(s, h, x);
      SumTakes(s + t, h, x);
      assert s + t - {x} == (s - {x}) + t;
      SumDisjoint(s - {x}, t, h);
    }
  }

  lemma {:induction false} SumNonNegative<X(!new)>(s: set<X>, h: X -> int)
    requires forall x :: x in s ==> h(x) >= 0
    ensures SumOver(s, h) >= 0
  {
    SumZero(s);
    SumBounded(s, Nought(), h);
  }

  ghost function Nought<X(!new)>(): X -> int
  {
    (x: X) => 0
  }

  lemma {:induction false} SumZero<X(!new)>(s: set<X>)
    ensures SumOver(s, Nought()) == 0
  {
    if s != {} {
      var x :| x in s;
      SumTakes(s, Nought(), x);
      SumZero(s - {x});
    }
  }

  /** A function that is zero but at one element sums to its value there. */
  lemma SumSpike<X(!new)>(s: set<X>, h: X -> int, x: X)
    requires x in s && forall y :: y in s && y != x ==> h(y) == 0
    ensures SumOver(s, h) == h(x)
  {
    SumTakes(s, h, x);
    SumExtends({}, s - {x}, h);
  }

  /** A part of non-negative terms sums to no more than the whole. */
  lemma SumPart<X(!new)>(s: set<X>, t: set<X>, h: X -> int)
    requires s <= t && forall x :: x in t ==> h(x) >= 0
    ensures 0 <= SumOver(s, h) <= SumOver(t, h)
  {
    SumDisjoint(s, t - s, h);
    assert s + (t - s) == t;
    SumNonNegative(s, h);
    SumNonNegative(t - s, h);
  }

  // ---- linear functionals ------------------------------------------------------------------

  ghost function Term<X(!new)>(c: Combo<X>, g: X -> int): X -> int
  {
    (x: X) => Coef(c, x) * g(x)
  }

  /** The sum of `c[x] * g(x)`. */
  ghost function Weigh<X(!new)>(c: Combo<X>, g: X -> int): int
  {
    SumOver(c.Keys, Term(c, g))
  }

  lemma WeighWithin<X(!new)>(c: Combo<X>, g: X -> int, s: set<X>)
    requires c.Keys <= s
    ensures Weigh(c, g) == SumOver(s, Term(c, g))
  {
    SumExtends(c.Keys, s, Term(c, g));
  }

  lemma WeighPlus<X(!new)>(a: Combo<X>, b: Combo<X>, g: X -> int)
    ensures Weigh(Plus(a, b), g) == Weigh(a, g) + Weigh(b, g)
  {
    hide SumOver;
    var s := a.Keys + b.Keys;
    WeighWithin(a, g, s);
    WeighWithin(b, g, s);
    WeighWithin(Plus(a, b), g, s);
    SumAdds(s, Term(a, g), Term(b, g), Term(Plus(a, b), g));
  }

  lemma WeighMinus<X(!new)>(a: Combo<X>, b: Combo<X>, g: X -> int)
    ensures Weigh(Minus(a, b), g) == Weigh(a, g) - Weigh(b, g)
  {
    WeighPlus(Minus(a, b), b, g);
    SameCombo(Plus(Minus(a, b), b), a);
  }

  lemma WeighNothing<X(!new)>(g: X -> int)
    ensures Weigh(map[], g) == 0
  {
  }

  lemma WeighUnit<X(!new)>(x: X, g: X -> int)
    ensures Weigh(Unit(x), g) == g(x)
  {
    var c := Unit(x);
    assert c.Keys == {x};
    SumTakes(c.Keys, Term(c, g), x);
    assert c.Keys - {x} == {};
  }
}
