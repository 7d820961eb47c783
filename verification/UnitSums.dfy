/** Keys that sum the keys of a set of validators, each once. */
module UnitSums {
  import opened Wrappers
  import opened FormalSums
  import opened Bls

  /** A key in which each validator of a set counts once. */
  function KeyOf(validators: set<nat>): (r: Point)
    ensures forall v: nat :: Coef(r, v) == if v in validators then 1 else 0
  {
    map v | v in validators :: if v in validators then 1 else 0
  }

  /** The running sum of the keys of a set. */
  function SumFor(validators: set<nat>): PointSum
  {
    if validators == {} then PointSum(None) else PointSum(Some(KeyOf(validators)))
  }

  lemma KeyLess(validators: set<nat>, v: nat)
    requires v in validators
    ensures Plus(KeyOf(validators), Negated(Unit(v))) == KeyOf(validators - {v})
  {
    SameCombo(Plus(KeyOf(validators), Negated(Unit(v))), KeyOf(validators - {v}));
  }

  lemma KeyMore(validators: set<nat>, v: nat)
    requires v !in validators
    ensures Plus(KeyOf(validators), Unit(v)) == KeyOf(validators + {v})
  {
    SameCombo(Plus(KeyOf(validators), Unit(v)), KeyOf(validators + {v}));
  }

  /** A member's key can be taken out of the sum of a set that holds someone else. */
  lemma SubMember(validators: set<nat>, v: nat, other: nat)
    requires v in validators && other in validators && v != other
    ensures PointSum(Some(KeyOf(validators))).Sub(Unit(v)) == Some(PointSum(Some(KeyOf(validators - {v}))))
  {
    var key, less: Point := KeyOf(validators), Negated(Unit(v));
    KeyLess(validators, v);
    assert Coef(key, v) == 1 && Coef(less, v) == -1;
    assert Coef(key, other) == 1 && Coef(Negated(less), other) == 0;
  }

  /** A new validator's key can be added to the sum of a set. */
  lemma AddMember(validators: set<nat>, v: nat)
    requires v !in validators
    ensures SumFor(validators).Add(Unit(v)) == Some(SumFor(validators + {v}))
  {
    if validators == {} {
      assert validators + {v} == {v};
      SameCombo(Unit(v), KeyOf({v}));
    } else {
      var key, more: Point := KeyOf(validators), Unit(v);
      KeyMore(validators, v);
      assert Coef(key, v) == 0 && Coef(more, v) == 1 && Coef(Negated(more), v) == -1;
      assert v in validators + {v};
    }
  }
}
