/** The few facts about Euclidean division that the models lean on. */
module DivMod {

  /** Quotient and remainder are unique. */
  lemma DivModUnique(t: int, g: int, q: int, r: int)
    requires t == g * q + r && 0 <= r < g
    ensures t / g == q && t % g == r
  {
    var d := q - t / g;
    assert g * d == t % g - r;
    SmallMultiple(g, d);
  }

  lemma SmallMultiple(g: int, d: int)
    requires g > 0 && -g < g * d < g
    ensures d == 0
  {
    if d > 0 {
      MulMonotone(g, 1, d);
    } else if d < 0 {
      MulMonotone(g, d, -1);
    }
  }

  lemma MulMonotone(g: int, a: int, b: int)
    requires g >= 0 && a <= b
    ensures g * a <= g * b
  {
    assert g * b - g * a == g * (b - a);
  }

  /** `a / g <= b` says `a` is below the next multiple. */
  lemma DivAtMost(a: int, g: int, b: int)
    requires g > 0
    ensures a / g <= b <==> a < g * (b + 1)
  {
    if a / g <= b {
      MulMonotone(g, a / g + 1, b + 1);
    } else {
      MulMonotone(g, b + 1, a / g);
    }
  }

  lemma DivMonotone(a: int, b: int, g: int)
    requires g > 0 && a <= b
    ensures a / g <= b / g
  {
    DivAtMost(b, g, b / g);
    DivAtMost(a, g, b / g);
  }

  lemma Regrouped(g: int, q: int, r: int, k: int)
    ensures (g * q + r) * k == (g * k) * q + r * k
  {
    assert (g * q) * k == (g * k) * q;
  }

  /** A common factor cancels. */
  lemma DivCancels(a: int, g: int, k: int)
    requires g > 0 && k > 0
    ensures g * k > 0 && (a * k) / (g * k) == a / g
  {
    var q, r := a / g, a % g;
    MulPositive(g, k);
    Regrouped(g, q, r, k);
    MulMonotone(k, r + 1, g);
    MulMonotone(k, 0, r);
    assert r * k + k <= g * k;
    DivModUnique(a * k, g * k, q, r * k);
  }

  lemma MulPositive(a: int, b: int)
    requires a > 0 && b > 0
    ensures a * b > 0
  {
    MulMonotone(a, 1, b);
  }
}
