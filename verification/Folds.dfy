/** Lists folded into a value, and when the order of a fold does not matter. */
module Folds {
  lemma ConcatLast<T>(a: seq<T>, b: seq<T>)
    requires b != []
    ensures a + b == (a + b[..|b| - 1]) + [b[|b| - 1]]
    ensures (a + b)[..|a + b| - 1] == a + b[..|b| - 1]
  {
  }

  lemma PrefixGrows<T>(s: seq<T>, i: nat)
    requires i < |s|
    ensures s[..i + 1] == s[..i] + [s[i]] && s[..i + 1][..i] == s[..i]
    ensures s[..|s|] == s
  {
  }

  lemma SuffixShrinks<T>(s: seq<T>, i: nat)
    requires i < |s|
    ensures |s[i..]| == |s| - i && s[i..][0] == s[i] && s[i..][1..] == s[i + 1..]
  {
  }

  lemma ConcatAssociates<T>(a: seq<T>, b: seq<T>, c: seq<T>)
    ensures (a + b) + c == a + (b + c)
  {
  }

  function Flatten<T>(parts: seq<seq<T>>): seq<T>
    decreases |parts|
  {
    if parts == [] then [] else Flatten(parts[..|parts| - 1]) + parts[|parts| - 1]
  }

  lemma FlattenAppends<T>(parts: seq<seq<T>>, last: seq<T>)
    ensures Flatten(parts + [last]) == Flatten(parts) + last
  {
    assert (parts + [last])[..|parts|] == parts;
  }

  lemma FlattenTwo<T>(a: seq<T>, b: seq<T>)
    ensures Flatten([a] + [b]) == a + b
  {
    FlattenAppends([a], b);
    assert Flatten([a]) == [] + a;
  }

  function FoldAll<S, T>(op: (S, T) -> S, unit: S, s: seq<T>): S
    decreases |s|
  {
    if s == [] then unit else op(FoldAll(op, unit, s[..|s| - 1]), s[|s| - 1])
  }

  lemma FoldAppends<S, T>(op: (S, T) -> S, unit: S, s: seq<T>, last: T)
    ensures FoldAll(op, unit, s + [last]) == op(FoldAll(op, unit, s), last)
  {
    assert (s + [last])[..|s|] == s;
  }

  /** Folding on from a fold is folding both lists. */
  lemma {:induction false} FoldConcat<S, T>(op: (S, T) -> S, unit: S, a: seq<T>, b: seq<T>)
    ensures FoldAll(op, unit, a + b) == FoldAll(op, FoldAll(op, unit, a), b)
    decreases |b|
  {
    if b == [] {
      assert a + b == a;
    } else {
      ConcatLast(a, b);
      FoldConcat(op, unit, a, b[..|b| - 1]);
      FoldAppends(op, unit, a + b[..|b| - 1], b[|b| - 1]);
    }
  }

  ghost predicate Swaps<S(!new), T(!new)>(op: (S, T) -> S)
  {
    forall s: S, a: T, b: T :: op(op(s, a), b) == op(op(s, b), a)
  }

  function Without<T>(s: seq<T>, i: nat): seq<T>
    requires i < |s|
  {
    s[..i] + s[i + 1..]
  }

  lemma WithoutMultiset<T>(s: seq<T>, i: nat)
    requires i < |s|
    ensures multiset(Without(s, i)) == multiset(s) - multiset{s[i]}
  {
    assert s == s[..i] + [s[i]] + s[i + 1..];
  }

  lemma WithoutLast<T>(s: seq<T>, i: nat)
    requires i < |s| - 1
    ensures Without(s, i) == Without(s[..|s| - 1], i) + [s[|s| - 1]]
  {
  }

  /** Any element may be folded in last. */
  lemma {:induction false} FoldTakes<S(!new), T(!new)>(op: (S, T) -> S, unit: S, s: seq<T>, i: nat)
    requires Swaps(op) && i < |s|
    ensures FoldAll(op, unit, s) == op(FoldAll(op, unit, Without(s, i)), s[i])
    decreases |s|
  {
    var n := |s| - 1;
    if i == n {
      assert Without(s, i) == s[..n];
    } else {
      var front := s[..n];
      FoldTakes(op, unit, front, i);
      WithoutLast(s, i);
      FoldAppends(op, unit, Without(front, i), s[n]);
    }
  }

  /** The order of a fold does not matter where the operation swaps. */
  lemma {:induction false} FoldPermutes<S(!new), T(!new)>(op: (S, T) -> S, unit: S, a: seq<T>, b: seq<T>)
    requires Swaps(op) && multiset(a) == multiset(b)
    ensures FoldAll(op, unit, a) == FoldAll(op, unit, b)
    decreases |a|
  {
    assert |a| == |multiset(a)| == |multiset(b)| == |b|;
    if a != [] {
      var n := |a| - 1;
      assert a[n] in multiset(b);
      var i: nat :| i < |b| && b[i] == a[n];
      WithoutMultiset(a, n);
      WithoutMultiset(b, i);
      assert Without(a, n) == a[..n];
      FoldPermutes(op, unit, a[..n], Without(b, i));
      FoldTakes(op, unit, b, i);
    }
  }

  lemma SameElements<T>(a: seq<T>, b: seq<T>, x: T)
    requires multiset(a) == multiset(b)
    ensures x in a <==> x in b
  {
    assert x in multiset(a) <==> x in multiset(b);
  }
}
