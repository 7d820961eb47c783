/** Nobody is named twice by a group: the distinctness check over all its slots, and what it pins. */
module NamedOnce {
  import opened Wrappers
  import opened Merkle
  import opened MultiProof
  import opened Accumulator
  import opened SlotProof

  /** Indices rise strictly, from above `bound` on. */
  ghost predicate Rising(bound: int, items: seq<Opened<Digest>>)
    decreases |items|
  {
    items == [] || (bound < items[0].index && Rising(items[0].index, items[1..]))
  }

  ghost predicate Absent(index: nat, items: seq<Opened<Digest>>) {
    forall x :: x in items ==> x.index != index
  }

  ghost predicate Apart(items: seq<Opened<Digest>>)
    decreases |items|
  {
    items == [] || (Absent(items[0].index, items[1..]) && Apart(items[1..]))
  }

  lemma TailMembers<T>(items: seq<T>)
    requires items != []
    ensures forall x :: x in items <==> x == items[0] || x in items[1..]
  {
    assert items == [items[0]] + items[1..];
  }

  lemma {:induction false} RisingIsAbsent(index: nat, bound: int, items: seq<Opened<Digest>>)
    requires Rising(bound, items) && index <= bound
    ensures Absent(index, items)
    decreases |items|
  {
    if items != [] {
      RisingIsAbsent(index, items[0].index, items[1..]);
      TailMembers(items);
    }
  }

  lemma {:induction false} InsertRises(bound: int, o: Opened<Digest>, sorted: seq<Opened<Digest>>)
    requires Rising(bound, Insert(o, sorted))
    ensures Rising(bound, sorted) && bound < o.index && Absent(o.index, sorted)
    decreases |sorted|
  {
    var r := Insert(o, sorted);
    if sorted == [] || o.index <= sorted[0].index {
      assert r == [o] + sorted && r[1..] == sorted;
      RisingIsAbsent(o.index, o.index, sorted);
    } else {
      assert r[1..] == Insert(o, sorted[1..]);
      InsertRises(sorted[0].index, o, sorted[1..]);
      TailMembers(sorted);
    }
  }

  /** What sorts into a rising list had no index twice. */
  lemma {:induction false} SortedApart(named: seq<Opened<Digest>>)
    requires Rising(-1, SortedByIndex(named))
    ensures Apart(named)
    decreases |named|
  {
    if named != [] {
      InsertRises(-1, named[0], SortedByIndex(named[1..]));
      SortedApart(named[1..]);
    }
  }

  lemma {:induction false} InsertKeepsRising(bound: int, o: Opened<Digest>, sorted: seq<Opened<Digest>>)
    requires Rising(bound, sorted) && bound < o.index && Absent(o.index, sorted)
    ensures Rising(bound, Insert(o, sorted))
    decreases |sorted|
  {
    if sorted == [] || o.index <= sorted[0].index {
      assert sorted != [] ==> sorted[0] in sorted;
      assert Insert(o, sorted)[1..] == sorted;
    } else {
      TailMembers(sorted);
      InsertKeepsRising(sorted[0].index, o, sorted[1..]);
      assert Insert(o, sorted)[1..] == Insert(o, sorted[1..]);
    }
  }

  lemma {:induction false} ApartSorts(items: seq<Opened<Digest>>)
    requires Apart(items)
    ensures Rising(-1, SortedByIndex(items))
    decreases |items|
  {
    if items != [] {
      ApartSorts(items[1..]);
      InsertKeepsRising(-1, items[0], SortedByIndex(items[1..]));
    }
  }

  lemma {:induction false} RisingIncreases(bound: int, items: seq<Opened<Digest>>)
    requires Rising(bound, items)
    ensures Increasing(Indices(items)) && forall x :: x in items ==> bound < x.index
    decreases |items|
  {
    if items != [] {
      RisingIncreases(items[0].index, items[1..]);
      TailMembers(items);
      assert Indices(items)[1..] == Indices(items[1..]);
      forall i, j | 0 <= i < j < |items| ensures Indices(items)[i] < Indices(items)[j] {
        assert j >= 1 ==> Indices(items)[j] == Indices(items[1..])[j - 1] && items[j] in items[1..];
        assert i >= 1 ==> Indices(items)[i] == Indices(items[1..])[i - 1];
      }
    }
  }

  lemma {:induction false} ApartAt(items: seq<Opened<Digest>>, i: nat, j: nat)
    requires Apart(items) && i < j < |items|
    ensures items[i].index != items[j].index
    decreases |items|
  {
    if i == 0 {
      assert items[j] == items[1..][j - 1];
    } else {
      ApartAt(items[1..], i - 1, j - 1);
    }
  }

  lemma {:induction false} PairwiseRises(bound: int, items: seq<Opened<Digest>>)
    requires forall i: nat, j: nat :: i < j < |items| ==> items[i].index < items[j].index
    requires items != [] ==> bound < items[0].index
    ensures Rising(bound, items)
    decreases |items|
  {
    if items != [] {
      assert forall k: nat :: k < |items| - 1 ==> items[1..][k] == items[k + 1];
      PairwiseRises(items[0].index, items[1..]);
    }
  }

  /** An opening of named validators has them at distinct positions of the tree, each with the leaf there. */
  lemma OpenedApart(named: seq<Opened<Digest>>, aux: seq<Digest>, leaves: seq<Digest>, depth: nat)
    requires NamedOpen(named, aux, Root(Compress, Zero, leaves, depth), depth)
    ensures Apart(named)
    ensures forall x, y :: x in named && y in named && x.index != y.index ==> Low(x.index, depth) != Low(y.index, depth)
    ensures forall x :: x in named ==> x.leaf == Node(Compress, Zero, leaves, 0, Low(x.index, depth))
  {
    if named != [] {
      var sorted := SortedByIndex(named);
      BatchSound(Compress, Zero, leaves, sorted, aux, depth);
      PairwiseRises(-1, sorted);
      SortedApart(named);
      forall x | x in named ensures x.leaf == Node(Compress, Zero, leaves, 0, Low(x.index, depth)) {
        var p := PlaceOf(sorted, x);
      }
      forall x, y | x in named && y in named && x.index != y.index
        ensures Low(x.index, depth) != Low(y.index, depth)
      {
        var p := PlaceOf(sorted, x);
        var q := PlaceOf(sorted, y);
        assert p < q || q < p;
      }
    }
  }

  lemma PlaceOf<T>(items: seq<T>, x: T) returns (p: nat)
    requires x in items
    ensures p < |items| && items[p] == x
  {
    p :| 0 <= p < |items| && items[p] == x;
  }

  /** Across all the slots of an accepted group no validator is named twice, not even at one
      position under two indices, and each is named with the leaf its position holds. */
  lemma GroupNamesOnce(slots: seq<SlotWitness>, at: Openings, claim: Claim, accDepth: nat, leaves: seq<Digest>, i: nat, j: nat)
    requires AttestedBy(slots, at, claim, accDepth).Some? && at.accRoot == Root(Compress, Zero, leaves, accDepth)
    requires i < j < |TakeSlots(slots, claim).value.named|
    ensures
      var named := TakeSlots(slots, claim).value.named;
      && Low(named[i].index, accDepth) != Low(named[j].index, accDepth)
      && named[i].leaf == Node(Compress, Zero, leaves, 0, Low(named[i].index, accDepth))
      && named[j].leaf == Node(Compress, Zero, leaves, 0, Low(named[j].index, accDepth))
  {
    var named := TakeSlots(slots, claim).value.named;
    OpenedApart(named, at.accAux, leaves, accDepth);
    ApartAt(named, i, j);
    assert named[i] in named && named[j] in named;
  }
}
