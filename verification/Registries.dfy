/** Registries kept as changes against a base, and attestation slots tabulated on demand. */
module Registries {
  import opened Wrappers
  import opened Folds
  import opened SwapOrNot
  import opened Slots

  datatype Header = Header(balanceChanges: seq<(nat, nat)>, slashedToggles: seq<nat>)

  datatype EpochSeed = EpochSeed(epoch: nat, seed: Seed, registry: nat)

  datatype Witness = Witness(
    registries: seq<Header>, balances: seq<nat>, slashed: seq<bool>, seeds: seq<EpochSeed>, rounds: nat)
  {
    /** What decoding the blobs leaves: one balance and one flag a validator. */
    ghost predicate Decoded() { |slashed| == |balances| && rounds > 0 }
  }

  datatype Registry = Registry(balances: seq<nat>, slashed: seq<bool>)

  /** The last change that names validator i, if one does. */
  function LastChange(changes: seq<(nat, nat)>, n: nat, i: nat): Option<nat>
    requires n <= |changes|
  {
    if n == 0 then None
    else if changes[n - 1].0 == i then Some(changes[n - 1].1)
    else LastChange(changes, n - 1, i)
  }

  /** Validator i's effective balance in a registry; zero when inactive. */
  function BalanceIn(w: Witness, idx: nat, i: nat): nat
    requires idx < |w.registries| && i < |w.balances|
  {
    var changes := w.registries[idx].balanceChanges;
    var last := LastChange(changes, |changes|, i);
    if last.None? then w.balances[i] else last.value
  }

  /** A flag toggled an odd number of times is turned over. */
  function Toggled(toggles: seq<nat>, n: nat, i: nat): bool
    requires n <= |toggles|
  {
    n > 0 && (toggles[n - 1] == i) != Toggled(toggles, n - 1, i)
  }

  ghost predicate InRange(w: Witness, idx: nat)
    requires idx < |w.registries|
  {
    && (forall k :: 0 <= k < |w.registries[idx].balanceChanges| ==> w.registries[idx].balanceChanges[k].0 < |w.balances|)
    && (forall k :: 0 <= k < |w.registries[idx].slashedToggles| ==> w.registries[idx].slashedToggles[k] < |w.slashed|)
  }

  /** A base with changes written into it in order; none if one lies outside. */
  function Patched(base: seq<nat>, changes: seq<(nat, nat)>): (r: Option<seq<nat>>)
    ensures r.Some? ==> |r.value| == |base|
    decreases |changes|
  {
    if changes == [] then Some(base)
    else
      var last := changes[|changes| - 1];
      var before :- Patched(base, changes[..|changes| - 1]);
      if last.0 < |before| then Some(before[last.0 := last.1]) else None
  }

  /** Flags turned over in order; none if one lies outside. */
  function Flipped(base: seq<bool>, toggles: seq<nat>): (r: Option<seq<bool>>)
    ensures r.Some? ==> |r.value| == |base|
    decreases |toggles|
  {
    if toggles == [] then Some(base)
    else
      var last := toggles[|toggles| - 1];
      var before :- Flipped(base, toggles[..|toggles| - 1]);
      if last < |before| then Some(before[last := !before[last]]) else None
  }

  /** A registry as it is materialized. */
  function RegistryOf(w: Witness, idx: nat): Option<Registry>
  {
    if idx >= |w.registries| then None
    else
      var balances :- Patched(w.balances, w.registries[idx].balanceChanges);
      var slashed :- Flipped(w.slashed, w.registries[idx].slashedToggles);
      Some(Registry(balances, slashed))
  }

  lemma {:induction false} PatchedFails(base: seq<nat>, changes: seq<(nat, nat)>, n: nat)
    requires n <= |changes| && Patched(base, changes[..n]).None?
    ensures Patched(base, changes).None?
    decreases |changes|
  {
    if n == |changes| {
      assert changes[..n] == changes;
    } else {
      assert changes[..|changes| - 1][..n] == changes[..n];
      PatchedFails(base, changes[..|changes| - 1], n);
    }
  }

  lemma {:induction false} FlippedFails(base: seq<bool>, toggles: seq<nat>, n: nat)
    requires n <= |toggles| && Flipped(base, toggles[..n]).None?
    ensures Flipped(base, toggles).None?
    decreases |toggles|
  {
    if n == |toggles| {
      assert toggles[..n] == toggles;
    } else {
      assert toggles[..|toggles| - 1][..n] == toggles[..n];
      FlippedFails(base, toggles[..|toggles| - 1], n);
    }
  }

  method PatchBalances(base: seq<nat>, changes: seq<(nat, nat)>) returns (r: Option<seq<nat>>)
    ensures r == Patched(base, changes)
  {
    var balances := base;
    for k := 0 to |changes|
      invariant Patched(base, changes[..k]) == Some(balances)
    {
      PrefixGrows(changes, k);
      if changes[k].0 >= |balances| {
        PatchedFails(base, changes, k + 1);
        return None;
      }
      balances := balances[changes[k].0 := changes[k].1];
    }
    assert changes[..|changes|] == changes;
    return Some(balances);
  }

  method PatchSlashed(base: seq<bool>, toggles: seq<nat>) returns (r: Option<seq<bool>>)
    ensures r == Flipped(base, toggles)
  {
    var slashed := base;
    for k := 0 to |toggles|
      invariant Flipped(base, toggles[..k]) == Some(slashed)
    {
      PrefixGrows(toggles, k);
      if toggles[k] >= |slashed| {
        FlippedFails(base, toggles, k + 1);
        return None;
      }
      slashed := slashed[toggles[k] := !slashed[toggles[k]]];
    }
    assert toggles[..|toggles|] == toggles;
    return Some(slashed);
  }

  /** `registry`: the base with the changes applied in order; an index past the end fails. */
  method Materialize(w: Witness, idx: nat) returns (r: Option<Registry>)
    ensures r == RegistryOf(w, idx)
  {
    if idx >= |w.registries| { return None; }
    var balances := PatchBalances(w.balances, w.registries[idx].balanceChanges);
    if balances.None? { return None; }
    var slashed := PatchSlashed(w.slashed, w.registries[idx].slashedToggles);
    if slashed.None? { return None; }
    return Some(Registry(balances.value, slashed.value));
  }

  /** Changes written in order leave each validator what the last change to name it says. */
  lemma {:induction false} PatchedReads(base: seq<nat>, changes: seq<(nat, nat)>, n: nat, i: nat)
    requires n <= |changes| && Patched(base, changes[..n]).Some? && i < |base|
    ensures Patched(base, changes[..n]).value[i]
         == var last := LastChange(changes, n, i); if last.None? then base[i] else last.value
    decreases n
  {
    if n > 0 {
      PrefixGrows(changes, n - 1);
      PatchedReads(base, changes, n - 1, i);
    }
  }

  lemma {:induction false} PatchedInRange(base: seq<nat>, changes: seq<(nat, nat)>, n: nat)
    requires n <= |changes|
    ensures Patched(base, changes[..n]).Some? <==> forall k :: 0 <= k < n ==> changes[k].0 < |base|
    decreases n
  {
    if n > 0 {
      PrefixGrows(changes, n - 1);
      PatchedInRange(base, changes, n - 1);
    }
  }

  lemma {:induction false} FlippedReads(base: seq<bool>, toggles: seq<nat>, n: nat, i: nat)
    requires n <= |toggles| && Flipped(base, toggles[..n]).Some? && i < |base|
    ensures Flipped(base, toggles[..n]).value[i] == (base[i] != Toggled(toggles, n, i))
    decreases n
  {
    if n > 0 {
      PrefixGrows(toggles, n - 1);
      FlippedReads(base, toggles, n - 1, i);
    }
  }

  lemma {:induction false} FlippedInRange(base: seq<bool>, toggles: seq<nat>, n: nat)
    requires n <= |toggles|
    ensures Flipped(base, toggles[..n]).Some? <==> forall k :: 0 <= k < n ==> toggles[k] < |base|
    decreases n
  {
    if n > 0 {
      PrefixGrows(toggles, n - 1);
      FlippedInRange(base, toggles, n - 1);
    }
  }

  /** Materializing fails exactly on an index out of range, and otherwise reads back the last
      change to each validator and the parity of its toggles. */
  lemma RegistryReads(w: Witness, idx: nat)
    requires w.Decoded() && idx < |w.registries|
    ensures RegistryOf(w, idx).Some? <==> InRange(w, idx)
    ensures RegistryOf(w, idx).Some? ==>
      var r, toggles := RegistryOf(w, idx).value, w.registries[idx].slashedToggles;
      && |r.balances| == |r.slashed| == |w.balances|
      && (forall i :: 0 <= i < |w.balances| ==> r.balances[i] == BalanceIn(w, idx, i))
      && (forall i :: 0 <= i < |w.slashed| ==> r.slashed[i] == (w.slashed[i] != Toggled(toggles, |toggles|, i)))
  {
    var changes, toggles := w.registries[idx].balanceChanges, w.registries[idx].slashedToggles;
    assert changes[..|changes|] == changes && toggles[..|toggles|] == toggles;
    PatchedInRange(w.balances, changes, |changes|);
    FlippedInRange(w.slashed, toggles, |toggles|);
    if RegistryOf(w, idx).Some? {
      forall i | 0 <= i < |w.balances| ensures RegistryOf(w, idx).value.balances[i] == BalanceIn(w, idx, i) {
        PatchedReads(w.balances, changes, |changes|, i);
      }
      forall i | 0 <= i < |w.slashed|
        ensures RegistryOf(w, idx).value.slashed[i] == (w.slashed[i] != Toggled(toggles, |toggles|, i))
      {
        FlippedReads(w.slashed, toggles, |toggles|, i);
      }
    }
  }

  /** The active validators, in index order. */
  ghost predicate IsActiveList(w: Witness, idx: nat, active: seq<nat>)
    requires idx < |w.registries|
  {
    && (forall j, k :: 0 <= j < k < |active| ==> active[j] < active[k])
    && (forall i :: i in active <==> 0 <= i < |w.balances| && BalanceIn(w, idx, i) > 0)
  }

  /** A map collected from pairs keeps the last of each key. */
  method Changed(changes: seq<(nat, nat)>) returns (changed: map<nat, nat>)
    ensures forall i: nat :: i in changed <==> LastChange(changes, |changes|, i).Some?
    ensures forall i: nat :: i in changed ==> LastChange(changes, |changes|, i) == Some(changed[i])
  {
    changed := map[];
    for k := 0 to |changes|
      invariant forall i: nat :: i in changed <==> LastChange(changes, k, i).Some?
      invariant forall i: nat :: i in changed ==> LastChange(changes, k, i) == Some(changed[i])
    {
      changed := changed[changes[k].0 := changes[k].1];
    }
  }

  /** `active_indices` */
  method ActiveIndices(w: Witness, idx: nat) returns (r: Option<seq<nat>>)
    ensures r.Some? <==> idx < |w.registries|
    ensures r.Some? ==> IsActiveList(w, idx, r.value)
  {
    if idx >= |w.registries| { return None; }
    var changed := Changed(w.registries[idx].balanceChanges);
    var active: seq<nat> := [];
    for i := 0 to |w.balances|
      invariant forall j, k :: 0 <= j < k < |active| ==> active[j] < active[k]
      invariant forall x :: x in active <==> 0 <= x < i && BalanceIn(w, idx, x) > 0
    {
      if (if i in changed then changed[i] else w.balances[i]) > 0 {
        assert forall k :: 0 <= k < |active| ==> active[k] in active;
        active := active + [i];
      }
    }
    return Some(active);
  }

  /** The two readings of one registry agree: the validators listed active, from a map of each
      one's last change, are those with a positive balance once the changes are written in order. */
  lemma ActiveMeansBalance(w: Witness, idx: nat, active: seq<nat>)
    requires w.Decoded() && RegistryOf(w, idx).Some? && IsActiveList(w, idx, active)
    ensures
      var r := RegistryOf(w, idx).value;
      forall i: nat :: i in active <==> i < |r.balances| && r.balances[i] > 0
  {
    RegistryReads(w, idx);
  }

  /** Sorted lists of one set are one list. */
  lemma {:induction false} SortedIsUnique(a: seq<nat>, b: seq<nat>)
    requires forall j, k :: 0 <= j < k < |a| ==> a[j] < a[k]
    requires forall j, k :: 0 <= j < k < |b| ==> b[j] < b[k]
    requires forall x: nat :: x in a <==> x in b
    ensures a == b
  {
    assert b != [] ==> b[0] in a;
    if a != [] {
      assert a[0] in b;
      assert b[0] in a;
      var m :| 0 <= m < |b| && b[m] == a[0];
      var n :| 0 <= n < |a| && a[n] == b[0];
      assert a[0] == b[0];
      forall x: nat ensures x in a[1..] <==> x in b[1..] {
        TailMembers(a, x);
        TailMembers(b, x);
      }
      SortedIsUnique(a[1..], b[1..]);
    }
  }

  lemma TailMembers(a: seq<nat>, x: nat)
    requires a != [] && forall j, k :: 0 <= j < k < |a| ==> a[j] < a[k]
    ensures x in a[1..] <==> x in a && x != a[0]
  {
    if x in a && x != a[0] {
      var k :| 0 <= k < |a| && a[k] == x;
      assert a[1..][k - 1] == x;
    }
  }

  /** The first seed recorded for an epoch. */
  function SeedOf(seeds: seq<EpochSeed>, epoch: nat): (r: Option<EpochSeed>)
    ensures r.Some? <==> exists k :: 0 <= k < |seeds| && seeds[k].epoch == epoch
  {
    if seeds == [] then None
    else if seeds[0].epoch == epoch then Some(seeds[0])
    else
      assert forall k :: 0 < k < |seeds| ==> seeds[1..][k - 1] == seeds[k];
      SeedOf(seeds[1..], epoch)
  }

  /** Whether an epoch can be tabulated at all. */
  ghost predicate Known(w: Witness, epoch: nat) {
    var seed := SeedOf(w.seeds, epoch);
    seed.Some? && seed.value.registry < |w.registries|
  }

  /** The table an epoch's seed and registry determine. */
  ghost predicate IsTable(w: Witness, epoch: nat, table: seq<nat>)
    requires Known(w, epoch)
  {
    var seed := SeedOf(w.seeds, epoch).value;
    && |table| == |w.balances|
    && exists active :: IsActiveList(w, seed.registry, active) && Assigns(table, active, seed.seed, w.rounds, epoch)
  }

  /** There is only one. */
  lemma TableIsUnique(w: Witness, epoch: nat, s: seq<nat>, t: seq<nat>)
    requires Known(w, epoch) && IsTable(w, epoch, s) && IsTable(w, epoch, t)
    ensures s == t
  {
    var seed := SeedOf(w.seeds, epoch).value;
    var a :| IsActiveList(w, seed.registry, a) && Assigns(s, a, seed.seed, w.rounds, epoch);
    var b :| IsActiveList(w, seed.registry, b) && Assigns(t, b, seed.seed, w.rounds, epoch);
    SortedIsUnique(a, b);
    SameTable(s, t, a, seed.seed, w.rounds, epoch);
  }

  lemma SameTable(s: seq<nat>, t: seq<nat>, active: seq<nat>, h: Seed, rounds: nat, epoch: nat)
    requires |s| == |t| && Assigns(s, active, h, rounds, epoch) && Assigns(t, active, h, rounds, epoch)
    ensures s == t
  {
    forall v: nat | v < |s| ensures s[v] == t[v] {
      if v in active {
        var i :| 0 <= i < |active| && active[i] == v;
        assert s[active[i]] == t[active[i]];
      }
    }
  }

  /** `is_in_range` asked of tables that are all at hand. */
  ghost predicate DutyBetween(w: Witness, epoch: nat, v: nat, start: nat, end: nat) {
    exists table :: Known(w, epoch) && IsTable(w, epoch, table) && v < |table|
      && table[v] != NO_SLOT && start <= table[v] <= end
  }

  /** The answer is about real duties: an active validator's committee position names its slot. */
  lemma DutyIsCommitteeSlot(w: Witness, epoch: nat, table: seq<nat>, active: seq<nat>, v: nat, start: nat, end: nat)
    requires Known(w, epoch) && IsTable(w, epoch, table) && v < |table| && (epoch + 1) * SLOTS_PER_EPOCH <= NO_SLOT
    requires IsActiveList(w, SeedOf(w.seeds, epoch).value.registry, active)
    ensures DutyBetween(w, epoch, v, start, end) <==>
            exists i: nat :: i < |active| && active[i] == v
              && start <= epoch * SLOTS_PER_EPOCH
                   + SlotOfPosition(CommitteePosition(SeedOf(w.seeds, epoch).value.seed, |active|, w.rounds, i), |active|, SLOTS_PER_EPOCH) <= end
  {
    var seed := SeedOf(w.seeds, epoch).value;
    var listed :| IsActiveList(w, seed.registry, listed) && Assigns(table, listed, seed.seed, w.rounds, epoch);
    SortedIsUnique(active, listed);
    DutyIs(w, epoch, table, v, start, end);
    if v in active {
      var i :| 0 <= i < |active| && active[i] == v;
      TableIsExact(table, active, seed.seed, w.rounds, epoch, i);
      forall k: nat | k < |active| && active[k] == v ensures k == i {}
    }
  }

  class LazyAssignments {
    const w: Witness
    var tables: map<nat, seq<nat>>

    ghost predicate Valid()
      reads this
    {
      w.Decoded() && forall epoch :: epoch in tables ==> Known(w, epoch) && IsTable(w, epoch, tables[epoch])
    }

    constructor (decoded: Witness)
      requires decoded.Decoded()
      ensures Valid() && w == decoded
    {
      w, tables := decoded, map[];
    }

    /** Tabulates an epoch the first time it is asked for. */
    method EnsureTable(epoch: nat) returns (ok: bool)
      requires Valid()
      modifies this
      ensures Valid() && (ok <==> Known(w, epoch)) && (ok ==> epoch in tables)
      ensures forall e :: e in old(tables) ==> e in tables && tables[e] == old(tables)[e]
    {
      if epoch in tables { return true; }
      var seed := SeedOf(w.seeds, epoch);
      if seed.None? { return false; }
      var active := ActiveIndices(w, seed.value.registry);
      if active.None? { return false; }
      ActiveListFits(w, seed.value.registry, active.value);
      var table := AssignmentTable(active.value, seed.value.seed, w.rounds, epoch, |w.balances|);
      assert IsTable(w, epoch, table[..]);
      tables := tables[epoch := table[..]];
      return true;
    }

    /** Whether a validator attests between two slots; nothing asked before changes the answer. */
    method IsInRange(v: nat, start: nat, end: nat) returns (r: Option<bool>)
      requires Valid()
      modifies this
      ensures Valid()
      ensures r == Some(true) ==> exists e :: start / 32 <= e <= end / 32 && DutyBetween(w, e, v, start, end)
      ensures r == Some(false) ==> forall e :: start / 32 <= e <= end / 32 ==> Known(w, e) && !DutyBetween(w, e, v, start, end)
      ensures r == None ==> v >= |w.balances| || exists e :: start / 32 <= e <= end / 32 && !Known(w, e)
    {
      var first, last := start / SLOTS_PER_EPOCH, end / SLOTS_PER_EPOCH;
      var epoch := first;
      while epoch <= last
        invariant Valid() && first <= epoch
        invariant forall e :: first <= e < epoch ==> Known(w, e) && !DutyBetween(w, e, v, start, end)
        decreases last + 1 - epoch
      {
        var known := EnsureTable(epoch);
        if !known { return None; }
        var table := tables[epoch];
        if v >= |table| { return None; }
        DutyIs(w, epoch, table, v, start, end);
        if table[v] != NO_SLOT && start <= table[v] <= end { return Some(true); }
        epoch := epoch + 1;
      }
      return Some(false);
    }
  }

  lemma ActiveListFits(w: Witness, idx: nat, active: seq<nat>)
    requires idx < |w.registries| && IsActiveList(w, idx, active)
    ensures Distinct(active) && Below(active, |w.balances|)
  {
    forall i | 0 <= i < |active| ensures active[i] < |w.balances| { assert active[i] in active; }
  }

  lemma DutyIs(w: Witness, epoch: nat, table: seq<nat>, v: nat, start: nat, end: nat)
    requires Known(w, epoch) && IsTable(w, epoch, table) && v < |table|
    ensures DutyBetween(w, epoch, v, start, end) <==> table[v] != NO_SLOT && start <= table[v] <= end
  {
    if DutyBetween(w, epoch, v, start, end) {
      var other :| IsTable(w, epoch, other) && v < |other| && other[v] != NO_SLOT && start <= other[v] <= end;
      TableIsUnique(w, epoch, table, other);
    }
  }
}
