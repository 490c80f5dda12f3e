/**
 * Where the rows of a union of snapshots come from: of the rows of the selected snapshots that repeat one another the
 * last one is kept, and those of requested providers arrive.
 */
module CompositionOrigins {
  import opened Domain
  import opened Ordering
  import E = EffectiveAccess
  import opened Composition

  // ----- Which rows are kept -----

  /** A snapshot is selected when it has a requested provider. */
  predicate IsSelected(s: Snapshot, names: set<string>) {
    exists p :: p in s.providers && p.name in names
  }

  /** Row j of snapshot n is of a selected snapshot, and neither it nor a later selected one repeats it behind. */
  ghost predicate IsKept<T(!new)>(snapshots: seq<Snapshot>, names: set<string>, rows: seq<seq<T>>, same: (T, T) -> bool,
                                  n: int, j: int)
    requires |rows| == |snapshots|
  {
    && 0 <= n < |snapshots| && 0 <= j < |rows[n]| && IsSelected(snapshots[n], names)
    && (forall i :: j < i < |rows[n]| ==> !same(rows[n][i], rows[n][j]))
    && forall m, i :: n < m < |snapshots| && 0 <= i < |rows[m]| && IsSelected(snapshots[m], names) ==>
         !same(rows[m][i], rows[n][j])
  }

  ghost predicate IsLast<K, T>(key: T -> K, items: seq<T>, k: K, i: int) {
    && 0 <= i < |items| && key(items[i]) == k
    && forall j :: i < j < |items| ==> key(items[j]) != k
  }

  lemma LastOfLonger<K, T>(key: T -> K, rest: seq<T>, last: T, k: K, i: int)
    requires key(last) != k
    ensures IsLast(key, rest + [last], k, i) <==> IsLast(key, rest, k, i)
  {
    assert forall j :: 0 <= j < |rest| ==> (rest + [last])[j] == rest[j];
  }

  lemma {:induction false} LastIsFiled<K(!new), T(!new)>(key: T -> K, items: seq<T>, k: K)
    ensures k in ByKey(key, items) <==> exists i :: 0 <= i < |items| && key(items[i]) == k
    ensures forall i :: IsLast(key, items, k, i) ==> k in ByKey(key, items) && ByKey(key, items)[k] == items[i]
    ensures k in ByKey(key, items) ==> exists i :: IsLast(key, items, k, i)
  {
    if items != [] {
      var n := |items| - 1;
      var rest := items[..n];
      LastIsFiled(key, rest, k);
      assert items == rest + [items[n]];
      if key(items[n]) == k {
        assert IsLast(key, items, k, n);
        forall i | IsLast(key, items, k, i) ensures i == n {
        }
      } else {
        forall i ensures IsLast(key, items, k, i) <==> IsLast(key, rest, k, i) {
          LastOfLonger(key, rest, items[n], k, i);
        }
      }
    }
  }

  lemma {:induction false} ByKeyConcat<K, T>(key: T -> K, a: seq<T>, b: seq<T>)
    ensures ByKey(key, a + b) == ByKey(key, a) + ByKey(key, b)
  {
    if b == [] {
      assert a + b == a;
    } else {
      var n := |b| - 1;
      ByKeyConcat(key, a, b[..n]);
      assert (a + b)[..|a + b| - 1] == a + b[..n];
    }
  }

  /** Equal keys are both kept or both dropped. */
  ghost predicate Respects<K, T(!new)>(keep: T -> bool, key: T -> K) {
    forall a, b :: key(a) == key(b) ==> keep(a) == keep(b)
  }

  lemma {:induction false} ByKeyFiltered<K, T(!new)>(key: T -> K, keep: T -> bool, items: seq<T>, k: K)
    requires Respects(keep, key)
    ensures var all, kept := ByKey(key, items), ByKey(key, Filter(keep, items));
            && (k in kept <==> k in all && keep(all[k]))
            && (k in kept ==> kept[k] == all[k])
  {
    if items != [] {
      var n := |items| - 1;
      var rest, last := items[..n], items[n];
      assert items == rest + [last] && [last][1..] == [];
      FilterConcat(keep, rest, [last]);
      ByKeyFiltered(key, keep, rest, k);
      FiledUnderKeys(key, rest);
      var before := Filter(keep, rest);
      if keep(last) {
        assert Filter(keep, items) == before + [last] && (before + [last])[..|before|] == before;
      } else {
        assert Filter(keep, items) == before + [] == before;
        assert k in ByKey(key, rest) && k == key(last) ==> keep(ByKey(key, rest)[k]) == keep(last);
      }
    }
  }

  lemma SelectedOfMore(snapshots: seq<Snapshot>, names: set<string>)
    requires snapshots != []
    ensures Selected(snapshots, names)
         == (if IsSelected(snapshots[0], names) then [snapshots[0]] else []) + Selected(snapshots[1..], names)
  {
  }

  lemma AllOfMore<T>(of: Snapshot -> seq<T>, snapshots: seq<Snapshot>, names: set<string>)
    requires snapshots != []
    ensures AllOf(of, Selected(snapshots, names))
         == (if IsSelected(snapshots[0], names) then of(snapshots[0]) else [])
          + AllOf(of, Selected(snapshots[1..], names))
  {
    SelectedOfMore(snapshots, names);
    if IsSelected(snapshots[0], names) {
      var selected := [snapshots[0]] + Selected(snapshots[1..], names);
      assert selected[1..] == Selected(snapshots[1..], names);
    } else {
      assert [] + Selected(snapshots[1..], names) == Selected(snapshots[1..], names);
    }
  }

  ghost predicate IsSameKey<K, T(!new)>(same: (T, T) -> bool, key: T -> K) {
    forall a, b :: same(a, b) <==> key(a) == key(b)
  }

  ghost predicate AreRows<T>(rows: seq<seq<T>>, of: Snapshot -> seq<T>, snapshots: seq<Snapshot>) {
    |rows| == |snapshots| && forall n :: 0 <= n < |rows| ==> rows[n] == of(snapshots[n])
  }

  lemma KeptOfMore<T(!new)>(snapshots: seq<Snapshot>, names: set<string>, rows: seq<seq<T>>, same: (T, T) -> bool,
                            n: int, j: int)
    requires |rows| == |snapshots| > 0
    ensures n > 0 ==> (IsKept(snapshots, names, rows, same, n, j)
                       <==> IsKept(snapshots[1..], names, rows[1..], same, n - 1, j))
  {
    if n > 0 {
      if IsKept(snapshots, names, rows, same, n, j) {
        forall m, i | n - 1 < m < |snapshots| - 1 && 0 <= i < |rows[1..][m]| && IsSelected(snapshots[1..][m], names)
          ensures !same(rows[1..][m][i], rows[1..][n - 1][j])
        {
          assert rows[1..][m] == rows[m + 1];
        }
      }
      if IsKept(snapshots[1..], names, rows[1..], same, n - 1, j) {
        forall m, i | n < m < |snapshots| && 0 <= i < |rows[m]| && IsSelected(snapshots[m], names)
          ensures !same(rows[m][i], rows[n][j])
        {
          assert rows[m] == rows[1..][m - 1] && snapshots[m] == snapshots[1..][m - 1];
        }
      }
    }
  }

  /** Some row of a selected snapshot has the key. */
  ghost predicate IsMet<K, T>(snapshots: seq<Snapshot>, names: set<string>, rows: seq<seq<T>>, key: T -> K, k: K)
    requires |rows| == |snapshots|
  {
    exists m, i :: 0 <= m < |snapshots| && 0 <= i < |rows[m]| && IsSelected(snapshots[m], names) && key(rows[m][i]) == k
  }

  lemma {:induction false} MetIsFiled<K(!new), T(!new)>(snapshots: seq<Snapshot>, names: set<string>, rows: seq<seq<T>>,
                                                        of: Snapshot -> seq<T>, key: T -> K, k: K)
    requires AreRows(rows, of, snapshots)
    ensures k in ByKey(key, AllOf(of, Selected(snapshots, names))) <==> IsMet(snapshots, names, rows, key, k)
  {
    if snapshots != [] {
      var rest := rows[1..];
      MetIsFiled(snapshots[1..], names, rest, of, key, k);
      AllOfMore(of, snapshots, names);
      ByKeyConcat(key, if IsSelected(snapshots[0], names) then of(snapshots[0]) else [],
                  AllOf(of, Selected(snapshots[1..], names)));
      LastIsFiled(key, rows[0], k);
      if IsMet(snapshots[1..], names, rest, key, k) {
        var m, i :| 0 <= m < |snapshots| - 1 && 0 <= i < |rest[m]| && IsSelected(snapshots[1..][m], names)
                 && key(rest[m][i]) == k;
        assert rows[m + 1] == rest[m] && snapshots[m + 1] == snapshots[1..][m];
      }
      if IsMet(snapshots, names, rows, key, k) {
        var m, i :| 0 <= m < |snapshots| && 0 <= i < |rows[m]| && IsSelected(snapshots[m], names)
                 && key(rows[m][i]) == k;
        if m > 0 {
          assert rows[m] == rest[m - 1] && snapshots[m] == snapshots[1..][m - 1];
        }
      }
    }
  }

  lemma KeptInFirst<K(!new), T(!new)>(snapshots: seq<Snapshot>, names: set<string>, rows: seq<seq<T>>,
                                      same: (T, T) -> bool, key: T -> K, j: nat)
    requires |rows| == |snapshots| > 0 && IsSameKey(same, key) && j < |rows[0]|
    ensures IsKept(snapshots, names, rows, same, 0, j)
       <==> (IsSelected(snapshots[0], names) && IsLast(key, rows[0], key(rows[0][j]), j)
             && !IsMet(snapshots[1..], names, rows[1..], key, key(rows[0][j])))
  {
    var rest, k := rows[1..], key(rows[0][j]);
    if IsMet(snapshots[1..], names, rest, key, k) {
      var m, i :| 0 <= m < |snapshots| - 1 && 0 <= i < |rest[m]| && IsSelected(snapshots[1..][m], names)
               && key(rest[m][i]) == k;
      assert rows[m + 1] == rest[m] && snapshots[m + 1] == snapshots[1..][m] && same(rows[m + 1][i], rows[0][j]);
    } else {
      forall m, i | 0 < m < |snapshots| && 0 <= i < |rows[m]| && IsSelected(snapshots[m], names)
        ensures !same(rows[m][i], rows[0][j])
      {
        assert rest[m - 1] == rows[m] && snapshots[1..][m - 1] == snapshots[m];
      }
    }
  }

  /** Of the rows of one key exactly the last one is filed. */
  lemma {:induction false} KeptIsFiled<K(!new), T(!new)>(snapshots: seq<Snapshot>, names: set<string>,
                                                         rows: seq<seq<T>>, of: Snapshot -> seq<T>,
                                                         same: (T, T) -> bool, key: T -> K, n: int, j: int)
    requires AreRows(rows, of, snapshots) && IsSameKey(same, key) && IsKept(snapshots, names, rows, same, n, j)
    ensures var all := ByKey(key, AllOf(of, Selected(snapshots, names)));
            key(rows[n][j]) in all && all[key(rows[n][j])] == rows[n][j]
    decreases |snapshots|
  {
    var k := key(rows[n][j]);
    AllOfMore(of, snapshots, names);
    ByKeyConcat(key, if IsSelected(snapshots[0], names) then of(snapshots[0]) else [],
                AllOf(of, Selected(snapshots[1..], names)));
    KeptOfMore(snapshots, names, rows, same, n, j);
    if n > 0 {
      KeptIsFiled(snapshots[1..], names, rows[1..], of, same, key, n - 1, j);
    } else {
      KeptInFirst(snapshots, names, rows, same, key, j);
      MetIsFiled(snapshots[1..], names, rows[1..], of, key, k);
      LastIsFiled(key, rows[0], k);
    }
  }

  lemma {:induction false} FiledIsKept<K(!new), T(!new)>(snapshots: seq<Snapshot>, names: set<string>,
                                                         rows: seq<seq<T>>, of: Snapshot -> seq<T>,
                                                         same: (T, T) -> bool, key: T -> K, k: K)
    returns (n: int, j: int)
    requires AreRows(rows, of, snapshots) && IsSameKey(same, key)
    requires k in ByKey(key, AllOf(of, Selected(snapshots, names)))
    ensures IsKept(snapshots, names, rows, same, n, j)
    ensures ByKey(key, AllOf(of, Selected(snapshots, names)))[k] == rows[n][j]
    decreases |snapshots|
  {
    AllOfMore(of, snapshots, names);
    ByKeyConcat(key, if IsSelected(snapshots[0], names) then of(snapshots[0]) else [],
                AllOf(of, Selected(snapshots[1..], names)));
    MetIsFiled(snapshots[1..], names, rows[1..], of, key, k);
    if k in ByKey(key, AllOf(of, Selected(snapshots[1..], names))) {
      n, j := FiledIsKept(snapshots[1..], names, rows[1..], of, same, key, k);
      KeptOfMore(snapshots, names, rows, same, n + 1, j);
      n := n + 1;
    } else {
      LastIsFiled(key, rows[0], k);
      n, j :| n == 0 && IsLast(key, rows[0], k, j);
      KeptInFirst(snapshots, names, rows, same, key, j);
    }
  }

  /** The filed rows are exactly the kept ones that pass, each under its key. */
  lemma FiledExactly<K(!new), T(!new)>(snapshots: seq<Snapshot>, names: set<string>, rows: seq<seq<T>>,
                                       of: Snapshot -> seq<T>, same: (T, T) -> bool, key: T -> K, keep: T -> bool, x: T)
    requires AreRows(rows, of, snapshots) && IsSameKey(same, key) && Respects(keep, key)
    ensures var kept := ByKey(key, Filter(keep, AllOf(of, Selected(snapshots, names))));
            && (key(x) in kept && kept[key(x)] == x
                <==> keep(x) && exists n, j :: IsKept(snapshots, names, rows, same, n, j) && rows[n][j] == x)
            && forall k :: k in kept ==> key(kept[k]) == k
  {
    var all := AllOf(of, Selected(snapshots, names));
    ByKeyFiltered(key, keep, all, key(x));
    FiledUnderKeys(key, Filter(keep, all));
    if n, j :| IsKept(snapshots, names, rows, same, n, j) && rows[n][j] == x {
      KeptIsFiled(snapshots, names, rows, of, same, key, n, j);
    }
    if key(x) in ByKey(key, all) && ByKey(key, all)[key(x)] == x {
      var n, j := FiledIsKept(snapshots, names, rows, of, same, key, key(x));
    }
  }

  // ----- The tables of the union -----

  /** The provider is requested and some snapshot has it. */
  ghost predicate IsPresent(snapshots: seq<Snapshot>, names: set<string>, provider: string) {
    provider in names
    && exists n, j :: 0 <= n < |snapshots| && 0 <= j < |snapshots[n].providers|
                   && snapshots[n].providers[j].name == provider
  }

  predicate SameProvider(p: Provider, q: Provider) {
    p.name == q.name
  }

  predicate SameIdentity(x: Identity, y: Identity) {
    x.ref == y.ref
  }

  predicate SameAccess(x: Access, y: Access) {
    x.ref == y.ref
  }

  predicate SameAssignment(a: Assignment, b: Assignment) {
    a.access == b.access && a.identity == b.identity && a.origin.fingerprint == b.origin.fingerprint
  }

  predicate SameRelation(p: Relation, r: Relation) {
    p.parent == r.parent && p.child == r.child && p.kind == r.kind && p.origin.fingerprint == r.origin.fingerprint
  }

  lemma AssignmentKeyTells(a: Assignment, b: Assignment)
    ensures AssignmentKey(a) == AssignmentKey(b) <==> SameAssignment(a, b)
  {
    var x, y := AssignmentKey(a), AssignmentKey(b);
    if x == y {
      assert x[0] == y[0] && x[1] == y[1] && x[2] == y[2] && x[3] == y[3] && x[4] == y[4];
    }
  }

  lemma RelationKeyTells(p: Relation, r: Relation)
    ensures RelationSlotOf(p) == RelationSlotOf(r) <==> SameRelation(p, r)
  {
    var x, y := E.RelationKey(p), E.RelationKey(r);
    if x == y {
      assert x[0] == y[0] && x[1] == y[1] && x[2] == y[2] && x[3] == y[3] && x[4] == y[4] && x[5] == y[5];
    }
  }

  lemma ProvidersOfUnion(snapshots: seq<Snapshot>, names: set<string>, p: Provider)
    ensures var u := Union(Selected(snapshots, names), names);
            var rows := seq(|snapshots|, n requires 0 <= n < |snapshots| => snapshots[n].providers);
            && (p.name in u.providers && u.providers[p.name] == p
                <==> p.name in names && exists n, j :: IsKept(snapshots, names, rows, SameProvider, n, j)
                                                     && rows[n][j] == p)
            && forall q :: q in u.providers ==> u.providers[q].name == q
  {
    var rows := seq(|snapshots|, n requires 0 <= n < |snapshots| => snapshots[n].providers);
    assert IsSameKey(SameProvider, ProviderName);
    FiledExactly(snapshots, names, rows, ProvidersOf, SameProvider, ProviderName, (p: Provider) => p.name in names, p);
  }

  lemma PresentIsProvider(snapshots: seq<Snapshot>, names: set<string>, q: string)
    ensures q in Union(Selected(snapshots, names), names).providers <==> IsPresent(snapshots, names, q)
  {
    var u := Union(Selected(snapshots, names), names);
    var rows := seq(|snapshots|, n requires 0 <= n < |snapshots| => snapshots[n].providers);
    MetIsFiled(snapshots, names, rows, ProvidersOf, ProviderName, q);
    ByKeyFiltered(ProviderName, (p: Provider) => p.name in names, AllOf(ProvidersOf, Selected(snapshots, names)), q);
    FiledUnderKeys(ProviderName, AllOf(ProvidersOf, Selected(snapshots, names)));
    if IsPresent(snapshots, names, q) {
      var n, j :| 0 <= n < |snapshots| && 0 <= j < |snapshots[n].providers| && snapshots[n].providers[j].name == q;
      assert snapshots[n].providers[j] in snapshots[n].providers && IsSelected(snapshots[n], names);
      assert rows[n][j] == snapshots[n].providers[j];
      assert IsMet(snapshots, names, rows, ProviderName, q);
    }
    if IsMet(snapshots, names, rows, ProviderName, q) {
      var m, i :| 0 <= m < |snapshots| && 0 <= i < |rows[m]| && IsSelected(snapshots[m], names)
               && ProviderName(rows[m][i]) == q;
      assert snapshots[m].providers[i].name == q;
    }
  }

  lemma AccessesOfUnion(snapshots: seq<Snapshot>, names: set<string>, x: Access)
    ensures var u := Union(Selected(snapshots, names), names);
            var rows := seq(|snapshots|, n requires 0 <= n < |snapshots| => snapshots[n].accesses);
            x.ref in u.accesses && u.accesses[x.ref] == x
            <==> IsPresent(snapshots, names, x.ref.provider)
                 && exists n, j :: IsKept(snapshots, names, rows, SameAccess, n, j) && rows[n][j] == x
  {
    var u := Union(Selected(snapshots, names), names);
    var rows := seq(|snapshots|, n requires 0 <= n < |snapshots| => snapshots[n].accesses);
    assert IsSameKey(SameAccess, AccessRef);
    FiledExactly(snapshots, names, rows, AccessesOf, SameAccess, AccessRef,
                 (a: Access) => a.ref.provider in u.providers, x);
    PresentIsProvider(snapshots, names, x.ref.provider);
  }

  lemma IdentitiesOfUnion(snapshots: seq<Snapshot>, names: set<string>, x: Identity)
    ensures var u := Union(Selected(snapshots, names), names);
            var rows := seq(|snapshots|, n requires 0 <= n < |snapshots| => snapshots[n].identities);
            && (x.ref in u.identities && u.identities[x.ref] == x
                <==> IsPresent(snapshots, names, x.ref.provider)
                     && exists n, j :: IsKept(snapshots, names, rows, SameIdentity, n, j) && rows[n][j] == x)
            && forall ref :: ref in u.identities ==> u.identities[ref].ref == ref
  {
    var u := Union(Selected(snapshots, names), names);
    var rows := seq(|snapshots|, n requires 0 <= n < |snapshots| => snapshots[n].identities);
    assert IsSameKey(SameIdentity, IdentityRef);
    FiledExactly(snapshots, names, rows, IdentitiesOf, SameIdentity, IdentityRef,
                 (i: Identity) => i.ref.provider in u.providers, x);
    PresentIsProvider(snapshots, names, x.ref.provider);
  }

  lemma AssignmentsOfUnion(snapshots: seq<Snapshot>, names: set<string>, a: Assignment)
    ensures var u := Union(Selected(snapshots, names), names);
            var rows := seq(|snapshots|, n requires 0 <= n < |snapshots| => snapshots[n].assignments);
            && (AssignmentKey(a) in u.assignments && u.assignments[AssignmentKey(a)] == a
                <==> IsPresent(snapshots, names, a.access.provider)
                     && exists n, j :: IsKept(snapshots, names, rows, SameAssignment, n, j) && rows[n][j] == a)
            && forall k :: k in u.assignments ==> AssignmentKey(u.assignments[k]) == k
  {
    var u := Union(Selected(snapshots, names), names);
    var rows := seq(|snapshots|, n requires 0 <= n < |snapshots| => snapshots[n].assignments);
    var keep := (a: Assignment) => a.access.provider in u.providers;
    forall a, b ensures SameAssignment(a, b) <==> AssignmentKey(a) == AssignmentKey(b) {
      AssignmentKeyTells(a, b);
    }
    assert IsSameKey(SameAssignment, AssignmentKey);
    assert Respects(keep, AssignmentKey);
    FiledExactly(snapshots, names, rows, AssignmentsOf, SameAssignment, AssignmentKey, keep, a);
    PresentIsProvider(snapshots, names, a.access.provider);
  }

  lemma RelationsOfUnion(snapshots: seq<Snapshot>, names: set<string>, r: Relation)
    ensures var u := Union(Selected(snapshots, names), names);
            var rows := seq(|snapshots|, n requires 0 <= n < |snapshots| => snapshots[n].relations);
            && (RelationSlotOf(r) in u.relations && u.relations[RelationSlotOf(r)] == r
                <==> IsPresent(snapshots, names, r.parent.provider) && IsPresent(snapshots, names, r.child.provider)
                     && exists n, j :: IsKept(snapshots, names, rows, SameRelation, n, j) && rows[n][j] == r)
            && forall slot :: slot in u.relations ==> RelationSlotOf(u.relations[slot]) == slot
  {
    var u := Union(Selected(snapshots, names), names);
    var rows := seq(|snapshots|, n requires 0 <= n < |snapshots| => snapshots[n].relations);
    var keep := (r: Relation) => r.parent.provider in u.providers && r.child.provider in u.providers;
    forall p, r ensures SameRelation(p, r) <==> RelationSlotOf(p) == RelationSlotOf(r) {
      RelationKeyTells(p, r);
    }
    assert IsSameKey(SameRelation, RelationSlotOf);
    assert Respects(keep, RelationSlotOf);
    FiledExactly(snapshots, names, rows, RelationsOf, SameRelation, RelationSlotOf, keep, r);
    PresentIsProvider(snapshots, names, r.parent.provider);
    PresentIsProvider(snapshots, names, r.child.provider);
  }
}
