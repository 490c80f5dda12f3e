/** Promoting a snapshot: the assignments it observed, frozen with everything they lead to. */
module GoldenFreeze {
  import opened Domain
  import opened Ordering
  import opened GrantGraph
  import opened EffectiveAccess
  import opened GoldenVersions

  function GoldenAssignmentOf(a: Assignment, accesses: map<Ref, Access>,
                              identities: map<Ref, Identity>): GoldenAssignment
  {
    var access := if a.access in accesses then Some(accesses[a.access]) else None;
    GoldenAssignment(
      a.access,
      a.identity,
      if access.Some? then AccessNativeId(access.value) else None,
      if access.Some? then access.value.permission else None,
      if a.identity in identities then identities[a.identity].nativeId else None)
  }

  function GoldenAssignments(snapshot: Snapshot): (items: seq<GoldenAssignment>)
    ensures |items| == |snapshot.assignments|
  {
    seq(|snapshot.assignments|, i requires 0 <= i < |snapshot.assignments| =>
      GoldenAssignmentOf(snapshot.assignments[i], AccessesByRef(snapshot.accesses),
                         IdentitiesByRef(snapshot.identities)))
  }

  function AssignedAccesses(snapshot: Snapshot): set<Ref> {
    set a | a in snapshot.assignments :: a.access
  }

  /** The least set of accesses that contains the seeds and is closed under the relations. */
  ghost predicate IsClosure(seeds: set<Ref>, relations: seq<Relation>, closure: set<Ref>) {
    && seeds <= closure && ClosedUnder(closure, relations)
    && forall other :: seeds <= other && ClosedUnder(other, relations) ==> closure <= other
  }

  /** Grows the selection with a worklist of accesses whose children are still to be added. */
  method SelectAccesses(seeds: set<Ref>, relations: seq<Relation>) returns (selected: set<Ref>)
    ensures IsClosure(seeds, relations, selected)
  {
    selected := seeds;
    var pending := SetToSeq(seeds);
    ghost var universe := seeds + set r | r in relations :: r.child;
    while pending != []
      invariant seeds <= selected <= universe
      invariant forall other :: seeds <= other && ClosedUnder(other, relations) ==> selected <= other
      invariant forall p :: p in pending ==> p in selected
      invariant forall r :: r in relations && r.parent in selected && r.parent !in pending ==> r.child in selected
      decreases universe - selected, |pending|
    {
      var parent := pending[|pending| - 1];
      pending := pending[..|pending| - 1];
      ghost var before, rest := selected, pending;
      for i := 0 to |relations|
        invariant before <= selected <= universe && parent in selected
        invariant forall other :: seeds <= other && ClosedUnder(other, relations) ==> selected <= other
        invariant forall p :: p in pending ==> p in selected
        invariant forall s :: s in selected && s !in before ==> s in pending
        invariant rest <= pending && (selected == before ==> pending == rest)
        invariant forall j :: 0 <= j < i && relations[j].parent == parent ==> relations[j].child in selected
      {
        var r := relations[i];
        if r.parent == parent && r.child !in selected {
          selected := selected + {r.child};
          pending := pending + [r.child];
        }
      }
      forall r | r in relations && r.parent in selected && r.parent !in pending ensures r.child in selected {
        if r.parent != parent {
          assert r.parent in before;
          assert r.parent !in rest;
        }
      }
    }
  }

  method SetToSeq(items: set<Ref>) returns (list: seq<Ref>)
    ensures forall x :: x in list <==> x in items
  {
    list := [];
    var rest := items;
    while rest != {}
      invariant forall x :: x in items <==> x in list || x in rest
    {
      var x :| x in rest;
      list, rest := list + [x], rest - {x};
    }
  }

  predicate Inside(closure: set<Ref>, r: Relation) {
    r.parent in closure && r.child in closure
  }

  function RelationsInside(closure: set<Ref>, relations: seq<Relation>): seq<Relation> {
    Filter(r => Inside(closure, r), relations)
  }

  function AccessesInside(closure: set<Ref>, accesses: seq<Access>): seq<Access> {
    Filter((access: Access) => access.ref in closure, accesses)
  }

  predicate CoversProviders(snapshot: Snapshot, latest: GoldenVersion) {
    var names := set p | p in snapshot.providers :: p.name;
    names == {} || forall item :: item in latest.assignments ==> item.access.provider in names
  }

  /** The first of the versions with the highest number. */
  function Latest(previous: seq<GoldenVersion>): (latest: Option<GoldenVersion>)
    ensures latest.None? <==> previous == []
    ensures latest.Some? ==> latest.value in previous && forall v :: v in previous ==> v.version <= latest.value.version
  {
    if previous == [] then None
    else
      var rest, last := previous[..|previous| - 1], previous[|previous| - 1];
      assert previous == rest + [last];
      var best := Latest(rest);
      if best.None? || last.version > best.value.version then Some(last) else best
  }

  /** The version made of the snapshot; definitions, relations and models of an earlier version are kept. */
  function PromotedVersion(snapshot: Snapshot, previous: seq<GoldenVersion>, models: seq<ExpectedModel>,
                           policy: Option<string>, selected: set<Ref>): GoldenVersion
  {
    var latest := Latest(previous);
    GoldenVersion(
      NextVersion(previous),
      "promoted_observed_snapshot",
      set item | item in GoldenAssignments(snapshot),
      2,
      if latest.Some? && latest.value.definitions != [] then latest.value.definitions
      else AccessesInside(selected, snapshot.accesses),
      if latest.Some? && latest.value.relations != [] then latest.value.relations
      else RelationsInside(selected, snapshot.relations),
      if latest.Some? && latest.value.models != [] then latest.value.models else models,
      if latest.Some? then latest.value.comments else [],
      policy)
  }

  /** The latest version has assignments of a provider that the snapshot leaves out. */
  predicate DropsProviders(snapshot: Snapshot, previous: seq<GoldenVersion>) {
    var latest := Latest(previous);
    latest.Some? && !CoversProviders(snapshot, latest.value)
  }

  ghost predicate CanPromote(snapshot: Snapshot, previous: seq<GoldenVersion>) {
    && !snapshot.incomplete
    && !DropsProviders(snapshot, previous)
    && StableKeysDiffer(GoldenAssignments(snapshot))
  }

  /** The version that freezes the least closed set of accesses that holds the assigned ones. */
  ghost predicate Promotes(snapshot: Snapshot, previous: seq<GoldenVersion>, models: seq<ExpectedModel>,
                           policy: Option<string>, version: GoldenVersion)
  {
    exists closure ::
      && IsClosure(AssignedAccesses(snapshot), snapshot.relations, closure)
      && version == PromotedVersion(snapshot, previous, models, policy, closure)
  }

  /** The version with the highest number; of several the one listed first. */
  predicate IsLatest(previous: seq<GoldenVersion>, i: nat) {
    && i < |previous| && (forall j :: 0 <= j < |previous| ==> previous[j].version <= previous[i].version)
    && forall j :: 0 <= j < i ==> previous[j].version < previous[i].version
  }

  /**
   * Field by field what a promoted version has besides its assignments: its number and schema, what the latest version
   * defines, and from the snapshot what the latest version does not define.
   */
  ghost predicate InheritsFrom(v: GoldenVersion, snapshot: Snapshot, previous: seq<GoldenVersion>,
                               models: seq<ExpectedModel>, policy: Option<string>, closure: set<Ref>)
  {
    var definitions := Filter((access: Access) => access.ref in closure, snapshot.accesses);
    var relations := Filter((r: Relation) => r.parent in closure && r.child in closure, snapshot.relations);
    && v.sourceType == "promoted_observed_snapshot" && v.schemaVersion == 2 && v.policy == policy
    && (previous == [] ==>
          && v.version == 1 && v.definitions == definitions && v.relations == relations && v.models == models
          && v.comments == [])
    && forall i: nat :: IsLatest(previous, i) ==>
         && v.version == previous[i].version + 1 && v.comments == previous[i].comments
         && v.definitions == (if previous[i].definitions == [] then definitions else previous[i].definitions)
         && v.relations == (if previous[i].relations == [] then relations else previous[i].relations)
         && v.models == (if previous[i].models == [] then models else previous[i].models)
  }

  lemma {:induction false} LatestIs(previous: seq<GoldenVersion>, i: nat)
    requires IsLatest(previous, i)
    ensures Latest(previous) == Some(previous[i])
  {
    var n := |previous| - 1;
    assert previous == previous[..n] + [previous[n]];
    if i < n {
      LatestIs(previous[..n], i);
    } else if n > 0 {
      assert forall v :: v in previous[..n] ==> v.version < previous[n].version;
    }
  }

  lemma {:induction false} SomeIsLatest(previous: seq<GoldenVersion>) returns (i: nat)
    requires previous != []
    ensures IsLatest(previous, i)
  {
    var n := |previous| - 1;
    if n == 0 {
      i := 0;
    } else {
      i := SomeIsLatest(previous[..n]);
      assert forall j :: 0 <= j < n ==> previous[..n][j] == previous[j];
      if previous[n].version > previous[i].version {
        i := n;
      }
    }
  }

  lemma PromotedInherits(snapshot: Snapshot, previous: seq<GoldenVersion>, models: seq<ExpectedModel>,
                         policy: Option<string>, closure: set<Ref>)
    ensures InheritsFrom(PromotedVersion(snapshot, previous, models, policy, closure), snapshot, previous, models,
                         policy, closure)
  {
    var inside, both := (r: Relation) => Inside(closure, r), (r: Relation) => r.parent in closure && r.child in closure;
    SameFilter(inside, both, snapshot.relations);
    forall i: nat | IsLatest(previous, i)
      ensures Latest(previous) == Some(previous[i])
      ensures NextVersion(previous) == previous[i].version + 1
    {
      LatestIs(previous, i);
      assert previous[i] in previous;
    }
  }

  /** The golden form of an observed assignment: its names, with the native ids and the permission that are known. */
  predicate IsFormOf(item: GoldenAssignment, a: Assignment, accesses: map<Ref, Access>, identities: map<Ref, Identity>)
  {
    && item.access == a.access && item.identity == a.identity
    && item.accessNativeId == (if a.access in accesses && accesses[a.access].controlObject.Some?
                               then accesses[a.access].controlObject.value.nativeId else None)
    && item.accessPermission == (if a.access in accesses then accesses[a.access].permission else None)
    && item.identityNativeId == (if a.identity in identities then identities[a.identity].nativeId else None)
  }

  /** The assignments of the version are the golden forms of those observed, its definitions those of the closure. */
  ghost predicate IsFrozen(v: GoldenVersion, snapshot: Snapshot, previous: seq<GoldenVersion>,
                           models: seq<ExpectedModel>, policy: Option<string>)
  {
    && (forall item :: item in v.assignments
          <==> exists a :: a in snapshot.assignments && IsFormOf(item, a, AccessesByRef(snapshot.accesses),
                                                                 IdentitiesByRef(snapshot.identities)))
    && exists closure :: IsClosure((set a | a in snapshot.assignments :: a.access), snapshot.relations, closure)
                      && InheritsFrom(v, snapshot, previous, models, policy, closure)
  }

  lemma PromotedIsFrozen(v: GoldenVersion, snapshot: Snapshot, previous: seq<GoldenVersion>,
                         models: seq<ExpectedModel>, policy: Option<string>)
    requires Promotes(snapshot, previous, models, policy, v)
    ensures IsFrozen(v, snapshot, previous, models, policy)
  {
    var closure :| IsClosure(AssignedAccesses(snapshot), snapshot.relations, closure)
                && v == PromotedVersion(snapshot, previous, models, policy, closure);
    PromotedInherits(snapshot, previous, models, policy, closure);
    assert AssignedAccesses(snapshot) == set a | a in snapshot.assignments :: a.access;
    var accesses, identities := AccessesByRef(snapshot.accesses), IdentitiesByRef(snapshot.identities);
    forall item, a ensures IsFormOf(item, a, accesses, identities)
                      <==> item == GoldenAssignmentOf(a, accesses, identities) {
    }
    forall item | item in v.assignments ensures exists a :: a in snapshot.assignments
                                                         && IsFormOf(item, a, accesses, identities) {
      var i :| 0 <= i < |snapshot.assignments| && GoldenAssignments(snapshot)[i] == item;
      assert snapshot.assignments[i] in snapshot.assignments;
    }
    forall item, a | a in snapshot.assignments && IsFormOf(item, a, accesses, identities)
      ensures item in v.assignments
    {
      var i :| 0 <= i < |snapshot.assignments| && snapshot.assignments[i] == a;
      assert GoldenAssignments(snapshot)[i] == item;
    }
  }

  predicate NamesProviders(snapshot: Snapshot, latest: GoldenVersion) {
    snapshot.providers == []
    || forall item :: item in latest.assignments ==>
         exists p :: p in snapshot.providers && p.name == item.access.provider
  }

  /**
   * The collection is complete, the snapshot has every provider of the latest version or names none, and no two of its
   * assignments are the same by native id.
   */
  ghost predicate IsPromotable(snapshot: Snapshot, previous: seq<GoldenVersion>) {
    && !snapshot.incomplete
    && (forall i: nat :: IsLatest(previous, i) ==> NamesProviders(snapshot, previous[i]))
    && forall i, j :: 0 <= i < j < |snapshot.assignments| ==>
         !SameByNativeId(GoldenAssignments(snapshot)[i], GoldenAssignments(snapshot)[j])
  }

  lemma CoveringMeans(snapshot: Snapshot, previous: seq<GoldenVersion>)
    ensures DropsProviders(snapshot, previous)
       <==> exists i: nat :: IsLatest(previous, i) && !NamesProviders(snapshot, previous[i])
  {
    var names := set p | p in snapshot.providers :: p.name;
    if snapshot.providers != [] {
      assert snapshot.providers[0].name in names;
    }
    if previous != [] {
      var i := SomeIsLatest(previous);
      LatestIs(previous, i);
    }
    forall i: nat | IsLatest(previous, i) ensures Latest(previous) == Some(previous[i]) {
      LatestIs(previous, i);
    }
  }

  lemma DifferingMeans(items: seq<GoldenAssignment>)
    ensures StableKeysDiffer(items) <==> forall i, j :: 0 <= i < j < |items| ==> !SameByNativeId(items[i], items[j])
  {
    forall i, j | 0 <= i < j < |items|
      ensures SameByNativeId(items[i], items[j])
         <==> (HasStableKey(items[i]) && HasStableKey(items[j]) && StableKeyOf(items[i]) == StableKeyOf(items[j]))
    {
      SameStableKeyMeansSame(items[i], items[j]);
    }
  }

  lemma PromotableMeans(snapshot: Snapshot, previous: seq<GoldenVersion>)
    ensures CanPromote(snapshot, previous) <==> IsPromotable(snapshot, previous)
  {
    CoveringMeans(snapshot, previous);
    DifferingMeans(GoldenAssignments(snapshot));
  }

  method ObjectTo(snapshot: Snapshot, previous: seq<GoldenVersion>) returns (objection: Option<string>)
    ensures objection.None? <==> CanPromote(snapshot, previous)
  {
    if snapshot.incomplete {
      return Some("Cannot promote a scoped or incomplete snapshot to Golden Source");
    }
    if DropsProviders(snapshot, previous) {
      return Some("Cannot promote provider-scoped snapshot over a Golden Source containing other providers");
    }
    var items := ObserveAssignments(snapshot);
    var accepted := RejectDuplicateStableKeys(items);
    if !accepted {
      return Some("Golden Source contains duplicate stable assignment key");
    }
    return None;
  }

  method FreezeSnapshot(snapshot: Snapshot, previous: seq<GoldenVersion>, models: seq<ExpectedModel>,
                        policy: Option<string>)
    returns (version: GoldenVersion)
    ensures Promotes(snapshot, previous, models, policy, version)
  {
    var selected := SelectAccesses(AssignedAccesses(snapshot), snapshot.relations);
    version := PromotedVersion(snapshot, previous, models, policy, selected);
  }

  /** The next version from a complete snapshot, unless it would drop another provider or repeat a stable key. */
  method PromoteSnapshot(snapshot: Snapshot, previous: seq<GoldenVersion>, models: seq<ExpectedModel>,
                         policy: Option<string>)
    returns (version: Result<GoldenVersion>)
    ensures version.Ok? <==> CanPromote(snapshot, previous)
    ensures version.Ok? ==> Promotes(snapshot, previous, models, policy, version.value)
    ensures version.Ok? <==> IsPromotable(snapshot, previous)
    ensures version.Ok? ==> IsFrozen(version.value, snapshot, previous, models, policy)
  {
    PromotableMeans(snapshot, previous);
    var objection := ObjectTo(snapshot, previous);
    if objection.Some? {
      return Error(objection.value);
    }
    var frozen := FreezeSnapshot(snapshot, previous, models, policy);
    PromotedIsFrozen(frozen, snapshot, previous, models, policy);
    return Ok(frozen);
  }

  method ObserveAssignments(snapshot: Snapshot) returns (items: seq<GoldenAssignment>)
    ensures items == GoldenAssignments(snapshot)
  {
    var accesses, identities := AccessesByRef(snapshot.accesses), IdentitiesByRef(snapshot.identities);
    items := [];
    for i := 0 to |snapshot.assignments|
      invariant items == GoldenAssignments(snapshot)[..i]
    {
      items := items + [GoldenAssignmentOf(snapshot.assignments[i], accesses, identities)];
    }
  }

  // ----- Freezing preserves effective accesses -----

  ghost predicate SameOutgoing(graph: seq<Relation>, inner: seq<Relation>, closure: set<Ref>) {
    forall p :: p in closure ==> Outgoing(graph, p) == Outgoing(inner, p)
  }

  ghost predicate EndsInside(a: Assignment, pending: seq<Walk>, closure: set<Ref>) {
    forall w :: w in pending ==> End(a.access, w) in closure
  }

  lemma {:induction false} ChildrenAgree(a: Assignment, limit: nat, w: Walk, children: seq<Relation>, s: Search,
                                         t: Search,
                                         closure: set<Ref>)
    requires s.pending == t.pending && s.results == t.results && EndsInside(a, s.pending, closure)
    requires forall r :: r in children ==> r.child in closure
    ensures var s', t' := VisitChildren(a, limit, w, children, s), VisitChildren(a, limit, w, children, t);
            s'.pending == t'.pending && s'.results == t'.results && EndsInside(a, s'.pending, closure)
  {
    if children != [] {
      var k := |children| - 1;
      ChainExtends(a.access, w, children[k]);
      ChildrenAgree(a, limit, w, children[..k], VisitChild(a, limit, w, children[k], s),
                    VisitChild(a, limit, w, children[k], t), closure);
    }
  }

  lemma {:induction false} DrainsAgree(graph: seq<Relation>, inner: seq<Relation>, closure: set<Ref>, a: Assignment,
                                       limit: nat, s: Search, t: Search)
    requires s.pending == t.pending && s.results == t.results && EndsInside(a, s.pending, closure)
    requires Searchable(graph, a, s) && Searchable(inner, a, t)
    requires SameOutgoing(graph, inner, closure) && ClosedUnder(closure, graph)
    ensures Drain(graph, a, limit, s).results == Drain(inner, a, limit, t).results
    decreases Weight(|graph|, s.pending)
  {
    if s.pending != [] {
      var k := |s.pending| - 1;
      var w := s.pending[k];
      OutgoingAreThose(graph, End(a.access, w));
      ChildrenAgree(a, limit, w, Outgoing(graph, End(a.access, w)), s.(pending := s.pending[..k]),
                    t.(pending := t.pending[..k]), closure);
      ExpandShrinks(graph, a, limit, s);
      ExpandShrinks(inner, a, limit, t);
      DrainsAgree(graph, inner, closure, a, limit, Expand(graph, a, limit, s), Expand(inner, a, limit, t));
    }
  }

  lemma {:induction false} ExplorationsAgree(graph: seq<Relation>, inner: seq<Relation>, closure: set<Ref>,
                                             assignments: seq<Assignment>, catalogue: Catalogue,
                                             innerCatalogue: Catalogue,
                                             limit: nat, e: Evaluation, f: Evaluation)
    requires e.results == f.results && SameOutgoing(graph, inner, closure) && ClosedUnder(closure, graph)
    requires forall a :: a in assignments ==>
               a.access in closure && (Known(catalogue, a.access) <==> Known(innerCatalogue, a.access))
    ensures ExploreAll(graph, assignments, catalogue, limit, e).results
         == ExploreAll(inner, assignments, innerCatalogue, limit, f).results
  {
    if assignments != [] {
      var k := |assignments| - 1;
      var a := assignments[k];
      ExplorationsAgree(graph, inner, closure, assignments[..k], catalogue, innerCatalogue, limit, e, f);
      if Known(catalogue, a.access) {
        EmptyWalkIsSimple(graph, a.access);
        EmptyWalkIsSimple(inner, a.access);
        DrainsAgree(graph, inner, closure, a, limit,
                    StartSearch(a, ExploreAll(graph, assignments[..k], catalogue, limit, e)),
                    StartSearch(a, ExploreAll(inner, assignments[..k], innerCatalogue, limit, f)));
      }
    }
  }

  function Taken(catalogue: set<Ref>, rest: seq<Relation>, r: Relation): seq<Relation> {
    if Admissible(Some(catalogue), r) && RelationKey(r) !in SeenKeys(rest) then [r] else []
  }

  lemma TakenInside(closure: set<Ref>, rest: seq<Relation>, r: Relation, catalogue: set<Ref>)
    requires Inside(closure, r)
    ensures Taken(catalogue * closure, RelationsInside(closure, rest), r) == Taken(catalogue, rest, r)
  {
    SeenInside(closure, rest, r);
  }

  lemma AppendInside(closure: set<Ref>, kept: seq<Relation>, r: Relation, more: seq<Relation>)
    requires more == [] || more == [r]
    ensures RelationsInside(closure, kept + more)
         == RelationsInside(closure, kept) + if Inside(closure, r) then more else []
  {
    if more == [] {
      assert kept + [] == kept;
    } else {
      FilterAppend(closure, kept, r);
    }
  }

  lemma AdmitTakes(rest: seq<Relation>, r: Relation, catalogue: set<Ref>)
    ensures Admit(rest + [r], Some(catalogue)) == Admit(rest, Some(catalogue)) + Taken(catalogue, rest, r)
  {
    AdmitAppend(rest, r, Some(catalogue));
  }

  lemma AdmitOneInside(closure: set<Ref>, rest: seq<Relation>, r: Relation, catalogue: set<Ref>, inner: set<Ref>)
    requires inner == catalogue * closure
    requires Admit(RelationsInside(closure, rest), Some(inner))
          == RelationsInside(closure, Admit(rest, Some(catalogue)))
    ensures Admit(RelationsInside(closure, rest + [r]), Some(inner))
         == RelationsInside(closure, Admit(rest + [r], Some(catalogue)))
  {
    var kept := RelationsInside(closure, rest);
    AdmitTakes(rest, r, catalogue);
    AppendInside(closure, Admit(rest, Some(catalogue)), r, Taken(catalogue, rest, r));
    AppendInside(closure, rest, r, [r]);
    if Inside(closure, r) {
      TakenInside(closure, rest, r, catalogue);
      AdmitTakes(kept, r, inner);
    } else {
      assert kept + [] == kept;
    }
  }

  lemma NothingInside(closure: set<Ref>, catalogue: set<Ref>, inner: set<Ref>)
    ensures Admit(RelationsInside(closure, []), Some(inner)) == RelationsInside(closure, Admit([], Some(catalogue)))
  {
  }

  lemma {:induction false} AdmitInside(closure: set<Ref>, sorted: seq<Relation>, catalogue: set<Ref>, inner: set<Ref>)
    requires inner == catalogue * closure
    ensures Admit(RelationsInside(closure, sorted), Some(inner))
         == RelationsInside(closure, Admit(sorted, Some(catalogue)))
  {
    if sorted == [] {
      NothingInside(closure, catalogue, inner);
    } else {
      var rest, r := sorted[..|sorted| - 1], sorted[|sorted| - 1];
      assert sorted == rest + [r];
      AdmitInside(closure, rest, catalogue, inner);
      AdmitOneInside(closure, rest, r, catalogue, inner);
    }
  }

  lemma FilterAppend(closure: set<Ref>, rest: seq<Relation>, r: Relation)
    ensures RelationsInside(closure, rest + [r])
         == RelationsInside(closure, rest) + if Inside(closure, r) then [r] else []
  {
    var keep := (r: Relation) => Inside(closure, r);
    FilterConcat(keep, rest, [r]);
  }

  lemma SeenInside(closure: set<Ref>, rest: seq<Relation>, r: Relation)
    requires Inside(closure, r)
    ensures RelationKey(r) in SeenKeys(rest) <==> RelationKey(r) in SeenKeys(RelationsInside(closure, rest))
  {
    var keep := (r: Relation) => Inside(closure, r);
    if RelationKey(r) in SeenKeys(rest) {
      var p :| p in rest && p.kind == GRANTS && RelationKey(p) == RelationKey(r);
      SameKeySameEnds(p, r);
      FilterMember(keep, rest, p);
    }
    if RelationKey(r) in SeenKeys(RelationsInside(closure, rest)) {
      var p :| p in RelationsInside(closure, rest) && p.kind == GRANTS && RelationKey(p) == RelationKey(r);
      FilterMember(keep, rest, p);
    }
  }

  lemma {:induction false} OutgoingInside(closure: set<Ref>, graph: seq<Relation>, parent: Ref)
    requires parent in closure && ClosedUnder(closure, graph)
    ensures Outgoing(RelationsInside(closure, graph), parent) == Outgoing(graph, parent)
  {
    if graph != [] {
      var k := |graph| - 1;
      var rest, r := graph[..k], graph[k];
      assert graph == rest + [r];
      OutgoingInside(closure, rest, parent);
      FilterAppend(closure, rest, r);
      OutgoingAppend(rest, r, parent);
      if Inside(closure, r) {
        OutgoingAppend(RelationsInside(closure, rest), r, parent);
      } else {
        assert RelationsInside(closure, graph) == RelationsInside(closure, rest);
      }
    }
  }

  /**
   * Restricting relations and catalogue to a set that contains the assigned accesses and is closed under the
   * relations changes no effective access, no direct mark, no path and no order of paths.
   */
  lemma RestrictionPreservesEffectiveAccess(assignments: seq<Assignment>, relations: seq<Relation>, catalogue: set<Ref>,
                                            closure: set<Ref>, limit: nat)
    requires ClosedUnder(closure, relations) && forall a :: a in assignments ==> a.access in closure
    ensures Evaluate(assignments, relations, Some(catalogue), limit).results
         == Evaluate(assignments, RelationsInside(closure, relations), Some(catalogue * closure), limit).results
  {
    var sorted := SortBy(RelationKey, relations);
    var kept := RelationsInside(closure, relations);
    var graph, inner := GraphOf(relations, Some(catalogue)), GraphOf(kept, Some(catalogue * closure));
    FilterCommutesWithSort(RelationKey, (r: Relation) => Inside(closure, r), relations);
    assert SortBy(RelationKey, kept) == RelationsInside(closure, sorted);
    AdmitInside(closure, sorted, catalogue, catalogue * closure);
    assert inner == RelationsInside(closure, graph);
    forall r | r in graph && r.parent in closure ensures r.child in closure {
      SortMember(RelationKey, relations, r);
      AdmitMember(sorted, Some(catalogue), r);
    }
    forall p | p in closure ensures Outgoing(graph, p) == Outgoing(inner, p) {
      OutgoingInside(closure, graph, p);
    }
    var ordered := SortBy(AssignmentKey, assignments);
    forall a | a in ordered ensures a.access in closure {
      SortMember(AssignmentKey, assignments, a);
    }
    ExplorationsAgree(graph, inner, closure, ordered, Some(catalogue), Some(catalogue * closure), limit,
                      Evaluation(map[], RelationDiagnostics(sorted, Some(catalogue))),
                      Evaluation(map[], RelationDiagnostics(SortBy(RelationKey, kept), Some(catalogue * closure))));
  }

  lemma {:induction false} AdmitMember(sorted: seq<Relation>, catalogue: Catalogue, r: Relation)
    ensures r in Admit(sorted, catalogue) ==> r in sorted
  {
    if sorted != [] {
      AdmitMember(sorted[..|sorted| - 1], catalogue, r);
    }
  }

  lemma RefsInside(closure: set<Ref>, accesses: seq<Access>)
    ensures AccessRefs(AccessesInside(closure, accesses)) == AccessRefs(accesses) * closure
  {
    var keep := (access: Access) => access.ref in closure;
    forall access ensures access in AccessesInside(closure, accesses) <==> access in accesses && access.ref in closure {
      FilterMember(keep, accesses, access);
    }
  }

  /**
   * A first promoted version explains the snapshot: its frozen definitions and relations give every
   * identity the same effective accesses, with the same paths in the same order, as the whole snapshot.
   */
  lemma FreezingPreservesEffectiveAccess(snapshot: Snapshot, models: seq<ExpectedModel>, policy: Option<string>,
                                         closure: set<Ref>, limit: nat)
    requires IsClosure(AssignedAccesses(snapshot), snapshot.relations, closure)
    ensures var version := PromotedVersion(snapshot, [], models, policy, closure);
            Evaluate(snapshot.assignments, version.relations, Some(AccessRefs(version.definitions)), limit).results
            == Evaluate(snapshot.assignments, snapshot.relations, Some(AccessRefs(snapshot.accesses)), limit).results
  {
    RefsInside(closure, snapshot.accesses);
    RestrictionPreservesEffectiveAccess(snapshot.assignments, snapshot.relations, AccessRefs(snapshot.accesses),
                                        closure, limit);
  }
}
