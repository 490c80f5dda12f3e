/** Composing the snapshots of several providers. */
module Composition {
  import opened Domain
  import opened Ordering
  import opened GrantGraph
  import E = EffectiveAccess
  import T = EffectiveAccessTheorems

  /** Case folding of texts; only equality of folded texts matters here. */
  type Folding = string -> string

  datatype GroupKey = GroupKey(provider: string, group: string)

  /** A relation is filed under its own key, or under its ends when composition derived it. */
  datatype RelationSlot = Imported(key: seq<string>) | Derived(parent: Ref, child: Ref)

  datatype Tables = Tables(
    providers: map<string, Provider>,
    identities: map<Ref, Identity>,
    accesses: map<Ref, Access>,
    assignments: map<seq<string>, Assignment>,
    relations: map<RelationSlot, Relation>)

  /** The rows of one kind of all snapshots, one snapshot after the other. */
  function AllOf<T>(of: Snapshot -> seq<T>, snapshots: seq<Snapshot>): seq<T> {
    if snapshots == [] then [] else of(snapshots[0]) + AllOf(of, snapshots[1..])
  }

  function ProvidersOf(s: Snapshot): seq<Provider> {
    s.providers
  }

  function IdentitiesOf(s: Snapshot): seq<Identity> {
    s.identities
  }

  function AccessesOf(s: Snapshot): seq<Access> {
    s.accesses
  }

  function AssignmentsOf(s: Snapshot): seq<Assignment> {
    s.assignments
  }

  function RelationsOf(s: Snapshot): seq<Relation> {
    s.relations
  }

  function Selected(snapshots: seq<Snapshot>, names: set<string>): seq<Snapshot> {
    Filter((s: Snapshot) => exists p :: p in s.providers && p.name in names, snapshots)
  }

  /** `{key(item): item for item in items}`: a later item replaces an earlier one. */
  function ByKey<K(==), T>(key: T -> K, items: seq<T>): map<K, T> {
    if items == [] then map[]
    else ByKey(key, items[..|items| - 1])[key(items[|items| - 1]) := items[|items| - 1]]
  }

  function ProviderName(p: Provider): string {
    p.name
  }

  function IdentityRef(identity: Identity): Ref {
    identity.ref
  }

  function AccessRef(access: Access): Ref {
    access.ref
  }

  function AssignmentKey(a: Assignment): seq<string> {
    [a.access.provider, a.access.name, a.identity.provider, a.identity.name, a.origin.fingerprint]
  }

  function RelationSlotOf(r: Relation): RelationSlot {
    Imported(E.RelationKey(r))
  }

  /** The union of the selected snapshots, restricted to the requested providers; later rows replace earlier ones. */
  function Union(selected: seq<Snapshot>, names: set<string>): Tables {
    var providers := ByKey(ProviderName, Filter((p: Provider) => p.name in names, AllOf(ProvidersOf, selected)));
    Tables(
      providers,
      ByKey(IdentityRef, Filter((i: Identity) => i.ref.provider in providers, AllOf(IdentitiesOf, selected))),
      ByKey(AccessRef, Filter((a: Access) => a.ref.provider in providers, AllOf(AccessesOf, selected))),
      ByKey(AssignmentKey, Filter((a: Assignment) => a.access.provider in providers, AllOf(AssignmentsOf, selected))),
      ByKey(RelationSlotOf, Filter((r: Relation) => r.parent.provider in providers && r.child.provider in providers,
                                   AllOf(RelationsOf, selected))))
  }

  function FirstIdentity(items: seq<Identity>, ref: Ref): (found: Option<Identity>)
    ensures found.Some? ==> found.value in items && found.value.ref == ref
    ensures found.None? ==> forall i :: i in items ==> i.ref != ref
  {
    if items == [] then None
    else if items[0].ref == ref then Some(items[0])
    else FirstIdentity(items[1..], ref)
  }

  /** The identities of the union, and those of other providers that an assignment refers to. */
  ghost predicate IsBackfilled(t: Tables, selected: seq<Snapshot>, identities: map<Ref, Identity>) {
    && (forall ref :: ref in t.identities ==> ref in identities && identities[ref] == t.identities[ref])
    && (forall ref :: ref in identities && ref !in t.identities ==>
          && FirstIdentity(AllOf(IdentitiesOf, selected), ref) == Some(identities[ref])
          && exists k :: k in t.assignments && t.assignments[k].identity == ref)
    && (forall k :: k in t.assignments && t.assignments[k].identity !in identities ==>
          FirstIdentity(AllOf(IdentitiesOf, selected), t.assignments[k].identity).None?)
  }

  method BackfillIdentities(t: Tables, selected: seq<Snapshot>) returns (identities: map<Ref, Identity>)
    ensures IsBackfilled(t, selected, identities)
  {
    identities := t.identities;
    var all, rest := AllOf(IdentitiesOf, selected), t.assignments.Keys;
    while rest != {}
      invariant rest <= t.assignments.Keys
      invariant forall ref :: ref in t.identities ==> ref in identities && identities[ref] == t.identities[ref]
      invariant forall ref :: ref in identities && ref !in t.identities ==>
                  && FirstIdentity(all, ref) == Some(identities[ref])
                  && exists k :: k in t.assignments && t.assignments[k].identity == ref
      invariant forall k :: k in t.assignments && k !in rest && t.assignments[k].identity !in identities ==>
                  FirstIdentity(all, t.assignments[k].identity).None?
    {
      var k :| k in rest;
      rest := rest - {k};
      var ref := t.assignments[k].identity;
      if ref !in identities {
        var found := FirstIdentity(all, ref);
        if found.Some? {
          identities := identities[ref := found.value];
        }
      }
    }
  }

  // ----- Principals -----

  function ColonAt(text: string): (at: Option<nat>)
    ensures at.Some? ==> at.value < |text| && text[at.value] == ':' && ':' !in text[..at.value]
    ensures at.None? ==> ':' !in text
  {
    if text == "" then None
    else if text[0] == ':' then Some(0)
    else
      var later := ColonAt(text[1..]);
      assert text == [text[0]] + text[1..];
      if later.Some? then
        assert text[..later.value + 1] == [text[0]] + text[1..][..later.value];
        Some(later.value + 1)
      else None
  }

  function IdentityKind(principalKind: string): Option<string> {
    if principalKind == "user" then Some("user_account")
    else if principalKind == "group" then Some("group")
    else if principalKind == "serviceAccount" then Some("technical_account")
    else None
  }

  function PreferredProviderKind(principalKind: string): string {
    if principalKind in {"user", "group"} then "google_workspace" else "gcp_iam"
  }

  predicate IsKnownAs(fold: Folding, identity: Identity, wanted: string) {
    || fold(identity.ref.name) == wanted
    || (identity.email.Some? && fold(identity.email.value) == wanted)
    || (identity.email.None? && fold("") == wanted)
    || exists alias :: alias in identity.aliases && fold(alias) == wanted
  }

  /** The identities that a principal may stand for, by reference. */
  function Candidates(fold: Folding, t: Tables, identities: map<Ref, Identity>, kind: string, name: string): set<Ref>
    requires IdentityKind(kind).Some?
  {
    set ref | ref in identities && !identities[ref].unresolved && identities[ref].kind == IdentityKind(kind).value
           && IsKnownAs(fold, identities[ref], fold(name))
           && ref.provider in t.providers && t.providers[ref.provider].kind == PreferredProviderKind(kind)
  }

  /** An unresolved principal is pointed at the one identity it can stand for; two candidates mark it ambiguous. */
  function Resolve(fold: Folding, t: Tables, identities: map<Ref, Identity>, a: Assignment): Assignment {
    if !a.origin.unresolved || a.origin.principal.None? then a
    else
      var colon := ColonAt(a.origin.principal.value);
      if colon.None? || IdentityKind(a.origin.principal.value[..colon.value]).None? then a
      else
        var kind, name := a.origin.principal.value[..colon.value], a.origin.principal.value[colon.value + 1..];
        var candidates := Candidates(fold, t, identities, kind, name);
        if |candidates| > 1 then a.(origin := a.origin.(fingerprint := "ambiguous:" + a.origin.fingerprint))
        else if ref :| ref in candidates && candidates == {ref} then
          a.(identity := ref, origin := a.origin.(fingerprint := "resolved:" + a.origin.fingerprint))
        else a
  }

  /** Every assignment is there in resolved form, filed under the key of that form. */
  ghost predicate IsResolved(fold: Folding, t: Tables, identities: map<Ref, Identity>,
                             resolved: map<seq<string>, Assignment>)
  {
    && (forall k :: k in t.assignments ==> AssignmentKey(Resolve(fold, t, identities, t.assignments[k])) in resolved)
    && (forall k :: k in resolved ==>
          exists o :: o in t.assignments && resolved[k] == Resolve(fold, t, identities, t.assignments[o])
                   && k == AssignmentKey(resolved[k]))
  }

  method ResolveAssignments(fold: Folding, t: Tables, identities: map<Ref, Identity>)
    returns (resolved: map<seq<string>, Assignment>)
    ensures IsResolved(fold, t, identities, resolved)
  {
    resolved := map[];
    var rest := t.assignments.Keys;
    while rest != {}
      invariant rest <= t.assignments.Keys
      invariant forall k :: k in t.assignments && k !in rest ==>
                  AssignmentKey(Resolve(fold, t, identities, t.assignments[k])) in resolved
      invariant forall k :: k in resolved ==>
                  exists o :: o in t.assignments && resolved[k] == Resolve(fold, t, identities, t.assignments[o])
                           && k == AssignmentKey(resolved[k])
    {
      var o :| o in rest;
      rest := rest - {o};
      var a := Resolve(fold, t, identities, t.assignments[o]);
      resolved := resolved[AssignmentKey(a) := a];
    }
  }

  // ----- Cross-provider grants -----

  predicate IsMember(access: Access) {
    "membership_role" in access.metadata && access.metadata["membership_role"] == "MEMBER"
  }

  function GroupOf(fold: Folding, access: Access): GroupKey {
    GroupKey(access.ref.provider,
             fold(if "source_group" in access.metadata then access.metadata["source_group"] else ""))
  }

  /** The assignment of an access of one provider to a group of another. */
  predicate IsCrossProvider(t: Tables, a: Assignment) {
    a.access.provider != a.identity.provider && a.identity.provider in t.providers
  }

  function HolderGroup(fold: Folding, a: Assignment): GroupKey {
    GroupKey(a.identity.provider, fold(a.identity.name))
  }

  predicate IsMemberAccessOf(fold: Folding, t: Tables, access: Access, group: GroupKey) {
    access.ref in t.accesses && t.accesses[access.ref] == access && IsMember(access) && GroupOf(fold, access) == group
  }

  /** Some group access of each group; groups without one are absent. */
  ghost predicate IsGroupIndex(fold: Folding, t: Tables, index: map<GroupKey, Access>) {
    && (forall g :: g in index ==> IsMemberAccessOf(fold, t, index[g], g))
    && (forall ref :: ref in t.accesses && IsMember(t.accesses[ref]) ==> GroupOf(fold, t.accesses[ref]) in index)
  }

  method IndexGroups(fold: Folding, t: Tables) returns (index: map<GroupKey, Access>)
    requires forall ref :: ref in t.accesses ==> t.accesses[ref].ref == ref
    ensures IsGroupIndex(fold, t, index)
  {
    index := map[];
    var rest := t.accesses.Keys;
    while rest != {}
      invariant rest <= t.accesses.Keys
      invariant forall g :: g in index ==> IsMemberAccessOf(fold, t, index[g], g)
      invariant forall ref :: ref in t.accesses && ref !in rest && IsMember(t.accesses[ref]) ==>
                  GroupOf(fold, t.accesses[ref]) in index
    {
      var ref :| ref in rest;
      rest := rest - {ref};
      var access := t.accesses[ref];
      if IsMember(access) {
        index := index[GroupOf(fold, access) := access];
      }
    }
  }

  function DerivedRelation(parent: Ref, child: Ref): Relation {
    var name := parent.provider + "|" + parent.name + "|" + child.provider + "|" + child.name;
    Relation(parent, child, GRANTS, Origin("composite", None, false, None, false), "derived-cross-provider:" + name)
  }

  /** An assignment to a group whose membership access is indexed causes the grant from that access. */
  predicate Causes(fold: Folding, t: Tables, index: map<GroupKey, Access>, a: Assignment, slot: RelationSlot) {
    && IsCrossProvider(t, a) && HolderGroup(fold, a) in index
    && slot == Derived(index[HolderGroup(fold, a)].ref, a.access)
  }

  ghost predicate IsExtended(fold: Folding, t: Tables, index: map<GroupKey, Access>,
                             resolved: map<seq<string>, Assignment>,
                             relations: map<RelationSlot, Relation>)
  {
    && (forall slot :: slot in t.relations ==> slot in relations && relations[slot] == t.relations[slot])
    && (forall slot :: slot in relations && slot !in t.relations ==>
          && slot.Derived? && relations[slot] == DerivedRelation(slot.parent, slot.child)
          && exists k :: k in resolved && Causes(fold, t, index, resolved[k], slot))
    && (forall k, slot :: k in resolved && Causes(fold, t, index, resolved[k], slot) ==> slot in relations)
  }

  method DeriveGrants(fold: Folding, t: Tables, index: map<GroupKey, Access>, resolved: map<seq<string>, Assignment>)
    returns (relations: map<RelationSlot, Relation>)
    requires forall slot :: slot in t.relations ==> slot.Imported?
    ensures IsExtended(fold, t, index, resolved, relations)
  {
    relations := t.relations;
    var rest := resolved.Keys;
    while rest != {}
      invariant rest <= resolved.Keys
      invariant forall slot :: slot in t.relations ==> slot in relations && relations[slot] == t.relations[slot]
      invariant forall slot :: slot in relations && slot !in t.relations ==>
                  && slot.Derived? && relations[slot] == DerivedRelation(slot.parent, slot.child)
                  && exists k :: k in resolved && Causes(fold, t, index, resolved[k], slot)
      invariant forall k, slot :: k in resolved && k !in rest && Causes(fold, t, index, resolved[k], slot) ==>
                  slot in relations
    {
      var k :| k in rest;
      rest := rest - {k};
      var a := resolved[k];
      if IsCrossProvider(t, a) && HolderGroup(fold, a) in index {
        var parent := index[HolderGroup(fold, a)].ref;
        assert Causes(fold, t, index, a, Derived(parent, a.access));
        relations := relations[Derived(parent, a.access) := DerivedRelation(parent, a.access)];
      }
    }
  }

  // ----- The whole composition -----

  /** Accesses are filed under their own reference, and only imported relations are in the union. */
  predicate IsUnion(u: Tables) {
    && (forall ref :: ref in u.accesses ==> u.accesses[ref].ref == ref)
    && (forall slot :: slot in u.relations ==> slot.Imported?)
  }

  ghost predicate IsComposition(fold: Folding, selected: seq<Snapshot>, u: Tables, c: Tables) {
    && IsUnion(u) && c.providers == u.providers && c.accesses == u.accesses
    && IsBackfilled(u, selected, c.identities)
    && IsResolved(fold, u, c.identities, c.assignments)
    && exists index :: IsGroupIndex(fold, u, index) && IsExtended(fold, u, index, c.assignments, c.relations)
  }

  lemma {:induction false} FiledUnderKeys<K, T>(key: T -> K, items: seq<T>)
    ensures forall k :: k in ByKey(key, items) ==> key(ByKey(key, items)[k]) == k
  {
    if items != [] {
      FiledUnderKeys(key, items[..|items| - 1]);
    }
  }

  lemma UnionIsUnion(selected: seq<Snapshot>, names: set<string>)
    ensures IsUnion(Union(selected, names))
  {
    var u := Union(selected, names);
    FiledUnderKeys(AccessRef, Filter((a: Access) => a.ref.provider in u.providers, AllOf(AccessesOf, selected)));
    FiledUnderKeys(RelationSlotOf,
                   Filter((r: Relation) => r.parent.provider in u.providers && r.child.provider in u.providers,
                          AllOf(RelationsOf, selected)));
  }

  lemma SomeIsSelected(snapshots: seq<Snapshot>, names: set<string>)
    ensures Selected(snapshots, names) != [] <==> exists s, p :: s in snapshots && p in s.providers && p.name in names
  {
    var has := (s: Snapshot) => exists p :: p in s.providers && p.name in names;
    var selected := Selected(snapshots, names);
    if selected != [] {
      FilterMember(has, snapshots, selected[0]);
    }
    if s, p :| s in snapshots && p in s.providers && p.name in names {
      FilterMember(has, snapshots, s);
    }
  }

  method Compose(fold: Folding, snapshots: seq<Snapshot>, names: set<string>) returns (c: Result<Tables>)
    ensures c.Ok? <==> exists s, p :: s in snapshots && p in s.providers && p.name in names
    ensures c.Ok? ==> IsComposition(fold, Selected(snapshots, names), Union(Selected(snapshots, names), names), c.value)
  {
    var selected := Selected(snapshots, names);
    SomeIsSelected(snapshots, names);
    if selected == [] {
      return Error("No snapshot is available for the requested providers");
    }
    var u := Union(selected, names);
    UnionIsUnion(selected, names);
    var identities := BackfillIdentities(u, selected);
    var resolved := ResolveAssignments(fold, u, identities);
    var index := IndexGroups(fold, u);
    var relations := DeriveGrants(fold, u, index, resolved);
    return Ok(Tables(u.providers, identities, u.accesses, resolved, relations));
  }

  // ----- Theorems -----

  ghost predicate OneMemberAccessPerGroup(fold: Folding, c: Tables) {
    forall x, y, g :: IsMemberAccessOf(fold, c, x, g) && IsMemberAccessOf(fold, c, y, g) ==> x == y
  }

  /** The lists that the composed snapshot is built from, in whatever order. */
  ghost predicate Lists(c: Tables, assignments: seq<Assignment>, relations: seq<Relation>) {
    && (forall a :: a in assignments <==> exists k :: k in c.assignments && c.assignments[k] == a)
    && (forall r :: r in relations <==> exists slot :: slot in c.relations && c.relations[slot] == r)
  }

  /** The composition contains the grant from a group's membership access to what the group was assigned. */
  lemma CloudGrantIsDerived(fold: Folding, selected: seq<Snapshot>, u: Tables, c: Tables, k: seq<string>,
                            access: Access)
    requires IsComposition(fold, selected, u, c) && OneMemberAccessPerGroup(fold, c)
    requires k in c.assignments && IsCrossProvider(c, c.assignments[k])
    requires IsMemberAccessOf(fold, c, access, HolderGroup(fold, c.assignments[k]))
    ensures var slot := Derived(access.ref, c.assignments[k].access);
            slot in c.relations && c.relations[slot] == DerivedRelation(access.ref, c.assignments[k].access)
  {
    var group := HolderGroup(fold, c.assignments[k]);
    var index :| IsGroupIndex(fold, u, index) && IsExtended(fold, u, index, c.assignments, c.relations);
    assert IsMemberAccessOf(fold, u, access, group);
    assert group in index && IsMemberAccessOf(fold, c, index[group], group);
    assert Causes(fold, u, index, c.assignments[k], Derived(access.ref, c.assignments[k].access));
  }

  /**
   * Every identity that directly holds the membership access of a group is an effective holder of each
   * catalogued access that an assignment of another provider gives to that group.
   */
  lemma MembersHoldCloudAccesses(fold: Folding, selected: seq<Snapshot>, u: Tables, c: Tables,
                                 assignments: seq<Assignment>, relations: seq<Relation>, limit: nat,
                                 cloud: Assignment, membership: Assignment)
    requires IsComposition(fold, selected, u, c) && OneMemberAccessPerGroup(fold, c) && Lists(c, assignments, relations)
    requires limit >= 1 && cloud in assignments && IsCrossProvider(c, cloud) && cloud.access in c.accesses
    requires membership in assignments && membership.access in c.accesses
    requires IsMemberAccessOf(fold, c, c.accesses[membership.access], HolderGroup(fold, cloud))
    ensures E.Holding(membership.identity, cloud.access)
         in E.Evaluate(assignments, relations, Some(c.accesses.Keys), limit).results
  {
    var k :| k in c.assignments && c.assignments[k] == cloud;
    CloudGrantIsDerived(fold, selected, u, c, k, c.accesses[membership.access]);
    var r := DerivedRelation(membership.access, cloud.access);
    assert c.relations[Derived(membership.access, cloud.access)] == r;
    HeldThroughOneGrant(assignments, relations, c.accesses.Keys, limit, membership, r);
  }

  lemma HeldThroughOneGrant(assignments: seq<Assignment>, relations: seq<Relation>, catalogue: set<Ref>, limit: nat,
                            a: Assignment, r: Relation)
    requires limit >= 1 && a in assignments && r in relations && r.kind == GRANTS && r.parent == a.access
    requires r.parent in catalogue && r.child in catalogue
    ensures E.Holding(a.identity, r.child) in E.Evaluate(assignments, relations, Some(catalogue), limit).results
  {
    var grants := T.GrantRelations(relations, Some(catalogue));
    T.GrantRelationMember(relations, Some(catalogue), r);
    ReachesItself(grants, a.access);
    ReachesFurther(grants, a.access, r);
    assert a in T.Roots(assignments, Some(catalogue));
    T.EffectiveMeansReachable(assignments, relations, Some(catalogue), limit, E.Holding(a.identity, r.child));
  }

  /** The assignment gives the child access to the group whose membership access is the parent. */
  ghost predicate IsCause(fold: Folding, c: Tables, a: Assignment, parent: Ref, child: Ref) {
    && IsCrossProvider(c, a) && a.access == child && parent in c.accesses
    && IsMemberAccessOf(fold, c, c.accesses[parent], HolderGroup(fold, a))
  }

  /** Every relation that was not imported is caused by an assignment to the group of its parent access. */
  lemma DerivedGrantsHaveACause(fold: Folding, selected: seq<Snapshot>, u: Tables, c: Tables, slot: RelationSlot)
    requires IsComposition(fold, selected, u, c) && slot in c.relations && slot !in u.relations
    ensures slot.Derived? && c.relations[slot] == DerivedRelation(slot.parent, slot.child)
    ensures exists k :: k in c.assignments && IsCause(fold, c, c.assignments[k], slot.parent, slot.child)
  {
    var index :| IsGroupIndex(fold, u, index) && IsExtended(fold, u, index, c.assignments, c.relations);
    var k :| k in c.assignments && Causes(fold, u, index, c.assignments[k], slot);
    CausingIsCause(fold, u, index, c, c.assignments[k], slot);
  }

  lemma CausingIsCause(fold: Folding, u: Tables, index: map<GroupKey, Access>, c: Tables, a: Assignment,
                       slot: RelationSlot)
    requires IsGroupIndex(fold, u, index) && Causes(fold, u, index, a, slot)
    requires c.providers == u.providers && c.accesses == u.accesses
    ensures IsCause(fold, c, a, slot.parent, slot.child)
  {
    assert IsMemberAccessOf(fold, u, index[HolderGroup(fold, a)], HolderGroup(fold, a));
  }

  /** An unresolved group principal that can stand for one workspace group only is filed as that group's assignment. */
  lemma PrincipalIsResolved(fold: Folding, selected: seq<Snapshot>, u: Tables, c: Tables, key: seq<string>,
                            name: string, group: Ref)
    returns (filed: seq<string>)
    requires IsComposition(fold, selected, u, c) && key in u.assignments
    requires u.assignments[key].origin.unresolved && u.assignments[key].origin.principal == Some("group:" + name)
    requires Candidates(fold, u, c.identities, "group", name) == {group}
    ensures filed in c.assignments && c.assignments[filed].identity == group
    ensures c.assignments[filed].access == u.assignments[key].access
  {
    var resolved := Resolve(fold, u, c.identities, u.assignments[key]);
    OnlyCandidateIsChosen(fold, u, c.identities, u.assignments[key], name, group);
    filed := AssignmentKey(resolved);
    SameKeySameEnds(c.assignments[filed], resolved);
  }

  lemma OnlyCandidateIsChosen(fold: Folding, u: Tables, identities: map<Ref, Identity>, a: Assignment, name: string,
                              group: Ref)
    requires a.origin.unresolved && a.origin.principal == Some("group:" + name)
    requires Candidates(fold, u, identities, "group", name) == {group}
    ensures Resolve(fold, u, identities, a).identity == group && Resolve(fold, u, identities, a).access == a.access
  {
    GroupPrincipal(name);
    var candidates := Candidates(fold, u, identities, "group", name);
    assert group in candidates && |candidates| == 1;
  }

  /** Through such a principal the members of the group become effective holders of the cloud access. */
  lemma PrincipalReachesItsMembers(fold: Folding, selected: seq<Snapshot>, u: Tables, c: Tables,
                                   assignments: seq<Assignment>, relations: seq<Relation>, limit: nat,
                                   key: seq<string>, name: string, group: Ref, membership: Assignment)
    requires IsComposition(fold, selected, u, c) && OneMemberAccessPerGroup(fold, c) && Lists(c, assignments, relations)
    requires limit >= 1 && key in u.assignments
    requires u.assignments[key].origin.unresolved && u.assignments[key].origin.principal == Some("group:" + name)
    requires u.assignments[key].access in c.accesses && u.assignments[key].access.provider != group.provider
    requires Candidates(fold, u, c.identities, "group", name) == {group}
    requires membership in assignments && membership.access in c.accesses
    requires IsMemberAccessOf(fold, c, c.accesses[membership.access], GroupKey(group.provider, fold(group.name)))
    ensures E.Holding(membership.identity, u.assignments[key].access)
         in E.Evaluate(assignments, relations, Some(c.accesses.Keys), limit).results
  {
    assert group in Candidates(fold, u, c.identities, "group", name);
    var filed := PrincipalIsResolved(fold, selected, u, c, key, name, group);
    assert c.assignments[filed] in assignments;
    MembersHoldCloudAccesses(fold, selected, u, c, assignments, relations, limit, c.assignments[filed], membership);
  }

  lemma {:induction false} ColonAfter(prefix: string, rest: string)
    requires ':' !in prefix
    ensures ColonAt(prefix + [':'] + rest) == Some(|prefix|)
  {
    if prefix != "" {
      ColonAfter(prefix[1..], rest);
      assert (prefix + [':'] + rest)[1..] == prefix[1..] + [':'] + rest;
    }
  }

  lemma GroupPrincipal(name: string)
    ensures var text := "group:" + name;
            ColonAt(text) == Some(5) && text[..5] == "group" && text[6..] == name
  {
    ColonAfter("group", name);
    assert "group:" + name == "group" + [':'] + name;
  }

  lemma SameKeySameEnds(a: Assignment, b: Assignment)
    requires AssignmentKey(a) == AssignmentKey(b)
    ensures a.access == b.access && a.identity == b.identity
  {
    var x, y := AssignmentKey(a), AssignmentKey(b);
    assert x[0] == y[0] && x[1] == y[1] && x[2] == y[2] && x[3] == y[3];
  }
}
