/**
 * What a composed snapshot has, in terms of the snapshots it is composed of: its providers, accesses, identities and
 * relations, what becomes of each assignment, and which members a cloud assignment reaches.
 */
module CompositionTheorems {
  import opened Domain
  import opened Ordering
  import E = EffectiveAccess
  import opened Composition
  import opened CompositionOrigins

  /** What composing the snapshots for the requested providers gives. */
  ghost predicate IsComposed(fold: Folding, snapshots: seq<Snapshot>, names: set<string>, c: Tables) {
    IsComposition(fold, Selected(snapshots, names), Union(Selected(snapshots, names), names), c)
  }

  // ----- Providers, accesses and relations -----

  /** Exactly the requested providers that some snapshot has, each in its last version. */
  lemma ProvidersArrive(fold: Folding, snapshots: seq<Snapshot>, names: set<string>, c: Tables, p: Provider)
    requires IsComposed(fold, snapshots, names, c)
    ensures var rows := seq(|snapshots|, n requires 0 <= n < |snapshots| => snapshots[n].providers);
            && (p.name in c.providers <==> IsPresent(snapshots, names, p.name))
            && (p.name in c.providers && c.providers[p.name] == p
                <==> p.name in names && exists n, j :: IsKept(snapshots, names, rows, SameProvider, n, j)
                                                     && rows[n][j] == p)
  {
    ProvidersOfUnion(snapshots, names, p);
    PresentIsProvider(snapshots, names, p.name);
  }

  /** Exactly the accesses of present providers, each in its last version. */
  lemma AccessesArrive(fold: Folding, snapshots: seq<Snapshot>, names: set<string>, c: Tables, x: Access)
    requires IsComposed(fold, snapshots, names, c)
    ensures var rows := seq(|snapshots|, n requires 0 <= n < |snapshots| => snapshots[n].accesses);
            x.ref in c.accesses && c.accesses[x.ref] == x
            <==> IsPresent(snapshots, names, x.ref.provider)
                 && exists n, j :: IsKept(snapshots, names, rows, SameAccess, n, j) && rows[n][j] == x
  {
    AccessesOfUnion(snapshots, names, x);
  }

  /** Imported are exactly the relations between accesses of present providers, each in its last version. */
  lemma RelationsArrive(fold: Folding, snapshots: seq<Snapshot>, names: set<string>, c: Tables, r: Relation)
    requires IsComposed(fold, snapshots, names, c)
    ensures var rows := seq(|snapshots|, n requires 0 <= n < |snapshots| => snapshots[n].relations);
            (exists slot :: slot in c.relations && slot.Imported? && c.relations[slot] == r)
            <==> IsPresent(snapshots, names, r.parent.provider) && IsPresent(snapshots, names, r.child.provider)
                 && exists n, j :: IsKept(snapshots, names, rows, SameRelation, n, j) && rows[n][j] == r
  {
    var u := Union(Selected(snapshots, names), names);
    var index :| IsGroupIndex(fold, u, index) && IsExtended(fold, u, index, c.assignments, c.relations);
    RelationsOfUnion(snapshots, names, r);
    if slot :| slot in c.relations && slot.Imported? && c.relations[slot] == r {
      assert slot in u.relations && u.relations[slot] == r;
    }
    if RelationSlotOf(r) in u.relations && u.relations[RelationSlotOf(r)] == r {
      assert c.relations[RelationSlotOf(r)] == r;
    }
  }

  /**
   * The other relations are grants from the membership access of a group to an access of another provider that a
   * composed assignment gives to that group.
   */
  lemma DerivedComeFromGroups(fold: Folding, snapshots: seq<Snapshot>, names: set<string>, c: Tables,
                              slot: RelationSlot)
    requires IsComposed(fold, snapshots, names, c) && slot in c.relations && !slot.Imported?
    ensures var r := c.relations[slot];
            && r.kind == "grants" && r.parent in c.accesses && slot == Derived(r.parent, r.child)
            && "membership_role" in c.accesses[r.parent].metadata
            && c.accesses[r.parent].metadata["membership_role"] == "MEMBER"
            && exists k :: && k in c.assignments && c.assignments[k].access == r.child
                           && c.assignments[k].identity.provider == r.parent.provider != r.child.provider
                           && fold(SourceGroup(c.accesses[r.parent])) == fold(c.assignments[k].identity.name)
  {
    var u := Union(Selected(snapshots, names), names);
    assert slot !in u.relations;
    DerivedGrantsHaveACause(fold, Selected(snapshots, names), u, c, slot);
    var k :| k in c.assignments && IsCause(fold, c, c.assignments[k], slot.parent, slot.child);
    FiledUnderReference(fold, Selected(snapshots, names), u, c, slot.parent);
    CauseTells(fold, c, c.assignments[k], slot.parent, slot.child);
  }

  lemma FiledUnderReference(fold: Folding, selected: seq<Snapshot>, u: Tables, c: Tables, ref: Ref)
    requires IsComposition(fold, selected, u, c) && ref in c.accesses
    ensures c.accesses[ref].ref == ref
  {
  }

  lemma CauseTells(fold: Folding, c: Tables, a: Assignment, parent: Ref, child: Ref)
    requires IsCause(fold, c, a, parent, child) && c.accesses[parent].ref == parent
    ensures a.access == child && a.identity.provider == parent.provider != child.provider
    ensures var metadata := c.accesses[parent].metadata;
            "membership_role" in metadata && metadata["membership_role"] == "MEMBER"
    ensures fold(SourceGroup(c.accesses[parent])) == fold(a.identity.name)
  {
  }

  function SourceGroup(access: Access): string {
    if "source_group" in access.metadata then access.metadata["source_group"] else ""
  }

  // ----- Identities -----

  /** The identity is the first one of its reference among those of the selected snapshots. */
  ghost predicate IsFirstOffered(snapshots: seq<Snapshot>, names: set<string>, x: Identity) {
    exists n, j :: 0 <= n < |snapshots| && 0 <= j < |snapshots[n].identities| && IsSelected(snapshots[n], names)
                && snapshots[n].identities[j] == x && NoneBefore(snapshots, names, x.ref, n, j)
  }

  ghost predicate NoneBefore(snapshots: seq<Snapshot>, names: set<string>, ref: Ref, n: int, j: int)
    requires 0 <= n < |snapshots| && 0 <= j <= |snapshots[n].identities|
  {
    && (forall i :: 0 <= i < j ==> snapshots[n].identities[i].ref != ref)
    && forall m, i :: 0 <= m < n && 0 <= i < |snapshots[m].identities| && IsSelected(snapshots[m], names) ==>
         snapshots[m].identities[i].ref != ref
  }

  lemma {:induction false} FirstOfConcat(a: seq<Identity>, b: seq<Identity>, ref: Ref)
    ensures FirstIdentity(a + b, ref) == if FirstIdentity(a, ref).Some? then FirstIdentity(a, ref)
                                         else FirstIdentity(b, ref)
  {
    if a == [] {
      assert a + b == b;
    } else {
      FirstOfConcat(a[1..], b, ref);
      ConcatTail(a, b);
    }
  }

  lemma {:induction false} FirstIsAt(items: seq<Identity>, ref: Ref) returns (j: nat)
    requires FirstIdentity(items, ref).Some?
    ensures j < |items| && FirstIdentity(items, ref) == Some(items[j])
    ensures forall i :: 0 <= i < j ==> items[i].ref != ref
  {
    if items[0].ref == ref {
      j := 0;
    } else {
      var k := FirstIsAt(items[1..], ref);
      j := k + 1;
    }
  }

  lemma {:induction false} FirstIsFirstOffered(snapshots: seq<Snapshot>, names: set<string>, x: Identity)
    ensures FirstIdentity(AllOf(IdentitiesOf, Selected(snapshots, names)), x.ref) == Some(x) ==>
              IsFirstOffered(snapshots, names, x)
  {
    if snapshots != [] && FirstIdentity(AllOf(IdentitiesOf, Selected(snapshots, names)), x.ref) == Some(x) {
      var rest := snapshots[1..];
      var own := if IsSelected(snapshots[0], names) then snapshots[0].identities else [];
      AllOfMore(IdentitiesOf, snapshots, names);
      FirstOfConcat(own, AllOf(IdentitiesOf, Selected(rest, names)), x.ref);
      if FirstIdentity(own, x.ref).Some? {
        var j := FirstIsAt(own, x.ref);
        assert snapshots[0].identities[j] == x && NoneBefore(snapshots, names, x.ref, 0, j);
      } else {
        FirstIsFirstOffered(rest, names, x);
        var n, j :| 0 <= n < |rest| && 0 <= j < |rest[n].identities| && IsSelected(rest[n], names)
                 && rest[n].identities[j] == x && NoneBefore(rest, names, x.ref, n, j);
        LaterNoneBefore(snapshots, names, x.ref, n, j);
      }
    }
  }

  lemma LaterNoneBefore(snapshots: seq<Snapshot>, names: set<string>, ref: Ref, n: nat, j: nat)
    requires n + 1 < |snapshots| && j < |snapshots[n + 1].identities| && NoneBefore(snapshots[1..], names, ref, n, j)
    requires IsSelected(snapshots[0], names) ==> FirstIdentity(snapshots[0].identities, ref).None?
    ensures NoneBefore(snapshots, names, ref, n + 1, j)
  {
    forall m, i | 0 <= m < n + 1 && 0 <= i < |snapshots[m].identities| && IsSelected(snapshots[m], names)
      ensures snapshots[m].identities[i].ref != ref
    {
      if m == 0 {
        assert snapshots[0].identities[i] in snapshots[0].identities;
      } else {
        assert snapshots[m] == snapshots[1..][m - 1];
      }
    }
  }

  /** A kept assignment of a present provider is held by the reference. */
  ghost predicate IsReferred(snapshots: seq<Snapshot>, names: set<string>, ref: Ref) {
    var rows := seq(|snapshots|, n requires 0 <= n < |snapshots| => snapshots[n].assignments);
    exists n, j :: IsKept(snapshots, names, rows, SameAssignment, n, j) && rows[n][j].identity == ref
                && IsPresent(snapshots, names, rows[n][j].access.provider)
  }

  lemma ReferredInUnion(snapshots: seq<Snapshot>, names: set<string>, k: seq<string>)
    requires k in Union(Selected(snapshots, names), names).assignments
    ensures IsReferred(snapshots, names, Union(Selected(snapshots, names), names).assignments[k].identity)
  {
    var u := Union(Selected(snapshots, names), names);
    AssignmentsOfUnion(snapshots, names, u.assignments[k]);
  }

  /**
   * Identities of present providers arrive in their last version. Of the other providers exactly those arrive that a
   * kept assignment refers to, in their first version.
   */
  lemma IdentitiesArrive(fold: Folding, snapshots: seq<Snapshot>, names: set<string>, c: Tables, ref: Ref)
    requires IsComposed(fold, snapshots, names, c)
    ensures var rows := seq(|snapshots|, n requires 0 <= n < |snapshots| => snapshots[n].identities);
            if IsPresent(snapshots, names, ref.provider)
            then
              && (ref in c.identities ==>
                    exists n, j :: IsKept(snapshots, names, rows, SameIdentity, n, j)
                                && rows[n][j] == c.identities[ref])
              && (ref !in c.identities ==>
                    forall n, j :: IsKept(snapshots, names, rows, SameIdentity, n, j) ==> rows[n][j].ref != ref)
            else
              && (ref in c.identities ==> IsReferred(snapshots, names, ref)
                                          && IsFirstOffered(snapshots, names, c.identities[ref]))
              && (ref !in c.identities && IsReferred(snapshots, names, ref) ==>
                    forall n, j :: IsKept(snapshots, names, rows, SameIdentity, n, j) ==> rows[n][j].ref != ref)
    ensures ref in c.identities ==> c.identities[ref].ref == ref
  {
    var rows: seq<seq<Identity>> := seq(|snapshots|, n requires 0 <= n < |snapshots| => snapshots[n].identities);
    ComposedIsBackfilled(fold, snapshots, names, c);
    if ref in c.identities {
      IdentityHasOrigin(snapshots, names, c.identities, ref);
    } else if IsPresent(snapshots, names, ref.provider) || IsReferred(snapshots, names, ref) {
      MissingIsNotOffered(snapshots, names, c.identities, ref);
      forall n, j | IsKept(snapshots, names, rows, SameIdentity, n, j) ensures rows[n][j].ref != ref {
        KeptIsOffered(snapshots, names, rows, n, j);
      }
    }
  }

  lemma ComposedIsBackfilled(fold: Folding, snapshots: seq<Snapshot>, names: set<string>, c: Tables)
    requires IsComposed(fold, snapshots, names, c)
    ensures IsBackfilled(Union(Selected(snapshots, names), names), Selected(snapshots, names), c.identities)
  {
  }

  lemma BackfilledHasOrigin(u: Tables, selected: seq<Snapshot>, identities: map<Ref, Identity>, ref: Ref)
    returns (k: seq<string>)
    requires IsBackfilled(u, selected, identities) && ref in identities && ref !in u.identities
    ensures FirstIdentity(AllOf(IdentitiesOf, selected), ref) == Some(identities[ref])
    ensures k in u.assignments && u.assignments[k].identity == ref
  {
    k :| k in u.assignments && u.assignments[k].identity == ref;
  }

  lemma IdentityHasOrigin(snapshots: seq<Snapshot>, names: set<string>, identities: map<Ref, Identity>, ref: Ref)
    requires IsBackfilled(Union(Selected(snapshots, names), names), Selected(snapshots, names), identities)
    requires ref in identities
    ensures var rows := seq(|snapshots|, n requires 0 <= n < |snapshots| => snapshots[n].identities);
            if IsPresent(snapshots, names, ref.provider)
            then exists n, j :: IsKept(snapshots, names, rows, SameIdentity, n, j) && rows[n][j] == identities[ref]
            else IsReferred(snapshots, names, ref) && IsFirstOffered(snapshots, names, identities[ref])
    ensures identities[ref].ref == ref
  {
    var u, selected := Union(Selected(snapshots, names), names), Selected(snapshots, names);
    IdentitiesOfUnion(snapshots, names, identities[ref]);
    if ref !in u.identities {
      var k := BackfilledHasOrigin(u, selected, identities, ref);
      OfferedIsFiled(snapshots, names, ref);
      FirstIsFirstOffered(snapshots, names, identities[ref]);
      ReferredInUnion(snapshots, names, k);
    }
  }

  /** An identity that is offered and of a present provider is in the union. */
  lemma OfferedIsFiled(snapshots: seq<Snapshot>, names: set<string>, ref: Ref)
    requires ref !in Union(Selected(snapshots, names), names).identities
    requires exists i :: i in AllOf(IdentitiesOf, Selected(snapshots, names)) && i.ref == ref
    ensures !IsPresent(snapshots, names, ref.provider)
  {
    var u := Union(Selected(snapshots, names), names);
    var all := AllOf(IdentitiesOf, Selected(snapshots, names));
    ByKeyFiltered(IdentityRef, (i: Identity) => i.ref.provider in u.providers, all, ref);
    LastIsFiled(IdentityRef, all, ref);
    FiledUnderKeys(IdentityRef, all);
    PresentIsProvider(snapshots, names, ref.provider);
    var i :| i in all && i.ref == ref;
    var k :| 0 <= k < |all| && all[k] == i;
    assert IdentityRef(all[k]) == ref;
  }

  lemma KeptIsOffered(snapshots: seq<Snapshot>, names: set<string>, rows: seq<seq<Identity>>, n: int, j: int)
    requires AreRows(rows, IdentitiesOf, snapshots) && IsKept(snapshots, names, rows, SameIdentity, n, j)
    ensures rows[n][j] in AllOf(IdentitiesOf, Selected(snapshots, names))
  {
    var all := AllOf(IdentitiesOf, Selected(snapshots, names));
    assert IsSameKey(SameIdentity, IdentityRef);
    KeptIsFiled(snapshots, names, rows, IdentitiesOf, SameIdentity, IdentityRef, n, j);
    LastIsFiled(IdentityRef, all, rows[n][j].ref);
    var i :| IsLast(IdentityRef, all, rows[n][j].ref, i);
  }

  lemma MissingIsNotOffered(snapshots: seq<Snapshot>, names: set<string>, identities: map<Ref, Identity>, ref: Ref)
    requires IsBackfilled(Union(Selected(snapshots, names), names), Selected(snapshots, names), identities)
    requires ref !in identities && (IsPresent(snapshots, names, ref.provider) || IsReferred(snapshots, names, ref))
    ensures forall i :: i in AllOf(IdentitiesOf, Selected(snapshots, names)) ==> i.ref != ref
  {
    var u := Union(Selected(snapshots, names), names);
    if i :| i in AllOf(IdentitiesOf, Selected(snapshots, names)) && i.ref == ref {
      OfferedIsFiled(snapshots, names, ref);
      var k := ReferredHasKey(snapshots, names, ref);
      BackfilledHasReferred(u, Selected(snapshots, names), identities, k, i);
      assert false;
    }
  }

  lemma BackfilledHasReferred(u: Tables, selected: seq<Snapshot>, identities: map<Ref, Identity>, k: seq<string>,
                              i: Identity)
    requires IsBackfilled(u, selected, identities) && k in u.assignments
    requires i in AllOf(IdentitiesOf, selected) && i.ref == u.assignments[k].identity
    ensures i.ref in identities
  {
  }

  lemma ReferredHasKey(snapshots: seq<Snapshot>, names: set<string>, ref: Ref) returns (k: seq<string>)
    requires IsReferred(snapshots, names, ref)
    ensures var u := Union(Selected(snapshots, names), names);
            k in u.assignments && u.assignments[k].identity == ref
  {
    var rows: seq<seq<Assignment>> := seq(|snapshots|, n requires 0 <= n < |snapshots| => snapshots[n].assignments);
    var n, j :| IsKept(snapshots, names, rows, SameAssignment, n, j) && rows[n][j].identity == ref
             && IsPresent(snapshots, names, rows[n][j].access.provider);
    AssignmentsOfUnion(snapshots, names, rows[n][j]);
    k := AssignmentKey(rows[n][j]);
  }

  // ----- Assignments and their principals -----

  /** The kind of principal, of identity and of provider that belong together. */
  predicate BelongTogether(principalKind: string, identityKind: string, providerKind: string) {
    || (principalKind == "user" && identityKind == "user_account" && providerKind == "google_workspace")
    || (principalKind == "group" && identityKind == "group" && providerKind == "google_workspace")
    || (principalKind == "serviceAccount" && identityKind == "technical_account" && providerKind == "gcp_iam")
  }

  /** Up to folding the name is the identifier, the email or an alias of the identity. */
  predicate GoesBy(fold: Folding, identity: Identity, name: string) {
    || fold(name) == fold(identity.ref.name)
    || fold(name) == fold(if identity.email == None then "" else identity.email.value)
    || exists i :: 0 <= i < |identity.aliases| && fold(identity.aliases[i]) == fold(name)
  }

  /** A principal is a kind, a colon and a name; it may stand for a resolved identity of that kind with that name. */
  ghost predicate MayStandFor(fold: Folding, c: Tables, principal: string, ref: Ref) {
    && ref in c.identities && ref.provider in c.providers && !c.identities[ref].unresolved
    && exists at :: 0 <= at < |principal| && principal[at] == ':' && ':' !in principal[..at]
         && BelongTogether(principal[..at], c.identities[ref].kind, c.providers[ref.provider].kind)
         && GoesBy(fold, c.identities[ref], principal[at + 1..])
  }

  ghost predicate StandsForOnly(fold: Folding, c: Tables, principal: string, ref: Ref) {
    MayStandFor(fold, c, principal, ref) && forall other :: MayStandFor(fold, c, principal, other) ==> other == ref
  }

  /**
   * An unresolved assignment whose principal stands for one identity only goes to that identity, one whose principal
   * may stand for several is marked, and every other one stays as it is.
   */
  ghost predicate BecomesIn(fold: Folding, c: Tables, a: Assignment, x: Assignment) {
    if a.origin.unresolved && a.origin.principal.Some? then
      var principal := a.origin.principal.value;
      && (forall ref :: StandsForOnly(fold, c, principal, ref) ==>
            x == a.(identity := ref, origin := a.origin.(fingerprint := "resolved:" + a.origin.fingerprint)))
      && ((forall ref :: !MayStandFor(fold, c, principal, ref)) ==> x == a)
      && (forall ref, other ::
            MayStandFor(fold, c, principal, ref) && MayStandFor(fold, c, principal, other) && ref != other ==>
            x == a.(origin := a.origin.(fingerprint := "ambiguous:" + a.origin.fingerprint)))
    else x == a
  }

  lemma FirstColonIs(text: string, at: nat)
    requires at < |text| && text[at] == ':' && ':' !in text[..at]
    ensures ColonAt(text) == Some(at)
  {
    assert text == text[..at] + [':'] + text[at + 1..];
    ColonAfter(text[..at], text[at + 1..]);
  }

  lemma KnownMeansGoesBy(fold: Folding, identity: Identity, name: string)
    ensures IsKnownAs(fold, identity, fold(name)) <==> GoesBy(fold, identity, name)
  {
  }

  lemma KindsBelongTogether(kind: string, identityKind: string, providerKind: string)
    ensures BelongTogether(kind, identityKind, providerKind)
       <==> IdentityKind(kind) == Some(identityKind) && PreferredProviderKind(kind) == providerKind
  {
    if IdentityKind(kind).Some? && IdentityKind(kind).value == identityKind {
      assert IdentityKind(kind) == Some(identityKind);
    }
  }

  /** The identities that the principal may stand for. */
  function Standing(fold: Folding, t: Tables, identities: map<Ref, Identity>, principal: string): set<Ref> {
    var colon := ColonAt(principal);
    if colon.None? || IdentityKind(principal[..colon.value]).None? then {}
    else Candidates(fold, t, identities, principal[..colon.value], principal[colon.value + 1..])
  }

  lemma StandingMayStandFor(fold: Folding, t: Tables, c: Tables, principal: string, ref: Ref)
    requires t.providers == c.providers
    ensures MayStandFor(fold, c, principal, ref) <==> ref in Standing(fold, t, c.identities, principal)
  {
    var colon := ColonAt(principal);
    if colon.Some? && ref in c.identities && ref.provider in c.providers {
      var kind, name := principal[..colon.value], principal[colon.value + 1..];
      KnownMeansGoesBy(fold, c.identities[ref], name);
      KindsBelongTogether(kind, c.identities[ref].kind, c.providers[ref.provider].kind);
    }
    if MayStandFor(fold, c, principal, ref) {
      var at :| 0 <= at < |principal| && principal[at] == ':' && ':' !in principal[..at]
             && BelongTogether(principal[..at], c.identities[ref].kind, c.providers[ref.provider].kind)
             && GoesBy(fold, c.identities[ref], principal[at + 1..]);
      FirstColonIs(principal, at);
    }
  }

  lemma ResolvingByStanding(fold: Folding, t: Tables, identities: map<Ref, Identity>, a: Assignment, refs: set<Ref>)
    requires a.origin.unresolved && a.origin.principal.Some?
    requires refs == Standing(fold, t, identities, a.origin.principal.value)
    ensures var x := Resolve(fold, t, identities, a);
            && (|refs| > 1 ==> x == a.(origin := a.origin.(fingerprint := "ambiguous:" + a.origin.fingerprint)))
            && (refs == {} ==> x == a)
            && forall ref :: refs == {ref} ==>
                 x == a.(identity := ref, origin := a.origin.(fingerprint := "resolved:" + a.origin.fingerprint))
  {
    if ref :| refs == {ref} {
      assert ref in refs && |refs| == 1;
    }
  }

  lemma OneOrSeveral(refs: set<Ref>)
    ensures |refs| > 1 <==> exists x, y :: x in refs && y in refs && x != y
    ensures forall x :: refs == {x} <==> x in refs && forall y :: y in refs ==> y == x
  {
    if |refs| > 1 {
      var x :| x in refs;
      assert |refs - {x}| > 0;
      var y :| y in refs - {x};
    }
    if x, y :| x in refs && y in refs && x != y {
      assert {x, y} <= refs;
      var rest := refs - {x, y};
      assert refs == {x, y} + rest;
    }
    forall x | x in refs && forall y :: y in refs ==> y == x ensures refs == {x} {
    }
  }

  /** What resolving makes of an unresolved principal, by what it may stand for. */
  lemma ResolvingBecomes(fold: Folding, t: Tables, c: Tables, a: Assignment)
    requires t.providers == c.providers
    ensures BecomesIn(fold, c, a, Resolve(fold, t, c.identities, a))
  {
    if a.origin.unresolved && a.origin.principal.Some? {
      var principal := a.origin.principal.value;
      var refs := Standing(fold, t, c.identities, principal);
      ResolvingByStanding(fold, t, c.identities, a, refs);
      OneOrSeveral(refs);
      forall ref ensures MayStandFor(fold, c, principal, ref) <==> ref in refs {
        StandingMayStandFor(fold, t, c, principal, ref);
      }
      assert (forall ref :: !MayStandFor(fold, c, principal, ref)) ==> refs == {};
    }
  }

  /** The kept assignments of present providers, in whatever order. */
  ghost predicate IsOffered(snapshots: seq<Snapshot>, names: set<string>, a: Assignment) {
    var rows := seq(|snapshots|, n requires 0 <= n < |snapshots| => snapshots[n].assignments);
    IsPresent(snapshots, names, a.access.provider)
    && exists n, j :: IsKept(snapshots, names, rows, SameAssignment, n, j) && rows[n][j] == a
  }

  lemma ComposedIsResolved(fold: Folding, snapshots: seq<Snapshot>, names: set<string>, c: Tables)
    requires IsComposed(fold, snapshots, names, c)
    ensures var u := Union(Selected(snapshots, names), names);
            IsResolved(fold, u, c.identities, c.assignments) && u.providers == c.providers
  {
  }

  /** Every assignment of a selected snapshot to an access of a present provider arrives as what it becomes. */
  lemma AssignmentArrives(fold: Folding, snapshots: seq<Snapshot>, names: set<string>, c: Tables, a: Assignment)
    returns (arrived: Assignment, k: seq<string>)
    requires IsComposed(fold, snapshots, names, c) && IsOffered(snapshots, names, a)
    ensures BecomesIn(fold, c, a, arrived) && k in c.assignments && SameAssignment(c.assignments[k], arrived)
  {
    var u := Union(Selected(snapshots, names), names);
    ComposedIsResolved(fold, snapshots, names, c);
    AssignmentsOfUnion(snapshots, names, a);
    arrived := Resolve(fold, u, c.identities, a);
    k := AssignmentKey(arrived);
    ResolvingBecomes(fold, u, c, a);
    ResolvedIsFiled(fold, u, c.identities, c.assignments, AssignmentKey(a));
    AssignmentKeyTells(c.assignments[k], arrived);
  }

  lemma ResolvedIsFiled(fold: Folding, t: Tables, identities: map<Ref, Identity>,
                        resolved: map<seq<string>, Assignment>, o: seq<string>)
    requires IsResolved(fold, t, identities, resolved) && o in t.assignments
    ensures var k := AssignmentKey(Resolve(fold, t, identities, t.assignments[o]));
            k in resolved && AssignmentKey(resolved[k]) == k
  {
  }

  /** Every composed assignment is what some assignment of a selected snapshot becomes, and none repeats another one. */
  lemma AssignmentHasOrigin(fold: Folding, snapshots: seq<Snapshot>, names: set<string>, c: Tables, k: seq<string>)
    returns (a: Assignment)
    requires IsComposed(fold, snapshots, names, c) && k in c.assignments
    ensures IsOffered(snapshots, names, a) && BecomesIn(fold, c, a, c.assignments[k])
    ensures forall l :: l in c.assignments && SameAssignment(c.assignments[l], c.assignments[k]) ==> l == k
  {
    var u := Union(Selected(snapshots, names), names);
    ComposedIsResolved(fold, snapshots, names, c);
    var o := ResolvedHasOrigin(fold, u, c.identities, c.assignments, k);
    a := u.assignments[o];
    AssignmentsOfUnion(snapshots, names, a);
    ResolvingBecomes(fold, u, c, a);
    forall l | l in c.assignments && SameAssignment(c.assignments[l], c.assignments[k]) ensures l == k {
      AssignmentKeyTells(c.assignments[l], c.assignments[k]);
      var p := ResolvedHasOrigin(fold, u, c.identities, c.assignments, l);
    }
  }

  lemma ResolvedHasOrigin(fold: Folding, t: Tables, identities: map<Ref, Identity>,
                          resolved: map<seq<string>, Assignment>, k: seq<string>) returns (o: seq<string>)
    requires IsResolved(fold, t, identities, resolved) && k in resolved
    ensures o in t.assignments && resolved[k] == Resolve(fold, t, identities, t.assignments[o])
    ensures k == AssignmentKey(resolved[k])
  {
    o :| o in t.assignments && resolved[k] == Resolve(fold, t, identities, t.assignments[o])
      && k == AssignmentKey(resolved[k]);
  }

  // ----- From the snapshots to the members of a group -----

  /** The access makes its holders members of the group. */
  predicate GivesMembership(fold: Folding, access: Access, group: Ref) {
    && "membership_role" in access.metadata && access.metadata["membership_role"] == "MEMBER"
    && access.ref.provider == group.provider && fold(SourceGroup(access)) == fold(group.name)
  }

  /**
   * One snapshot assigns a cloud access to an unresolved group principal, which stands for one group of another
   * provider only; another one assigns a membership of that group. In the composition the member effectively holds the
   * access.
   */
  lemma CloudAccessReachesMembers(fold: Folding, snapshots: seq<Snapshot>, names: set<string>, c: Tables,
                                  assignments: seq<Assignment>, relations: seq<Relation>, limit: nat,
                                  cloud: Assignment, membership: Assignment, group: Ref)
    requires IsComposed(fold, snapshots, names, c) && OneMemberAccessPerGroup(fold, c)
    requires Lists(c, assignments, relations)
    requires limit >= 1 && IsOffered(snapshots, names, cloud) && IsOffered(snapshots, names, membership)
    requires cloud.origin.unresolved && cloud.origin.principal.Some?
    requires StandsForOnly(fold, c, cloud.origin.principal.value, group)
    requires cloud.access in c.accesses && cloud.access.provider != group.provider
    requires !membership.origin.unresolved && membership.access in c.accesses
    requires GivesMembership(fold, c.accesses[membership.access], group)
    ensures E.Holding(membership.identity, cloud.access)
         in E.Evaluate(assignments, relations, Some(c.accesses.Keys), limit).results
  {
    var u := Union(Selected(snapshots, names), names);
    var given, k := AssignmentArrives(fold, snapshots, names, c, cloud);
    var joined, l := AssignmentArrives(fold, snapshots, names, c, membership);
    assert c.assignments[k] in assignments && c.assignments[l] in assignments;
    FiledUnderReference(fold, Selected(snapshots, names), u, c, membership.access);
    MembersHoldCloudAccesses(fold, Selected(snapshots, names), u, c, assignments, relations, limit, c.assignments[k],
                             c.assignments[l]);
  }
}
