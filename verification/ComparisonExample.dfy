/** A snapshot that is promoted and then compared with itself, in which a promoted assignment is missing. */
module ComparisonExample {
  import opened Domain
  import opened Ordering
  import opened GrantGraph
  import opened EffectiveAccess
  import opened EffectiveAccessSearch
  import opened EffectiveAccessTheorems
  import opened GoldenVersions
  import opened GoldenFreeze
  import opened ComparisonTheorems
  import C = Comparison

  // A derived access has the native id of an assigned one, so their common stable key leads nowhere.

  const USER := Ref("idp", "u")

  const TEAM := Ref("idp", "team")

  const ROLE := Ref("idp", "role")

  const COPY := Ref("idp", "copy")

  const PLAIN := Origin("", None, false, None, false)

  function Object(ref: Ref, nativeId: string): Access {
    Access(ref, Some(ControlObject("role", ref.name, Some(nativeId), None, None, map[])), None, None, None, None, None,
           map[], ref.name)
  }

  /**
   * The team contains the role. The user is in the team, and has the role's copy, which has the native id of the role.
   */
  const GRANT := Relation(TEAM, ROLE, GRANTS, PLAIN.(composite := true), "grant")

  const IN_TEAM := Assignment(TEAM, USER, PLAIN, "a")

  const HAS_COPY := Assignment(COPY, USER, PLAIN, "b")

  const SNAPSHOT := Snapshot(
    [], [Identity(USER, "user", "active", Some("u"), None, [], false, "u")],
    [Object(TEAM, "t"), Object(ROLE, "r"), Object(COPY, "r")],
    [IN_TEAM, HAS_COPY], [GRANT], false)

  const CATALOGUE: Catalogue := Some(AccessRefs(SNAPSHOT.accesses))

  lemma RefsDiffer()
    ensures TEAM != ROLE && TEAM != COPY && ROLE != COPY
  {
    assert "role"[0] != "copy"[0] && "team"[0] != "role"[0] && "team"[0] != "copy"[0];
  }

  lemma Lookups()
    ensures AccessesByRef(SNAPSHOT.accesses)
         == map[TEAM := Object(TEAM, "t"), ROLE := Object(ROLE, "r"), COPY := Object(COPY, "r")]
    ensures IdentitiesByRef(SNAPSHOT.identities).Keys == {USER}
    ensures IdentitiesByRef(SNAPSHOT.identities)[USER].nativeId == Some("u")
    ensures CATALOGUE == Some({TEAM, ROLE, COPY})
  {
    var t, r, c := Object(TEAM, "t"), Object(ROLE, "r"), Object(COPY, "r");
    RefsDiffer();
    assert [t, r, c][..2] == [t, r] && [t, r][..1] == [t] && [t][..0] == [];
    assert AccessesByRef([]) == map[];
    assert AccessesByRef([t]) == map[TEAM := t];
    assert AccessesByRef([t, r]) == map[TEAM := t, ROLE := r];
    assert SNAPSHOT.identities[..0] == [];
    assert IdentitiesByRef([]) == map[];
    AccessesByRefKeys(SNAPSHOT.accesses);
    assert AccessRefs(SNAPSHOT.accesses) == {TEAM, ROLE, COPY};
  }

  // ----- The role is derived -----

  lemma GraphIsGrant(r: Relation)
    requires r in GraphOf(SNAPSHOT.relations, CATALOGUE)
    ensures r == GRANT
  {
    AdmitKeepsEveryKey(SortBy(RelationKey, SNAPSHOT.relations), CATALOGUE, r);
    SortMember(RelationKey, SNAPSHOT.relations, r);
  }

  lemma RoleIsHeld()
    ensures var h, results := Holding(USER, ROLE), C.ResultsOf(SNAPSHOT);
            h in results && !results[h].direct && results[h].paths != []
  {
    Lookups();
    RefsDiffer();
    var h, grants := Holding(USER, ROLE), GrantRelations(SNAPSHOT.relations, CATALOGUE);
    EffectiveMeansReachable(SNAPSHOT.assignments, SNAPSHOT.relations, CATALOGUE, C.DEFAULT_PATH_LIMIT, h);
    GrantRelationMember(SNAPSHOT.relations, CATALOGUE, GRANT);
    assert GRANT in grants && [GRANT][..0] == [];
    assert IsWalk(grants, TEAM, [GRANT]) && End(TEAM, [GRANT]) == ROLE;
    assert Reaches(grants, IN_TEAM.access, ROLE);
    assert IN_TEAM in Roots(SNAPSHOT.assignments, CATALOGUE);
    EvaluationIsExplored(SNAPSHOT.assignments, SNAPSHOT.relations, CATALOGUE, C.DEFAULT_PATH_LIMIT);
  }

  lemma RolePathUsesGrant()
    requires Holding(USER, ROLE) in C.ResultsOf(SNAPSHOT)
    requires C.ResultsOf(SNAPSHOT)[Holding(USER, ROLE)].paths != []
    ensures var path := C.ResultsOf(SNAPSHOT)[Holding(USER, ROLE)].paths[0];
            path.assignmentId in {"a", "b"} && "grant" in path.relationIds
  {
    var h, graph, roots :=
      Holding(USER, ROLE), GraphOf(SNAPSHOT.relations, CATALOGUE), Roots(SNAPSHOT.assignments, CATALOGUE);
    var path := C.ResultsOf(SNAPSHOT)[h].paths[0];
    EvaluationIsExplored(SNAPSHOT.assignments, SNAPSHOT.relations, CATALOGUE, C.DEFAULT_PATH_LIMIT);
    assert HoldingIsSound(graph, roots, C.DEFAULT_PATH_LIMIT, h, C.ResultsOf(SNAPSHOT)[h]);
    assert Explained(graph, roots, h, path);
    var a, w :| a in roots && a.identity == USER && IsSimpleWalk(graph, a.access, w) && End(a.access, w) == ROLE
             && path == PathOf(a, w);
    RefsDiffer();
    assert w != [];
    GraphIsGrant(w[0]);
    assert path.relationIds[0] == "grant";
  }

  lemma RoleIsDerived()
    ensures var h, results := Holding(USER, ROLE), C.ResultsOf(SNAPSHOT);
            C.IsDerived(SNAPSHOT, results, h) && C.DerivedAssignment(h, results) in C.DerivedAssignments(SNAPSHOT)
  {
    RefsDiffer();
    RoleIsHeld();
    RolePathUsesGrant();
    assert SNAPSHOT.assignments[..1] == [IN_TEAM] && SNAPSHOT.relations[..0] == [];
    assert C.AssignmentById([IN_TEAM], "a") == Some(IN_TEAM);
    assert C.RelationById(SNAPSHOT.relations, "grant") == Some(GRANT);
  }

  lemma DerivedIsUsers(d: Assignment)
    requires d in C.DerivedAssignments(SNAPSHOT)
    ensures d.identity == USER
  {
    var results := C.ResultsOf(SNAPSHOT);
    var h :| h in results && C.IsDerived(SNAPSHOT, results, h) && d == C.DerivedAssignment(h, results);
    HolderIsUser(h);
  }

  lemma HolderIsUser(h: Holding)
    requires h in C.ResultsOf(SNAPSHOT)
    ensures h.identity == USER
  {
    EffectiveMeansReachable(SNAPSHOT.assignments, SNAPSHOT.relations, CATALOGUE, C.DEFAULT_PATH_LIMIT, h);
    var a :| a in Roots(SNAPSHOT.assignments, CATALOGUE) && a.identity == h.identity;
    assert a in SNAPSHOT.assignments;
  }

  // ----- The copy is missed -----

  lemma EverythingHasStableKey(derived: seq<Assignment>)
    requires Enumerates(derived, C.DerivedAssignments(SNAPSHOT))
    ensures C.NamesWithoutStableKey(C.Observe(SNAPSHOT, derived)) == {}
  {
    var o := C.Observe(SNAPSHOT, derived);
    Lookups();
    forall a | a in o.assignments ensures C.ObservedStableKey(o, a).Some? {
      if a in derived {
        DerivedIsUsers(a);
      }
    }
  }

  lemma TwiceIsNowhere(o: C.Observation, item: GoldenAssignment, i: nat, j: nat)
    requires i < |o.assignments| && j < |o.assignments| && i != j && HasStableKey(item)
    requires C.ObservedStableKey(o, o.assignments[i]) == StableKeyOf(item) == C.ObservedStableKey(o, o.assignments[j])
    requires C.NamesWithoutStableKey(o) == {}
    ensures C.MatchFor(o, item) == None
  {
    C.StableIndexMeaning(o, |o.assignments|, StableKeyOf(item).value);
  }

  /** Promoting the snapshot and comparing it again, the promoted assignment of the copy is reported missing. */
  lemma SharedStableKeyIsMissed(derived: seq<Assignment>)
    requires Enumerates(derived, C.DerivedAssignments(SNAPSHOT))
    ensures OriginsAgree(SNAPSHOT) && StableKeysDiffer(GoldenAssignments(SNAPSHOT))
    ensures IsSharedWithDerived(C.Observe(SNAPSHOT, derived), |SNAPSHOT.assignments|, 1)
    ensures C.ExpectedRow(C.Observe(SNAPSHOT, derived), GoldenAssignments(SNAPSHOT)[1], None)
         == C.Row(LegacyKey(COPY, USER), true, false, C.Missing)
  {
    PromotedKeys();
    EverythingHasStableKey(derived);
    var k := RoleIsListed(derived);
    MissedBecauseOf(derived, k);
  }

  lemma RoleIsListed(derived: seq<Assignment>) returns (k: nat)
    requires Enumerates(derived, C.DerivedAssignments(SNAPSHOT))
    ensures k < |derived| && derived[k].access == ROLE && derived[k].identity == USER
    ensures derived[k].origin.rawNativeId == None
  {
    RoleIsDerived();
    var d := C.DerivedAssignment(Holding(USER, ROLE), C.ResultsOf(SNAPSHOT));
    k :| 0 <= k < |derived| && derived[k] == d;
  }

  lemma MissedBecauseOf(derived: seq<Assignment>, k: nat)
    requires k < |derived| && derived[k].access == ROLE && derived[k].identity == USER
    requires derived[k].origin.rawNativeId == None
    requires C.NamesWithoutStableKey(C.Observe(SNAPSHOT, derived)) == {}
    ensures IsSharedWithDerived(C.Observe(SNAPSHOT, derived), |SNAPSHOT.assignments|, 1)
    ensures C.ExpectedRow(C.Observe(SNAPSHOT, derived), GoldenAssignments(SNAPSHOT)[1], None)
         == C.Row(LegacyKey(COPY, USER), true, false, C.Missing)
  {
    var o, item := C.Observe(SNAPSHOT, derived), GoldenAssignment(COPY, USER, Some("r"), None, Some("u"));
    PromotedKeys();
    SameKey(derived, derived[k]);
    assert o.assignments[2 + k] == derived[k] && o.assignments[1] == HAS_COPY;
    TwiceIsNowhere(o, item, 1, 2 + k);
  }

  lemma PromotedKeys()
    ensures OriginsAgree(SNAPSHOT) && StableKeysDiffer(GoldenAssignments(SNAPSHOT))
    ensures GoldenAssignments(SNAPSHOT)[1] == GoldenAssignment(COPY, USER, Some("r"), None, Some("u"))
  {
    Lookups();
    RefsDiffer();
    assert "t"[0] != "r"[0];
  }

  lemma SameKey(derived: seq<Assignment>, d: Assignment)
    requires d.access == ROLE && d.identity == USER && d.origin.rawNativeId == None
    ensures var o := C.Observe(SNAPSHOT, derived);
            C.ObservedStableKey(o, d) == C.ObservedStableKey(o, HAS_COPY)
            == StableKeyOf(GoldenAssignment(COPY, USER, Some("r"), None, Some("u")))
  {
    Lookups();
    RefsDiffer();
  }
}
