/** The comparison agrees with promotion and does not see renames. */
module ComparisonTheorems {
  import opened Domain
  import opened GrantGraph
  import opened EffectiveAccess
  import opened EffectiveAccessTheorems
  import opened EffectiveDiagnostics
  import opened EffectivePaths
  import opened GoldenVersions
  import opened GoldenFreeze
  import C = Comparison

  // ----- Derived accesses that count as observed -----

  /** The relation that is listed last under the id comes from a composite object. */
  ghost predicate LeadsToComposite(relations: seq<Relation>, id: string) {
    exists i :: 0 <= i < |relations| && relations[i].id == id && relations[i].origin.composite
             && forall j :: i < j < |relations| ==> relations[j].id != id
  }

  lemma {:induction false} LastRelationIsFound(relations: seq<Relation>, id: string)
    ensures LeadsToComposite(relations, id)
       <==> C.RelationById(relations, id).Some? && C.RelationById(relations, id).value.origin.composite
  {
    if relations != [] {
      var n := |relations| - 1;
      LastRelationIsFound(relations[..n], id);
      if relations[n].id == id {
        assert relations[n].origin.composite ==> LeadsToComposite(relations, id);
      } else {
        if LeadsToComposite(relations[..n], id) {
          var i :| 0 <= i < n && relations[..n][i].id == id && relations[..n][i].origin.composite
                && forall j :: i < j < n ==> relations[..n][j].id != id;
          assert relations[i].origin.composite && forall j :: i < j < n ==> relations[j].id == relations[..n][j].id;
        }
        if LeadsToComposite(relations, id) {
          var i :| 0 <= i < |relations| && relations[i].id == id && relations[i].origin.composite
                && forall j :: i < j < |relations| ==> relations[j].id != id;
          assert relations[..n][i] == relations[i];
          assert forall j :: i < j < n ==> relations[..n][j] == relations[j];
        }
      }
    }
  }

  lemma {:induction false} AssignmentIsFound(assignments: seq<Assignment>, a: Assignment)
    requires a in assignments
    ensures C.AssignmentById(assignments, a.id).Some?
  {
    var n := |assignments| - 1;
    if assignments[n].id != a.id {
      assert assignments == assignments[..n] + [assignments[n]];
      AssignmentIsFound(assignments[..n], a);
    }
  }

  lemma FirstPathStarts(snapshot: Snapshot, catalogue: Option<set<Ref>>, h: Holding)
    requires h in Evaluate(snapshot.assignments, snapshot.relations, catalogue, 100).results
    ensures var paths := Evaluate(snapshot.assignments, snapshot.relations, catalogue, 100).results[h].paths;
            paths != [] && C.AssignmentById(snapshot.assignments, paths[0].assignmentId).Some?
  {
    var grants := GrantRelations(snapshot.relations, catalogue);
    forall r ensures r in grants <==> (r in snapshot.relations && r.kind == "grants"
                                       && !Missing(catalogue, r.parent) && !Missing(catalogue, r.child)) {
      GrantRelationMember(snapshot.relations, catalogue, r);
    }
    var owner := FirstPathIsOfFirst(snapshot.assignments, snapshot.relations, catalogue, 100, grants, h);
    AssignmentIsFound(snapshot.assignments, owner);
  }

  lemma FirstPathIsComposite(relations: seq<Relation>, path: Path)
    ensures C.IsCompositePath(relations, path)
       <==> exists id :: id in path.relationIds && LeadsToComposite(relations, id)
  {
    forall id ensures LeadsToComposite(relations, id)
                 <==> C.RelationById(relations, id).Some? && C.RelationById(relations, id).value.origin.composite {
      LastRelationIsFound(relations, id);
    }
  }

  /**
   * Exactly the effective accesses that no assignment names and whose first path uses a composite relation are
   * observed in addition, each once, with a composite origin that carries no native id.
   */
  lemma CompositeAccessesAreObserved(snapshot: Snapshot, derived: seq<Assignment>, h: Holding)
    requires Enumerates(derived, C.DerivedAssignments(snapshot))
    ensures var results := Evaluate(snapshot.assignments, snapshot.relations,
                                    Some(set access | access in snapshot.accesses :: access.ref), 100).results;
            (exists d :: d in derived && d.access == h.access && d.identity == h.identity)
            <==> (h in results && results[h].paths != []
                  && (forall a :: a in snapshot.assignments ==> a.access != h.access || a.identity != h.identity)
                  && exists id :: id in results[h].paths[0].relationIds && LeadsToComposite(snapshot.relations, id))
    ensures forall d :: d in derived ==> d.origin.composite && d.origin.rawNativeId == None
    ensures forall i, j :: 0 <= i < j < |derived| ==>
              derived[i].access != derived[j].access || derived[i].identity != derived[j].identity
  {
    var results := C.ResultsOf(snapshot);
    assert AccessRefs(snapshot.accesses) == set access | access in snapshot.accesses :: access.ref;
    if h in results {
      FirstPathStarts(snapshot, Some(AccessRefs(snapshot.accesses)), h);
      FirstPathIsComposite(snapshot.relations, results[h].paths[0]);
      if results[h].direct {
        DirectIsNamed(snapshot, h);
      }
      if C.IsDerived(snapshot, results, h) {
        assert C.DerivedAssignment(h, results) in derived;
      }
    }
    if d :| d in derived && d.access == h.access && d.identity == h.identity {
      assert d in C.DerivedAssignments(snapshot);
    }
    forall i, j | 0 <= i < j < |derived|
      ensures derived[i].access != derived[j].access || derived[i].identity != derived[j].identity
    {
      assert derived[i] in C.DerivedAssignments(snapshot) && derived[j] in C.DerivedAssignments(snapshot);
    }
  }

  lemma DirectIsNamed(snapshot: Snapshot, h: Holding)
    requires h in C.ResultsOf(snapshot) && C.ResultsOf(snapshot)[h].direct
    ensures exists a :: a in snapshot.assignments && a.access == h.access && a.identity == h.identity
  {
    var catalogue := Some(AccessRefs(snapshot.accesses));
    EffectiveMeansReachable(snapshot.assignments, snapshot.relations, catalogue, C.DEFAULT_PATH_LIMIT, h);
  }

  // ----- Promoting a snapshot and comparing the same snapshot -----

  /** A native id that the origin carries is the one of the control object of the access. */
  ghost predicate OriginsAgree(snapshot: Snapshot) {
    forall a :: a in snapshot.assignments && Present(a.origin.rawNativeId) ==>
      var accesses := AccessesByRef(snapshot.accesses);
      a.access in accesses && AccessNativeId(accesses[a.access]) == a.origin.rawNativeId
  }

  /** Observed and golden keys of an assignment agree when its identity is known. */
  lemma SameStableKey(snapshot: Snapshot, derived: seq<Assignment>, i: nat)
    requires i < |snapshot.assignments| && OriginsAgree(snapshot)
    ensures var o, a, item := C.Observe(snapshot, derived), snapshot.assignments[i], GoldenAssignments(snapshot)[i];
            && C.KeyOf(a) == LegacyKeyOf(item)
            && (a.identity in o.identities ==> C.ObservedStableKey(o, a) == StableKeyOf(item))
            && (a.identity !in o.identities ==> C.ObservedStableKey(o, a).None? && !Present(item.identityNativeId))
  {
    assert snapshot.assignments[i] in snapshot.assignments;
  }

  /** A stable key without identity native id is only observed for the identity it names. */
  lemma UnknownIdentityIsNotObserved(o: C.Observation, b: Assignment, item: GoldenAssignment)
    requires HasStableKey(item) && !Present(item.identityNativeId) && item.identity !in o.identities
    ensures C.ObservedStableKey(o, b) != StableKeyOf(item)
  {
    assert b.identity != item.identity ==>
        b.identity.provider != item.identity.provider || b.identity.name != item.identity.name;
  }

  /** A derived assignment, from position n on, is observed with the stable key of the assignment at position i. */
  ghost predicate IsSharedWithDerived(o: C.Observation, n: nat, i: nat)
    requires i < |o.assignments|
  {
    exists j :: n <= j < |o.assignments| && j != i
             && C.ObservedStableKey(o, o.assignments[i]).Some?
             && C.ObservedStableKey(o, o.assignments[j]) == C.ObservedStableKey(o, o.assignments[i])
  }

  /** No derived assignment is observed with the stable key of one of the first n assignments, the direct ones. */
  ghost predicate NoneIsShared(o: C.Observation, n: nat)
    requires n <= |o.assignments|
  {
    forall i :: 0 <= i < n ==> !IsSharedWithDerived(o, n, i)
  }

  lemma KnownDirectIsOnly(snapshot: Snapshot, derived: seq<Assignment>, i: nat)
    requires i < |snapshot.assignments| && OriginsAgree(snapshot) && StableKeysDiffer(GoldenAssignments(snapshot))
    requires !IsSharedWithDerived(C.Observe(snapshot, derived), |snapshot.assignments|, i)
    requires C.ObservedStableKey(C.Observe(snapshot, derived), snapshot.assignments[i]).Some?
    ensures var o := C.Observe(snapshot, derived);
            C.OnlyAt(o, |o.assignments|, C.ObservedStableKey(o, snapshot.assignments[i]).value, i)
  {
    var o := C.Observe(snapshot, derived);
    var n := |snapshot.assignments|;
    var items := GoldenAssignments(snapshot);
    assert o.assignments[i] == snapshot.assignments[i];
    SameStableKey(snapshot, derived, i);
    forall j | 0 <= j < |o.assignments| && j != i
      ensures C.ObservedStableKey(o, o.assignments[j]) != C.ObservedStableKey(o, o.assignments[i])
    {
      if j < n {
        assert o.assignments[j] == snapshot.assignments[j];
        SameStableKey(snapshot, derived, j);
        assert HasStableKey(items[j]) && HasStableKey(items[i]) ==> StableKeyOf(items[i]) != StableKeyOf(items[j]);
      }
    }
  }

  /**
   * A promoted assignment is matched with its own observed name exactly when no derived assignment is observed
   * with its stable key, or when its name is also observed without a stable key.
   */
  lemma PromotedIsMatchedUnlessShared(snapshot: Snapshot, derived: seq<Assignment>, i: nat)
    requires i < |snapshot.assignments| && OriginsAgree(snapshot) && StableKeysDiffer(GoldenAssignments(snapshot))
    ensures var o := C.Observe(snapshot, derived);
            C.MatchFor(o, GoldenAssignments(snapshot)[i]) == Some(C.KeyOf(snapshot.assignments[i]))
            <==> !IsSharedWithDerived(o, |snapshot.assignments|, i)
                 || C.KeyOf(snapshot.assignments[i]) in C.NamesWithoutStableKey(o)
  {
    var o, a, item := C.Observe(snapshot, derived), snapshot.assignments[i], GoldenAssignments(snapshot)[i];
    assert o.assignments[i] == a && a in o.assignments;
    SameStableKey(snapshot, derived, i);
    if C.ObservedStableKey(o, a).Some? {
      C.StableIndexMeaning(o, |o.assignments|, StableKeyOf(item).value);
      if !IsSharedWithDerived(o, |snapshot.assignments|, i) {
        KnownDirectIsOnly(snapshot, derived, i);
      }
    } else if HasStableKey(item) {
      UnknownIsNotIndexed(o, item);
    }
  }

  lemma UnknownIsNotIndexed(o: C.Observation, item: GoldenAssignment)
    requires HasStableKey(item) && !Present(item.identityNativeId) && item.identity !in o.identities
    ensures StableKeyOf(item).value !in C.StableIndex(o, |o.assignments|)
  {
    var key := StableKeyOf(item).value;
    C.StableIndexMeaning(o, |o.assignments|, key);
    forall j | 0 <= j < |o.assignments| ensures C.ObservedStableKey(o, o.assignments[j]) != Some(key) {
      UnknownIdentityIsNotObserved(o, o.assignments[j], item);
    }
  }

  /** Every promoted assignment is matched with its own observed name. */
  lemma PromotedIsMatched(snapshot: Snapshot, derived: seq<Assignment>, i: nat)
    requires i < |snapshot.assignments| && OriginsAgree(snapshot) && StableKeysDiffer(GoldenAssignments(snapshot))
    requires NoneIsShared(C.Observe(snapshot, derived), |snapshot.assignments|)
    ensures C.MatchFor(C.Observe(snapshot, derived), GoldenAssignments(snapshot)[i])
         == Some(C.KeyOf(snapshot.assignments[i]))
  {
    PromotedIsMatchedUnlessShared(snapshot, derived, i);
  }

  /** The stable key of a derived assignment is not one of the promoted keys. */
  lemma DerivedKeyIsNotExpected(snapshot: Snapshot, derived: seq<Assignment>, i: nat, k: nat)
    requires i < |snapshot.assignments| <= k < |snapshot.assignments| + |derived|
    requires OriginsAgree(snapshot) && NoneIsShared(C.Observe(snapshot, derived), |snapshot.assignments|)
    requires HasStableKey(GoldenAssignments(snapshot)[i])
    ensures var o := C.Observe(snapshot, derived);
            C.ObservedStableKey(o, o.assignments[k]) != StableKeyOf(GoldenAssignments(snapshot)[i])
  {
    var o, item := C.Observe(snapshot, derived), GoldenAssignments(snapshot)[i];
    SameStableKey(snapshot, derived, i);
    assert o.assignments[i] == snapshot.assignments[i];
    if item.identity !in o.identities {
      UnknownIdentityIsNotObserved(o, o.assignments[k], item);
    } else {
      assert !IsSharedWithDerived(o, |snapshot.assignments|, i);
    }
  }

  ghost predicate RoundTripCase(snapshot: Snapshot, derived: seq<Assignment>, expected: set<GoldenAssignment>) {
    && Enumerates(derived, C.DerivedAssignments(snapshot))
    && expected == (set item | item in GoldenAssignments(snapshot))
    && OriginsAgree(snapshot) && StableKeysDiffer(GoldenAssignments(snapshot))
    && NoneIsShared(C.Observe(snapshot, derived), |snapshot.assignments|)
  }

  lemma DirectNamesAreMatched(snapshot: Snapshot, derived: seq<Assignment>, expected: set<GoldenAssignment>)
    requires RoundTripCase(snapshot, derived, expected)
    ensures C.MatchedNames(C.Observe(snapshot, derived), expected) == set a | a in snapshot.assignments :: C.KeyOf(a)
  {
    var o, items := C.Observe(snapshot, derived), GoldenAssignments(snapshot);
    forall i | 0 <= i < |items| ensures C.MatchFor(o, items[i]) == Some(C.KeyOf(snapshot.assignments[i])) {
      PromotedIsMatched(snapshot, derived, i);
    }
    forall a | a in snapshot.assignments ensures C.KeyOf(a) in C.MatchedNames(o, expected) {
      var i :| 0 <= i < |items| && snapshot.assignments[i] == a;
      assert items[i] in expected;
    }
    forall item | item in expected
      ensures exists a :: a in snapshot.assignments && C.MatchFor(o, item) == Some(C.KeyOf(a))
    {
      var i :| 0 <= i < |items| && items[i] == item;
      assert snapshot.assignments[i] in snapshot.assignments;
    }
  }

  /** The last observed assignment with the name of a derived one is a derived one. */
  lemma LastIsDerived(snapshot: Snapshot, derived: seq<Assignment>, d: Assignment) returns (k: nat)
    requires Enumerates(derived, C.DerivedAssignments(snapshot)) && d in derived
    ensures var o := C.Observe(snapshot, derived);
            && |snapshot.assignments| <= k < |o.assignments| && C.KeyOf(d) in C.LastByName(o.assignments)
            && C.LastByName(o.assignments)[C.KeyOf(d)] == o.assignments[k]
  {
    var o := C.Observe(snapshot, derived);
    assert d in C.DerivedAssignments(snapshot) && d in o.assignments;
    C.LastByNameKeys(o.assignments);
    var last := C.LastByName(o.assignments)[C.KeyOf(d)];
    assert last !in snapshot.assignments;
    var j :| 0 <= j < |derived| && derived[j] == last;
    k := |snapshot.assignments| + j;
  }

  lemma DerivedIsUnexpected(snapshot: Snapshot, derived: seq<Assignment>, expected: set<GoldenAssignment>,
                            d: Assignment)
    requires RoundTripCase(snapshot, derived, expected) && d in derived
    ensures C.KeyOf(d) in C.UnexpectedNames(C.Observe(snapshot, derived), expected)
  {
    var o, items := C.Observe(snapshot, derived), GoldenAssignments(snapshot);
    assert d in C.DerivedAssignments(snapshot) && d in o.assignments;
    DirectNamesAreMatched(snapshot, derived, expected);
    var k := LastIsDerived(snapshot, derived, d);
    forall item | item in expected && HasStableKey(item)
      ensures C.ObservedStableKey(o, o.assignments[k]) != StableKeyOf(item)
    {
      var i :| 0 <= i < |items| && items[i] == item;
      DerivedKeyIsNotExpected(snapshot, derived, i, k);
    }
  }

  /** The names left over are those of the derived assignments. */
  lemma OnlyDerivedAreUnexpected(snapshot: Snapshot, derived: seq<Assignment>, expected: set<GoldenAssignment>,
                                 name: LegacyKey)
    requires RoundTripCase(snapshot, derived, expected)
    ensures name in C.UnexpectedNames(C.Observe(snapshot, derived), expected)
       <==> exists d :: d in derived && C.KeyOf(d) == name
  {
    DirectNamesAreMatched(snapshot, derived, expected);
    if d :| d in derived && C.KeyOf(d) == name {
      DerivedIsUnexpected(snapshot, derived, expected, d);
    }
  }

  /** A derived assignment that shares the stable key of a direct one is not reported as unexpected. */
  lemma SharedIsNotUnexpected(snapshot: Snapshot, derived: seq<Assignment>, expected: set<GoldenAssignment>, i: nat,
                              j: nat)
    requires Enumerates(derived, C.DerivedAssignments(snapshot)) && OriginsAgree(snapshot)
    requires expected == (set item | item in GoldenAssignments(snapshot))
    requires i < |snapshot.assignments| <= j < |snapshot.assignments| + |derived|
    requires var o := C.Observe(snapshot, derived);
             && C.ObservedStableKey(o, o.assignments[i]).Some?
             && C.ObservedStableKey(o, o.assignments[j]) == C.ObservedStableKey(o, o.assignments[i])
    ensures var o := C.Observe(snapshot, derived);
            C.KeyOf(o.assignments[j]) !in C.UnexpectedNames(o, expected)
  {
    var o, item := C.Observe(snapshot, derived), GoldenAssignments(snapshot)[i];
    var d := o.assignments[j];
    assert d == derived[j - |snapshot.assignments|];
    var k := LastIsDerived(snapshot, derived, d);
    assert o.assignments[k] == derived[k - |snapshot.assignments|];
    C.LastByNameKeys(o.assignments);
    DerivedByName(snapshot, o.assignments[k], d);
    SameStableKey(snapshot, derived, i);
    assert item in expected && StableKeyOf(item).value in C.ExpectedStableKeys(expected);
  }

  lemma SharedBreaksRoundTrip(snapshot: Snapshot, derived: seq<Assignment>, expected: set<GoldenAssignment>,
                              scope: Option<C.Scope>)
    requires Enumerates(derived, C.DerivedAssignments(snapshot)) && OriginsAgree(snapshot)
    requires expected == (set item | item in GoldenAssignments(snapshot))
    requires !NoneIsShared(C.Observe(snapshot, derived), |snapshot.assignments|)
    ensures exists d :: d in derived && C.KeyOf(d) !in C.UnexpectedNames(C.Observe(snapshot, derived), expected)
  {
    var o, n := C.Observe(snapshot, derived), |snapshot.assignments|;
    var i :| 0 <= i < n && IsSharedWithDerived(o, n, i);
    var j :| n <= j < |o.assignments| && j != i && C.ObservedStableKey(o, o.assignments[i]).Some?
          && C.ObservedStableKey(o, o.assignments[j]) == C.ObservedStableKey(o, o.assignments[i]);
    SharedIsNotUnexpected(snapshot, derived, expected, i, j);
    assert o.assignments[j] == derived[j - n];
  }

  /** There is one derived assignment of a name. */
  lemma DerivedByName(snapshot: Snapshot, d: Assignment, e: Assignment)
    requires d in C.DerivedAssignments(snapshot) && e in C.DerivedAssignments(snapshot) && C.KeyOf(d) == C.KeyOf(e)
    ensures d == e
  {
  }

  /** Every golden row is expected and observed under its own name, and the other rows are those of derived names. */
  ghost predicate RoundTrips(o: C.Observation, expected: set<GoldenAssignment>, derived: seq<Assignment>,
                             scope: Option<C.Scope>)
  {
    && (forall item :: item in expected ==>
          C.ExpectedRow(o, item, scope) == C.Row(LegacyKeyOf(item), true, true, C.ExpectedAndObserved))
    && C.UnexpectedNames(o, expected) == set d | d in derived :: C.KeyOf(d)
  }

  lemma SeparateRoundTrips(snapshot: Snapshot, derived: seq<Assignment>, expected: set<GoldenAssignment>,
                           scope: Option<C.Scope>)
    requires RoundTripCase(snapshot, derived, expected) && !C.IncompleteScope(scope)
    ensures RoundTrips(C.Observe(snapshot, derived), expected, derived, scope)
  {
    var o, items := C.Observe(snapshot, derived), GoldenAssignments(snapshot);
    forall item | item in expected
      ensures C.ExpectedRow(o, item, scope) == C.Row(LegacyKeyOf(item), true, true, C.ExpectedAndObserved)
    {
      var i :| 0 <= i < |items| && items[i] == item;
      PromotedIsMatched(snapshot, derived, i);
    }
    forall name ensures name in C.UnexpectedNames(o, expected) <==> exists d :: d in derived && C.KeyOf(d) == name {
      OnlyDerivedAreUnexpected(snapshot, derived, expected, name);
    }
  }

  /** The rows are: expected and observed for each golden assignment, unexpected for each derived one, and no other. */
  ghost predicate RowsAgree(rows: seq<C.Row>, expected: set<GoldenAssignment>, derived: seq<Assignment>) {
    forall row :: row in rows
      <==> ((exists item :: item in expected
                         && row == C.Row(LegacyKey(item.access, item.identity), true, true, C.ExpectedAndObserved))
            || exists d :: d in derived && row == C.Row(LegacyKey(d.access, d.identity), false, true, C.Unexpected))
  }

  lemma RoundTripMeansRowsAgree(o: C.Observation, expected: set<GoldenAssignment>, derived: seq<Assignment>,
                                scope: Option<C.Scope>, items: seq<GoldenAssignment>, extra: seq<LegacyKey>,
                                rows: seq<C.Row>)
    requires RoundTrips(o, expected, derived, scope)
    requires Enumerates(items, expected) && Enumerates(extra, C.UnexpectedNames(o, expected))
    requires rows == C.ExpectedRows(o, items, scope) + C.ObservedRows(extra, true)
    ensures RowsAgree(rows, expected, derived)
  {
    forall item | item in expected
      ensures C.Row(LegacyKey(item.access, item.identity), true, true, C.ExpectedAndObserved) in rows
    {
      var i :| 0 <= i < |items| && items[i] == item;
      assert rows[i] == C.ExpectedRow(o, item, scope);
    }
    forall d | d in derived ensures C.Row(LegacyKey(d.access, d.identity), false, true, C.Unexpected) in rows {
      assert C.KeyOf(d) in C.UnexpectedNames(o, expected);
      var i :| 0 <= i < |extra| && extra[i] == C.KeyOf(d);
      assert rows[|items| + i] == C.ObservedRow(extra[i], true);
    }
    forall i | 0 <= i < |rows|
      ensures i < |items| ==> items[i] in expected && rows[i] == C.ExpectedRow(o, items[i], scope)
      ensures i >= |items| ==> exists d :: d in derived && rows[i] == C.ObservedRow(C.KeyOf(d), true)
    {
      if i >= |items| {
        assert extra[i - |items|] in C.UnexpectedNames(o, expected);
      }
    }
  }

  lemma UnsharedMeansRowsAgree(o: C.Observation, expected: set<GoldenAssignment>, derived: seq<Assignment>,
                               scope: Option<C.Scope>, items: seq<GoldenAssignment>, extra: seq<LegacyKey>,
                               rows: seq<C.Row>)
    requires RowsAgree(rows, expected, derived)
    requires Enumerates(items, expected) && Enumerates(extra, C.UnexpectedNames(o, expected))
    requires rows == C.ExpectedRows(o, items, scope) + C.ObservedRows(extra, true)
    ensures forall d :: d in derived ==> C.KeyOf(d) in C.UnexpectedNames(o, expected)
  {
    forall d | d in derived ensures C.KeyOf(d) in C.UnexpectedNames(o, expected) {
      var row := C.Row(LegacyKey(d.access, d.identity), false, true, C.Unexpected);
      assert row in rows;
      var i :| 0 <= i < |rows| && rows[i] == row;
      assert i >= |items| && extra[i - |items|] == C.KeyOf(d);
    }
  }

  /**
   * Promoting a snapshot and comparing the same snapshot: every golden assignment is expected and observed
   * under its own name, none is missing, and the unexpected rows are exactly the composite-derived ones, if and only
   * if no derived assignment shares the stable key of a direct one.
   */
  lemma PromotionThenComparisonAgree(snapshot: Snapshot, previous: seq<GoldenVersion>, models: seq<ExpectedModel>,
                                     policy: Option<string>, closure: set<Ref>, derived: seq<Assignment>,
                                     scope: Option<C.Scope>, items: seq<GoldenAssignment>, extra: seq<LegacyKey>,
                                     rows: seq<C.Row>)
    requires CanPromote(snapshot, previous)
    requires scope.None? || scope.value.completeness in {None, Some("full")}
    requires Enumerates(derived, C.DerivedAssignments(snapshot)) && OriginsAgree(snapshot)
    requires var golden := Some(PromotedVersion(snapshot, previous, models, policy, closure));
             var o := C.Observe(snapshot, derived);
             && Enumerates(items, C.Expected(golden)) && Enumerates(extra, C.UnexpectedNames(o, C.Expected(golden)))
             && rows == C.ExpectedRows(o, items, scope) + C.ObservedRows(extra, golden.Some?)
    ensures RowsAgree(rows, (set item | item in GoldenAssignments(snapshot)), derived)
       <==> NoneIsShared(C.Observe(snapshot, derived), |snapshot.assignments|)
  {
    var o, expected := C.Observe(snapshot, derived), set item | item in GoldenAssignments(snapshot);
    C.CompleteMeansFull(scope);
    if NoneIsShared(o, |snapshot.assignments|) {
      SeparateRoundTrips(snapshot, derived, expected, scope);
      RoundTripMeansRowsAgree(o, expected, derived, scope, items, extra, rows);
    } else {
      SharedBreaksRoundTrip(snapshot, derived, expected, scope);
      if RowsAgree(rows, expected, derived) {
        UnsharedMeansRowsAgree(o, expected, derived, scope, items, extra, rows);
        assert false;
      }
    }
  }

  // ----- Renames -----

  /** New names for accesses and identities; the provider is part of a name and stays the same. */
  datatype Renaming = Renaming(access: Ref -> Ref, identity: Ref -> Ref)

  ghost predicate IsRenaming(r: Renaming) {
    && (forall x: Ref :: r.access(x).provider == x.provider && r.identity(x).provider == x.provider)
    && (forall x: Ref, y: Ref :: r.access(x) == r.access(y) ==> x == y)
    && (forall x: Ref, y: Ref :: r.identity(x) == r.identity(y) ==> x == y)
  }

  function RenamedAssignment(r: Renaming, a: Assignment): Assignment {
    a.(access := r.access(a.access), identity := r.identity(a.identity))
  }

  function RenamedAccess(r: Renaming, access: Access): Access {
    access.(ref := r.access(access.ref))
  }

  function RenamedIdentity(r: Renaming, identity: Identity): Identity {
    identity.(ref := r.identity(identity.ref))
  }

  function RenamedRelation(r: Renaming, relation: Relation): Relation {
    relation.(parent := r.access(relation.parent), child := r.access(relation.child))
  }

  function RenamedKey(r: Renaming, key: LegacyKey): LegacyKey {
    LegacyKey(r.access(key.access), r.identity(key.identity))
  }

  /** The snapshot with every access and identity renamed consistently. */
  function Renamed(r: Renaming, s: Snapshot): Snapshot {
    s.(accesses := seq(|s.accesses|, i requires 0 <= i < |s.accesses| => RenamedAccess(r, s.accesses[i])),
       identities := seq(|s.identities|, i requires 0 <= i < |s.identities| => RenamedIdentity(r, s.identities[i])),
       assignments :=
         seq(|s.assignments|, i requires 0 <= i < |s.assignments| => RenamedAssignment(r, s.assignments[i])),
       relations := seq(|s.relations|, i requires 0 <= i < |s.relations| => RenamedRelation(r, s.relations[i])))
  }

  predicate NoComposites(relations: seq<Relation>) {
    forall r :: r in relations ==> !r.origin.composite
  }

  lemma {:induction false} RelationByIdIsMember(relations: seq<Relation>, id: string)
    ensures C.RelationById(relations, id).Some? ==> C.RelationById(relations, id).value in relations
  {
    if relations != [] {
      RelationByIdIsMember(relations[..|relations| - 1], id);
    }
  }

  lemma NothingIsDerived(snapshot: Snapshot)
    requires NoComposites(snapshot.relations)
    ensures C.DerivedAssignments(snapshot) == {}
  {
    forall id ensures C.RelationById(snapshot.relations, id).Some? ==>
                        !C.RelationById(snapshot.relations, id).value.origin.composite
    {
      RelationByIdIsMember(snapshot.relations, id);
    }
  }

  lemma {:induction false} RenamedAccessTable(r: Renaming, accesses: seq<Access>, renamed: seq<Access>, x: Ref)
    requires IsRenaming(r) && |renamed| == |accesses|
    requires forall i :: 0 <= i < |accesses| ==> renamed[i] == RenamedAccess(r, accesses[i])
    ensures r.access(x) in AccessesByRef(renamed) <==> x in AccessesByRef(accesses)
    ensures x in AccessesByRef(accesses) ==>
              AccessesByRef(renamed)[r.access(x)] == RenamedAccess(r, AccessesByRef(accesses)[x])
  {
    if accesses != [] {
      var n := |accesses| - 1;
      RenamedAccessTable(r, accesses[..n], renamed[..n], x);
    }
  }

  lemma {:induction false} RenamedIdentityTable(r: Renaming, identities: seq<Identity>, renamed: seq<Identity>, x: Ref)
    requires IsRenaming(r) && |renamed| == |identities|
    requires forall i :: 0 <= i < |identities| ==> renamed[i] == RenamedIdentity(r, identities[i])
    ensures r.identity(x) in IdentitiesByRef(renamed) <==> x in IdentitiesByRef(identities)
    ensures x in IdentitiesByRef(identities) ==>
              IdentitiesByRef(renamed)[r.identity(x)] == RenamedIdentity(r, IdentitiesByRef(identities)[x])
  {
    if identities != [] {
      var n := |identities| - 1;
      RenamedIdentityTable(r, identities[..n], renamed[..n], x);
    }
  }

  /** Every observed assignment has both native ids. */
  ghost predicate ObservedWithNativeIds(o: C.Observation) {
    forall a :: a in o.assignments ==>
      && a.identity in o.identities && Present(o.identities[a.identity].nativeId)
      && Present(C.ObservedAccessNativeId(o, a))
  }

  predicate WithNativeIds(items: set<GoldenAssignment>) {
    forall item :: item in items ==> Present(item.accessNativeId) && Present(item.identityNativeId)
  }

  lemma RenamedStableKey(r: Renaming, s: Snapshot, i: nat)
    requires IsRenaming(r) && i < |s.assignments| && ObservedWithNativeIds(C.Observe(s, []))
    ensures var o, p := C.Observe(s, []), C.Observe(Renamed(r, s), []);
            && C.ObservedStableKey(o, s.assignments[i]).Some?
            && C.ObservedStableKey(p, RenamedAssignment(r, s.assignments[i]))
                == C.ObservedStableKey(o, s.assignments[i])
  {
    var a := s.assignments[i];
    assert a in C.Observe(s, []).assignments;
    RenamedAccessTable(r, s.accesses, Renamed(r, s).accesses, a.access);
    RenamedIdentityTable(r, s.identities, Renamed(r, s).identities, a.identity);
  }

  function RenamedOption(r: Renaming, key: Option<LegacyKey>): Option<LegacyKey> {
    if key.Some? then Some(RenamedKey(r, key.value)) else None
  }

  /** Position by position, p has the stable keys of o and the renamed names. */
  ghost predicate SameKeysRenamed(r: Renaming, o: C.Observation, p: C.Observation) {
    && |o.assignments| == |p.assignments|
    && forall i :: 0 <= i < |o.assignments| ==>
         && C.ObservedStableKey(p, p.assignments[i]) == C.ObservedStableKey(o, o.assignments[i])
         && C.KeyOf(p.assignments[i]) == RenamedKey(r, C.KeyOf(o.assignments[i]))
  }

  lemma {:induction false} RenamedIndex(r: Renaming, o: C.Observation, p: C.Observation, count: nat, key: StableKey)
    requires SameKeysRenamed(r, o, p) && count <= |o.assignments|
    ensures var index, renamed := C.StableIndex(o, count), C.StableIndex(p, count);
            && (key in renamed <==> key in index)
            && (key in index ==> renamed[key] == RenamedOption(r, index[key]))
  {
    if count > 0 {
      RenamedIndex(r, o, p, count - 1, key);
      var k := C.ObservedStableKey(o, o.assignments[count - 1]);
      if k.Some? && k.value != key {
        RenamedIndex(r, o, p, count - 1, k.value);
      }
    }
  }

  lemma RenamedSnapshotKeepsKeys(r: Renaming, s: Snapshot)
    requires IsRenaming(r) && ObservedWithNativeIds(C.Observe(s, []))
    ensures SameKeysRenamed(r, C.Observe(s, []), C.Observe(Renamed(r, s), []))
  {
    forall i | 0 <= i < |s.assignments|
      ensures C.ObservedStableKey(C.Observe(Renamed(r, s), []), RenamedAssignment(r, s.assignments[i]))
           == C.ObservedStableKey(C.Observe(s, []), s.assignments[i])
    {
      RenamedStableKey(r, s, i);
    }
  }

  lemma EverythingHasStableKey(o: C.Observation)
    requires ObservedWithNativeIds(o)
    ensures C.NamesWithoutStableKey(o) == {}
  {
  }

  lemma RenamedHasNativeIds(r: Renaming, s: Snapshot)
    requires IsRenaming(r) && ObservedWithNativeIds(C.Observe(s, []))
    ensures ObservedWithNativeIds(C.Observe(Renamed(r, s), []))
  {
    var p := C.Observe(Renamed(r, s), []);
    forall b | b in p.assignments
      ensures b.identity in p.identities && Present(p.identities[b.identity].nativeId)
           && Present(C.ObservedAccessNativeId(p, b))
    {
      var i :| 0 <= i < |p.assignments| && p.assignments[i] == b;
      var a := s.assignments[i];
      assert a in C.Observe(s, []).assignments;
      RenamedAccessTable(r, s.accesses, Renamed(r, s).accesses, a.access);
      RenamedIdentityTable(r, s.identities, Renamed(r, s).identities, a.identity);
    }
  }

  function IndexAt(o: C.Observation, item: GoldenAssignment): Option<LegacyKey> {
    var index, key := C.StableIndex(o, |o.assignments|), StableKeyOf(item);
    if key.Some? && key.value in index then index[key.value] else None
  }

  lemma MatchByIndex(o: C.Observation, item: GoldenAssignment)
    requires ObservedWithNativeIds(o)
    ensures C.MatchFor(o, item) == IndexAt(o, item)
  {
    EverythingHasStableKey(o);
  }

  lemma RenamedIndexAt(r: Renaming, o: C.Observation, p: C.Observation, item: GoldenAssignment)
    requires SameKeysRenamed(r, o, p)
    ensures IndexAt(p, item) == RenamedOption(r, IndexAt(o, item))
  {
    if HasStableKey(item) {
      RenamedIndex(r, o, p, |o.assignments|, StableKeyOf(item).value);
    }
  }

  lemma RenamedMatch(r: Renaming, s: Snapshot, item: GoldenAssignment)
    requires IsRenaming(r) && ObservedWithNativeIds(C.Observe(s, []))
    ensures C.MatchFor(C.Observe(Renamed(r, s), []), item) == RenamedOption(r, C.MatchFor(C.Observe(s, []), item))
  {
    RenamedHasNativeIds(r, s);
    MatchByIndex(C.Observe(s, []), item);
    MatchByIndex(C.Observe(Renamed(r, s), []), item);
    RenamedSnapshotKeepsKeys(r, s);
    RenamedIndexAt(r, C.Observe(s, []), C.Observe(Renamed(r, s), []), item);
  }

  lemma {:induction false} RenamedLast(r: Renaming, assignments: seq<Assignment>, renamed: seq<Assignment>,
                                       name: LegacyKey)
    requires IsRenaming(r) && |renamed| == |assignments|
    requires forall i :: 0 <= i < |assignments| ==> renamed[i] == RenamedAssignment(r, assignments[i])
    ensures RenamedKey(r, name) in C.LastByName(renamed) <==> name in C.LastByName(assignments)
    ensures name in C.LastByName(assignments) ==>
              C.LastByName(renamed)[RenamedKey(r, name)] == RenamedAssignment(r, C.LastByName(assignments)[name])
  {
    if assignments != [] {
      var n := |assignments| - 1;
      RenamedLast(r, assignments[..n], renamed[..n], name);
    }
  }

  lemma RenamedMatchedNames(r: Renaming, s: Snapshot, expected: set<GoldenAssignment>, name: LegacyKey)
    requires IsRenaming(r) && ObservedWithNativeIds(C.Observe(s, []))
    ensures name in C.MatchedNames(C.Observe(s, []), expected)
       <==> RenamedKey(r, name) in C.MatchedNames(C.Observe(Renamed(r, s), []), expected)
  {
    var o, p := C.Observe(s, []), C.Observe(Renamed(r, s), []);
    forall item ensures C.MatchFor(o, item) == Some(name) <==> C.MatchFor(p, item) == Some(RenamedKey(r, name)) {
      RenamedMatch(r, s, item);
    }
  }

  lemma RenamedUnexpected(r: Renaming, s: Snapshot, expected: set<GoldenAssignment>, name: LegacyKey)
    requires IsRenaming(r) && ObservedWithNativeIds(C.Observe(s, []))
    ensures C.IsUnexpected(C.Observe(s, []), expected, name)
       <==> C.IsUnexpected(C.Observe(Renamed(r, s), []), expected, RenamedKey(r, name))
  {
    var o, p := C.Observe(s, []), C.Observe(Renamed(r, s), []);
    RenamedLast(r, o.assignments, p.assignments, name);
    RenamedMatchedNames(r, s, expected, name);
    if name in C.LastByName(o.assignments) {
      RenamedLastKey(r, s, name);
    }
  }

  lemma RenamedLastKey(r: Renaming, s: Snapshot, name: LegacyKey)
    requires IsRenaming(r) && ObservedWithNativeIds(C.Observe(s, []))
    requires name in C.LastByName(C.Observe(s, []).assignments)
    ensures var last := C.LastByName(C.Observe(s, []).assignments)[name];
            C.ObservedStableKey(C.Observe(Renamed(r, s), []), RenamedAssignment(r, last))
            == C.ObservedStableKey(C.Observe(s, []), last)
  {
    var o := C.Observe(s, []);
    C.LastByNameKeys(o.assignments);
    var i :| 0 <= i < |s.assignments| && s.assignments[i] == C.LastByName(o.assignments)[name];
    RenamedStableKey(r, s, i);
  }

  lemma {:induction false} ImageSize(r: Renaming, names: set<LegacyKey>, image: set<LegacyKey>)
    requires IsRenaming(r) && image == set name | name in names :: RenamedKey(r, name)
    ensures |image| == |names|
  {
    if names != {} {
      var name :| name in names;
      var rest := set n | n in names - {name} :: RenamedKey(r, n);
      ImageSize(r, names - {name}, rest);
      assert image == rest + {RenamedKey(r, name)};
    }
  }

  /** What the rows say, without the names. */
  function Shapes(rows: seq<C.Row>): seq<(bool, bool, C.Classification)> {
    seq(|rows|, i requires 0 <= i < |rows| => (rows[i].expected, rows[i].observed, rows[i].classification))
  }

  /**
   * Renaming accesses and identities of a snapshot without composite relations changes no classification,
   * when every observed and golden assignment has both native ids.
   */
  lemma RenamesDoNotShow(r: Renaming, s: Snapshot, golden: Option<GoldenVersion>, scope: Option<C.Scope>,
                         items: seq<GoldenAssignment>, extra: seq<LegacyKey>, renamedExtra: seq<LegacyKey>)
    requires IsRenaming(r) && NoComposites(s.relations)
    requires ObservedWithNativeIds(C.Observe(s, [])) && WithNativeIds(C.Expected(golden))
    requires Enumerates(items, C.Expected(golden))
    requires Enumerates(extra, C.UnexpectedNames(C.Observe(s, []), C.Expected(golden)))
    requires Enumerates(renamedExtra, C.UnexpectedNames(C.Observe(Renamed(r, s), []), C.Expected(golden)))
    ensures C.DerivedAssignments(s) == {} == C.DerivedAssignments(Renamed(r, s))
    ensures Shapes(C.ExpectedRows(C.Observe(s, []), items, scope) + C.ObservedRows(extra, golden.Some?))
         == Shapes(C.ExpectedRows(C.Observe(Renamed(r, s), []), items, scope)
                   + C.ObservedRows(renamedExtra, golden.Some?))
  {
    var o, p, expected := C.Observe(s, []), C.Observe(Renamed(r, s), []), C.Expected(golden);
    NothingIsDerived(s);
    NothingIsDerived(Renamed(r, s));
    RenamedExpectedShapes(r, s, items, scope);
    SameLeftOverCount(r, s, expected);
    SizeOf(extra, C.UnexpectedNames(o, expected));
    SizeOf(renamedExtra, C.UnexpectedNames(p, expected));
    ShapesConcat(C.ExpectedRows(o, items, scope), C.ObservedRows(extra, golden.Some?));
    ShapesConcat(C.ExpectedRows(p, items, scope), C.ObservedRows(renamedExtra, golden.Some?));
    assert Shapes(C.ObservedRows(extra, golden.Some?)) == Shapes(C.ObservedRows(renamedExtra, golden.Some?));
  }

  lemma ShapesConcat(first: seq<C.Row>, second: seq<C.Row>)
    ensures Shapes(first + second) == Shapes(first) + Shapes(second)
  {
  }

  lemma RenamedExpectedShapes(r: Renaming, s: Snapshot, items: seq<GoldenAssignment>, scope: Option<C.Scope>)
    requires IsRenaming(r) && ObservedWithNativeIds(C.Observe(s, []))
    requires forall item :: item in items ==> HasStableKey(item)
    ensures Shapes(C.ExpectedRows(C.Observe(s, []), items, scope))
         == Shapes(C.ExpectedRows(C.Observe(Renamed(r, s), []), items, scope))
  {
    var o, p := C.Observe(s, []), C.Observe(Renamed(r, s), []);
    forall i | 0 <= i < |items|
      ensures Shapes(C.ExpectedRows(o, items, scope))[i] == Shapes(C.ExpectedRows(p, items, scope))[i]
    {
      assert items[i] in items;
      RenamedMatch(r, s, items[i]);
    }
  }

  lemma UnexpectedIsRenamed(r: Renaming, s: Snapshot, expected: set<GoldenAssignment>, name: LegacyKey)
    requires IsRenaming(r) && ObservedWithNativeIds(C.Observe(s, []))
    ensures name in C.UnexpectedNames(C.Observe(s, []), expected)
       <==> RenamedKey(r, name) in C.UnexpectedNames(C.Observe(Renamed(r, s), []), expected)
  {
    var o, p := C.Observe(s, []), C.Observe(Renamed(r, s), []);
    RenamedUnexpected(r, s, expected, name);
    RenamedLast(r, o.assignments, p.assignments, name);
    C.LastByNameKeys(o.assignments);
    C.LastByNameKeys(p.assignments);
  }

  lemma RenamedNamesAreImages(r: Renaming, s: Snapshot, key: LegacyKey)
    requires key in C.ObservedNames(C.Observe(Renamed(r, s), []))
    ensures exists name :: RenamedKey(r, name) == key
  {
    var p := C.Observe(Renamed(r, s), []);
    var b :| b in p.assignments && C.KeyOf(b) == key;
    var i :| 0 <= i < |p.assignments| && p.assignments[i] == b;
    assert RenamedKey(r, C.KeyOf(s.assignments[i])) == key;
  }

  lemma SameLeftOverCount(r: Renaming, s: Snapshot, expected: set<GoldenAssignment>)
    requires IsRenaming(r) && ObservedWithNativeIds(C.Observe(s, []))
    ensures |C.UnexpectedNames(C.Observe(Renamed(r, s), []), expected)|
         == |C.UnexpectedNames(C.Observe(s, []), expected)|
  {
    var names := C.UnexpectedNames(C.Observe(s, []), expected);
    var image := C.UnexpectedNames(C.Observe(Renamed(r, s), []), expected);
    forall name ensures name in names <==> RenamedKey(r, name) in image {
      UnexpectedIsRenamed(r, s, expected, name);
    }
    forall key | key in image ensures exists name :: name in names && RenamedKey(r, name) == key {
      RenamedNamesAreImages(r, s, key);
      var name :| RenamedKey(r, name) == key;
      assert name in names;
    }
    ImageSize(r, names, image);
  }

  lemma {:induction false} SizeOf<T(!new)>(list: seq<T>, items: set<T>)
    requires Enumerates(list, items)
    ensures |list| == |items|
  {
    if list == [] {
      assert items == {};
    } else {
      var n := |list| - 1;
      var x := list[n];
      forall y ensures y in list[..n] <==> y in items - {x} {
        if y in items - {x} {
          var i :| 0 <= i < |list| && list[i] == y;
          assert list[..n][i] == y;
        }
      }
      SizeOf(list[..n], items - {x});
    }
  }
}
