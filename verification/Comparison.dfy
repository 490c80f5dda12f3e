/** Comparing an observed snapshot with a Golden version. */
module Comparison {
  import opened Domain
  import opened GrantGraph
  import opened EffectiveAccess
  import opened EffectiveAccessEngine
  import opened GoldenVersions

  datatype Classification = ExpectedAndObserved | Missing | Unexpected | UnknownDueToScope | NoReference

  datatype Row = Row(key: LegacyKey, expected: bool, observed: bool, classification: Classification)

  /** The scope of an import: its kind, the values it names and its completeness. */
  datatype Scope = Scope(kind: string, values: set<string>, completeness: Option<string>)

  /** The observed side: the list of assignments and the tables they refer to. */
  datatype Observation = Observation(assignments: seq<Assignment>, accesses: map<Ref, Access>,
                                     identities: map<Ref, Identity>)

  const DEFAULT_PATH_LIMIT := 100

  function KeyOf(a: Assignment): LegacyKey {
    LegacyKey(a.access, a.identity)
  }

  predicate IncompleteScope(scope: Option<Scope>) {
    scope.Some? && scope.value.completeness.Some? && scope.value.completeness.value != "full"
  }

  predicate InAuthoritativeScope(access: Ref, scope: Option<Scope>) {
    && !IncompleteScope(scope)
    && (scope.None? || scope.value.kind == "all"
        || (scope.value.kind == "providers" && access.provider in scope.value.values)
        || (scope.value.kind == "accesses" && access.name in scope.value.values))
  }

  // ----- Accesses derived through composite relations count as observed -----

  function AssignmentById(assignments: seq<Assignment>, id: string): Option<Assignment> {
    if assignments == [] then None
    else
      var last := assignments[|assignments| - 1];
      if last.id == id then Some(last) else AssignmentById(assignments[..|assignments| - 1], id)
  }

  function RelationById(relations: seq<Relation>, id: string): Option<Relation> {
    if relations == [] then None
    else
      var last := relations[|relations| - 1];
      if last.id == id then Some(last) else RelationById(relations[..|relations| - 1], id)
  }

  predicate IsCompositePath(relations: seq<Relation>, path: Path) {
    exists id :: id in path.relationIds && RelationById(relations, id).Some?
              && RelationById(relations, id).value.origin.composite
  }

  /** A holding that no assignment names directly and whose first path goes through a composite relation. */
  predicate IsDerived(snapshot: Snapshot, results: Results, h: Holding) {
    && h in results && !results[h].direct
    && (forall a :: a in snapshot.assignments ==> KeyOf(a) != LegacyKey(h.access, h.identity))
    && results[h].paths != []
    && AssignmentById(snapshot.assignments, results[h].paths[0].assignmentId).Some?
    && IsCompositePath(snapshot.relations, results[h].paths[0])
  }

  function DerivedAssignment(h: Holding, results: Results): Assignment
    requires h in results && results[h].paths != []
  {
    var source := "derived:" + results[h].paths[0].assignmentId;
    Assignment(h.access, h.identity, Origin(source, None, true, None, false),
               source + ":" + h.access.provider + ":" + h.access.name)
  }

  ghost function ResultsOf(snapshot: Snapshot): Results {
    Evaluate(snapshot.assignments, snapshot.relations, Some(AccessRefs(snapshot.accesses)), DEFAULT_PATH_LIMIT).results
  }

  ghost function DerivedAssignments(snapshot: Snapshot): set<Assignment> {
    var results := ResultsOf(snapshot);
    set h | h in results && IsDerived(snapshot, results, h) :: DerivedAssignment(h, results)
  }

  function Observe(snapshot: Snapshot, derived: seq<Assignment>): Observation {
    Observation(snapshot.assignments + derived, AccessesByRef(snapshot.accesses), IdentitiesByRef(snapshot.identities))
  }

  // ----- Keys of observed assignments -----

  /** The native id that the origin carries wins over that of the control object. */
  function ObservedAccessNativeId(o: Observation, a: Assignment): Option<string> {
    if Present(a.origin.rawNativeId) then a.origin.rawNativeId
    else if a.access in o.accesses then AccessNativeId(o.accesses[a.access])
    else None
  }

  function ObservedPermission(o: Observation, a: Assignment): Option<string> {
    if a.access in o.accesses then o.accesses[a.access].permission else None
  }

  function ObservedStableKey(o: Observation, a: Assignment): Option<StableKey> {
    if a.identity !in o.identities then None
    else
      var accessNativeId, identityNativeId := ObservedAccessNativeId(o, a), o.identities[a.identity].nativeId;
      if !Present(accessNativeId) && !Present(identityNativeId) then None
      else Some(MakeStableKey(a.access, accessNativeId, ObservedPermission(o, a), a.identity, identityNativeId))
  }

  /** The same assignment under the display name of its access, when that differs from the name. */
  function AliasOf(o: Observation, a: Assignment): Option<LegacyKey> {
    if a.access in o.accesses && Present(o.accesses[a.access].displayName)
       && o.accesses[a.access].displayName.value != a.access.name
    then Some(LegacyKey(Ref(a.access.provider, o.accesses[a.access].displayName.value), a.identity))
    else None
  }

  function ObservedNames(o: Observation): set<LegacyKey> {
    set a | a in o.assignments :: KeyOf(a)
  }

  function ObservedAliases(o: Observation): set<LegacyKey> {
    set a | a in o.assignments && AliasOf(o, a).Some? :: AliasOf(o, a).value
  }

  /** The names, and aliases, of the assignments that have no stable key. */
  function NamesWithoutStableKey(o: Observation): set<LegacyKey> {
    (set a | a in o.assignments && ObservedStableKey(o, a).None? :: KeyOf(a))
    + set a | a in o.assignments && ObservedStableKey(o, a).None? && AliasOf(o, a).Some? :: AliasOf(o, a).value
  }

  /** Stable keys to names; a stable key that is observed more than once leads nowhere. */
  function StableIndex(o: Observation, count: nat): map<StableKey, Option<LegacyKey>>
    requires count <= |o.assignments|
  {
    if count == 0 then map[]
    else
      var index, a := StableIndex(o, count - 1), o.assignments[count - 1];
      var key := ObservedStableKey(o, a);
      if key.None? then index
      else index[key.value := if key.value in index then None else Some(KeyOf(a))]
  }

  /** The last observed assignment of each name. */
  function LastByName(assignments: seq<Assignment>): map<LegacyKey, Assignment> {
    if assignments == [] then map[]
    else
      var last := assignments[|assignments| - 1];
      LastByName(assignments[..|assignments| - 1])[KeyOf(last) := last]
  }

  // ----- Rows -----

  /** The observed name that an expected assignment is matched with. */
  function MatchFor(o: Observation, item: GoldenAssignment): Option<LegacyKey> {
    var index, key, name := StableIndex(o, |o.assignments|), StableKeyOf(item), LegacyKeyOf(item);
    if key.Some? && key.value in index && index[key.value].Some? then index[key.value]
    else if name in NamesWithoutStableKey(o) then Some(name)
    else None
  }

  function ExpectedRow(o: Observation, item: GoldenAssignment, scope: Option<Scope>): Row {
    var matched := MatchFor(o, item);
    var name := LegacyKeyOf(item);
    if matched.Some? then
      Row(matched.value, true, true, if IncompleteScope(scope) then UnknownDueToScope else ExpectedAndObserved)
    else
      Row(name, true, false,
          if !HasStableKey(item) && name in ObservedNames(o) + ObservedAliases(o) then UnknownDueToScope
          else if InAuthoritativeScope(item.access, scope) then Missing
          else UnknownDueToScope)
  }

  function ObservedRow(key: LegacyKey, hasGolden: bool): Row {
    Row(key, false, true, if hasGolden then Unexpected else NoReference)
  }

  function Expected(golden: Option<GoldenVersion>): set<GoldenAssignment> {
    if golden.Some? then golden.value.assignments else {}
  }

  function MatchedNames(o: Observation, expected: set<GoldenAssignment>): set<LegacyKey> {
    set item | item in expected && MatchFor(o, item).Some? :: MatchFor(o, item).value
  }

  function ExpectedStableKeys(expected: set<GoldenAssignment>): set<StableKey> {
    set item | item in expected && HasStableKey(item) :: StableKeyOf(item).value
  }

  predicate IsUnexpected(o: Observation, expected: set<GoldenAssignment>, name: LegacyKey) {
    var last := LastByName(o.assignments);
    && name in last && name !in MatchedNames(o, expected)
    && (var key := ObservedStableKey(o, last[name]); key.None? || key.value !in ExpectedStableKeys(expected))
  }

  /** The observed names that no expected assignment accounts for. */
  function UnexpectedNames(o: Observation, expected: set<GoldenAssignment>): set<LegacyKey> {
    set name | name in ObservedNames(o) && IsUnexpected(o, expected, name)
  }

  function ExpectedRows(o: Observation, items: seq<GoldenAssignment>, scope: Option<Scope>): seq<Row> {
    seq(|items|, i requires 0 <= i < |items| => ExpectedRow(o, items[i], scope))
  }

  function ObservedRows(names: seq<LegacyKey>, hasGolden: bool): seq<Row> {
    seq(|names|, i requires 0 <= i < |names| => ObservedRow(names[i], hasGolden))
  }

  // ----- The stable index -----

  /** Position i is the only one, below count, with this stable key. */
  ghost predicate OnlyAt(o: Observation, count: nat, key: StableKey, i: int) {
    && 0 <= i < count <= |o.assignments|
    && ObservedStableKey(o, o.assignments[i]) == Some(key)
    && forall j :: 0 <= j < count && j != i ==> ObservedStableKey(o, o.assignments[j]) != Some(key)
  }

  ghost predicate Occurs(o: Observation, count: nat, key: StableKey) {
    exists i :: 0 <= i < count <= |o.assignments| && ObservedStableKey(o, o.assignments[i]) == Some(key)
  }

  /** A stable key leads to a name exactly when one observed assignment has it. */
  lemma {:induction false} StableIndexMeaning(o: Observation, count: nat, key: StableKey)
    requires count <= |o.assignments|
    ensures key in StableIndex(o, count) <==> Occurs(o, count, key)
    ensures forall i :: OnlyAt(o, count, key, i) ==> StableIndex(o, count)[key] == Some(KeyOf(o.assignments[i]))
    ensures key in StableIndex(o, count) && StableIndex(o, count)[key].Some? ==>
              exists i :: OnlyAt(o, count, key, i)
  {
    if count > 0 {
      var n := count - 1;
      StableIndexMeaning(o, n, key);
      var found := ObservedStableKey(o, o.assignments[n]);
      if found == Some(key) {
        assert Occurs(o, count, key);
        if !Occurs(o, n, key) {
          assert OnlyAt(o, count, key, n);
        }
        forall i | OnlyAt(o, count, key, i) ensures i == n && !Occurs(o, n, key) {
        }
      } else {
        assert Occurs(o, count, key) <==> Occurs(o, n, key);
        forall i ensures OnlyAt(o, count, key, i) <==> OnlyAt(o, n, key, i) {
        }
      }
    }
  }

  // ----- What the rows say, from the observed and the expected assignments themselves -----

  /** The native id that was observed for the access: that of the origin if it carries one. */
  predicate IsObservedId(o: Observation, a: Assignment, nativeId: Option<string>) {
    if a.origin.rawNativeId !in {None, Some("")} then nativeId == a.origin.rawNativeId
    else if a.access in o.accesses && o.accesses[a.access].controlObject.Some?
    then nativeId == o.accesses[a.access].controlObject.value.nativeId
    else nativeId == None
  }

  /** The observed assignment is the expected one by native id, in the same providers and with the same permission. */
  ghost predicate Identifies(o: Observation, a: Assignment, item: GoldenAssignment) {
    && a.identity in o.identities
    && a.access.provider == item.access.provider && a.identity.provider == item.identity.provider
    && SameObject(item.identityNativeId, item.identity.name, o.identities[a.identity].nativeId, a.identity.name)
    && !(item.accessNativeId in {None, Some("")} && item.identityNativeId in {None, Some("")})
    && exists nativeId :: IsObservedId(o, a, nativeId)
         && SameObject(item.accessNativeId, item.access.name, nativeId, a.access.name)
         && (item.accessNativeId !in {None, Some("")} ==>
               Text(item.accessPermission)
               == if a.access in o.accesses then Text(o.accesses[a.access].permission) else "")
  }

  ghost predicate IdentifiedOnlyBy(o: Observation, item: GoldenAssignment, i: int) {
    && 0 <= i < |o.assignments| && Identifies(o, o.assignments[i], item)
    && forall j :: 0 <= j < |o.assignments| && j != i ==> !Identifies(o, o.assignments[j], item)
  }

  /** The identity is unknown, or neither the access nor the identity was observed with a native id. */
  predicate HasNoIds(o: Observation, a: Assignment) {
    a.identity in o.identities ==>
      && o.identities[a.identity].nativeId in {None, Some("")}
      && (IsObservedId(o, a, None) || IsObservedId(o, a, Some("")))
  }

  /** The assignment appears under the name of its access or under the display name of its access. */
  predicate AppearsAs(o: Observation, a: Assignment, name: LegacyKey) {
    && a.identity == name.identity
    && (a.access == name.access
        || (a.access in o.accesses && a.access.provider == name.access.provider && name.access.name != ""
            && o.accesses[a.access].displayName == Some(name.access.name)))
  }

  /** The only observed assignment that is the expected one by native id, or one without native ids of its name. */
  ghost predicate IsObserved(o: Observation, item: GoldenAssignment) {
    || (exists i :: IdentifiedOnlyBy(o, item, i))
    || (exists a :: a in o.assignments && HasNoIds(o, a) && AppearsAs(o, a, LegacyKey(item.access, item.identity)))
  }

  /** Collection was complete and covered the access, so that what was not observed is not there. */
  predicate WasCollected(scope: Option<Scope>, access: Ref) {
    match scope
    case None => true
    case Some(Scope(kind, values, completeness)) =>
      && completeness in {None, Some("full")}
      && (kind == "all" || (kind == "providers" && access.provider in values)
          || (kind == "accesses" && access.name in values))
  }

  /** The expected assignment has no native ids but its name was observed, for an assignment with native ids. */
  ghost predicate IsAmbiguous(o: Observation, item: GoldenAssignment) {
    && item.accessNativeId in {None, Some("")} && item.identityNativeId in {None, Some("")}
    && exists a :: a in o.assignments && AppearsAs(o, a, LegacyKey(item.access, item.identity))
  }

  ghost predicate TellsExpected(o: Observation, item: GoldenAssignment, scope: Option<Scope>, row: Row) {
    && row.expected && (row.observed <==> IsObserved(o, item))
    && (forall i :: IdentifiedOnlyBy(o, item, i) ==>
          row.key == LegacyKey(o.assignments[i].access, o.assignments[i].identity))
    && ((forall i :: !IdentifiedOnlyBy(o, item, i)) ==> row.key == LegacyKey(item.access, item.identity))
    && (row.classification == ExpectedAndObserved
        <==> row.observed && (scope.None? || scope.value.completeness in {None, Some("full")}))
    && (row.classification == Missing
        <==> !row.observed && WasCollected(scope, item.access) && !IsAmbiguous(o, item))
    && row.classification in {ExpectedAndObserved, Missing, UnknownDueToScope}
  }

  /** The name is left over: no row matched it, and its last observed assignment is no expected one by native id. */
  ghost predicate IsLeftOver(o: Observation, items: seq<GoldenAssignment>, rows: seq<Row>, name: LegacyKey) {
    && (forall row :: row in rows && row.expected && row.observed ==> row.key != name)
    && exists i :: 0 <= i < |o.assignments| && KeyOf(o.assignments[i]) == name
         && (forall j :: i < j < |o.assignments| ==> KeyOf(o.assignments[j]) != name)
         && forall item :: item in items ==> !Identifies(o, o.assignments[i], item)
  }

  /** A row behind those of the expected assignments: observed, not expected, under a name that is left over. */
  ghost predicate TellsLeftOver(o: Observation, items: seq<GoldenAssignment>, hasGolden: bool, rows: seq<Row>, row: Row)
  {
    && !row.expected && row.observed && row.classification == (if hasGolden then Unexpected else NoReference)
    && IsLeftOver(o, items, rows, row.key)
  }

  ghost predicate HasRowFrom(rows: seq<Row>, from: nat, name: LegacyKey) {
    exists i :: from <= i < |rows| && rows[i].key == name
  }

  /** The rows behind those of the expected assignments are those of the names left over, once each. */
  ghost predicate TellLeftOver(o: Observation, items: seq<GoldenAssignment>, hasGolden: bool, rows: seq<Row>) {
    && (forall i :: |items| <= i < |rows| ==> TellsLeftOver(o, items, hasGolden, rows, rows[i]))
    && (forall i, j :: |items| <= i < j < |rows| ==> rows[i].key != rows[j].key)
    && (forall name :: IsLeftOver(o, items, rows, name) ==> HasRowFrom(rows, |items|, name))
  }

  /**
   * One row for each expected assignment, and behind them one for each name left over: observed, not expected, and
   * unexpected if there is a Golden version, without a reference if there is none.
   */
  ghost predicate TellComparison(o: Observation, items: seq<GoldenAssignment>, scope: Option<Scope>, hasGolden: bool,
                                 rows: seq<Row>)
  {
    && |items| <= |rows| && (forall i :: 0 <= i < |items| ==> TellsExpected(o, items[i], scope, rows[i]))
    && TellLeftOver(o, items, hasGolden, rows)
  }

  lemma ObservedIdIsIt(o: Observation, a: Assignment, nativeId: Option<string>)
    ensures IsObservedId(o, a, nativeId) <==> nativeId == ObservedAccessNativeId(o, a)
  {
  }

  lemma CompleteMeansFull(scope: Option<Scope>)
    ensures IncompleteScope(scope) <==> scope.Some? && scope.value.completeness !in {None, Some("full")}
    ensures forall access :: InAuthoritativeScope(access, scope) <==> WasCollected(scope, access)
  {
    if scope.Some? && scope.value.completeness.Some? && scope.value.completeness.value == "full" {
      assert scope.value.completeness == Some("full");
    }
  }

  lemma StableKeyIdentifies(o: Observation, a: Assignment, item: GoldenAssignment)
    ensures Identifies(o, a, item) <==> HasStableKey(item) && ObservedStableKey(o, a) == StableKeyOf(item)
  {
    var nativeId := ObservedAccessNativeId(o, a);
    TextIsPresent(item.accessNativeId);
    TextIsPresent(item.identityNativeId);
    SameObjectMeansSameRef(item.accessNativeId, item.access.name, nativeId, a.access.name);
    if a.identity in o.identities {
      SameObjectMeansSameRef(item.identityNativeId, item.identity.name, o.identities[a.identity].nativeId,
                             a.identity.name);
    }
    forall other ensures IsObservedId(o, a, other) <==> other == nativeId {
      ObservedIdIsIt(o, a, other);
    }
  }

  lemma NoStableKeyMeansNoIds(o: Observation, a: Assignment)
    ensures ObservedStableKey(o, a).None? <==> HasNoIds(o, a)
  {
    ObservedIdIsIt(o, a, None);
    ObservedIdIsIt(o, a, Some(""));
    TextIsPresent(ObservedAccessNativeId(o, a));
    if a.identity in o.identities {
      TextIsPresent(o.identities[a.identity].nativeId);
    }
  }

  lemma NameOrAlias(o: Observation, a: Assignment, name: LegacyKey)
    ensures AppearsAs(o, a, name) <==> KeyOf(a) == name || AliasOf(o, a) == Some(name)
  {
  }

  lemma ShownMeansAppears(o: Observation, name: LegacyKey)
    ensures name in ObservedNames(o) + ObservedAliases(o) <==> exists a :: a in o.assignments && AppearsAs(o, a, name)
    ensures name in NamesWithoutStableKey(o)
       <==> exists a :: a in o.assignments && HasNoIds(o, a) && AppearsAs(o, a, name)
  {
    forall a ensures AppearsAs(o, a, name) <==> KeyOf(a) == name || AliasOf(o, a) == Some(name) {
      NameOrAlias(o, a, name);
    }
    forall a ensures ObservedStableKey(o, a).None? <==> HasNoIds(o, a) {
      NoStableKeyMeansNoIds(o, a);
    }
  }

  lemma OnlyOneIdentifies(o: Observation, item: GoldenAssignment, i: int)
    ensures IdentifiedOnlyBy(o, item, i)
       <==> HasStableKey(item) && OnlyAt(o, |o.assignments|, StableKeyOf(item).value, i)
  {
    forall j | 0 <= j < |o.assignments|
      ensures Identifies(o, o.assignments[j], item)
         <==> HasStableKey(item) && ObservedStableKey(o, o.assignments[j]) == StableKeyOf(item)
    {
      StableKeyIdentifies(o, o.assignments[j], item);
    }
  }

  lemma MatchMeans(o: Observation, item: GoldenAssignment)
    ensures MatchFor(o, item).Some? <==> IsObserved(o, item)
    ensures forall i :: IdentifiedOnlyBy(o, item, i) ==> MatchFor(o, item) == Some(KeyOf(o.assignments[i]))
    ensures (forall i :: !IdentifiedOnlyBy(o, item, i)) && MatchFor(o, item).Some? ==>
              MatchFor(o, item).value == LegacyKeyOf(item)
  {
    ShownMeansAppears(o, LegacyKeyOf(item));
    forall i ensures IdentifiedOnlyBy(o, item, i)
                <==> HasStableKey(item) && OnlyAt(o, |o.assignments|, StableKeyOf(item).value, i)
    {
      OnlyOneIdentifies(o, item, i);
    }
    if HasStableKey(item) {
      StableIndexMeaning(o, |o.assignments|, StableKeyOf(item).value);
    }
  }

  lemma ExpectedRowTells(o: Observation, item: GoldenAssignment, scope: Option<Scope>)
    ensures TellsExpected(o, item, scope, ExpectedRow(o, item, scope))
  {
    MatchMeans(o, item);
    ShownMeansAppears(o, LegacyKeyOf(item));
    CompleteMeansFull(scope);
    TextIsPresent(item.accessNativeId);
    TextIsPresent(item.identityNativeId);
  }

  /** The position of the last observed assignment of a name. */
  ghost predicate IsLastOf(assignments: seq<Assignment>, name: LegacyKey, i: int) {
    && 0 <= i < |assignments| && KeyOf(assignments[i]) == name
    && forall j :: i < j < |assignments| ==> KeyOf(assignments[j]) != name
  }

  lemma {:induction false} LastByNameIsLast(assignments: seq<Assignment>, name: LegacyKey)
    ensures forall i :: IsLastOf(assignments, name, i) ==>
              name in LastByName(assignments) && LastByName(assignments)[name] == assignments[i]
    ensures name in LastByName(assignments) ==> exists i :: IsLastOf(assignments, name, i)
  {
    if assignments != [] {
      var n := |assignments| - 1;
      LastByNameIsLast(assignments[..n], name);
      if KeyOf(assignments[n]) == name {
        assert IsLastOf(assignments, name, n);
      } else {
        forall i ensures IsLastOf(assignments, name, i) <==> IsLastOf(assignments[..n], name, i) {
        }
      }
    }
  }

  lemma MatchedIsObserved(o: Observation, items: seq<GoldenAssignment>, expected: set<GoldenAssignment>,
                          scope: Option<Scope>, extra: seq<LegacyKey>, hasGolden: bool, name: LegacyKey)
    requires Enumerates(items, expected)
    ensures var rows := ExpectedRows(o, items, scope) + ObservedRows(extra, hasGolden);
            name in MatchedNames(o, expected) <==> exists row :: row in rows && row.expected && row.observed
                                                                 && row.key == name
  {
    var rows := ExpectedRows(o, items, scope) + ObservedRows(extra, hasGolden);
    if name in MatchedNames(o, expected) {
      var item :| item in expected && MatchFor(o, item) == Some(name);
      var i :| 0 <= i < |items| && items[i] == item;
      assert rows[i] in rows && rows[i].key == name;
    }
    if row :| row in rows && row.expected && row.observed && row.key == name {
      var i :| 0 <= i < |rows| && rows[i] == row;
      assert i < |items| && items[i] in expected && MatchFor(o, items[i]) == Some(name);
    }
  }

  lemma UnidentifiedMeans(o: Observation, items: seq<GoldenAssignment>, expected: set<GoldenAssignment>, a: Assignment)
    requires Enumerates(items, expected)
    ensures (forall item :: item in items ==> !Identifies(o, a, item))
       <==> (ObservedStableKey(o, a).None? || ObservedStableKey(o, a).value !in ExpectedStableKeys(expected))
  {
    forall item ensures Identifies(o, a, item) <==> HasStableKey(item) && ObservedStableKey(o, a) == StableKeyOf(item) {
      StableKeyIdentifies(o, a, item);
    }
  }

  lemma LeftOverMeans(o: Observation, items: seq<GoldenAssignment>, expected: set<GoldenAssignment>,
                      scope: Option<Scope>, extra: seq<LegacyKey>, hasGolden: bool, name: LegacyKey)
    requires Enumerates(items, expected)
    ensures IsLeftOver(o, items, ExpectedRows(o, items, scope) + ObservedRows(extra, hasGolden), name)
       <==> name in UnexpectedNames(o, expected)
  {
    MatchedIsObserved(o, items, expected, scope, extra, hasGolden, name);
    LastByNameIsLast(o.assignments, name);
    LastByNameKeys(o.assignments);
    if i :| IsLastOf(o.assignments, name, i) {
      UnidentifiedMeans(o, items, expected, o.assignments[i]);
    }
  }

  lemma LeftOverTells(o: Observation, items: seq<GoldenAssignment>, expected: set<GoldenAssignment>,
                      scope: Option<Scope>, extra: seq<LegacyKey>, hasGolden: bool, name: LegacyKey)
    requires Enumerates(items, expected) && Enumerates(extra, UnexpectedNames(o, expected))
    ensures var rows := ExpectedRows(o, items, scope) + ObservedRows(extra, hasGolden);
            && (name in extra ==> TellsLeftOver(o, items, hasGolden, rows, ObservedRow(name, hasGolden)))
            && (IsLeftOver(o, items, rows, name) ==> HasRowFrom(rows, |items|, name))
  {
    var rows := ExpectedRows(o, items, scope) + ObservedRows(extra, hasGolden);
    LeftOverMeans(o, items, expected, scope, extra, hasGolden, name);
    if IsLeftOver(o, items, rows, name) {
      var j :| 0 <= j < |extra| && extra[j] == name;
      assert rows[|items| + j].key == name;
    }
  }

  lemma LeftOverIsTold(o: Observation, items: seq<GoldenAssignment>, expected: set<GoldenAssignment>,
                       scope: Option<Scope>, extra: seq<LegacyKey>, hasGolden: bool, rows: seq<Row>)
    requires Enumerates(items, expected) && Enumerates(extra, UnexpectedNames(o, expected))
    requires rows == ExpectedRows(o, items, scope) + ObservedRows(extra, hasGolden)
    ensures TellLeftOver(o, items, hasGolden, rows)
  {
    forall i | |items| <= i < |rows| ensures TellsLeftOver(o, items, hasGolden, rows, rows[i]) {
      LeftOverTells(o, items, expected, scope, extra, hasGolden, extra[i - |items|]);
    }
    forall i, j | |items| <= i < j < |rows| ensures rows[i].key != rows[j].key {
      assert extra[i - |items|] != extra[j - |items|];
    }
    forall name | IsLeftOver(o, items, rows, name) ensures HasRowFrom(rows, |items|, name) {
      LeftOverTells(o, items, expected, scope, extra, hasGolden, name);
    }
  }

  lemma ComparisonTells(o: Observation, items: seq<GoldenAssignment>, expected: set<GoldenAssignment>,
                        scope: Option<Scope>, extra: seq<LegacyKey>, hasGolden: bool, rows: seq<Row>)
    requires Enumerates(items, expected) && Enumerates(extra, UnexpectedNames(o, expected))
    requires rows == ExpectedRows(o, items, scope) + ObservedRows(extra, hasGolden)
    ensures TellComparison(o, items, scope, hasGolden, rows)
  {
    LeftOverIsTold(o, items, expected, scope, extra, hasGolden, rows);
    forall i | 0 <= i < |items| ensures TellsExpected(o, items[i], scope, rows[i]) {
      ExpectedRowTells(o, items[i], scope);
    }
  }

  // ----- The loops -----

  method AddDerived(snapshot: Snapshot) returns (derived: seq<Assignment>)
    ensures Enumerates(derived, DerivedAssignments(snapshot))
  {
    var evaluation := CalculateEffectiveAccesses(snapshot.assignments, snapshot.relations,
                                                 Some(AccessRefs(snapshot.accesses)), DEFAULT_PATH_LIMIT);
    var results := evaluation.value.results;
    derived := [];
    var rest := results.Keys;
    while rest != {}
      invariant rest <= results.Keys
      invariant forall d :: d in derived <==>
                  exists h :: h in results.Keys - rest && IsDerived(snapshot, results, h)
                      && d == DerivedAssignment(h, results)
      invariant forall d :: d in derived ==> Holding(d.identity, d.access) in results.Keys - rest
      invariant forall i, j :: 0 <= i < j < |derived| ==> derived[i] != derived[j]
    {
      var h :| h in rest;
      rest := rest - {h};
      if IsDerived(snapshot, results, h) {
        derived := derived + [DerivedAssignment(h, results)];
      }
    }
  }

  method IndexObserved(o: Observation)
    returns (names: set<LegacyKey>, aliases: set<LegacyKey>, withoutStable: set<LegacyKey>,
             index: map<StableKey, Option<LegacyKey>>, last: map<LegacyKey, Assignment>)
    ensures names == ObservedNames(o) && aliases == ObservedAliases(o)
    ensures withoutStable == NamesWithoutStableKey(o)
    ensures index == StableIndex(o, |o.assignments|) && last == LastByName(o.assignments)
  {
    names, aliases, withoutStable, index, last := {}, {}, {}, map[], map[];
    for i := 0 to |o.assignments|
      invariant names == ObservedNames(UpTo(o, i)) && aliases == ObservedAliases(UpTo(o, i))
      invariant withoutStable == NamesWithoutStableKey(UpTo(o, i))
      invariant index == StableIndex(o, i) && last == LastByName(o.assignments[..i])
    {
      var a := o.assignments[i];
      var name, shown, key := KeyOf(a), AliasesOf(o, a), ObservedStableKey(o, a);
      NextNames(o, i);
      NextAliases(o, i);
      NextWithoutStableKey(o, i);
      names := names + {name};
      last := last[name := a];
      aliases := aliases + shown;
      if key.None? {
        withoutStable := withoutStable + ({name} + shown);
      } else {
        index := index[key.value := if key.value in index then None else Some(name)];
      }
    }
    assert UpTo(o, |o.assignments|) == o;
  }

  /** The observation of the first i assignments. */
  function UpTo(o: Observation, i: nat): Observation
    requires i <= |o.assignments|
  {
    o.(assignments := o.assignments[..i])
  }

  function AliasesOf(o: Observation, a: Assignment): set<LegacyKey> {
    if AliasOf(o, a).Some? then {AliasOf(o, a).value} else {}
  }

  lemma NextNames(o: Observation, i: nat)
    requires i < |o.assignments|
    ensures ObservedNames(UpTo(o, i + 1))
         == ObservedNames(UpTo(o, i)) + {KeyOf(o.assignments[i])}
    ensures LastByName(o.assignments[..i + 1])
         == LastByName(o.assignments[..i])[KeyOf(o.assignments[i]) := o.assignments[i]]
  {
    assert o.assignments[..i + 1] == o.assignments[..i] + [o.assignments[i]];
  }

  lemma SameKeys(o: Observation, p: Observation, a: Assignment)
    requires o.accesses == p.accesses && o.identities == p.identities
    ensures AliasOf(o, a) == AliasOf(p, a) && ObservedStableKey(o, a) == ObservedStableKey(p, a)
  {
  }

  lemma NextAliases(o: Observation, i: nat)
    requires i < |o.assignments|
    ensures ObservedAliases(UpTo(o, i + 1))
         == ObservedAliases(UpTo(o, i)) + AliasesOf(o, o.assignments[i])
  {
    var upTo, next := UpTo(o, i), UpTo(o, i + 1);
    assert next.assignments == upTo.assignments + [o.assignments[i]];
    forall b ensures AliasOf(next, b) == AliasOf(upTo, b) == AliasOf(o, b) {
      SameKeys(next, upTo, b);
      SameKeys(next, o, b);
    }
  }

  lemma NextWithoutStableKey(o: Observation, i: nat)
    requires i < |o.assignments|
    ensures var a := o.assignments[i];
            NamesWithoutStableKey(UpTo(o, i + 1))
            == NamesWithoutStableKey(UpTo(o, i))
             + if ObservedStableKey(o, a).None? then {KeyOf(a)} + AliasesOf(o, a) else {}
  {
    var upTo, next := UpTo(o, i), UpTo(o, i + 1);
    assert next.assignments == upTo.assignments + [o.assignments[i]];
    forall b
      ensures AliasOf(next, b) == AliasOf(upTo, b) == AliasOf(o, b)
      ensures ObservedStableKey(next, b) == ObservedStableKey(upTo, b) == ObservedStableKey(o, b)
    {
      SameKeys(next, upTo, b);
      SameKeys(next, o, b);
    }
  }

  /** The comparison rows: one per expected assignment, and one per observed name left over. */
  method CompareSnapshot(snapshot: Snapshot, golden: Option<GoldenVersion>, scope: Option<Scope>)
    returns (rows: seq<Row>, derived: seq<Assignment>, items: seq<GoldenAssignment>, extra: seq<LegacyKey>)
    ensures Enumerates(derived, DerivedAssignments(snapshot))
    ensures Enumerates(items, Expected(golden))
    ensures Enumerates(extra, UnexpectedNames(Observe(snapshot, derived), Expected(golden)))
    ensures rows == ExpectedRows(Observe(snapshot, derived), items, scope) + ObservedRows(extra, golden.Some?)
    ensures TellComparison(Observation(snapshot.assignments + derived, AccessesByRef(snapshot.accesses),
                                       IdentitiesByRef(snapshot.identities)),
                           items, scope, golden.Some?, rows)
  {
    derived := AddDerived(snapshot);
    var o := Observe(snapshot, derived);
    var names, aliases, withoutStable, index, last := IndexObserved(o);
    items := Enumerate(Expected(golden));
    var matched;
    rows, matched := MatchExpected(o, items, scope, names + aliases, withoutStable, index);
    assert matched == MatchedNames(o, Expected(golden));
    extra := LeftOver(o, Expected(golden), names, matched, last);
    rows := rows + ObservedRows(extra, golden.Some?);
    ComparisonTells(o, items, Expected(golden), scope, extra, golden.Some?, rows);
  }

  method MatchExpected(o: Observation, items: seq<GoldenAssignment>, scope: Option<Scope>, shown: set<LegacyKey>,
                       withoutStable: set<LegacyKey>, index: map<StableKey, Option<LegacyKey>>)
    returns (rows: seq<Row>, matched: set<LegacyKey>)
    requires shown == ObservedNames(o) + ObservedAliases(o)
    requires withoutStable == NamesWithoutStableKey(o) && index == StableIndex(o, |o.assignments|)
    ensures rows == ExpectedRows(o, items, scope)
    ensures forall n :: n in matched <==> exists item :: item in items && MatchFor(o, item) == Some(n)
  {
    matched, rows := {}, [];
    for i := 0 to |items|
      invariant rows == ExpectedRows(o, items[..i], scope)
      invariant forall n :: n in matched <==> exists item :: item in items[..i] && MatchFor(o, item) == Some(n)
    {
      var item := items[i];
      var key, name := StableKeyOf(item), LegacyKeyOf(item);
      var observed: Option<LegacyKey> := None;
      if key.Some? && key.value in index && index[key.value].Some? {
        observed := index[key.value];
      } else if name in withoutStable {
        observed := Some(name);
      }
      var classification;
      if observed.Some? {
        matched := matched + {observed.value};
        classification := if IncompleteScope(scope) then UnknownDueToScope else ExpectedAndObserved;
      } else if key.None? && name in shown {
        classification := UnknownDueToScope;
      } else if InAuthoritativeScope(item.access, scope) {
        classification := Missing;
      } else {
        classification := UnknownDueToScope;
      }
      assert observed == MatchFor(o, item);
      assert items[..i + 1] == items[..i] + [item];
      rows := rows + [Row(if observed.Some? then observed.value else name, true, observed.Some?, classification)];
    }
    assert items[..|items|] == items;
  }

  method LeftOver(o: Observation, expected: set<GoldenAssignment>, names: set<LegacyKey>, matched: set<LegacyKey>,
                  last: map<LegacyKey, Assignment>)
    returns (extra: seq<LegacyKey>)
    requires names == ObservedNames(o) && matched == MatchedNames(o, expected) && last == LastByName(o.assignments)
    ensures Enumerates(extra, UnexpectedNames(o, expected))
  {
    extra := [];
    var stableKeys := ExpectedStableKeys(expected);
    var rest := names;
    LastByNameKeys(o.assignments);
    while rest != {}
      invariant rest <= names
      invariant Enumerates(extra, UnexpectedNames(o, expected) - rest)
    {
      var name :| name in rest;
      rest := rest - {name};
      if name !in matched {
        var key := ObservedStableKey(o, last[name]);
        if key.None? || key.value !in stableKeys {
          extra := extra + [name];
        }
      }
    }
  }

  lemma {:induction false} LastByNameKeys(assignments: seq<Assignment>)
    ensures LastByName(assignments).Keys == set a | a in assignments :: KeyOf(a)
    ensures forall name :: name in LastByName(assignments) ==>
              LastByName(assignments)[name] in assignments && KeyOf(LastByName(assignments)[name]) == name
  {
    if assignments != [] {
      LastByNameKeys(assignments[..|assignments| - 1]);
      assert assignments == assignments[..|assignments| - 1] + [assignments[|assignments| - 1]];
    }
  }
}
