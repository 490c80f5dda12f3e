/** What an evaluation reports about assignments and relations, and which of them it searches, in terms of its input. */
module EffectiveDiagnostics {
  import opened Domain
  import opened Ordering
  import opened GrantGraph
  import opened EffectiveAccess
  import opened EffectiveAccessSearch
  import opened EffectiveAccessTheorems

  // ----- The search itself reports cycles and limits only -----

  predicate IsStatic(d: Diagnostic) {
    !d.CycleDetected? && !d.PathLimitReached?
  }

  lemma {:induction false} ChildrenReportNothing(a: Assignment, limit: nat, w: Walk, children: seq<Relation>, s: Search,
                                                 d: Diagnostic)
    requires IsStatic(d)
    ensures multiset(VisitChildren(a, limit, w, children, s).diagnostics)[d] == multiset(s.diagnostics)[d]
  {
    if children != [] {
      var k := |children| - 1;
      ChildrenReportNothing(a, limit, w, children[..k], VisitChild(a, limit, w, children[k], s), d);
    }
  }

  lemma {:induction false} DrainReportsNothing(graph: seq<Relation>, a: Assignment, limit: nat, s: Search,
                                               d: Diagnostic)
    requires IsStatic(d) && Searchable(graph, a, s)
    ensures multiset(Drain(graph, a, limit, s).diagnostics)[d] == multiset(s.diagnostics)[d]
    decreases Weight(|graph|, s.pending)
  {
    if s.pending != [] {
      var k := |s.pending| - 1;
      var w := s.pending[k];
      ChildrenReportNothing(a, limit, w, Outgoing(graph, End(a.access, w)), s.(pending := s.pending[..k]), d);
      ExpandShrinks(graph, a, limit, s);
      DrainReportsNothing(graph, a, limit, Expand(graph, a, limit, s), d);
    }
  }

  // ----- Assignments of unknown accesses -----

  predicate Missing(catalogue: Option<set<Ref>>, access: Ref) {
    catalogue.Some? && access !in catalogue.value
  }

  /** The assignments with the given id, access and identity. */
  function Alike(id: string, access: Ref, identity: Ref): Assignment -> bool {
    (a: Assignment) => a.id == id && a.access == access && a.identity == identity
  }

  lemma ExploreReports(graph: seq<Relation>, a: Assignment, catalogue: Catalogue, limit: nat, e: Evaluation,
                       d: Diagnostic)
    requires IsStatic(d)
    ensures multiset(Explore(graph, a, catalogue, limit, e).diagnostics)[d]
         == multiset(e.diagnostics)[d]
          + if d == UnresolvedAssignment(a.id, a.access, a.identity) && Missing(catalogue, a.access) then 1 else 0
  {
    if Known(catalogue, a.access) {
      EmptyWalkIsSimple(graph, a.access);
      DrainReportsNothing(graph, a, limit, StartSearch(a, e), d);
    }
  }

  lemma {:induction false} ExploreAllReports(graph: seq<Relation>, assignments: seq<Assignment>, catalogue: Catalogue,
                                             limit: nat, e: Evaluation, d: Diagnostic)
    requires IsStatic(d)
    ensures multiset(ExploreAll(graph, assignments, catalogue, limit, e).diagnostics)[d]
         == multiset(e.diagnostics)[d]
          + if d.UnresolvedAssignment? && Missing(catalogue, d.access)
            then |Filter(Alike(d.assignmentId, d.access, d.identity), assignments)| else 0
  {
    if assignments != [] {
      var k := |assignments| - 1;
      var a := assignments[k];
      ExploreAllReports(graph, assignments[..k], catalogue, limit, e, d);
      assert assignments == assignments[..k] + [a];
      if d.UnresolvedAssignment? {
        FilterConcat(Alike(d.assignmentId, d.access, d.identity), assignments[..k], [a]);
        assert [a][1..] == [];
      }
      ExploreReports(graph, a, catalogue, limit, ExploreAll(graph, assignments[..k], catalogue, limit, e), d);
    }
  }

  lemma {:induction false} InsertedLength<T>(key: T -> seq<string>, x: T, sorted: seq<T>)
    ensures |Insert(key, x, sorted)| == |sorted| + 1
  {
    if sorted != [] && !KeyLeq(key(x), key(sorted[0])) {
      InsertedLength(key, x, sorted[1..]);
    }
  }

  lemma {:induction false} SortedLength<T>(key: T -> seq<string>, items: seq<T>)
    ensures |SortBy(key, items)| == |items|
  {
    if items != [] {
      SortedLength(key, items[1..]);
      InsertedLength(key, items[0], SortBy(key, items[1..]));
    }
  }

  lemma AlikeCount(id: string, access: Ref, identity: Ref, assignments: seq<Assignment>)
    ensures |Filter(Alike(id, access, identity), SortBy(AssignmentKey, assignments))|
         == |Filter(Alike(id, access, identity), assignments)|
    ensures Filter(Alike(id, access, identity), assignments) != []
       <==> exists a :: a in assignments && a.id == id && a.access == access && a.identity == identity
  {
    var same := Alike(id, access, identity);
    FilterCommutesWithSort(AssignmentKey, same, assignments);
    SortedLength(AssignmentKey, Filter(same, assignments));
    if Filter(same, assignments) != [] {
      FilterMember(same, assignments, Filter(same, assignments)[0]);
    }
    if a :| a in assignments && a.id == id && a.access == access && a.identity == identity {
      FilterMember(same, assignments, a);
    }
  }

  /**
   * Every assignment of an access that is not catalogued is reported, once for each time it is listed, and no other
   * assignment is.
   */
  lemma UnknownAssignmentsAreReported(assignments: seq<Assignment>, relations: seq<Relation>,
                                      catalogue: Option<set<Ref>>, limit: nat, id: string, access: Ref, identity: Ref)
    ensures var reported := multiset(Evaluate(assignments, relations, catalogue, limit).diagnostics);
            var d := UnresolvedAssignment(id, access, identity);
            && reported[d] == (if catalogue.Some? && access !in catalogue.value
                               then |Filter(Alike(id, access, identity), assignments)| else 0)
            && (d in Evaluate(assignments, relations, catalogue, limit).diagnostics
                <==> catalogue.Some? && access !in catalogue.value
                     && exists a :: a in assignments && a.id == id && a.access == access && a.identity == identity)
  {
    var d := UnresolvedAssignment(id, access, identity);
    var e := Evaluate(assignments, relations, catalogue, limit);
    var start := RelationDiagnostics(SortBy(RelationKey, relations), catalogue);
    RelationDiagnosticsAreStatic(SortBy(RelationKey, relations), catalogue);
    assert multiset(start)[d] == 0 by {
      assert d !in start;
    }
    ExploreAllReports(GraphOf(relations, catalogue), SortBy(AssignmentKey, assignments), catalogue, limit,
                      Evaluation(map[], start), d);
    AlikeCount(id, access, identity, assignments);
    assert d in e.diagnostics <==> multiset(e.diagnostics)[d] > 0;
  }

  // ----- Relations: the first of each key is searched or reported -----

  /** Relations that the engine does not tell apart: same ends, kind and digest of origin. */
  predicate SameGrant(p: Relation, r: Relation) {
    && p.parent == r.parent && p.child == r.child && p.kind == r.kind
    && p.origin.fingerprint == r.origin.fingerprint
  }

  function SameAs(r: Relation): Relation -> bool {
    (p: Relation) => SameGrant(p, r)
  }

  /** No relation before the first occurrence of r repeats it. */
  ghost predicate IsFirst(relations: seq<Relation>, r: Relation) {
    exists i :: 0 <= i < |relations| && relations[i] == r && forall j :: 0 <= j < i ==> !SameGrant(relations[j], r)
  }

  lemma SameGrantIsSameKey(p: Relation, r: Relation)
    ensures SameGrant(p, r) <==> RelationKey(p) == RelationKey(r)
  {
    var a, b := RelationKey(p), RelationKey(r);
    if a == b {
      SameKeySameEnds(p, r);
      assert a[5] == b[5];
    }
  }

  lemma {:induction false} FirstIsHeadOfSame(relations: seq<Relation>, r: Relation)
    ensures IsFirst(relations, r)
       <==> Filter(SameAs(r), relations) != [] && Filter(SameAs(r), relations)[0] == r
  {
    if relations != [] {
      var rest := relations[1..];
      FirstIsHeadOfSame(rest, r);
      if SameGrant(relations[0], r) {
        assert relations[0] == r ==> IsFirst(relations, r);
      } else {
        if IsFirst(rest, r) {
          var i :| 0 <= i < |rest| && rest[i] == r && forall j :: 0 <= j < i ==> !SameGrant(rest[j], r);
          assert relations[i + 1] == r && forall j :: 0 <= j < i + 1 ==> !SameGrant(relations[j], r);
        }
        if IsFirst(relations, r) {
          var i :| 0 <= i < |relations| && relations[i] == r && forall j :: 0 <= j < i ==> !SameGrant(relations[j], r);
          assert rest[i - 1] == r && forall j :: 0 <= j < i - 1 ==> !SameGrant(rest[j], r);
        }
      }
    }
  }

  /** The sort is stable: the relation listed first among its repetitions stays the first of them. */
  lemma SortKeepsFirst(relations: seq<Relation>, r: Relation)
    ensures IsFirst(SortBy(RelationKey, relations), r) <==> IsFirst(relations, r)
  {
    var same := Filter(SameAs(r), relations);
    FirstIsHeadOfSame(relations, r);
    FirstIsHeadOfSame(SortBy(RelationKey, relations), r);
    FilterCommutesWithSort(RelationKey, SameAs(r), relations);
    forall i, j | 0 <= i < j < |same| ensures KeyLeq(RelationKey(same[i]), RelationKey(same[j])) {
      FilterMember(SameAs(r), relations, same[i]);
      FilterMember(SameAs(r), relations, same[j]);
      SameGrantIsSameKey(same[i], r);
      SameGrantIsSameKey(same[j], r);
      KeyOrder(RelationKey(r), RelationKey(r), []);
    }
    AscendingStays(RelationKey, same);
  }

  lemma FirstOfLonger(rest: seq<Relation>, last: Relation, r: Relation)
    ensures IsFirst(rest + [last], r)
       <==> IsFirst(rest, r) || (r == last && forall p :: p in rest ==> !SameGrant(p, r))
  {
    var all := rest + [last];
    if IsFirst(rest, r) {
      var i :| 0 <= i < |rest| && rest[i] == r && forall j :: 0 <= j < i ==> !SameGrant(rest[j], r);
      assert all[i] == r && forall j :: 0 <= j < i ==> !SameGrant(all[j], r);
    }
    if r == last && forall p :: p in rest ==> !SameGrant(p, r) {
      assert all[|rest|] == r && forall j :: 0 <= j < |rest| ==> !SameGrant(all[j], r);
    }
    if IsFirst(all, r) && !IsFirst(rest, r) {
      var i :| 0 <= i < |all| && all[i] == r && forall j :: 0 <= j < i ==> !SameGrant(all[j], r);
      assert forall j :: 0 <= j < |rest| ==> all[j] == rest[j];
      assert i == |rest|;
    }
  }

  /** How often a relation is reported, and with which missing ends. */
  ghost function TimesReported(relations: seq<Relation>, catalogue: Option<set<Ref>>, d: Diagnostic): nat {
    match d
    case UnsupportedRelation(r) => if r.kind == "grants" then 0 else multiset(relations)[r]
    case UnresolvedRelation(r, missingParent, missingChild) =>
      if && r.kind == "grants" && IsFirst(relations, r) && (missingParent || missingChild)
         && missingParent == Missing(catalogue, r.parent) && missingChild == Missing(catalogue, r.child)
      then 1 else 0
    case _ => 0
  }

  lemma RepeatedMeansSeen(rest: seq<Relation>, r: Relation)
    requires r.kind == GRANTS
    ensures RelationKey(r) in SeenKeys(rest) <==> exists p :: p in rest && SameGrant(p, r)
  {
    if p :| p in rest && p.kind == GRANTS && RelationKey(p) == RelationKey(r) {
      SameGrantIsSameKey(p, r);
    }
    if p :| p in rest && SameGrant(p, r) {
      SameGrantIsSameKey(p, r);
    }
  }

  lemma FirstTime(rest: seq<Relation>, last: Relation, r: Relation)
    requires r.kind == GRANTS
    ensures !(IsFirst(rest, r) && r == last && RelationKey(last) !in SeenKeys(rest))
    ensures IsFirst(rest + [last], r) <==> IsFirst(rest, r) || (r == last && RelationKey(last) !in SeenKeys(rest))
  {
    FirstOfLonger(rest, last, r);
    RepeatedMeansSeen(rest, r);
    if IsFirst(rest, r) {
      assert SameGrant(r, r) && r in rest;
    }
  }

  lemma {:induction false} OtherKindsReportedBySort(sorted: seq<Relation>, catalogue: Catalogue, r: Relation)
    ensures multiset(RelationDiagnostics(sorted, catalogue))[UnsupportedRelation(r)]
         == if r.kind == GRANTS then 0 else multiset(sorted)[r]
  {
    if sorted != [] {
      var rest, last := sorted[..|sorted| - 1], sorted[|sorted| - 1];
      OtherKindsReportedBySort(rest, catalogue, r);
      assert sorted == rest + [last];
      var more := OneReportMore(rest, last, catalogue);
      CountsAdd(RelationDiagnostics(rest, catalogue), more, UnsupportedRelation(r));
      CountsAdd(rest, [last], r);
      OtherKindIsReportedOnce(last, more, r);
    }
  }

  lemma OtherKindIsReportedOnce(last: Relation, more: seq<Diagnostic>, r: Relation)
    requires last.kind != GRANTS ==> more == [UnsupportedRelation(last)]
    requires last.kind == GRANTS ==> more == [] || (|more| == 1 && more[0].UnresolvedRelation?)
    ensures r.kind != GRANTS ==> multiset(more)[UnsupportedRelation(r)] == multiset([last])[r]
    ensures r.kind == GRANTS ==> multiset(more)[UnsupportedRelation(r)] == 0
  {
    assert more == [] || more == [more[0]];
  }

  lemma CountsAdd<T>(a: seq<T>, b: seq<T>, x: T)
    ensures multiset(a + b)[x] == multiset(a)[x] + multiset(b)[x]
  {
  }

  lemma OneReportMore(rest: seq<Relation>, last: Relation, catalogue: Catalogue) returns (more: seq<Diagnostic>)
    ensures RelationDiagnostics(rest + [last], catalogue) == RelationDiagnostics(rest, catalogue) + more
    ensures last.kind != GRANTS ==> more == [UnsupportedRelation(last)]
    ensures last.kind == GRANTS ==> more == [] || (|more| == 1 && more[0].UnresolvedRelation?)
  {
    assert (rest + [last])[..|rest|] == rest;
    more := if last.kind != GRANTS then [UnsupportedRelation(last)]
            else if RelationKey(last) in SeenKeys(rest) || Admissible(catalogue, last) then []
            else [UnresolvedRelation(last, !Known(catalogue, last.parent), !Known(catalogue, last.child))];
  }

  lemma {:induction false} GrantsReportedBySort(sorted: seq<Relation>, catalogue: Catalogue, d: Diagnostic)
    requires d.UnresolvedRelation?
    ensures multiset(RelationDiagnostics(sorted, catalogue))[d] == TimesReported(sorted, catalogue, d)
  {
    if sorted != [] {
      var rest, last := sorted[..|sorted| - 1], sorted[|sorted| - 1];
      assert sorted == rest + [last];
      GrantsReportedBySort(rest, catalogue, d);
      if d.relation.kind == GRANTS {
        FirstTime(rest, last, d.relation);
      }
    }
  }

  lemma {:induction false} SearchedBySort(sorted: seq<Relation>, catalogue: Catalogue, r: Relation)
    ensures multiset(Admit(sorted, catalogue))[r]
         == if r.kind == "grants" && IsFirst(sorted, r) && !Missing(catalogue, r.parent) && !Missing(catalogue, r.child)
            then 1 else 0
  {
    if sorted != [] {
      var rest, last := sorted[..|sorted| - 1], sorted[|sorted| - 1];
      assert sorted == rest + [last];
      SearchedBySort(rest, catalogue, r);
      if r.kind == GRANTS {
        FirstTime(rest, last, r);
      }
    }
  }

  /**
   * A relation of another kind is reported as often as it is listed. Of the grants that repeat one another, the one
   * listed first is reported once with exactly its ends that are not catalogued, if there are any.
   */
  lemma RelationsAreReported(assignments: seq<Assignment>, relations: seq<Relation>, catalogue: Option<set<Ref>>,
                             limit: nat, d: Diagnostic)
    requires d.UnsupportedRelation? || d.UnresolvedRelation?
    ensures var diagnostics := Evaluate(assignments, relations, catalogue, limit).diagnostics;
            && multiset(diagnostics)[d] == TimesReported(relations, catalogue, d)
            && (d.UnsupportedRelation? ==>
                  (d in diagnostics <==> d.relation in relations && d.relation.kind != "grants"))
            && (d.UnresolvedRelation? ==>
                  (d in diagnostics <==> (d.relation.kind == "grants" && IsFirst(relations, d.relation)
                                          && d.missingParent == Missing(catalogue, d.relation.parent)
                                          && d.missingChild == Missing(catalogue, d.relation.child)
                                          && (d.missingParent || d.missingChild))))
  {
    var sorted := SortBy(RelationKey, relations);
    var diagnostics := Evaluate(assignments, relations, catalogue, limit).diagnostics;
    ExploreAllReports(GraphOf(relations, catalogue), SortBy(AssignmentKey, assignments), catalogue, limit,
                      Evaluation(map[], RelationDiagnostics(sorted, catalogue)), d);
    if d.UnsupportedRelation? {
      OtherKindsReportedBySort(sorted, catalogue, d.relation);
    } else {
      GrantsReportedBySort(sorted, catalogue, d);
    }
    SortIsOrderedPermutation(RelationKey, relations);
    SortKeepsFirst(relations, d.relation);
    assert d in diagnostics <==> multiset(diagnostics)[d] > 0;
    assert d.relation in relations <==> multiset(relations)[d.relation] > 0;
  }

  /** The search follows the grants between catalogued accesses, of those that repeat one another the first listed. */
  lemma SearchedRelations(relations: seq<Relation>, catalogue: Option<set<Ref>>, r: Relation)
    ensures r in GraphOf(relations, catalogue)
       <==> r.kind == "grants" && IsFirst(relations, r)
            && (catalogue.Some? ==> r.parent in catalogue.value && r.child in catalogue.value)
    ensures multiset(GraphOf(relations, catalogue))[r] <= 1
  {
    SearchedBySort(SortBy(RelationKey, relations), catalogue, r);
    SortKeepsFirst(relations, r);
    assert r in GraphOf(relations, catalogue) <==> multiset(GraphOf(relations, catalogue))[r] > 0;
  }
}
