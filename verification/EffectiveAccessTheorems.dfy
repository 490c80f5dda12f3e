/** Effective access is reachability; paths are the simple walks. */
module EffectiveAccessTheorems {
  import opened Domain
  import opened Ordering
  import opened GrantGraph
  import opened EffectiveAccess
  import opened EffectiveAccessSearch

  // ----- One assignment, then all of them -----

  ghost function Roots(assignments: seq<Assignment>, catalogue: Catalogue): set<Assignment> {
    set a | a in assignments && Known(catalogue, a.access)
  }

  /** The invariant between two assignments: sound, closed, every root direct, every root's search complete. */
  ghost predicate Explored(graph: seq<Relation>, roots: set<Assignment>, limit: nat, e: Evaluation) {
    && Sound(graph, roots, limit, e.results, e.diagnostics)
    && Closed(graph, e.results)
    && RootsExplored(graph, roots, e)
  }

  ghost predicate RootExplored(graph: seq<Relation>, a: Assignment, e: Evaluation) {
    && Holding(a.identity, a.access) in e.results && e.results[Holding(a.identity, a.access)].direct
    && Finishes(graph, a, e)
  }

  ghost predicate RootsExplored(graph: seq<Relation>, roots: set<Assignment>, e: Evaluation) {
    forall a :: a in roots ==> RootExplored(graph, a, e)
  }

  lemma MoreRootsStaySound(graph: seq<Relation>, roots: set<Assignment>, more: set<Assignment>, limit: nat,
                           e: Evaluation)
    requires Sound(graph, roots, limit, e.results, e.diagnostics) && roots <= more
    ensures Sound(graph, more, limit, e.results, e.diagnostics)
  {
    forall h | h in e.results ensures HoldingIsSound(graph, more, limit, h, e.results[h]) {
      forall p | p in e.results[h].paths ensures Explained(graph, more, h, p) {
        assert Explained(graph, roots, h, p);
      }
    }
    forall d | d in e.diagnostics ensures DiagnosticIsSound(graph, more, limit, e.results, d) {
      assert DiagnosticIsSound(graph, roots, limit, e.results, d);
    }
  }

  lemma FinishesLater(graph: seq<Relation>, a: Assignment, older: Evaluation, newer: Evaluation)
    requires Finishes(graph, a, older) && Extends(older, newer)
    ensures Finishes(graph, a, newer)
  {
    if !Limited(newer.diagnostics) {
      assert !Limited(older.diagnostics);
      forall w | IsSimpleWalk(graph, a.access, w) ensures Finished(graph, a, w, newer) {
        FinishedLater(graph, a, w, older, newer);
      }
    }
  }

  lemma StartIsTracked(graph: seq<Relation>, a: Assignment, e: Evaluation)
    requires Closed(graph, e.results)
    ensures SearchInvariant(graph, a, StartSearch(a, e))
  {
    var s := StartSearch(a, e);
    EmptyWalkIsSimple(graph, a.access);
    assert PathOf(a, []) in s.results[Holding(a.identity, a.access)].paths;
    assert TracksWalk(graph, a, [], s.results);
    assert [] in s.pending && End(a.access, []) == a.access;
    assert IsPending(a, s.pending, Holding(a.identity, a.access));
    forall w | IsSimpleWalk(graph, a.access, w) ensures HasPendingPrefix(s.pending, w) {
      assert w[..0] == [];
    }
  }

  lemma StartIsSound(graph: seq<Relation>, roots: set<Assignment>, a: Assignment, limit: nat, e: Evaluation)
    requires limit >= 1 && a in roots && Sound(graph, roots, limit, e.results, e.diagnostics)
    ensures var s := StartSearch(a, e);
            && Sound(graph, roots, limit, s.results, s.diagnostics) && Extends(e, Found(s))
            && Holding(a.identity, a.access) in s.results && s.results[Holding(a.identity, a.access)].direct
  {
    EmptyWalkIsSimple(graph, a.access);
    RecordIsSound(graph, roots, limit, e.results, e.diagnostics, a, []);
  }

  lemma RootIsExplored(graph: seq<Relation>, more: set<Assignment>, a: Assignment, catalogue: Catalogue, limit: nat,
                       e: Evaluation)
    requires limit >= 1 && a in more && Known(catalogue, a.access)
    requires Sound(graph, more, limit, e.results, e.diagnostics) && Closed(graph, e.results)
    ensures var next := Explore(graph, a, catalogue, limit, e);
            && Extends(e, next) && Sound(graph, more, limit, next.results, next.diagnostics)
            && Closed(graph, next.results) && Finishes(graph, a, next)
            && Holding(a.identity, a.access) in next.results && next.results[Holding(a.identity, a.access)].direct
  {
    var start := StartSearch(a, e);
    StartIsSound(graph, more, a, limit, e);
    StartIsTracked(graph, a, e);
    DrainIsSound(graph, more, a, limit, start);
    DrainExtends(graph, a, limit, start);
    DrainReachesAll(graph, a, limit, start);
  }

  lemma StaysExplored(graph: seq<Relation>, roots: set<Assignment>, e: Evaluation, next: Evaluation)
    requires Extends(e, next) && RootsExplored(graph, roots, e)
    ensures RootsExplored(graph, roots, next)
  {
    forall a | a in roots ensures RootExplored(graph, a, next) {
      assert RootExplored(graph, a, e);
      FinishesLater(graph, a, e, next);
    }
  }

  lemma ExploreKeeps(graph: seq<Relation>, roots: set<Assignment>, a: Assignment, catalogue: Catalogue, limit: nat,
                     e: Evaluation)
    requires limit >= 1 && Explored(graph, roots, limit, e)
    ensures Explored(graph, if Known(catalogue, a.access) then roots + {a} else roots, limit,
                     Explore(graph, a, catalogue, limit, e))
  {
    var next := Explore(graph, a, catalogue, limit, e);
    if Known(catalogue, a.access) {
      MoreRootsStaySound(graph, roots, roots + {a}, limit, e);
      RootIsExplored(graph, roots + {a}, a, catalogue, limit, e);
    } else {
      UnknownRootIsSound(graph, roots, a, limit, e);
    }
    StaysExplored(graph, roots, e, next);
  }

  lemma UnknownRootIsSound(graph: seq<Relation>, roots: set<Assignment>, a: Assignment, limit: nat, e: Evaluation)
    requires Sound(graph, roots, limit, e.results, e.diagnostics)
    ensures Sound(graph, roots, limit, e.results, e.diagnostics + [UnresolvedAssignment(a.id, a.access, a.identity)])
  {
  }

  lemma RootsOfLonger(assignments: seq<Assignment>, a: Assignment, catalogue: Catalogue)
    ensures Roots(assignments + [a], catalogue)
         == Roots(assignments, catalogue) + if Known(catalogue, a.access) then {a} else {}
  {
  }

  lemma {:induction false} ExploreAllKeeps(graph: seq<Relation>, assignments: seq<Assignment>, catalogue: Catalogue,
                                           limit: nat, e: Evaluation)
    requires limit >= 1 && Explored(graph, {}, limit, e)
    ensures Explored(graph, Roots(assignments, catalogue), limit, ExploreAll(graph, assignments, catalogue, limit, e))
  {
    if assignments == [] {
      assert Roots(assignments, catalogue) == {};
    } else {
      var k := |assignments| - 1;
      var a := assignments[k];
      ExploreAllKeeps(graph, assignments[..k], catalogue, limit, e);
      var before := ExploreAll(graph, assignments[..k], catalogue, limit, e);
      ExploreKeeps(graph, Roots(assignments[..k], catalogue), a, catalogue, limit, before);
      assert assignments == assignments[..k] + [a];
      RootsOfLonger(assignments[..k], a, catalogue);
    }
  }

  // ----- The graph that is searched relates the same accesses as the admissible relations -----

  function GrantRelations(relations: seq<Relation>, catalogue: Catalogue): seq<Relation> {
    Filter(r => Admissible(catalogue, r), relations)
  }

  ghost predicate SameEdges(graph: seq<Relation>, other: seq<Relation>) {
    && (forall r :: r in graph ==> HasEdge(other, r.parent, r.child))
    && (forall r :: r in other ==> HasEdge(graph, r.parent, r.child))
  }

  lemma {:induction false} AdmitKeepsEveryKey(sorted: seq<Relation>, catalogue: Catalogue, r: Relation)
    ensures r in Admit(sorted, catalogue) ==> r in sorted && Admissible(catalogue, r)
    ensures r in sorted && Admissible(catalogue, r) ==>
              exists q :: q in Admit(sorted, catalogue) && RelationKey(q) == RelationKey(r)
  {
    if sorted != [] {
      var k := |sorted| - 1;
      var rest, last := sorted[..k], sorted[k];
      assert sorted == rest + [last];
      AdmitKeepsEveryKey(rest, catalogue, r);
      if r == last && Admissible(catalogue, r) && RelationKey(r) in SeenKeys(rest) {
        var p :| p in rest && p.kind == GRANTS && RelationKey(p) == RelationKey(r);
        SameKeySameEnds(p, r);
        AdmitKeepsEveryKey(rest, catalogue, p);
      }
    }
  }

  ghost predicate HasEdge(graph: seq<Relation>, parent: Ref, child: Ref) {
    exists q :: q in graph && q.parent == parent && q.child == child
  }

  lemma GraphEdge(relations: seq<Relation>, catalogue: Catalogue, r: Relation)
    ensures r in GraphOf(relations, catalogue) ==> HasEdge(GrantRelations(relations, catalogue), r.parent, r.child)
    ensures r in GrantRelations(relations, catalogue) ==> HasEdge(GraphOf(relations, catalogue), r.parent, r.child)
  {
    SortMember(RelationKey, relations, r);
    AdmitKeepsEveryKey(SortBy(RelationKey, relations), catalogue, r);
    GrantRelationMember(relations, catalogue, r);
    if r in GrantRelations(relations, catalogue) {
      var q :| q in GraphOf(relations, catalogue) && RelationKey(q) == RelationKey(r);
      SameKeySameEnds(q, r);
    }
  }

  lemma GraphHasTheAdmissibleEdges(relations: seq<Relation>, catalogue: Catalogue)
    ensures SameEdges(GraphOf(relations, catalogue), GrantRelations(relations, catalogue))
  {
    var graph, grants := GraphOf(relations, catalogue), GrantRelations(relations, catalogue);
    forall r | r in graph ensures HasEdge(grants, r.parent, r.child) {
      GraphEdge(relations, catalogue, r);
    }
    forall r | r in grants ensures HasEdge(graph, r.parent, r.child) {
      GraphEdge(relations, catalogue, r);
    }
  }

  lemma GrantRelationMember(relations: seq<Relation>, catalogue: Catalogue, r: Relation)
    ensures r in GrantRelations(relations, catalogue) <==> r in relations && Admissible(catalogue, r)
  {
    FilterMember((r: Relation) => Admissible(catalogue, r), relations, r);
  }

  // ----- Theorems -----

  /** A grant between accesses that are not both catalogued, and the diagnostic that says which one is missing. */
  predicate IsReportedBy(catalogue: Catalogue, r: Relation, d: Diagnostic) {
    && d.UnresolvedRelation? && RelationKey(d.relation) == RelationKey(r)
    && d.missingParent == !Known(catalogue, r.parent) && d.missingChild == !Known(catalogue, r.child)
  }

  /** No relation is dropped silently: it is unsupported, unresolved, or represented in the graph by one of its key. */
  lemma {:induction false} RelationsAreAccountedFor(sorted: seq<Relation>, catalogue: Catalogue, r: Relation)
    requires r in sorted
    ensures r.kind != GRANTS ==> UnsupportedRelation(r) in RelationDiagnostics(sorted, catalogue)
    ensures Admissible(catalogue, r) ==> exists q :: q in Admit(sorted, catalogue) && RelationKey(q) == RelationKey(r)
    ensures r.kind == GRANTS && !Admissible(catalogue, r) ==>
              exists d :: d in RelationDiagnostics(sorted, catalogue) && IsReportedBy(catalogue, r, d)
  {
    AdmitKeepsEveryKey(sorted, catalogue, r);
    var k := |sorted| - 1;
    var rest, last := sorted[..k], sorted[k];
    assert sorted == rest + [last];
    if r in rest {
      RelationsAreAccountedFor(rest, catalogue, r);
      if r.kind == GRANTS && !Admissible(catalogue, r) {
        var d :| d in RelationDiagnostics(rest, catalogue) && IsReportedBy(catalogue, r, d);
        assert d in RelationDiagnostics(sorted, catalogue);
      }
    } else if r.kind == GRANTS && !Admissible(catalogue, r) {
      if RelationKey(r) in SeenKeys(rest) {
        var p :| p in rest && p.kind == GRANTS && RelationKey(p) == RelationKey(r);
        SameKeySameEnds(p, r);
        RelationsAreAccountedFor(rest, catalogue, p);
        var d :| d in RelationDiagnostics(rest, catalogue) && IsReportedBy(catalogue, p, d);
        assert d in RelationDiagnostics(sorted, catalogue) && IsReportedBy(catalogue, r, d);
      } else {
        var d := UnresolvedRelation(r, !Known(catalogue, r.parent), !Known(catalogue, r.child));
        assert d in RelationDiagnostics(sorted, catalogue) && IsReportedBy(catalogue, r, d);
      }
    }
  }

  lemma {:induction false} RelationDiagnosticsAreStatic(sorted: seq<Relation>, catalogue: Catalogue)
    ensures forall d :: d in RelationDiagnostics(sorted, catalogue) ==> d.UnsupportedRelation? || d.UnresolvedRelation?
  {
    if sorted != [] {
      RelationDiagnosticsAreStatic(sorted[..|sorted| - 1], catalogue);
    }
  }

  lemma EvaluationIsExplored(assignments: seq<Assignment>, relations: seq<Relation>, catalogue: Catalogue, limit: nat)
    requires limit >= 1
    ensures Explored(GraphOf(relations, catalogue), Roots(assignments, catalogue), limit,
                     Evaluate(assignments, relations, catalogue, limit))
  {
    var graph, sorted := GraphOf(relations, catalogue), SortBy(AssignmentKey, assignments);
    var start := Evaluation(map[], RelationDiagnostics(SortBy(RelationKey, relations), catalogue));
    RelationDiagnosticsAreStatic(SortBy(RelationKey, relations), catalogue);
    assert Explored(graph, {}, limit, start);
    ExploreAllKeeps(graph, sorted, catalogue, limit, start);
    forall a ensures a in sorted <==> a in assignments {
      SortMember(AssignmentKey, assignments, a);
    }
    assert Roots(sorted, catalogue) == Roots(assignments, catalogue);
  }

  lemma HeldMeansReachable(graph: seq<Relation>, roots: set<Assignment>, limit: nat, e: Evaluation, h: Holding)
    requires Explored(graph, roots, limit, e)
    ensures h in e.results <==> exists a :: a in roots && a.identity == h.identity && Reaches(graph, a.access, h.access)
    ensures h in e.results ==> (e.results[h].direct <==> IsDirect(roots, h))
  {
    if h in e.results {
      assert HoldingIsSound(graph, roots, limit, h, e.results[h]);
      assert Explained(graph, roots, h, e.results[h].paths[0]);
      if IsDirect(roots, h) {
        var a :| a in roots && a.identity == h.identity && a.access == h.access;
        assert RootExplored(graph, a, e);
      }
    }
    forall a | a in roots && a.identity == h.identity && Reaches(graph, a.access, h.access) ensures h in e.results {
      assert RootExplored(graph, a, e);
      var held := set k | k in e.results && k.identity == a.identity :: k.access;
      var w :| IsWalk(graph, a.access, w) && End(a.access, w) == h.access;
      assert Holding(a.identity, a.access) in e.results;
      assert ClosedUnder(held, graph) by {
        forall r | r in graph && r.parent in held ensures r.child in held {
          assert Holding(a.identity, r.child) in e.results;
        }
      }
      WalkStaysInside(graph, held, a.access, w);
    }
  }

  /**
   * Whatever the path limit, an identity holds exactly the accesses that its admitted assignments reach over
   * admissible grants, and a holding is direct exactly when an admitted assignment names it.
   */
  lemma EffectiveMeansReachable(assignments: seq<Assignment>, relations: seq<Relation>, catalogue: Catalogue,
                                limit: nat,
                                h: Holding)
    requires limit >= 1
    ensures var results := Evaluate(assignments, relations, catalogue, limit).results;
            var roots := Roots(assignments, catalogue);
            && (h in results <==> exists a :: a in roots && a.identity == h.identity
                                           && Reaches(GrantRelations(relations, catalogue), a.access, h.access))
            && (h in results ==> (results[h].direct <==> IsDirect(roots, h)))
  {
    var graph, grants := GraphOf(relations, catalogue), GrantRelations(relations, catalogue);
    EvaluationIsExplored(assignments, relations, catalogue, limit);
    GraphHasTheAdmissibleEdges(relations, catalogue);
    HeldMeansReachable(graph, Roots(assignments, catalogue), limit, Evaluate(assignments, relations, catalogue, limit),
                       h);
    forall a: Assignment ensures Reaches(graph, a.access, h.access) <==> Reaches(grants, a.access, h.access) {
      SameReach(graph, grants, a.access, h.access);
    }
  }

  lemma SameReach(graph: seq<Relation>, other: seq<Relation>, root: Ref, target: Ref)
    requires SameEdges(graph, other)
    ensures Reaches(graph, root, target) <==> Reaches(other, root, target)
    ensures ReachesCycle(graph, root) <==> ReachesCycle(other, root)
  {
    if w :| IsWalk(graph, root, w) && End(root, w) == target {
      WalkTransfers(graph, other, root, w);
    }
    if w :| IsWalk(other, root, w) && End(root, w) == target {
      WalkTransfers(other, graph, root, w);
    }
    if ReachesCycle(graph, root) {
      CycleTransfers(graph, other, root);
    }
    if ReachesCycle(other, root) {
      CycleTransfers(other, graph, root);
    }
  }

  /** The limit drops provenance paths, never an access nor its direct mark. */
  lemma LimitNeverDropsAnAccess(assignments: seq<Assignment>, relations: seq<Relation>, catalogue: Catalogue,
                                limit: nat, other: nat)
    requires limit >= 1 && other >= 1
    ensures var one := Evaluate(assignments, relations, catalogue, limit).results;
            var two := Evaluate(assignments, relations, catalogue, other).results;
            one.Keys == two.Keys && forall h :: h in one ==> one[h].direct == two[h].direct
  {
    var one := Evaluate(assignments, relations, catalogue, limit).results;
    var two := Evaluate(assignments, relations, catalogue, other).results;
    forall h: Holding ensures (h in one <==> h in two) && (h in one && h in two ==> one[h].direct == two[h].direct) {
      EffectiveMeansReachable(assignments, relations, catalogue, limit, h);
      EffectiveMeansReachable(assignments, relations, catalogue, other, h);
    }
  }

  /**
   * Recorded paths are simple walks from the identity's own assignments, without repetition and with at most
   * `limit` derived ones per access; when no limit diagnostic was issued, every such walk is recorded.
   */
  lemma PathsAreTheSimpleWalks(assignments: seq<Assignment>, relations: seq<Relation>, catalogue: Catalogue, limit: nat,
                               h: Holding, p: Path)
    requires limit >= 1
    ensures var e := Evaluate(assignments, relations, catalogue, limit);
            var explained := Explained(GraphOf(relations, catalogue), Roots(assignments, catalogue), h, p);
            && (h in e.results ==> Distinct(e.results[h].paths) && DerivedPaths(e.results[h].paths) <= limit)
            && (h in e.results && p in e.results[h].paths ==> explained)
            && (!Limited(e.diagnostics) && explained ==> h in e.results && p in e.results[h].paths)
  {
    var graph, roots := GraphOf(relations, catalogue), Roots(assignments, catalogue);
    var e := Evaluate(assignments, relations, catalogue, limit);
    EvaluationIsExplored(assignments, relations, catalogue, limit);
    if h in e.results {
      assert HoldingIsSound(graph, roots, limit, h, e.results[h]);
    }
    if !Limited(e.diagnostics) && Explained(graph, roots, h, p) {
      var a, w :| a in roots && a.identity == h.identity && IsSimpleWalk(graph, a.access, w)
               && End(a.access, w) == h.access && p == PathOf(a, w);
      assert RootExplored(graph, a, e);
      assert Finished(graph, a, w, e);
    }
  }

  ghost predicate ReportsCycle(diagnostics: seq<Diagnostic>, identity: Ref) {
    exists d :: d in diagnostics && d.CycleDetected? && d.identity == identity
  }

  lemma ReportedCycleIsThere(graph: seq<Relation>, roots: set<Assignment>, limit: nat, e: Evaluation, d: Diagnostic)
    requires Explored(graph, roots, limit, e) && d in e.diagnostics && d.CycleDetected?
    ensures exists a :: a in roots && a.identity == d.identity && ReachesCycle(graph, a.access)
  {
    assert DiagnosticIsSound(graph, roots, limit, e.results, d);
    var a, w, r :| a in roots && a.identity == d.identity && IsSimpleWalk(graph, a.access, w)
                && ClosesWalk(graph, a.access, w, r);
    CycleMeansClosableWalk(graph, a.access);
  }

  lemma CycleIsReported(graph: seq<Relation>, roots: set<Assignment>, limit: nat, e: Evaluation, a: Assignment)
    requires Explored(graph, roots, limit, e) && !Limited(e.diagnostics)
    requires a in roots && ReachesCycle(graph, a.access)
    ensures ReportsCycle(e.diagnostics, a.identity)
  {
    CycleMeansClosableWalk(graph, a.access);
    var w, r :| IsSimpleWalk(graph, a.access, w) && ClosesWalk(graph, a.access, w, r);
    assert RootExplored(graph, a, e);
    assert Finished(graph, a, w, e);
    assert CycleAt(a, w, r) in e.diagnostics;
  }

  lemma ReportMeansCycle(graph: seq<Relation>, roots: set<Assignment>, limit: nat, e: Evaluation, identity: Ref)
    requires Explored(graph, roots, limit, e)
    ensures ReportsCycle(e.diagnostics, identity)
        ==> exists a :: a in roots && a.identity == identity && ReachesCycle(graph, a.access)
    ensures !Limited(e.diagnostics)
         && (exists a :: a in roots && a.identity == identity && ReachesCycle(graph, a.access))
        ==> ReportsCycle(e.diagnostics, identity)
  {
    if d :| d in e.diagnostics && d.CycleDetected? && d.identity == identity {
      ReportedCycleIsThere(graph, roots, limit, e, d);
    }
    if a :| a in roots && a.identity == identity && ReachesCycle(graph, a.access) {
      if !Limited(e.diagnostics) {
        CycleIsReported(graph, roots, limit, e, a);
      }
    }
  }

  /** Without a limit diagnostic, a cycle is reported for an identity exactly when one of its roots reaches a cycle. */
  lemma CyclesAreReported(assignments: seq<Assignment>, relations: seq<Relation>, catalogue: Catalogue, limit: nat,
                          identity: Ref)
    requires limit >= 1
    ensures var diagnostics := Evaluate(assignments, relations, catalogue, limit).diagnostics;
            var cyclic := exists a :: a in Roots(assignments, catalogue) && a.identity == identity
                                   && ReachesCycle(GrantRelations(relations, catalogue), a.access);
            && (ReportsCycle(diagnostics, identity) ==> cyclic)
            && (!Limited(diagnostics) && cyclic ==> ReportsCycle(diagnostics, identity))
  {
    var graph, grants := GraphOf(relations, catalogue), GrantRelations(relations, catalogue);
    EvaluationIsExplored(assignments, relations, catalogue, limit);
    GraphHasTheAdmissibleEdges(relations, catalogue);
    ReportMeansCycle(graph, Roots(assignments, catalogue), limit, Evaluate(assignments, relations, catalogue, limit),
                     identity);
    forall a: Assignment ensures ReachesCycle(graph, a.access) <==> ReachesCycle(grants, a.access) {
      SameReach(graph, grants, a.access, a.access);
    }
  }
}
