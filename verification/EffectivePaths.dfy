/** Effective accesses and their paths in terms of the input: which grants they use, what they tell, in which order. */
module EffectivePaths {
  import opened Domain
  import opened Ordering
  import opened GrantGraph
  import opened EffectiveAccess
  import opened EffectiveAccessSearch
  import opened EffectiveAccessTheorems
  import opened EffectiveDiagnostics

  // ----- Which accesses are held -----

  /** The list has the relations of kind "grants" whose two ends are catalogued, in any order. */
  ghost predicate AreGrants(granted: seq<Relation>, relations: seq<Relation>, catalogue: Option<set<Ref>>) {
    forall r :: r in granted
           <==> (r in relations && r.kind == "grants" && !Missing(catalogue, r.parent) && !Missing(catalogue, r.child))
  }

  /**
   * Whatever the limit, an identity holds an access if and only if one of its assignments of a catalogued access
   * reaches it over grants between catalogued accesses, and directly if and only if such an assignment names it.
   */
  lemma HeldMeansGranted(assignments: seq<Assignment>, relations: seq<Relation>, catalogue: Option<set<Ref>>,
                         limit: nat, granted: seq<Relation>, h: Holding)
    requires limit >= 1 && AreGrants(granted, relations, catalogue)
    ensures var results := Evaluate(assignments, relations, catalogue, limit).results;
            && (h in results
                <==> exists a :: a in assignments && !Missing(catalogue, a.access) && a.identity == h.identity
                              && Reaches(granted, a.access, h.access))
            && (h in results ==>
                  (results[h].direct
                   <==> exists a :: a in assignments && !Missing(catalogue, a.access) && a.identity == h.identity
                                 && a.access == h.access))
  {
    var grants, roots := GrantRelations(relations, catalogue), Roots(assignments, catalogue);
    EffectiveMeansReachable(assignments, relations, catalogue, limit, h);
    forall r ensures r in grants <==> r in granted {
      GrantRelationMember(relations, catalogue, r);
    }
    assert SameEdges(grants, granted);
    forall a ensures a in roots <==> a in assignments && !Missing(catalogue, a.access) {
    }
    forall a: Assignment ensures Reaches(grants, a.access, h.access) <==> Reaches(granted, a.access, h.access) {
      SameReach(grants, granted, a.access, h.access);
    }
  }

  // ----- What a path tells -----

  /** The path names the identity and the assignment, every access that is passed and every relation that is used. */
  predicate Tells(p: Path, a: Assignment, w: Walk) {
    && p.identity == a.identity && p.assignmentId == a.id
    && |p.chain| == |w| + 1 && p.chain[0] == a.access && (forall i :: 0 <= i < |w| ==> p.chain[i + 1] == w[i].child)
    && |p.relationIds| == |w| && forall i :: 0 <= i < |w| ==> p.relationIds[i] == w[i].id
  }

  /** The list has the grants between catalogued accesses, of those that repeat one another the first listed. */
  ghost predicate AreSearched(searched: seq<Relation>, relations: seq<Relation>, catalogue: Option<set<Ref>>) {
    forall r :: r in searched
           <==> (r.kind == "grants" && IsFirst(relations, r)
                 && !Missing(catalogue, r.parent) && !Missing(catalogue, r.child))
  }

  lemma TellsItsWalk(p: Path, a: Assignment, w: Walk)
    ensures Tells(p, a, w) <==> p == PathOf(a, w)
  {
    if Tells(p, a, w) {
      assert p.chain == Chain(a.access, w);
      assert p.relationIds == RelationIds(w);
    }
  }

  /**
   * Every path tells a walk without repetition from an assignment of the identity to the access; when no limit was
   * reported, every such walk is told.
   */
  lemma PathsTellWalks(assignments: seq<Assignment>, relations: seq<Relation>, catalogue: Option<set<Ref>>, limit: nat,
                       searched: seq<Relation>, h: Holding, p: Path)
    requires limit >= 1 && AreSearched(searched, relations, catalogue)
    ensures var e := Evaluate(assignments, relations, catalogue, limit);
            var told := exists a, w :: a in assignments && !Missing(catalogue, a.access) && a.identity == h.identity
                                    && IsSimpleWalk(searched, a.access, w) && End(a.access, w) == h.access
                                    && Tells(p, a, w);
            && (h in e.results && p in e.results[h].paths ==> told)
            && (told && !(exists d :: d in e.diagnostics && d.PathLimitReached?) ==>
                  h in e.results && p in e.results[h].paths)
  {
    var graph, roots := GraphOf(relations, catalogue), Roots(assignments, catalogue);
    PathsAreTheSimpleWalks(assignments, relations, catalogue, limit, h, p);
    forall r ensures r in graph <==> r in searched {
      SearchedRelations(relations, catalogue, r);
    }
    forall a, w {:trigger Tells(p, a, w)} ensures Tells(p, a, w) <==> p == PathOf(a, w) {
      TellsItsWalk(p, a, w);
    }
    if Explained(graph, roots, h, p) {
      var a, w :| a in roots && a.identity == h.identity && IsSimpleWalk(graph, a.access, w)
               && End(a.access, w) == h.access && p == PathOf(a, w);
      assert IsSimpleWalk(searched, a.access, w) && Tells(p, a, w);
    }
    if a, w :| (a in assignments && !Missing(catalogue, a.access) && a.identity == h.identity
                && IsSimpleWalk(searched, a.access, w) && End(a.access, w) == h.access && Tells(p, a, w)) {
      assert a in roots && IsSimpleWalk(graph, a.access, w);
    }
  }

  // ----- In which order paths are listed -----

  /** The path was recorded for the assignment. */
  predicate OwnedBy(a: Assignment, h: Holding, p: Path) {
    a.identity == h.identity && p.identity == a.identity && p.assignmentId == a.id && |p.chain| > 0
    && p.chain[0] == a.access
  }

  function PathsOf(results: Results, h: Holding): seq<Path> {
    if h in results then results[h].paths else []
  }

  /** Paths are only added behind those already there, and the added ones are those of the assignment. */
  ghost predicate AppendsOwn(a: Assignment, older: Results, newer: Results) {
    forall h :: h in newer ==>
      && PathsOf(older, h) <= newer[h].paths
      && forall i :: |PathsOf(older, h)| <= i < |newer[h].paths| ==> OwnedBy(a, h, newer[h].paths[i])
  }

  lemma RecordAppendsOwn(a: Assignment, older: Results, results: Results, h: Holding, direct: bool, w: Walk)
    requires AppendsOwn(a, older, results) && h.identity == a.identity && older.Keys <= results.Keys
    ensures AppendsOwn(a, older, Record(results, h, direct, PathOf(a, w)))
  {
    var newer := Record(results, h, direct, PathOf(a, w));
    assert OwnedBy(a, h, PathOf(a, w));
    forall k | k in newer
      ensures PathsOf(older, k) <= newer[k].paths
      ensures forall i :: |PathsOf(older, k)| <= i < |newer[k].paths| ==> OwnedBy(a, k, newer[k].paths[i])
    {
      if k != h {
        assert k in results && newer[k] == results[k];
      } else {
        assert PathsOf(older, h) <= PathsOf(results, h);
        assert newer[h].paths == PathsOf(results, h) || newer[h].paths == PathsOf(results, h) + [PathOf(a, w)];
      }
    }
  }

  lemma {:induction false} ChildrenAppendOwn(a: Assignment, older: Results, limit: nat, w: Walk,
                                             children: seq<Relation>, s: Search)
    requires AppendsOwn(a, older, s.results) && older.Keys <= s.results.Keys
    ensures var t := VisitChildren(a, limit, w, children, s);
            AppendsOwn(a, older, t.results) && older.Keys <= t.results.Keys
  {
    if children != [] {
      var k := |children| - 1;
      var h := Holding(a.identity, children[k].child);
      RecordAppendsOwn(a, older, s.results, h, false, w + [children[k]]);
      ChildrenAppendOwn(a, older, limit, w, children[..k], VisitChild(a, limit, w, children[k], s));
    }
  }

  lemma {:induction false} DrainAppendsOwn(graph: seq<Relation>, a: Assignment, older: Results, limit: nat, s: Search)
    requires Searchable(graph, a, s) && AppendsOwn(a, older, s.results) && older.Keys <= s.results.Keys
    ensures AppendsOwn(a, older, Drain(graph, a, limit, s).results)
    decreases Weight(|graph|, s.pending)
  {
    if s.pending != [] {
      var k := |s.pending| - 1;
      var w := s.pending[k];
      ChildrenAppendOwn(a, older, limit, w, Outgoing(graph, End(a.access, w)), s.(pending := s.pending[..k]));
      ExpandShrinks(graph, a, limit, s);
      DrainAppendsOwn(graph, a, older, limit, Expand(graph, a, limit, s));
    }
  }

  lemma ExploreAppendsOwn(graph: seq<Relation>, a: Assignment, catalogue: Catalogue, limit: nat, e: Evaluation)
    ensures AppendsOwn(a, e.results, Explore(graph, a, catalogue, limit, e).results)
  {
    if Known(catalogue, a.access) {
      EmptyWalkIsSimple(graph, a.access);
      RecordAppendsOwn(a, e.results, e.results, Holding(a.identity, a.access), true, []);
      DrainAppendsOwn(graph, a, e.results, limit, StartSearch(a, e));
    }
  }

  /** Positions in the sorted list whose assignments own the paths: ascending, the first where h is first held. */
  ghost predicate AreOwners(graph: seq<Relation>, sorted: seq<Assignment>, catalogue: Catalogue, limit: nat,
                            e: Evaluation, h: Holding, paths: seq<Path>, at: seq<nat>)
  {
    && |at| == |paths| && (forall i :: 0 <= i < |at| ==> at[i] < |sorted| && OwnedBy(sorted[at[i]], h, paths[i]))
    && (forall i, j :: 0 <= i < j < |at| ==> at[i] <= at[j])
    && IsFirstHeldAt(graph, sorted, catalogue, limit, e, h, at)
  }

  /** The search for the assignment at the first position is the first one that finds the access. */
  ghost predicate IsFirstHeldAt(graph: seq<Relation>, sorted: seq<Assignment>, catalogue: Catalogue, limit: nat,
                                e: Evaluation, h: Holding, at: seq<nat>)
  {
    at != [] ==>
      at[0] <= |sorted| && PathsOf(ExploreAll(graph, sorted[..at[0]], catalogue, limit, e).results, h) == []
  }

  lemma FirstHeldStays(graph: seq<Relation>, rest: seq<Assignment>, a: Assignment, catalogue: Catalogue, limit: nat,
                       e: Evaluation, h: Holding, at: seq<nat>, count: nat)
    requires IsFirstHeldAt(graph, rest, catalogue, limit, e, h, at)
    requires at == [] ==> PathsOf(ExploreAll(graph, rest, catalogue, limit, e).results, h) == []
    ensures IsFirstHeldAt(graph, rest + [a], catalogue, limit, e, h, at + seq(count, _ => |rest|))
  {
    var more := at + seq(count, _ => |rest|);
    if more != [] {
      assert more[0] == if at == [] then |rest| else at[0];
      assert (rest + [a])[..more[0]] == rest[..more[0]] && rest[..|rest|] == rest;
    }
  }

  lemma MoreOwners(graph: seq<Relation>, rest: seq<Assignment>, a: Assignment, catalogue: Catalogue, limit: nat,
                   e: Evaluation, h: Holding, before: seq<Path>, paths: seq<Path>, at: seq<nat>)
    requires AreOwners(graph, rest, catalogue, limit, e, h, before, at)
    requires before == PathsOf(ExploreAll(graph, rest, catalogue, limit, e).results, h)
    requires before <= paths && forall i :: |before| <= i < |paths| ==> OwnedBy(a, h, paths[i])
    ensures AreOwners(graph, rest + [a], catalogue, limit, e, h, paths,
                      at + seq(|paths| - |before|, _ => |rest|))
  {
    var more := at + seq(|paths| - |before|, _ => |rest|);
    MoreAreOwned(rest, a, h, before, paths, at, more);
    MoreStayAscending(at, |paths| - |before|, |rest|);
    FirstHeldStays(graph, rest, a, catalogue, limit, e, h, at, |paths| - |before|);
  }

  lemma MoreStayAscending(at: seq<nat>, count: nat, n: nat)
    requires (forall i :: 0 <= i < |at| ==> at[i] < n) && forall i, j :: 0 <= i < j < |at| ==> at[i] <= at[j]
    ensures var more := at + seq(count, _ => n);
            forall i, j :: 0 <= i < j < |more| ==> more[i] <= more[j]
  {
  }

  lemma MoreAreOwned(rest: seq<Assignment>, a: Assignment, h: Holding, before: seq<Path>, paths: seq<Path>,
                     at: seq<nat>, more: seq<nat>)
    requires |at| == |before| && before <= paths && more == at + seq(|paths| - |before|, _ => |rest|)
    requires forall i :: 0 <= i < |at| ==> at[i] < |rest| && OwnedBy(rest[at[i]], h, before[i])
    requires forall i :: |before| <= i < |paths| ==> OwnedBy(a, h, paths[i])
    ensures forall i :: 0 <= i < |more| ==> more[i] <= |rest| && OwnedBy((rest + [a])[more[i]], h, paths[i])
  {
    forall i | 0 <= i < |more| ensures more[i] <= |rest| && OwnedBy((rest + [a])[more[i]], h, paths[i]) {
      if i < |at| {
        assert more[i] == at[i] && (rest + [a])[at[i]] == rest[at[i]] && paths[i] == before[i];
      }
    }
  }

  lemma {:induction false} PathsHaveOwners(graph: seq<Relation>, sorted: seq<Assignment>, catalogue: Catalogue,
                                           limit: nat, e: Evaluation, h: Holding) returns (at: seq<nat>)
    requires e.results == map[]
    ensures AreOwners(graph, sorted, catalogue, limit, e, h,
                      PathsOf(ExploreAll(graph, sorted, catalogue, limit, e).results, h), at)
  {
    if sorted == [] {
      at := [];
    } else {
      var rest, a := sorted[..|sorted| - 1], sorted[|sorted| - 1];
      assert sorted == rest + [a];
      var older := ExploreAll(graph, rest, catalogue, limit, e);
      var newer := Explore(graph, a, catalogue, limit, older);
      var first := PathsHaveOwners(graph, rest, catalogue, limit, e, h);
      ExploreAppendsOwn(graph, a, catalogue, limit, older);
      ExploreKeepsHoldings(graph, a, catalogue, limit, older);
      MoreOwners(graph, rest, a, catalogue, limit, e, h, PathsOf(older.results, h), PathsOf(newer.results, h), first);
      at := first + seq(|PathsOf(newer.results, h)| - |PathsOf(older.results, h)|, _ => |rest|);
    }
  }

  lemma ExploreKeepsHoldings(graph: seq<Relation>, a: Assignment, catalogue: Catalogue, limit: nat, e: Evaluation)
    ensures e.results.Keys <= Explore(graph, a, catalogue, limit, e).results.Keys
  {
    if Known(catalogue, a.access) {
      EmptyWalkIsSimple(graph, a.access);
      DrainExtends(graph, a, limit, StartSearch(a, e));
    }
  }

  /** Assignments of one identity by provider and name of the access, then by digest of origin, then by id. */
  predicate Before(a: Assignment, b: Assignment) {
    if a.access.provider != b.access.provider then TextLeq(a.access.provider, b.access.provider)
    else if a.access.name != b.access.name then TextLeq(a.access.name, b.access.name)
    else if a.origin.fingerprint != b.origin.fingerprint then TextLeq(a.origin.fingerprint, b.origin.fingerprint)
    else TextLeq(a.id, b.id)
  }

  lemma KeyUnfolds(x: string, xs: seq<string>, y: string, ys: seq<string>)
    ensures KeyLeq([x] + xs, [y] + ys) <==> if x == y then KeyLeq(xs, ys) else TextLeq(x, y)
  {
    assert ([x] + xs)[1..] == xs && ([y] + ys)[1..] == ys;
  }

  lemma SortedMeansBefore(a: Assignment, b: Assignment)
    requires a.identity == b.identity && KeyLeq(AssignmentKey(a), AssignmentKey(b))
    ensures Before(a, b)
  {
    var a5, b5 := [a.id], [b.id];
    var a4, b4 := [a.origin.fingerprint] + a5, [b.origin.fingerprint] + b5;
    var a3, b3 := [a.access.name] + a4, [b.access.name] + b4;
    var a2, b2 := [a.access.provider] + a3, [b.access.provider] + b3;
    var a1, b1 := [a.identity.name] + a2, [b.identity.name] + b2;
    assert AssignmentKey(a) == [a.identity.provider] + a1 && AssignmentKey(b) == [b.identity.provider] + b1;
    KeyUnfolds(a.identity.provider, a1, b.identity.provider, b1);
    KeyUnfolds(a.identity.name, a2, b.identity.name, b2);
    KeyUnfolds(a.access.provider, a3, b.access.provider, b3);
    KeyUnfolds(a.access.name, a4, b.access.name, b4);
    KeyUnfolds(a.origin.fingerprint, a5, b.origin.fingerprint, b5);
    assert a5 == [a.id] + [] && b5 == [b.id] + [];
    KeyUnfolds(a.id, [], b.id, []);
    TextOrder(a.id, b.id, a.id);
  }

  lemma PrefixHolds(graph: seq<Relation>, sorted: seq<Assignment>, catalogue: Catalogue, limit: nat, e: Evaluation,
                    h: Holding, b: Assignment)
    requires limit >= 1 && Explored(graph, {}, limit, e)
    requires b in sorted && Known(catalogue, b.access) && b.identity == h.identity && Reaches(graph, b.access, h.access)
    ensures PathsOf(ExploreAll(graph, sorted, catalogue, limit, e).results, h) != []
  {
    var next := ExploreAll(graph, sorted, catalogue, limit, e);
    ExploreAllKeeps(graph, sorted, catalogue, limit, e);
    assert b in Roots(sorted, catalogue);
    HeldMeansReachable(graph, Roots(sorted, catalogue), limit, next, h);
    assert HoldingIsSound(graph, Roots(sorted, catalogue), limit, h, next.results[h]);
  }

  lemma FirstOwnerIsFirst(graph: seq<Relation>, sorted: seq<Assignment>, catalogue: Catalogue, limit: nat,
                          e: Evaluation, h: Holding, paths: seq<Path>, at: seq<nat>, n: nat)
    requires limit >= 1 && Explored(graph, {}, limit, e)
    requires AreOwners(graph, sorted, catalogue, limit, e, h, paths, at) && at != [] && n < |sorted|
    requires Known(catalogue, sorted[n].access) && sorted[n].identity == h.identity
    requires Reaches(graph, sorted[n].access, h.access)
    ensures at[0] <= n
  {
    if n < at[0] {
      assert sorted[..at[0]][n] == sorted[n];
      PrefixHolds(graph, sorted[..at[0]], catalogue, limit, e, h, sorted[n]);
      assert false;
    }
  }

  /** The first path of a holding starts from the first of the identity's assignments that reach the access. */
  lemma FirstPathIsOfFirst(assignments: seq<Assignment>, relations: seq<Relation>, catalogue: Option<set<Ref>>,
                           limit: nat, granted: seq<Relation>, h: Holding) returns (owner: Assignment)
    requires limit >= 1 && AreGrants(granted, relations, catalogue)
    requires h in Evaluate(assignments, relations, catalogue, limit).results
    ensures var paths := Evaluate(assignments, relations, catalogue, limit).results[h].paths;
            paths != [] && OwnedBy(owner, h, paths[0])
    ensures owner in assignments
    ensures forall b :: (b in assignments && !Missing(catalogue, b.access) && b.identity == h.identity
                         && Reaches(granted, b.access, h.access)) ==> Before(owner, b)
  {
    var graph, sorted := GraphOf(relations, catalogue), SortBy(AssignmentKey, assignments);
    var start := Evaluation(map[], RelationDiagnostics(SortBy(RelationKey, relations), catalogue));
    var paths := Evaluate(assignments, relations, catalogue, limit).results[h].paths;
    var at := PathsHaveOwners(graph, sorted, catalogue, limit, start, h);
    SortIsOrderedPermutation(AssignmentKey, assignments);
    StartIsExplored(assignments, relations, catalogue, limit, h);
    owner := sorted[at[0]];
    SortMember(AssignmentKey, assignments, owner);
    forall b | (b in assignments && !Missing(catalogue, b.access) && b.identity == h.identity
                && Reaches(granted, b.access, h.access))
      ensures Before(owner, b)
    {
      SortMember(AssignmentKey, assignments, b);
      GrantedReach(relations, catalogue, granted, b.access, h.access);
      NoneIsBefore(graph, sorted, catalogue, limit, start, h, paths, at, b);
    }
  }

  lemma NoneIsBefore(graph: seq<Relation>, sorted: seq<Assignment>, catalogue: Catalogue, limit: nat,
                     e: Evaluation, h: Holding, paths: seq<Path>, at: seq<nat>, b: Assignment)
    requires limit >= 1 && Explored(graph, {}, limit, e) && Ascending(AssignmentKey, sorted)
    requires AreOwners(graph, sorted, catalogue, limit, e, h, paths, at) && at != []
    requires b in sorted && Known(catalogue, b.access) && b.identity == h.identity && Reaches(graph, b.access, h.access)
    ensures Before(sorted[at[0]], b)
  {
    var n :| 0 <= n < |sorted| && sorted[n] == b;
    FirstOwnerIsFirst(graph, sorted, catalogue, limit, e, h, paths, at, n);
    AtMeansBefore(sorted, at[0], n);
  }

  lemma AtMeansBefore(sorted: seq<Assignment>, m: nat, n: nat)
    requires Ascending(AssignmentKey, sorted) && m <= n < |sorted| && sorted[m].identity == sorted[n].identity
    ensures Before(sorted[m], sorted[n])
  {
    KeyOrder(AssignmentKey(sorted[m]), AssignmentKey(sorted[m]), []);
    SortedMeansBefore(sorted[m], sorted[n]);
  }

  lemma GrantedReach(relations: seq<Relation>, catalogue: Catalogue, granted: seq<Relation>, root: Ref, target: Ref)
    requires AreGrants(granted, relations, catalogue) && Reaches(granted, root, target)
    ensures Reaches(GraphOf(relations, catalogue), root, target)
  {
    var grants := GrantRelations(relations, catalogue);
    forall r ensures r in grants <==> r in granted {
      GrantRelationMember(relations, catalogue, r);
    }
    GraphHasTheAdmissibleEdges(relations, catalogue);
    SameReach(granted, grants, root, target);
    SameReach(GraphOf(relations, catalogue), grants, root, target);
  }

  lemma StartIsExplored(assignments: seq<Assignment>, relations: seq<Relation>, catalogue: Catalogue, limit: nat,
                        h: Holding)
    requires limit >= 1
    ensures Explored(GraphOf(relations, catalogue), {}, limit,
                     Evaluation(map[], RelationDiagnostics(SortBy(RelationKey, relations), catalogue)))
    ensures var e := Evaluate(assignments, relations, catalogue, limit);
            h in e.results ==> e.results[h].paths != []
  {
    RelationDiagnosticsAreStatic(SortBy(RelationKey, relations), catalogue);
    EvaluationIsExplored(assignments, relations, catalogue, limit);
    var e := Evaluate(assignments, relations, catalogue, limit);
    if h in e.results {
      assert HoldingIsSound(GraphOf(relations, catalogue), Roots(assignments, catalogue), limit, h, e.results[h]);
    }
  }
}
