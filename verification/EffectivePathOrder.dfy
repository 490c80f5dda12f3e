/** In which order the paths of one access are listed: by their assignment, and for one assignment by the search. */
module EffectivePathOrder {
  import opened Domain
  import opened Ordering
  import opened GrantGraph
  import opened EffectiveAccess
  import opened EffectiveAccessSearch
  import opened EffectiveAccessTheorems
  import opened EffectiveDiagnostics
  import opened EffectivePaths

  // ----- The order of walks -----

  /** Grants of one access by provider and name of the granted access, then by digest of origin. */
  predicate ChildBefore(a: Relation, b: Relation) {
    if a.child.provider != b.child.provider then TextLeq(a.child.provider, b.child.provider)
    else if a.child.name != b.child.name then TextLeq(a.child.name, b.child.name)
    else TextLeq(a.origin.fingerprint, b.origin.fingerprint)
  }

  /** The walks agree up to c, and from there the first one is met before the second one. */
  ghost predicate PrecedesAt(u: Walk, v: Walk, c: nat) {
    && c <= |u| && c < |v| && u[..c] == v[..c]
    && (c < |u| ==>
          && u[c] != v[c]
          && (if |v| == c + 1 then |u| == c + 1 && ChildBefore(v[c], u[c])
              else |u| == c + 1 || ChildBefore(u[c], v[c])))
  }

  /**
   * A walk comes before its extensions. Where two walks part, those that end with that step come first, the last step
   * first; the others follow in the order of their steps.
   */
  ghost predicate Precedes(u: Walk, v: Walk) {
    exists c :: PrecedesAt(u, v, c)
  }

  predicate Extends(p: Walk, f: Walk) {
    |p| < |f| && f[..|p|] == p
  }

  lemma PrefixPrecedes(u: Walk, f: Walk)
    requires Extends(u, f)
    ensures Precedes(u, f)
  {
    assert PrecedesAt(u, f, |u|);
  }

  lemma SiblingsPrecede(w: Walk, a: Relation, b: Relation)
    requires a != b && ChildBefore(a, b)
    ensures Precedes(w + [b], w + [a])
  {
    assert PrecedesAt(w + [b], w + [a], |w|);
  }

  lemma StepPrecedesDeeper(w: Walk, a: Relation, b: Relation, f: Walk)
    requires Extends(w + [b], f)
    ensures Precedes(w + [a], f) && Extends(w, f)
  {
    assert f[..|w|] == f[..|w| + 1][..|w|] == w && f[|w|] == f[..|w| + 1][|w|] == b;
    if a == b {
      PrefixPrecedes(w + [a], f);
    } else {
      assert PrecedesAt(w + [a], f, |w|);
    }
  }

  lemma DeeperPrecede(w: Walk, a: Relation, b: Relation, f: Walk, g: Walk)
    requires a != b && ChildBefore(a, b) && Extends(w + [a], f) && Extends(w + [b], g)
    ensures Precedes(f, g)
  {
    StepPrecedesDeeper(w, a, a, f);
    StepPrecedesDeeper(w, b, b, g);
    assert f[|w|] == f[..|w| + 1][|w|] == a && g[|w|] == g[..|w| + 1][|w|] == b;
    assert PrecedesAt(f, g, |w|);
  }

  // ----- What the search keeps -----

  function PathsAlong(a: Assignment, ws: seq<Walk>): seq<Path> {
    seq(|ws|, i requires 0 <= i < |ws| => PathOf(a, ws[i]))
  }

  ghost predicate AreOrdered(ws: seq<Walk>) {
    forall i, j :: 0 <= i < j < |ws| ==> Precedes(ws[i], ws[j])
  }

  ghost predicate PrecedesBelow(u: Walk, p: Walk) {
    forall f :: Extends(p, f) ==> Precedes(u, f)
  }

  /** Everything below g comes before everything below f. */
  ghost predicate BelowPrecedes(p: Walk, q: Walk) {
    forall f, g :: Extends(p, f) && Extends(q, g) ==> Precedes(f, g)
  }

  /** What is told precedes what is still to be found, and of that the top of the stack comes first. */
  ghost predicate InOrder(ws: seq<Walk>, pending: seq<Walk>) {
    && AreOrdered(ws)
    && (forall i, j :: 0 <= i < |ws| && 0 <= j < |pending| ==> PrecedesBelow(ws[i], pending[j]))
    && forall i, j :: 0 <= i < j < |pending| ==> BelowPrecedes(pending[j], pending[i])
  }

  /** The paths of the holding are those from before and then those of the walks. */
  predicate TellsPaths(a: Assignment, h: Holding, results: Results, base: seq<Path>, ws: seq<Walk>) {
    PathsOf(results, h) == base + PathsAlong(a, ws)
  }

  /** The children from j on have been visited: their walks are on the stack, the last child lowest. */
  ghost predicate AreStacked(w: Walk, children: seq<Relation>, j: nat, rest: seq<Walk>, pending: seq<Walk>,
                             steps: seq<nat>)
  {
    && |pending| == |rest| + |steps| && rest <= pending
    && (forall i :: 0 <= i < |steps| ==>
          j <= steps[i] < |children| && pending[|rest| + i] == w + [children[steps[i]]])
    && forall i, k :: 0 <= i < k < |steps| ==> steps[i] > steps[k]
  }

  /** A walk told before the children were visited, or that of a visited child. */
  ghost predicate IsOldOrChild(w: Walk, children: seq<Relation>, j: nat, u: Walk) {
    PrecedesBelow(u, w) || exists b :: j <= b < |children| && u == w + [children[b]]
  }

  ghost predicate Visiting(w: Walk, children: seq<Relation>, j: nat, rest: seq<Walk>, ws: seq<Walk>) {
    && AreOrdered(ws)
    && (forall i :: 0 <= i < |ws| ==> IsOldOrChild(w, children, j, ws[i]))
    && (forall i, k :: 0 <= i < |ws| && 0 <= k < |rest| ==> PrecedesBelow(ws[i], rest[k]))
    && (forall i, k :: 0 <= i < k < |rest| ==> BelowPrecedes(rest[k], rest[i]))
    && forall k :: 0 <= k < |rest| ==> BelowPrecedes(w, rest[k])
  }

  ghost predicate AreSiblings(children: seq<Relation>) {
    forall i, j :: 0 <= i < j < |children| ==> children[i] != children[j] && ChildBefore(children[i], children[j])
  }

  lemma PoppedIsVisiting(w: Walk, children: seq<Relation>, pending: seq<Walk>, ws: seq<Walk>)
    requires pending != [] && pending[|pending| - 1] == w && InOrder(ws, pending)
    ensures Visiting(w, children, |children|, pending[..|pending| - 1], ws)
  {
    var rest := pending[..|pending| - 1];
    assert forall k :: 0 <= k < |rest| ==> rest[k] == pending[k];
  }

  lemma OneChildMore(w: Walk, children: seq<Relation>, j: nat, rest: seq<Walk>, ws: seq<Walk>)
    requires AreSiblings(children) && j < |children| && Visiting(w, children, j + 1, rest, ws)
    ensures Visiting(w, children, j, rest, ws) && Visiting(w, children, j, rest, ws + [w + [children[j]]])
  {
    var u := w + [children[j]];
    assert Extends(w, u);
    forall i | 0 <= i < |ws| ensures Precedes(ws[i], u) && IsOldOrChild(w, children, j, ws[i]) {
      assert IsOldOrChild(w, children, j + 1, ws[i]);
      if !PrecedesBelow(ws[i], w) {
        var b :| j + 1 <= b < |children| && ws[i] == w + [children[b]];
        SiblingsPrecede(w, children[j], children[b]);
      }
    }
    forall k | 0 <= k < |rest| ensures PrecedesBelow(u, rest[k]) {
      assert BelowPrecedes(w, rest[k]);
    }
    assert IsOldOrChild(w, children, j, u);
  }

  lemma VisitedAreInOrder(w: Walk, children: seq<Relation>, rest: seq<Walk>, pending: seq<Walk>, steps: seq<nat>,
                          ws: seq<Walk>)
    requires AreSiblings(children) && Visiting(w, children, 0, rest, ws)
    requires AreStacked(w, children, 0, rest, pending, steps)
    ensures InOrder(ws, pending)
  {
    forall i, j | 0 <= i < |ws| && 0 <= j < |pending| ensures PrecedesBelow(ws[i], pending[j]) {
      if j < |rest| {
        assert pending[j] == rest[j];
      } else {
        ToldPrecedesStacked(w, children, ws[i], children[steps[j - |rest|]]);
      }
    }
    forall i, j | 0 <= i < j < |pending| ensures BelowPrecedes(pending[j], pending[i]) {
      if j < |rest| {
        assert pending[j] == rest[j] && pending[i] == rest[i];
      } else {
        var b := children[steps[j - |rest|]];
        forall f, g | Extends(pending[j], f) && Extends(pending[i], g) ensures Precedes(f, g) {
          StepPrecedesDeeper(w, b, b, f);
          if i < |rest| {
            assert pending[i] == rest[i] && BelowPrecedes(w, rest[i]);
          } else {
            DeeperPrecede(w, b, children[steps[i - |rest|]], f, g);
          }
        }
      }
    }
  }

  lemma ToldPrecedesStacked(w: Walk, children: seq<Relation>, u: Walk, b: Relation)
    requires IsOldOrChild(w, children, 0, u)
    ensures PrecedesBelow(u, w + [b])
  {
    forall f | Extends(w + [b], f) ensures Precedes(u, f) {
      StepPrecedesDeeper(w, b, b, f);
      if !PrecedesBelow(u, w) {
        var k :| 0 <= k < |children| && u == w + [children[k]];
        StepPrecedesDeeper(w, children[k], b, f);
      }
    }
  }

  lemma RecordTells(a: Assignment, h: Holding, results: Results, base: seq<Path>, ws: seq<Walk>, own: Holding,
                    direct: bool, w: Walk) returns (told: seq<Walk>)
    requires TellsPaths(a, h, results, base, ws)
    ensures TellsPaths(a, h, Record(results, own, direct, PathOf(a, w)), base, told)
    ensures told == ws || told == ws + [w]
  {
    if own == h && PathOf(a, w) !in PathsOf(results, h) {
      told := ws + [w];
      assert PathsAlong(a, told) == PathsAlong(a, ws) + [PathOf(a, w)];
    } else {
      told := ws;
    }
  }

  lemma FewerToVisit(w: Walk, children: seq<Relation>, j: nat, rest: seq<Walk>, pending: seq<Walk>, steps: seq<nat>)
    requires AreStacked(w, children, j + 1, rest, pending, steps)
    ensures AreStacked(w, children, j, rest, pending, steps)
  {
  }

  lemma OneMoreStacked(w: Walk, children: seq<Relation>, j: nat, rest: seq<Walk>, pending: seq<Walk>,
                       steps: seq<nat>)
    requires j < |children| && AreStacked(w, children, j + 1, rest, pending, steps)
    ensures AreStacked(w, children, j, rest, pending + [w + [children[j]]], steps + [j])
  {
  }

  lemma {:induction false} ChildrenInOrder(a: Assignment, h: Holding, base: seq<Path>, limit: nat, w: Walk,
                                           children: seq<Relation>, j: nat, rest: seq<Walk>, s: Search,
                                           ws: seq<Walk>, steps: seq<nat>)
    returns (told: seq<Walk>)
    requires j <= |children| && AreSiblings(children) && Visiting(w, children, j, rest, ws)
    requires AreStacked(w, children, j, rest, s.pending, steps) && TellsPaths(a, h, s.results, base, ws)
    ensures var t := VisitChildren(a, limit, w, children[..j], s);
            InOrder(told, t.pending) && TellsPaths(a, h, t.results, base, told)
  {
    if j == 0 {
      told := ws;
      VisitedAreInOrder(w, children, rest, s.pending, steps, ws);
    } else {
      var r, t := children[j - 1], VisitChild(a, limit, w, children[j - 1], s);
      assert children[..j][j - 1] == r && children[..j][..j - 1] == children[..j - 1];
      OneChildMore(w, children, j - 1, rest, ws);
      if t.pending == s.pending {
        FewerToVisit(w, children, j - 1, rest, s.pending, steps);
        told := ChildrenInOrder(a, h, base, limit, w, children, j - 1, rest, t, ws, steps);
      } else {
        var more := RecordTells(a, h, s.results, base, ws, Holding(a.identity, r.child), false, w + [r]);
        OneMoreStacked(w, children, j - 1, rest, s.pending, steps);
        told := ChildrenInOrder(a, h, base, limit, w, children, j - 1, rest, t, more, steps + [j - 1]);
      }
    }
  }

  // ----- The graph lists the grants of an access in their order -----

  lemma {:induction false} AdmitStaysAscending(sorted: seq<Relation>, catalogue: Catalogue)
    requires Ascending(RelationKey, sorted)
    ensures Ascending(RelationKey, Admit(sorted, catalogue)) && Distinct(Admit(sorted, catalogue))
    ensures forall r :: r in Admit(sorted, catalogue) ==> r in sorted && r.kind == GRANTS
  {
    if sorted != [] {
      var n := |sorted| - 1;
      var kept := Admit(sorted[..n], catalogue);
      AdmitStaysAscending(sorted[..n], catalogue);
      forall i | 0 <= i < |kept| ensures KeyLeq(RelationKey(kept[i]), RelationKey(sorted[n])) {
        assert kept[i] in sorted[..n];
        var k :| 0 <= k < n && sorted[k] == kept[i];
      }
      assert forall r :: r in sorted[..n] ==> r in sorted;
      assert RelationKey(sorted[n]) !in SeenKeys(sorted[..n]) ==> sorted[n] !in kept;
    }
  }

  lemma {:induction false} OutgoingStaysAscending(graph: seq<Relation>, parent: Ref)
    requires Ascending(RelationKey, graph) && Distinct(graph)
    ensures Ascending(RelationKey, Outgoing(graph, parent)) && Distinct(Outgoing(graph, parent))
  {
    if graph != [] {
      var n := |graph| - 1;
      OutgoingStaysAscending(graph[..n], parent);
      OutgoingAreThose(graph[..n], parent);
      var kept := Outgoing(graph[..n], parent);
      forall i | 0 <= i < |kept|
        ensures KeyLeq(RelationKey(kept[i]), RelationKey(graph[n])) && kept[i] != graph[n]
      {
        assert kept[i] in graph[..n];
        var k :| 0 <= k < n && graph[k] == kept[i];
      }
    }
  }

  lemma SameParentByChild(a: Relation, b: Relation)
    requires a.parent == b.parent && a.kind == b.kind && KeyLeq(RelationKey(a), RelationKey(b))
    ensures ChildBefore(a, b)
  {
    var a5, b5 := [a.origin.fingerprint], [b.origin.fingerprint];
    var a4, b4 := [a.kind] + a5, [b.kind] + b5;
    var a3, b3 := [a.child.name] + a4, [b.child.name] + b4;
    var a2, b2 := [a.child.provider] + a3, [b.child.provider] + b3;
    var a1, b1 := [a.parent.name] + a2, [b.parent.name] + b2;
    assert RelationKey(a) == [a.parent.provider] + a1 && RelationKey(b) == [b.parent.provider] + b1;
    KeyUnfolds(a.parent.provider, a1, b.parent.provider, b1);
    KeyUnfolds(a.parent.name, a2, b.parent.name, b2);
    KeyUnfolds(a.child.provider, a3, b.child.provider, b3);
    KeyUnfolds(a.child.name, a4, b.child.name, b4);
    KeyUnfolds(a.kind, a5, b.kind, b5);
    assert a5 == [a.origin.fingerprint] + [] && b5 == [b.origin.fingerprint] + [];
    KeyUnfolds(a.origin.fingerprint, [], b.origin.fingerprint, []);
    TextOrder(a.origin.fingerprint, b.origin.fingerprint, a.origin.fingerprint);
  }

  /** The relations are distinct grants in the order of their keys. */
  ghost predicate IsListed(graph: seq<Relation>) {
    Ascending(RelationKey, graph) && Distinct(graph) && forall r :: r in graph ==> r.kind == GRANTS
  }

  lemma OutgoingAreSiblings(graph: seq<Relation>, parent: Ref)
    requires IsListed(graph)
    ensures AreSiblings(Outgoing(graph, parent))
  {
    var children := Outgoing(graph, parent);
    OutgoingStaysAscending(graph, parent);
    OutgoingAreThose(graph, parent);
    forall i, j | 0 <= i < j < |children| ensures ChildBefore(children[i], children[j]) {
      assert children[i] in children && children[j] in children;
      SameParentByChild(children[i], children[j]);
    }
  }

  lemma GraphIsListed(relations: seq<Relation>, catalogue: Catalogue)
    ensures IsListed(GraphOf(relations, catalogue))
  {
    SortIsOrderedPermutation(RelationKey, relations);
    AdmitStaysAscending(SortBy(RelationKey, relations), catalogue);
  }

  // ----- The whole search -----

  lemma NothingStacked(w: Walk, children: seq<Relation>, rest: seq<Walk>)
    ensures AreStacked(w, children, |children|, rest, rest, [])
  {
  }

  lemma ExpandInOrder(graph: seq<Relation>, a: Assignment, h: Holding, base: seq<Path>, limit: nat, s: Search,
                      ws: seq<Walk>) returns (told: seq<Walk>)
    requires IsListed(graph) && s.pending != []
    requires InOrder(ws, s.pending) && TellsPaths(a, h, s.results, base, ws)
    ensures var t := Expand(graph, a, limit, s);
            InOrder(told, t.pending) && TellsPaths(a, h, t.results, base, told)
  {
    var k := |s.pending| - 1;
    var w, rest := s.pending[k], s.pending[..k];
    var children := Outgoing(graph, End(a.access, w));
    OutgoingAreSiblings(graph, End(a.access, w));
    PoppedIsVisiting(w, children, s.pending, ws);
    NothingStacked(w, children, rest);
    assert children[..|children|] == children;
    told := ChildrenInOrder(a, h, base, limit, w, children, |children|, rest, s.(pending := rest), ws, []);
  }

  lemma {:induction false} DrainInOrder(graph: seq<Relation>, a: Assignment, h: Holding, base: seq<Path>, limit: nat,
                                        s: Search, ws: seq<Walk>) returns (told: seq<Walk>)
    requires IsListed(graph) && Searchable(graph, a, s)
    requires InOrder(ws, s.pending) && TellsPaths(a, h, s.results, base, ws)
    ensures AreOrdered(told) && TellsPaths(a, h, Drain(graph, a, limit, s).results, base, told)
    decreases Weight(|graph|, s.pending)
  {
    told := ws;
    if s.pending != [] {
      var next := ExpandInOrder(graph, a, h, base, limit, s, ws);
      ExpandShrinks(graph, a, limit, s);
      told := DrainInOrder(graph, a, h, base, limit, Expand(graph, a, limit, s), next);
    }
  }

  lemma StartInOrder(a: Assignment, h: Holding, e: Evaluation) returns (told: seq<Walk>)
    ensures var s := StartSearch(a, e);
            InOrder(told, s.pending) && TellsPaths(a, h, s.results, PathsOf(e.results, h), told)
  {
    var base := PathsOf(e.results, h);
    assert base + PathsAlong(a, []) == base;
    told := RecordTells(a, h, e.results, base, [], Holding(a.identity, a.access), true, []);
    forall f | Extends([], f) ensures Precedes([], f) {
      PrefixPrecedes([], f);
    }
    assert told == [] || told == [[]];
  }

  lemma ExploreInOrder(graph: seq<Relation>, a: Assignment, h: Holding, catalogue: Catalogue, limit: nat,
                       e: Evaluation) returns (told: seq<Walk>)
    requires IsListed(graph)
    ensures AreOrdered(told)
    ensures TellsPaths(a, h, Explore(graph, a, catalogue, limit, e).results, PathsOf(e.results, h), told)
  {
    if Known(catalogue, a.access) {
      EmptyWalkIsSimple(graph, a.access);
      var first := StartInOrder(a, h, e);
      told := DrainInOrder(graph, a, h, PathsOf(e.results, h), limit, StartSearch(a, e), first);
    } else {
      told := [];
      assert PathsOf(e.results, h) + PathsAlong(a, []) == PathsOf(e.results, h);
    }
  }

  /** Which search found each path, and along which walk. */
  ghost predicate AreFound(sorted: seq<Assignment>, paths: seq<Path>, at: seq<nat>, walks: seq<Walk>) {
    && |at| == |walks| == |paths|
    && (forall i :: 0 <= i < |at| ==> at[i] < |sorted| && paths[i] == PathOf(sorted[at[i]], walks[i]))
    && forall i, j :: 0 <= i < j < |at| ==> at[i] < at[j] || (at[i] == at[j] && Precedes(walks[i], walks[j]))
  }

  lemma MoreAreFound(rest: seq<Assignment>, a: Assignment, before: seq<Path>, at: seq<nat>, walks: seq<Walk>,
                     told: seq<Walk>)
    requires AreFound(rest, before, at, walks) && AreOrdered(told)
    ensures AreFound(rest + [a], before + PathsAlong(a, told), at + seq(|told|, _ => |rest|), walks + told)
  {
    var more, all := at + seq(|told|, _ => |rest|), rest + [a];
    forall i | 0 <= i < |more|
      ensures more[i] < |all| && (before + PathsAlong(a, told))[i] == PathOf(all[more[i]], (walks + told)[i])
    {
      if i < |at| {
        assert all[at[i]] == rest[at[i]];
      }
    }
  }

  lemma {:induction false} PathsAreFound(graph: seq<Relation>, sorted: seq<Assignment>, h: Holding,
                                         catalogue: Catalogue, limit: nat, e: Evaluation)
    returns (at: seq<nat>, walks: seq<Walk>)
    requires IsListed(graph) && e.results == map[]
    ensures AreFound(sorted, PathsOf(ExploreAll(graph, sorted, catalogue, limit, e).results, h), at, walks)
  {
    at, walks := [], [];
    if sorted != [] {
      var n := |sorted| - 1;
      var rest, a := sorted[..n], sorted[n];
      assert sorted == rest + [a];
      var older := ExploreAll(graph, rest, catalogue, limit, e);
      at, walks := PathsAreFound(graph, rest, h, catalogue, limit, e);
      var told := ExploreInOrder(graph, a, h, catalogue, limit, older);
      MoreAreFound(rest, a, PathsOf(older.results, h), at, walks, told);
      at, walks := at + seq(|told|, _ => |rest|), walks + told;
    }
  }

  /** By the searches that found the paths, which follow the assignments, and in each search as it meets the walks. */
  ghost predicate AreInOrder(owners: seq<Assignment>, walks: seq<Walk>, searches: seq<nat>) {
    && |owners| == |walks| == |searches|
    && forall i, j :: 0 <= i < j < |owners| ==>
         if searches[i] == searches[j] then owners[i] == owners[j] && Precedes(walks[i], walks[j])
         else searches[i] < searches[j] && Before(owners[i], owners[j])
  }

  /**
   * The paths of a holding are listed in the order of the assignments they start from, and those that one search found
   * in the order in which it meets their walks.
   */
  lemma PathsAreListedInOrder(assignments: seq<Assignment>, relations: seq<Relation>, catalogue: Option<set<Ref>>,
                              limit: nat, h: Holding)
    returns (owners: seq<Assignment>, walks: seq<Walk>, searches: seq<nat>)
    requires limit >= 1 && h in Evaluate(assignments, relations, catalogue, limit).results
    ensures var paths := Evaluate(assignments, relations, catalogue, limit).results[h].paths;
            && |owners| == |paths| && AreInOrder(owners, walks, searches)
            && forall i :: 0 <= i < |paths| ==> owners[i] in assignments && Tells(paths[i], owners[i], walks[i])
  {
    var graph, sorted := GraphOf(relations, catalogue), SortBy(AssignmentKey, assignments);
    var start := Evaluation(map[], RelationDiagnostics(SortBy(RelationKey, relations), catalogue));
    var paths := Evaluate(assignments, relations, catalogue, limit).results[h].paths;
    GraphIsListed(relations, catalogue);
    SortIsOrderedPermutation(AssignmentKey, assignments);
    PathsAreOfHolding(assignments, relations, catalogue, limit, h);
    searches, walks := PathsAreFound(graph, sorted, h, catalogue, limit, start);
    owners := seq(|searches|, i requires 0 <= i < |searches| => sorted[searches[i]]);
    forall i | 0 <= i < |paths| ensures owners[i] in assignments && Tells(paths[i], owners[i], walks[i]) {
      SortMember(AssignmentKey, assignments, owners[i]);
      TellsItsWalk(paths[i], owners[i], walks[i]);
    }
    forall i, j | 0 <= i < j < |paths| && searches[i] < searches[j] ensures Before(owners[i], owners[j]) {
      assert paths[i].identity == h.identity && paths[j].identity == h.identity;
      AtMeansBefore(sorted, searches[i], searches[j]);
    }
  }

  lemma PathsAreOfHolding(assignments: seq<Assignment>, relations: seq<Relation>, catalogue: Option<set<Ref>>,
                          limit: nat, h: Holding)
    requires limit >= 1 && h in Evaluate(assignments, relations, catalogue, limit).results
    ensures var paths := Evaluate(assignments, relations, catalogue, limit).results[h].paths;
            forall i :: 0 <= i < |paths| ==> paths[i].identity == h.identity
  {
    var graph, roots := GraphOf(relations, catalogue), Roots(assignments, catalogue);
    var e := Evaluate(assignments, relations, catalogue, limit);
    EvaluationIsExplored(assignments, relations, catalogue, limit);
    forall i | 0 <= i < |e.results[h].paths| ensures e.results[h].paths[i].identity == h.identity {
      assert HoldingIsSound(graph, roots, limit, h, e.results[h]);
      assert Explained(graph, roots, h, e.results[h].paths[i]);
    }
  }
}
