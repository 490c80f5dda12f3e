/** Downstream grants and rights: a search of bounded depth. */
module FunctionalContext {
  import opened Domain
  import opened Ordering
  import opened GrantGraph
  import opened GoldenVersions
  import EffectiveAccess
  import Theorems = EffectiveAccessTheorems

  /** An access met by the search, its distance from the root and the route that led to it. */
  datatype Visit = Visit(access: Ref, depth: nat, path: seq<Ref>)

  datatype Grant = Grant(access: Ref, path: seq<Ref>)

  predicate IsGrant(relations: seq<Relation>, parent: Ref, child: Ref) {
    exists r :: r in relations && r.kind == GRANTS && r.parent == parent && r.child == child
  }

  /** The accesses at grant distance at most n. */
  function Within(relations: seq<Relation>, root: Ref, n: nat): set<Ref> {
    if n == 0 then {root}
    else
      var nearer := Within(relations, root, n - 1);
      nearer + set r | r in relations && r.kind == GRANTS && r.parent in nearer :: r.child
  }

  ghost predicate IsRoute(relations: seq<Relation>, root: Ref, path: seq<Ref>) {
    path != [] && path[0] == root && forall i :: 0 <= i < |path| - 1 ==> IsGrant(relations, path[i], path[i + 1])
  }

  /** The route is valid, ends at the access, and no shorter one exists. */
  ghost predicate IsShortest(relations: seq<Relation>, root: Ref, v: Visit) {
    && IsRoute(relations, root, v.path) && |v.path| == v.depth + 1 && v.path[v.depth] == v.access
    && v.access in Within(relations, root, v.depth)
    && (v.depth > 0 ==> v.access !in Within(relations, root, v.depth - 1))
  }

  function Accesses(found: seq<Visit>): seq<Ref> {
    seq(|found|, i requires 0 <= i < |found| => found[i].access)
  }

  function ChildrenOf(relations: seq<Relation>, parent: Ref): seq<Ref> {
    if relations == [] then []
    else
      var r := relations[|relations| - 1];
      ChildrenOf(relations[..|relations| - 1], parent)
      + if r.kind == GRANTS && r.parent == parent then [r.child] else []
  }

  lemma {:induction false} ChildrenAreGrants(relations: seq<Relation>, parent: Ref, child: Ref)
    ensures child in ChildrenOf(relations, parent) <==> IsGrant(relations, parent, child)
  {
    if relations != [] {
      var n := |relations| - 1;
      ChildrenAreGrants(relations[..n], parent, child);
      assert relations == relations[..n] + [relations[n]];
    }
  }

  lemma {:induction false} WithinGrows(relations: seq<Relation>, root: Ref, m: nat, n: nat)
    requires m <= n
    ensures Within(relations, root, m) <= Within(relations, root, n)
    decreases n
  {
    if m < n {
      WithinGrows(relations, root, m, n - 1);
    }
  }

  ghost predicate AreShortest(relations: seq<Relation>, root: Ref, limit: nat, found: seq<Visit>) {
    forall v :: v in found ==> v.depth <= limit && IsShortest(relations, root, v)
  }

  ghost predicate InOrder(found: seq<Visit>) {
    forall i, j :: 0 <= i <= j < |found| ==> found[i].depth <= found[j].depth
  }

  /** What is still to expand is at most one step nearer than anything found. */
  ghost predicate OneLevelApart(found: seq<Visit>, done: nat) {
    forall i, j :: 0 <= i < |found| && done <= j < |found| ==> found[i].depth <= found[j].depth + 1
  }

  ghost predicate AreExpanded(relations: seq<Relation>, limit: nat, found: seq<Visit>, done: nat) {
    forall i, child ::
      0 <= i < done <= |found| && found[i].depth < limit && IsGrant(relations, found[i].access, child) ==>
      child in Accesses(found)
  }

  /** The search so far: accesses in order of discovery, of which the first `done` have been expanded. */
  ghost predicate Searched(relations: seq<Relation>, root: Ref, limit: nat, found: seq<Visit>, done: nat) {
    && 0 < |found| && found[0] == Visit(root, 0, [root]) && done <= |found| && Distinct(Accesses(found))
    && AreShortest(relations, root, limit, found) && InOrder(found) && OneLevelApart(found, done)
    && AreExpanded(relations, limit, found, done)
  }

  /** When every access nearer than m has been expanded, all accesses within m have been found. */
  lemma NearIsShallow(relations: seq<Relation>, root: Ref, v: Visit, n: nat)
    requires IsShortest(relations, root, v) && v.access in Within(relations, root, n)
    ensures v.depth <= n
  {
    if n < v.depth {
      WithinGrows(relations, root, n, v.depth - 1);
    }
  }

  lemma NearerChildIsFound(relations: seq<Relation>, root: Ref, limit: nat, found: seq<Visit>, done: nat, m: nat,
                           r: Relation)
    requires Searched(relations, root, limit, found, done) && 0 < m <= limit
    requires forall i :: done <= i < |found| ==> m <= found[i].depth
    requires r in relations && r.kind == GRANTS && r.parent in Within(relations, root, m - 1)
          && r.parent in Accesses(found)
    ensures r.child in Accesses(found)
  {
    var i :| 0 <= i < |found| && Accesses(found)[i] == r.parent;
    assert found[i] in found;
    NearIsShallow(relations, root, found[i], m - 1);
    assert IsGrant(relations, found[i].access, r.child);
  }

  lemma {:induction false} LevelsAreComplete(relations: seq<Relation>, root: Ref, limit: nat, found: seq<Visit>,
                                             done: nat, m: nat)
    requires Searched(relations, root, limit, found, done) && m <= limit
    requires forall i :: done <= i < |found| ==> m <= found[i].depth
    ensures forall x :: x in Within(relations, root, m) ==> x in Accesses(found)
  {
    if m == 0 {
      assert Accesses(found)[0] == root;
    } else {
      LevelsAreComplete(relations, root, limit, found, done, m - 1);
      forall r | r in relations && r.kind == GRANTS && r.parent in Within(relations, root, m - 1)
        ensures r.child in Accesses(found)
      {
        NearerChildIsFound(relations, root, limit, found, done, m, r);
      }
    }
  }

  lemma RouteExtends(relations: seq<Relation>, root: Ref, path: seq<Ref>, child: Ref)
    requires IsRoute(relations, root, path) && IsGrant(relations, path[|path| - 1], child)
    ensures IsRoute(relations, root, path + [child])
  {
  }

  lemma GrantGoesFurther(relations: seq<Relation>, root: Ref, n: nat, x: Ref, child: Ref)
    requires x in Within(relations, root, n) && IsGrant(relations, x, child)
    ensures child in Within(relations, root, n + 1)
  {
  }

  lemma NewChildIsShortest(relations: seq<Relation>, root: Ref, limit: nat, found: seq<Visit>, done: nat, child: Ref)
    requires Searched(relations, root, limit, found, done) && done < |found| && found[done].depth < limit
    requires IsGrant(relations, found[done].access, child) && child !in Accesses(found)
    ensures IsShortest(relations, root, Visit(child, found[done].depth + 1, found[done].path + [child]))
  {
    var v := found[done];
    assert v in found && IsShortest(relations, root, v);
    RouteExtends(relations, root, v.path, child);
    GrantGoesFurther(relations, root, v.depth, v.access, child);
    LevelsAreComplete(relations, root, limit, found, done, v.depth);
  }

  lemma OrderGrows(found: seq<Visit>, done: nat, v: Visit)
    requires InOrder(found) && OneLevelApart(found, done) && done < |found| && v.depth == found[done].depth + 1
    ensures InOrder(found + [v]) && OneLevelApart(found + [v], done)
  {
    assert forall i :: 0 <= i < |found| ==> (found + [v])[i] == found[i];
  }

  lemma ExpansionGrows(relations: seq<Relation>, limit: nat, found: seq<Visit>, done: nat, v: Visit)
    requires AreExpanded(relations, limit, found, done) && done <= |found|
    ensures AreExpanded(relations, limit, found + [v], done)
  {
    assert forall i :: 0 <= i < |found| ==> (found + [v])[i] == found[i];
    assert Accesses(found + [v]) == Accesses(found) + [v.access];
  }

  lemma AddChild(relations: seq<Relation>, root: Ref, limit: nat, found: seq<Visit>, done: nat, child: Ref)
    requires Searched(relations, root, limit, found, done) && done < |found| && found[done].depth < limit
    requires IsGrant(relations, found[done].access, child) && child !in Accesses(found)
    ensures Searched(relations, root, limit,
                     found + [Visit(child, found[done].depth + 1, found[done].path + [child])], done)
  {
    var v := Visit(child, found[done].depth + 1, found[done].path + [child]);
    NewChildIsShortest(relations, root, limit, found, done, child);
    OrderGrows(found, done, v);
    ExpansionGrows(relations, limit, found, done, v);
    assert Accesses(found + [v]) == Accesses(found) + [child];
  }

  // ----- The order of the visits -----

  /** The visit was queued when its parent was expanded: its route goes one step further. */
  predicate IsParent(found: seq<Visit>, p: int, j: int) {
    0 <= p < j < |found| && found[j].path == found[p].path + [found[j].access]
  }

  predicate Grants(r: Relation, parent: Ref, child: Ref) {
    r.kind == GRANTS && r.parent == parent && r.child == child
  }

  /** Some grant of the first child is listed before every grant of the second one. */
  ghost predicate IsListedFirst(relations: seq<Relation>, parent: Ref, first: Ref, second: Ref) {
    exists m :: 0 <= m < |relations| && Grants(relations[m], parent, first)
             && forall n :: 0 <= n <= m ==> !Grants(relations[n], parent, second)
  }

  /** Of the accesses that grant the later visit, the parent was visited first. */
  ghost predicate IsFirstParent(relations: seq<Relation>, found: seq<Visit>, p: int, j: int) {
    IsParent(found, p, j) && IsGrant(relations, found[p].access, found[j].access)
    && forall q :: 0 <= q < p ==> !IsGrant(relations, found[q].access, found[j].access)
  }

  ghost predicate HasFirstParent(relations: seq<Relation>, found: seq<Visit>, j: int) {
    exists p :: IsFirstParent(relations, found, p, j)
  }

  /** Visits follow their parents' order, and those of one parent the order in which its grants are listed. */
  ghost predicate FollowParents(relations: seq<Relation>, found: seq<Visit>, i: int, j: int) {
    forall p, q :: IsParent(found, p, i) && IsParent(found, q, j) ==>
      p <= q && (p == q ==> IsListedFirst(relations, found[p].access, found[i].access, found[j].access))
  }

  /** Every visit but the first one has its parent, and the visits follow the parents. */
  ghost predicate InBreadthOrder(relations: seq<Relation>, found: seq<Visit>) {
    && (forall j :: 0 < j < |found| ==> HasFirstParent(relations, found, j))
    && forall i, j :: 0 < i < j < |found| ==> FollowParents(relations, found, i, j)
  }

  ghost predicate ParentsBefore(found: seq<Visit>, bound: nat) {
    forall p, j :: IsParent(found, p, j) ==> p < bound
  }

  lemma {:induction false} ListedBefore(relations: seq<Relation>, parent: Ref, k: nat, second: Ref)
    requires k < |ChildrenOf(relations, parent)| && second !in ChildrenOf(relations, parent)[..k + 1]
    ensures IsListedFirst(relations, parent, ChildrenOf(relations, parent)[k], second)
  {
    var n := |relations| - 1;
    var rest := ChildrenOf(relations[..n], parent);
    if k < |rest| {
      assert ChildrenOf(relations, parent)[..k + 1] == rest[..k + 1];
      ListedBefore(relations[..n], parent, k, second);
      var m :| 0 <= m < n && Grants(relations[..n][m], parent, rest[k])
            && forall i :: 0 <= i <= m ==> !Grants(relations[..n][i], parent, second);
      assert relations[m] == relations[..n][m] && forall i :: 0 <= i <= m ==> relations[i] == relations[..n][i];
    } else {
      assert Grants(relations[n], parent, ChildrenOf(relations, parent)[k]);
      forall i | 0 <= i <= n ensures !Grants(relations[i], parent, second) {
        ChildrenAreGrants(relations, parent, second);
        assert IsGrant(relations, parent, second) <==> second in ChildrenOf(relations, parent)[..k + 1];
      }
    }
  }

  lemma ParentsStay(found: seq<Visit>, v: Visit, p: int, j: int)
    requires j < |found|
    ensures IsParent(found + [v], p, j) <==> IsParent(found, p, j)
  {
  }

  /** The children of the visit at `done` that were queued are among the first n listed ones. */
  ghost predicate QueuedUpTo(found: seq<Visit>, done: nat, children: seq<Ref>, n: nat)
    requires n <= |children|
  {
    forall j :: IsParent(found, done, j) ==> found[j].access in children[..n]
  }

  lemma NewParentIsDone(relations: seq<Relation>, root: Ref, limit: nat, found: seq<Visit>, done: nat, v: Visit, p: int)
    requires Searched(relations, root, limit, found, done) && done < |found|
    requires v.path == found[done].path + [v.access] && IsParent(found + [v], p, |found|)
    ensures p == done
  {
    assert found[p].path == v.path[..|v.path| - 1] == found[done].path;
    assert found[p] in found && found[done] in found;
    assert Accesses(found)[p] == found[p].access == found[done].access == Accesses(found)[done];
  }

  lemma NewIsFirstParent(relations: seq<Relation>, root: Ref, limit: nat, found: seq<Visit>, done: nat, v: Visit)
    requires Searched(relations, root, limit, found, done) && done < |found| && found[done].depth < limit
    requires v.path == found[done].path + [v.access] && IsGrant(relations, found[done].access, v.access)
    requires v.access !in Accesses(found)
    ensures IsFirstParent(relations, found + [v], done, |found|)
  {
    forall q | 0 <= q < done ensures !IsGrant(relations, found[q].access, v.access) {
      assert found[q].depth <= found[done].depth;
    }
  }

  lemma FirstParentStays(relations: seq<Relation>, found: seq<Visit>, v: Visit, p: int, j: int)
    requires j < |found| && IsFirstParent(relations, found, p, j)
    ensures IsFirstParent(relations, found + [v], p, j)
  {
    assert forall q :: 0 <= q < |found| ==> (found + [v])[q] == found[q];
  }

  lemma NewFollows(relations: seq<Relation>, root: Ref, limit: nat, found: seq<Visit>, done: nat, v: Visit,
                   children: seq<Ref>, n: nat, i: int)
    requires Searched(relations, root, limit, found, done) && done < |found| && 0 < i < |found|
    requires v.path == found[done].path + [v.access] && ParentsBefore(found, done + 1)
    requires children == ChildrenOf(relations, found[done].access) && n < |children| && v.access !in children[..n]
    requires QueuedUpTo(found, done, children, n)
    ensures FollowParents(relations, found + [v], i, |found|)
  {
    forall p, q | IsParent(found + [v], p, i) && IsParent(found + [v], q, |found|)
      ensures p <= q && (p == q ==> IsListedFirst(relations, found[p].access, found[i].access, v.access))
    {
      NewParentIsDone(relations, root, limit, found, done, v, q);
      ParentsStay(found, v, p, i);
      if p == done {
        QueuedIsListedFirst(relations, found, done, children, n, i, v.access);
      }
    }
  }

  lemma QueuedIsListedFirst(relations: seq<Relation>, found: seq<Visit>, done: nat, children: seq<Ref>, n: nat, i: int,
                            child: Ref)
    requires IsParent(found, done, i) && n < |children| && QueuedUpTo(found, done, children, n)
    requires children == ChildrenOf(relations, found[done].access) && child !in children[..n]
    ensures IsListedFirst(relations, found[done].access, found[i].access, child)
  {
    assert found[i].access in children[..n];
    var k :| 0 <= k < n && children[..n][k] == found[i].access;
    assert forall m :: 0 <= m <= k ==> children[..k + 1][m] == children[..n][m];
    ListedBefore(relations, found[done].access, k, child);
  }

  /** The order holds while the visit at `done` is expanded, of whose children the first n have been looked at. */
  ghost predicate QueuesInOrder(relations: seq<Relation>, found: seq<Visit>, done: nat, children: seq<Ref>, n: nat)
    requires n <= |children|
  {
    InBreadthOrder(relations, found) && ParentsBefore(found, done + 1) && QueuedUpTo(found, done, children, n)
  }

  lemma QueuedHaveParents(relations: seq<Relation>, root: Ref, limit: nat, found: seq<Visit>, done: nat, v: Visit)
    requires Searched(relations, root, limit, found, done) && done < |found| && found[done].depth < limit
    requires v.path == found[done].path + [v.access] && IsGrant(relations, found[done].access, v.access)
    requires v.access !in Accesses(found) && InBreadthOrder(relations, found)
    ensures forall j :: 0 < j < |found + [v]| ==> HasFirstParent(relations, found + [v], j)
  {
    NewIsFirstParent(relations, root, limit, found, done, v);
    forall j | 0 < j < |found + [v]| ensures HasFirstParent(relations, found + [v], j) {
      if j < |found| {
        assert HasFirstParent(relations, found, j);
        var p :| IsFirstParent(relations, found, p, j);
        FirstParentStays(relations, found, v, p, j);
      }
    }
  }

  lemma QueuedParents(relations: seq<Relation>, root: Ref, limit: nat, found: seq<Visit>, done: nat, v: Visit,
                      children: seq<Ref>, n: nat)
    requires Searched(relations, root, limit, found, done) && done < |found|
    requires v.path == found[done].path + [v.access] && ParentsBefore(found, done + 1)
    requires n < |children| && v.access == children[n] && QueuedUpTo(found, done, children, n)
    ensures ParentsBefore(found + [v], done + 1) && QueuedUpTo(found + [v], done, children, n + 1)
  {
    var longer := found + [v];
    forall p, j | IsParent(longer, p, j) ensures p < done + 1 && (p == done ==> longer[j].access in children[..n + 1]) {
      if j < |found| {
        ParentsStay(found, v, p, j);
        assert p == done ==> found[j].access in children[..n];
      } else {
        NewParentIsDone(relations, root, limit, found, done, v, p);
        assert children[..n + 1][n] == v.access;
      }
    }
  }

  lemma QueuedInOrder(relations: seq<Relation>, root: Ref, limit: nat, found: seq<Visit>, done: nat, v: Visit,
                      children: seq<Ref>, n: nat)
    requires Searched(relations, root, limit, found, done) && done < |found| && found[done].depth < limit
    requires v.path == found[done].path + [v.access] && v.access !in Accesses(found)
    requires children == ChildrenOf(relations, found[done].access) && n < |children| && v.access == children[n]
    requires v.access !in children[..n] && QueuesInOrder(relations, found, done, children, n)
    ensures QueuesInOrder(relations, found + [v], done, children, n + 1)
  {
    ChildrenAreGrants(relations, found[done].access, v.access);
    QueuedHaveParents(relations, root, limit, found, done, v);
    QueuedParents(relations, root, limit, found, done, v, children, n);
    QueuedFollow(relations, root, limit, found, done, v, children, n);
  }

  lemma QueuedFollow(relations: seq<Relation>, root: Ref, limit: nat, found: seq<Visit>, done: nat, v: Visit,
                     children: seq<Ref>, n: nat)
    requires Searched(relations, root, limit, found, done) && done < |found|
    requires v.path == found[done].path + [v.access] && ParentsBefore(found, done + 1)
    requires children == ChildrenOf(relations, found[done].access) && n < |children| && v.access !in children[..n]
    requires QueuedUpTo(found, done, children, n)
    requires forall i, j :: 0 < i < j < |found| ==> FollowParents(relations, found, i, j)
    ensures forall i, j :: 0 < i < j < |found + [v]| ==> FollowParents(relations, found + [v], i, j)
  {
    forall i, j | 0 < i < j < |found + [v]| ensures FollowParents(relations, found + [v], i, j) {
      if j < |found| {
        FollowingStays(relations, found, v, i, j);
      } else {
        NewFollows(relations, root, limit, found, done, v, children, n, i);
      }
    }
  }

  lemma FollowingStays(relations: seq<Relation>, found: seq<Visit>, v: Visit, i: int, j: int)
    requires 0 < i < j < |found| && FollowParents(relations, found, i, j)
    ensures FollowParents(relations, found + [v], i, j)
  {
    forall p, q | IsParent(found + [v], p, i) && IsParent(found + [v], q, j)
      ensures p <= q && (p == q ==> IsListedFirst(relations, found[p].access, found[i].access, found[j].access))
    {
      ParentsStay(found, v, p, i);
      ParentsStay(found, v, q, j);
    }
  }

  // ----- The loops -----

  function Lookup(adjacency: map<Ref, seq<Ref>>, parent: Ref): seq<Ref> {
    if parent in adjacency then adjacency[parent] else []
  }

  method BuildAdjacency(relations: seq<Relation>) returns (adjacency: map<Ref, seq<Ref>>)
    ensures forall p :: Lookup(adjacency, p) == ChildrenOf(relations, p)
  {
    adjacency := map[];
    for i := 0 to |relations|
      invariant forall p :: Lookup(adjacency, p) == ChildrenOf(relations[..i], p)
    {
      var r := relations[i];
      assert relations[..i + 1][..i] == relations[..i];
      if r.kind == GRANTS {
        adjacency := adjacency[r.parent := Lookup(adjacency, r.parent) + [r.child]];
      }
    }
    assert relations[..|relations|] == relations;
  }

  function GrantsOf(catalogue: set<Ref>, root: Ref, found: seq<Visit>): seq<Grant> {
    if found == [] then []
    else
      var v := found[|found| - 1];
      GrantsOf(catalogue, root, found[..|found| - 1])
      + if v.access in catalogue && v.access != root
        then [Grant(v.access, Filter(x => x in catalogue, v.path))] else []
  }

  /** The visit is reported: a catalogued access other than the root. */
  predicate IsReported(catalogue: set<Ref>, root: Ref, v: Visit) {
    v.access in catalogue && v.access != root
  }

  /** Positions of visits, ascending. */
  ghost predicate AreVisits(at: seq<nat>, found: seq<Visit>) {
    (forall i :: 0 <= i < |at| ==> at[i] < |found|) && forall i, j :: 0 <= i < j < |at| ==> at[i] < at[j]
  }

  /**
   * The grants are those of exactly the reported visits, in the order of the visits. Each has the route that led to its
   * access, without the accesses that are not catalogued.
   */
  ghost predicate TellVisits(grants: seq<Grant>, catalogue: set<Ref>, root: Ref, found: seq<Visit>, at: seq<nat>) {
    && AreVisits(at, found) && |at| == |grants|
    && (forall k :: 0 <= k < |found| ==> (IsReported(catalogue, root, found[k]) <==> k in at))
    && forall i :: 0 <= i < |at| ==>
         && grants[i].access == found[at[i]].access
         && grants[i].path == Filter((x: Ref) => x in catalogue, found[at[i]].path)
  }

  lemma {:induction false} GrantsTellVisits(catalogue: set<Ref>, root: Ref, found: seq<Visit>) returns (at: seq<nat>)
    ensures TellVisits(GrantsOf(catalogue, root, found), catalogue, root, found, at)
  {
    at := [];
    if found != [] {
      var n := |found| - 1;
      var rest, v := found[..n], found[n];
      var before := GrantsTellVisits(catalogue, root, rest);
      at := before + if IsReported(catalogue, root, v) then [n] else [];
      SameFilter((x: Ref) => x in catalogue, x => x in catalogue, v.path);
      OneVisitMore(GrantsOf(catalogue, root, rest), catalogue, root, rest, v, before);
      assert found == rest + [v];
    }
  }

  lemma OneVisitMore(grants: seq<Grant>, catalogue: set<Ref>, root: Ref, rest: seq<Visit>, v: Visit, at: seq<nat>)
    requires TellVisits(grants, catalogue, root, rest, at)
    ensures var more := Grant(v.access, Filter((x: Ref) => x in catalogue, v.path));
            if IsReported(catalogue, root, v)
            then TellVisits(grants + [more], catalogue, root, rest + [v], at + [|rest|])
            else TellVisits(grants, catalogue, root, rest + [v], at)
  {
    var found := rest + [v];
    assert found[|rest|] == v && forall k :: 0 <= k < |rest| ==> found[k] == rest[k];
    assert forall k :: k in at + [|rest|] <==> k in at || k == |rest|;
    assert forall k :: k in at ==> k < |rest|;
  }

  function RightsAt(models: map<Ref, ExpectedModel>, access: Ref): set<string> {
    if access in models then set r | r in models[access].rights else {}
  }

  /** The rights that the models define for any of the accesses. */
  function RightsOver(models: map<Ref, ExpectedModel>, accesses: set<Ref>): set<string> {
    set access, r | access in accesses && r in RightsAt(models, access) :: r
  }

  /** Where a reported right comes from: an access, and the position of the right in its model. */
  datatype Provenance = Provenance(access: Ref, position: nat)

  function ModelRights(models: map<Ref, ExpectedModel>, access: Ref): seq<string> {
    if access in models then models[access].rights else []
  }

  /** `setdefault` for the first n rights of an access: a right that is there already keeps its provenance. */
  function WithRights(rights: map<string, Provenance>, access: Ref, defined: seq<string>,
                      n: nat): map<string, Provenance>
    requires n <= |defined|
  {
    if n == 0 then rights
    else
      var before, right := WithRights(rights, access, defined, n - 1), defined[n - 1];
      if right in before then before else before[right := Provenance(access, n - 1)]
  }

  /** The rights of the visited accesses, in the order of the visits. */
  function RightsOf(models: map<Ref, ExpectedModel>, found: seq<Visit>): map<string, Provenance> {
    if found == [] then map[]
    else
      var access := found[|found| - 1].access;
      var defined := ModelRights(models, access);
      WithRights(RightsOf(models, found[..|found| - 1]), access, defined, |defined|)
  }

  lemma {:induction false} WithRightsIs(rights: map<string, Provenance>, access: Ref, defined: seq<string>, n: nat,
                                        right: string)
    requires n <= |defined|
    ensures var next := WithRights(rights, access, defined, n);
            && (right in next <==> right in rights || right in defined[..n])
            && (right in rights ==> next[right] == rights[right])
            && (right in next && right !in rights ==>
                  var p := next[right].position;
                  next[right].access == access && p < n && defined[p] == right && right !in defined[..p])
  {
    if n > 0 {
      WithRightsIs(rights, access, defined, n - 1, right);
      assert defined[..n] == defined[..n - 1] + [defined[n - 1]];
    }
  }

  /** The right was first met at the i-th visit, and there at this position of the model. */
  ghost predicate IsFirst(models: map<Ref, ExpectedModel>, found: seq<Visit>, right: string, i: nat,
                          source: Provenance)
  {
    && i < |found| && found[i].access == source.access
    && (var defined := ModelRights(models, source.access);
        source.position < |defined| && defined[source.position] == right && right !in defined[..source.position])
    && forall j :: 0 <= j < i ==> right !in ModelRights(models, found[j].access)
  }

  /** A right is reported exactly when a visited access has it, with the provenance of the first visit that does. */
  lemma {:induction false} RightsAreFirst(models: map<Ref, ExpectedModel>, found: seq<Visit>, right: string)
    ensures right in RightsOf(models, found) <==> right in RightsOver(models, set x | x in Accesses(found))
    ensures right in RightsOf(models, found) ==>
              exists i: nat :: IsFirst(models, found, right, i, RightsOf(models, found)[right])
  {
    if found != [] {
      var n := |found| - 1;
      var rest, access := found[..n], found[n].access;
      var defined := ModelRights(models, access);
      RightsAreFirst(models, rest, right);
      WithRightsIs(RightsOf(models, rest), access, defined, |defined|, right);
      assert found == rest + [found[n]] && defined[..|defined|] == defined;
      AccessesGrow(rest, found[n]);
      RightsGrow(models, (set x | x in Accesses(rest)), access);
      if right in RightsOf(models, rest) {
        var i: nat :| IsFirst(models, rest, right, i, RightsOf(models, rest)[right]);
        assert IsFirst(models, found, right, i, RightsOf(models, found)[right]);
      } else if right in defined {
        LaterIsFirst(models, rest, found[n], right, RightsOf(models, found)[right]);
      }
    }
  }

  lemma LaterIsFirst(models: map<Ref, ExpectedModel>, rest: seq<Visit>, v: Visit, right: string, source: Provenance)
    requires right !in RightsOver(models, set x | x in Accesses(rest))
    requires var defined := ModelRights(models, v.access);
             && source.access == v.access && source.position < |defined| && defined[source.position] == right
             && right !in defined[..source.position]
    ensures IsFirst(models, rest + [v], right, |rest|, source)
  {
    forall j | 0 <= j < |rest| ensures right !in ModelRights(models, rest[j].access) {
      assert Accesses(rest)[j] == rest[j].access;
      assert right in RightsAt(models, rest[j].access) <==> right in ModelRights(models, rest[j].access);
    }
  }

  /** The provenance that is kept is a nearest one: no access with the right is closer to the root. */
  lemma {:induction false} RightsComeFromNearest(relations: seq<Relation>, root: Ref, limit: nat,
                                                 models: map<Ref, ExpectedModel>, found: seq<Visit>, right: string,
                                                 other: Ref, n: nat)
    requires Searched(relations, root, limit, found, |found|) && right in RightsOf(models, found)
    requires n <= limit && other in Within(relations, root, n) && right in ModelRights(models, other)
    ensures RightsOf(models, found)[right].access in Within(relations, root, n)
  {
    RightsAreFirst(models, found, right);
    var i: nat :| IsFirst(models, found, right, i, RightsOf(models, found)[right]);
    SearchIsComplete(relations, root, limit, found);
    WithinGrows(relations, root, n, limit);
    var j :| 0 <= j < |found| && Accesses(found)[j] == other;
    assert i <= j;
    NearIsShallow(relations, root, found[j], n);
    WithinGrows(relations, root, found[i].depth, n);
  }

  function Depth(maxDepth: int): nat {
    if maxDepth < 0 then 0 else maxDepth
  }

  lemma SearchIsFinite(relations: seq<Relation>, root: Ref, limit: nat, found: seq<Visit>, done: nat)
    requires Searched(relations, root, limit, found, done)
    ensures |found| <= |{root} + set r | r in relations :: r.child|
  {
    var universe := {root} + set r | r in relations :: r.child;
    forall x | x in Accesses(found) ensures x in universe {
      var i :| 0 <= i < |found| && found[i].access == x;
      WithinIsFinite(relations, root, found[i].depth);
    }
    DistinctFitsIn(Accesses(found), universe);
  }

  lemma {:induction false} WithinIsFinite(relations: seq<Relation>, root: Ref, n: nat)
    ensures Within(relations, root, n) <= {root} + set r | r in relations :: r.child
  {
    if n > 0 {
      WithinIsFinite(relations, root, n - 1);
    }
  }

  /** When nothing is pending, the search has found exactly the accesses within the limit. */
  lemma SearchIsComplete(relations: seq<Relation>, root: Ref, limit: nat, found: seq<Visit>)
    requires Searched(relations, root, limit, found, |found|)
    ensures (set x | x in Accesses(found)) == Within(relations, root, limit)
  {
    LevelsAreComplete(relations, root, limit, found, |found|, limit);
    forall x | x in Accesses(found) ensures x in Within(relations, root, limit) {
      var i :| 0 <= i < |found| && found[i].access == x;
      WithinGrows(relations, root, found[i].depth, limit);
    }
  }

  /** An access is done once all its children have been found, or when it lies at the full depth. */
  lemma ExpandedIsDone(relations: seq<Relation>, root: Ref, limit: nat, found: seq<Visit>, done: nat)
    requires Searched(relations, root, limit, found, done) && done < |found|
    requires found[done].depth < limit ==>
               forall child :: IsGrant(relations, found[done].access, child) ==> child in Accesses(found)
    ensures Searched(relations, root, limit, found, done + 1)
  {
  }

  lemma QueueOne(relations: seq<Relation>, root: Ref, limit: nat, visited: seq<Visit>, current: Visit,
                 queue: seq<Visit>,
                 child: Ref)
    requires Searched(relations, root, limit, visited + [current] + queue, |visited|) && current.depth < limit
    requires IsGrant(relations, current.access, child) && child !in Accesses(visited + [current] + queue)
    ensures var longer := visited + [current] + (queue + [Visit(child, current.depth + 1, current.path + [child])]);
            && Searched(relations, root, limit, longer, |visited|)
            && Accesses(longer) == Accesses(visited + [current] + queue) + [child]
  {
    var found := visited + [current] + queue;
    var v := Visit(child, current.depth + 1, current.path + [child]);
    assert found[|visited|] == current;
    AddChild(relations, root, limit, found, |visited|, child);
    assert found + [v] == visited + [current] + (queue + [v]);
    assert Accesses(found + [v]) == Accesses(found) + [child];
  }

  lemma LooksFurther(relations: seq<Relation>, found: seq<Visit>, done: nat, children: seq<Ref>, n: nat)
    requires n < |children| && QueuesInOrder(relations, found, done, children, n)
    ensures QueuesInOrder(relations, found, done, children, n + 1)
  {
    assert children[..n + 1] == children[..n] + [children[n]];
  }

  lemma ExpansionStarts(relations: seq<Relation>, found: seq<Visit>, done: nat, children: seq<Ref>)
    requires InBreadthOrder(relations, found) && ParentsBefore(found, done)
    ensures QueuesInOrder(relations, found, done, children, 0)
  {
  }

  lemma QueueOneInOrder(relations: seq<Relation>, root: Ref, limit: nat, visited: seq<Visit>, current: Visit,
                        queue: seq<Visit>, children: seq<Ref>, n: nat)
    requires Searched(relations, root, limit, visited + [current] + queue, |visited|) && current.depth < limit
    requires children == ChildrenOf(relations, current.access) && n < |children|
    requires children[n] !in Accesses(visited + [current] + queue)
    requires forall j :: 0 <= j < n ==> children[j] in Accesses(visited + [current] + queue)
    requires QueuesInOrder(relations, visited + [current] + queue, |visited|, children, n)
    ensures var longer := visited + [current]
                        + (queue + [Visit(children[n], current.depth + 1, current.path + [children[n]])]);
            QueuesInOrder(relations, longer, |visited|, children, n + 1)
  {
    var found := visited + [current] + queue;
    var v := Visit(children[n], current.depth + 1, current.path + [children[n]]);
    assert found[|visited|] == current;
    QueuedInOrder(relations, root, limit, found, |visited|, v, children, n);
    assert found + [v] == visited + [current] + (queue + [v]);
  }

  lemma CurrentIsExpanded(relations: seq<Relation>, root: Ref, limit: nat, visited: seq<Visit>, current: Visit,
                          queue: seq<Visit>)
    requires Searched(relations, root, limit, visited + [current] + queue, |visited|)
    requires current.depth < limit ==> forall child :: child in ChildrenOf(relations, current.access) ==>
                                         child in Accesses(visited + [current] + queue)
    ensures Searched(relations, root, limit, visited + [current] + queue, |visited| + 1)
  {
    var found := visited + [current] + queue;
    assert found[|visited|] == current;
    forall child | current.depth < limit && IsGrant(relations, current.access, child) ensures child in Accesses(found) {
      ChildrenAreGrants(relations, current.access, child);
    }
    ExpandedIsDone(relations, root, limit, found, |visited|);
  }

  /** The first n children of the current access have been looked at. */
  ghost predicate IsQueueing(relations: seq<Relation>, root: Ref, limit: nat, visited: seq<Visit>, current: Visit,
                             queue: seq<Visit>, seen: set<Ref>, children: seq<Ref>, n: nat)
    requires n <= |children|
  {
    var found := visited + [current] + queue;
    && Searched(relations, root, limit, found, |visited|) && seen == (set x | x in Accesses(found))
    && (forall j :: 0 <= j < n ==> children[j] in seen)
    && QueuesInOrder(relations, found, |visited|, children, n)
  }

  lemma QueueingAdds(relations: seq<Relation>, root: Ref, limit: nat, visited: seq<Visit>, current: Visit,
                     queue: seq<Visit>, seen: set<Ref>, children: seq<Ref>, n: nat)
    requires n < |children| && IsQueueing(relations, root, limit, visited, current, queue, seen, children, n)
    requires children == ChildrenOf(relations, current.access) && current.depth < limit && children[n] !in seen
    ensures IsQueueing(relations, root, limit, visited, current,
                       queue + [Visit(children[n], current.depth + 1, current.path + [children[n]])],
                       seen + {children[n]}, children, n + 1)
  {
    ChildrenAreGrants(relations, current.access, children[n]);
    QueueOneInOrder(relations, root, limit, visited, current, queue, children, n);
    QueueOne(relations, root, limit, visited, current, queue, children[n]);
  }

  lemma QueueingSkips(relations: seq<Relation>, root: Ref, limit: nat, visited: seq<Visit>, current: Visit,
                      queue: seq<Visit>, seen: set<Ref>, children: seq<Ref>, n: nat)
    requires n < |children| && IsQueueing(relations, root, limit, visited, current, queue, seen, children, n)
    requires children[n] in seen
    ensures IsQueueing(relations, root, limit, visited, current, queue, seen, children, n + 1)
  {
    LooksFurther(relations, visited + [current] + queue, |visited|, children, n);
  }

  /** Queues the children that were not seen before, one step further than the access they belong to. */
  method QueueChildren(relations: seq<Relation>, root: Ref, limit: nat, children: seq<Ref>, ghost visited: seq<Visit>,
                       current: Visit, queue: seq<Visit>, seen: set<Ref>)
    returns (queue': seq<Visit>, seen': set<Ref>)
    requires Searched(relations, root, limit, visited + [current] + queue, |visited|) && current.depth < limit
    requires seen == set x | x in Accesses(visited + [current] + queue)
    requires children == ChildrenOf(relations, current.access)
    requires InBreadthOrder(relations, visited + [current] + queue)
    requires ParentsBefore(visited + [current] + queue, |visited|)
    ensures InBreadthOrder(relations, visited + [current] + queue')
    ensures ParentsBefore(visited + [current] + queue', |visited| + 1)
    ensures Searched(relations, root, limit, visited + [current] + queue', |visited| + 1)
    ensures seen' == set x | x in Accesses(visited + [current] + queue')
  {
    queue', seen' := queue, seen;
    ExpansionStarts(relations, visited + [current] + queue, |visited|, children);
    for i := 0 to |children|
      invariant IsQueueing(relations, root, limit, visited, current, queue', seen', children, i)
    {
      var child := children[i];
      if child !in seen' {
        QueueingAdds(relations, root, limit, visited, current, queue', seen', children, i);
        seen' := seen' + {child};
        queue' := queue' + [Visit(child, current.depth + 1, current.path + [child])];
      } else {
        QueueingSkips(relations, root, limit, visited, current, queue', seen', children, i);
      }
    }
    CurrentIsExpanded(relations, root, limit, visited, current, queue');
  }

  /** What the search reports: grants, rights with their provenance, and the rights of the root itself. */
  datatype Report = Report(grants: seq<Grant>, rights: map<string, Provenance>, directRights: map<string, Provenance>)

  function ReportOn(root: Ref, catalogue: set<Ref>, models: map<Ref, ExpectedModel>, found: seq<Visit>): Report {
    Report(GrantsOf(catalogue, root, found), RightsOf(models, found),
           if found == [] then map[] else RightsOf(models, found[..1]))
  }

  lemma RightsGrow(models: map<Ref, ExpectedModel>, accesses: set<Ref>, x: Ref)
    ensures RightsOver(models, accesses + {x}) == RightsOver(models, accesses) + RightsAt(models, x)
  {
  }

  lemma AccessesGrow(found: seq<Visit>, current: Visit)
    ensures Accesses(found + [current]) == Accesses(found) + [current.access]
    ensures (set x | x in Accesses(found + [current])) == (set x | x in Accesses(found)) + {current.access}
  {
    assert Accesses(found + [current]) == Accesses(found) + [current.access];
  }

  /** Adds the grant of the visited access and those of its rights that were not met before. */
  method ReportVisit(root: Ref, catalogue: set<Ref>, models: map<Ref, ExpectedModel>, ghost found: seq<Visit>,
                     current: Visit, report: Report)
    returns (next: Report)
    requires report == ReportOn(root, catalogue, models, found) && (found == [] <==> current.access == root)
    ensures next == ReportOn(root, catalogue, models, found + [current])
  {
    assert (found + [current])[..|found|] == found;
    next := report;
    if current.access in catalogue && current.access != root {
      next := next.(grants := next.grants + [Grant(current.access, Filter(x => x in catalogue, current.path))]);
    }
    var defined := ModelRights(models, current.access);
    for i := 0 to |defined|
      invariant next.rights == WithRights(report.rights, current.access, defined, i)
      invariant next.directRights == if current.access == root then next.rights else report.directRights
      invariant next.grants == GrantsOf(catalogue, root, found + [current])
    {
      var right := defined[i];
      if right !in next.rights {
        next := next.(rights := next.rights[right := Provenance(current.access, i)]);
      }
      if current.access == root && right !in next.directRights {
        next := next.(directRights := next.directRights[right := next.rights[right]]);
      }
    }
    assert found != [] ==> (found + [current])[..1] == found[..1];
    assert found == [] ==> (found + [current])[..1] == found + [current];
  }

  lemma Regroup(found: seq<Visit>, queue: seq<Visit>)
    requires queue != []
    ensures found + queue == found + [queue[0]] + queue[1..]
  {
  }

  /** Resolves the grants below an access: each access within the depth once, nearest first. */
  method Resolve(root: Ref, catalogue: set<Ref>, relations: seq<Relation>, models: map<Ref, ExpectedModel>,
                 maxDepth: int)
    returns (found: seq<Visit>, report: Report)
    ensures Searched(relations, root, Depth(maxDepth), found, |found|)
    ensures (set x | x in Accesses(found)) == Within(relations, root, if maxDepth < 0 then 0 else maxDepth)
    ensures InBreadthOrder(relations, found)
    ensures exists at :: TellVisits(report.grants, catalogue, root, found, at)
    ensures report == Report(GrantsOf(catalogue, root, found), RightsOf(models, found), RightsOf(models, [found[0]]))
    ensures report.rights.Keys == RightsOver(models, Within(relations, root, Depth(maxDepth)))
    ensures report.directRights.Keys == RightsAt(models, root)
  {
    var limit := Depth(maxDepth);
    var adjacency := BuildAdjacency(relations);
    var queue, seen := [Visit(root, 0, [root])], {root};
    found, report := [], Report([], map[], map[]);
    ghost var size := |{root} + set r | r in relations :: r.child|;
    assert Accesses([] + queue) == [root];
    while queue != []
      invariant Searched(relations, root, limit, found + queue, |found|)
      invariant seen == set x | x in Accesses(found + queue)
      invariant InBreadthOrder(relations, found + queue) && ParentsBefore(found + queue, |found|)
      invariant report == ReportOn(root, catalogue, models, found)
      decreases size - |found|
    {
      var current := queue[0];
      Regroup(found, queue);
      SearchIsFinite(relations, root, limit, found + queue, |found|);
      OnlyFirstIsRoot(relations, root, limit, found, queue);
      report := ReportVisit(root, catalogue, models, found, current, report);
      queue, seen := Advance(relations, root, maxDepth, adjacency, found, current, queue[1..], seen);
      found := found + [current];
    }
    assert found + [] == found;
    SearchIsComplete(relations, root, limit, found);
    RightsAreReported(relations, root, limit, models, found);
    ghost var at := GrantsTellVisits(catalogue, root, found);
  }

  lemma {:induction false} RightsAreReported(relations: seq<Relation>, root: Ref, limit: nat,
                                             models: map<Ref, ExpectedModel>, found: seq<Visit>)
    requires Searched(relations, root, limit, found, |found|)
    ensures RightsOf(models, found).Keys == RightsOver(models, Within(relations, root, limit))
    ensures RightsOf(models, found[..1]).Keys == RightsAt(models, root) && found[..1] == [found[0]]
  {
    SearchIsComplete(relations, root, limit, found);
    RightsKeys(models, found);
    RightsKeys(models, [found[0]]);
    assert found[..1] == [found[0]] && Accesses([found[0]]) == [root];
  }

  /** Expands the visited access, unless it lies at the full depth. */
  method Advance(relations: seq<Relation>, root: Ref, maxDepth: int, adjacency: map<Ref, seq<Ref>>,
                 ghost found: seq<Visit>, current: Visit, rest: seq<Visit>, seen: set<Ref>)
    returns (queue: seq<Visit>, seen': set<Ref>)
    requires Searched(relations, root, Depth(maxDepth), found + [current] + rest, |found|)
    requires seen == set x | x in Accesses(found + [current] + rest)
    requires forall p :: Lookup(adjacency, p) == ChildrenOf(relations, p)
    requires InBreadthOrder(relations, found + [current] + rest) && ParentsBefore(found + [current] + rest, |found|)
    ensures InBreadthOrder(relations, found + [current] + queue)
    ensures ParentsBefore(found + [current] + queue, |found| + 1)
    ensures Searched(relations, root, Depth(maxDepth), found + [current] + queue, |found| + 1)
    ensures seen' == set x | x in Accesses(found + [current] + queue)
  {
    queue, seen' := rest, seen;
    if current.depth < maxDepth {
      queue, seen' := QueueChildren(relations, root, Depth(maxDepth), Lookup(adjacency, current.access), found, current,
                                    rest, seen);
    } else {
      CurrentIsExpanded(relations, root, Depth(maxDepth), found, current, rest);
    }
  }

  lemma OnlyFirstIsRoot(relations: seq<Relation>, root: Ref, limit: nat, found: seq<Visit>, queue: seq<Visit>)
    requires Searched(relations, root, limit, found + queue, |found|) && queue != []
    ensures found == [] <==> queue[0].access == root
  {
    var all := found + queue;
    assert all[|found|] == queue[0];
    assert found != [] ==> Accesses(all)[0] != Accesses(all)[|found|];
  }

  lemma {:induction false} RightsKeys(models: map<Ref, ExpectedModel>, found: seq<Visit>)
    ensures RightsOf(models, found).Keys == RightsOver(models, set x | x in Accesses(found))
  {
    forall right ensures right in RightsOf(models, found)
        <==> right in RightsOver(models, set x | x in Accesses(found)) {
      RightsAreFirst(models, found, right);
    }
  }

  // ----- Agreement with the depth-first search of effective rights -----

  function AllGrants(relations: seq<Relation>): seq<Relation> {
    Theorems.GrantRelations(relations, None)
  }

  lemma {:induction false} WithinIsReachable(relations: seq<Relation>, root: Ref, n: nat, x: Ref)
    requires x in Within(relations, root, n)
    ensures Reaches(AllGrants(relations), root, x)
  {
    if n == 0 {
      ReachesItself(AllGrants(relations), root);
    } else if x in Within(relations, root, n - 1) {
      WithinIsReachable(relations, root, n - 1, x);
    } else {
      var r :| r in relations && r.kind == GRANTS && r.parent in Within(relations, root, n - 1) && r.child == x;
      WithinIsReachable(relations, root, n - 1, r.parent);
      Theorems.GrantRelationMember(relations, None, r);
      ReachesFurther(AllGrants(relations), root, r);
    }
  }

  /** Distance within n means a walk of at most n grants. */
  lemma {:induction false} WalkIsWithin(relations: seq<Relation>, root: Ref, w: Walk)
    requires IsWalk(AllGrants(relations), root, w)
    ensures End(root, w) in Within(relations, root, |w|)
  {
    if w != [] {
      var k := |w| - 1;
      WalkPrefix(AllGrants(relations), root, w, k);
      WalkIsWithin(relations, root, w[..k]);
      Theorems.GrantRelationMember(relations, None, w[k]);
    }
  }

  /** Every reachable access is catalogued and lies within the depth. */
  ghost predicate DepthSuffices(relations: seq<Relation>, root: Ref, catalogue: set<Ref>, depth: nat) {
    forall x :: Reaches(AllGrants(relations), root, x) ==> x in catalogue && x in Within(relations, root, depth)
  }

  lemma StepIsCatalogued(relations: seq<Relation>, root: Ref, catalogue: set<Ref>, r: Relation)
    requires r in relations && r.kind == GRANTS && r.parent in catalogue && r.child in catalogue
    requires Reaches(Theorems.GrantRelations(relations, Some(catalogue)), root, r.parent)
    ensures Reaches(Theorems.GrantRelations(relations, Some(catalogue)), root, r.child)
  {
    Theorems.GrantRelationMember(relations, Some(catalogue), r);
    ReachesFurther(Theorems.GrantRelations(relations, Some(catalogue)), root, r);
  }

  lemma {:induction false} WithinIsCatalogued(relations: seq<Relation>, root: Ref, catalogue: set<Ref>, depth: nat,
                                              n: nat, x: Ref)
    requires DepthSuffices(relations, root, catalogue, depth) && x in Within(relations, root, n)
    ensures Reaches(Theorems.GrantRelations(relations, Some(catalogue)), root, x)
  {
    if n == 0 {
      ReachesItself(Theorems.GrantRelations(relations, Some(catalogue)), root);
    } else if x in Within(relations, root, n - 1) {
      WithinIsCatalogued(relations, root, catalogue, depth, n - 1, x);
    } else {
      var r :| r in relations && r.kind == GRANTS && r.parent in Within(relations, root, n - 1) && r.child == x;
      WithinIsCatalogued(relations, root, catalogue, depth, n - 1, r.parent);
      WithinIsReachable(relations, root, n - 1, r.parent);
      WithinIsReachable(relations, root, n, x);
      StepIsCatalogued(relations, root, catalogue, r);
    }
  }

  /** The assignment that the Golden read model evaluates to find what an access leads to. */
  function ModelAssignment(root: Ref): Assignment {
    var model := "__golden_model__";
    Assignment(root, Ref(model, model), Origin("", None, false, None, false), model)
  }

  /** What the depth-first evaluation of the access alone reaches, the access included. */
  ghost function DepthFirst(root: Ref, catalogue: set<Ref>, relations: seq<Relation>): set<Ref> {
    var a := ModelAssignment(root);
    {root} + set h | h in EffectiveAccess.Evaluate([a], relations, Some(catalogue), 100).results :: h.access
  }

  /**
   * When all reachable accesses are catalogued and lie within the depth, the bounded breadth-first search and
   * the depth-first search reach the same accesses, hence the same effective rights.
   */
  lemma BothSearchesAgree(root: Ref, catalogue: set<Ref>, relations: seq<Relation>, models: map<Ref, ExpectedModel>,
                          depth: nat)
    requires DepthSuffices(relations, root, catalogue, depth)
    ensures DepthFirst(root, catalogue, relations) == Within(relations, root, depth)
    ensures RightsOver(models, DepthFirst(root, catalogue, relations))
         == RightsOver(models, Within(relations, root, depth))
  {
    var a := ModelAssignment(root);
    var admitted := Theorems.GrantRelations(relations, Some(catalogue));
    var results := EffectiveAccess.Evaluate([a], relations, Some(catalogue), 100).results;
    ReachesItself(AllGrants(relations), root);
    assert Theorems.Roots([a], Some(catalogue)) == {a};
    forall x ensures x in DepthFirst(root, catalogue, relations) <==> x in Within(relations, root, depth) {
      var h := EffectiveAccess.Holding(a.identity, x);
      Theorems.EffectiveMeansReachable([a], relations, Some(catalogue), 100, h);
      if x in Within(relations, root, depth) {
        WithinIsCatalogued(relations, root, catalogue, depth, depth, x);
      }
      if w :| IsWalk(admitted, root, w) && End(root, w) == x {
        AdmittedAreGrants(relations, catalogue);
        WalkTransfers(admitted, AllGrants(relations), root, w);
      }
      if k :| k in results && k.access == x {
        Theorems.EffectiveMeansReachable([a], relations, Some(catalogue), 100, k);
      }
    }
  }

  lemma AdmittedAreGrants(relations: seq<Relation>, catalogue: set<Ref>)
    ensures forall r :: r in Theorems.GrantRelations(relations, Some(catalogue)) ==>
              exists q :: q in AllGrants(relations) && q.parent == r.parent && q.child == r.child
  {
    forall r | r in Theorems.GrantRelations(relations, Some(catalogue)) ensures r in AllGrants(relations) {
      Theorems.GrantRelationMember(relations, Some(catalogue), r);
      Theorems.GrantRelationMember(relations, None, r);
    }
  }
}
