/**
 * Effective accesses: a depth-first search over grant relations that keeps every provenance path, up to
 * a limit per access. The functions below give the search state after each step; the theorems are in
 * EffectiveAccessTheorems and the loops that compute it are in EffectiveAccessEngine.
 */
module EffectiveAccess {
  import opened Domain
  import opened Ordering
  import opened GrantGraph

  /** The accesses that may appear in a result; None means that every access is admitted. */
  type Catalogue = Option<set<Ref>>

  datatype Path = Path(identity: Ref, chain: seq<Ref>, assignmentId: string, relationIds: seq<string>)

  datatype Holding = Holding(identity: Ref, access: Ref)

  datatype Effective = Effective(direct: bool, paths: seq<Path>)

  type Results = map<Holding, Effective>

  datatype Diagnostic =
    | UnsupportedRelation(relation: Relation)
    | UnresolvedRelation(relation: Relation, missingParent: bool, missingChild: bool)
    | UnresolvedAssignment(assignmentId: string, access: Ref, identity: Ref)
    | CycleDetected(identity: Ref, relationId: string, chain: seq<Ref>)
    | PathLimitReached(identity: Ref, access: Ref)

  datatype Evaluation = Evaluation(results: Results, diagnostics: seq<Diagnostic>)

  /** The state of one search: walks still to expand (the last one is next), and what was found so far. */
  datatype Search = Search(pending: seq<Walk>, results: Results, diagnostics: seq<Diagnostic>)

  predicate Known(catalogue: Catalogue, access: Ref) {
    catalogue.None? || access in catalogue.value
  }

  function RelationKey(r: Relation): seq<string> {
    [r.parent.provider, r.parent.name, r.child.provider, r.child.name, r.kind, r.origin.fingerprint]
  }

  function AssignmentKey(a: Assignment): seq<string> {
    [a.identity.provider, a.identity.name, a.access.provider, a.access.name, a.origin.fingerprint, a.id]
  }

  predicate Admissible(catalogue: Catalogue, r: Relation) {
    r.kind == GRANTS && Known(catalogue, r.parent) && Known(catalogue, r.child)
  }

  /** The grant relations already met: a relation whose key is among them is a duplicate. */
  function SeenKeys(relations: seq<Relation>): set<seq<string>> {
    set r | r in relations && r.kind == GRANTS :: RelationKey(r)
  }

  /** The relations that make up the graph: grants between known accesses, the first one of each key. */
  function Admit(sorted: seq<Relation>, catalogue: Catalogue): seq<Relation> {
    if sorted == [] then []
    else
      var rest, r := sorted[..|sorted| - 1], sorted[|sorted| - 1];
      Admit(rest, catalogue)
      + if Admissible(catalogue, r) && RelationKey(r) !in SeenKeys(rest) then [r] else []
  }

  function RelationDiagnostics(sorted: seq<Relation>, catalogue: Catalogue): seq<Diagnostic> {
    if sorted == [] then []
    else
      var rest, r := sorted[..|sorted| - 1], sorted[|sorted| - 1];
      RelationDiagnostics(rest, catalogue)
      + if r.kind != GRANTS then [UnsupportedRelation(r)]
        else if RelationKey(r) in SeenKeys(rest) || Admissible(catalogue, r) then []
        else [UnresolvedRelation(r, !Known(catalogue, r.parent), !Known(catalogue, r.child))]
  }

  function Outgoing(graph: seq<Relation>, parent: Ref): seq<Relation> {
    if graph == [] then []
    else
      var rest, r := graph[..|graph| - 1], graph[|graph| - 1];
      Outgoing(rest, parent) + if r.parent == parent then [r] else []
  }

  function RelationIds(w: Walk): seq<string> {
    seq(|w|, i requires 0 <= i < |w| => w[i].id)
  }

  function PathOf(a: Assignment, w: Walk): Path {
    Path(a.identity, Chain(a.access, w), a.id, RelationIds(w))
  }

  /** Adds a path to a holding unless it is already there; `direct` is never taken back. */
  function Record(results: Results, h: Holding, direct: bool, path: Path): Results {
    var known := if h in results then results[h] else Effective(false, []);
    results[h := Effective(known.direct || direct,
                           if path in known.paths then known.paths else known.paths + [path])]
  }

  function VisitChild(a: Assignment, limit: nat, w: Walk, r: Relation, s: Search): Search {
    var h := Holding(a.identity, r.child);
    if r.child in Chain(a.access, w) then
      s.(diagnostics := s.diagnostics + [CycleDetected(a.identity, r.id, Chain(a.access, w) + [r.child])])
    else if h in s.results && |s.results[h].paths| >= limit then
      s.(diagnostics := s.diagnostics + [PathLimitReached(a.identity, r.child)])
    else
      Search(s.pending + [w + [r]], Record(s.results, h, false, PathOf(a, w + [r])), s.diagnostics)
  }

  /** Children are visited from the last to the first, so that the first is expanded next. */
  function VisitChildren(a: Assignment, limit: nat, w: Walk, children: seq<Relation>, s: Search): Search {
    if children == [] then s
    else
      var k := |children| - 1;
      VisitChildren(a, limit, w, children[..k], VisitChild(a, limit, w, children[k], s))
  }

  function Expand(graph: seq<Relation>, a: Assignment, limit: nat, s: Search): Search
    requires s.pending != []
  {
    var k := |s.pending| - 1;
    var w := s.pending[k];
    VisitChildren(a, limit, w, Outgoing(graph, End(a.access, w)), s.(pending := s.pending[..k]))
  }

  ghost predicate Searchable(graph: seq<Relation>, a: Assignment, s: Search) {
    forall w :: w in s.pending ==> IsSimpleWalk(graph, a.access, w)
  }

  function Power(base: nat, exponent: nat): nat {
    if exponent == 0 then 1 else base * Power(base, exponent - 1)
  }

  /** A bound on the work that a pending walk of the given length can cause. */
  function Work(size: nat, length: nat): nat {
    if length <= size then Power(size + 1, size - length) else 0
  }

  function Weight(size: nat, pending: seq<Walk>): nat {
    if pending == [] then 0
    else Weight(size, pending[..|pending| - 1]) + Work(size, |pending[|pending| - 1]|)
  }

  /** Expands pending walks until none is left. */
  ghost function Drain(graph: seq<Relation>, a: Assignment, limit: nat, s: Search): Search
    requires Searchable(graph, a, s)
    decreases Weight(|graph|, s.pending)
  {
    if s.pending == [] then s
    else
      ExpandShrinks(graph, a, limit, s);
      Drain(graph, a, limit, Expand(graph, a, limit, s))
  }

  /** The search for one direct assignment starts from its own access. */
  function StartSearch(a: Assignment, e: Evaluation): Search {
    Search([[]], Record(e.results, Holding(a.identity, a.access), true, PathOf(a, [])), e.diagnostics)
  }

  ghost function Explore(graph: seq<Relation>, a: Assignment, catalogue: Catalogue, limit: nat,
                         e: Evaluation): Evaluation
  {
    if !Known(catalogue, a.access) then
      e.(diagnostics := e.diagnostics + [UnresolvedAssignment(a.id, a.access, a.identity)])
    else
      EmptyWalkIsSimple(graph, a.access);
      var s := Drain(graph, a, limit, StartSearch(a, e));
      Evaluation(s.results, s.diagnostics)
  }

  ghost function ExploreAll(graph: seq<Relation>, assignments: seq<Assignment>, catalogue: Catalogue, limit: nat,
                            e: Evaluation): Evaluation
  {
    if assignments == [] then e
    else
      var k := |assignments| - 1;
      Explore(graph, assignments[k], catalogue, limit, ExploreAll(graph, assignments[..k], catalogue, limit, e))
  }

  function GraphOf(relations: seq<Relation>, catalogue: Catalogue): seq<Relation> {
    Admit(SortBy(RelationKey, relations), catalogue)
  }

  ghost function Evaluate(assignments: seq<Assignment>, relations: seq<Relation>, catalogue: Catalogue,
                          limit: nat): Evaluation
  {
    ExploreAll(GraphOf(relations, catalogue), SortBy(AssignmentKey, assignments), catalogue, limit,
               Evaluation(map[], RelationDiagnostics(SortBy(RelationKey, relations), catalogue)))
  }

  lemma SameKeySameEnds(p: Relation, r: Relation)
    requires RelationKey(p) == RelationKey(r)
    ensures p.parent == r.parent && p.child == r.child && p.kind == r.kind
  {
    var a, b := RelationKey(p), RelationKey(r);
    assert a[0] == b[0] && a[1] == b[1] && a[2] == b[2] && a[3] == b[3] && a[4] == b[4];
  }

  lemma OutgoingAppend(graph: seq<Relation>, r: Relation, parent: Ref)
    ensures Outgoing(graph + [r], parent) == Outgoing(graph, parent) + if r.parent == parent then [r] else []
  {
    assert (graph + [r])[..|graph|] == graph;
  }

  lemma AdmitAppend(rest: seq<Relation>, r: Relation, catalogue: Catalogue)
    ensures Admit(rest + [r], catalogue)
         == Admit(rest, catalogue) + if Admissible(catalogue, r) && RelationKey(r) !in SeenKeys(rest) then [r] else []
  {
    assert (rest + [r])[..|rest|] == rest;
  }

  // ----- Termination: each expansion takes more work off the stack than it puts on -----

  lemma EmptyWalkIsSimple(graph: seq<Relation>, root: Ref)
    ensures IsSimpleWalk(graph, root, [])
  {
  }

  lemma {:induction false} OutgoingAreThose(graph: seq<Relation>, parent: Ref)
    ensures forall r :: r in Outgoing(graph, parent) <==> r in graph && r.parent == parent
    ensures |Outgoing(graph, parent)| <= |graph|
  {
    if graph != [] {
      OutgoingAreThose(graph[..|graph| - 1], parent);
      assert graph == graph[..|graph| - 1] + [graph[|graph| - 1]];
    }
  }

  lemma PowerIsPositive(base: nat, exponent: nat)
    requires base > 0
    ensures Power(base, exponent) > 0
  {
    if exponent > 0 {
      PowerIsPositive(base, exponent - 1);
    }
  }

  /** The work of n walks of the same length. */
  function Units(n: nat, unit: nat): nat {
    if n == 0 then 0 else Units(n - 1, unit) + unit
  }

  lemma {:induction false} FewerUnits(few: nat, many: nat, unit: nat)
    requires few <= many
    ensures Units(few, unit) <= Units(many, unit)
    decreases many
  {
    if few < many {
      FewerUnits(few, many - 1, unit);
    }
  }

  lemma {:induction false} UnitsAreProduct(n: nat, unit: nat)
    ensures Units(n, unit) == n * unit
  {
    if n > 0 {
      UnitsAreProduct(n - 1, unit);
      assert n * unit == (n - 1) * unit + unit;
    }
  }

  lemma PowerUnfolds(size: nat, exponent: nat)
    requires exponent > 0
    ensures Power(size + 1, exponent) == Units(size, Power(size + 1, exponent - 1)) + Power(size + 1, exponent - 1)
  {
    UnitsAreProduct(size + 1, Power(size + 1, exponent - 1));
  }

  lemma WorkShrinks(size: nat, length: nat, children: nat)
    requires length <= size && children <= size
    ensures Units(children, Work(size, length + 1)) < Work(size, length)
  {
    FewerUnits(children, size, Work(size, length + 1));
    PowerIsPositive(size + 1, size - length);
    if length < size {
      PowerUnfolds(size, size - length);
      PowerIsPositive(size + 1, size - length - 1);
    } else {
      UnitsAreProduct(size, 0);
    }
  }

  lemma ChildWeight(size: nat, a: Assignment, limit: nat, w: Walk, r: Relation, s: Search)
    ensures Weight(size, VisitChild(a, limit, w, r, s).pending) <= Weight(size, s.pending) + Work(size, |w| + 1)
  {
    assert (s.pending + [w + [r]])[..|s.pending|] == s.pending;
  }

  lemma {:induction false} ChildrenWeight(size: nat, a: Assignment, limit: nat, w: Walk, children: seq<Relation>,
                                          s: Search, unit: nat)
    requires unit == Work(size, |w| + 1)
    ensures Weight(size, VisitChildren(a, limit, w, children, s).pending)
         <= Weight(size, s.pending) + Units(|children|, unit)
  {
    if children != [] {
      var k := |children| - 1;
      ChildWeight(size, a, limit, w, children[k], s);
      var next := VisitChild(a, limit, w, children[k], s);
      ChildrenWeight(size, a, limit, w, children[..k], next, unit);
    }
  }

  lemma {:induction false} ChildrenStaySimple(graph: seq<Relation>, a: Assignment, limit: nat, w: Walk,
                                              children: seq<Relation>, s: Search)
    requires Searchable(graph, a, s) && IsSimpleWalk(graph, a.access, w)
    requires forall r :: r in children ==> r in graph && r.parent == End(a.access, w)
    ensures Searchable(graph, a, VisitChildren(a, limit, w, children, s))
  {
    if children != [] {
      var k := |children| - 1;
      if children[k].child !in Chain(a.access, w) {
        SimpleWalkExtends(graph, a.access, w, children[k]);
      }
      ChildrenStaySimple(graph, a, limit, w, children[..k], VisitChild(a, limit, w, children[k], s));
    }
  }

  lemma ExpandedStaysSearchable(graph: seq<Relation>, a: Assignment, limit: nat, s: Search)
    requires Searchable(graph, a, s) && s.pending != []
    ensures Searchable(graph, a, Expand(graph, a, limit, s))
  {
    var k := |s.pending| - 1;
    var w := s.pending[k];
    OutgoingAreThose(graph, End(a.access, w));
    assert w in s.pending;
    ChildrenStaySimple(graph, a, limit, w, Outgoing(graph, End(a.access, w)), s.(pending := s.pending[..k]));
  }

  lemma ExpandedWeighsLess(graph: seq<Relation>, a: Assignment, limit: nat, s: Search)
    requires s.pending != [] && |s.pending[|s.pending| - 1]| <= |graph|
    ensures Weight(|graph|, Expand(graph, a, limit, s).pending) < Weight(|graph|, s.pending)
  {
    var k := |s.pending| - 1;
    var w := s.pending[k];
    var children := Outgoing(graph, End(a.access, w));
    OutgoingAreThose(graph, End(a.access, w));
    ChildrenWeight(|graph|, a, limit, w, children, s.(pending := s.pending[..k]), Work(|graph|, |w| + 1));
    WorkShrinks(|graph|, |w|, |children|);
  }

  /** The measure of the search strictly decreases at every pop, on cyclic graphs too. */
  lemma ExpandShrinks(graph: seq<Relation>, a: Assignment, limit: nat, s: Search)
    requires Searchable(graph, a, s) && s.pending != []
    ensures Searchable(graph, a, Expand(graph, a, limit, s))
    ensures Weight(|graph|, Expand(graph, a, limit, s).pending) < Weight(|graph|, s.pending)
  {
    ExpandedStaysSearchable(graph, a, limit, s);
    SimpleWalkIsShort(graph, a.access, s.pending[|s.pending| - 1]);
    ExpandedWeighsLess(graph, a, limit, s);
  }
}
