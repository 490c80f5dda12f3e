/**
 * What the depth-first search keeps from one expansion to the next: everything found is explained by walks from
 * admitted roots, nothing reachable is lost to the path limit, and every simple walk is recorded, cut or pending.
 */
module EffectiveAccessSearch {
  import opened Domain
  import opened GrantGraph
  import opened EffectiveAccess

  // ----- Soundness -----

  /** The path was recorded for a simple walk from one of the roots to the access it is filed under. */
  ghost predicate Explained(graph: seq<Relation>, roots: set<Assignment>, h: Holding, p: Path) {
    exists a, w :: a in roots && a.identity == h.identity && IsSimpleWalk(graph, a.access, w)
                && End(a.access, w) == h.access && p == PathOf(a, w)
  }

  ghost predicate IsDirect(roots: set<Assignment>, h: Holding) {
    exists a :: a in roots && a.identity == h.identity && a.access == h.access
  }

  function DerivedPaths(paths: seq<Path>): nat {
    if paths == [] then 0
    else DerivedPaths(paths[..|paths| - 1]) + if paths[|paths| - 1].relationIds != [] then 1 else 0
  }

  ghost predicate HoldingIsSound(graph: seq<Relation>, roots: set<Assignment>, limit: nat, h: Holding, e: Effective) {
    && e.paths != [] && Distinct(e.paths) && DerivedPaths(e.paths) <= limit
    && (e.direct ==> IsDirect(roots, h))
    && forall p :: p in e.paths ==> Explained(graph, roots, h, p)
  }

  ghost predicate DiagnosticIsSound(graph: seq<Relation>, roots: set<Assignment>, limit: nat, results: Results,
                                    d: Diagnostic)
  {
    match d
    case CycleDetected(identity, relationId, chain) =>
      exists a, w, r :: a in roots && a.identity == identity && IsSimpleWalk(graph, a.access, w)
                     && ClosesWalk(graph, a.access, w, r) && r.id == relationId
                     && chain == Chain(a.access, w) + [r.child]
    case PathLimitReached(identity, access) =>
      Holding(identity, access) in results && |results[Holding(identity, access)].paths| >= limit
    case _ => true
  }

  ghost predicate Sound(graph: seq<Relation>, roots: set<Assignment>, limit: nat, results: Results,
                        diagnostics: seq<Diagnostic>)
  {
    && (forall h :: h in results ==> HoldingIsSound(graph, roots, limit, h, results[h]))
    && (forall d :: d in diagnostics ==> DiagnosticIsSound(graph, roots, limit, results, d))
  }

  lemma DerivedFits(paths: seq<Path>)
    ensures DerivedPaths(paths) <= |paths|
  {
  }

  lemma OnePathMore(known: seq<Path>, path: Path, limit: nat)
    requires Distinct(known) && path !in known && DerivedPaths(known) <= limit
    requires path.relationIds == [] || |known| < limit
    ensures Distinct(known + [path]) && DerivedPaths(known + [path]) <= limit
  {
    DerivedFits(known);
    assert (known + [path])[..|known|] == known;
  }

  lemma WalkIsExplained(graph: seq<Relation>, roots: set<Assignment>, a: Assignment, w: Walk)
    requires a in roots && IsSimpleWalk(graph, a.access, w)
    ensures Explained(graph, roots, Holding(a.identity, End(a.access, w)), PathOf(a, w))
    ensures w == [] ==> IsDirect(roots, Holding(a.identity, End(a.access, w)))
  {
  }

  lemma HoldingGrows(graph: seq<Relation>, roots: set<Assignment>, limit: nat, h: Holding, known: Effective,
                     direct: bool,
                     path: Path)
    requires limit >= 1 && (known == Effective(false, []) || HoldingIsSound(graph, roots, limit, h, known))
    requires Explained(graph, roots, h, path) && (direct ==> IsDirect(roots, h))
    requires path.relationIds == [] || |known.paths| < limit
    ensures HoldingIsSound(graph, roots, limit, h,
                           Effective(known.direct || direct,
                                     if path in known.paths then known.paths else known.paths + [path]))
  {
    if path !in known.paths {
      OnePathMore(known.paths, path, limit);
    }
  }

  lemma DiagnosticStaysSound(graph: seq<Relation>, roots: set<Assignment>, limit: nat, results: Results, h: Holding,
                             direct: bool, path: Path, d: Diagnostic)
    requires DiagnosticIsSound(graph, roots, limit, results, d)
    ensures DiagnosticIsSound(graph, roots, limit, Record(results, h, direct, path), d)
  {
    if d.CycleDetected? {
      var a, w, r :| a in roots && a.identity == d.identity && IsSimpleWalk(graph, a.access, w)
                  && ClosesWalk(graph, a.access, w, r) && r.id == d.relationId
                  && d.chain == Chain(a.access, w) + [r.child];
    }
  }

  lemma RecordIsSound(graph: seq<Relation>, roots: set<Assignment>, limit: nat, results: Results,
                      diagnostics: seq<Diagnostic>, a: Assignment, w: Walk)
    requires limit >= 1 && a in roots && IsSimpleWalk(graph, a.access, w)
    requires Sound(graph, roots, limit, results, diagnostics)
    requires var h := Holding(a.identity, End(a.access, w));
             w == [] || h !in results || |results[h].paths| < limit
    ensures var h := Holding(a.identity, End(a.access, w));
            Sound(graph, roots, limit, Record(results, h, w == [], PathOf(a, w)), diagnostics)
  {
    var h, path := Holding(a.identity, End(a.access, w)), PathOf(a, w);
    var known := if h in results then results[h] else Effective(false, []);
    var next := Record(results, h, w == [], path);
    WalkIsExplained(graph, roots, a, w);
    assert known == Effective(false, []) || HoldingIsSound(graph, roots, limit, h, known);
    HoldingGrows(graph, roots, limit, h, known, w == [], path);
    forall k | k in next ensures HoldingIsSound(graph, roots, limit, k, next[k]) {
      assert k != h ==> k in results && next[k] == results[k];
    }
    forall d | d in diagnostics ensures DiagnosticIsSound(graph, roots, limit, next, d) {
      DiagnosticStaysSound(graph, roots, limit, results, h, w == [], path, d);
    }
  }

  lemma OneDiagnosticMore(graph: seq<Relation>, roots: set<Assignment>, limit: nat, results: Results,
                          diagnostics: seq<Diagnostic>, d: Diagnostic)
    requires Sound(graph, roots, limit, results, diagnostics) && DiagnosticIsSound(graph, roots, limit, results, d)
    ensures Sound(graph, roots, limit, results, diagnostics + [d])
  {
  }

  lemma CycleIsSound(graph: seq<Relation>, roots: set<Assignment>, limit: nat, results: Results, a: Assignment, w: Walk,
                     r: Relation)
    requires a in roots && IsSimpleWalk(graph, a.access, w) && ClosesWalk(graph, a.access, w, r)
    ensures DiagnosticIsSound(graph, roots, limit, results,
                              CycleDetected(a.identity, r.id, Chain(a.access, w) + [r.child]))
  {
  }

  lemma VisitIsSound(graph: seq<Relation>, roots: set<Assignment>, a: Assignment, limit: nat, w: Walk, r: Relation,
                     s: Search)
    requires limit >= 1 && a in roots && IsSimpleWalk(graph, a.access, w)
    requires r in graph && r.parent == End(a.access, w)
    requires Sound(graph, roots, limit, s.results, s.diagnostics)
    ensures var t := VisitChild(a, limit, w, r, s);
            Sound(graph, roots, limit, t.results, t.diagnostics)
  {
    var h := Holding(a.identity, r.child);
    if r.child in Chain(a.access, w) {
      CycleIsSound(graph, roots, limit, s.results, a, w, r);
      OneDiagnosticMore(graph, roots, limit, s.results, s.diagnostics,
                        CycleDetected(a.identity, r.id, Chain(a.access, w) + [r.child]));
    } else if h in s.results && |s.results[h].paths| >= limit {
      OneDiagnosticMore(graph, roots, limit, s.results, s.diagnostics, PathLimitReached(a.identity, r.child));
    } else {
      SimpleWalkExtends(graph, a.access, w, r);
      RecordIsSound(graph, roots, limit, s.results, s.diagnostics, a, w + [r]);
    }
  }

  lemma {:induction false} ChildrenAreSound(graph: seq<Relation>, roots: set<Assignment>, a: Assignment, limit: nat,
                                            w: Walk, children: seq<Relation>, s: Search)
    requires limit >= 1 && a in roots && IsSimpleWalk(graph, a.access, w)
    requires forall r :: r in children ==> r in graph && r.parent == End(a.access, w)
    requires Sound(graph, roots, limit, s.results, s.diagnostics)
    ensures var t := VisitChildren(a, limit, w, children, s);
            Sound(graph, roots, limit, t.results, t.diagnostics)
  {
    if children != [] {
      var k := |children| - 1;
      VisitIsSound(graph, roots, a, limit, w, children[k], s);
      ChildrenAreSound(graph, roots, a, limit, w, children[..k], VisitChild(a, limit, w, children[k], s));
    }
  }

  lemma {:induction false} DrainIsSound(graph: seq<Relation>, roots: set<Assignment>, a: Assignment, limit: nat,
                                        s: Search)
    requires limit >= 1 && a in roots && Searchable(graph, a, s)
    requires Sound(graph, roots, limit, s.results, s.diagnostics)
    ensures var t := Drain(graph, a, limit, s);
            Sound(graph, roots, limit, t.results, t.diagnostics)
    decreases Weight(|graph|, s.pending)
  {
    if s.pending != [] {
      var k := |s.pending| - 1;
      var w := s.pending[k];
      OutgoingAreThose(graph, End(a.access, w));
      ChildrenAreSound(graph, roots, a, limit, w, Outgoing(graph, End(a.access, w)), s.(pending := s.pending[..k]));
      ExpandShrinks(graph, a, limit, s);
      DrainIsSound(graph, roots, a, limit, Expand(graph, a, limit, s));
    }
  }

  // ----- What one expansion does -----

  /** Nothing that was found is lost. */
  ghost predicate Extends(older: Evaluation, newer: Evaluation) {
    && older.diagnostics <= newer.diagnostics
    && forall h :: h in older.results ==>
         h in newer.results && older.results[h].paths <= newer.results[h].paths
         && (older.results[h].direct ==> newer.results[h].direct)
  }

  function Found(s: Search): Evaluation {
    Evaluation(s.results, s.diagnostics)
  }

  predicate Recorded(results: Results, a: Assignment, w: Walk) {
    var h := Holding(a.identity, End(a.access, w));
    h in results && PathOf(a, w) in results[h].paths
  }

  predicate Limited(diagnostics: seq<Diagnostic>) {
    exists d :: d in diagnostics && d.PathLimitReached?
  }

  function CycleAt(a: Assignment, w: Walk, r: Relation): Diagnostic {
    CycleDetected(a.identity, r.id, Chain(a.access, w) + [r.child])
  }

  /** The child was reported as a cycle, or its access is held and its walk is pending unless the limit was hit. */
  ghost predicate Handled(a: Assignment, w: Walk, r: Relation, t: Search) {
    if r.child in Chain(a.access, w) then CycleAt(a, w, r) in t.diagnostics
    else
      && Holding(a.identity, r.child) in t.results
      && (Limited(t.diagnostics) || (w + [r] in t.pending && Recorded(t.results, a, w + [r])))
  }

  ghost predicate IsPending(a: Assignment, pending: seq<Walk>, h: Holding) {
    h.identity == a.identity && exists w :: w in pending && End(a.access, w) == h.access
  }

  /** Every access that is new in t is the end of a walk that is pending in t. */
  ghost predicate NewOnesPending(a: Assignment, s: Search, t: Search) {
    forall h :: h in t.results && h !in s.results ==> IsPending(a, t.pending, h)
  }

  lemma VisitEffect(a: Assignment, limit: nat, w: Walk, r: Relation, s: Search)
    ensures var t := VisitChild(a, limit, w, r, s);
            s.pending <= t.pending && Extends(Found(s), Found(t)) && Handled(a, w, r, t) && NewOnesPending(a, s, t)
  {
    var t := VisitChild(a, limit, w, r, s);
    ChainExtends(a.access, w, r);
    if r.child in Chain(a.access, w) {
      assert t.diagnostics[|s.diagnostics|] == CycleAt(a, w, r);
    } else if Holding(a.identity, r.child) in s.results && |s.results[Holding(a.identity, r.child)].paths| >= limit {
      assert t.diagnostics[|s.diagnostics|] == PathLimitReached(a.identity, r.child);
    } else {
      assert t.pending[|s.pending|] == w + [r];
      var paths := t.results[Holding(a.identity, r.child)].paths;
      assert PathOf(a, w + [r]) in paths;
    }
  }

  lemma {:induction false} ChildrenEffect(a: Assignment, limit: nat, w: Walk, children: seq<Relation>, s: Search)
    ensures var t := VisitChildren(a, limit, w, children, s);
            && s.pending <= t.pending && Extends(Found(s), Found(t)) && NewOnesPending(a, s, t)
            && forall r :: r in children ==> Handled(a, w, r, t)
  {
    if children != [] {
      var k := |children| - 1;
      var next := VisitChild(a, limit, w, children[k], s);
      var t := VisitChildren(a, limit, w, children, s);
      VisitEffect(a, limit, w, children[k], s);
      ChildrenEffect(a, limit, w, children[..k], next);
      assert Handled(a, w, children[k], next);
      forall r | r in children ensures Handled(a, w, r, t) {
        assert r in children[..k] || r == children[k];
      }
    }
  }

  lemma {:induction false} DrainExtends(graph: seq<Relation>, a: Assignment, limit: nat, s: Search)
    requires Searchable(graph, a, s)
    ensures Extends(Found(s), Found(Drain(graph, a, limit, s)))
    decreases Weight(|graph|, s.pending)
  {
    if s.pending != [] {
      var k := |s.pending| - 1;
      var w := s.pending[k];
      ChildrenEffect(a, limit, w, Outgoing(graph, End(a.access, w)), s.(pending := s.pending[..k]));
      ExpandShrinks(graph, a, limit, s);
      DrainExtends(graph, a, limit, Expand(graph, a, limit, s));
    }
  }

  // ----- Closure: no access is lost to the limit -----

  /** Every held access has its children held, or still has a pending walk that ends at it. */
  ghost predicate ClosedButPending(graph: seq<Relation>, a: Assignment, s: Search) {
    forall h, r :: h in s.results && r in graph && r.parent == h.access ==>
      Holding(h.identity, r.child) in s.results || IsPending(a, s.pending, h)
  }

  ghost predicate Closed(graph: seq<Relation>, results: Results) {
    forall h, r :: h in results && r in graph && r.parent == h.access ==> Holding(h.identity, r.child) in results
  }

  ghost predicate HoldsChain(a: Assignment, w: Walk, results: Results) {
    forall n :: n in Chain(a.access, w) ==> Holding(a.identity, n) in results
  }

  /** A walk is tracked when it is simple, recorded, and passes only through held accesses. */
  ghost predicate TracksWalk(graph: seq<Relation>, a: Assignment, w: Walk, results: Results) {
    IsSimpleWalk(graph, a.access, w) && Recorded(results, a, w) && HoldsChain(a, w, results)
  }

  ghost predicate Tracked(graph: seq<Relation>, a: Assignment, s: Search) {
    forall w :: w in s.pending ==> TracksWalk(graph, a, w, s.results)
  }

  /** The walk is recorded and every relation that closes it is reported. */
  ghost predicate Finished(graph: seq<Relation>, a: Assignment, w: Walk, e: Evaluation) {
    && Recorded(e.results, a, w)
    && forall r :: ClosesWalk(graph, a.access, w, r) ==> CycleAt(a, w, r) in e.diagnostics
  }

  /** Without a limit diagnostic, every simple walk is finished or extends a pending walk. */
  ghost predicate Covered(graph: seq<Relation>, a: Assignment, s: Search) {
    Limited(s.diagnostics) || forall w :: IsSimpleWalk(graph, a.access, w) ==>
      Finished(graph, a, w, Found(s)) || HasPendingPrefix(s.pending, w)
  }

  ghost predicate Finishes(graph: seq<Relation>, a: Assignment, e: Evaluation) {
    Limited(e.diagnostics) || forall w :: IsSimpleWalk(graph, a.access, w) ==> Finished(graph, a, w, e)
  }

  /** Some prefix of the walk is still pending. */
  ghost predicate HasPendingPrefix(pending: seq<Walk>, w: Walk) {
    exists k :: 0 <= k <= |w| && w[..k] in pending
  }

  lemma TracksLater(graph: seq<Relation>, a: Assignment, w: Walk, older: Evaluation, newer: Evaluation)
    requires TracksWalk(graph, a, w, older.results) && Extends(older, newer)
    ensures TracksWalk(graph, a, w, newer.results)
  {
  }

  lemma VisitKeepsTracked(graph: seq<Relation>, a: Assignment, limit: nat, w: Walk, r: Relation, s: Search)
    requires Tracked(graph, a, s) && IsSimpleWalk(graph, a.access, w) && HoldsChain(a, w, s.results)
    requires r in graph && r.parent == End(a.access, w)
    ensures Tracked(graph, a, VisitChild(a, limit, w, r, s))
    ensures HoldsChain(a, w, VisitChild(a, limit, w, r, s).results)
  {
    var t := VisitChild(a, limit, w, r, s);
    VisitEffect(a, limit, w, r, s);
    forall v | v in t.pending ensures TracksWalk(graph, a, v, t.results) {
      if v in s.pending {
        TracksLater(graph, a, v, Found(s), Found(t));
      } else {
        assert v == w + [r];
        SimpleWalkExtends(graph, a.access, w, r);
        ChainExtends(a.access, w, r);
        assert Handled(a, w, r, t);
      }
    }
  }

  lemma {:induction false} ChildrenKeepTracked(graph: seq<Relation>, a: Assignment, limit: nat, w: Walk,
                                               children: seq<Relation>, s: Search)
    requires Tracked(graph, a, s) && IsSimpleWalk(graph, a.access, w) && HoldsChain(a, w, s.results)
    requires forall r :: r in children ==> r in graph && r.parent == End(a.access, w)
    ensures Tracked(graph, a, VisitChildren(a, limit, w, children, s))
  {
    if children != [] {
      var k := |children| - 1;
      VisitKeepsTracked(graph, a, limit, w, children[k], s);
      ChildrenKeepTracked(graph, a, limit, w, children[..k], VisitChild(a, limit, w, children[k], s));
    }
  }

  ghost predicate SearchInvariant(graph: seq<Relation>, a: Assignment, s: Search) {
    Tracked(graph, a, s) && ClosedButPending(graph, a, s) && Covered(graph, a, s)
  }

  /** What Expand does, for a search whose pending walks are tracked. */
  lemma ExpandEffect(graph: seq<Relation>, a: Assignment, limit: nat, s: Search)
    requires s.pending != [] && Tracked(graph, a, s)
    ensures var t := Expand(graph, a, limit, s);
            var k := |s.pending| - 1;
            && Tracked(graph, a, t) && Extends(Found(s), Found(t)) && NewOnesPending(a, s, t)
            && s.pending[..k] <= t.pending
            && forall r :: r in graph && r.parent == End(a.access, s.pending[k]) ==> Handled(a, s.pending[k], r, t)
  {
    var k := |s.pending| - 1;
    var w := s.pending[k];
    var rest := s.(pending := s.pending[..k]);
    assert TracksWalk(graph, a, w, s.results);
    OutgoingAreThose(graph, End(a.access, w));
    ChildrenEffect(a, limit, w, Outgoing(graph, End(a.access, w)), rest);
    ChildrenKeepTracked(graph, a, limit, w, Outgoing(graph, End(a.access, w)), rest);
  }

  lemma StaysPending(a: Assignment, s: Search, t: Search, h: Holding)
    requires s.pending != [] && s.pending[..|s.pending| - 1] <= t.pending && IsPending(a, s.pending, h)
    ensures IsPending(a, t.pending, h) || h == Holding(a.identity, End(a.access, s.pending[|s.pending| - 1]))
  {
    var k := |s.pending| - 1;
    var v :| v in s.pending && End(a.access, v) == h.access;
    assert v in s.pending[..k] || v == s.pending[k];
    if v in s.pending[..k] {
      assert v in t.pending;
    }
  }

  lemma ExpandKeepsClosed(graph: seq<Relation>, a: Assignment, limit: nat, s: Search)
    requires s.pending != [] && Tracked(graph, a, s) && ClosedButPending(graph, a, s)
    ensures ClosedButPending(graph, a, Expand(graph, a, limit, s))
  {
    var w := s.pending[|s.pending| - 1];
    var t := Expand(graph, a, limit, s);
    ExpandEffect(graph, a, limit, s);
    assert TracksWalk(graph, a, w, s.results);
    forall h, r | h in t.results && r in graph && r.parent == h.access
      ensures Holding(h.identity, r.child) in t.results || IsPending(a, t.pending, h)
    {
      if h in s.results && Holding(h.identity, r.child) !in s.results {
        StaysPending(a, s, t, h);
        if h == Holding(a.identity, End(a.access, w)) {
          assert Handled(a, w, r, t);
        }
      }
    }
  }

  /** Once all children of w are handled, w is finished and each simple extension of it has a pending prefix. */
  lemma CoveredByPopped(graph: seq<Relation>, a: Assignment, w: Walk, v: Walk, t: Search)
    requires IsSimpleWalk(graph, a.access, v) && |w| <= |v| && v[..|w|] == w
    requires Recorded(t.results, a, w) && !Limited(t.diagnostics)
    requires forall r :: r in graph && r.parent == End(a.access, w) ==> Handled(a, w, r, t)
    ensures Finished(graph, a, v, Found(t)) || HasPendingPrefix(t.pending, v)
  {
    if |v| == |w| {
      assert v == w;
      forall r | ClosesWalk(graph, a.access, w, r) ensures CycleAt(a, w, r) in t.diagnostics {
        assert Handled(a, w, r, t);
      }
    } else {
      var r := v[|w|];
      assert r in graph && r.parent == End(a.access, w);
      ChainPrefix(a.access, v, |w|);
      assert Chain(a.access, v)[|w| + 1] == r.child;
      assert r.child !in Chain(a.access, w);
      assert Handled(a, w, r, t);
      assert v[..|w| + 1] == w + [r];
    }
  }

  lemma PrefixStaysPending(graph: seq<Relation>, a: Assignment, rest: seq<Walk>, w: Walk, v: Walk, t: Search)
    requires IsSimpleWalk(graph, a.access, v) && HasPendingPrefix(rest + [w], v)
    requires rest <= t.pending && Recorded(t.results, a, w) && !Limited(t.diagnostics)
    requires forall r :: r in graph && r.parent == End(a.access, w) ==> Handled(a, w, r, t)
    ensures Finished(graph, a, v, Found(t)) || HasPendingPrefix(t.pending, v)
  {
    var j :| 0 <= j <= |v| && v[..j] in rest + [w];
    if v[..j] in rest {
      assert v[..j] in t.pending;
    } else {
      assert v[..j] == w;
      CoveredByPopped(graph, a, w, v, t);
    }
  }

  lemma WalkStaysCovered(graph: seq<Relation>, a: Assignment, limit: nat, s: Search, v: Walk)
    requires s.pending != [] && Tracked(graph, a, s) && IsSimpleWalk(graph, a.access, v)
    requires Finished(graph, a, v, Found(s)) || HasPendingPrefix(s.pending, v)
    requires !Limited(Expand(graph, a, limit, s).diagnostics)
    ensures var t := Expand(graph, a, limit, s);
            Finished(graph, a, v, Found(t)) || HasPendingPrefix(t.pending, v)
  {
    var k := |s.pending| - 1;
    var t := Expand(graph, a, limit, s);
    ExpandEffect(graph, a, limit, s);
    if Finished(graph, a, v, Found(s)) {
      FinishedLater(graph, a, v, Found(s), Found(t));
    } else {
      assert s.pending == s.pending[..k] + [s.pending[k]];
      assert Recorded(t.results, a, s.pending[k]) by {
        assert TracksWalk(graph, a, s.pending[k], s.results);
      }
      PrefixStaysPending(graph, a, s.pending[..k], s.pending[k], v, t);
    }
  }

  lemma ExpandKeepsCovered(graph: seq<Relation>, a: Assignment, limit: nat, s: Search)
    requires s.pending != [] && Tracked(graph, a, s) && Covered(graph, a, s)
    ensures Covered(graph, a, Expand(graph, a, limit, s))
  {
    var t := Expand(graph, a, limit, s);
    if !Limited(t.diagnostics) {
      assert !Limited(s.diagnostics) by { ExpandEffect(graph, a, limit, s); }
      forall v | IsSimpleWalk(graph, a.access, v)
        ensures Finished(graph, a, v, Found(t)) || HasPendingPrefix(t.pending, v)
      {
        WalkStaysCovered(graph, a, limit, s, v);
      }
    }
  }

  lemma FinishedLater(graph: seq<Relation>, a: Assignment, w: Walk, older: Evaluation, newer: Evaluation)
    requires Finished(graph, a, w, older) && Extends(older, newer)
    ensures Finished(graph, a, w, newer)
  {
  }

  lemma {:induction false} DrainReachesAll(graph: seq<Relation>, a: Assignment, limit: nat, s: Search)
    requires SearchInvariant(graph, a, s)
    ensures var t := Drain(graph, a, limit, s);
            Closed(graph, t.results) && Finishes(graph, a, Found(t))
    decreases Weight(|graph|, s.pending)
  {
    if s.pending != [] {
      ExpandEffect(graph, a, limit, s);
      ExpandKeepsClosed(graph, a, limit, s);
      ExpandKeepsCovered(graph, a, limit, s);
      ExpandShrinks(graph, a, limit, s);
      DrainReachesAll(graph, a, limit, Expand(graph, a, limit, s));
    }
  }
}
