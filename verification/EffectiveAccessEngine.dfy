/** The loops that compute effective accesses. */
module EffectiveAccessEngine {
  import opened Domain
  import opened Ordering
  import opened GrantGraph
  import opened EffectiveAccess

  /** A stack entry: the access to expand, the chain that led to it and the ids of the relations used. */
  datatype Frame = Frame(access: Ref, chain: seq<Ref>, relationIds: seq<string>)

  type Adjacency = map<Ref, seq<Relation>>

  function Children(adjacency: Adjacency, parent: Ref): seq<Relation> {
    if parent in adjacency then adjacency[parent] else []
  }

  ghost function FrameOf(a: Assignment, w: Walk): Frame {
    Frame(End(a.access, w), Chain(a.access, w), RelationIds(w))
  }

  ghost predicate Represents(a: Assignment, stack: seq<Frame>, walks: seq<Walk>) {
    |stack| == |walks| && forall i :: 0 <= i < |stack| ==> stack[i] == FrameOf(a, walks[i])
  }

  ghost predicate Lists(adjacency: Adjacency, graph: seq<Relation>) {
    forall p :: Children(adjacency, p) == Outgoing(graph, p)
  }

  lemma AppendKeepsLists(adjacency: Adjacency, graph: seq<Relation>, r: Relation)
    requires Lists(adjacency, graph)
    ensures Lists(adjacency[r.parent := Children(adjacency, r.parent) + [r]], graph + [r])
  {
    var next := adjacency[r.parent := Children(adjacency, r.parent) + [r]];
    forall p ensures Children(next, p) == Outgoing(graph + [r], p) {
      OutgoingAppend(graph, r, p);
      assert Children(adjacency, p) == Outgoing(graph, p);
    }
  }

  lemma NextRelation(sorted: seq<Relation>, i: nat, catalogue: Catalogue)
    requires i < |sorted|
    ensures var r, rest := sorted[i], sorted[..i];
            var isNew := r.kind == GRANTS && RelationKey(r) !in SeenKeys(rest);
            && SeenKeys(sorted[..i + 1]) == SeenKeys(rest) + (if r.kind == GRANTS then {RelationKey(r)} else {})
            && Admit(sorted[..i + 1], catalogue)
            == Admit(rest, catalogue) + (if isNew && Admissible(catalogue, r) then [r] else [])
            && RelationDiagnostics(sorted[..i + 1], catalogue)
            == RelationDiagnostics(rest, catalogue)
             + (if r.kind != GRANTS then [UnsupportedRelation(r)]
                else if isNew && !Admissible(catalogue, r)
                then [UnresolvedRelation(r, !Known(catalogue, r.parent), !Known(catalogue, r.child))] else [])
  {
    assert sorted[..i + 1][..i] == sorted[..i] && sorted[..i + 1] == sorted[..i] + [sorted[i]];
  }

  method BuildAdjacency(relations: seq<Relation>, catalogue: Catalogue)
    returns (adjacency: Adjacency, diagnostics: seq<Diagnostic>)
    ensures Lists(adjacency, GraphOf(relations, catalogue))
    ensures diagnostics == RelationDiagnostics(SortBy(RelationKey, relations), catalogue)
  {
    adjacency, diagnostics := map[], [];
    var seen := {};
    var sorted := SortBy(RelationKey, relations);
    ghost var graph: seq<Relation> := [];
    for i := 0 to |sorted|
      invariant seen == SeenKeys(sorted[..i]) && graph == Admit(sorted[..i], catalogue)
      invariant diagnostics == RelationDiagnostics(sorted[..i], catalogue)
      invariant Lists(adjacency, graph)
    {
      var r := sorted[i];
      NextRelation(sorted, i, catalogue);
      if r.kind != GRANTS {
        diagnostics := diagnostics + [UnsupportedRelation(r)];
      } else if RelationKey(r) !in seen {
        seen := seen + {RelationKey(r)};
        if Known(catalogue, r.parent) && Known(catalogue, r.child) {
          AppendKeepsLists(adjacency, graph, r);
          adjacency := adjacency[r.parent := Children(adjacency, r.parent) + [r]];
          graph := graph + [r];
        } else {
          diagnostics := diagnostics + [UnresolvedRelation(r, !Known(catalogue, r.parent), !Known(catalogue, r.child))];
        }
      }
    }
    assert sorted[..|sorted|] == sorted;
  }

  /** Expands one stack entry; the walks that the frames stand for are kept alongside. */
  method ExpandFrame(a: Assignment, limit: nat, frame: Frame, children: seq<Relation>, stack: seq<Frame>,
                     results: Results,
                     diagnostics: seq<Diagnostic>, ghost w: Walk, ghost walks: seq<Walk>)
    returns (stack': seq<Frame>, results': Results, diagnostics': seq<Diagnostic>, ghost walks': seq<Walk>)
    requires frame == FrameOf(a, w) && Represents(a, stack, walks)
    ensures Represents(a, stack', walks')
    ensures Search(walks', results', diagnostics')
         == VisitChildren(a, limit, w, children, Search(walks, results, diagnostics))
  {
    stack', results', diagnostics', walks' := stack, results, diagnostics, walks;
    var j := |children|;
    assert children[..j] == children;
    while j > 0
      invariant 0 <= j <= |children|
      invariant Represents(a, stack', walks')
      invariant VisitChildren(a, limit, w, children[..j], Search(walks', results', diagnostics'))
             == VisitChildren(a, limit, w, children, Search(walks, results, diagnostics))
    {
      j := j - 1;
      var r := children[j];
      var h := Holding(a.identity, r.child);
      assert children[..j + 1][..j] == children[..j];
      if r.child in frame.chain {
        diagnostics' := diagnostics' + [CycleDetected(a.identity, r.id, frame.chain + [r.child])];
      } else if h in results' && |results'[h].paths| >= limit {
        diagnostics' := diagnostics' + [PathLimitReached(a.identity, r.child)];
      } else {
        var next := Frame(r.child, frame.chain + [r.child], frame.relationIds + [r.id]);
        ChainExtends(a.access, w, r);
        assert next.relationIds == RelationIds(w + [r]);
        results' := Record(results', h, false, Path(a.identity, next.chain, a.id, next.relationIds));
        stack' := stack' + [next];
        walks' := walks' + [w + [r]];
      }
    }
  }

  /** Pops and expands stack entries until none is left. */
  method DrainStack(adjacency: Adjacency, a: Assignment, limit: nat, frames: seq<Frame>, results: Results,
                    diagnostics: seq<Diagnostic>, ghost graph: seq<Relation>, ghost pending: seq<Walk>)
    returns (results': Results, diagnostics': seq<Diagnostic>)
    requires Lists(adjacency, graph) && Represents(a, frames, pending)
    requires Searchable(graph, a, Search(pending, results, diagnostics))
    ensures Drain(graph, a, limit, Search(pending, results, diagnostics)) == Search([], results', diagnostics')
  {
    var stack := frames;
    results', diagnostics' := results, diagnostics;
    ghost var walks := pending;
    ghost var start := Search(pending, results, diagnostics);
    while stack != []
      invariant Represents(a, stack, walks)
      invariant Searchable(graph, a, Search(walks, results', diagnostics'))
      invariant Drain(graph, a, limit, Search(walks, results', diagnostics')) == Drain(graph, a, limit, start)
      decreases Weight(|graph|, walks)
    {
      var k := |stack| - 1;
      var frame := stack[k];
      ghost var s := Search(walks, results', diagnostics');
      ExpandShrinks(graph, a, limit, s);
      stack, results', diagnostics', walks :=
        ExpandFrame(a, limit, frame, Children(adjacency, frame.access), stack[..k],
                                                          results', diagnostics', walks[k], walks[..k]);
      assert Search(walks, results', diagnostics') == Expand(graph, a, limit, s);
    }
  }

  method ExploreAssignment(adjacency: Adjacency, a: Assignment, limit: nat, results: Results,
                           diagnostics: seq<Diagnostic>,
                           ghost graph: seq<Relation>)
    returns (results': Results, diagnostics': seq<Diagnostic>)
    requires Lists(adjacency, graph)
    ensures Explore(graph, a, None, limit, Evaluation(results, diagnostics)) == Evaluation(results', diagnostics')
  {
    var path := Path(a.identity, [a.access], a.id, []);
    EmptyWalkIsSimple(graph, a.access);
    assert PathOf(a, []) == path;
    var first := Record(results, Holding(a.identity, a.access), true, path);
    results', diagnostics' :=
      DrainStack(adjacency, a, limit, [Frame(a.access, [a.access], [])], first, diagnostics, graph, [[]]);
  }

  /** The loop over the sorted assignments; an assignment of an unknown access is only reported. */
  method ExploreAssignments(adjacency: Adjacency, sorted: seq<Assignment>, catalogue: Catalogue, limit: nat,
                            found: seq<Diagnostic>, ghost graph: seq<Relation>)
    returns (evaluation: Evaluation)
    requires Lists(adjacency, graph)
    ensures evaluation == ExploreAll(graph, sorted, catalogue, limit, Evaluation(map[], found))
  {
    var results: Results := map[];
    var diagnostics := found;
    for i := 0 to |sorted|
      invariant Evaluation(results, diagnostics)
             == ExploreAll(graph, sorted[..i], catalogue, limit, Evaluation(map[], found))
    {
      var a := sorted[i];
      assert sorted[..i + 1][..i] == sorted[..i];
      if !Known(catalogue, a.access) {
        diagnostics := diagnostics + [UnresolvedAssignment(a.id, a.access, a.identity)];
      } else {
        results, diagnostics := ExploreAssignment(adjacency, a, limit, results, diagnostics, graph);
      }
    }
    assert sorted[..|sorted|] == sorted;
    evaluation := Evaluation(results, diagnostics);
  }

  /** Resolves direct and derived accesses; the path limit must be at least one. */
  method CalculateEffectiveAccesses(assignments: seq<Assignment>, relations: seq<Relation>, catalogue: Catalogue,
                                    maxPathsPerAccess: int)
    returns (evaluation: Result<Evaluation>)
    ensures evaluation.Error? <==> maxPathsPerAccess < 1
    ensures evaluation.Ok? ==> evaluation.value == Evaluate(assignments, relations, catalogue, maxPathsPerAccess)
  {
    if maxPathsPerAccess < 1 {
      return Error("max_paths_per_access must be at least 1");
    }
    var adjacency, diagnostics := BuildAdjacency(relations, catalogue);
    var sorted := SortBy(AssignmentKey, assignments);
    var found := ExploreAssignments(adjacency, sorted, catalogue, maxPathsPerAccess, diagnostics,
                                    GraphOf(relations, catalogue));
    return Ok(found);
  }
}
