/**
 * Walks, simple walks, reachability and cycles in a list of grant relations, without reference to any search: this is
 * what the theorems on effective access are stated with.
 */
module GrantGraph {
  import opened Domain

  type Walk = seq<Relation>

  function End(root: Ref, w: Walk): Ref {
    if w == [] then root else w[|w| - 1].child
  }

  /** The accesses a walk passes through, its root first. */
  function Chain(root: Ref, w: Walk): (chain: seq<Ref>)
    ensures |chain| == |w| + 1 && chain[0] == root && chain[|w|] == End(root, w)
  {
    seq(|w| + 1, i requires 0 <= i <= |w| => if i == 0 then root else w[i - 1].child)
  }

  ghost predicate IsWalk(graph: seq<Relation>, root: Ref, w: Walk) {
    forall i :: 0 <= i < |w| ==> w[i] in graph && w[i].parent == End(root, w[..i])
  }

  ghost predicate IsSimpleWalk(graph: seq<Relation>, root: Ref, w: Walk) {
    IsWalk(graph, root, w) && Distinct(Chain(root, w))
  }

  ghost predicate Reaches(graph: seq<Relation>, root: Ref, target: Ref) {
    exists w :: IsWalk(graph, root, w) && End(root, w) == target
  }

  /** Some closed walk of at least one relation starts at an access reachable from root. */
  ghost predicate ReachesCycle(graph: seq<Relation>, root: Ref) {
    exists w, c :: IsWalk(graph, root, w) && c != [] && IsWalk(graph, End(root, w), c)
                && End(End(root, w), c) == End(root, w)
  }

  /** Relation r leads from the end of the walk back into it. */
  ghost predicate ClosesWalk(graph: seq<Relation>, root: Ref, w: Walk, r: Relation) {
    r in graph && r.parent == End(root, w) && r.child in Chain(root, w)
  }

  ghost predicate ClosedUnder(nodes: set<Ref>, graph: seq<Relation>) {
    forall r :: r in graph && r.parent in nodes ==> r.child in nodes
  }

  lemma ChainExtends(root: Ref, w: Walk, r: Relation)
    ensures Chain(root, w + [r]) == Chain(root, w) + [r.child]
    ensures End(root, w + [r]) == r.child
  {
  }

  lemma ChainPrefix(root: Ref, w: Walk, k: nat)
    requires k <= |w|
    ensures Chain(root, w[..k]) == Chain(root, w)[..k + 1]
  {
  }

  lemma WalkExtends(graph: seq<Relation>, root: Ref, w: Walk, r: Relation)
    requires IsWalk(graph, root, w) && r in graph && r.parent == End(root, w)
    ensures IsWalk(graph, root, w + [r])
  {
    forall i | 0 <= i < |w| + 1
      ensures (w + [r])[i] in graph && (w + [r])[i].parent == End(root, (w + [r])[..i])
    {
      assert (w + [r])[..i] == w[..i];
      assert i == |w| ==> w[..i] == w;
    }
  }

  lemma WalkPrefix(graph: seq<Relation>, root: Ref, w: Walk, k: nat)
    requires IsWalk(graph, root, w) && k <= |w|
    ensures IsWalk(graph, root, w[..k])
  {
    forall i | 0 <= i < k ensures w[..k][i] in graph && w[..k][i].parent == End(root, w[..k][..i]) {
      assert w[..k][..i] == w[..i];
    }
  }

  lemma WalkSuffix(graph: seq<Relation>, root: Ref, w: Walk, k: nat)
    requires IsWalk(graph, root, w) && k <= |w|
    ensures IsWalk(graph, End(root, w[..k]), w[k..])
    ensures End(End(root, w[..k]), w[k..]) == End(root, w)
  {
    forall i | 0 <= i < |w| - k
      ensures w[k..][i] in graph && w[k..][i].parent == End(End(root, w[..k]), w[k..][..i])
    {
      assert w[k + i] in graph && w[k + i].parent == End(root, w[..k + i]);
    }
  }

  lemma {:induction false} WalkConcat(graph: seq<Relation>, root: Ref, w: Walk, c: Walk)
    requires IsWalk(graph, root, w) && IsWalk(graph, End(root, w), c)
    ensures IsWalk(graph, root, w + c) && End(root, w + c) == End(End(root, w), c)
  {
    if c == [] {
      assert w + c == w;
    } else {
      var k := |c| - 1;
      WalkPrefix(graph, End(root, w), c, k);
      WalkConcat(graph, root, w, c[..k]);
      WalkExtends(graph, root, w + c[..k], c[k]);
      assert w + c == (w + c[..k]) + [c[k]];
    }
  }

  lemma SimpleWalkExtends(graph: seq<Relation>, root: Ref, w: Walk, r: Relation)
    requires IsSimpleWalk(graph, root, w) && r in graph && r.parent == End(root, w)
    requires r.child !in Chain(root, w)
    ensures IsSimpleWalk(graph, root, w + [r])
  {
    WalkExtends(graph, root, w, r);
    ChainExtends(root, w, r);
  }

  lemma {:induction false} DistinctFits<T>(items: seq<T>, pool: seq<T>)
    requires Distinct(items) && forall x :: x in items ==> x in pool
    ensures |items| <= |pool|
  {
    if items != [] {
      var x := items[0];
      assert x in pool;
      var k :| 0 <= k < |pool| && pool[k] == x;
      var rest := pool[..k] + pool[k + 1..];
      forall y | y in items[1..] ensures y in rest {
        var j :| 0 <= j < |items[1..]| && items[1..][j] == y;
        assert y == items[j + 1] && y != x;
        assert y in items;
        var m :| 0 <= m < |pool| && pool[m] == y;
        assert y == if m < k then rest[m] else rest[m - 1];
      }
      DistinctFits(items[1..], rest);
    }
  }

  /** A simple walk uses each relation at most once, so it is no longer than the list of relations. */
  lemma SimpleWalkIsShort(graph: seq<Relation>, root: Ref, w: Walk)
    requires IsSimpleWalk(graph, root, w)
    ensures |w| <= |graph|
  {
    forall i, j | 0 <= i < j < |w| ensures w[i] != w[j] {
      assert Chain(root, w)[i + 1] == w[i].child && Chain(root, w)[j + 1] == w[j].child;
    }
    DistinctFits(w, graph);
  }

  lemma ReachesItself(graph: seq<Relation>, root: Ref)
    ensures Reaches(graph, root, root)
  {
    assert IsWalk(graph, root, []) && End(root, []) == root;
  }

  lemma ReachesFurther(graph: seq<Relation>, root: Ref, r: Relation)
    requires Reaches(graph, root, r.parent) && r in graph
    ensures Reaches(graph, root, r.child)
  {
    var w :| IsWalk(graph, root, w) && End(root, w) == r.parent;
    WalkExtends(graph, root, w, r);
    assert End(root, w + [r]) == r.child;
  }

  lemma {:induction false} WalkStaysInside(graph: seq<Relation>, nodes: set<Ref>, root: Ref, w: Walk)
    requires ClosedUnder(nodes, graph) && root in nodes && IsWalk(graph, root, w)
    ensures End(root, w) in nodes
  {
    if w != [] {
      WalkPrefix(graph, root, w, |w| - 1);
      WalkStaysInside(graph, nodes, root, w[..|w| - 1]);
      assert w[|w| - 1] in graph;
    }
  }

  /** Reachability depends only on which pairs of accesses are related. */
  lemma {:induction false} WalkTransfers(graph: seq<Relation>, other: seq<Relation>, root: Ref, w: Walk)
    requires forall r :: r in graph ==> exists q :: q in other && q.parent == r.parent && q.child == r.child
    requires IsWalk(graph, root, w)
    ensures Reaches(other, root, End(root, w))
  {
    if w == [] {
      ReachesItself(other, root);
    } else {
      var k := |w| - 1;
      WalkPrefix(graph, root, w, k);
      WalkTransfers(graph, other, root, w[..k]);
      assert w[k] in graph;
      var q :| q in other && q.parent == w[k].parent && q.child == w[k].child;
      ReachesFurther(other, root, q);
    }
  }

  lemma {:induction false} WalksAreSimple(graph: seq<Relation>, root: Ref, w: Walk)
    requires forall v, r :: IsSimpleWalk(graph, root, v) ==> !ClosesWalk(graph, root, v, r)
    requires IsWalk(graph, root, w)
    ensures IsSimpleWalk(graph, root, w)
  {
    if w != [] {
      var k := |w| - 1;
      WalkPrefix(graph, root, w, k);
      WalksAreSimple(graph, root, w[..k]);
      assert !ClosesWalk(graph, root, w[..k], w[k]);
      SimpleWalkExtends(graph, root, w[..k], w[k]);
      assert w == w[..k] + [w[k]];
    }
  }

  lemma ReturningWalkRepeats(graph: seq<Relation>, root: Ref, w: Walk, c: Walk)
    requires IsWalk(graph, root, w) && c != [] && IsWalk(graph, End(root, w), c)
    requires End(End(root, w), c) == End(root, w)
    ensures IsWalk(graph, root, w + c) && !Distinct(Chain(root, w + c))
  {
    WalkConcat(graph, root, w, c);
    assert Chain(root, w + c)[|w|] == Chain(root, w + c)[|w + c|];
  }

  /** A cycle is reachable exactly when some simple walk can be closed by one more relation. */
  lemma CycleMeansClosableWalk(graph: seq<Relation>, root: Ref)
    ensures ReachesCycle(graph, root)
       <==> exists w, r :: IsSimpleWalk(graph, root, w) && ClosesWalk(graph, root, w, r)
  {
    if w, r :| IsSimpleWalk(graph, root, w) && ClosesWalk(graph, root, w, r) {
      var k :| 0 <= k <= |w| && Chain(root, w)[k] == r.child;
      ChainPrefix(root, w, k);
      WalkPrefix(graph, root, w, k);
      WalkSuffix(graph, root, w, k);
      WalkExtends(graph, End(root, w[..k]), w[k..], r);
      assert IsWalk(graph, root, w[..k]) && w[k..] + [r] != [];
    }
    if ReachesCycle(graph, root) && forall v, r :: IsSimpleWalk(graph, root, v) ==> !ClosesWalk(graph, root, v, r) {
      var w, c :| IsWalk(graph, root, w) && c != [] && IsWalk(graph, End(root, w), c)
               && End(End(root, w), c) == End(root, w);
      ReturningWalkRepeats(graph, root, w, c);
      WalksAreSimple(graph, root, w + c);
      assert false;
    }
  }

  /** A reachable cycle depends only on which pairs of accesses are related. */
  lemma CycleTransfers(graph: seq<Relation>, other: seq<Relation>, root: Ref)
    requires forall r :: r in graph ==> exists q :: q in other && q.parent == r.parent && q.child == r.child
    requires ReachesCycle(graph, root)
    ensures ReachesCycle(other, root)
  {
    var w: Walk, c: Walk :| IsWalk(graph, root, w) && c != [] && IsWalk(graph, End(root, w), c)
             && End(End(root, w), c) == End(root, w);
    var turn, k := End(root, w), |c| - 1;
    WalkTransfers(graph, other, root, w);
    WalkPrefix(graph, turn, c, k);
    WalkTransfers(graph, other, turn, c[..k]);
    assert c[k] in graph && c[k].parent == End(turn, c[..k]);
    var q :| q in other && q.parent == c[k].parent && q.child == c[k].child;
    var w': Walk :| IsWalk(other, root, w') && End(root, w') == turn;
    var c': Walk :| IsWalk(other, turn, c') && End(turn, c') == q.parent;
    WalkExtends(other, turn, c', q);
    assert c' + [q] != [] && End(turn, c' + [q]) == turn;
  }
}
