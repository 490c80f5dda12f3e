/** Parent links of perimeters: ancestors and acyclicity. */
module PerimeterForest {
  import opened Domain

  datatype Node = Node(id: string, name: string, parent: Option<string>, description: Option<string>, active: bool)

  type Forest = map<string, Node>

  function ParentOf(f: Forest, x: string): Option<string> {
    if x in f then f[x].parent else None
  }

  /** The perimeter n links above x, if there is one. */
  function Up(f: Forest, x: string, n: nat): Option<string> {
    if n == 0 then Some(x)
    else match Up(f, x, n - 1)
      case None => None
      case Some(p) => ParentOf(f, p)
  }

  ghost predicate IsAncestor(f: Forest, a: string, x: string) {
    exists n :: n > 0 && Up(f, x, n) == Some(a)
  }

  ghost predicate IsAncestorOrSelf(f: Forest, a: string, x: string) {
    exists n :: n >= 0 && Up(f, x, n) == Some(a)
  }

  /** Links stay inside the table, and no perimeter is above itself. */
  ghost predicate IsForest(f: Forest) {
    && (forall x :: x in f ==> f[x].id == x)
    && (forall x :: x in f && f[x].parent.Some? ==> f[x].parent.value in f)
    && (forall x :: x in f ==> !IsAncestor(f, x, x))
  }

  lemma {:induction false} UpAdds(f: Forest, x: string, m: nat, n: nat)
    requires Up(f, x, m).Some?
    ensures Up(f, x, m + n) == Up(f, Up(f, x, m).value, n)
  {
    if n > 0 {
      UpAdds(f, x, m, n - 1);
    }
  }

  lemma {:induction false} UpIsDefinedBefore(f: Forest, x: string, m: nat, n: nat)
    requires m <= n && Up(f, x, n).Some?
    ensures Up(f, x, m).Some?
    decreases n
  {
    if m < n {
      UpIsDefinedBefore(f, x, m, n - 1);
    }
  }

  lemma {:induction false} UpStaysInside(f: Forest, x: string, n: nat)
    requires x in f && forall y :: y in f && f[y].parent.Some? ==> f[y].parent.value in f
    ensures Up(f, x, n).Some? ==> Up(f, x, n).value in f
  {
    if n > 0 {
      UpStaysInside(f, x, n - 1);
    }
  }

  /** The climb from x is the same in both tables as long as it has not met the changed perimeter. */
  lemma {:induction false} UpAgrees(f: Forest, g: Forest, changed: string, x: string, n: nat)
    requires forall y :: y != changed ==> ParentOf(f, y) == ParentOf(g, y)
    requires forall k :: 0 <= k < n ==> Up(g, x, k) != Some(changed)
    ensures Up(f, x, n) == Up(g, x, n)
  {
    if n > 0 {
      UpAgrees(f, g, changed, x, n - 1);
    }
  }

  /** If the climb in g meets the changed perimeter, the climb in f meets it too. */
  lemma {:induction false} FirstMeeting(f: Forest, g: Forest, changed: string, x: string, n: nat)
    requires forall y :: y != changed ==> ParentOf(f, y) == ParentOf(g, y)
    requires Up(g, x, n) == Some(changed)
    ensures IsAncestorOrSelf(f, changed, x)
    decreases n
  {
    if k :| 0 <= k < n && Up(g, x, k) == Some(changed) {
      FirstMeeting(f, g, changed, x, k);
    } else {
      UpAgrees(f, g, changed, x, n);
    }
  }

  /** The new parent exists and is not the perimeter itself nor below it. */
  ghost predicate AcceptsParent(f: Forest, x: string, parent: Option<string>) {
    parent.Some? ==> parent.value in f && !IsAncestorOrSelf(f, x, parent.value)
  }

  /** On a cycle through the written perimeter its new parent is the perimeter itself or leads up to it. */
  lemma CycleThroughWritten(f: Forest, node: Node, y: string, n: nat, k: nat)
    requires IsForest(f) && y in f[node.id := node] && k < n
    requires Up(f[node.id := node], y, n) == Some(y) && Up(f[node.id := node], y, k) == Some(node.id)
    ensures !AcceptsParent(f, node.id, node.parent)
  {
    var g, x := f[node.id := node], node.id;
    UpAdds(g, y, k, n - k);
    UpAdds(g, x, n - k, k);
    UpIsDefinedBefore(g, x, 1, n);
    assert Up(g, x, 1) == ParentOf(g, Up(g, x, 0).value) == node.parent;
    UpAdds(g, x, 1, n - 1);
    FirstMeeting(f, g, x, node.parent.value, n - 1);
  }

  /** A cycle that appears when a perimeter is written goes through that perimeter and its new parent. */
  lemma NewCycleMeansRejected(f: Forest, node: Node, y: string)
    requires IsForest(f) && y in f[node.id := node] && IsAncestor(f[node.id := node], y, y)
    ensures !AcceptsParent(f, node.id, node.parent)
  {
    var g, x := f[node.id := node], node.id;
    var n :| n > 0 && Up(g, y, n) == Some(y);
    if k :| 0 <= k < n && Up(g, y, k) == Some(x) {
      CycleThroughWritten(f, node, y, n, k);
    } else {
      UpAgrees(f, g, x, y, n);
      assert Up(g, y, 0) == Some(y);
      assert IsAncestor(f, y, y);
    }
  }

  lemma RejectedMeansBroken(f: Forest, node: Node)
    requires IsForest(f) && !AcceptsParent(f, node.id, node.parent)
    ensures !IsForest(f[node.id := node])
  {
    var g, x, p := f[node.id := node], node.id, node.parent.value;
    assert Up(g, x, 1) == ParentOf(g, Up(g, x, 0).value) == Some(p);
    if p in f {
      var m :| m >= 0 && Up(f, p, m) == Some(x);
      FirstMeeting(g, f, x, p, m);
      var k :| k >= 0 && Up(g, p, k) == Some(x);
      UpAdds(g, x, 1, k);
      assert IsAncestor(g, x, x);
    } else if p == x {
      assert IsAncestor(g, x, x);
    }
  }

  /** Writing a perimeter keeps the forest exactly when its parent is acceptable. */
  lemma WritingKeepsForest(f: Forest, node: Node)
    requires IsForest(f)
    ensures IsForest(f[node.id := node]) <==> AcceptsParent(f, node.id, node.parent)
  {
    var g := f[node.id := node];
    if AcceptsParent(f, node.id, node.parent) {
      forall y | y in g ensures !IsAncestor(g, y, y) {
        if IsAncestor(g, y, y) {
          NewCycleMeansRejected(f, node, y);
        }
      }
    } else {
      RejectedMeansBroken(f, node);
    }
  }

  ghost predicate HasChildren(f: Forest, x: string) {
    exists y :: y in f && f[y].parent == Some(x)
  }

  lemma {:induction false} UpWithoutLeaf(f: Forest, g: Forest, x: string, n: nat)
    requires forall y :: y in g ==> y in f && g[y] == f[y]
    ensures Up(g, x, n).Some? ==> Up(f, x, n) == Up(g, x, n)
  {
    if n > 0 {
      UpWithoutLeaf(f, g, x, n - 1);
    }
  }

  /** Deleting a perimeter keeps the forest exactly when nothing is below it. */
  lemma DeletingKeepsForest(f: Forest, x: string)
    requires IsForest(f) && x in f
    ensures IsForest(f - {x}) <==> !HasChildren(f, x)
  {
    var g := f - {x};
    if HasChildren(f, x) {
      var y :| y in f && f[y].parent == Some(x);
      assert Up(f, y, 1) == ParentOf(f, Up(f, y, 0).value) == Some(x);
      assert y != x by {
        assert !IsAncestor(f, x, x);
      }
      assert y in g && g[y].parent.value !in g;
    } else {
      forall y | y in g ensures !IsAncestor(g, y, y) {
        if n :| n > 0 && Up(g, y, n) == Some(y) {
          UpWithoutLeaf(f, g, y, n);
          assert IsAncestor(f, y, y);
        }
      }
    }
  }

  // ----- Descendants and paths -----

  ghost function Descendants(f: Forest, x: string): set<string> {
    set y | y in f && IsAncestor(f, x, y)
  }

  ghost function Children(f: Forest, x: string): set<string> {
    set y | y in f && f[y].parent == Some(x)
  }

  lemma ParentIsAncestor(f: Forest, y: string)
    requires y in f && f[y].parent.Some?
    ensures IsAncestor(f, f[y].parent.value, y)
  {
    assert Up(f, y, 1) == ParentOf(f, Up(f, y, 0).value);
  }

  /** An ancestor of y is its parent or an ancestor of its parent, and conversely. */
  lemma AncestorsThroughParent(f: Forest, a: string, y: string)
    requires y in f && f[y].parent.Some?
    ensures IsAncestor(f, a, y) <==> a == f[y].parent.value || IsAncestor(f, a, f[y].parent.value)
  {
    var p := f[y].parent.value;
    assert Up(f, y, 1) == ParentOf(f, Up(f, y, 0).value) == Some(p);
    if n :| n > 0 && Up(f, y, n) == Some(a) {
      UpIsDefinedBefore(f, y, 1, n);
      UpAdds(f, y, 1, n - 1);
      assert Up(f, p, n - 1) == Some(a);
    }
    if n :| n > 0 && Up(f, p, n) == Some(a) {
      UpAdds(f, y, 1, n);
    }
  }

  lemma RootHasNoAncestor(f: Forest, a: string, y: string)
    requires ParentOf(f, y).None?
    ensures !IsAncestor(f, a, y)
  {
    assert Up(f, y, 1) == ParentOf(f, Up(f, y, 0).value);
    if n :| n > 0 && Up(f, y, n) == Some(a) {
      UpIsDefinedBefore(f, y, 1, n);
    }
  }

  /** A path runs along parent links from a root down to its last perimeter. */
  ghost predicate IsPath(f: Forest, path: seq<string>) {
    && path != [] && (forall i :: 0 <= i < |path| ==> path[i] in f) && f[path[0]].parent.None?
    && forall i :: 0 <= i < |path| - 1 ==> f[path[i + 1]].parent == Some(path[i])
  }

  /** The path of a perimeter names it and its ancestors. */
  lemma {:induction false} PathNamesAncestors(f: Forest, path: seq<string>, x: string)
    requires IsForest(f) && IsPath(f, path)
    ensures x in path <==> x == path[|path| - 1] || IsAncestor(f, x, path[|path| - 1])
  {
    var n := |path| - 1;
    if n == 0 {
      RootHasNoAncestor(f, x, path[0]);
    } else {
      PathNamesAncestors(f, path[..n], x);
      AncestorsThroughParent(f, x, path[n]);
      assert path == path[..n] + [path[n]];
    }
  }

  /** y is below x exactly when x is on the path of y and is not y. */
  lemma DescendantsAreOnPaths(f: Forest, path: seq<string>, x: string)
    requires IsForest(f) && IsPath(f, path)
    ensures var y := path[|path| - 1];
            y in Descendants(f, x) <==> x in path && x != y
  {
    PathNamesAncestors(f, path, x);
  }
}
