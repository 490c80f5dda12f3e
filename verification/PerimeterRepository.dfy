/** The perimeter operations as the repository carries them out, loops included. */
module PerimeterRepository {
  import opened Domain
  import opened PerimeterForest
  import opened PerimeterStore

  lemma VisitedTwiceIsCycle(f: Forest, start: string, n: nat, x: string)
    requires IsForest(f) && x in f && Up(f, start, n) == Some(x)
    ensures forall k :: 0 <= k < n ==> Up(f, start, k) != Some(x)
  {
    forall k | 0 <= k < n ensures Up(f, start, k) != Some(x) {
      if Up(f, start, k) == Some(x) {
        UpAdds(f, start, k, n - k);
        assert IsAncestor(f, x, x);
      }
    }
  }

  lemma AbsentBeyondRoot(f: Forest, start: string, n: nat, x: string)
    requires Up(f, start, n).None? && forall k :: 0 <= k <= n ==> Up(f, start, k) != Some(x)
    ensures !IsAncestorOrSelf(f, x, start)
  {
    forall m: nat ensures Up(f, start, m) != Some(x) {
      if m > n && Up(f, start, m).Some? {
        UpIsDefinedBefore(f, start, n, m);
      }
    }
  }

  /** Climbs from the proposed parent; meeting the perimeter itself, or a perimeter twice, is a cycle. */
  method AssertParent(f: Forest, identifier: string, parent: Option<string>) returns (accepted: bool)
    ensures IsForest(f) ==> (accepted <==> AcceptsParent(f, identifier, parent))
  {
    if parent.None? {
      return true;
    }
    ghost var start := parent.value;
    assert Up(f, start, 0) == Some(start);
    if parent.value == identifier {
      return false;
    }
    var current := parent;
    var visited: set<string> := {};
    ghost var n := 0;
    while current.Some?
      invariant n >= 0 && Up(f, start, n) == current
      invariant forall k :: 0 <= k <= n ==> Up(f, start, k) != Some(identifier)
      invariant forall v :: v in visited ==> exists k :: 0 <= k < n && Up(f, start, k) == Some(v)
      invariant visited <= f.Keys && (n > 0 ==> start in f)
      invariant IsForest(f) && n > 0 && current.Some? ==> current.value in f
      decreases f.Keys - visited
    {
      var x := current.value;
      if IsForest(f) && x in f {
        VisitedTwiceIsCycle(f, start, n, x);
      }
      if x in visited {
        return false;
      }
      visited := visited + {x};
      if x !in f {
        return false;
      }
      current := f[x].parent;
      n := n + 1;
      assert Up(f, start, n) == current;
      if current == Some(identifier) {
        return false;
      }
    }
    AbsentBeyondRoot(f, start, n, identifier);
    return true;
  }

  method ChildrenOf(f: Forest, parent: string) returns (children: seq<string>)
    ensures Enumerates(children, Children(f, parent))
  {
    children := [];
    var rest := f.Keys;
    while rest != {}
      invariant rest <= f.Keys
      invariant Enumerates(children, Children(f, parent) - rest)
    {
      var y :| y in rest;
      rest := rest - {y};
      if f[y].parent == Some(parent) {
        children := children + [y];
      }
    }
  }

  ghost predicate IsListedBelow(f: Forest, x: string, listed: seq<string>, done: nat, y: string)
    requires done <= |listed|
  {
    y in f && f[y].parent.Some? && f[y].parent.value in listed[..done] && IsAncestor(f, x, y)
  }

  /** x and its listed descendants; the children of the first `done` of them have been listed. */
  ghost predicate Listing(f: Forest, x: string, listed: seq<string>, done: nat) {
    && 0 < |listed| && listed[0] == x && done <= |listed| && Distinct(listed)
    && (forall i :: 0 < i < |listed| ==> IsListedBelow(f, x, listed, done, listed[i]))
    && (forall i, y :: 0 <= i < done && y in Children(f, listed[i]) ==> y in listed)
  }

  lemma ChildIsNew(f: Forest, x: string, listed: seq<string>, done: nat, y: string)
    requires IsForest(f) && Listing(f, x, listed, done) && done < |listed| && y in Children(f, listed[done])
    ensures IsAncestor(f, x, y) && y !in listed
  {
    AncestorsThroughParent(f, x, y);
    assert done > 0 ==> IsListedBelow(f, x, listed, done, listed[done]);
    assert y != x;
    forall i | 0 < i < |listed| ensures listed[i] != y {
      assert listed[done] !in listed[..done];
      assert IsListedBelow(f, x, listed, done, listed[i]);
    }
  }

  lemma DistinctJoin<T>(left: seq<T>, right: seq<T>)
    requires Distinct(left) && Distinct(right) && forall y :: y in right ==> y !in left
    ensures Distinct(left + right)
  {
    var all := left + right;
    forall i, j | 0 <= i < j < |all| ensures all[i] != all[j] {
      if i < |left| <= j {
        assert all[i] in left && all[j] in right;
      }
    }
  }

  lemma ListedStaysBelow(f: Forest, x: string, listed: seq<string>, done: nat, children: seq<string>, y: string)
    requires done < |listed| && IsListedBelow(f, x, listed, done, y)
    ensures IsListedBelow(f, x, listed + children, done + 1, y)
  {
    assert (listed + children)[..done + 1] == listed[..done] + [listed[done]];
  }

  lemma ChildIsListedBelow(f: Forest, x: string, listed: seq<string>, done: nat, children: seq<string>, y: string)
    requires done < |listed| && y in Children(f, listed[done]) && IsAncestor(f, x, y)
    ensures IsListedBelow(f, x, listed + children, done + 1, y)
  {
    assert (listed + children)[..done + 1] == listed[..done] + [listed[done]];
  }

  lemma ListChildren(f: Forest, x: string, listed: seq<string>, done: nat, children: seq<string>)
    requires IsForest(f) && Listing(f, x, listed, done) && done < |listed|
    requires Enumerates(children, Children(f, listed[done]))
    ensures Listing(f, x, listed + children, done + 1)
  {
    var all := listed + children;
    forall y | y in children ensures y !in listed && IsListedBelow(f, x, all, done + 1, y) {
      ChildIsNew(f, x, listed, done, y);
      ChildIsListedBelow(f, x, listed, done, children, y);
    }
    DistinctJoin(listed, children);
    forall i | 0 < i < |all| ensures IsListedBelow(f, x, all, done + 1, all[i]) {
      if i < |listed| {
        ListedStaysBelow(f, x, listed, done, children, listed[i]);
      } else {
        assert all[i] == children[i - |listed|] && all[i] in children;
      }
    }
  }

  lemma {:induction false} ListedAll(f: Forest, x: string, listed: seq<string>, y: string, n: nat)
    requires IsForest(f) && y in f && x in listed && n > 0 && Up(f, y, n) == Some(x)
    requires forall d, z :: d in listed && z in Children(f, d) ==> z in listed
    ensures y in listed
    decreases n
  {
    UpIsDefinedBefore(f, y, 1, n);
    assert Up(f, y, 1) == ParentOf(f, Up(f, y, 0).value) == f[y].parent;
    var p := f[y].parent.value;
    UpAdds(f, y, 1, n - 1);
    if n > 1 {
      ListedAll(f, x, listed, p, n - 1);
    }
    assert y in Children(f, p);
  }

  lemma Shift(listed: seq<string>, children: seq<string>, x: string, result: seq<string>, done: nat)
    requires listed == [x] + result && done < |listed|
    ensures listed + children == [x] + (result + children)
    ensures listed[done..][1..] + children == (listed + children)[done + 1..]
  {
  }

  /** A breadth-first listing without a visited set: in a forest it ends and lists each descendant once. */
  method DescendantsOf(f: Forest, x: string) returns (result: seq<string>)
    requires IsForest(f) && x in f
    ensures Enumerates(result, Descendants(f, x))
  {
    result := [];
    var pending := [x];
    ghost var listed, done := [x], 0;
    while pending != []
      invariant 0 <= done <= |listed| && pending == listed[done..] && listed == [x] + result
      invariant Listing(f, x, listed, done)
      decreases |f| - done
    {
      var parent := pending[0];
      var children := ChildrenOf(f, parent);
      ListChildren(f, x, listed, done, children);
      ListedFits(f, x, listed, done);
      Shift(listed, children, x, result, done);
      pending := pending[1..] + children;
      result := result + children;
      listed := listed + children;
      done := done + 1;
    }
    ListedExactly(f, x, result);
  }

  lemma ListedExactly(f: Forest, x: string, result: seq<string>)
    requires IsForest(f) && x in f && Listing(f, x, [x] + result, |result| + 1)
    ensures Enumerates(result, Descendants(f, x))
  {
    var listed := [x] + result;
    assert forall i :: 0 <= i < |result| ==> result[i] == listed[i + 1];
    forall y | y in Descendants(f, x) ensures y in result {
      var n :| n > 0 && Up(f, y, n) == Some(x);
      ListedAll(f, x, listed, y, n);
      assert y != x;
    }
  }

  lemma ListedFits(f: Forest, x: string, listed: seq<string>, done: nat)
    requires x in f && Listing(f, x, listed, done)
    ensures |listed| <= |f|
  {
    DistinctFitsIn(listed, f.Keys);
  }

  /** Climbs to the root and returns the path from there; a repeated or missing perimeter is an error. */
  method PathOf(f: Forest, x: string) returns (path: Result<seq<string>>)
    ensures x !in f ==> path.Error?
    ensures path.Ok? ==> IsPath(f, path.value) && path.value[|path.value| - 1] == x
    ensures IsForest(f) && x in f ==> path.Ok?
  {
    if x !in f {
      return Error("Perimeter not found");
    }
    var current, result, seen := x, [x], {x};
    while f[current].parent.Some?
      invariant current in f && result != [] && result[0] == current && result[|result| - 1] == x
      invariant forall i :: 0 <= i < |result| ==> result[i] in f
      invariant forall i :: 0 <= i < |result| - 1 ==> f[result[i + 1]].parent == Some(result[i])
      invariant seen <= f.Keys && current in seen
      invariant forall y :: y in seen ==> y == current || IsAncestor(f, current, y)
      decreases f.Keys - seen
    {
      var parent := f[current].parent.value;
      if parent in seen {
        ParentIsAncestor(f, current);
        if parent != current {
          AncestorsCompose(f, parent, current, parent);
        }
        assert !IsForest(f);
        return Error("Perimeter hierarchy contains a cycle");
      }
      if parent !in f {
        return Error("Perimeter not found");
      }
      forall y | y in seen ensures IsAncestor(f, parent, y) {
        ParentIsAncestor(f, current);
        if y != current {
          AncestorsCompose(f, parent, current, y);
        }
      }
      seen := seen + {parent};
      current := parent;
      result := [parent] + result;
    }
    return Ok(result);
  }

  lemma AncestorsCompose(f: Forest, a: string, b: string, x: string)
    requires IsAncestor(f, a, b) && IsAncestor(f, b, x)
    ensures IsAncestor(f, a, x)
  {
    var m :| m > 0 && Up(f, x, m) == Some(b);
    var n :| n > 0 && Up(f, b, n) == Some(a);
    UpAdds(f, x, m, n);
  }

  // ----- The scope of a campaign -----

  ghost predicate IsBelow(f: Forest, selected: set<string>, y: string) {
    exists s :: s in selected && IsAncestor(f, s, y)
  }

  /** The selected perimeters and everything below them. */
  ghost function Scope(f: Forest, selected: set<string>): set<string> {
    selected + set y | y in f && IsBelow(f, selected, y)
  }

  lemma ChildIsBelow(f: Forest, selected: set<string>, y: string)
    requires y in f && f[y].parent.Some? && f[y].parent.value in Scope(f, selected)
    ensures IsBelow(f, selected, y)
  {
    var p := f[y].parent.value;
    ParentIsAncestor(f, y);
    if p !in selected {
      var s :| s in selected && IsAncestor(f, s, p);
      AncestorsThroughParent(f, s, y);
    }
  }

  lemma {:induction false} ClosedHoldsScope(f: Forest, s: string, expanded: set<string>, y: string, n: nat)
    requires s in expanded && Up(f, y, n) == Some(s) && (n > 0 ==> y in f)
    requires forall z :: z in f && f[z].parent.Some? && f[z].parent.value in expanded ==> z in expanded
    ensures y in expanded
    decreases n
  {
    if n > 0 {
      UpIsDefinedBefore(f, y, 1, n);
      assert Up(f, y, 1) == ParentOf(f, Up(f, y, 0).value) == f[y].parent;
      UpAdds(f, y, 1, n - 1);
      var p := f[y].parent.value;
      if n > 1 {
        UpIsDefinedBefore(f, p, 1, n - 1);
        assert Up(f, p, 1) == ParentOf(f, Up(f, p, 0).value);
      }
      ClosedHoldsScope(f, s, expanded, p, n - 1);
    }
  }

  method ToSeq(items: set<string>) returns (list: seq<string>)
    ensures Enumerates(list, items)
  {
    list := [];
    var rest := items;
    while rest != {}
      invariant rest <= items && Enumerates(list, items - rest)
    {
      var x :| x in rest;
      list, rest := list + [x], rest - {x};
    }
  }

  /** The children of the queued perimeter that are not selected yet join the selection and the queue. */
  method SelectChildren(f: Forest, selected: set<string>, parent: string, expanded: set<string>, queue: seq<string>)
    returns (expanded': set<string>, queue': seq<string>)
    requires selected <= expanded <= Scope(f, selected) && parent in expanded
    ensures expanded <= expanded' <= Scope(f, selected) && queue <= queue'
         && (expanded' == expanded ==> queue' == queue)
    ensures forall y :: y in queue'[|queue|..] <==> y in expanded' && y !in expanded
    ensures forall y :: y in f && f[y].parent == Some(parent) ==> y in expanded'
  {
    expanded', queue' := expanded, queue;
    var items := f.Keys;
    while items != {}
      invariant items <= f.Keys && expanded <= expanded' <= Scope(f, selected)
      invariant queue <= queue' && (expanded' == expanded ==> queue' == queue)
      invariant forall y :: y in queue'[|queue|..] <==> y in expanded' && y !in expanded
      invariant forall y :: y in f && y !in items && f[y].parent == Some(parent) ==> y in expanded'
    {
      var y :| y in items;
      items := items - {y};
      if f[y].parent == Some(parent) && y !in expanded' {
        ChildIsBelow(f, selected, y);
        assert (queue' + [y])[|queue|..] == queue'[|queue|..] + [y];
        expanded' := expanded' + {y};
        queue' := queue' + [y];
      }
    }
  }

  /** Every child of an expanded perimeter is expanded, unless the perimeter is still queued. */
  ghost predicate IsClosedBut(f: Forest, expanded: set<string>, queue: seq<string>) {
    forall y :: y in f && f[y].parent.Some? && f[y].parent.value in expanded && f[y].parent.value !in queue ==>
      y in expanded
  }

  lemma StaysClosed(f: Forest, before: set<string>, expanded: set<string>, parent: string, rest: seq<string>,
                    queue: seq<string>)
    requires IsClosedBut(f, before, [parent] + rest) && before <= expanded && rest <= queue
    requires forall y :: y in queue[|rest|..] <==> y in expanded && y !in before
    requires forall y :: y in f && f[y].parent == Some(parent) ==> y in expanded
    ensures IsClosedBut(f, expanded, queue)
  {
    forall y | y in f && f[y].parent.Some? && f[y].parent.value in expanded && f[y].parent.value !in queue
      ensures y in expanded
    {
      var p := f[y].parent.value;
      assert p in queue[|rest|..] ==> p in queue;
      assert p in rest ==> p in queue;
      assert p == parent || p !in [parent] + rest;
    }
  }

  lemma ClosedIsScope(f: Forest, selected: set<string>, expanded: set<string>)
    requires selected <= expanded <= Scope(f, selected) && IsClosedBut(f, expanded, [])
    ensures expanded == Scope(f, selected)
  {
    forall y | y in f && IsBelow(f, selected, y) ensures y in expanded {
      var s :| s in selected && IsAncestor(f, s, y);
      var n :| n > 0 && Up(f, y, n) == Some(s);
      ClosedHoldsScope(f, s, expanded, y, n);
    }
  }

  /** Adds descendants through a queue; perimeters already selected are not queued again. */
  method ExpandSelection(f: Forest, selected: set<string>) returns (expanded: set<string>)
    ensures expanded == Scope(f, selected)
  {
    expanded := selected;
    var queue := ToSeq(selected);
    while queue != []
      invariant selected <= expanded <= Scope(f, selected)
      invariant forall q :: q in queue ==> q in expanded
      invariant IsClosedBut(f, expanded, queue)
      decreases Scope(f, selected) - expanded, |queue|
    {
      var parent, rest := queue[0], queue[1..];
      ghost var before := expanded;
      assert queue == [parent] + rest;
      expanded, queue := SelectChildren(f, selected, parent, expanded, rest);
      StaysClosed(f, before, expanded, parent, rest, queue);
      assert queue == rest + queue[|rest|..];
    }
    ClosedIsScope(f, selected, expanded);
  }

  // ----- The stored state -----

  lemma OnlyOne(rows: map<string, Association>, k: string)
    requires NoDuplicates(rows) && k in rows
    ensures rows - {k} == map l | l in rows && rows[l] != rows[k] :: rows[l]
  {
  }

  /** The new name has 1 to 200 characters, and the new parent exists and is neither the perimeter nor below it. */
  ghost predicate TellsChange(f: Forest, id: string, change: Change)
    requires id in f
  {
    var name := if change.name == None then f[id].name else change.name.value;
    var parent := if change.parent == None then f[id].parent else change.parent.value;
    && 0 < |name| <= 200
    && (parent == None || (parent.value in f && parent.value != id && !IsAncestor(f, id, parent.value)))
  }

  lemma ChangeIsAccepted(s: State, kind: Kind, id: string, change: Change)
    requires id in Table(s, kind)
    ensures Accepts(s, Update(kind, id, change)) <==> TellsChange(Table(s, kind), id, change)
  {
    var f, parent := Table(s, kind), Changed(Table(s, kind)[id], change).parent;
    if parent.Some? {
      assert Up(f, parent.value, 0) == Some(parent.value);
    }
  }

  /** It has no child, no association has it on the side of its kind, and no assignment names it. */
  predicate IsUnused(s: State, kind: Kind, id: string) {
    && (forall y :: y in Table(s, kind) ==> Table(s, kind)[y].parent != Some(id))
    && (forall k :: k in s.associations ==>
          id != if kind == Organization then s.associations[k].organizationId
                else s.associations[k].informationSystemId)
    && forall k :: k in s.assignments ==> s.assignments[k].scopeId != id
  }

  lemma UnusedMeansUnreferenced(s: State, kind: Kind, id: string)
    ensures IsUnused(s, kind, id) <==> !IsReferenced(s, kind, id)
  {
  }

  lemma DeletingIs(s: State, kind: Kind, id: string)
    requires Valid(s)
    ensures Valid(Next(s, Delete(kind, id)))
    ensures Accepts(s, Delete(kind, id)) <==> id in Table(s, kind) && IsUnused(s, kind, id)
    ensures Next(s, Delete(kind, id)) == if id in Table(s, kind) && IsUnused(s, kind, id)
                                         then WithTable(s, kind, Table(s, kind) - {id}) else s
  {
    NextKeepsValid(s, Delete(kind, id));
    UnusedMeansUnreferenced(s, kind, id);
  }

  lemma FreshIsNobodysAncestor(f: Forest, id: string, parent: Option<string>)
    requires IsForest(f) && id !in f
    ensures AcceptsParent(f, id, parent) <==> parent.None? || parent.value in f
  {
    if parent.Some? && parent.value in f {
      forall n: nat ensures Up(f, parent.value, n) != Some(id) {
        UpStaysInside(f, parent.value, n);
      }
    }
  }

  class Repository {
    var organizations: Forest
    var informationSystems: Forest
    var associations: map<string, Association>
    var assignments: map<string, ScopeAssignment>

    ghost function Contents(): State
      reads this
    {
      State(organizations, informationSystems, associations, assignments)
    }

    constructor ()
      ensures Contents() == EMPTY
    {
      organizations, informationSystems, associations, assignments := map[], map[], map[], map[];
    }

    function Rows(kind: Kind): Forest
      reads this
    {
      match kind
      case Organization => organizations
      case InformationSystem => informationSystems
    }

    method Upsert(kind: Kind, node: Node)
      modifies this
      ensures Contents() == WithTable(old(Contents()), kind, Table(old(Contents()), kind)[node.id := node])
    {
      match kind
      case Organization => organizations := organizations[node.id := node];
      case InformationSystem => informationSystems := informationSystems[node.id := node];
    }

    method CreatePerimeter(kind: Kind, id: string, name: string, parent: Option<string>, description: Option<string>,
                           active: bool)
      returns (row: Result<Node>)
      requires Valid(Contents()) && HasFreshId(Contents(), Create(kind, id, name, parent, description, active))
      modifies this
      ensures var op := Create(kind, id, name, parent, description, active);
              && Valid(Contents()) && Contents() == Next(old(Contents()), op)
              && (row.Ok? <==> Accepts(old(Contents()), op))
      ensures row.Ok? ==> Rows(kind)[id] == row.value == Node(id, name, parent, description, active)
      ensures row.Ok? <==> (0 < |name| <= 200 && (parent.None? || parent.value in old(Rows(kind))))
    {
      NextKeepsValid(Contents(), Create(kind, id, name, parent, description, active));
      FreshIsNobodysAncestor(Rows(kind), id, parent);
      if !GoodName(name) {
        return Error("Perimeter name must contain 1 to 200 characters");
      }
      if parent.Some? && parent.value !in Rows(kind) {
        return Error("Perimeter not found");
      }
      var accepted := AssertParent(Rows(kind), id, parent);
      if !accepted {
        return Error("Perimeter hierarchy cannot contain a cycle");
      }
      var node := Node(id, name, parent, description, active);
      Upsert(kind, node);
      return Ok(node);
    }

    method UpdatePerimeter(kind: Kind, id: string, change: Change) returns (row: Result<Node>)
      requires Valid(Contents())
      modifies this
      ensures Valid(Contents()) && Contents() == Next(old(Contents()), Update(kind, id, change))
      ensures row.Ok? <==> Accepts(old(Contents()), Update(kind, id, change))
      ensures row.Ok? ==> row.value == Changed(old(Rows(kind))[id], change)
      ensures row.Ok? <==> (id in old(Rows(kind)) && TellsChange(old(Rows(kind)), id, change))
      ensures row.Ok? ==>
                && id in Rows(kind) && Rows(kind)[id] == row.value && row.value.id == id
                && (change.name == None || row.value.name == change.name.value)
                && (change.name == None ==> row.value.name == old(Rows(kind))[id].name)
                && row.value.parent == (if change.parent == None then old(Rows(kind))[id].parent
                                        else change.parent.value)
                && row.value.description == (if change.description == None then old(Rows(kind))[id].description
                                             else change.description.value)
                && row.value.active == (if change.active == None then old(Rows(kind))[id].active
                                        else change.active.value)
    {
      NextKeepsValid(Contents(), Update(kind, id, change));
      if id !in Rows(kind) {
        return Error("Perimeter not found");
      }
      ChangeIsAccepted(Contents(), kind, id, change);
      var node := Changed(Rows(kind)[id], change);
      if node.parent.Some? && node.parent.value !in Rows(kind) {
        return Error("Perimeter not found");
      }
      var accepted := AssertParent(Rows(kind), id, node.parent);
      if !accepted {
        return Error("Perimeter hierarchy cannot contain a cycle");
      }
      if !GoodName(node.name) {
        return Error("Perimeter name must contain 1 to 200 characters");
      }
      Upsert(kind, node);
      return Ok(node);
    }

    /** The perimeter has children, associations or assignments. */
    method IsInUse(kind: Kind, id: string) returns (used: bool)
      ensures used <==> !IsUnused(Contents(), kind, id)
    {
      UnusedMeansUnreferenced(Contents(), kind, id);
      assert Rows(kind) == Table(Contents(), kind);
      if exists y :: y in Rows(kind) && Rows(kind)[y].parent == Some(id) {
        return true;
      }
      if exists k :: k in associations && SideOf(associations[k], kind) == id {
        return true;
      }
      return exists k :: k in assignments && assignments[k].scopeId == id;
    }

    method DeletePerimeter(kind: Kind, id: string) returns (deleted: bool)
      requires Valid(Contents())
      modifies this
      ensures Valid(Contents()) && Contents() == Next(old(Contents()), Delete(kind, id))
      ensures deleted <==> Accepts(old(Contents()), Delete(kind, id))
      ensures deleted <==> id in old(Rows(kind)) && old(IsUnused(Contents(), kind, id))
      ensures Rows(kind) == if deleted then old(Rows(kind)) - {id} else old(Rows(kind))
    {
      DeletingIs(Contents(), kind, id);
      var used := IsInUse(kind, id);
      if id !in Rows(kind) || used {
        return false;
      }
      match kind {
        case Organization => organizations := organizations - {id};
        case InformationSystem => informationSystems := informationSystems - {id};
      }
      return true;
    }

    method AssociatePerimeters(id: string, association: Association) returns (done: bool)
      requires Valid(Contents()) && HasFreshId(Contents(), Associate(id, association))
      modifies this
      ensures Valid(Contents()) && Contents() == Next(old(Contents()), Associate(id, association))
      ensures done <==> Accepts(old(Contents()), Associate(id, association))
      ensures done <==> (association.organizationId in organizations
                         && association.informationSystemId in informationSystems)
      ensures done ==> IsAssociated(Contents(), association)
    {
      NextKeepsValid(Contents(), Associate(id, association));
      if association.organizationId !in organizations || association.informationSystemId !in informationSystems {
        return false;
      }
      if exists k :: k in associations && associations[k] == association {
        return true;
      }
      associations := associations[id := association];
      assert associations[id] == association;
      return true;
    }

    method UnassociatePerimeters(association: Association) returns (removed: bool)
      requires Valid(Contents())
      modifies this
      ensures Valid(Contents()) && Contents() == Next(old(Contents()), Unassociate(association))
      ensures removed <==> IsAssociated(old(Contents()), association)
      ensures !IsAssociated(Contents(), association)
    {
      NextKeepsValid(Contents(), Unassociate(association));
      if k :| k in associations && associations[k] == association {
        OnlyOne(associations, k);
        associations := associations - {k};
        return true;
      }
      return false;
    }

    method AssignToPerimeter(id: string, assignment: ScopeAssignment) returns (done: bool)
      requires Valid(Contents()) && HasFreshId(Contents(), Assign(id, assignment))
      modifies this
      ensures Valid(Contents()) && Contents() == Next(old(Contents()), Assign(id, assignment))
      ensures done <==> Accepts(old(Contents()), Assign(id, assignment))
      ensures done <==> (assignment.scopeId in Rows(assignment.kind) && assignment.objectId != ""
                         && assignment.objectType in {"access", "target", "identity"})
      ensures done ==> IsAssigned(Contents(), assignment)
    {
      NextKeepsValid(Contents(), Assign(id, assignment));
      if assignment.objectType !in {"access", "target", "identity"} || assignment.objectId == ""
         || assignment.scopeId !in Rows(assignment.kind) {
        return false;
      }
      if exists k :: k in assignments && assignments[k] == assignment {
        return true;
      }
      assignments := assignments[id := assignment];
      assert assignments[id] == assignment;
      return true;
    }
  }
}
