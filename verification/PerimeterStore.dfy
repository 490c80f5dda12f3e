/** The stored perimeters, their associations and assignments, and the operations on them. */
module PerimeterStore {
  import opened Domain
  import opened PerimeterForest

  datatype Kind = Organization | InformationSystem

  datatype Association = Association(organizationId: string, informationSystemId: string)

  datatype ScopeAssignment = ScopeAssignment(kind: Kind, scopeId: string, objectType: string, objectId: string)

  datatype State = State(
    organizations: Forest,
    informationSystems: Forest,
    associations: map<string, Association>,
    assignments: map<string, ScopeAssignment>)

  function Table(s: State, kind: Kind): Forest {
    match kind
    case Organization => s.organizations
    case InformationSystem => s.informationSystems
  }

  function WithTable(s: State, kind: Kind, f: Forest): State {
    match kind
    case Organization => s.(organizations := f)
    case InformationSystem => s.(informationSystems := f)
  }

  ghost predicate AssociationsExist(s: State) {
    forall k :: k in s.associations ==>
      s.associations[k].organizationId in s.organizations
      && s.associations[k].informationSystemId in s.informationSystems
  }

  ghost predicate AssignmentsExist(s: State) {
    forall k :: k in s.assignments ==> s.assignments[k].scopeId in Table(s, s.assignments[k].kind)
  }

  ghost predicate NoDuplicates<T(!new)>(rows: map<string, T>) {
    forall k, l :: k in rows && l in rows && rows[k] == rows[l] ==> k == l
  }

  /** Both kinds are forests, every link refers to stored perimeters, and no link is stored twice. */
  ghost predicate Valid(s: State) {
    && IsForest(s.organizations) && IsForest(s.informationSystems)
    && AssociationsExist(s) && AssignmentsExist(s) && NoDuplicates(s.associations) && NoDuplicates(s.assignments)
  }

  /** What a request may change; None leaves the stored value. Names are texts without surrounding blanks. */
  datatype Change = Change(name: Option<string>, parent: Option<Option<string>>, description: Option<Option<string>>,
                           active: Option<bool>)

  datatype Operation =
    | Create(kind: Kind, id: string, name: string, parent: Option<string>, description: Option<string>, active: bool)
    | Update(kind: Kind, id: string, change: Change)
    | Delete(kind: Kind, id: string)
    | Associate(id: string, association: Association)
    | Unassociate(association: Association)
    | Assign(id: string, assignment: ScopeAssignment)
    | Unassign(id: string)

  predicate GoodName(name: string) {
    0 < |name| <= 200
  }

  function GetOr<T>(value: Option<T>, otherwise: T): T {
    if value.Some? then value.value else otherwise
  }

  function Changed(node: Node, change: Change): Node {
    Node(node.id, GetOr(change.name, node.name), GetOr(change.parent, node.parent),
         GetOr(change.description, node.description), GetOr(change.active, node.active))
  }

  function SideOf(a: Association, kind: Kind): string {
    if kind == Organization then a.organizationId else a.informationSystemId
  }

  predicate IsReferenced(s: State, kind: Kind, id: string) {
    || (exists y :: y in Table(s, kind) && Table(s, kind)[y].parent == Some(id))
    || (exists k :: k in s.associations && SideOf(s.associations[k], kind) == id)
    || (exists k :: k in s.assignments && s.assignments[k].scopeId == id)
  }

  predicate IsAssociated(s: State, association: Association) {
    exists k :: k in s.associations && s.associations[k] == association
  }

  predicate IsAssigned(s: State, assignment: ScopeAssignment) {
    exists k :: k in s.assignments && s.assignments[k] == assignment
  }

  /** The operation is carried out; otherwise it is refused, or finds nothing to do. */
  ghost predicate Accepts(s: State, op: Operation) {
    match op
    case Create(kind, id, name, parent, _, _) => GoodName(name) && AcceptsParent(Table(s, kind), id, parent)
    case Update(kind, id, change) =>
      && id in Table(s, kind)
      && var node := Changed(Table(s, kind)[id], change);
         GoodName(node.name) && AcceptsParent(Table(s, kind), id, node.parent)
    case Delete(kind, id) => id in Table(s, kind) && !IsReferenced(s, kind, id)
    case Associate(_, a) => a.organizationId in s.organizations && a.informationSystemId in s.informationSystems
    case Unassociate(a) => IsAssociated(s, a)
    case Assign(_, a) =>
      a.scopeId in Table(s, a.kind) && a.objectType in {"access", "target", "identity"} && a.objectId != ""
    case Unassign(id) => id in s.assignments
  }

  /** The state after the operation; a refused operation changes nothing. */
  ghost function Next(s: State, op: Operation): State {
    if !Accepts(s, op) then s
    else match op
      case Create(kind, id, name, parent, description, active) =>
        WithTable(s, kind, Table(s, kind)[id := Node(id, name, parent, description, active)])
      case Update(kind, id, change) =>
        WithTable(s, kind, Table(s, kind)[id := Changed(Table(s, kind)[id], change)])
      case Delete(kind, id) => WithTable(s, kind, Table(s, kind) - {id})
      case Associate(id, a) => if IsAssociated(s, a) then s else s.(associations := s.associations[id := a])
      case Unassociate(a) =>
        s.(associations := map k | k in s.associations && s.associations[k] != a :: s.associations[k])
      case Assign(id, a) => if IsAssigned(s, a) then s else s.(assignments := s.assignments[id := a])
      case Unassign(id) => s.(assignments := s.assignments - {id})
  }

  /** New rows get ids that no row has. */
  predicate HasFreshId(s: State, op: Operation) {
    match op
    case Create(kind, id, _, _, _, _) => id !in s.organizations && id !in s.informationSystems
    case Associate(id, _) => id !in s.associations
    case Assign(id, _) => id !in s.assignments
    case _ => true
  }

  lemma WritingKeepsValid(s: State, kind: Kind, node: Node)
    requires Valid(s) && AcceptsParent(Table(s, kind), node.id, node.parent)
    ensures Valid(WithTable(s, kind, Table(s, kind)[node.id := node]))
  {
    WritingKeepsForest(Table(s, kind), node);
  }

  lemma DeletingKeepsValid(s: State, kind: Kind, id: string)
    requires Valid(s) && id in Table(s, kind) && !IsReferenced(s, kind, id)
    ensures Valid(WithTable(s, kind, Table(s, kind) - {id}))
  {
    var t := WithTable(s, kind, Table(s, kind) - {id});
    DeletingKeepsForest(Table(s, kind), id);
    assert AssociationsExist(t);
    assert AssignmentsExist(t);
  }

  lemma OneMoreIsNoDuplicate<T(!new)>(rows: map<string, T>, id: string, row: T)
    requires NoDuplicates(rows) && forall k :: k in rows ==> rows[k] != row
    ensures NoDuplicates(rows[id := row])
  {
  }

  lemma FewerAreNoDuplicates<T(!new)>(rows: map<string, T>, rest: map<string, T>)
    requires NoDuplicates(rows) && forall k :: k in rest ==> k in rows && rest[k] == rows[k]
    ensures NoDuplicates(rest)
  {
  }

  lemma AssociatingKeepsValid(s: State, id: string, a: Association)
    requires Valid(s) && id !in s.associations && !IsAssociated(s, a)
    requires a.organizationId in s.organizations && a.informationSystemId in s.informationSystems
    ensures Valid(s.(associations := s.associations[id := a]))
  {
    OneMoreIsNoDuplicate(s.associations, id, a);
  }

  lemma AssigningKeepsValid(s: State, id: string, a: ScopeAssignment)
    requires Valid(s) && id !in s.assignments && !IsAssigned(s, a) && a.scopeId in Table(s, a.kind)
    ensures Valid(s.(assignments := s.assignments[id := a]))
  {
    OneMoreIsNoDuplicate(s.assignments, id, a);
  }

  lemma UnassociatingKeepsValid(s: State, rest: map<string, Association>)
    requires Valid(s) && forall k :: k in rest ==> k in s.associations && rest[k] == s.associations[k]
    ensures Valid(s.(associations := rest))
  {
    FewerAreNoDuplicates(s.associations, rest);
  }

  lemma UnassigningKeepsValid(s: State, rest: map<string, ScopeAssignment>)
    requires Valid(s) && forall k :: k in rest ==> k in s.assignments && rest[k] == s.assignments[k]
    ensures Valid(s.(assignments := rest))
  {
    FewerAreNoDuplicates(s.assignments, rest);
  }

  /** Every operation keeps the store valid. */
  lemma NextKeepsValid(s: State, op: Operation)
    requires Valid(s) && HasFreshId(s, op)
    ensures Valid(Next(s, op))
  {
    if Accepts(s, op) {
      match op
      case Create(kind, id, name, parent, description, active) =>
        WritingKeepsValid(s, kind, Node(id, name, parent, description, active));
      case Update(kind, id, change) =>
        WritingKeepsValid(s, kind, Changed(Table(s, kind)[id], change));
      case Delete(kind, id) => DeletingKeepsValid(s, kind, id);
      case Associate(id, a) =>
        if !IsAssociated(s, a) {
          AssociatingKeepsValid(s, id, a);
        }
      case Unassociate(a) => UnassociatingKeepsValid(s, Next(s, op).associations);
      case Assign(id, a) =>
        if !IsAssigned(s, a) {
          AssigningKeepsValid(s, id, a);
        }
      case Unassign(_) => UnassigningKeepsValid(s, Next(s, op).assignments);
    }
  }

  ghost predicate FreshIds(s: State, run: seq<Operation>)
    decreases |run|
  {
    run == [] || (HasFreshId(s, run[0]) && FreshIds(Next(s, run[0]), run[1..]))
  }

  ghost function After(s: State, run: seq<Operation>): State
    decreases |run|
  {
    if run == [] then s else After(Next(s, run[0]), run[1..])
  }

  const EMPTY := State(map[], map[], map[], map[])

  lemma {:induction false} RunKeepsValid(s: State, run: seq<Operation>)
    requires Valid(s) && FreshIds(s, run)
    ensures Valid(After(s, run))
    decreases |run|
  {
    if run != [] {
      NextKeepsValid(s, run[0]);
      RunKeepsValid(Next(s, run[0]), run[1..]);
    }
  }

  /** In every reachable state parents exist, no perimeter is above itself and no reference dangles. */
  lemma ReachableStatesAreValid(run: seq<Operation>)
    requires FreshIds(EMPTY, run)
    ensures Valid(After(EMPTY, run))
  {
    RunKeepsValid(EMPTY, run);
  }

  /** A reference to a perimeter that is taken away dangles, whichever kind of reference it is. */
  lemma DeletingReferencedBreaks(s: State, kind: Kind, id: string)
    requires Valid(s) && id in Table(s, kind) && IsReferenced(s, kind, id)
    requires id !in Table(s, if kind == Organization then InformationSystem else Organization)
    ensures !Valid(WithTable(s, kind, Table(s, kind) - {id}))
  {
    var t := WithTable(s, kind, Table(s, kind) - {id});
    DeletingKeepsForest(Table(s, kind), id);
    if k :| k in s.assignments && s.assignments[k].scopeId == id {
      assert k in t.assignments && s.assignments[k].kind == kind;
      assert !AssignmentsExist(t);
    } else if k :| k in s.associations && SideOf(s.associations[k], kind) == id {
      assert k in t.associations;
      assert !AssociationsExist(t);
    }
  }
}
