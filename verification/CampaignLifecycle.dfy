/**
 * Campaigns, their review items, decisions and remediation actions, and the steps that change them: opening, deciding,
 * reassigning, closing, cancelling, deleting and following up. The web interface takes most of them, the command line
 * opens, decides and closes on the same rows with weaker checks. Each step is one function from state to state.
 */
module CampaignLifecycle {
  import opened Domain
  import opened Ordering
  import opened Reviews
  import opened CampaignDecisions

  datatype Status = Draft | Open | Closed | Cancelled

  datatype Campaign = Campaign(
    status: Status,
    defaultReviewer: Option<Ref>,
    manager: Option<Ref>,
    pilot: string,
    allowUnresolved: bool)

  datatype ActionKind = GrantAccess | RevokeAccess

  datatype Progress = Pending | Exported | Completed | NotCompleted

  /** A remediation action names its review item; it has no campaign of its own. */
  datatype Action = Action(reviewItemId: string, kind: ActionKind, progress: Progress, comment: string)

  datatype State = State(
    campaigns: map<string, Campaign>,
    items: map<string, ReviewItem>,
    decisions: seq<Decision>,
    actions: map<string, Action>)

  const EMPTY := State(map[], map[], [], map[])

  // ----- Opening -----

  datatype Row = Row(access: Ref, identity: Ref, expected: bool, observed: bool)

  /** What a campaign is opened with: comparison rows, the prepared snapshot, and fresh ids for the review items. */
  datatype Opening = Opening(
    rows: seq<Row>,
    relations: seq<Relation>,
    accesses: map<Ref, Access>,
    accountOwners: map<Ref, Ref>,
    appointed: map<Ref, Ref>,
    allow: Option<bool>,
    principal: string,
    ids: seq<string>)

  predicate StartsWith(text: string, prefix: string) {
    prefix <= text
  }

  function LinkedParents(relations: seq<Relation>): set<Ref> {
    set r | r in relations
         && (r.origin.composite || (StartsWith(r.parent.name, "group:") && StartsWith(r.child.name, "client:"))) ::
           r.parent
  }

  /** A linked group is reviewed through the role it leads to. */
  function Reviewable(o: Opening): seq<Row> {
    var linked := LinkedParents(o.relations);
    Filter((row: Row) => row.access !in linked, o.rows)
  }

  function Starting(c: Campaign, o: Opening): Campaign {
    c.(pilot := if c.pilot == "" then o.principal else c.pilot,
       allowUnresolved := if o.allow.Some? then o.allow.value else c.allowUnresolved)
  }

  function First(left: Option<Ref>, right: Option<Ref>): Option<Ref> {
    if left.Some? then left else right
  }

  function Find<T>(m: map<Ref, T>, ref: Ref): Option<T> {
    if ref in m then Some(m[ref]) else None
  }

  function Fallback(c: Campaign): Option<Ref> {
    if c.allowUnresolved then First(c.manager, Some(Ref("local", c.pilot))) else None
  }

  function ReviewerFor(row: Row, c: Campaign, o: Opening): Option<Ref> {
    var access := Find(o.accesses, row.access);
    First(if access.Some? then access.value.owner else None,
          First(Find(o.accountOwners, row.identity),
                First(if access.Some? then Find(o.appointed, row.access) else None,
                      First(c.defaultReviewer, First(c.manager, Fallback(c))))))
  }

  function NewItem(id: string, campaign: string, row: Row, c: Campaign, o: Opening): ReviewItem {
    var access := Find(o.accesses, row.access);
    ReviewItem(id, campaign, row.access, row.identity,
               if access.Some? then AccessNativeId(access.value) else None,
               if access.Some? then access.value.permission else None,
               row.expected, row.observed, ReviewerFor(row, c, o))
  }

  /** The command line names no fallback reviewer, whether unresolved reviewers are allowed or not. */
  function WithoutFallback(c: Campaign): Campaign {
    c.(allowUnresolved := false)
  }

  /** What the command line opens a campaign with: the stored snapshot, and nobody appointed for the occasion. */
  function Plain(o: Opening): Opening {
    o.(appointed := map[])
  }

  predicate AllHaveReviewer(c: Campaign, o: Opening) {
    forall row :: row in Reviewable(o) ==> ReviewerFor(row, c, o).Some?
  }

  predicate Resolves(c: Campaign, o: Opening) {
    c.allowUnresolved || forall row :: row in Reviewable(o) ==> ReviewerFor(row, c, o).Some?
  }

  /** The items that the first n rows give, by id. */
  function NewItems(campaign: string, c: Campaign, o: Opening, n: nat): map<string, ReviewItem>
    requires n <= |Reviewable(o)| && n <= |o.ids|
  {
    if n == 0 then map[]
    else NewItems(campaign, c, o, n - 1)[o.ids[n - 1] := NewItem(o.ids[n - 1], campaign, Reviewable(o)[n - 1], c, o)]
  }

  // ----- Items and what they demand -----

  function ItemsOf(s: State, campaign: string): set<string> {
    set i | i in s.items && s.items[i].campaignId == campaign
  }

  function OwnDecisions(s: State, campaign: string): seq<Decision> {
    OfItems(ItemsOf(s, campaign), Listing(s.decisions))
  }

  function Demand(item: ReviewItem, value: DecisionValue): Option<ActionKind> {
    match value
    case Revoke => Some(RevokeAccess)
    case Approve => if item.expected && !item.observed then Some(GrantAccess) else None
    case NotApplicable => None
  }

  /** What the decision that counts for a stored item asks the operators of the system to do. */
  function Demanded(s: State, i: string): Option<ActionKind>
    requires i in s.items
  {
    var counting := Counting(s.decisions, i);
    if counting.Some? then Demand(s.items[i], counting.value.value) else None
  }

  function Demanding(s: State, campaign: string): set<string> {
    set i | i in ItemsOf(s, campaign) && Demanded(s, i).Some?
  }

  /** One pending action for each demanding item, under the fresh id given for it. */
  function NewActions(s: State, campaign: string, ids: map<string, string>): map<string, Action>
    requires FreshActionIds(s, campaign, ids)
  {
    map i | i in Demanding(s, campaign) :: ids[i] := Action(i, Demanded(s, i).value, Pending, "")
  }

  predicate FreshActionIds(s: State, campaign: string, ids: map<string, string>) {
    && Demanding(s, campaign) <= ids.Keys
    && (forall i :: i in Demanding(s, campaign) ==> ids[i] !in s.actions)
    && (forall i, j :: i in Demanding(s, campaign) && j in Demanding(s, campaign) && ids[i] == ids[j] ==> i == j)
  }

  // ----- Reassigning -----

  predicate IsPendingOf(s: State, i: string, lower: string -> string, from: string)
    requires i in s.items
  {
    var item := s.items[i];
    && (if item.reviewer.Some? then lower(item.reviewer.value.name) else lower("")) == from
    && (forall d :: d in s.decisions ==> d.reviewItemId != i)
    && item.campaignId in s.campaigns && s.campaigns[item.campaignId].status == Open
  }

  function HandedOver(item: ReviewItem, to: string): ReviewItem {
    var provider := if item.reviewer.Some? && item.reviewer.value.provider != "" then item.reviewer.value.provider
                    else item.identity.provider;
    item.(reviewer := Some(Ref(provider, to)))
  }

  function Reassigned(s: State, lower: string -> string, from: string, to: string): map<string, ReviewItem> {
    map i | i in s.items :: if IsPendingOf(s, i, lower, from) then HandedOver(s.items[i], to) else s.items[i]
  }

  // ----- Steps -----

  datatype Event =
    | Create(id: string, details: Campaign)
    | Edit(id: string, details: Campaign)
    | OpenUp(id: string, opening: Opening)
    | Decide(decision: Decision)
    | Reassign(lower: string -> string, from: string, to: string)
    | Close(id: string, actionIds: map<string, string>)
    | Cancel(id: string)
    | Delete(id: string)
    | SetProgress(actionId: string, progress: Progress, comment: string)
    | Promote(id: string)
    | CliOpen(id: string, opening: Opening)
    | CliDecide(decision: Decision)
    | CliClose(id: string)

  predicate Has(s: State, id: string, status: Status) {
    id in s.campaigns && s.campaigns[id].status == status
  }

  ghost predicate FreshItemIds(s: State, o: Opening) {
    && |o.ids| == |Reviewable(o)| && Distinct(o.ids)
    && (forall k :: 0 <= k < |o.ids| ==> o.ids[k] !in s.items)
    && (forall k, a :: 0 <= k < |o.ids| && a in s.actions ==> s.actions[a].reviewItemId != o.ids[k])
  }

  /** New rows get ids that were never used. */
  ghost predicate HasFreshIds(s: State, e: Event) {
    match e
    case Create(id, _) => id !in s.campaigns
    case OpenUp(_, o) => FreshItemIds(s, o)
    case CliOpen(_, o) => FreshItemIds(s, Plain(o))
    case Close(id, actionIds) => FreshActionIds(s, id, actionIds)
    case _ => true
  }

  ghost predicate Accepts(s: State, e: Event) {
    match e
    case Create(_, _) => true
    case Edit(id, _) => Has(s, id, Draft)
    case OpenUp(id, o) => Has(s, id, Draft) && Resolves(Starting(s.campaigns[id], o), o)
    case Decide(d) =>
      && d.reviewItemId in s.items && Has(s, s.items[d.reviewItemId].campaignId, Open)
      && (d.value == Approve || d.comment != "")
    case Reassign(_, from, to) => to != "" && to != from
    case Close(id, _) => Has(s, id, Open) && AllCounted(s, id)
    case Cancel(id) => Has(s, id, Draft)
    case Delete(id) => id in s.campaigns
    case SetProgress(a, progress, comment) =>
      a in s.actions && |comment| <= 4000 && (progress == NotCompleted ==> comment != "")
    case Promote(id) => Has(s, id, Closed)
    case CliOpen(id, o) =>
      && Has(s, id, Draft)
      && (s.campaigns[id].allowUnresolved || AllHaveReviewer(WithoutFallback(s.campaigns[id]), Plain(o)))
    case CliDecide(d) =>
      && d.reviewItemId in s.items && s.items[d.reviewItemId].campaignId in s.campaigns
      && (d.value == Approve || d.comment != "")
    case CliClose(id) => id in s.campaigns && AllCounted(s, id)
  }

  predicate AllCounted(s: State, id: string) {
    forall i :: i in ItemsOf(s, id) ==> Counting(s.decisions, i).Some?
  }

  /** The campaign is open, with the items that its rows give. */
  function Opened(s: State, id: string, c: Campaign, asked: Campaign, o: Opening): State
    requires |o.ids| == |Reviewable(o)|
  {
    s.(campaigns := s.campaigns[id := c.(status := Open)], items := s.items + NewItems(id, asked, o, |o.ids|))
  }

  function WithStatus(s: State, id: string, status: Status): State
    requires id in s.campaigns
  {
    s.(campaigns := s.campaigns[id := s.campaigns[id].(status := status)])
  }

  /**
   * The state after the step; a refused step changes nothing. Deleting looks for actions by a campaign that they lack,
   * and closing from the command line creates none.
   */
  ghost function Next(s: State, e: Event): State
    requires HasFreshIds(s, e)
  {
    if !Accepts(s, e) then s
    else match e
      case Create(id, details) => s.(campaigns := s.campaigns[id := details.(status := Draft)])
      case Edit(id, details) => s.(campaigns := s.campaigns[id := details.(status := Draft)])
      case OpenUp(id, o) =>
        var c := Starting(s.campaigns[id], o);
        Opened(s, id, c, c, o)
      case Decide(d) => s.(decisions := s.decisions + [d])
      case Reassign(lower, from, to) => s.(items := Reassigned(s, lower, from, to))
      case Close(id, actionIds) => WithStatus(s, id, Closed).(actions := s.actions + NewActions(s, id, actionIds))
      case Cancel(id) => WithStatus(s, id, Cancelled)
      case Delete(id) =>
        s.(campaigns := s.campaigns - {id}, items := s.items - ItemsOf(s, id),
           decisions := NotOfItems(ItemsOf(s, id), s.decisions))
      case SetProgress(a, progress, comment) =>
        s.(actions := s.actions[a := s.actions[a].(progress := progress, comment := comment)])
      case Promote(_) => s
      case CliOpen(id, o) => Opened(s, id, s.campaigns[id], WithoutFallback(s.campaigns[id]), Plain(o))
      case CliDecide(d) => s.(decisions := s.decisions + [d])
      case CliClose(id) => WithStatus(s, id, Closed)
  }

  // ----- The invariant -----

  function ActionsFor(s: State, i: string): set<string> {
    set a | a in s.actions && s.actions[a].reviewItemId == i
  }

  /** The actions for an item: one of this kind, or none. */
  ghost predicate HasAction(s: State, i: string, kind: Option<ActionKind>) {
    match kind
    case None => ActionsFor(s, i) == {}
    case Some(kind) => exists a :: a in s.actions && ActionsFor(s, i) == {a} && s.actions[a].kind == kind
  }

  /** The item has the action that the decisions on it demand, and no other. */
  ghost predicate IsServed(s: State, i: string)
    requires i in s.items
  {
    HasAction(s, i, Demanded(s, i))
  }

  /**
   * What a decision with this value orders for the item: one action that revokes the access if it revokes, one that
   * grants it if it approves an access that is expected and was not observed, and otherwise none.
   */
  ghost predicate IsOrdered(s: State, i: string, value: DecisionValue)
    requires i in s.items
  {
    var own := set a | a in s.actions && s.actions[a].reviewItemId == i;
    if value == Revoke then exists a :: own == {a} && s.actions[a].kind == RevokeAccess
    else if value == Approve && s.items[i].expected && !s.items[i].observed
    then exists a :: own == {a} && s.actions[a].kind == GrantAccess
    else own == {}
  }

  lemma ServedMeansOrdered(s: State, i: string)
    requires i in s.items && Counting(s.decisions, i).Some?
    ensures IsServed(s, i) <==> IsOrdered(s, i, Counting(s.decisions, i).value.value)
  {
    assert ActionsFor(s, i) == set a | a in s.actions && s.actions[a].reviewItemId == i;
    if a :| ActionsFor(s, i) == {a} {
      assert a in ActionsFor(s, i);
    }
  }

  /** Items belong to open campaigns, which have no actions yet, or to closed ones, which are decided. */
  ghost predicate IsSound(s: State, i: string)
    requires i in s.items
  {
    var item := s.items[i];
    && item.id == i && item.campaignId in s.campaigns
    && match s.campaigns[item.campaignId].status
       case Open => ActionsFor(s, i) == {}
       case Closed => Counting(s.decisions, i).Some?
       case _ => false
  }

  /** Every item is sound, and every decision is on a stored item. */
  ghost predicate Valid(s: State) {
    && (forall i :: i in s.items ==> IsSound(s, i))
    && (forall d :: d in s.decisions ==> d.reviewItemId in s.items)
  }

  /** Every item of a closed campaign is served. */
  ghost predicate ClosedAreServed(s: State) {
    forall i :: i in s.items && Has(s, s.items[i].campaignId, Closed) ==> IsServed(s, i)
  }

  ghost predicate AllReviewed(s: State) {
    forall i :: i in s.items ==> s.items[i].reviewer.Some?
  }

  /**
   * From s to t nothing that matters for the item has changed: at most its reviewer and the progress of its actions.
   */
  ghost predicate IsKept(s: State, t: State, i: string)
    requires i in s.items
  {
    && i in t.items && t.items[i] == s.items[i].(reviewer := t.items[i].reviewer)
    && (s.items[i].reviewer.Some? ==> t.items[i].reviewer.Some?)
    && s.items[i].campaignId in s.campaigns && s.items[i].campaignId in t.campaigns
    && t.campaigns[s.items[i].campaignId].status == s.campaigns[s.items[i].campaignId].status
    && Own(i, t.decisions) == Own(i, s.decisions)
    && ActionsFor(t, i) == ActionsFor(s, i)
    && forall a :: a in ActionsFor(s, i) ==> t.actions[a].kind == s.actions[a].kind
  }

  lemma KeptStaysSound(s: State, t: State, i: string)
    requires i in s.items && IsSound(s, i) && IsKept(s, t, i)
    ensures IsSound(t, i) && (IsServed(t, i) <==> IsServed(s, i))
  {
    assert Demanded(t, i) == Demanded(s, i);
    if a :| a in s.actions && ActionsFor(s, i) == {a} {
      assert a in ActionsFor(t, i) && t.actions[a].kind == s.actions[a].kind;
    }
    assert ActionsFor(t, i) == ActionsFor(s, i);
    forall a | a in t.actions && ActionsFor(t, i) == {a}
      ensures a in s.actions && t.actions[a].kind == s.actions[a].kind
    {
      assert a in ActionsFor(s, i);
    }
  }

  lemma NewItemsKeys(campaign: string, c: Campaign, o: Opening, n: nat)
    requires n <= |Reviewable(o)| && n <= |o.ids|
    ensures forall i :: i in NewItems(campaign, c, o, n) <==> i in o.ids[..n]
  {
    if n > 0 {
      NewItemsKeys(campaign, c, o, n - 1);
      assert o.ids[..n] == o.ids[..n - 1] + [o.ids[n - 1]];
    }
  }

  lemma NewItemIs(campaign: string, c: Campaign, o: Opening, n: nat, k: nat)
    requires k < n <= |Reviewable(o)| && n <= |o.ids| && Distinct(o.ids)
    ensures o.ids[k] in NewItems(campaign, c, o, n)
    ensures NewItems(campaign, c, o, n)[o.ids[k]] == NewItem(o.ids[k], campaign, Reviewable(o)[k], c, o)
  {
    if k < n - 1 {
      NewItemIs(campaign, c, o, n - 1, k);
    }
  }

  lemma NewItemsAre(campaign: string, c: Campaign, o: Opening, n: nat)
    requires n <= |Reviewable(o)| && n <= |o.ids| && Distinct(o.ids)
    ensures forall i :: i in NewItems(campaign, c, o, n) <==> i in o.ids[..n]
    ensures forall k :: 0 <= k < n ==>
              o.ids[k] in NewItems(campaign, c, o, n)
              && NewItems(campaign, c, o, n)[o.ids[k]] == NewItem(o.ids[k], campaign, Reviewable(o)[k], c, o)
  {
    NewItemsKeys(campaign, c, o, n);
    forall k | 0 <= k < n
      ensures o.ids[k] in NewItems(campaign, c, o, n)
      ensures NewItems(campaign, c, o, n)[o.ids[k]] == NewItem(o.ids[k], campaign, Reviewable(o)[k], c, o)
    {
      NewItemIs(campaign, c, o, n, k);
    }
  }
}
