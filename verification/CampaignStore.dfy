/**
 * The campaign endpoints, and the campaign commands of the command line, as they are carried out on the stored rows,
 * loops included.
 */
module CampaignStore {
  import opened Domain
  import opened Ordering
  import opened Reviews
  import opened CampaignDecisions
  import opened CampaignLifecycle
  import opened CampaignTheorems

  method ReviewableRows(o: Opening) returns (rows: seq<Row>)
    ensures rows == Reviewable(o)
  {
    var linked := LinkedParents(o.relations);
    rows := Filter((row: Row) => row.access !in linked, o.rows);
  }

  /** One review item for each reviewable row, in order, or nothing when a reviewer is missing that must not be. */
  method OpenItems(id: string, c: Campaign, allowed: bool, o: Opening) returns (items: Result<seq<ReviewItem>>)
    requires |o.ids| == |Reviewable(o)|
    ensures items.Ok? <==> allowed || forall row :: row in o.rows && row.access !in LinkedParents(o.relations) ==>
                                        ReviewerFor(row, c, o).Some?
    ensures items.Ok? ==> |items.value| == |o.ids| && forall k :: 0 <= k < |o.ids| ==>
              items.value[k] == NewItem(o.ids[k], id, Reviewable(o)[k], c, o)
  {
    var rows := ReviewableRows(o);
    ReviewableAre(o);
    var made: seq<ReviewItem> := [];
    for k := 0 to |rows|
      invariant |made| == k
      invariant allowed || forall j :: 0 <= j < k ==> ReviewerFor(rows[j], c, o).Some?
      invariant forall j :: 0 <= j < k ==> made[j] == NewItem(o.ids[j], id, rows[j], c, o)
    {
      var reviewer := ReviewerFor(rows[k], c, o);
      if reviewer.None? && !allowed {
        assert rows[k] in rows;
        return Error("Campaign has review items without resolvable reviewer");
      }
      made := made + [NewItem(o.ids[k], id, rows[k], c, o)];
    }
    return Ok(made);
  }

  predicate Asks(items: map<string, ReviewItem>, latest: map<string, Decision>, i: string) {
    && i in latest && i in items
    && (latest[i].value == Revoke || (latest[i].value == Approve && items[i].expected && !items[i].observed))
  }

  /** An action for each decided item that revokes an access, or approves one that is expected and was not observed. */
  method RemediationFromDecisions(items: map<string, ReviewItem>, latest: map<string, Decision>,
                                  actionIds: map<string, string>)
    returns (actions: map<string, Action>)
    requires latest.Keys <= items.Keys
    requires forall i :: Asks(items, latest, i) ==> i in actionIds
    requires forall i, j :: Asks(items, latest, i) && Asks(items, latest, j) && actionIds[i] == actionIds[j] ==> i == j
    ensures forall i :: Asks(items, latest, i) ==>
              && actionIds[i] in actions
              && actions[actionIds[i]]
                 == Action(i, if latest[i].value == Revoke then RevokeAccess else GrantAccess, Pending, "")
    ensures forall a :: a in actions ==>
              exists i :: Asks(items, latest, i) && a == actionIds[i]
  {
    actions := map[];
    var rest := latest.Keys;
    while rest != {}
      invariant rest <= latest.Keys
      invariant forall i :: i !in rest && Asks(items, latest, i) ==>
                  && actionIds[i] in actions
                  && actions[actionIds[i]]
                     == Action(i, if latest[i].value == Revoke then RevokeAccess else GrantAccess, Pending, "")
      invariant forall a :: a in actions ==>
                  exists i :: i !in rest && Asks(items, latest, i) && a == actionIds[i]
    {
      var i :| i in rest;
      rest := rest - {i};
      if latest[i].value == Revoke {
        actions := actions[actionIds[i] := Action(i, RevokeAccess, Pending, "")];
      } else if latest[i].value == Approve && items[i].expected && !items[i].observed {
        actions := actions[actionIds[i] := Action(i, GrantAccess, Pending, "")];
      }
    }
  }

  lemma AddedSize<K, V>(left: map<K, V>, right: map<K, V>)
    requires left.Keys !! right.Keys
    ensures |left + right| == |left| + |right|
  {
    assert (left + right).Keys == left.Keys + right.Keys;
  }

  /** The decisions listed for the campaign ask for what is demanded of its items. */
  lemma AsksAreDemands(s: State, id: string, latest: map<string, Decision>)
    requires latest == LatestDecisions(OwnDecisions(s, id))
    ensures latest.Keys <= s.items.Keys
    ensures forall i :: Asks(s.items, latest, i) <==> i in Demanding(s, id)
    ensures forall i :: Asks(s.items, latest, i) ==>
              Demanded(s, i) == Some(if latest[i].value == Revoke then RevokeAccess else GrantAccess)
  {
    CountingBelongs(s, id);
    forall i ensures Asks(s.items, latest, i) <==> i in Demanding(s, id) {
      assert i in latest ==> i in ItemsOf(s, id);
    }
  }

  lemma CreatedAreNew(s: State, id: string, latest: map<string, Decision>, actionIds: map<string, string>,
                      created: map<string, Action>)
    requires FreshActionIds(s, id, actionIds) && latest == LatestDecisions(OwnDecisions(s, id))
    requires forall i :: Asks(s.items, latest, i) ==>
               && i in actionIds && actionIds[i] in created
               && created[actionIds[i]]
                  == Action(i, if latest[i].value == Revoke then RevokeAccess else GrantAccess, Pending, "")
    requires forall a :: a in created ==> exists i :: Asks(s.items, latest, i) && i in actionIds && a == actionIds[i]
    ensures created == NewActions(s, id, actionIds) && created.Keys !! s.actions.Keys
  {
    AsksAreDemands(s, id, latest);
    forall a ensures a in created <==> a in NewActions(s, id, actionIds) {
      if i :| i in Demanding(s, id) && a == actionIds[i] {
        assert Asks(s.items, latest, i);
      }
    }
    forall a | a in created ensures created[a] == NewActions(s, id, actionIds)[a] && a !in s.actions {
      var i :| Asks(s.items, latest, i) && a == actionIds[i];
      assert i in Demanding(s, id);
    }
  }

  lemma ClosingIs(s: State, id: string, actionIds: map<string, string>)
    requires Valid(s) && HasFreshIds(s, Close(id, actionIds))
    ensures Valid(Next(s, Close(id, actionIds)))
    ensures Accepts(s, Close(id, actionIds))
       <==> Has(s, id, Open) && forall i :: i in ItemsOf(s, id) ==> Counting(s.decisions, i).Some?
    ensures Next(s, Close(id, actionIds))
         == if !Accepts(s, Close(id, actionIds)) then s
            else State(s.campaigns[id := s.campaigns[id].(status := Closed)], s.items, s.decisions,
                       s.actions + NewActions(s, id, actionIds))
  {
    NextKeepsValid(s, Close(id, actionIds));
  }

  lemma OpeningIs(s: State, id: string, o: Opening)
    requires Valid(s) && HasFreshIds(s, OpenUp(id, o))
    ensures Valid(Next(s, OpenUp(id, o)))
    ensures Accepts(s, OpenUp(id, o)) <==>
              && Has(s, id, Draft)
              && (var c := Starting(s.campaigns[id], o);
                  c.allowUnresolved || forall row :: row in o.rows && row.access !in LinkedParents(o.relations) ==>
                                         ReviewerFor(row, c, o).Some?)
    ensures Accepts(s, OpenUp(id, o)) ==>
              var c := Starting(s.campaigns[id], o);
              Next(s, OpenUp(id, o)) == Opened(s, id, c, c, o)
  {
    NextKeepsValid(s, OpenUp(id, o));
    ReviewableAre(o);
  }

  lemma CliOpeningIs(s: State, id: string, o: Opening)
    requires Valid(s) && HasFreshIds(s, CliOpen(id, o))
    ensures Valid(Next(s, CliOpen(id, o))) && Reviewable(Plain(o)) == Reviewable(o)
    ensures Accepts(s, CliOpen(id, o)) <==>
              && Has(s, id, Draft)
              && (s.campaigns[id].allowUnresolved
                  || forall row :: row in o.rows && row.access !in LinkedParents(o.relations) ==>
                       ReviewerFor(row, WithoutFallback(s.campaigns[id]), Plain(o)).Some?)
    ensures Accepts(s, CliOpen(id, o)) ==>
              Next(s, CliOpen(id, o))
              == Opened(s, id, s.campaigns[id], WithoutFallback(s.campaigns[id]), Plain(o))
  {
    NextKeepsValid(s, CliOpen(id, o));
    ReviewableAre(o);
  }

  /** The listing of the campaign has a latest decision for exactly the items that were decided. */
  lemma DecidedAreListed(s: State, id: string)
    ensures AllCounted(s, id)
       <==> forall i :: i in s.items && s.items[i].campaignId == id ==>
              exists d :: d in s.decisions && d.reviewItemId == i
  {
    forall i | i in s.items && s.items[i].campaignId == id
      ensures i in ItemsOf(s, id)
      ensures Counting(s.decisions, i).Some? <==> exists d :: d in s.decisions && d.reviewItemId == i
    {
      CountingMeansDecided(s.decisions, i);
    }
  }

  /** Every item of the campaign is decided and has exactly the action that the decision which counts orders. */
  ghost predicate OrdersAsDecided(s: State, id: string) {
    forall i :: i in s.items && s.items[i].campaignId == id ==>
      Counting(s.decisions, i).Some? && IsOrdered(s, i, Counting(s.decisions, i).value.value)
  }

  lemma ClosingOrders(s: State, id: string, actionIds: map<string, string>)
    requires Valid(s) && HasFreshIds(s, Close(id, actionIds))
    ensures Accepts(s, Close(id, actionIds))
       <==> (Has(s, id, Open) && forall i :: i in s.items && s.items[i].campaignId == id ==>
                                   exists d :: d in s.decisions && d.reviewItemId == i)
    ensures Accepts(s, Close(id, actionIds)) ==> OrdersAsDecided(Next(s, Close(id, actionIds)), id)
  {
    DecidedAreListed(s, id);
    if Accepts(s, Close(id, actionIds)) {
      forall i | i in ItemsOf(s, id)
        ensures IsOrdered(Next(s, Close(id, actionIds)), i, Counting(s.decisions, i).value.value)
      {
        ClosedIsSound(s, id, actionIds, i);
        ServedMeansOrdered(Next(s, Close(id, actionIds)), i);
      }
    }
  }

  /** Refuses to close while an item is undecided; otherwise turns the decisions of the campaign into actions. */
  method PrepareClosing(campaigns: map<string, Campaign>, items: map<string, ReviewItem>, decisions: seq<Decision>,
                        actions: map<string, Action>, id: string, own: set<string>, actionIds: map<string, string>)
    returns (created: Result<map<string, Action>>)
    requires var s := State(campaigns, items, decisions, actions);
             own == ItemsOf(s, id) && FreshActionIds(s, id, actionIds)
    ensures created.Ok? <==> forall i :: i in own ==> Counting(decisions, i).Some?
    ensures var s := State(campaigns, items, decisions, actions);
            created.Ok? ==>
              created.value == NewActions(s, id, actionIds) && |actions + created.value| == |actions| + |created.value|
  {
    ghost var s := State(campaigns, items, decisions, actions);
    var latest := LatestDecisions(OfItems(own, Listing(decisions)));
    CountingBelongs(s, id);
    if exists i :: i in own && i !in latest {
      return Error("Cannot close campaign with pending review items");
    }
    AsksAreDemands(s, id, latest);
    var made := RemediationFromDecisions(items, latest, actionIds);
    CreatedAreNew(s, id, latest, actionIds, made);
    AddedSize(actions, made);
    return Ok(made);
  }

  class Store {
    var campaigns: map<string, Campaign>
    var items: map<string, ReviewItem>
    var decisions: seq<Decision>
    var actions: map<string, Action>

    ghost function Contents(): State
      reads this
    {
      State(campaigns, items, decisions, actions)
    }

    constructor ()
      ensures Contents() == EMPTY
    {
      campaigns, items, decisions, actions := map[], map[], [], map[];
    }

    method CreateCampaign(id: string, details: Campaign)
      requires Valid(Contents()) && HasFreshIds(Contents(), Create(id, details))
      modifies this
      ensures Valid(Contents()) && Contents() == Next(old(Contents()), Create(id, details))
      ensures campaigns == old(campaigns)[id := details.(status := Draft)] && items == old(items)
    {
      NextKeepsValid(Contents(), Create(id, details));
      campaigns := campaigns[id := details.(status := Draft)];
    }

    method StoreItems(id: string, c: Campaign, o: Opening, made: seq<ReviewItem>)
      requires Distinct(o.ids) && |made| == |o.ids| == |Reviewable(o)|
      requires forall k :: 0 <= k < |made| ==> made[k] == NewItem(o.ids[k], id, Reviewable(o)[k], c, o)
      modifies this`items
      ensures items == old(items) + NewItems(id, c, o, |o.ids|)
    {
      for k := 0 to |made|
        modifies this`items
        invariant items == old(items) + NewItems(id, c, o, k)
      {
        items := items[made[k].id := made[k]];
      }
    }

    /** Stores the campaign as open, then its items. */
    method StoreOpened(id: string, c: Campaign, asked: Campaign, o: Opening, made: seq<ReviewItem>)
      requires Distinct(o.ids) && |made| == |o.ids| == |Reviewable(o)|
      requires forall k :: 0 <= k < |made| ==> made[k] == NewItem(o.ids[k], id, Reviewable(o)[k], asked, o)
      modifies this
      ensures Contents() == Opened(old(Contents()), id, c, asked, o)
    {
      campaigns := campaigns[id := c.(status := Open)];
      StoreItems(id, asked, o, made);
    }

    method OpenCampaign(id: string, o: Opening) returns (made: Result<nat>)
      requires Valid(Contents()) && HasFreshIds(Contents(), OpenUp(id, o))
      modifies this
      ensures Valid(Contents()) && Contents() == Next(old(Contents()), OpenUp(id, o))
      ensures made.Ok? <==> Accepts(old(Contents()), OpenUp(id, o))
      ensures made.Ok? ==> made.value == |Reviewable(o)|
    {
      OpeningIs(Contents(), id, o);
      if id !in campaigns {
        return Error("Campaign not found");
      }
      if campaigns[id].status != Draft {
        return Error("Only draft campaigns can be opened");
      }
      var c := Starting(campaigns[id], o);
      var prepared := OpenItems(id, c, c.allowUnresolved, o);
      if prepared.Error? {
        return Error(prepared.message);
      }
      StoreOpened(id, c, c, o, prepared.value);
      return Ok(|prepared.value|);
    }

    method RecordDecision(d: Decision) returns (recorded: bool)
      requires Valid(Contents())
      modifies this`decisions
      ensures Valid(Contents()) && Contents() == Next(old(Contents()), Decide(d))
      ensures recorded <==> Accepts(old(Contents()), Decide(d))
      ensures recorded <==> (d.reviewItemId in items && items[d.reviewItemId].campaignId in campaigns
                             && campaigns[items[d.reviewItemId].campaignId].status == Open
                             && (d.value == Approve || d.comment != ""))
      ensures decisions == old(decisions) + if recorded then [d] else []
    {
      NextKeepsValid(Contents(), Decide(d));
      if d.reviewItemId !in items || items[d.reviewItemId].campaignId !in campaigns {
        return false;
      }
      if campaigns[items[d.reviewItemId].campaignId].status != Open {
        return false;
      }
      if d.value in {Revoke, NotApplicable} && d.comment == "" {
        return false;
      }
      decisions := decisions + [d];
      return true;
    }

    /** The command line looks at the item and the comment, and not at the status of the campaign. */
    method DecideFromCommandLine(d: Decision) returns (recorded: bool)
      requires Valid(Contents())
      modifies this`decisions
      ensures Valid(Contents()) && Contents() == Next(old(Contents()), CliDecide(d))
      ensures recorded <==> Accepts(old(Contents()), CliDecide(d))
      ensures recorded <==> (d.reviewItemId in items && items[d.reviewItemId].campaignId in campaigns
                             && (d.value == Approve || d.comment != ""))
      ensures decisions == old(decisions) + if recorded then [d] else []
    {
      NextKeepsValid(Contents(), CliDecide(d));
      if d.reviewItemId !in items || items[d.reviewItemId].campaignId !in campaigns {
        return false;
      }
      if d.value in {Revoke, NotApplicable} && d.comment == "" {
        return false;
      }
      decisions := decisions + [d];
      return true;
    }

    /** Hands over the undecided items of open campaigns; decided items are evidence and stay. */
    method MoveReviews(lower: string -> string, from: string, to: string) returns (moved: set<string>)
      modifies this`items
      ensures items == Reassigned(old(Contents()), lower, from, to)
      ensures moved == set i | i in old(items) && IsPendingOf(old(Contents()), i, lower, from)
    {
      moved := {};
      var active := set id | id in campaigns && campaigns[id].status == Open;
      var decided := set d | d in decisions :: d.reviewItemId;
      var rest := items.Keys;
      ghost var s := Contents();
      while rest != {}
        modifies this`items
        invariant rest <= items.Keys == s.items.Keys
        invariant moved == set i | i in s.items && i !in rest && IsPendingOf(s, i, lower, from)
        invariant forall i :: i in items ==> items[i] == if i in moved then HandedOver(s.items[i], to) else s.items[i]
      {
        var i :| i in rest;
        rest := rest - {i};
        var item := items[i];
        assert item == s.items[i];
        var reviewer := if item.reviewer.Some? then lower(item.reviewer.value.name) else lower("");
        var isPending := reviewer == from && i !in decided && item.campaignId in active;
        assert isPending == IsPendingOf(s, i, lower, from);
        if isPending {
          items := items[i := HandedOver(item, to)];
          moved := moved + {i};
        }
      }
    }

    method ReassignReviews(lower: string -> string, from: string, to: string) returns (done: bool, moved: set<string>)
      requires Valid(Contents())
      modifies this`items
      ensures Valid(Contents()) && Contents() == Next(old(Contents()), Reassign(lower, from, to))
      ensures done <==> Accepts(old(Contents()), Reassign(lower, from, to))
      ensures done ==> moved == set i | i in old(items) && IsPendingOf(old(Contents()), i, lower, from)
    {
      NextKeepsValid(Contents(), Reassign(lower, from, to));
      if to == "" || to == from {
        return false, {};
      }
      moved := MoveReviews(lower, from, to);
      return true, moved;
    }

    method CloseCampaign(id: string, actionIds: map<string, string>) returns (closed: Result<nat>)
      requires Valid(Contents()) && HasFreshIds(Contents(), Close(id, actionIds))
      modifies this
      ensures Valid(Contents()) && Contents() == Next(old(Contents()), Close(id, actionIds))
      ensures closed.Ok? <==> Accepts(old(Contents()), Close(id, actionIds))
      ensures closed.Ok? <==> (id in old(campaigns) && old(campaigns)[id].status == Open
                               && forall i :: i in old(items) && old(items)[i].campaignId == id ==>
                                    exists d :: d in old(decisions) && d.reviewItemId == i)
      ensures closed.Ok? ==> closed.value == |actions| - |old(actions)|
      ensures closed.Ok? ==> OrdersAsDecided(Contents(), id)
    {
      ClosingIs(Contents(), id, actionIds);
      ClosingOrders(Contents(), id, actionIds);
      if id !in campaigns || campaigns[id].status != Open {
        return Error("Only open campaigns can be closed");
      }
      var own := set i | i in items && items[i].campaignId == id;
      var created := PrepareClosing(campaigns, items, decisions, actions, id, own, actionIds);
      if created.Error? {
        return Error(created.message);
      }
      campaigns := campaigns[id := campaigns[id].(status := Closed)];
      actions := actions + created.value;
      return Ok(|created.value|);
    }

    /** The command line closes whatever has no undecided item, and creates no action. */
    method CloseFromCommandLine(id: string) returns (closed: bool)
      requires Valid(Contents())
      modifies this`campaigns
      ensures Valid(Contents()) && Contents() == Next(old(Contents()), CliClose(id))
      ensures closed <==> Accepts(old(Contents()), CliClose(id))
      ensures closed <==> (id in old(campaigns)
                           && forall i :: i in items && items[i].campaignId == id ==>
                                exists d :: d in decisions && d.reviewItemId == i)
      ensures campaigns == if closed then old(campaigns)[id := old(campaigns)[id].(status := Closed)]
                           else old(campaigns)
    {
      NextKeepsValid(Contents(), CliClose(id));
      CountingBelongs(Contents(), id);
      if id !in campaigns {
        return false;
      }
      var own := set i | i in items && items[i].campaignId == id;
      var latest := LatestDecisions(OfItems(own, Listing(decisions)));
      DecidedAreListed(Contents(), id);
      if exists i :: i in own && i !in latest {
        return false;
      }
      campaigns := campaigns[id := campaigns[id].(status := Closed)];
      return true;
    }

    /** The command line opens the stored snapshot as it is and names no fallback reviewer. */
    method OpenFromCommandLine(id: string, o: Opening) returns (made: Result<nat>)
      requires Valid(Contents()) && HasFreshIds(Contents(), CliOpen(id, o))
      modifies this
      ensures Valid(Contents()) && Contents() == Next(old(Contents()), CliOpen(id, o))
      ensures made.Ok? <==> Accepts(old(Contents()), CliOpen(id, o))
      ensures made.Ok? ==> made.value == |Reviewable(o)|
    {
      CliOpeningIs(Contents(), id, o);
      if id !in campaigns {
        return Error("Campaign not found");
      }
      if campaigns[id].status != Draft {
        return Error("Only draft campaigns can be opened");
      }
      var c, plain := campaigns[id], Plain(o);
      var asked := WithoutFallback(c);
      var prepared := OpenItems(id, asked, c.allowUnresolved, plain);
      if prepared.Error? {
        return Error(prepared.message);
      }
      StoreOpened(id, c, asked, plain, prepared.value);
      return Ok(|prepared.value|);
    }

    method CancelCampaign(id: string) returns (cancelled: bool)
      requires Valid(Contents())
      modifies this`campaigns
      ensures Valid(Contents()) && Contents() == Next(old(Contents()), Cancel(id))
      ensures cancelled <==> Accepts(old(Contents()), Cancel(id))
      ensures cancelled <==> id in old(campaigns) && old(campaigns)[id].status == Draft
      ensures campaigns == if cancelled then old(campaigns)[id := old(campaigns)[id].(status := Cancelled)]
                           else old(campaigns)
    {
      NextKeepsValid(Contents(), Cancel(id));
      if id !in campaigns || campaigns[id].status != Draft {
        return false;
      }
      campaigns := campaigns[id := campaigns[id].(status := Cancelled)];
      return true;
    }

    /** No remediation action has a campaign to be found by, so none is deleted. */
    method DeleteCampaign(id: string) returns (deleted: bool)
      requires Valid(Contents())
      modifies this
      ensures Valid(Contents()) && Contents() == Next(old(Contents()), Delete(id))
      ensures deleted <==> id in old(campaigns)
      ensures deleted ==>
                && campaigns == old(campaigns) - {id} && actions == old(actions)
                && items == (map i | i in old(items) && old(items)[i].campaignId != id :: old(items)[i])
                && forall d :: d in decisions
                     <==> (d in old(decisions)
                           && !(d.reviewItemId in old(items) && old(items)[d.reviewItemId].campaignId == id))
    {
      NextKeepsValid(Contents(), Delete(id));
      if id !in campaigns {
        return false;
      }
      var related := set i | i in items && items[i].campaignId == id;
      items := items - related;
      forall d ensures d in NotOfItems(related, decisions) <==> d in decisions && d.reviewItemId !in related {
        FilterMember((e: Decision) => e.reviewItemId !in related, decisions, d);
      }
      decisions := Filter((d: Decision) => d.reviewItemId !in related, decisions);
      campaigns := campaigns - {id};
      return true;
    }

    method SetRemediationStatus(actionId: string, progress: Progress, comment: string) returns (done: bool)
      requires Valid(Contents())
      modifies this`actions
      ensures Valid(Contents()) && Contents() == Next(old(Contents()), SetProgress(actionId, progress, comment))
      ensures done <==> Accepts(old(Contents()), SetProgress(actionId, progress, comment))
      ensures done <==> (actionId in old(actions) && |comment| <= 4000 && (progress == NotCompleted ==> comment != ""))
      ensures actions == if done then old(actions)[actionId := old(actions)[actionId].(progress := progress,
                                                                                       comment := comment)]
                         else old(actions)
    {
      NextKeepsValid(Contents(), SetProgress(actionId, progress, comment));
      if |comment| > 4000 || (progress == NotCompleted && comment == "") || actionId !in actions {
        return false;
      }
      actions := actions[actionId := actions[actionId].(progress := progress, comment := comment)];
      return true;
    }
  }

  lemma ReviewableAre(o: Opening)
    ensures forall row :: row in Reviewable(o) <==> row in o.rows && row.access !in LinkedParents(o.relations)
  {
    var linked := LinkedParents(o.relations);
    forall row ensures row in Reviewable(o) <==> row in o.rows && row.access !in linked {
      FilterMember((row: Row) => row.access !in linked, o.rows, row);
    }
  }

  /** The decisions listed for the campaign are the ones that count for its items, and for no others. */
  lemma CountingBelongs(s: State, id: string)
    ensures var latest := LatestDecisions(OwnDecisions(s, id));
            && latest.Keys <= ItemsOf(s, id)
            && forall i :: i in ItemsOf(s, id) ==>
                 (i in latest <==> Counting(s.decisions, i).Some?)
                 && (i in latest ==>
                       latest[i] == Counting(s.decisions, i).value
                       && Demanded(s, i) == Demand(s.items[i], latest[i].value))
  {
    var latest := LatestDecisions(OwnDecisions(s, id));
    forall i | i in ItemsOf(s, id)
      ensures (i in latest <==> Counting(s.decisions, i).Some?)
           && (i in latest ==>
                 latest[i] == Counting(s.decisions, i).value && Demanded(s, i) == Demand(s.items[i], latest[i].value))
    {
      CampaignSeesCounting(s.decisions, ItemsOf(s, id), i);
    }
    forall i | i in latest ensures i in ItemsOf(s, id) {
      CampaignSeesOwnItemsOnly(s.decisions, ItemsOf(s, id), i);
    }
  }
}
