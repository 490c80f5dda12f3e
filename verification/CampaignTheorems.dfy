/** What holds in every run of the campaign steps. */
module CampaignTheorems {
  import opened Domain
  import opened Ordering
  import opened Reviews
  import opened CampaignDecisions
  import opened CampaignLifecycle
  import Promotion

  // ----- Each step keeps the invariant, those of the command line included -----

  predicate Touches(s: State, e: Event, i: string)
    requires i in s.items
  {
    match e
    case Decide(d) => d.reviewItemId == i
    case Close(id, _) => s.items[i].campaignId == id
    case Delete(id) => s.items[i].campaignId == id
    case CliDecide(d) => d.reviewItemId == i
    case CliClose(id) => s.items[i].campaignId == id
    case _ => false
  }

  lemma OpenedKeeps(s: State, id: string, c: Campaign, asked: Campaign, o: Opening, i: string)
    requires Valid(s) && FreshItemIds(s, o) && Has(s, id, Draft) && i in s.items
    ensures IsKept(s, Opened(s, id, c, asked, o), i)
  {
    NewItemsAre(id, asked, o, |o.ids|);
    assert o.ids[..|o.ids|] == o.ids;
    assert i !in NewItems(id, asked, o, |o.ids|);
    assert IsSound(s, i);
  }

  lemma OpenedIsSound(s: State, id: string, c: Campaign, asked: Campaign, o: Opening, k: nat)
    requires Valid(s) && FreshItemIds(s, o) && Has(s, id, Draft) && k < |o.ids|
    ensures var t := Opened(s, id, c, asked, o);
            && o.ids[k] in t.items && t.items[o.ids[k]] == NewItem(o.ids[k], id, Reviewable(o)[k], asked, o)
            && IsSound(t, o.ids[k])
  {
    NewItemsAre(id, asked, o, |o.ids|);
    assert ActionsFor(Opened(s, id, c, asked, o), o.ids[k]) == {};
  }

  lemma OpenedItem(s: State, id: string, c: Campaign, asked: Campaign, o: Opening, i: string) returns (k: nat)
    requires FreshItemIds(s, o) && i in Opened(s, id, c, asked, o).items && i !in s.items
    ensures k < |o.ids| && o.ids[k] == i
  {
    NewItemsAre(id, asked, o, |o.ids|);
    assert o.ids[..|o.ids|] == o.ids;
    k :| 0 <= k < |o.ids| && o.ids[k] == i;
  }

  lemma OpenKeepsValid(s: State, id: string, c: Campaign, asked: Campaign, o: Opening)
    requires Valid(s) && FreshItemIds(s, o) && Has(s, id, Draft)
    ensures Valid(Opened(s, id, c, asked, o))
  {
    var t := Opened(s, id, c, asked, o);
    forall i | i in t.items ensures IsSound(t, i) {
      if i in s.items {
        OpenedKeeps(s, id, c, asked, o, i);
        KeptStaysSound(s, t, i);
      } else {
        var k := OpenedItem(s, id, c, asked, o, i);
        OpenedIsSound(s, id, c, asked, o, k);
      }
    }
    forall d | d in t.decisions ensures d.reviewItemId in t.items {
      OpenedKeeps(s, id, c, asked, o, d.reviewItemId);
    }
  }

  lemma CreatedAction(s: State, id: string, ids: map<string, string>, a: string)
    requires FreshActionIds(s, id, ids) && a in NewActions(s, id, ids)
    ensures a !in s.actions
    ensures var i := NewActions(s, id, ids)[a].reviewItemId; i in Demanding(s, id) && a == ids[i]
  {
  }

  lemma ActionIsCreated(s: State, id: string, ids: map<string, string>, i: string)
    requires FreshActionIds(s, id, ids) && i in Demanding(s, id)
    ensures ids[i] in NewActions(s, id, ids)
    ensures NewActions(s, id, ids)[ids[i]] == Action(i, Demanded(s, i).value, Pending, "")
  {
  }

  lemma CreatedFor(s: State, id: string, ids: map<string, string>, i: string)
    requires FreshActionIds(s, id, ids)
    ensures (set a | a in NewActions(s, id, ids) && NewActions(s, id, ids)[a].reviewItemId == i)
         == if i in Demanding(s, id) then {ids[i]} else {}
  {
    var created := NewActions(s, id, ids);
    forall a | a in created
      ensures created[a].reviewItemId in Demanding(s, id) && a == ids[created[a].reviewItemId]
    {
      CreatedAction(s, id, ids, a);
    }
    if i in Demanding(s, id) {
      ActionIsCreated(s, id, ids, i);
    }
  }

  lemma MoreActions(s: State, created: map<string, Action>, i: string)
    requires s.actions.Keys !! created.Keys
    ensures ActionsFor(s.(actions := s.actions + created), i)
         == ActionsFor(s, i) + (set a | a in created && created[a].reviewItemId == i)
  {
  }

  lemma NewActionsAre(s: State, id: string, ids: map<string, string>, i: string)
    requires FreshActionIds(s, id, ids)
    ensures ActionsFor(s.(actions := s.actions + NewActions(s, id, ids)), i)
         == ActionsFor(s, i) + (if i in Demanding(s, id) then {ids[i]} else {})
    ensures i in Demanding(s, id) ==> NewActions(s, id, ids)[ids[i]] == Action(i, Demanded(s, i).value, Pending, "")
    ensures forall a :: a in s.actions ==> a !in NewActions(s, id, ids)
  {
    var created := NewActions(s, id, ids);
    forall a | a in created ensures a !in s.actions {
      CreatedAction(s, id, ids, a);
    }
    MoreActions(s, created, i);
    CreatedFor(s, id, ids, i);
    if i in Demanding(s, id) {
      ActionIsCreated(s, id, ids, i);
    }
  }

  lemma CloseKeeps(s: State, id: string, ids: map<string, string>, i: string)
    requires Valid(s) && HasFreshIds(s, Close(id, ids)) && Accepts(s, Close(id, ids))
    requires i in s.items && s.items[i].campaignId != id
    ensures IsKept(s, Next(s, Close(id, ids)), i)
  {
    var t := Next(s, Close(id, ids));
    NewActionsAre(s, id, ids, i);
    assert ActionsFor(t, i) == ActionsFor(s.(actions := s.actions + NewActions(s, id, ids)), i);
    assert IsSound(s, i);
  }

  lemma ClosedIsSound(s: State, id: string, ids: map<string, string>, i: string)
    requires Valid(s) && HasFreshIds(s, Close(id, ids)) && Accepts(s, Close(id, ids)) && i in ItemsOf(s, id)
    ensures IsSound(Next(s, Close(id, ids)), i) && IsServed(Next(s, Close(id, ids)), i)
  {
    var t := Next(s, Close(id, ids));
    NewActionsAre(s, id, ids, i);
    assert ActionsFor(t, i) == ActionsFor(s.(actions := s.actions + NewActions(s, id, ids)), i);
    assert IsSound(s, i) && Demanded(t, i) == Demanded(s, i);
    if i in Demanding(s, id) {
      assert ids[i] in t.actions && ActionsFor(t, i) == {ids[i]} && t.actions[ids[i]].kind == Demanded(t, i).value;
    }
  }

  lemma CloseKeepsValid(s: State, id: string, ids: map<string, string>)
    requires Valid(s) && HasFreshIds(s, Close(id, ids)) && Accepts(s, Close(id, ids))
    ensures Valid(Next(s, Close(id, ids)))
  {
    var t := Next(s, Close(id, ids));
    forall i | i in t.items ensures IsSound(t, i) {
      if i in ItemsOf(s, id) {
        ClosedIsSound(s, id, ids, i);
      } else {
        CloseKeeps(s, id, ids, i);
        KeptStaysSound(s, t, i);
      }
    }
  }

  lemma DeleteKeeps(s: State, id: string, i: string)
    requires Valid(s) && id in s.campaigns && i in s.items && s.items[i].campaignId != id
    ensures IsKept(s, Next(s, Delete(id)), i)
  {
    OwnOfItems(i, ItemsOf(s, id), s.decisions);
    assert IsSound(s, i);
    assert ActionsFor(Next(s, Delete(id)), i) == ActionsFor(s, i);
  }

  lemma DeleteKeepsValid(s: State, id: string)
    requires Valid(s) && id in s.campaigns
    ensures Valid(Next(s, Delete(id)))
  {
    var t := Next(s, Delete(id));
    forall i | i in t.items ensures IsSound(t, i) {
      DeleteKeeps(s, id, i);
      KeptStaysSound(s, t, i);
    }
    var gone := ItemsOf(s, id);
    forall d | d in t.decisions ensures d.reviewItemId in t.items {
      FilterMember((e: Decision) => e.reviewItemId !in gone, s.decisions, d);
    }
  }

  /** One more decision leaves everything about the other items as it is. */
  lemma RecordingKeeps(s: State, t: State, d: Decision, i: string)
    requires Valid(s) && t == s.(decisions := s.decisions + [d]) && i in s.items
    ensures ActionsFor(t, i) == ActionsFor(s, i) && IsSound(t, i)
    ensures i != d.reviewItemId ==> IsKept(s, t, i)
  {
    assert IsSound(s, i);
    assert ActionsFor(t, i) == ActionsFor(s, i);
    OwnOfMore(s.decisions, d, i);
    if i != d.reviewItemId {
      KeptStaysSound(s, t, i);
    } else {
      RecordedCounts(s.decisions, d);
    }
  }

  lemma RecordingKeepsValid(s: State, t: State, d: Decision)
    requires Valid(s) && t == s.(decisions := s.decisions + [d]) && d.reviewItemId in s.items
    ensures Valid(t)
  {
    forall i | i in t.items ensures IsSound(t, i) {
      RecordingKeeps(s, t, d, i);
    }
  }

  lemma CliCloseKeeps(s: State, id: string, i: string)
    requires Valid(s) && Accepts(s, CliClose(id)) && i in s.items
    ensures var t := Next(s, CliClose(id));
            IsSound(t, i) && ActionsFor(t, i) == ActionsFor(s, i) && Demanded(t, i) == Demanded(s, i)
    ensures s.items[i].campaignId != id || Has(s, id, Closed) ==> IsKept(s, Next(s, CliClose(id)), i)
  {
    assert IsSound(s, i);
    assert ActionsFor(Next(s, CliClose(id)), i) == ActionsFor(s, i);
  }

  lemma ProgressKeeps(s: State, e: Event, i: string)
    requires Valid(s) && e.SetProgress? && Accepts(s, e) && i in s.items
    ensures IsKept(s, Next(s, e), i)
  {
    assert IsSound(s, i);
    assert ActionsFor(Next(s, e), i) == ActionsFor(s, i);
  }

  lemma QuietKeeps(s: State, e: Event, i: string)
    requires Valid(s) && HasFreshIds(s, e) && i in s.items
    requires e.Create? || e.Edit? || e.Cancel? || e.Reassign? || e.Promote? || !Accepts(s, e)
    ensures IsKept(s, Next(s, e), i)
  {
    assert IsSound(s, i);
    assert ActionsFor(Next(s, e), i) == ActionsFor(s, i);
  }

  /** A step keeps everything about the items that it is not about. */
  lemma StepKeeps(s: State, e: Event, i: string)
    requires Valid(s) && HasFreshIds(s, e) && i in s.items && !Touches(s, e, i)
    ensures IsKept(s, Next(s, e), i)
  {
    if !Accepts(s, e) {
      QuietKeeps(s, e, i);
    } else {
      match e
      case OpenUp(id, o) => OpenedKeeps(s, id, Starting(s.campaigns[id], o), Starting(s.campaigns[id], o), o, i);
      case Close(id, ids) => CloseKeeps(s, id, ids, i);
      case Delete(id) => DeleteKeeps(s, id, i);
      case Decide(d) => RecordingKeeps(s, Next(s, e), d, i);
      case SetProgress(_, _, _) => ProgressKeeps(s, e, i);
      case CliOpen(id, o) => OpenedKeeps(s, id, s.campaigns[id], WithoutFallback(s.campaigns[id]), Plain(o), i);
      case CliDecide(d) => RecordingKeeps(s, Next(s, e), d, i);
      case CliClose(id) => CliCloseKeeps(s, id, i);
      case _ => QuietKeeps(s, e, i);
    }
  }

  /** Every step keeps the invariant, whatever it is and wherever it comes from. */
  lemma NextKeepsValid(s: State, e: Event)
    requires Valid(s) && HasFreshIds(s, e)
    ensures Valid(Next(s, e))
  {
    if Accepts(s, e) {
      match e
      case OpenUp(id, o) => OpenKeepsValid(s, id, Starting(s.campaigns[id], o), Starting(s.campaigns[id], o), o);
      case Close(id, ids) => CloseKeepsValid(s, id, ids);
      case Delete(id) => DeleteKeepsValid(s, id);
      case Decide(d) => RecordingKeepsValid(s, Next(s, e), d);
      case CliOpen(id, o) => OpenKeepsValid(s, id, s.campaigns[id], WithoutFallback(s.campaigns[id]), Plain(o));
      case CliDecide(d) => RecordingKeepsValid(s, Next(s, e), d);
      case CliClose(id) =>
        var t := Next(s, e);
        forall i | i in t.items ensures IsSound(t, i) {
          CliCloseKeeps(s, id, i);
        }
      case _ =>
        var t := Next(s, e);
        forall i | i in t.items ensures IsSound(t, i) {
          StepKeeps(s, e, i);
          KeptStaysSound(s, t, i);
        }
    }
  }

  // ----- Which steps leave closed campaigns served -----

  /** The decision asks for what is demanded of its item already. */
  predicate AsksTheSame(s: State, d: Decision)
    requires d.reviewItemId in s.items
  {
    Demand(s.items[d.reviewItemId], d.value) == Demanded(s, d.reviewItemId)
  }

  /**
   * Closing from the command line leaves nothing demanded behind, and a decision recorded on a closed campaign is
   * outranked by a stored one or asks for what is demanded already.
   */
  ghost predicate LeavesServed(s: State, e: Event) {
    match e
    case CliClose(id) => Accepts(s, e) && !Has(s, id, Closed) ==> Demanding(s, id) == {}
    case CliDecide(d) =>
      Accepts(s, e) && Has(s, s.items[d.reviewItemId].campaignId, Closed) ==>
        IsOutranked(s.decisions, d) || AsksTheSame(s, d)
    case _ => true
  }

  /** What is demanded of an item after one more decision on it. */
  lemma DemandedAfter(s: State, t: State, d: Decision)
    requires d.reviewItemId in s.items && t == s.(decisions := s.decisions + [d])
    ensures Demanded(t, d.reviewItemId)
         == if IsOutranked(s.decisions, d) then Demanded(s, d.reviewItemId)
            else Demand(s.items[d.reviewItemId], d.value)
  {
    RecordedCounts(s.decisions, d);
  }

  /** Opening from the command line finds a reviewer for every row. */
  ghost predicate FindsReviewers(s: State, e: Event) {
    e.CliOpen? && Accepts(s, e) ==> AllHaveReviewer(WithoutFallback(s.campaigns[e.id]), Plain(e.opening))
  }

  lemma SameActionsSameDemand(s: State, t: State, i: string)
    requires i in s.items && i in t.items && ActionsFor(t, i) == ActionsFor(s, i) && t.actions == s.actions
    requires IsServed(s, i)
    ensures IsServed(t, i) <==> Demanded(t, i) == Demanded(s, i)
  {
    if a :| a in s.actions && ActionsFor(s, i) == {a} {
      assert a in ActionsFor(t, i);
    }
  }

  /** A step that is not harmful serves every item of a campaign that is closed after it. */
  lemma StepServes(s: State, e: Event, i: string)
    requires Valid(s) && HasFreshIds(s, e) && ClosedAreServed(s) && LeavesServed(s, e)
    requires i in Next(s, e).items && Has(Next(s, e), Next(s, e).items[i].campaignId, Closed)
    ensures IsServed(Next(s, e), i)
  {
    var t := Next(s, e);
    if i !in s.items {
      NewItemIsOpen(s, e, i);
    } else if !Touches(s, e, i) || !Accepts(s, e) {
      UntouchedKeeps(s, e, i);
      KeptStaysSound(s, t, i);
    } else {
      assert IsSound(s, i);
      match e
      case Close(id, ids) => ClosedIsSound(s, id, ids, i);
      case CliClose(id) =>
        CliCloseKeeps(s, id, i);
        if !Has(s, id, Closed) {
          assert i !in Demanding(s, id);
        } else {
          SameActionsSameDemand(s, t, i);
        }
      case CliDecide(d) =>
        RecordingKeeps(s, t, d, i);
        DemandedAfter(s, t, d);
        SameActionsSameDemand(s, t, i);
      case _ =>
    }
  }

  lemma UntouchedKeeps(s: State, e: Event, i: string)
    requires Valid(s) && HasFreshIds(s, e) && i in s.items && (!Touches(s, e, i) || !Accepts(s, e))
    ensures IsKept(s, Next(s, e), i)
  {
    if Accepts(s, e) {
      StepKeeps(s, e, i);
    } else {
      QuietKeeps(s, e, i);
    }
  }

  lemma NewItemIsOpen(s: State, e: Event, i: string)
    requires Valid(s) && HasFreshIds(s, e) && i !in s.items && i in Next(s, e).items
    ensures Accepts(s, e) && (e.OpenUp? || e.CliOpen?)
    ensures Has(Next(s, e), Next(s, e).items[i].campaignId, Open)
  {
    match e
    case OpenUp(id, o) =>
      var c := Starting(s.campaigns[id], o);
      var k := OpenedItem(s, id, c, c, o, i);
      OpenedIsSound(s, id, c, c, o, k);
    case CliOpen(id, o) =>
      var c := s.campaigns[id];
      var k := OpenedItem(s, id, c, WithoutFallback(c), Plain(o), i);
      OpenedIsSound(s, id, c, WithoutFallback(c), Plain(o), k);
    case _ =>
  }

  /** From a state in which closed campaigns are served, exactly the harmless steps keep them so. */
  lemma ServedExactly(s: State, e: Event)
    requires Valid(s) && HasFreshIds(s, e) && ClosedAreServed(s)
    ensures ClosedAreServed(Next(s, e)) <==> LeavesServed(s, e)
  {
    var t := Next(s, e);
    if LeavesServed(s, e) {
      forall i | i in t.items && Has(t, t.items[i].campaignId, Closed) ensures IsServed(t, i) {
        StepServes(s, e, i);
      }
    } else if e.CliClose? {
      var i :| i in Demanding(s, e.id);
      assert IsSound(s, i);
      CliCloseKeeps(s, e.id, i);
      assert !IsServed(t, i);
    } else {
      var i := e.decision.reviewItemId;
      RecordingKeeps(s, t, e.decision, i);
      DemandedAfter(s, t, e.decision);
      SameActionsSameDemand(s, t, i);
      assert !IsServed(t, i);
    }
  }

  lemma OpenedReviewers(s: State, id: string, c: Campaign, asked: Campaign, o: Opening)
    requires Valid(s) && FreshItemIds(s, o) && Has(s, id, Draft) && AllReviewed(s)
    ensures AllReviewed(Opened(s, id, c, asked, o)) <==> AllHaveReviewer(asked, o)
  {
    var t := Opened(s, id, c, asked, o);
    forall row | row in Reviewable(o) && AllReviewed(t) ensures ReviewerFor(row, asked, o).Some? {
      var k :| 0 <= k < |Reviewable(o)| && Reviewable(o)[k] == row;
      OpenedIsSound(s, id, c, asked, o, k);
    }
    forall i | i in t.items && AllHaveReviewer(asked, o) ensures t.items[i].reviewer.Some? {
      if i in s.items {
        OpenedKeeps(s, id, c, asked, o, i);
      } else {
        var k := OpenedItem(s, id, c, asked, o, i);
        OpenedIsSound(s, id, c, asked, o, k);
        assert Reviewable(o)[k] in Reviewable(o);
      }
    }
  }

  /** From a state in which every item has a reviewer, only an opening from the command line can lose that. */
  lemma ReviewersExactly(s: State, e: Event)
    requires Valid(s) && HasFreshIds(s, e) && AllReviewed(s)
    ensures AllReviewed(Next(s, e)) <==> FindsReviewers(s, e)
  {
    if Accepts(s, e) && e.OpenUp? {
      OpenedReviewers(s, e.id, Starting(s.campaigns[e.id], e.opening), Starting(s.campaigns[e.id], e.opening),
                      e.opening);
    } else if Accepts(s, e) && e.CliOpen? {
      OpenedReviewers(s, e.id, s.campaigns[e.id], WithoutFallback(s.campaigns[e.id]), Plain(e.opening));
    } else {
      forall i | i in Next(s, e).items ensures Next(s, e).items[i].reviewer.Some? {
        assert i in s.items;
      }
    }
  }

  // ----- Runs -----

  ghost predicate FreshIds(s: State, run: seq<Event>)
    decreases |run|
  {
    run == [] || (HasFreshIds(s, run[0]) && FreshIds(Next(s, run[0]), run[1..]))
  }

  ghost function After(s: State, run: seq<Event>): State
    requires FreshIds(s, run)
    decreases |run|
  {
    if run == [] then s else After(Next(s, run[0]), run[1..])
  }

  lemma {:induction false} RunKeepsValid(s: State, run: seq<Event>)
    requires Valid(s) && FreshIds(s, run)
    ensures Valid(After(s, run))
    decreases |run|
  {
    if run != [] {
      NextKeepsValid(s, run[0]);
      RunKeepsValid(Next(s, run[0]), run[1..]);
    }
  }

  /** The step is none of those that leave a closed campaign unserved or an item without a reviewer. */
  ghost predicate IsProper(s: State, e: Event) {
    LeavesServed(s, e) && FindsReviewers(s, e)
  }

  ghost predicate IsProperRun(s: State, run: seq<Event>)
    requires FreshIds(s, run)
    decreases |run|
  {
    run == [] || (IsProper(s, run[0]) && IsProperRun(Next(s, run[0]), run[1..]))
  }

  /** All along the run, closed campaigns are served and every item has a reviewer. */
  ghost predicate InOrder(s: State, run: seq<Event>)
    requires FreshIds(s, run)
    decreases |run|
  {
    && ClosedAreServed(s) && AllReviewed(s)
    && (run == [] || InOrder(Next(s, run[0]), run[1..]))
  }

  /** Exactly the runs of proper steps keep closed campaigns served and every item with a reviewer all along. */
  lemma {:induction false} ProperRunsStayInOrder(s: State, run: seq<Event>)
    requires Valid(s) && ClosedAreServed(s) && AllReviewed(s) && FreshIds(s, run)
    ensures InOrder(s, run) <==> IsProperRun(s, run)
    ensures InOrder(s, run) ==> ClosedAreServed(After(s, run)) && AllReviewed(After(s, run))
    decreases |run|
  {
    if run != [] {
      NextKeepsValid(s, run[0]);
      ServedExactly(s, run[0]);
      ReviewersExactly(s, run[0]);
      if IsProper(s, run[0]) {
        ProperRunsStayInOrder(Next(s, run[0]), run[1..]);
      }
    }
  }

  /** What a closing through the web interface turned into an action for the item, if any did. */
  ghost function Ordered(s: State, run: seq<Event>, i: string, before: Option<ActionKind>): Option<ActionKind>
    requires FreshIds(s, run)
    decreases |run|
  {
    if run == [] then before
    else Ordered(Next(s, run[0]), run[1..], i, OrderedBy(s, run[0], i, before))
  }

  ghost function OrderedBy(s: State, e: Event, i: string, before: Option<ActionKind>): Option<ActionKind> {
    if e.Close? && Accepts(s, e) && i in ItemsOf(s, e.id) then Demanded(s, i) else before
  }

  lemma StepOrders(s: State, e: Event, i: string, before: Option<ActionKind>)
    requires Valid(s) && HasFreshIds(s, e) && HasAction(s, i, before)
    ensures HasAction(Next(s, e), i, OrderedBy(s, e, i, before))
  {
    var t := Next(s, e);
    if e.Close? && Accepts(s, e) {
      NewActionsAre(s, e.id, e.actionIds, i);
      assert ActionsFor(t, i) == ActionsFor(s.(actions := s.actions + NewActions(s, e.id, e.actionIds)), i);
      if i in ItemsOf(s, e.id) {
        assert IsSound(s, i);
        ClosedIsSound(s, e.id, e.actionIds, i);
        assert Demanded(t, i) == Demanded(s, i);
      }
    } else {
      assert ActionsFor(t, i) == ActionsFor(s, i);
      if a :| a in s.actions && ActionsFor(s, i) == {a} {
        assert a in ActionsFor(t, i) && t.actions[a].kind == s.actions[a].kind;
      }
    }
  }

  /** The actions for an item are those that closings through the web interface ordered. */
  lemma {:induction false} ActionsAreOrdered(s: State, run: seq<Event>, i: string, before: Option<ActionKind>)
    requires Valid(s) && FreshIds(s, run) && HasAction(s, i, before)
    ensures HasAction(After(s, run), i, Ordered(s, run, i, before))
    decreases |run|
  {
    if run != [] {
      NextKeepsValid(s, run[0]);
      StepOrders(s, run[0], i, before);
      ActionsAreOrdered(Next(s, run[0]), run[1..], i, OrderedBy(s, run[0], i, before));
    }
  }

  lemma OneKindOfAction(s: State, i: string, left: Option<ActionKind>, right: Option<ActionKind>)
    requires HasAction(s, i, left)
    ensures HasAction(s, i, right) <==> left == right
  {
    if a :| a in s.actions && ActionsFor(s, i) == {a} {
      assert a in ActionsFor(s, i);
      assert forall b :: ActionsFor(s, i) == {b} ==> b in {a};
    }
  }

  /**
   * After any run, a closed campaign has a decision on each item. It has exactly the action that the decision orders
   * if and only if a closing through the web interface ordered what it demands now; after proper runs it always has.
   */
  lemma ClosedCampaignsAreComplete(run: seq<Event>, i: string)
    requires FreshIds(EMPTY, run) && i in After(EMPTY, run).items
    requires Has(After(EMPTY, run), After(EMPTY, run).items[i].campaignId, Closed)
    ensures var s := After(EMPTY, run);
            && Counting(s.decisions, i).Some?
            && (IsOrdered(s, i, Counting(s.decisions, i).value.value)
                <==> Demanded(s, i) == Ordered(EMPTY, run, i, None))
            && (IsProperRun(EMPTY, run) ==> IsOrdered(s, i, Counting(s.decisions, i).value.value))
  {
    RunKeepsValid(EMPTY, run);
    assert IsSound(After(EMPTY, run), i);
    assert HasAction(EMPTY, i, None);
    ActionsAreOrdered(EMPTY, run, i, None);
    OneKindOfAction(After(EMPTY, run), i, Ordered(EMPTY, run, i, None), Demanded(After(EMPTY, run), i));
    ProperRunsStayInOrder(EMPTY, run);
    ServedMeansOrdered(After(EMPTY, run), i);
  }

  /** Only open and closed campaigns have items, and an open campaign has no actions yet. */
  lemma ItemsComeWithOpening(run: seq<Event>, i: string)
    requires FreshIds(EMPTY, run) && i in After(EMPTY, run).items
    ensures var s := After(EMPTY, run);
            && s.items[i].id == i
            && (|| Has(s, s.items[i].campaignId, Closed)
                || (Has(s, s.items[i].campaignId, Open) && ActionsFor(s, i) == {}))
    ensures IsProperRun(EMPTY, run) ==> After(EMPTY, run).items[i].reviewer.Some?
  {
    RunKeepsValid(EMPTY, run);
    assert IsSound(After(EMPTY, run), i);
    ProperRunsStayInOrder(EMPTY, run);
  }

  // ----- A closed campaign is frozen -----

  /** Everything stored about a campaign except the progress of its remediation. */
  datatype Evidence = Evidence(
    campaign: Campaign,
    items: map<string, ReviewItem>,
    decisions: seq<Decision>,
    actions: map<string, (string, ActionKind)>)

  ghost function EvidenceOf(s: State, id: string): Evidence
    requires id in s.campaigns
  {
    Evidence(s.campaigns[id],
             map i | i in ItemsOf(s, id) :: s.items[i],
             OfItems(ItemsOf(s, id), s.decisions),
             map a | a in s.actions && s.actions[a].reviewItemId in ItemsOf(s, id) ::
               (s.actions[a].reviewItemId, s.actions[a].kind))
  }

  lemma {:induction false} OthersDeleted(items: set<string>, gone: set<string>, decisions: seq<Decision>)
    requires items !! gone
    ensures OfItems(items, NotOfItems(gone, decisions)) == OfItems(items, decisions)
  {
    if decisions != [] {
      var first, rest := [decisions[0]], decisions[1..];
      OthersDeleted(items, gone, rest);
      FilterConcat((d: Decision) => d.reviewItemId in items, first, NotOfItems(gone, rest));
      assert [] + NotOfItems(gone, rest) == NotOfItems(gone, rest);
      assert first[1..] == [];
    }
  }

  lemma OpeningAddsOwnItems(s: State, id: string, c: Campaign, asked: Campaign, o: Opening, i: string)
    requires FreshItemIds(s, o) && id in s.campaigns
    ensures var t := Opened(s, id, c, asked, o);
            && (i in s.items ==> i in t.items && t.items[i] == s.items[i])
            && (i !in s.items && i in t.items ==> t.items[i].campaignId == id)
  {
    NewItemsAre(id, asked, o, |o.ids|);
    assert o.ids[..|o.ids|] == o.ids;
  }

  lemma ClosedItemStays(s: State, e: Event, id: string, i: string)
    requires HasFreshIds(s, e) && Has(s, id, Closed) && !(e.Delete? && e.id == id)
    ensures i in ItemsOf(Next(s, e), id) <==> i in ItemsOf(s, id)
    ensures i in ItemsOf(s, id) ==> Next(s, e).items[i] == s.items[i]
  {
    if Accepts(s, e) {
      match e
      case OpenUp(other, o) =>
        OpeningAddsOwnItems(s, other, Starting(s.campaigns[other], o), Starting(s.campaigns[other], o), o, i);
      case CliOpen(other, o) =>
        OpeningAddsOwnItems(s, other, s.campaigns[other], WithoutFallback(s.campaigns[other]), Plain(o), i);
      case _ =>
    }
  }

  lemma ClosedItemsStay(s: State, e: Event, id: string)
    requires HasFreshIds(s, e) && Has(s, id, Closed) && !(e.Delete? && e.id == id)
    ensures Has(Next(s, e), id, Closed) && Next(s, e).campaigns[id] == s.campaigns[id]
    ensures ItemsOf(Next(s, e), id) == ItemsOf(s, id)
    ensures forall i :: i in ItemsOf(s, id) ==> Next(s, e).items[i] == s.items[i]
  {
    forall i
      ensures i in ItemsOf(Next(s, e), id) <==> i in ItemsOf(s, id)
      ensures i in ItemsOf(s, id) ==> Next(s, e).items[i] == s.items[i]
    {
      ClosedItemStays(s, e, id, i);
    }
  }

  /** The decisions that the step records on items of the campaign without a look at its status. */
  ghost function LateDecision(s: State, e: Event, id: string): seq<Decision> {
    if e.CliDecide? && Accepts(s, e) && e.decision.reviewItemId in ItemsOf(s, id) then [e.decision] else []
  }

  lemma ClosedDecisionsGrow(s: State, e: Event, id: string)
    requires HasFreshIds(s, e) && Has(s, id, Closed) && !(e.Delete? && e.id == id)
    ensures OfItems(ItemsOf(s, id), Next(s, e).decisions)
         == OfItems(ItemsOf(s, id), s.decisions) + LateDecision(s, e, id)
  {
    var items := ItemsOf(s, id);
    if Accepts(s, e) {
      match e
      case Decide(d) =>
        FilterConcat((x: Decision) => x.reviewItemId in items, s.decisions, [d]);
        assert [d][1..] == [];
      case CliDecide(d) =>
        FilterConcat((x: Decision) => x.reviewItemId in items, s.decisions, [d]);
        assert [d][1..] == [];
      case Delete(other) => OthersDeleted(items, ItemsOf(s, other), s.decisions);
      case _ =>
    }
  }

  lemma ClosedActionsStay(s: State, e: Event, id: string, a: string)
    requires HasFreshIds(s, e) && Has(s, id, Closed) && !(e.Delete? && e.id == id)
    ensures a in s.actions ==> a in Next(s, e).actions
    ensures a in s.actions ==> Next(s, e).actions[a].reviewItemId == s.actions[a].reviewItemId
    ensures a in s.actions ==> Next(s, e).actions[a].kind == s.actions[a].kind
    ensures a in Next(s, e).actions && Next(s, e).actions[a].reviewItemId in ItemsOf(s, id) ==> a in s.actions
  {
    var t := Next(s, e);
    if e.Close? && Accepts(s, e) && a in t.actions {
      var i := t.actions[a].reviewItemId;
      NewActionsAre(s, e.id, e.actionIds, i);
      assert a in ActionsFor(s.(actions := s.actions + NewActions(s, e.id, e.actionIds)), i);
      NewActionsAre(s, e.id, e.actionIds, if a in s.actions then s.actions[a].reviewItemId else i);
    }
  }

  lemma GrownEvidence(s: State, t: State, id: string, late: seq<Decision>)
    requires id in s.campaigns && id in t.campaigns && t.campaigns[id] == s.campaigns[id]
    requires ItemsOf(t, id) == ItemsOf(s, id) && forall i :: i in ItemsOf(s, id) ==> t.items[i] == s.items[i]
    requires OfItems(ItemsOf(s, id), t.decisions) == OfItems(ItemsOf(s, id), s.decisions) + late
    requires forall a :: a in s.actions ==> a in t.actions && t.actions[a].reviewItemId == s.actions[a].reviewItemId
                                            && t.actions[a].kind == s.actions[a].kind
    requires forall a :: a in t.actions && t.actions[a].reviewItemId in ItemsOf(s, id) ==> a in s.actions
    ensures EvidenceOf(t, id) == WithLate(EvidenceOf(s, id), late)
  {
    assert EvidenceOf(t, id).items == EvidenceOf(s, id).items;
    assert EvidenceOf(t, id).actions == EvidenceOf(s, id).actions;
  }

  ghost function WithLate(evidence: Evidence, late: seq<Decision>): Evidence {
    evidence.(decisions := evidence.decisions + late)
  }

  lemma StepFreezesClosed(s: State, e: Event, id: string)
    requires HasFreshIds(s, e) && Has(s, id, Closed) && !(e.Delete? && e.id == id)
    ensures Has(Next(s, e), id, Closed)
    ensures EvidenceOf(Next(s, e), id) == WithLate(EvidenceOf(s, id), LateDecision(s, e, id))
  {
    var t := Next(s, e);
    ClosedItemsStay(s, e, id);
    ClosedDecisionsGrow(s, e, id);
    forall a
      ensures a in s.actions ==> a in t.actions && t.actions[a].reviewItemId == s.actions[a].reviewItemId
      ensures a in s.actions ==> t.actions[a].kind == s.actions[a].kind
      ensures a in t.actions && t.actions[a].reviewItemId in ItemsOf(s, id) ==> a in s.actions
    {
      ClosedActionsStay(s, e, id, a);
    }
    GrownEvidence(s, t, id, LateDecision(s, e, id));
  }

  ghost predicate IsDeletedIn(run: seq<Event>, id: string) {
    exists k :: 0 <= k < |run| && run[k] == Delete(id)
  }

  lemma NotDeletedLater(run: seq<Event>, id: string)
    requires run != [] && !IsDeletedIn(run, id)
    ensures !(run[0].Delete? && run[0].id == id) && !IsDeletedIn(run[1..], id)
  {
    assert run[0] != Delete(id);
    assert forall k :: 0 <= k < |run| - 1 ==> run[1..][k] == run[k + 1];
  }

  /** The decisions that the run records on the closed campaign from the command line. */
  ghost function LateDecisions(s: State, run: seq<Event>, id: string): seq<Decision>
    requires FreshIds(s, run)
    decreases |run|
  {
    if run == [] then []
    else LateDecision(s, run[0], id) + LateDecisions(Next(s, run[0]), run[1..], id)
  }

  /**
   * Until it is deleted, a closed campaign changes by nothing but the decisions that the command line records on it. It
   * keeps its record, its items, its decisions and its actions exactly when there are none.
   */
  lemma {:induction false} ClosedCampaignsAreFrozen(s: State, run: seq<Event>, id: string)
    requires FreshIds(s, run) && Has(s, id, Closed) && !IsDeletedIn(run, id)
    ensures Has(After(s, run), id, Closed)
    ensures EvidenceOf(After(s, run), id) == WithLate(EvidenceOf(s, id), LateDecisions(s, run, id))
    ensures EvidenceOf(After(s, run), id) == EvidenceOf(s, id) <==> LateDecisions(s, run, id) == []
    decreases |run|
  {
    if run == [] {
      LateAddUp(EvidenceOf(s, id), [], []);
    } else {
      var first, later := LateDecision(s, run[0], id), LateDecisions(Next(s, run[0]), run[1..], id);
      NotDeletedLater(run, id);
      StepFreezesClosed(s, run[0], id);
      ClosedCampaignsAreFrozen(Next(s, run[0]), run[1..], id);
      LateAddUp(EvidenceOf(s, id), first, later);
    }
  }

  lemma LateAddUp(evidence: Evidence, first: seq<Decision>, later: seq<Decision>)
    ensures WithLate(WithLate(evidence, first), later) == WithLate(evidence, first + later)
    ensures WithLate(evidence, first + later) == evidence <==> first + later == []
    ensures WithLate(evidence, []) == evidence
  {
    var before := evidence.decisions;
    assert (before + first) + later == before + (first + later) && before + [] == before;
    assert |before + (first + later)| == |before| + |first + later|;
  }

  // ----- Decisions are evidence -----

  /**
   * The item of an undeleted campaign keeps everything but its reviewer, keeps its decisions, and once decided its
   * reviewer.
   */
  ghost predicate HistoryGrows(s: State, t: State, i: string)
    requires i in s.items
  {
    && i in t.items && t.items[i] == s.items[i].(reviewer := t.items[i].reviewer)
    && Own(i, s.decisions) <= Own(i, t.decisions)
    && (Own(i, s.decisions) != [] ==> t.items[i] == s.items[i])
  }

  lemma StepGrowsHistory(s: State, e: Event, i: string)
    requires Valid(s) && HasFreshIds(s, e) && i in s.items && !(e.Delete? && e.id == s.items[i].campaignId)
    ensures HistoryGrows(s, Next(s, e), i)
  {
    if Touches(s, e, i) {
      if e.Decide? {
        OwnOfMore(s.decisions, e.decision, i);
      } else if e.CliDecide? {
        OwnOfMore(s.decisions, e.decision, i);
      }
    } else {
      StepKeeps(s, e, i);
      if Own(i, s.decisions) != [] {
        OwnMember(i, s.decisions, Own(i, s.decisions)[0]);
        if (e.OpenUp? || e.CliOpen?) && Accepts(s, e) {
          OpeningKeepsItem(s, e, i);
        }
      }
    }
  }

  lemma OpeningKeepsItem(s: State, e: Event, i: string)
    requires HasFreshIds(s, e) && i in s.items && (e.OpenUp? || e.CliOpen?) && Accepts(s, e)
    ensures i in Next(s, e).items && Next(s, e).items[i] == s.items[i]
  {
    match e
    case OpenUp(id, o) =>
      OpeningAddsOwnItems(s, id, Starting(s.campaigns[id], o), Starting(s.campaigns[id], o), o, i);
    case CliOpen(id, o) =>
      OpeningAddsOwnItems(s, id, s.campaigns[id], WithoutFallback(s.campaigns[id]), Plain(o), i);
  }

  /** No run takes a decision back, and none changes who reviewed a decided item. */
  lemma {:induction false} DecisionsAreAppendOnly(s: State, run: seq<Event>, i: string)
    requires Valid(s) && FreshIds(s, run) && i in s.items && !IsDeletedIn(run, s.items[i].campaignId)
    ensures HistoryGrows(s, After(s, run), i)
    decreases |run|
  {
    if run != [] {
      NotDeletedLater(run, s.items[i].campaignId);
      StepGrowsHistory(s, run[0], i);
      NextKeepsValid(s, run[0]);
      DecisionsAreAppendOnly(Next(s, run[0]), run[1..], i);
    }
  }

  // ----- Promotion and deletion -----

  /** A closed campaign is never refused for pending decisions when it is promoted. */
  lemma ClosedCampaignCanBePromoted(s: State, id: string, items: seq<ReviewItem>)
    requires Valid(s) && Has(s, id, Closed)
    requires forall item :: item in items ==> item.id in ItemsOf(s, id)
    ensures Promotion.AllDecided(items, OwnDecisions(s, id))
  {
    forall item | item in items ensures item.id in LatestDecisions(OwnDecisions(s, id)) {
      assert IsSound(s, item.id);
      CampaignSeesCounting(s.decisions, ItemsOf(s, id), item.id);
    }
  }

  ghost predicate HasOrphans(s: State) {
    exists a :: a in s.actions && s.actions[a].reviewItemId !in s.items
  }

  /**
   * Deleting a campaign leaves remediation actions without their item exactly when its items have actions; of the
   * served campaigns, those are the closed ones whose decisions demand some.
   */
  lemma DeletingOrphansActions(s: State, id: string)
    requires Valid(s) && id in s.campaigns && !HasOrphans(s)
    ensures HasOrphans(Next(s, Delete(id))) <==> exists i :: i in ItemsOf(s, id) && ActionsFor(s, i) != {}
    ensures ClosedAreServed(s) ==>
              (HasOrphans(Next(s, Delete(id))) <==> Has(s, id, Closed) && Demanding(s, id) != {})
  {
    var t := Next(s, Delete(id));
    if HasOrphans(t) {
      var a :| a in t.actions && t.actions[a].reviewItemId !in t.items;
      assert s.actions[a].reviewItemId in ItemsOf(s, id) && a in ActionsFor(s, s.actions[a].reviewItemId);
    }
    if i :| i in ItemsOf(s, id) && ActionsFor(s, i) != {} {
      var a :| a in ActionsFor(s, i);
      assert a in t.actions && t.actions[a].reviewItemId !in t.items;
    }
    if ClosedAreServed(s) {
      ServedHaveActions(s, id);
    }
  }

  lemma ServedHaveActions(s: State, id: string)
    requires Valid(s) && ClosedAreServed(s) && id in s.campaigns
    ensures (exists i :: i in ItemsOf(s, id) && ActionsFor(s, i) != {})
       <==> Has(s, id, Closed) && Demanding(s, id) != {}
  {
    forall i | i in ItemsOf(s, id) ensures ActionsFor(s, i) != {} <==> Has(s, id, Closed) && i in Demanding(s, id) {
      assert IsSound(s, i);
      assert Has(s, id, Closed) ==> IsServed(s, i);
    }
    if Demanding(s, id) != {} && Has(s, id, Closed) {
      var i :| i in Demanding(s, id);
      assert i in ItemsOf(s, id) && ActionsFor(s, i) != {};
    }
  }
}
