/** Runs from the empty store on which a property of campaigns fails; all of them review one access. */
module CampaignRuns {
  import opened Domain
  import opened Ordering
  import opened Reviews
  import opened CampaignDecisions
  import opened CampaignLifecycle
  import opened CampaignTheorems

  // The access is expected, observed and to be revoked; the command line then closes, decides or opens, or the campaign
  // is deleted.

  const REVIEWED := Row(Ref("hr", "payroll"), Ref("hr", "alice"), true, true)

  const OPENING := Opening([REVIEWED], [], map[], map[], map[], None, "pilot", ["review"])

  const PLANNED := Campaign(Draft, None, None, "pilot", true)

  const REVOCATION := Decision("first", "review", Revoke, "left the department", "1")

  const APPROVAL := Decision("second", "review", Approve, "", "2")

  const ACTION_IDS := map["review" := "action"]

  const ORDERED := map["action" := Action("review", RevokeAccess, Pending, "")]

  const CREATED := State(map["campaign" := PLANNED], map[], [], map[])

  function Stored(status: Status, reviewer: Option<Ref>, decisions: seq<Decision>,
                  actions: map<string, Action>): State
  {
    var item := ReviewItem("review", "campaign", REVIEWED.access, REVIEWED.identity, None, None, true, true, reviewer);
    State(map["campaign" := PLANNED.(status := status)], map["review" := item], decisions, actions)
  }

  /** The state in which the access is to be revoked and the campaign is still open. */
  const REVOKED := Stored(Open, Some(Ref("local", "pilot")), [REVOCATION], map[])

  const PREPARATION := [Create("campaign", PLANNED), OpenUp("campaign", OPENING), Decide(REVOCATION)]

  // ----- The steps -----

  lemma RunStep(s: State, e: Event, rest: seq<Event>)
    ensures FreshIds(s, [e] + rest) <==> HasFreshIds(s, e) && FreshIds(Next(s, e), rest)
    ensures FreshIds(s, [e] + rest) ==> After(s, [e] + rest) == After(Next(s, e), rest)
  {
    assert ([e] + rest)[0] == e && ([e] + rest)[1..] == rest;
  }

  lemma OneIsKept<T>(keep: T -> bool, x: T)
    ensures Filter(keep, [x]) == if keep(x) then [x] else []
  {
    assert [x][1..] == [];
  }

  lemma OnlyRow(o: Opening, row: Row)
    requires o.rows == [row] && o.relations == []
    ensures Reviewable(o) == [row]
  {
    var linked := LinkedParents(o.relations);
    assert linked == {};
    OneIsKept((row: Row) => row.access !in linked, row);
  }

  lemma OneRow()
    ensures Reviewable(OPENING) == [REVIEWED] && Plain(OPENING) == OPENING && FreshItemIds(CREATED, OPENING)
  {
    OnlyRow(OPENING, REVIEWED);
  }

  lemma OneItem(asked: Campaign)
    ensures |OPENING.ids| == |Reviewable(OPENING)| == 1
    ensures NewItems("campaign", asked, OPENING, 1)
         == map["review" := NewItem("review", "campaign", REVIEWED, asked, OPENING)]
  {
    OneRow();
    assert NewItems("campaign", asked, OPENING, 0) == map[];
  }

  lemma OpeningIs()
    ensures HasFreshIds(CREATED, OpenUp("campaign", OPENING)) && HasFreshIds(CREATED, CliOpen("campaign", OPENING))
    ensures Next(CREATED, OpenUp("campaign", OPENING)) == Stored(Open, Some(Ref("local", "pilot")), [], map[])
    ensures Next(CREATED, CliOpen("campaign", OPENING)) == Stored(Open, None, [], map[])
  {
    OneRow();
    OneItem(PLANNED);
    OneItem(WithoutFallback(PLANNED));
  }

  lemma CreatingIs()
    ensures HasFreshIds(EMPTY, Create("campaign", PLANNED)) && Next(EMPTY, Create("campaign", PLANNED)) == CREATED
  {
  }

  lemma OneCounts(d: Decision)
    ensures Counting([d], d.reviewItemId) == Some(d)
  {
    assert [] + [d] == [d];
    LastRecordedCounts([], d);
  }

  lemma OneDemands(s: State, d: Decision)
    requires s.decisions == [d] && d.reviewItemId == "review" && s.items.Keys == {"review"}
    requires s.items["review"].campaignId == "campaign"
    ensures Demanded(s, "review") == Demand(s.items["review"], d.value) && AllCounted(s, "campaign")
  {
    OneCounts(d);
  }

  lemma OrderedIs()
    ensures FreshActionIds(REVOKED, "campaign", ACTION_IDS) && NewActions(REVOKED, "campaign", ACTION_IDS) == ORDERED
  {
    OneDemands(REVOKED, REVOCATION);
    assert ItemsOf(REVOKED, "campaign") == {"review"};
    assert Demanding(REVOKED, "campaign") == {"review"};
  }

  lemma ClosingIs()
    ensures HasFreshIds(REVOKED, Close("campaign", ACTION_IDS))
    ensures Next(REVOKED, Close("campaign", ACTION_IDS))
         == Stored(Closed, Some(Ref("local", "pilot")), [REVOCATION], ORDERED)
  {
    OneDemands(REVOKED, REVOCATION);
    OrderedIs();
  }

  lemma CliClosingIs()
    ensures Next(REVOKED, CliClose("campaign")) == Stored(Closed, Some(Ref("local", "pilot")), [REVOCATION], map[])
  {
    OneDemands(REVOKED, REVOCATION);
  }

  /** A run that continues the preparation continues from the revoked state. */
  lemma Continues(rest: seq<Event>)
    ensures FreshIds(EMPTY, PREPARATION + rest) <==> FreshIds(REVOKED, rest)
    ensures FreshIds(REVOKED, rest) ==> After(EMPTY, PREPARATION + rest) == After(REVOKED, rest)
  {
    var started := Stored(Open, Some(Ref("local", "pilot")), [], map[]);
    CreatingIs();
    OpeningIs();
    assert Next(started, Decide(REVOCATION)) == REVOKED;
    RunStep(started, Decide(REVOCATION), rest);
    RunStep(CREATED, OpenUp("campaign", OPENING), [Decide(REVOCATION)] + rest);
    RunStep(EMPTY, Create("campaign", PLANNED), [OpenUp("campaign", OPENING)] + ([Decide(REVOCATION)] + rest));
    assert [Create("campaign", PLANNED)] + ([OpenUp("campaign", OPENING)] + ([Decide(REVOCATION)] + rest))
        == PREPARATION + rest;
  }

  // ----- The runs -----

  /** Closed from the command line, a revoked access leaves no work behind: the demanded action is missing. */
  lemma CommandLineCloseOrdersNothing()
    ensures var run := PREPARATION + [CliClose("campaign")];
            && FreshIds(EMPTY, run) && Has(After(EMPTY, run), "campaign", Closed) && "review" in After(EMPTY, run).items
            && Demanded(After(EMPTY, run), "review") == Some(RevokeAccess) && After(EMPTY, run).actions == map[]
            && !IsServed(After(EMPTY, run), "review")
  {
    var t := Stored(Closed, Some(Ref("local", "pilot")), [REVOCATION], map[]);
    CliClosingIs();
    Continues([CliClose("campaign")]);
    RunStep(REVOKED, CliClose("campaign"), []);
    assert [CliClose("campaign")] + [] == [CliClose("campaign")];
    OneDemands(t, REVOCATION);
  }

  /** Approved from the command line after closing, an access is still to be revoked. */
  lemma CommandLineDecisionThaws()
    ensures var run := PREPARATION + [Close("campaign", ACTION_IDS), CliDecide(APPROVAL)];
            && FreshIds(EMPTY, run) && Has(After(EMPTY, run), "campaign", Closed) && "review" in After(EMPTY, run).items
            && After(EMPTY, run).decisions == [REVOCATION, APPROVAL] && After(EMPTY, run).actions == ORDERED
            && Demanded(After(EMPTY, run), "review") == None && !IsServed(After(EMPTY, run), "review")
  {
    Continues([Close("campaign", ACTION_IDS), CliDecide(APPROVAL)]);
    ApprovedAfterClosing();
    LaterCounts();
    assert "action" in ActionsFor(THAWED, "review");
  }

  const THAWED := Stored(Closed, Some(Ref("local", "pilot")), [REVOCATION, APPROVAL], ORDERED)

  lemma ApprovedAfterClosing()
    ensures var rest := [Close("campaign", ACTION_IDS), CliDecide(APPROVAL)];
            FreshIds(REVOKED, rest) && After(REVOKED, rest) == THAWED
  {
    var closed := Stored(Closed, Some(Ref("local", "pilot")), [REVOCATION], ORDERED);
    ClosingIs();
    RunStep(REVOKED, Close("campaign", ACTION_IDS), [CliDecide(APPROVAL)]);
    assert [Close("campaign", ACTION_IDS)] + [CliDecide(APPROVAL)]
        == [Close("campaign", ACTION_IDS), CliDecide(APPROVAL)];
    assert Next(closed, CliDecide(APPROVAL)) == THAWED;
    RunStep(closed, CliDecide(APPROVAL), []);
    assert [CliDecide(APPROVAL)] + [] == [CliDecide(APPROVAL)];
  }

  /** The approval has a later second, so it counts. */
  lemma LaterCounts()
    ensures Counting([REVOCATION, APPROVAL], "review") == Some(APPROVAL)
  {
    assert TextLeq("1", "2");
    assert [REVOCATION] + [APPROVAL] == [REVOCATION, APPROVAL];
    LastRecordedCounts([REVOCATION], APPROVAL);
  }

  /** Opened from the command line, an item may have no reviewer, although the web interface would name the pilot. */
  lemma CommandLineOpensWithoutReviewer()
    ensures var run := [Create("campaign", PLANNED), CliOpen("campaign", OPENING)];
            && FreshIds(EMPTY, run) && Has(After(EMPTY, run), "campaign", Open)
            && "review" in After(EMPTY, run).items && After(EMPTY, run).items["review"].reviewer == None
  {
    CreatingIs();
    OpeningIs();
    RunStep(CREATED, CliOpen("campaign", OPENING), []);
    RunStep(EMPTY, Create("campaign", PLANNED), [CliOpen("campaign", OPENING)]);
    assert [CliOpen("campaign", OPENING)] + [] == [CliOpen("campaign", OPENING)];
    assert [Create("campaign", PLANNED)] + [CliOpen("campaign", OPENING)]
        == [Create("campaign", PLANNED), CliOpen("campaign", OPENING)];
  }

  /** Deleted after closing, a campaign leaves an action whose review item is gone. */
  lemma DeletionLeavesOrphan()
    ensures var run := PREPARATION + [Close("campaign", ACTION_IDS), Delete("campaign")];
            && FreshIds(EMPTY, run) && After(EMPTY, run).items == map[] && After(EMPTY, run).actions == ORDERED
            && HasOrphans(After(EMPTY, run))
  {
    var closed := Stored(Closed, Some(Ref("local", "pilot")), [REVOCATION], ORDERED);
    ClosingIs();
    Continues([Close("campaign", ACTION_IDS), Delete("campaign")]);
    RunStep(REVOKED, Close("campaign", ACTION_IDS), [Delete("campaign")]);
    assert [Close("campaign", ACTION_IDS)] + [Delete("campaign")]
        == [Close("campaign", ACTION_IDS), Delete("campaign")];
    RunStep(closed, Delete("campaign"), []);
    assert [Delete("campaign")] + [] == [Delete("campaign")];
    assert Next(closed, Delete("campaign")).items == map[] && Next(closed, Delete("campaign")).actions == ORDERED;
    assert "action" in ORDERED;
  }
}
