/** What opening a campaign stores, row by row: which rows are reviewed, what each item records and who reviews it. */
module CampaignOpenings {
  import opened Domain
  import opened Ordering
  import opened Reviews
  import opened CampaignDecisions
  import opened CampaignLifecycle
  import opened CampaignTheorems
  import opened CampaignStore

  // ----- Which rows are reviewed -----

  /** The access is reviewed through others that it leads to: it is a composite, or a group that gives client roles. */
  ghost predicate IsHidden(relations: seq<Relation>, access: Ref) {
    exists r :: r in relations && r.parent == access
             && (r.origin.composite || ("group:" <= access.name && "client:" <= r.child.name))
  }

  lemma HiddenAreLinked(relations: seq<Relation>, access: Ref)
    ensures IsHidden(relations, access) <==> access in LinkedParents(relations)
  {
  }

  /** The rows that are not hidden are reviewed, in the order in which they are listed. */
  lemma RowsAreReviewed(o: Opening)
    ensures Reviewable(o) == Filter((row: Row) => !IsHidden(o.relations, row.access), o.rows)
  {
    var linked := LinkedParents(o.relations);
    forall row: Row ensures row.access !in linked <==> !IsHidden(o.relations, row.access) {
      HiddenAreLinked(o.relations, row.access);
    }
    SameFilter((row: Row) => row.access !in linked, (row: Row) => !IsHidden(o.relations, row.access), o.rows);
  }

  // ----- Who reviews a row -----

  /**
   * Who may review a row, in this order: the owner of the access, the owner of the account, the reviewer appointed for
   * a known access, the default reviewer, the manager and, where unresolved reviewers are allowed, the pilot.
   */
  function Sources(row: Row, c: Campaign, o: Opening): seq<Option<Ref>> {
    [if row.access in o.accesses then o.accesses[row.access].owner else None,
     if row.identity in o.accountOwners then Some(o.accountOwners[row.identity]) else None,
     if row.access in o.accesses && row.access in o.appointed then Some(o.appointed[row.access]) else None,
     c.defaultReviewer,
     c.manager,
     if c.allowUnresolved then Some(Ref("local", c.pilot)) else None]
  }

  /** The first of the sources that names somebody; nobody if none does. */
  predicate IsFirstNamed(reviewer: Option<Ref>, sources: seq<Option<Ref>>) {
    if reviewer.None? then forall k :: 0 <= k < |sources| ==> sources[k].None?
    else exists k :: 0 <= k < |sources| && sources[k] == reviewer && forall j :: 0 <= j < k ==> sources[j].None?
  }

  lemma ReviewerIsFirstNamed(row: Row, c: Campaign, o: Opening)
    ensures IsFirstNamed(ReviewerFor(row, c, o), Sources(row, c, o))
  {
    var sources, reviewer := Sources(row, c, o), ReviewerFor(row, c, o);
    if reviewer.Some? {
      var k := if sources[0].Some? then 0 else if sources[1].Some? then 1 else if sources[2].Some? then 2
               else if sources[3].Some? then 3 else if sources[4].Some? then 4 else 5;
      assert sources[k] == reviewer && forall j :: 0 <= j < k ==> sources[j].None?;
    }
  }

  lemma NamedMeansReviewer(row: Row, c: Campaign, o: Opening)
    ensures ReviewerFor(row, c, o).Some? <==> exists k :: 0 <= k < |Sources(row, c, o)| && Sources(row, c, o)[k].Some?
  {
    ReviewerIsFirstNamed(row, c, o);
  }

  // ----- What is stored -----

  /** The item records the row, the native id and permission of its access, and the first reviewer that is named. */
  predicate RecordsRow(item: ReviewItem, id: string, campaign: string, row: Row, c: Campaign, o: Opening) {
    && item.id == id && item.campaignId == campaign && item.access == row.access && item.identity == row.identity
    && item.expected == row.expected && item.observed == row.observed
    && item.controlNativeId == (if row.access in o.accesses && o.accesses[row.access].controlObject.Some?
                                then o.accesses[row.access].controlObject.value.nativeId else None)
    && item.permission == (if row.access in o.accesses then o.accesses[row.access].permission else None)
    && IsFirstNamed(item.reviewer, Sources(row, c, o))
  }

  /** The reviewed rows of the opening are those of the ids, and each has its item; the other items are as before. */
  ghost predicate RecordsRows(s: State, t: State, campaign: string, c: Campaign, o: Opening) {
    && |o.ids| == |Reviewable(o)|
    && (forall k :: 0 <= k < |o.ids| ==>
          o.ids[k] in t.items && RecordsRow(t.items[o.ids[k]], o.ids[k], campaign, Reviewable(o)[k], c, o))
    && (forall i :: i !in o.ids ==> (i in t.items <==> i in s.items) && (i in s.items ==> t.items[i] == s.items[i]))
    && t.decisions == s.decisions && t.actions == s.actions
  }

  lemma OpenedRecordsRows(s: State, id: string, c: Campaign, asked: Campaign, o: Opening)
    requires Valid(s) && FreshItemIds(s, o) && Has(s, id, Draft)
    ensures RecordsRows(s, Opened(s, id, c, asked, o), id, asked, o)
  {
    var t := Opened(s, id, c, asked, o);
    NewItemsAre(id, asked, o, |o.ids|);
    assert o.ids[..|o.ids|] == o.ids;
    forall k | 0 <= k < |o.ids|
      ensures o.ids[k] in t.items && RecordsRow(t.items[o.ids[k]], o.ids[k], id, Reviewable(o)[k], asked, o)
    {
      OpenedIsSound(s, id, c, asked, o, k);
      ReviewerIsFirstNamed(Reviewable(o)[k], asked, o);
    }
  }

  /** Some source names a reviewer for every row that is not hidden. */
  ghost predicate NamesReviewers(c: Campaign, o: Opening) {
    forall row :: row in o.rows && !IsHidden(o.relations, row.access) ==>
      exists k :: 0 <= k < |Sources(row, c, o)| && Sources(row, c, o)[k].Some?
  }

  lemma NamesMeansResolves(c: Campaign, o: Opening)
    ensures AllHaveReviewer(c, o) <==> NamesReviewers(c, o)
  {
    ReviewableAre(o);
    forall row ensures row in Reviewable(o) <==> row in o.rows && !IsHidden(o.relations, row.access) {
      HiddenAreLinked(o.relations, row.access);
    }
    forall row ensures ReviewerFor(row, c, o).Some?
                  <==> exists k :: 0 <= k < |Sources(row, c, o)| && Sources(row, c, o)[k].Some? {
      NamedMeansReviewer(row, c, o);
    }
  }

  lemma DraftIsOpened(s: State, id: string, o: Opening, asked: Campaign)
    requires Valid(s) && HasFreshIds(s, OpenUp(id, o)) && Has(s, id, Draft) && asked == Starting(s.campaigns[id], o)
    ensures Next(s, OpenUp(id, o))
         == if asked.allowUnresolved || NamesReviewers(asked, o) then Opened(s, id, asked, asked, o) else s
    ensures RecordsRows(s, Opened(s, id, asked, asked, o), id, asked, o)
  {
    NamesMeansResolves(asked, o);
    OpenedRecordsRows(s, id, asked, asked, o);
  }

  /**
   * A draft is opened through the web interface unless a reviewer is missing that must not be. The campaign keeps its
   * pilot or gets the one who opens it, and each reviewed row has its item.
   */
  lemma OpeningRecordsRows(s: State, id: string, o: Opening, asked: Campaign)
    requires Valid(s) && HasFreshIds(s, OpenUp(id, o)) && id in s.campaigns
    requires asked == s.campaigns[id].(
                        pilot := if s.campaigns[id].pilot == "" then o.principal else s.campaigns[id].pilot,
                        allowUnresolved := if o.allow == None then s.campaigns[id].allowUnresolved else o.allow.value)
    ensures var t := Next(s, OpenUp(id, o));
            if s.campaigns[id].status == Draft && (asked.allowUnresolved || NamesReviewers(asked, o))
            then t.campaigns == s.campaigns[id := asked.(status := Open)] && RecordsRows(s, t, id, asked, o)
            else t == s
  {
    if s.campaigns[id].status == Draft {
      DraftIsOpened(s, id, o, asked);
    }
  }

  /** The command line appoints nobody, and no pilot reviews what nobody else does. */
  lemma CommandLineOpeningRecordsRows(s: State, id: string, o: Opening)
    requires Valid(s) && HasFreshIds(s, CliOpen(id, o)) && id in s.campaigns
    ensures var t := Next(s, CliOpen(id, o));
            var c := s.campaigns[id];
            var asked, plain := c.(allowUnresolved := false), o.(appointed := map[]);
            if c.status == Draft && (c.allowUnresolved || NamesReviewers(asked, plain))
            then t.campaigns == s.campaigns[id := c.(status := Open)] && RecordsRows(s, t, id, asked, plain)
            else t == s
  {
    if s.campaigns[id].status == Draft {
      NamesMeansResolves(WithoutFallback(s.campaigns[id]), Plain(o));
      OpenedRecordsRows(s, id, s.campaigns[id], WithoutFallback(s.campaigns[id]), Plain(o));
    }
  }

  // ----- Handing over and commenting -----

  /**
   * Handing over reviews changes the reviewer of exactly the undecided items of open campaigns that the former one has,
   * and leaves everything else. The new reviewer is looked for where the former one was, or where the account is.
   */
  lemma ReassigningMoves(s: State, lower: string -> string, from: string, to: string, i: string)
    requires i in s.items
    ensures var t := Next(s, Reassign(lower, from, to));
            var item := s.items[i];
            var name := if item.reviewer == None then "" else item.reviewer.value.name;
            var isHanded := to != "" && to != from && lower(name) == from
                            && (forall d :: d in s.decisions ==> d.reviewItemId != i)
                            && item.campaignId in s.campaigns && s.campaigns[item.campaignId].status == Open;
            var provider := if item.reviewer != None && item.reviewer.value.provider != ""
                            then item.reviewer.value.provider else item.identity.provider;
            && t.items.Keys == s.items.Keys
            && t.items[i] == (if isHanded then item.(reviewer := Some(Ref(provider, to))) else item)
            && t.campaigns == s.campaigns && t.decisions == s.decisions && t.actions == s.actions
  {
  }

  /** Whatever withholds an access says why, and so does an action that was not carried out. */
  ghost predicate GivesReasons(s: State) {
    && (forall d :: d in s.decisions && d.value in {Revoke, NotApplicable} ==> d.comment != "")
    && (forall a :: a in s.actions ==>
          |s.actions[a].comment| <= 4000 && (s.actions[a].progress == NotCompleted ==> s.actions[a].comment != ""))
  }

  lemma StepGivesReasons(s: State, e: Event)
    requires GivesReasons(s) && HasFreshIds(s, e)
    ensures GivesReasons(Next(s, e))
  {
    var t := Next(s, e);
    if e.Delete? && Accepts(s, e) {
      var gone := ItemsOf(s, e.id);
      forall d | d in t.decisions ensures d in s.decisions {
        FilterMember((d: Decision) => d.reviewItemId !in gone, s.decisions, d);
      }
    }
  }

  /** After any run, from the web interface and the command line, every stored revocation has its reason. */
  lemma {:induction false} ReasonsAreGiven(s: State, run: seq<Event>)
    requires GivesReasons(s) && FreshIds(s, run)
    ensures GivesReasons(After(s, run))
    decreases |run|
  {
    if run != [] {
      StepGivesReasons(s, run[0]);
      ReasonsAreGiven(Next(s, run[0]), run[1..]);
    }
  }
}
