/** Promoting the decisions of a campaign into the next Golden version. */
module Promotion {
  import opened Domain
  import opened Ordering
  import opened GoldenVersions
  import opened Reviews

  /** A reviewed assignment, the previous assignment it stands for, and the decision on it. */
  datatype Review = Review(candidate: GoldenAssignment, previous: Option<GoldenAssignment>, decision: DecisionValue)

  function NonEmpty(text: Option<string>): Option<string> {
    if Present(text) then text else None
  }

  /** The assignment a review item stands for; the observed snapshot has precedence over the item's own copy. */
  function CandidateOf(item: ReviewItem, accesses: map<Ref, Access>, identities: map<Ref, Identity>): GoldenAssignment {
    var access := if item.access in accesses then Some(accesses[item.access]) else None;
    GoldenAssignment(
      item.access,
      item.identity,
      if access.Some? && access.value.controlObject.Some? then AccessNativeId(access.value)
      else NonEmpty(item.controlNativeId),
      if access.Some? && access.value.permission.Some? then access.value.permission else NonEmpty(item.permission),
      if item.identity in identities then identities[item.identity].nativeId else None)
  }

  predicate Agrees(left: Option<string>, right: Option<string>) {
    Present(left) && Present(right) ==> left == right
  }

  /** A name match is allowed only when the native facts that both sides have agree. */
  predicate CompatibleMetadata(previous: GoldenAssignment, candidate: GoldenAssignment) {
    && Agrees(previous.accessNativeId, candidate.accessNativeId)
    && Agrees(previous.identityNativeId, candidate.identityNativeId)
    && Agrees(previous.accessPermission, candidate.accessPermission)
  }

  function StableMatches(base: set<GoldenAssignment>, candidate: GoldenAssignment): set<GoldenAssignment> {
    set x | x in base && HasStableKey(candidate) && StableKeyOf(x) == StableKeyOf(candidate)
  }

  function NameMatches(base: set<GoldenAssignment>, candidate: GoldenAssignment): set<GoldenAssignment> {
    set x | x in base && LegacyKeyOf(x) == LegacyKeyOf(candidate) && CompatibleMetadata(x, candidate)
  }

  function Only(items: set<GoldenAssignment>): (only: Option<GoldenAssignment>)
    ensures only.Some? <==> exists x :: items == {x}
    ensures only.Some? ==> items == {only.value}
  {
    if x :| x in items && items == {x} then Some(x) else None
  }

  /** The previous assignment: the only one with the candidate's stable key, else the only compatible one by name. */
  function MatchingPrevious(base: set<GoldenAssignment>, candidate: GoldenAssignment): Option<GoldenAssignment> {
    var stable := Only(StableMatches(base, candidate));
    if stable.Some? then stable else Only(NameMatches(base, candidate))
  }

  /** The candidate with the native facts it lacks taken from the previous assignment. */
  function Merged(r: Review): GoldenAssignment {
    if r.previous.None? then r.candidate
    else
      var p := r.previous.value;
      r.candidate.(accessNativeId := OrElse(r.candidate.accessNativeId, p.accessNativeId),
                   accessPermission := OrElse(r.candidate.accessPermission, p.accessPermission),
                   identityNativeId := OrElse(r.candidate.identityNativeId, p.identityNativeId))
  }

  function Apply(result: set<GoldenAssignment>, r: Review): set<GoldenAssignment> {
    match r.decision
    case Approve => result + {Merged(r)}
    case Revoke => if r.previous.Some? then result - {r.previous.value} else result
    case NotApplicable => result
  }

  function ApplyAll(reviews: seq<Review>, start: set<GoldenAssignment>): set<GoldenAssignment> {
    if reviews == [] then start
    else Apply(ApplyAll(reviews[..|reviews| - 1], start), reviews[|reviews| - 1])
  }

  function MatchedPrevious(reviews: seq<Review>): set<GoldenAssignment> {
    set r | r in reviews && r.previous.Some? :: r.previous.value
  }

  function ApprovedAssignments(reviews: seq<Review>): set<GoldenAssignment> {
    set r | r in reviews && r.decision == Approve :: Merged(r)
  }

  /** What a promotion is for: the untouched assignments, and the approved ones. */
  function Intended(reviews: seq<Review>, base: set<GoldenAssignment>): set<GoldenAssignment> {
    base - MatchedPrevious(reviews) + ApprovedAssignments(reviews)
  }

  predicate Revokes(r: Review, item: GoldenAssignment) {
    r.decision == Revoke && r.previous == Some(item)
  }

  predicate Approves(r: Review, item: GoldenAssignment) {
    r.decision == Approve && Merged(r) == item
  }

  /** No approved assignment is the revoked previous one of a later review, unless it is approved again after that. */
  ghost predicate NoApprovalIsLost(reviews: seq<Review>) {
    forall i, j ::
      0 <= i < j < |reviews| && reviews[i].decision == Approve && Revokes(reviews[j], Merged(reviews[i])) ==>
      exists k :: j < k < |reviews| && Approves(reviews[k], Merged(reviews[i]))
  }

  /** The last review that approves or revokes the item approves it. */
  ghost predicate ApprovedLast(reviews: seq<Review>, item: GoldenAssignment) {
    exists i :: ApprovedFrom(reviews, item, i)
  }

  ghost predicate ApprovedFrom(reviews: seq<Review>, item: GoldenAssignment, i: int) {
    && 0 <= i < |reviews| && Approves(reviews[i], item)
    && forall j :: i < j < |reviews| ==> !Revokes(reviews[j], item)
  }

  lemma {:induction false} LoopMembership(reviews: seq<Review>, start: set<GoldenAssignment>, item: GoldenAssignment)
    ensures item in ApplyAll(reviews, start) <==>
              ApprovedLast(reviews, item)
                  || (item in start && forall j :: 0 <= j < |reviews| ==> !Revokes(reviews[j], item))
  {
    if reviews != [] {
      var n := |reviews| - 1;
      var rest, last := reviews[..n], reviews[n];
      LoopMembership(rest, start, item);
      if Approves(last, item) {
        assert ApprovedFrom(reviews, item, n);
      } else if Revokes(last, item) {
        assert !ApprovedLast(reviews, item);
      } else {
        assert ApprovedLast(reviews, item) <==> ApprovedLast(rest, item) by {
          forall i ensures ApprovedFrom(reviews, item, i) <==> ApprovedFrom(rest, item, i) {
            assert forall j :: 0 <= j < n ==> rest[j] == reviews[j];
          }
        }
        assert forall j :: 0 <= j < n ==> rest[j] == reviews[j];
      }
    }
  }

  /** The loop gives the intended result exactly when no later revoke takes an approved assignment away. */
  lemma LoopMeetsIntention(reviews: seq<Review>, base: set<GoldenAssignment>)
    ensures ApplyAll(reviews, base - MatchedPrevious(reviews)) == Intended(reviews, base) <==> NoApprovalIsLost(reviews)
  {
    var start := base - MatchedPrevious(reviews);
    var result := ApplyAll(reviews, start);
    forall item ensures item in result <==> ApprovedLast(reviews, item) || item in start {
      LoopMembership(reviews, start, item);
      if item in start {
        forall j | 0 <= j < |reviews| ensures !Revokes(reviews[j], item) {
          assert reviews[j] in reviews;
        }
      }
    }
    if NoApprovalIsLost(reviews) {
      forall item | item in ApprovedAssignments(reviews) ensures ApprovedLast(reviews, item) {
        var i :| 0 <= i < |reviews| && Approves(reviews[i], item);
        LastApproval(reviews, item, i);
      }
      forall item | ApprovedLast(reviews, item) ensures item in ApprovedAssignments(reviews) {
        var i :| ApprovedFrom(reviews, item, i);
        assert reviews[i] in reviews;
      }
      assert result == Intended(reviews, base);
    }
    if result == Intended(reviews, base) {
      forall i, j | 0 <= i < j < |reviews| && reviews[i].decision == Approve && Revokes(reviews[j], Merged(reviews[i]))
        ensures exists k :: j < k < |reviews| && Approves(reviews[k], Merged(reviews[i]))
      {
        var item := Merged(reviews[i]);
        assert reviews[i] in reviews && item in result;
        assert reviews[j] in reviews && item !in start;
        assert ApprovedLast(reviews, item);
      }
    }
  }

  lemma LastApproval(reviews: seq<Review>, item: GoldenAssignment, i: nat)
    requires NoApprovalIsLost(reviews) && i < |reviews| && Approves(reviews[i], item)
    ensures ApprovedLast(reviews, item)
    decreases |reviews| - i
  {
    if j :| i < j < |reviews| && Revokes(reviews[j], item) {
      var k :| j < k < |reviews| && Approves(reviews[k], item);
      LastApproval(reviews, item, k);
    } else {
      assert ApprovedFrom(reviews, item, i);
    }
  }

  // ----- When the order of the reviews does not matter -----

  /** One review approves an assignment that another one revokes. */
  ghost predicate Disagree(reviews: seq<Review>) {
    exists a, b :: a in reviews && b in reviews && a.decision == Approve && Revokes(b, Merged(a))
  }

  ghost predicate AllOrdersAgree(reviews: seq<Review>, start: set<GoldenAssignment>) {
    forall order: seq<Review> :: multiset(order) == multiset(reviews) ==>
      ApplyAll(order, start) == ApplyAll(reviews, start)
  }

  /** All orders of the reviews leave the same assignments exactly when none revokes what another one approves. */
  lemma OrdersAgreeExactly(reviews: seq<Review>, start: set<GoldenAssignment>)
    ensures AllOrdersAgree(reviews, start) <==> !Disagree(reviews)
  {
    if Disagree(reviews) {
      var a, b :| a in reviews && b in reviews && a.decision == Approve && Revokes(b, Merged(a));
      var approvedLast := MovedToEnd(reviews, a);
      var revokedLast := MovedToEnd(reviews, b);
      assert Merged(a) in ApplyAll(approvedLast, start) && Merged(a) !in ApplyAll(revokedLast, start);
    } else {
      forall order: seq<Review> | multiset(order) == multiset(reviews)
        ensures ApplyAll(order, start) == ApplyAll(reviews, start)
      {
        forall r ensures r in order <==> r in reviews {
          assert r in multiset(order) <==> r in multiset(reviews);
        }
        forall item ensures item in ApplyAll(order, start) <==> item in ApplyAll(reviews, start) {
          AgreedMembership(order, start, item);
          AgreedMembership(reviews, start, item);
        }
      }
    }
  }

  lemma MovedToEnd(reviews: seq<Review>, r: Review) returns (order: seq<Review>)
    requires r in reviews
    ensures multiset(order) == multiset(reviews) && order != [] && order[|order| - 1] == r
  {
    var k :| 0 <= k < |reviews| && reviews[k] == r;
    order := reviews[..k] + reviews[k + 1..] + [r];
    assert reviews == reviews[..k] + [r] + reviews[k + 1..];
  }

  /** Without a disagreement an assignment is kept when some review approves it, or when none revokes it. */
  lemma AgreedMembership(reviews: seq<Review>, start: set<GoldenAssignment>, item: GoldenAssignment)
    requires !Disagree(reviews)
    ensures item in ApplyAll(reviews, start)
       <==> (exists r :: r in reviews && Approves(r, item))
            || (item in start && forall r :: r in reviews ==> !Revokes(r, item))
  {
    LoopMembership(reviews, start, item);
    if r :| r in reviews && Approves(r, item) {
      var i :| 0 <= i < |reviews| && reviews[i] == r;
      forall j | i < j < |reviews| ensures !Revokes(reviews[j], item) {
        assert reviews[j] in reviews;
      }
      assert ApprovedFrom(reviews, item, i);
    }
  }

  // ----- Reviews of one campaign -----

  function ReviewsOf(base: set<GoldenAssignment>, candidates: seq<GoldenAssignment>,
                     decisions: seq<DecisionValue>): seq<Review>
    requires |candidates| == |decisions|
  {
    seq(|candidates|, i requires 0 <= i < |candidates| =>
      Review(candidates[i], MatchingPrevious(base, candidates[i]), decisions[i]))
  }

  ghost predicate DistinctNames(candidates: seq<GoldenAssignment>) {
    forall i, j :: 0 <= i < j < |candidates| ==> LegacyKeyOf(candidates[i]) != LegacyKeyOf(candidates[j])
  }

  ghost predicate DistinctPrevious(reviews: seq<Review>) {
    forall i, j :: 0 <= i < j < |reviews| && reviews[i].previous.Some? ==> reviews[i].previous != reviews[j].previous
  }

  /** Filling in native facts keeps a stable key that the candidate shares with its previous assignment. */
  lemma MergeKeepsStableKey(r: Review)
    requires r.previous.Some? && HasStableKey(r.candidate) && StableKeyOf(r.previous.value) == StableKeyOf(r.candidate)
    ensures StableKeyOf(Merged(r)) == StableKeyOf(r.candidate)
  {
    var p := r.previous.value;
    assert HasStableKey(p);
    assert Present(p.accessNativeId) <==> Present(r.candidate.accessNativeId);
    assert Present(p.identityNativeId) <==> Present(r.candidate.identityNativeId);
  }

  lemma PreviousIsMember(base: set<GoldenAssignment>, candidate: GoldenAssignment)
    requires MatchingPrevious(base, candidate).Some?
    ensures MatchingPrevious(base, candidate).value in base
  {
    var p := MatchingPrevious(base, candidate).value;
    assert p in StableMatches(base, candidate) || p in NameMatches(base, candidate);
  }

  /** When the merged assignment existed before, it is the previous assignment itself. */
  lemma HeldMergeIsPrevious(base: set<GoldenAssignment>, r: Review)
    requires r.previous == MatchingPrevious(base, r.candidate) && r.previous.Some?
    requires UniqueStableKeys(base) && Merged(r) in base
    ensures r.previous == Some(Merged(r))
  {
    if Only(StableMatches(base, r.candidate)).Some? {
      assert r.previous.value in StableMatches(base, r.candidate);
      MergeKeepsStableKey(r);
    } else {
      assert r.previous.value in NameMatches(base, r.candidate);
      assert Merged(r) in NameMatches(base, r.candidate);
    }
  }

  lemma StableMemberMatchesItself(base: set<GoldenAssignment>, item: GoldenAssignment)
    requires item in base && HasStableKey(item) && UniqueStableKeys(base)
    ensures MatchingPrevious(base, item) == Some(item)
  {
    assert StableMatches(base, item) == {item};
  }

  lemma NativelessMatchHasName(base: set<GoldenAssignment>, candidate: GoldenAssignment, item: GoldenAssignment)
    requires MatchingPrevious(base, candidate) == Some(item) && !HasStableKey(item)
    ensures LegacyKeyOf(item) == LegacyKeyOf(candidate)
  {
    assert item in StableMatches(base, candidate) || item in NameMatches(base, candidate);
  }

  /** Under the three hypotheses an approved assignment is never another review's previous one. */
  lemma MergedIsNobodysPrevious(base: set<GoldenAssignment>, a: Review, b: Review)
    requires a.previous == MatchingPrevious(base, a.candidate) && b.previous == MatchingPrevious(base, b.candidate)
    requires UniqueStableKeys(base) && LegacyKeyOf(a.candidate) != LegacyKeyOf(b.candidate)
    requires a.previous.Some? ==> a.previous != b.previous
    ensures b.previous != Some(Merged(a))
  {
    if b.previous == Some(Merged(a)) {
      PreviousIsMember(base, b.candidate);
      if a.previous.Some? {
        HeldMergeIsPrevious(base, a);
      } else if HasStableKey(a.candidate) {
        StableMemberMatchesItself(base, a.candidate);
      } else {
        NativelessMatchHasName(base, b.candidate, a.candidate);
      }
    }
  }

  /**
   * With distinct names among the reviewed items, distinct previous assignments and unique stable keys before,
   * which rule out that one item revokes what another one approves, a promotion that replaces the reviewed scope
   * yields the untouched assignments and the approved ones, in whatever order the items are processed.
   */
  lemma PromotionIsOrderIndependent(base: set<GoldenAssignment>, candidates: seq<GoldenAssignment>,
                                    decisions: seq<DecisionValue>)
    requires |candidates| == |decisions|
    requires UniqueStableKeys(base) && DistinctNames(candidates)
    requires DistinctPrevious(ReviewsOf(base, candidates, decisions))
    ensures var reviews := ReviewsOf(base, candidates, decisions);
            && ApplyAll(reviews, base - MatchedPrevious(reviews)) == Intended(reviews, base)
            && AllOrdersAgree(reviews, base - MatchedPrevious(reviews))
  {
    var reviews := ReviewsOf(base, candidates, decisions);
    forall i, j | 0 <= i < |reviews| && 0 <= j < |reviews| && reviews[i].decision == Approve
      ensures !Revokes(reviews[j], Merged(reviews[i]))
    {
      if i != j {
        NamesDifferAt(candidates, i, j);
        assert reviews[i].previous.Some? ==> reviews[i].previous != reviews[j].previous;
        MergedIsNobodysPrevious(base, reviews[i], reviews[j]);
      }
    }
    LoopMeetsIntention(reviews, base);
    OrdersAgreeExactly(reviews, base - MatchedPrevious(reviews));
  }

  lemma NamesDifferAt(candidates: seq<GoldenAssignment>, i: nat, j: nat)
    requires DistinctNames(candidates) && i < |candidates| && j < |candidates| && i != j
    ensures LegacyKeyOf(candidates[i]) != LegacyKeyOf(candidates[j])
  {
  }

  // ----- The promotion of a campaign -----

  ghost predicate AllDecided(items: seq<ReviewItem>, decisions: seq<Decision>) {
    forall item :: item in items ==> item.id in LatestDecisions(decisions)
  }

  function CampaignReviews(items: seq<ReviewItem>, decisions: seq<Decision>, base: set<GoldenAssignment>,
                           snapshot: Option<Snapshot>): seq<Review>
    requires AllDecided(items, decisions)
  {
    var accesses := if snapshot.Some? then AccessesByRef(snapshot.value.accesses) else map[];
    var identities := if snapshot.Some? then IdentitiesByRef(snapshot.value.identities) else map[];
    ReviewsOf(base,
              seq(|items|, i requires 0 <= i < |items| => CandidateOf(items[i], accesses, identities)),
              seq(|items|, i requires 0 <= i < |items| => LatestDecisions(decisions)[items[i].id].value))
  }

  function Assignments(version: Option<GoldenVersion>): set<GoldenAssignment> {
    if version.Some? then version.value.assignments else {}
  }

  const REPLACE_SCOPE := "replace_scope"
  const FULL_REPLACE := "full_replace"

  /** The assignments that the loop over the review items leaves. */
  ghost function PromotedAssignments(items: seq<ReviewItem>, decisions: seq<Decision>, previous: Option<GoldenVersion>,
                                     mode: string, snapshot: Option<Snapshot>): set<GoldenAssignment>
    requires AllDecided(items, decisions)
  {
    var base := Assignments(previous);
    var reviews := CampaignReviews(items, decisions, base, snapshot);
    ApplyAll(reviews, if mode == FULL_REPLACE then {} else base - MatchedPrevious(reviews))
  }

  /** A version with new assignments; everything else of the previous version is carried over. */
  function CarryForward(previous: Option<GoldenVersion>, assignments: set<GoldenAssignment>): GoldenVersion {
    if previous.Some? then
      previous.value.(version := NextVersion([previous.value]), sourceType := "promoted_campaign",
                      assignments := assignments)
    else
      GoldenVersion(NextVersion([]), "promoted_campaign", assignments, 1, [], [], [], [], None)
  }

  /** A campaign changes the assignments: everything else is that of the previous version, or empty if there is none. */
  predicate CarriesForward(next: GoldenVersion, previous: Option<GoldenVersion>) {
    && next.sourceType == "promoted_campaign"
    && match previous
       case None =>
         && next.version == 1 && next.schemaVersion == 1 && next.definitions == [] && next.relations == []
         && next.models == [] && next.comments == [] && next.policy == None
       case Some(v) =>
         && next.version == v.version + 1 && next.schemaVersion == v.schemaVersion
         && next.definitions == v.definitions && next.relations == v.relations && next.models == v.models
         && next.comments == v.comments && next.policy == v.policy
  }

  lemma CarryingForward(previous: Option<GoldenVersion>, assignments: set<GoldenAssignment>)
    ensures CarriesForward(CarryForward(previous, assignments), previous)
    ensures CarryForward(previous, assignments).assignments == assignments
  {
    if previous.Some? {
      assert previous.value in [previous.value];
    }
  }

  /** The loop over the reviews: an approval adds, a revocation discards. */
  method ApplyReviews(reviews: seq<Review>, start: set<GoldenAssignment>) returns (result: set<GoldenAssignment>)
    ensures result == ApplyAll(reviews, start)
  {
    result := start;
    for i := 0 to |reviews|
      invariant result == ApplyAll(reviews[..i], start)
    {
      var review := reviews[i];
      assert reviews[..i + 1][..i] == reviews[..i];
      if review.decision == Approve {
        result := result + {Merged(review)};
      } else if review.decision == Revoke && review.previous.Some? {
        result := result - {review.previous.value};
      }
    }
    assert reviews[..|reviews|] == reviews;
  }

  /** Turns the latest decision on each review item into the next version. */
  method PromoteCampaign(items: seq<ReviewItem>, decisions: seq<Decision>, previous: Option<GoldenVersion>,
                         mode: string,
                         snapshot: Option<Snapshot>)
    returns (version: Result<GoldenVersion>)
    ensures version.Ok? <==>
              (&& AllDecided(items, decisions) && mode in {REPLACE_SCOPE, FULL_REPLACE}
               && UniqueStableKeys(PromotedAssignments(items, decisions, previous, mode, snapshot)))
    ensures version.Ok? ==>
              version.value == CarryForward(previous, PromotedAssignments(items, decisions, previous, mode, snapshot))
    ensures version.Ok? ==>
              && CarriesForward(version.value, previous)
              && version.value.assignments == PromotedAssignments(items, decisions, previous, mode, snapshot)
  {
    var latest := LatestDecisions(decisions);
    if exists item :: item in items && item.id !in latest {
      return Error("Cannot promote campaign with pending decisions");
    }
    var base := Assignments(previous);
    var reviews := CampaignReviews(items, decisions, base, snapshot);
    var result: set<GoldenAssignment>;
    if mode == FULL_REPLACE {
      result := {};
    } else if mode == REPLACE_SCOPE {
      result := base - MatchedPrevious(reviews);
    } else {
      return Error("mode must be replace_scope or full_replace");
    }
    result := ApplyReviews(reviews, result);
    var list := Enumerate(result);
    ListHasUniqueKeys(list, result);
    var accepted := RejectDuplicateStableKeys(list);
    if !accepted {
      return Error("Golden Source contains duplicate stable assignment key");
    }
    CarryingForward(previous, result);
    return Ok(CarryForward(previous, result));
  }

  /** The hypotheses on a campaign: distinct names, distinct previous assignments, unique stable keys before. */
  ghost predicate Separable(items: seq<ReviewItem>, decisions: seq<Decision>, previous: Option<GoldenVersion>,
                            snapshot: Option<Snapshot>)
    requires AllDecided(items, decisions)
  {
    && (forall i, j :: 0 <= i < j < |items| ==>
          (items[i].access, items[i].identity) != (items[j].access, items[j].identity))
    && UniqueStableKeys(Assignments(previous))
    && DistinctPrevious(CampaignReviews(items, decisions, Assignments(previous), snapshot))
  }

  /** A separable campaign promotes exactly the untouched assignments and its approved ones. */
  lemma CampaignPromotesItsApprovals(items: seq<ReviewItem>, decisions: seq<Decision>, previous: Option<GoldenVersion>,
                                     snapshot: Option<Snapshot>)
    requires AllDecided(items, decisions) && Separable(items, decisions, previous, snapshot)
    ensures PromotedAssignments(items, decisions, previous, REPLACE_SCOPE, snapshot)
         == Intended(CampaignReviews(items, decisions, Assignments(previous), snapshot), Assignments(previous))
    ensures !Disagree(CampaignReviews(items, decisions, Assignments(previous), snapshot))
  {
    var accesses := if snapshot.Some? then AccessesByRef(snapshot.value.accesses) else map[];
    var identities := if snapshot.Some? then IdentitiesByRef(snapshot.value.identities) else map[];
    var candidates := seq(|items|, i requires 0 <= i < |items| => CandidateOf(items[i], accesses, identities));
    var values := seq(|items|, i requires 0 <= i < |items| => LatestDecisions(decisions)[items[i].id].value);
    assert CampaignReviews(items, decisions, Assignments(previous), snapshot)
        == ReviewsOf(Assignments(previous), candidates, values);
    PromotionIsOrderIndependent(Assignments(previous), candidates, values);
    var reviews := ReviewsOf(Assignments(previous), candidates, values);
    OrdersAgreeExactly(reviews, Assignments(previous) - MatchedPrevious(reviews));
  }

  /** The order of the review items of a separable campaign does not matter. */
  lemma CampaignOrderDoesNotMatter(items: seq<ReviewItem>, shuffled: seq<ReviewItem>, decisions: seq<Decision>,
                                   previous: Option<GoldenVersion>, snapshot: Option<Snapshot>)
    requires forall item :: item in items <==> item in shuffled
    requires AllDecided(items, decisions) && Separable(items, decisions, previous, snapshot)
    requires AllDecided(shuffled, decisions) && Separable(shuffled, decisions, previous, snapshot)
    ensures PromotedAssignments(items, decisions, previous, REPLACE_SCOPE, snapshot)
         == PromotedAssignments(shuffled, decisions, previous, REPLACE_SCOPE, snapshot)
  {
    CampaignPromotesItsApprovals(items, decisions, previous, snapshot);
    CampaignPromotesItsApprovals(shuffled, decisions, previous, snapshot);
    var base := Assignments(previous);
    SameMembers(items, shuffled, decisions, base, snapshot);
    SameMembers(shuffled, items, decisions, base, snapshot);
  }

  lemma SameMembers(items: seq<ReviewItem>, shuffled: seq<ReviewItem>, decisions: seq<Decision>,
                    base: set<GoldenAssignment>, snapshot: Option<Snapshot>)
    requires forall item :: item in items ==> item in shuffled
    requires AllDecided(items, decisions) && AllDecided(shuffled, decisions)
    ensures forall r :: r in CampaignReviews(items, decisions, base, snapshot) ==>
              r in CampaignReviews(shuffled, decisions, base, snapshot)
  {
    var reviews, others :=
      CampaignReviews(items, decisions, base, snapshot), CampaignReviews(shuffled, decisions, base, snapshot);
    forall r | r in reviews ensures r in others {
      var i :| 0 <= i < |reviews| && reviews[i] == r;
      assert items[i] in shuffled;
      var j :| 0 <= j < |shuffled| && shuffled[j] == items[i];
      assert others[j] == r;
    }
  }

  // ----- Without distinct previous assignments the order matters -----

  function Example(name: string, nativeId: Option<string>): GoldenAssignment {
    GoldenAssignment(Ref("ad", name), Ref("ad", "alice"), nativeId, None, None)
  }

  /** Two items on one previous assignment, one approved and one revoked: the order of the items decides. */
  lemma SharedPreviousDependsOnOrder()
    ensures var base := {Example("sales", Some("S-1"))};
            var kept, renamed := Example("sales", Some("S-1")), Example("sellers", Some("S-1"));
            var approveFirst := ReviewsOf(base, [kept, renamed], [Approve, Revoke]);
            var revokeFirst := ReviewsOf(base, [renamed, kept], [Revoke, Approve]);
            && UniqueStableKeys(base) && LegacyKeyOf(kept) != LegacyKeyOf(renamed)
            && ApplyAll(approveFirst, base - MatchedPrevious(approveFirst)) == {}
            && ApplyAll(revokeFirst, base - MatchedPrevious(revokeFirst)) == {kept}
  {
    var kept, renamed := Example("sales", Some("S-1")), Example("sellers", Some("S-1"));
    var base := {kept};
    assert Ref("ad", "sales") != Ref("ad", "sellers") by {
      assert "sales"[1] != "sellers"[1];
    }
    assert StableMatches(base, kept) == {kept} && StableMatches(base, renamed) == {kept};
    var x, y := Review(kept, Some(kept), Approve), Review(renamed, Some(kept), Revoke);
    assert ReviewsOf(base, [kept, renamed], [Approve, Revoke]) == [x, y];
    assert ReviewsOf(base, [renamed, kept], [Revoke, Approve]) == [y, x];
    TwoReviews(x, y, base - {kept});
    TwoReviews(y, x, base - {kept});
    assert x in [x, y] && y in [x, y] && x in [y, x];
    assert MatchedPrevious([x, y]) == {kept} && MatchedPrevious([y, x]) == {kept};
  }

  lemma TwoReviews(x: Review, y: Review, start: set<GoldenAssignment>)
    ensures ApplyAll([x, y], start) == Apply(Apply(start, x), y)
  {
    assert ApplyAll([x], start) == Apply(start, x) by {
      assert [x][..0] == [];
    }
    assert [x, y][..1] == [x];
  }
}
