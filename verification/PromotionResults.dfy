/**
 * What a promoted campaign leaves, in terms of its review items, the observed snapshot and the previous version: which
 * assignments are kept and, fact by fact, what is promoted for an approved item.
 */
module PromotionResults {
  import opened Domain
  import opened GoldenVersions
  import opened GoldenFreeze
  import opened Reviews
  import opened Promotion

  // ----- What an item stands for -----

  function NotEmpty(text: Option<string>): Option<string> {
    if text == Some("") then None else text
  }

  /**
   * The native id is that of the observed control object, without one that of the item; the permission is the observed
   * one, without one that of the item; the identity's native id is the observed one.
   */
  predicate StandsFor(item: ReviewItem, accesses: map<Ref, Access>, identities: map<Ref, Identity>,
                      own: GoldenAssignment)
  {
    && own.access == item.access && own.identity == item.identity
    && own.accessNativeId == (if item.access in accesses && accesses[item.access].controlObject.Some?
                              then accesses[item.access].controlObject.value.nativeId
                              else NotEmpty(item.controlNativeId))
    && own.accessPermission == (if item.access in accesses && accesses[item.access].permission.Some?
                                then accesses[item.access].permission else NotEmpty(item.permission))
    && own.identityNativeId == (if item.identity in identities then identities[item.identity].nativeId else None)
  }

  /** Neither side has the fact, or only one, or both have the same. */
  predicate NoConflict(left: Option<string>, right: Option<string>) {
    left in {None, Some("")} || right in {None, Some("")} || left == right
  }

  function SameFacts(base: set<GoldenAssignment>, own: GoldenAssignment): set<GoldenAssignment> {
    set x | x in base && SameByNativeId(x, own)
  }

  function SameNames(base: set<GoldenAssignment>, own: GoldenAssignment): set<GoldenAssignment> {
    set x | x in base && x.access == own.access && x.identity == own.identity
         && NoConflict(x.accessNativeId, own.accessNativeId) && NoConflict(x.identityNativeId, own.identityNativeId)
         && NoConflict(x.accessPermission, own.accessPermission)
  }

  /** The only previous assignment that is the same by native id, else the only one of the names without a conflict. */
  ghost predicate IsMatch(base: set<GoldenAssignment>, own: GoldenAssignment, former: Option<GoldenAssignment>) {
    if exists x :: SameFacts(base, own) == {x} then former.Some? && SameFacts(base, own) == {former.value}
    else if exists x :: SameNames(base, own) == {x} then former.Some? && SameNames(base, own) == {former.value}
    else former.None?
  }

  /** The own fact if there is one, else the matched one. */
  predicate Takes(taken: Option<string>, own: Option<string>, matched: Option<string>) {
    taken == if own in {None, Some("")} then matched else own
  }

  predicate Completes(x: GoldenAssignment, own: GoldenAssignment, former: Option<GoldenAssignment>) {
    if former.None? then x == own
    else
      && x.access == own.access && x.identity == own.identity
      && Takes(x.accessNativeId, own.accessNativeId, former.value.accessNativeId)
      && Takes(x.accessPermission, own.accessPermission, former.value.accessPermission)
      && Takes(x.identityNativeId, own.identityNativeId, former.value.identityNativeId)
  }

  lemma CandidateStandsFor(item: ReviewItem, accesses: map<Ref, Access>, identities: map<Ref, Identity>,
                           own: GoldenAssignment)
    ensures StandsFor(item, accesses, identities, own) <==> own == CandidateOf(item, accesses, identities)
  {
    TextIsPresent(item.controlNativeId);
    TextIsPresent(item.permission);
  }

  lemma AgreeingMeansNoConflict(left: Option<string>, right: Option<string>)
    ensures Agrees(left, right) <==> NoConflict(left, right)
  {
    TextIsPresent(left);
    TextIsPresent(right);
  }

  lemma OnlyIsUnique(items: set<GoldenAssignment>, former: Option<GoldenAssignment>)
    ensures former.Some? ==> (items == {former.value} <==> Only(items) == former)
  {
    if former.Some? && items == {former.value} {
      assert former.value in items;
    }
  }

  lemma MatchIsMatching(base: set<GoldenAssignment>, own: GoldenAssignment, former: Option<GoldenAssignment>)
    ensures IsMatch(base, own, former) <==> former == MatchingPrevious(base, own)
  {
    forall x ensures x in SameFacts(base, own) <==> x in StableMatches(base, own) {
      SameStableKeyMeansSame(x, own);
    }
    assert SameFacts(base, own) == StableMatches(base, own);
    forall x ensures x in SameNames(base, own) <==> x in NameMatches(base, own) {
      AgreeingMeansNoConflict(x.accessNativeId, own.accessNativeId);
      AgreeingMeansNoConflict(x.identityNativeId, own.identityNativeId);
      AgreeingMeansNoConflict(x.accessPermission, own.accessPermission);
    }
    assert SameNames(base, own) == NameMatches(base, own);
    OnlyIsUnique(SameFacts(base, own), former);
    OnlyIsUnique(SameNames(base, own), former);
  }

  lemma MergedCompletes(r: Review, x: GoldenAssignment)
    ensures Completes(x, r.candidate, r.previous) <==> x == Merged(r)
  {
    TextIsPresent(r.candidate.accessNativeId);
    TextIsPresent(r.candidate.accessPermission);
    TextIsPresent(r.candidate.identityNativeId);
  }

  // ----- What is left -----

  ghost predicate IsReplacedBy(item: ReviewItem, base: set<GoldenAssignment>, accesses: map<Ref, Access>,
                               identities: map<Ref, Identity>, x: GoldenAssignment)
  {
    exists own :: StandsFor(item, accesses, identities, own) && IsMatch(base, own, Some(x))
  }

  ghost predicate IsPromotedFor(item: ReviewItem, base: set<GoldenAssignment>, accesses: map<Ref, Access>,
                                identities: map<Ref, Identity>, x: GoldenAssignment)
  {
    exists own, former ::
      StandsFor(item, accesses, identities, own) && IsMatch(base, own, former) && Completes(x, own, former)
  }

  lemma ReviewTells(item: ReviewItem, base: set<GoldenAssignment>, accesses: map<Ref, Access>,
                    identities: map<Ref, Identity>, r: Review, x: GoldenAssignment)
    requires r.candidate == CandidateOf(item, accesses, identities)
    requires r.previous == MatchingPrevious(base, r.candidate)
    ensures IsReplacedBy(item, base, accesses, identities, x) <==> r.previous == Some(x)
    ensures IsPromotedFor(item, base, accesses, identities, x) <==> x == Merged(r)
  {
    CandidateStandsFor(item, accesses, identities, r.candidate);
    MatchIsMatching(base, r.candidate, r.previous);
    MergedCompletes(r, x);
    if own, former :| StandsFor(item, accesses, identities, own) && IsMatch(base, own, former)
                     && Completes(x, own, former) {
      CandidateStandsFor(item, accesses, identities, own);
      MatchIsMatching(base, own, former);
    }
    if own :| StandsFor(item, accesses, identities, own) && IsMatch(base, own, Some(x)) {
      CandidateStandsFor(item, accesses, identities, own);
      MatchIsMatching(base, own, Some(x));
    }
    if r.previous == Some(x) {
      assert IsMatch(base, r.candidate, Some(x));
    }
  }

  /** What a separable campaign leaves in either mode, review by review. */
  lemma LeftByReviews(items: seq<ReviewItem>, decisions: seq<Decision>, previous: Option<GoldenVersion>, mode: string,
                      snapshot: Option<Snapshot>, x: GoldenAssignment)
    requires AllDecided(items, decisions) && Separable(items, decisions, previous, snapshot)
    requires mode in {"replace_scope", "full_replace"}
    ensures var reviews := CampaignReviews(items, decisions, Assignments(previous), snapshot);
            x in PromotedAssignments(items, decisions, previous, mode, snapshot)
            <==> (exists r :: r in reviews && Approves(r, x))
                 || (mode == "replace_scope" && x in Assignments(previous)
                     && forall r :: r in reviews ==> r.previous != Some(x))
  {
    var base := Assignments(previous);
    var reviews := CampaignReviews(items, decisions, base, snapshot);
    CampaignPromotesItsApprovals(items, decisions, previous, snapshot);
    AgreedMembership(reviews, if mode == FULL_REPLACE then {} else base - MatchedPrevious(reviews), x);
    assert "replace_scope"[0] != "full_replace"[0];
  }

  function AccessesOf(snapshot: Option<Snapshot>): map<Ref, Access> {
    if snapshot.None? then map[] else AccessesByRef(snapshot.value.accesses)
  }

  function IdentitiesOf(snapshot: Option<Snapshot>): map<Ref, Identity> {
    if snapshot.None? then map[] else IdentitiesByRef(snapshot.value.identities)
  }

  /**
   * A separable campaign leaves exactly what is promoted for its approved items and, when it replaces the reviewed
   * scope only, the previous assignments that no item replaces.
   */
  lemma PromotedExactly(items: seq<ReviewItem>, decisions: seq<Decision>, previous: Option<GoldenVersion>, mode: string,
                        snapshot: Option<Snapshot>, x: GoldenAssignment)
    requires AllDecided(items, decisions) && Separable(items, decisions, previous, snapshot)
    requires mode in {"replace_scope", "full_replace"}
    ensures var base := if previous.None? then {} else previous.value.assignments;
            var accesses, identities := AccessesOf(snapshot), IdentitiesOf(snapshot);
            x in PromotedAssignments(items, decisions, previous, mode, snapshot)
            <==> (exists item :: item in items && LatestDecisions(decisions)[item.id].value == Approve
                              && IsPromotedFor(item, base, accesses, identities, x))
                 || (mode == "replace_scope" && x in base
                     && forall item :: item in items ==> !IsReplacedBy(item, base, accesses, identities, x))
  {
    var base := Assignments(previous);
    var reviews := CampaignReviews(items, decisions, base, snapshot);
    LeftByReviews(items, decisions, previous, mode, snapshot, x);
    forall i | 0 <= i < |items|
      ensures reviews[i] in reviews && items[i] in items
      ensures IsReplacedBy(items[i], base, AccessesOf(snapshot), IdentitiesOf(snapshot), x)
         <==> reviews[i].previous == Some(x)
      ensures IsPromotedFor(items[i], base, AccessesOf(snapshot), IdentitiesOf(snapshot), x)
         <==> x == Merged(reviews[i])
    {
      ReviewTells(items[i], base, AccessesOf(snapshot), IdentitiesOf(snapshot), reviews[i], x);
    }
  }

  /** Approving an observed access that had no previous assignment promotes what freezing the snapshot makes of it. */
  lemma ApprovedAsFrozen(items: seq<ReviewItem>, decisions: seq<Decision>, previous: Option<GoldenVersion>,
                         mode: string, snapshot: Snapshot, item: ReviewItem, i: nat)
    requires AllDecided(items, decisions) && Separable(items, decisions, previous, Some(snapshot))
    requires mode in {"replace_scope", "full_replace"}
    requires item in items && LatestDecisions(decisions)[item.id].value == Approve
    requires i < |snapshot.assignments|
    requires item.access == snapshot.assignments[i].access && item.identity == snapshot.assignments[i].identity
    requires var accesses := AccessesByRef(snapshot.accesses);
             && item.access in accesses
             && accesses[item.access].controlObject.Some? && accesses[item.access].permission.Some?
    requires IsMatch(Assignments(previous), GoldenAssignments(snapshot)[i], None)
    ensures GoldenAssignments(snapshot)[i] in PromotedAssignments(items, decisions, previous, mode, Some(snapshot))
  {
    var own := GoldenAssignments(snapshot)[i];
    assert StandsFor(item, AccessesOf(Some(snapshot)), IdentitiesOf(Some(snapshot)), own);
    assert Completes(own, own, None);
    PromotedExactly(items, decisions, previous, mode, Some(snapshot), own);
  }
}
