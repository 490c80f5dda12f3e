/**
 * Review items, the append-only decisions on them, and the decision that counts: the last one by creation time, in a
 * sort that keeps the order of decisions with the same time.
 */
module Reviews {
  import opened Domain
  import opened Ordering

  datatype DecisionValue = Approve | Revoke | NotApplicable

  datatype Decision = Decision(id: string, reviewItemId: string, value: DecisionValue, comment: string,
                               createdAt: string)

  datatype ReviewItem = ReviewItem(
    id: string,
    campaignId: string,
    access: Ref,
    identity: Ref,
    controlNativeId: Option<string>,
    permission: Option<string>,
    expected: bool,
    observed: bool,
    reviewer: Option<Ref>)

  function TimeKey(d: Decision): seq<string> {
    [d.createdAt]
  }

  function LastByItem(ordered: seq<Decision>): map<string, Decision> {
    if ordered == [] then map[]
    else
      var last := ordered[|ordered| - 1];
      LastByItem(ordered[..|ordered| - 1])[last.reviewItemId := last]
  }

  /** For each item the decision that comes last once decisions are sorted by creation time. */
  function LatestDecisions(decisions: seq<Decision>): map<string, Decision> {
    LastByItem(SortBy(TimeKey, decisions))
  }

  ghost predicate IsLastFor(ordered: seq<Decision>, item: string, k: int) {
    && 0 <= k < |ordered| && ordered[k].reviewItemId == item
    && forall j :: k < j < |ordered| ==> ordered[j].reviewItemId != item
  }

  lemma IsLastAppends(ordered: seq<Decision>, d: Decision, item: string, k: int)
    requires d.reviewItemId != item
    ensures IsLastFor(ordered + [d], item, k) <==> IsLastFor(ordered, item, k)
  {
    assert forall j :: 0 <= j < |ordered| ==> (ordered + [d])[j] == ordered[j];
    if IsLastFor(ordered + [d], item, k) {
      assert forall j :: k < j < |ordered| ==> (ordered + [d])[j].reviewItemId != item;
    }
  }

  /** The loop keeps, for every decided item, its decision at the highest position. */
  lemma {:induction false} LastByItemIsLast(ordered: seq<Decision>, item: string)
    ensures item in LastByItem(ordered) <==> exists k :: IsLastFor(ordered, item, k)
    ensures forall k :: IsLastFor(ordered, item, k) ==> ordered[k] == LastByItem(ordered)[item]
  {
    if ordered != [] {
      var n := |ordered| - 1;
      var rest, last := ordered[..n], ordered[n];
      assert ordered == rest + [last];
      LastByItemIsLast(rest, item);
      if last.reviewItemId == item {
        assert IsLastFor(ordered, item, n);
      } else {
        forall k ensures IsLastFor(ordered, item, k) <==> IsLastFor(rest, item, k) {
          IsLastAppends(rest, last, item, k);
        }
      }
    }
  }

  lemma {:induction false} DecidedHasLast(ordered: seq<Decision>, item: string, j: nat)
    requires j < |ordered| && ordered[j].reviewItemId == item
    ensures exists k :: j <= k && IsLastFor(ordered, item, k)
    decreases |ordered| - j
  {
    if i :| j < i < |ordered| && ordered[i].reviewItemId == item {
      DecidedHasLast(ordered, item, i);
    } else {
      assert IsLastFor(ordered, item, j);
    }
  }

  /** An item has a latest decision exactly when it was decided, and no decision on it is later than that one. */
  lemma LatestDecisionIsLatest(decisions: seq<Decision>, item: string)
    ensures item in LatestDecisions(decisions) <==> exists d :: d in decisions && d.reviewItemId == item
    ensures item in LatestDecisions(decisions) ==>
              var latest := LatestDecisions(decisions)[item];
              && latest in decisions && latest.reviewItemId == item
              && forall d :: d in decisions && d.reviewItemId == item ==> TextLeq(d.createdAt, latest.createdAt)
  {
    var ordered := SortBy(TimeKey, decisions);
    LastByItemIsLast(ordered, item);
    if k :| IsLastFor(ordered, item, k) {
      SortMember(TimeKey, decisions, ordered[k]);
      assert ordered[k] in decisions;
    }
    forall d | d in decisions && d.reviewItemId == item
      ensures item in LatestDecisions(decisions) && TextLeq(d.createdAt, LatestDecisions(decisions)[item].createdAt)
    {
      NoDecisionIsLater(decisions, d);
    }
  }

  lemma NoDecisionIsLater(decisions: seq<Decision>, d: Decision)
    requires d in decisions
    ensures d.reviewItemId in LatestDecisions(decisions)
         && TextLeq(d.createdAt, LatestDecisions(decisions)[d.reviewItemId].createdAt)
  {
    var ordered := SortBy(TimeKey, decisions);
    SortIsOrderedPermutation(TimeKey, decisions);
    SortMember(TimeKey, decisions, d);
    var j :| 0 <= j < |ordered| && ordered[j] == d;
    DecidedHasLast(ordered, d.reviewItemId, j);
    var k :| j <= k && IsLastFor(ordered, d.reviewItemId, k);
    LastByItemIsLast(ordered, d.reviewItemId);
    TextOrder(d.createdAt, d.createdAt, d.createdAt);
    assert j < k ==> KeyLeq(TimeKey(ordered[j]), TimeKey(ordered[k]));
  }
}
