/** Which of the stored decisions on a review item counts, whatever else is stored beside them. */
module CampaignDecisions {
  import opened Domain
  import opened Ordering
  import opened Reviews

  function StoredKey(d: Decision): seq<string> {
    [d.createdAt, d.id]
  }

  /** Stored rows are listed by creation time and then by id. */
  function Listing(decisions: seq<Decision>): seq<Decision> {
    SortBy(StoredKey, decisions)
  }

  function OfItems(items: set<string>, decisions: seq<Decision>): seq<Decision> {
    Filter((d: Decision) => d.reviewItemId in items, decisions)
  }

  function NotOfItems(items: set<string>, decisions: seq<Decision>): seq<Decision> {
    Filter((d: Decision) => d.reviewItemId !in items, decisions)
  }

  function Own(item: string, decisions: seq<Decision>): seq<Decision> {
    Filter((d: Decision) => d.reviewItemId == item, decisions)
  }

  /** The decision that counts for an item, from the item's own decisions alone. */
  function Counting(decisions: seq<Decision>, item: string): Option<Decision> {
    var own := SortBy(TimeKey, Listing(Own(item, decisions)));
    if own == [] then None else Some(own[|own| - 1])
  }

  lemma {:induction false} OwnOfItems(item: string, items: set<string>, decisions: seq<Decision>)
    ensures item in items ==> Own(item, OfItems(items, decisions)) == Own(item, decisions)
    ensures item !in items ==> Own(item, NotOfItems(items, decisions)) == Own(item, decisions)
  {
    if decisions != [] {
      var first, rest := [decisions[0]], decisions[1..];
      OwnOfItems(item, items, rest);
      FilterConcat((d: Decision) => d.reviewItemId == item, first, OfItems(items, rest));
      FilterConcat((d: Decision) => d.reviewItemId == item, first, NotOfItems(items, rest));
      assert [] + OfItems(items, rest) == OfItems(items, rest);
      assert [] + NotOfItems(items, rest) == NotOfItems(items, rest);
      assert first[1..] == [];
    }
  }

  lemma {:induction false} LastOfOwn(ordered: seq<Decision>, item: string)
    ensures item in LastByItem(ordered) <==> Own(item, ordered) != []
    ensures item in LastByItem(ordered) ==> LastByItem(ordered)[item] == Own(item, ordered)[|Own(item, ordered)| - 1]
  {
    if ordered != [] {
      var rest, last := ordered[..|ordered| - 1], ordered[|ordered| - 1];
      LastOfOwn(rest, item);
      assert ordered == rest + [last];
      OwnOfMore(rest, last, item);
    }
  }

  lemma OwnOfSorted(key: Decision -> seq<string>, decisions: seq<Decision>, item: string)
    ensures Own(item, SortBy(key, decisions)) == SortBy(key, Own(item, decisions))
  {
    FilterCommutesWithSort(key, (d: Decision) => d.reviewItemId == item, decisions);
  }

  /** Decisions on other items have no influence on the one that counts. */
  lemma LatestIsCounting(decisions: seq<Decision>, item: string)
    ensures item in LatestDecisions(Listing(decisions)) <==> Counting(decisions, item).Some?
    ensures item in LatestDecisions(Listing(decisions)) ==>
              LatestDecisions(Listing(decisions))[item] == Counting(decisions, item).value
  {
    LastOfOwn(SortBy(TimeKey, Listing(decisions)), item);
    OwnOfSorted(TimeKey, Listing(decisions), item);
    OwnOfSorted(StoredKey, decisions, item);
  }

  /** A campaign that looks at its own decisions only finds the same one. */
  lemma CampaignSeesCounting(decisions: seq<Decision>, items: set<string>, item: string)
    requires item in items
    ensures item in LatestDecisions(OfItems(items, Listing(decisions))) <==> Counting(decisions, item).Some?
    ensures item in LatestDecisions(OfItems(items, Listing(decisions))) ==>
              LatestDecisions(OfItems(items, Listing(decisions)))[item] == Counting(decisions, item).value
  {
    var listed := OfItems(items, Listing(decisions));
    LastOfOwn(SortBy(TimeKey, listed), item);
    OwnOfSorted(TimeKey, listed, item);
    OwnOfItems(item, items, Listing(decisions));
    OwnOfSorted(StoredKey, decisions, item);
  }

  lemma CampaignSeesOwnItemsOnly(decisions: seq<Decision>, items: set<string>, item: string)
    requires item in LatestDecisions(OfItems(items, Listing(decisions)))
    ensures item in items
  {
    LatestDecisionIsLatest(OfItems(items, Listing(decisions)), item);
    var d :| d in OfItems(items, Listing(decisions)) && d.reviewItemId == item;
    FilterMember((d: Decision) => d.reviewItemId in items, Listing(decisions), d);
  }

  // ----- Is it the last one recorded? -----

  lemma PairOrder(t: string, a: string, u: string, b: string)
    ensures KeyLeq([t, a], [u, b]) <==> (if t == u then TextLeq(a, b) else TextLeq(t, u))
  {
    TextOrder(a, b, a);
    assert [t, a][1..] == [a] && [u, b][1..] == [b];
    assert [a][1..] == [] && [b][1..] == [];
    assert KeyLeq([a], [b]) <==> TextLeq(a, b);
  }

  lemma ListingIsByTime(decisions: seq<Decision>)
    ensures SortBy(TimeKey, Listing(decisions)) == Listing(decisions)
  {
    var listed := Listing(decisions);
    SortIsOrderedPermutation(StoredKey, decisions);
    forall i, j | 0 <= i < j < |listed| ensures KeyLeq(TimeKey(listed[i]), TimeKey(listed[j])) {
      var d, e := listed[i], listed[j];
      assert KeyLeq(StoredKey(d), StoredKey(e));
      PairOrder(d.createdAt, d.id, e.createdAt, e.id);
      assert KeyLeq([], []) && TimeKey(d)[1..] == [] && TimeKey(e)[1..] == [];
    }
    AscendingStays(TimeKey, listed);
  }

  /** Creation times have whole seconds; within the second of d, no stored decision on the item has a greater id. */
  ghost predicate WinsItsSecond(decisions: seq<Decision>, d: Decision) {
    forall e :: e in decisions && e.reviewItemId == d.reviewItemId && e.createdAt == d.createdAt ==> TextLeq(e.id, d.id)
  }

  lemma OwnMember(item: string, decisions: seq<Decision>, d: Decision)
    ensures d in Own(item, decisions) <==> d in decisions && d.reviewItemId == item
  {
    FilterMember((e: Decision) => e.reviewItemId == item, decisions, d);
  }

  lemma {:induction false} LastInserted<T>(key: T -> seq<string>, x: T, sorted: seq<T>)
    requires sorted != [] && Ascending(key, sorted)
    ensures var longer, last := Insert(key, x, sorted), sorted[|sorted| - 1];
            longer != [] && longer[|longer| - 1] == if KeyLeq(key(x), key(last)) then last else x
  {
    if KeyLeq(key(x), key(sorted[0])) {
      KeyOrder(key(x), key(sorted[0]), key(sorted[|sorted| - 1]));
      assert |sorted| > 1 ==> KeyLeq(key(sorted[0]), key(sorted[|sorted| - 1]));
    } else if |sorted| > 1 {
      LastInserted(key, x, sorted[1..]);
    }
  }

  ghost predicate HasGreater<T(!new)>(key: T -> seq<string>, items: seq<T>, d: T) {
    exists e :: e in items && !KeyLeq(key(e), key(d))
  }

  lemma GreaterIsFirstOrLater<T(!new)>(key: T -> seq<string>, items: seq<T>, d: T)
    requires items != []
    ensures HasGreater(key, items, d) <==> !KeyLeq(key(items[0]), key(d)) || HasGreater(key, items[1..], d)
  {
    assert items == [items[0]] + items[1..];
  }

  lemma SortKeepsSize<T>(key: T -> seq<string>, items: seq<T>)
    ensures |SortBy(key, items)| == |items|
  {
    SortIsOrderedPermutation(key, items);
    assert |multiset(SortBy(key, items))| == |multiset(items)|;
  }

  /** The item that is last in order. */
  function Greatest<T>(key: T -> seq<string>, items: seq<T>): T
    requires items != []
  {
    SortKeepsSize(key, items);
    SortBy(key, items)[|items| - 1]
  }

  lemma GreatestOf<T>(key: T -> seq<string>, x: T, rest: seq<T>)
    ensures Greatest(key, [x] + rest)
         == if rest != [] && KeyLeq(key(x), key(Greatest(key, rest))) then Greatest(key, rest) else x
  {
    assert ([x] + rest)[1..] == rest;
    SortKeepsSize(key, rest);
    SortKeepsSize(key, [x] + rest);
    if rest != [] {
      SortIsOrderedPermutation(key, rest);
      LastInserted(key, x, SortBy(key, rest));
    }
  }

  /** Of some items and one more, the last in order is that one, unless another one has a greater key. */
  lemma {:induction false} GreatestOfMore<T(!new)>(key: T -> seq<string>, items: seq<T>, d: T)
    ensures Greatest(key, items + [d]) == if HasGreater(key, items, d) then Greatest(key, items) else d
  {
    if items == [] {
      assert items + [d] == [d] + [];
      GreatestOf(key, d, []);
    } else {
      var x, rest := items[0], items[1..];
      assert items == [x] + rest && items + [d] == [x] + (rest + [d]);
      GreatestOfMore(key, rest, d);
      GreaterIsFirstOrLater(key, items, d);
      GreatestOf(key, x, rest + [d]);
      GreatestOf(key, x, rest);
      if rest != [] {
        var last := Greatest(key, rest);
        SortKeepsSize(key, rest);
        SortMember(key, rest, last);
        assert last in rest && (HasGreater(key, rest, d) || KeyLeq(key(last), key(d)));
        KeyOrder(key(x), key(last), key(d));
      }
    }
  }

  /** Of two decisions the later one ranks higher, in the same second the one with the greater id. */
  predicate Outranks(e: Decision, d: Decision) {
    if e.createdAt == d.createdAt then !TextLeq(e.id, d.id) else !TextLeq(e.createdAt, d.createdAt)
  }

  predicate IsOutranked(decisions: seq<Decision>, d: Decision) {
    exists e :: e in decisions && e.reviewItemId == d.reviewItemId && Outranks(e, d)
  }

  lemma OwnOfMore(decisions: seq<Decision>, d: Decision, i: string)
    ensures Own(i, decisions + [d]) == Own(i, decisions) + (if d.reviewItemId == i then [d] else [])
  {
    FilterConcat((e: Decision) => e.reviewItemId == i, decisions, [d]);
    assert [d][1..] == [];
  }

  /** Recording a decision makes it the one that counts, unless a stored decision on the item outranks it. */
  lemma RecordedCounts(decisions: seq<Decision>, d: Decision)
    ensures Counting(decisions + [d], d.reviewItemId)
         == if IsOutranked(decisions, d) then Counting(decisions, d.reviewItemId) else Some(d)
  {
    var own := Own(d.reviewItemId, decisions);
    OwnOfMore(decisions, d, d.reviewItemId);
    ListingIsByTime(own);
    ListingIsByTime(own + [d]);
    GreatestOfMore(StoredKey, own, d);
    SortKeepsSize(StoredKey, own);
    SortKeepsSize(StoredKey, own + [d]);
    forall e ensures e in own && !KeyLeq(StoredKey(e), StoredKey(d))
                <==> e in decisions && e.reviewItemId == d.reviewItemId && Outranks(e, d)
    {
      OwnMember(d.reviewItemId, decisions, e);
      PairOrder(e.createdAt, e.id, d.createdAt, d.id);
    }
  }

  lemma CountingIsStored(decisions: seq<Decision>, item: string)
    requires Counting(decisions, item).Some?
    ensures Counting(decisions, item).value in decisions
  {
    var own := Own(item, decisions);
    ListingIsByTime(own);
    var last := Listing(own)[|Listing(own)| - 1];
    SortMember(StoredKey, own, last);
    OwnMember(item, decisions, last);
  }

  /**
   * An item has a decision that counts exactly when it was decided; that one is on the item and none of its other
   * decisions is of a later second, or of the same second with a greater id.
   */
  lemma CountingMeansDecided(decisions: seq<Decision>, item: string)
    ensures Counting(decisions, item).Some? <==> exists d :: d in decisions && d.reviewItemId == item
    ensures Counting(decisions, item).Some? ==>
              var last := Counting(decisions, item).value;
              && last in decisions && last.reviewItemId == item
              && forall d :: d in decisions && d.reviewItemId == item ==>
                   if d.createdAt == last.createdAt then TextLeq(d.id, last.id)
                   else TextLeq(d.createdAt, last.createdAt)
  {
    var own := Own(item, decisions);
    ListingIsByTime(own);
    SortIsOrderedPermutation(StoredKey, own);
    SortKeepsSize(StoredKey, own);
    forall d ensures d in own <==> d in decisions && d.reviewItemId == item {
      OwnMember(item, decisions, d);
    }
    if own != [] {
      var last := Counting(decisions, item).value;
      assert own[0] in decisions;
      SortMember(StoredKey, own, last);
      forall d | d in decisions && d.reviewItemId == item
        ensures if d.createdAt == last.createdAt then TextLeq(d.id, last.id) else TextLeq(d.createdAt, last.createdAt)
      {
        SortMember(StoredKey, own, d);
        var j :| 0 <= j < |own| && Listing(own)[j] == d;
        KeyOrder(StoredKey(d), StoredKey(d), []);
        PairOrder(d.createdAt, d.id, last.createdAt, last.id);
      }
    }
  }

  /** A decision recorded no earlier than the others counts exactly when it wins its second. */
  lemma LastRecordedCounts(older: seq<Decision>, d: Decision)
    requires forall e :: e in older ==> e.id != d.id && TextLeq(e.createdAt, d.createdAt)
    ensures Counting(older + [d], d.reviewItemId) == Some(d) <==> WinsItsSecond(older, d)
  {
    RecordedCounts(older, d);
    if Counting(older, d.reviewItemId).Some? {
      CountingIsStored(older, d.reviewItemId);
    }
  }

  /** Two decisions in the same second: the revocation recorded last does not count, because its id is smaller. */
  lemma SameSecondIsDecidedById(item: string, time: string, reason: string)
    ensures var approval := Decision("b", item, Approve, "", time);
            var revocation := Decision("a", item, Revoke, reason, time);
            Counting([approval, revocation], item) == Some(approval)
  {
    var approval, revocation := Decision("b", item, Approve, "", time), Decision("a", item, Revoke, reason, time);
    assert [] + [approval] == [approval] && [approval] + [revocation] == [approval, revocation];
    assert TextLeq("a", "b") && !TextLeq("b", "a");
    RecordedCounts([], approval);
    RecordedCounts([approval], revocation);
    assert approval in [approval] && Outranks(approval, revocation);
  }
}
