/** The difference of two Golden versions, paired in two passes. */
module GoldenDiff {
  import opened Domain
  import opened GoldenVersions

  datatype Pass = ByStableKey | ByName

  datatype MatchKey = Stable(stableKey: StableKey) | Legacy(legacyKey: LegacyKey)

  datatype Status = Unchanged | Removed | Added

  datatype Row = Row(status: Status, key: LegacyKey)

  type Pair = (GoldenAssignment, GoldenAssignment)

  function KeyOf(pass: Pass, item: GoldenAssignment): Option<MatchKey> {
    match pass
    case ByStableKey => (match StableKeyOf(item) case None => None case Some(k) => Some(Stable(k)))
    case ByName => Some(Legacy(LegacyKeyOf(item)))
  }

  /** The item has a key in this pass that no other item of the set has. */
  ghost predicate Alone(pass: Pass, items: set<GoldenAssignment>, item: GoldenAssignment) {
    && item in items && KeyOf(pass, item).Some?
    && forall other :: other in items && KeyOf(pass, other) == KeyOf(pass, item) ==> other == item
  }

  ghost predicate Matches(pass: Pass, before: set<GoldenAssignment>, after: set<GoldenAssignment>,
                          o: GoldenAssignment, n: GoldenAssignment)
  {
    && Alone(pass, before, o) && Alone(pass, after, n) && KeyOf(pass, o) == KeyOf(pass, n)
    && (pass == ByStableKey || !HasStableKey(o) || !HasStableKey(n))
  }

  ghost function PassPairs(pass: Pass, before: set<GoldenAssignment>, after: set<GoldenAssignment>): set<Pair> {
    set o, n | o in before && n in after && Matches(pass, before, after, o, n) :: (o, n)
  }

  ghost function Firsts(pairs: set<Pair>): set<GoldenAssignment> {
    set p | p in pairs :: p.0
  }

  ghost function Seconds(pairs: set<Pair>): set<GoldenAssignment> {
    set p | p in pairs :: p.1
  }

  /** All unchanged pairs: those of the stable pass, and those of the name pass over what it left. */
  ghost function Pairs(before: set<GoldenAssignment>, after: set<GoldenAssignment>): set<Pair> {
    var stable := PassPairs(ByStableKey, before, after);
    stable + PassPairs(ByName, before - Firsts(stable), after - Seconds(stable))
  }

  ghost function RemovedItems(before: set<GoldenAssignment>, after: set<GoldenAssignment>): set<GoldenAssignment> {
    before - Firsts(Pairs(before, after))
  }

  ghost function AddedItems(before: set<GoldenAssignment>, after: set<GoldenAssignment>): set<GoldenAssignment> {
    after - Seconds(Pairs(before, after))
  }

  ghost predicate Repeated(pass: Pass, items: set<GoldenAssignment>, key: MatchKey) {
    exists x, y :: x in items && y in items && x != y && KeyOf(pass, x) == Some(key) && KeyOf(pass, y) == Some(key)
  }

  /** The index holds an item for each key met so far; the keys met twice are the ambiguous ones. */
  ghost predicate Indexed(pass: Pass, items: set<GoldenAssignment>, index: map<MatchKey, GoldenAssignment>,
                          ambiguous: set<MatchKey>)
  {
    && (forall k :: k in index ==> index[k] in items && KeyOf(pass, index[k]) == Some(k))
    && (forall x :: x in items && KeyOf(pass, x).Some? ==> KeyOf(pass, x).value in index)
    && (forall k :: k in ambiguous <==> Repeated(pass, items, k))
  }

  lemma RepeatedGrows(pass: Pass, items: set<GoldenAssignment>, item: GoldenAssignment, key: MatchKey, k: MatchKey)
    requires item !in items && KeyOf(pass, item) == Some(key)
    ensures Repeated(pass, items + {item}, k)
       <==> Repeated(pass, items, k) || (k == key && exists x :: x in items && KeyOf(pass, x) == Some(key))
  {
    if k == key {
      if x :| x in items && KeyOf(pass, x) == Some(key) {
        assert x in items + {item} && item in items + {item} && x != item;
      }
    }
    if Repeated(pass, items, k) {
      var x, y :| x in items && y in items && x != y && KeyOf(pass, x) == Some(k) && KeyOf(pass, y) == Some(k);
      assert x in items + {item} && y in items + {item};
    }
  }

  lemma IndexOneMore(pass: Pass, items: set<GoldenAssignment>, index: map<MatchKey, GoldenAssignment>,
                     ambiguous: set<MatchKey>, item: GoldenAssignment, key: MatchKey)
    requires Indexed(pass, items, index, ambiguous) && item !in items && KeyOf(pass, item) == Some(key)
    ensures Indexed(pass, items + {item}, index[key := item], if key in index then ambiguous + {key} else ambiguous)
  {
    forall k ensures Repeated(pass, items + {item}, k) <==> Repeated(pass, items, k) || (k == key && key in index) {
      RepeatedGrows(pass, items, item, key, k);
      assert key in index <==> exists x :: x in items && KeyOf(pass, x) == Some(key);
    }
  }

  /** Indexes the items by key; a key that occurs twice is dropped. */
  method UniqueByKey(items: set<GoldenAssignment>, pass: Pass) returns (unique: map<MatchKey, GoldenAssignment>)
    ensures forall k :: k in unique ==> Alone(pass, items, unique[k]) && KeyOf(pass, unique[k]) == Some(k)
    ensures forall x :: Alone(pass, items, x) ==> KeyOf(pass, x).value in unique
  {
    var index: map<MatchKey, GoldenAssignment> := map[];
    var ambiguous: set<MatchKey> := {};
    var rest := items;
    while rest != {}
      invariant rest <= items
      invariant Indexed(pass, items - rest, index, ambiguous)
    {
      var item :| item in rest;
      var key := KeyOf(pass, item);
      assert items - (rest - {item}) == items - rest + {item};
      if key.Some? {
        IndexOneMore(pass, items - rest, index, ambiguous, item, key.value);
        if key.value in index {
          ambiguous := ambiguous + {key.value};
        }
        index := index[key.value := item];
      } else {
        forall k | Repeated(pass, items - rest + {item}, k) ensures Repeated(pass, items - rest, k) {
        }
      }
      rest := rest - {item};
    }
    assert items - rest == items;
    unique := map k | k in index && k !in ambiguous :: index[k];
    forall k | k in unique ensures Alone(pass, items, unique[k]) {
      assert !Repeated(pass, items, k);
    }
    forall x | Alone(pass, items, x) ensures KeyOf(pass, x).value in unique {
      assert !Repeated(pass, items, KeyOf(pass, x).value);
    }
  }

  function RowFor(status: Status, item: GoldenAssignment): Row {
    Row(status, LegacyKeyOf(item))
  }

  function UnchangedRows(matches: seq<Pair>): seq<Row> {
    seq(|matches|, i requires 0 <= i < |matches| => RowFor(Unchanged, matches[i].1))
  }

  function RowsFor(status: Status, items: seq<GoldenAssignment>): seq<Row> {
    seq(|items|, i requires 0 <= i < |items| => RowFor(status, items[i]))
  }

  /** A row for each pair under its new name, then one for each removed item, then one for each added item. */
  predicate RowsTell(rows: seq<Row>, matches: seq<Pair>, removed: seq<GoldenAssignment>, added: seq<GoldenAssignment>) {
    && |rows| == |matches| + |removed| + |added|
    && (forall i :: 0 <= i < |matches| ==>
          rows[i] == Row(Unchanged, LegacyKey(matches[i].1.access, matches[i].1.identity)))
    && (forall i :: 0 <= i < |removed| ==>
          rows[|matches| + i] == Row(Removed, LegacyKey(removed[i].access, removed[i].identity)))
    && forall i :: 0 <= i < |added| ==>
         rows[|matches| + |removed| + i] == Row(Added, LegacyKey(added[i].access, added[i].identity))
  }

  /** One pass over the common keys: each pair becomes a match. */
  method MatchPass(pass: Pass, before: set<GoldenAssignment>, after: set<GoldenAssignment>) returns (matches: seq<Pair>)
    ensures Enumerates(matches, PassPairs(pass, before, after))
  {
    var oldByKey := UniqueByKey(before, pass);
    var newByKey := UniqueByKey(after, pass);
    var common := oldByKey.Keys * newByKey.Keys;
    matches := [];
    var rest := common;
    while rest != {}
      invariant rest <= common
      invariant forall p :: p in matches ==> p in PassPairs(pass, before, after) && KeyOf(pass, p.0).value !in rest
      invariant forall k :: k in common - rest && Matches(pass, before, after, oldByKey[k], newByKey[k]) ==>
                  (oldByKey[k], newByKey[k]) in matches
      invariant forall i, j :: 0 <= i < j < |matches| ==> matches[i] != matches[j]
    {
      var k :| k in rest;
      rest := rest - {k};
      var o, n := oldByKey[k], newByKey[k];
      if pass == ByStableKey || !HasStableKey(o) || !HasStableKey(n) {
        matches := matches + [(o, n)];
      }
    }
    forall p | p in PassPairs(pass, before, after) ensures p in matches {
      var k := KeyOf(pass, p.0).value;
      assert Matches(pass, before, after, p.0, p.1);
      assert k in common && oldByKey[k] == p.0 && newByKey[k] == p.1;
    }
  }

  /** Rows of the difference, and the lists of pairs and items they were made from. */
  method Diff(before: set<GoldenAssignment>, after: set<GoldenAssignment>)
    returns (rows: seq<Row>, matches: seq<Pair>, removed: seq<GoldenAssignment>, added: seq<GoldenAssignment>)
    ensures Enumerates(matches, Pairs(before, after))
    ensures Enumerates(removed, RemovedItems(before, after))
    ensures Enumerates(added, AddedItems(before, after))
    ensures rows == UnchangedRows(matches) + RowsFor(Removed, removed) + RowsFor(Added, added)
    ensures RowsTell(rows, matches, removed, added)
  {
    var stable := MatchPass(ByStableKey, before, after);
    var oldRemaining, newRemaining, rows1 := Discard(before, after, stable);
    ghost var stablePairs := PassPairs(ByStableKey, before, after);
    assert oldRemaining == before - Firsts(stablePairs) && newRemaining == after - Seconds(stablePairs);
    var legacy := MatchPass(ByName, oldRemaining, newRemaining);
    var oldLeft, newLeft, rows2 := Discard(oldRemaining, newRemaining, legacy);
    matches := stable + legacy;
    PassesAreDisjoint(before, after, stable, legacy);
    removed := Enumerate(oldLeft);
    added := Enumerate(newLeft);
    rows := rows1 + rows2 + RowsFor(Removed, removed) + RowsFor(Added, added);
    assert rows1 + rows2 == UnchangedRows(matches);
    assert oldLeft == RemovedItems(before, after);
    assert newLeft == AddedItems(before, after);
  }

  /** Takes both sides of every match out of the remaining sets, and reports each as unchanged. */
  method Discard(before: set<GoldenAssignment>, after: set<GoldenAssignment>, matches: seq<Pair>)
    returns (oldLeft: set<GoldenAssignment>, newLeft: set<GoldenAssignment>, rows: seq<Row>)
    ensures oldLeft == before - set p | p in matches :: p.0
    ensures newLeft == after - set p | p in matches :: p.1
    ensures rows == UnchangedRows(matches)
  {
    oldLeft, newLeft, rows := before, after, [];
    for i := 0 to |matches|
      invariant oldLeft == before - set p | p in matches[..i] :: p.0
      invariant newLeft == after - set p | p in matches[..i] :: p.1
      invariant rows == UnchangedRows(matches[..i])
    {
      var (o, n) := matches[i];
      assert matches[..i + 1] == matches[..i] + [matches[i]];
      oldLeft, newLeft := oldLeft - {o}, newLeft - {n};
      rows := rows + [RowFor(Unchanged, n)];
    }
    assert matches[..|matches|] == matches;
  }

  lemma PassesAreDisjoint(before: set<GoldenAssignment>, after: set<GoldenAssignment>, stable: seq<Pair>,
                          legacy: seq<Pair>)
    requires var stablePairs := PassPairs(ByStableKey, before, after);
             Enumerates(stable, stablePairs)
             && Enumerates(legacy, PassPairs(ByName, before - Firsts(stablePairs), after - Seconds(stablePairs)))
    ensures Enumerates(stable + legacy, Pairs(before, after))
  {
    var stablePairs := PassPairs(ByStableKey, before, after);
    forall p, q | p in stable && q in legacy ensures p != q {
      assert p.0 in Firsts(stablePairs) && q.0 in before - Firsts(stablePairs);
    }
    var all := stable + legacy;
    forall i, j | 0 <= i < j < |all| ensures all[i] != all[j] {
      if i < |stable| <= j {
        assert all[i] in stable && all[j] in legacy;
      }
    }
  }

  // ----- Pairs and rows, from the assignments themselves -----

  /** The two are the only ones of their sides that are the same by native id. */
  ghost predicate AreSameByIds(before: set<GoldenAssignment>, after: set<GoldenAssignment>, o: GoldenAssignment,
                               n: GoldenAssignment)
  {
    && o in before && n in after && SameByNativeId(o, n)
    && (forall x :: x in before && SameByNativeId(x, n) ==> x == o)
    && forall x :: x in after && SameByNativeId(o, x) ==> x == n
  }

  predicate HasNoIds(x: GoldenAssignment) {
    x.accessNativeId in {None, Some("")} && x.identityNativeId in {None, Some("")}
  }

  predicate SameNames(x: GoldenAssignment, y: GoldenAssignment) {
    x.access == y.access && x.identity == y.identity
  }

  /**
   * Neither is paired by native id, and of what is left each is the only one of its side under their common name; one
   * of them has no native ids.
   */
  ghost predicate AreSameByName(before: set<GoldenAssignment>, after: set<GoldenAssignment>, o: GoldenAssignment,
                                n: GoldenAssignment)
  {
    && o in before && n in after && SameNames(o, n) && (HasNoIds(o) || HasNoIds(n))
    && (forall m :: !AreSameByIds(before, after, o, m)) && (forall m :: !AreSameByIds(before, after, m, n))
    && (forall x :: x in before && SameNames(x, o) && (forall m :: !AreSameByIds(before, after, x, m)) ==> x == o)
    && forall x :: x in after && SameNames(x, n) && (forall m :: !AreSameByIds(before, after, m, x)) ==> x == n
  }

  lemma StablePairMeans(before: set<GoldenAssignment>, after: set<GoldenAssignment>, o: GoldenAssignment,
                        n: GoldenAssignment)
    ensures (o, n) in PassPairs(ByStableKey, before, after) <==> AreSameByIds(before, after, o, n)
  {
    forall x, y
      ensures SameByNativeId(x, y)
         <==> KeyOf(ByStableKey, y).Some? && KeyOf(ByStableKey, x) == KeyOf(ByStableKey, y)
    {
      SameStableKeyMeansSame(x, y);
    }
  }

  lemma NoIdsMeansNoStableKey(x: GoldenAssignment)
    ensures HasNoIds(x) <==> !HasStableKey(x)
  {
    TextIsPresent(x.accessNativeId);
    TextIsPresent(x.identityNativeId);
  }

  lemma LeftByStablePass(before: set<GoldenAssignment>, after: set<GoldenAssignment>, x: GoldenAssignment)
    ensures var stable := PassPairs(ByStableKey, before, after);
            && (x in before - Firsts(stable) <==> x in before && forall m :: !AreSameByIds(before, after, x, m))
            && (x in after - Seconds(stable) <==> x in after && forall m :: !AreSameByIds(before, after, m, x))
  {
    var stable := PassPairs(ByStableKey, before, after);
    forall o, n ensures (o, n) in stable <==> AreSameByIds(before, after, o, n) {
      StablePairMeans(before, after, o, n);
    }
    if m :| AreSameByIds(before, after, x, m) {
      assert (x, m) in stable;
    }
    if m :| AreSameByIds(before, after, m, x) {
      assert (m, x) in stable;
    }
    if p :| p in stable && p.0 == x {
      assert AreSameByIds(before, after, x, p.1);
    }
    if p :| p in stable && p.1 == x {
      assert AreSameByIds(before, after, p.0, x);
    }
  }

  lemma NamePairMeans(before: set<GoldenAssignment>, after: set<GoldenAssignment>, o: GoldenAssignment,
                      n: GoldenAssignment)
    ensures var stable := PassPairs(ByStableKey, before, after);
            (o, n) in PassPairs(ByName, before - Firsts(stable), after - Seconds(stable))
            <==> AreSameByName(before, after, o, n)
  {
    forall x, y ensures SameNames(x, y) <==> KeyOf(ByName, x) == KeyOf(ByName, y) {
    }
    forall x
      ensures var stable := PassPairs(ByStableKey, before, after);
              && (x in before - Firsts(stable) <==> x in before && forall m :: !AreSameByIds(before, after, x, m))
              && (x in after - Seconds(stable) <==> x in after && forall m :: !AreSameByIds(before, after, m, x))
    {
      LeftByStablePass(before, after, x);
    }
    NoIdsMeansNoStableKey(o);
    NoIdsMeansNoStableKey(n);
  }

  /** Unchanged are exactly the pairs by native id and, of what they leave, the pairs by name. */
  lemma PairsMean(before: set<GoldenAssignment>, after: set<GoldenAssignment>, o: GoldenAssignment,
                  n: GoldenAssignment)
    ensures (o, n) in Pairs(before, after)
       <==> AreSameByIds(before, after, o, n) || AreSameByName(before, after, o, n)
  {
    StablePairMeans(before, after, o, n);
    NamePairMeans(before, after, o, n);
  }

  // ----- Theorems -----

  /** Pairs come from both versions, and no assignment is in two of them. */
  lemma PairingIsOneToOne(before: set<GoldenAssignment>, after: set<GoldenAssignment>, p: Pair, q: Pair)
    requires p in Pairs(before, after) && q in Pairs(before, after)
    ensures p.0 in before && p.1 in after && (p.0 == q.0 <==> p.1 == q.1)
  {
    var stable := PassPairs(ByStableKey, before, after);
    assert p in stable ==> p.0 in Firsts(stable) && p.1 in Seconds(stable);
    assert q in stable ==> q.0 in Firsts(stable) && q.1 in Seconds(stable);
  }

  lemma RemovePair(pairs: set<Pair>, p: Pair)
    requires p in pairs && forall q :: q in pairs ==> (p.0 == q.0 <==> p.1 == q.1)
    ensures Firsts(pairs) == Firsts(pairs - {p}) + {p.0} && p.0 !in Firsts(pairs - {p})
    ensures Seconds(pairs) == Seconds(pairs - {p}) + {p.1} && p.1 !in Seconds(pairs - {p})
  {
  }

  lemma {:induction false} InjectiveSize(pairs: set<Pair>)
    requires forall p, q :: p in pairs && q in pairs ==> (p.0 == q.0 <==> p.1 == q.1)
    ensures |Firsts(pairs)| == |pairs| == |Seconds(pairs)|
  {
    if p :| p in pairs {
      InjectiveSize(pairs - {p});
      RemovePair(pairs, p);
    }
  }

  lemma PartAndRest<T>(part: set<T>, whole: set<T>)
    requires part <= whole
    ensures |part| + |whole - part| == |whole|
  {
    assert whole == part + (whole - part);
  }

  /** Every assignment of each version is counted once: as unchanged, or as removed or added. */
  lemma DiffConserves(before: set<GoldenAssignment>, after: set<GoldenAssignment>)
    ensures |Pairs(before, after)| + |RemovedItems(before, after)| == |before|
    ensures |Pairs(before, after)| + |AddedItems(before, after)| == |after|
  {
    var pairs := Pairs(before, after);
    forall p, q | p in pairs && q in pairs ensures p.0 in before && p.1 in after && (p.0 == q.0 <==> p.1 == q.1) {
      PairingIsOneToOne(before, after, p, q);
    }
    InjectiveSize(pairs);
    PartAndRest(Firsts(pairs), before);
    PartAndRest(Seconds(pairs), after);
  }

  ghost function Swap(pairs: set<Pair>): set<Pair> {
    set p | p in pairs :: (p.1, p.0)
  }

  lemma PassSwaps(pass: Pass, before: set<GoldenAssignment>, after: set<GoldenAssignment>)
    ensures PassPairs(pass, after, before) == Swap(PassPairs(pass, before, after))
    ensures Firsts(PassPairs(pass, after, before)) == Seconds(PassPairs(pass, before, after))
    ensures Seconds(PassPairs(pass, after, before)) == Firsts(PassPairs(pass, before, after))
  {
    var there, back := PassPairs(pass, before, after), PassPairs(pass, after, before);
    forall o, n ensures (o, n) in there <==> (n, o) in back {
      assert Matches(pass, before, after, o, n) <==> Matches(pass, after, before, n, o);
    }
    SwappedSides(there, back);
  }

  lemma SwappedSides(there: set<Pair>, back: set<Pair>)
    requires forall o, n :: (o, n) in there <==> (n, o) in back
    ensures back == Swap(there) && Firsts(back) == Seconds(there) && Seconds(back) == Firsts(there)
  {
    forall p ensures p in back <==> p in Swap(there) {
      if p in back {
        assert (p.1, p.0) in there;
      }
    }
    forall x ensures x in Firsts(back) <==> x in Seconds(there) {
      if x in Firsts(back) {
        var p :| p in back && p.0 == x;
        assert (p.1, p.0) in there;
      }
      if x in Seconds(there) {
        var p :| p in there && p.1 == x;
        assert (p.1, p.0) in back;
      }
    }
    forall x ensures x in Seconds(back) <==> x in Firsts(there) {
      if x in Seconds(back) {
        var p :| p in back && p.1 == x;
        assert (p.1, p.0) in there;
      }
      if x in Firsts(there) {
        var p :| p in there && p.0 == x;
        assert (p.1, p.0) in back;
      }
    }
  }

  /** Comparing the other way round turns every pair round and exchanges added with removed. */
  lemma DiffSwaps(before: set<GoldenAssignment>, after: set<GoldenAssignment>)
    ensures Pairs(after, before) == Swap(Pairs(before, after))
    ensures RemovedItems(after, before) == AddedItems(before, after)
         && AddedItems(after, before) == RemovedItems(before, after)
  {
    var there, back := PassPairs(ByStableKey, before, after), PassPairs(ByStableKey, after, before);
    PassSwaps(ByStableKey, before, after);
    PassSwaps(ByName, before - Firsts(there), after - Seconds(there));
    assert Pairs(after, before) == Swap(Pairs(before, after));
    forall o, n ensures (o, n) in Pairs(before, after) <==> (n, o) in Pairs(after, before) {
      assert (o, n) in Pairs(before, after) ==> (n, o) in Swap(Pairs(before, after));
    }
    SwappedSides(Pairs(before, after), Pairs(after, before));
  }

  /** Stable keys are unique, and so are the names of the assignments without native ids. */
  ghost predicate KeysDistinguish(items: set<GoldenAssignment>) {
    forall x, y :: x in items && y in items && x != y ==>
      if HasStableKey(x) || HasStableKey(y) then StableKeyOf(x) != StableKeyOf(y) else LegacyKeyOf(x) != LegacyKeyOf(y)
  }

  lemma SelfStablePair(items: set<GoldenAssignment>, x: GoldenAssignment)
    requires KeysDistinguish(items) && x in items
    ensures (x, x) in PassPairs(ByStableKey, items, items) <==> HasStableKey(x)
  {
    assert HasStableKey(x) ==> Matches(ByStableKey, items, items, x, x);
  }

  lemma StablePairsAreSelf(items: set<GoldenAssignment>, x: GoldenAssignment, y: GoldenAssignment)
    requires (x, y) in PassPairs(ByStableKey, items, items)
    ensures x == y && HasStableKey(x)
  {
  }

  /** What the first pass leaves of a version compared with itself: the assignments without stable key. */
  lemma StableLeftOver(items: set<GoldenAssignment>)
    requires KeysDistinguish(items)
    ensures var stable := PassPairs(ByStableKey, items, items);
            var rest := set x | x in items && !HasStableKey(x);
            items - Firsts(stable) == rest == items - Seconds(stable)
  {
    var stable := PassPairs(ByStableKey, items, items);
    forall x | x in items
      ensures (x in Firsts(stable) <==> HasStableKey(x)) && (x in Seconds(stable) <==> HasStableKey(x))
    {
      SelfStablePair(items, x);
      if HasStableKey(x) {
        assert (x, x) in stable;
      }
      forall p | p in stable ensures p.0 == p.1 && HasStableKey(p.0) {
        StablePairsAreSelf(items, p.0, p.1);
      }
    }
  }

  lemma SelfPair(items: set<GoldenAssignment>, x: GoldenAssignment)
    requires KeysDistinguish(items) && x in items
    ensures (x, x) in Pairs(items, items)
  {
    StableLeftOver(items);
    SelfStablePair(items, x);
    var rest := set y | y in items && !HasStableKey(y);
    if !HasStableKey(x) {
      assert Matches(ByName, rest, rest, x, x);
      assert (x, x) in PassPairs(ByName, rest, rest);
    }
  }

  /** A version compared with itself is all unchanged exactly when its keys tell its assignments apart. */
  lemma DiffWithItself(items: set<GoldenAssignment>)
    ensures RemovedItems(items, items) == {} == AddedItems(items, items) <==> KeysDistinguish(items)
  {
    if KeysDistinguish(items) {
      forall x | x in items ensures x in Firsts(Pairs(items, items)) && x in Seconds(Pairs(items, items)) {
        SelfPair(items, x);
        assert (x, x) in Pairs(items, items);
      }
    } else {
      AmbiguityIsRemoved(items);
    }
  }

  lemma AmbiguityIsRemoved(items: set<GoldenAssignment>)
    requires !KeysDistinguish(items)
    ensures RemovedItems(items, items) != {}
  {
    var x, y :| x in items && y in items && x != y &&
      (if HasStableKey(x) || HasStableKey(y) then StableKeyOf(x) == StableKeyOf(y)
       else LegacyKeyOf(x) == LegacyKeyOf(y));
    var stable := PassPairs(ByStableKey, items, items);
    var rest := items - Firsts(stable);
    forall p | p in stable ensures p.0 == p.1 && p.0 != x && p.0 != y {
      assert Matches(ByStableKey, items, items, p.0, p.1);
    }
    assert Firsts(stable) == Seconds(stable);
    assert x in rest && y in rest;
    assert HasStableKey(x) || KeyOf(ByName, y) == KeyOf(ByName, x);
    forall p | p in Pairs(items, items) ensures p.0 != x {
      assert p in stable || Matches(ByName, rest, rest, p.0, p.1);
    }
    assert x in RemovedItems(items, items);
  }

  /** Two assignments without native ids that differ in their permission only are neither matched nor told apart. */
  lemma SharedNameIsRemovedAndAdded(access: Ref, identity: Ref)
    ensures var read := GoldenAssignment(access, identity, None, Some("read"), None);
            var write := GoldenAssignment(access, identity, None, Some("write"), None);
            && RemovedItems({read, write}, {read, write}) == {read, write}
            && AddedItems({read, write}, {read, write}) == {read, write}
  {
    var read := GoldenAssignment(access, identity, None, Some("read"), None);
    var write := GoldenAssignment(access, identity, None, Some("write"), None);
    var items := {read, write};
    assert "read" != "write" by {
      assert "read"[0] != "write"[0];
    }
    assert LegacyKeyOf(read) == LegacyKeyOf(write);
    forall pass, x | x in items ensures !Alone(pass, items, x) {
      assert KeyOf(pass, read) == KeyOf(pass, write);
    }
    assert PassPairs(ByStableKey, items, items) == {};
    assert items - Firsts({}) == items == items - Seconds({});
    assert PassPairs(ByName, items, items) == {};
    assert Pairs(items, items) == {};
  }
}
