/** Where stored identities end after an import. */
module IdentityReconciliationTheorems {
  import opened Domain
  import opened Ordering
  import opened IdentityReconciliation

  predicate DistinctIds(items: seq<Identity>) {
    forall i, j :: 0 <= i < j < |items| ==> items[i].id != items[j].id
  }

  predicate DistinctRefs(items: seq<Identity>) {
    forall i, j :: 0 <= i < j < |items| ==> items[i].ref != items[j].ref
  }

  predicate DistinctNatives(items: seq<Identity>) {
    forall i, j :: 0 <= i < j < |items| ==> NativeKeyOf(items[i]) != NativeKeyOf(items[j])
  }

  predicate HaveNativeIds(items: seq<Identity>) {
    forall i :: i in items ==> Present(i.nativeId)
  }

  /** Native ids everywhere and unique on each side, unique names and new ids among the imports. */
  ghost predicate Regular(existing: seq<Identity>, imported: seq<Identity>) {
    && HaveNativeIds(existing) && HaveNativeIds(imported)
    && DistinctNatives(existing) && DistinctNatives(imported) && DistinctRefs(imported)
    && DistinctIds(existing) && DistinctIds(imported)
    && (forall e, i :: e in existing && i in imported ==> e.id != i.id)
  }

  lemma SameNativeIsPrevious(existing: seq<Identity>, incoming: Identity, e: Identity)
    requires HaveNativeIds(existing) && DistinctNatives(existing) && e in existing && Present(incoming.nativeId)
    ensures NativeKeyOf(e) == NativeKeyOf(incoming) <==> Previous(existing, incoming) == Some(e)
  {
    var key := NativeKeyOf(incoming).value;
    if NativeKeyOf(e) == Some(key) {
      var found := ByNative(existing, key).value;
      var p :| 0 <= p < |existing| && existing[p] == e;
      var q :| 0 <= q < |existing| && existing[q] == found;
      assert p < q || q < p || p == q;
    }
  }

  lemma SameIdIsSame(items: seq<Identity>, a: Identity, b: Identity)
    requires DistinctIds(items) && a in items && b in items && a.id == b.id
    ensures a == b
  {
    var p :| 0 <= p < |items| && items[p] == a;
    var q :| 0 <= q < |items| && items[q] == b;
    assert p < q || q < p || p == q;
  }

  /** An import carries the id of a stored identity exactly when that is its previous one. */
  lemma RenewedId(existing: seq<Identity>, imported: seq<Identity>, i: Identity, e: Identity)
    requires Regular(existing, imported) && i in imported && e in existing
    ensures Renewed(existing, i).id == e.id <==> Previous(existing, i) == Some(e)
  {
    var previous := Previous(existing, i);
    if previous.Some? && previous.value.id == e.id {
      SameIdIsSame(existing, previous.value, e);
    }
  }

  lemma RenewedIdsDiffer(existing: seq<Identity>, imported: seq<Identity>, i: nat, j: nat)
    requires Regular(existing, imported) && i < j < |imported|
    ensures Renewed(existing, imported[i]).id != Renewed(existing, imported[j]).id
  {
    var a, b := imported[i], imported[j];
    assert a in imported && b in imported && NativeKeyOf(a) != NativeKeyOf(b) && a.id != b.id;
    if Previous(existing, a).Some? {
      var e := Previous(existing, a).value;
      RenewedId(existing, imported, b, e);
    } else if Previous(existing, b).Some? {
      assert Previous(existing, b).value in existing;
    }
  }

  /** A stored identity is kept exactly when an import has its native id. */
  lemma KeptMeansTaken(existing: seq<Identity>, imported: seq<Identity>, e: Identity)
    requires Regular(existing, imported) && e in existing
    ensures e.id in KeptIds(existing, imported) <==> exists i :: i in imported && Previous(existing, i) == Some(e)
  {
    if e.id in KeptIds(existing, imported) {
      var i :| i in imported && Previous(existing, i).Some? && Previous(existing, i).value.id == e.id;
      SameIdIsSame(existing, Previous(existing, i).value, e);
    }
  }

  lemma {:induction false} TombstoneRows(existing: seq<Identity>, imported: seq<Identity>, scope: Scope,
                                         stored: seq<Identity>)
    requires DistinctIds(stored)
    ensures var rows := Tombstones(existing, imported, scope, stored);
            && DistinctIds(rows)
            && forall x :: x in rows <==>
                 exists e :: e in stored && IsLost(existing, imported, scope, e) && x == e.(status := DELETED)
  {
    if stored != [] {
      var n := |stored| - 1;
      var rest, e := stored[..n], stored[n];
      assert stored == rest + [e];
      TombstoneRows(existing, imported, scope, rest);
      var rows := Tombstones(existing, imported, scope, rest);
      forall k | 0 <= k < |rows| ensures rows[k].id != e.id {
        assert rows[k] in rows;
        var d :| d in rest && rows[k] == d.(status := DELETED);
        var p :| 0 <= p < n && rest[p] == d;
        assert stored[p].id != stored[n].id;
      }
    }
  }

  /** In the merged list every id occurs once. */
  lemma MergedIdsDiffer(existing: seq<Identity>, imported: seq<Identity>, scope: Scope)
    requires Regular(existing, imported)
    ensures DistinctIds(Merged(existing, imported, scope, true))
  {
    var merged, news := Merged(existing, imported, scope, true), RenewedAll(existing, imported);
    var rows := Tombstones(existing, imported, scope, existing);
    TombstoneRows(existing, imported, scope, existing);
    forall i, j | 0 <= i < j < |merged| ensures merged[i].id != merged[j].id {
      if j < |news| {
        RenewedIdsDiffer(existing, imported, i, j);
      } else if i < |news| {
        assert merged[j] in rows && imported[i] in imported;
        var e :| e in existing && IsLost(existing, imported, scope, e) && merged[j] == e.(status := DELETED);
        RenewedId(existing, imported, imported[i], e);
      } else {
        assert merged[i] == rows[i - |news|] && merged[j] == rows[j - |news|];
      }
    }
  }

  // ----- Where a stored identity ends, with and without native ids -----

  /** Known native ids and ids are unique on each side, imported names are unique and imported ids new. */
  ghost predicate IsMergeable(existing: seq<Identity>, imported: seq<Identity>) {
    && KnownNativesDiffer(existing) && KnownNativesDiffer(imported) && DistinctRefs(imported)
    && DistinctIds(existing) && DistinctIds(imported)
    && (forall e, i :: e in existing && i in imported ==> e.id != i.id)
  }

  predicate KnownNativesDiffer(items: seq<Identity>) {
    forall i, j :: 0 <= i < j < |items| && NativeKeyOf(items[i]).Some? ==>
      NativeKeyOf(items[i]) != NativeKeyOf(items[j])
  }

  /** The identity is the one that its identifier leads to: the last stored one with it. */
  predicate IsNamed(existing: seq<Identity>, e: Identity) {
    ByRef(existing, e.ref) == Some(e)
  }

  /** One import has the native id of the identity, and another one, without a native id, its identifier. */
  ghost predicate IsTakenTwice(existing: seq<Identity>, imported: seq<Identity>, e: Identity) {
    && e.nativeId.Some? && IsNamed(existing, e)
    && (exists i :: i in imported && NativeKeyOf(i) == NativeKeyOf(e))
    && (exists j :: j in imported && j.nativeId.None? && j.ref == e.ref)
  }

  /** An identity without native id whose identifier arrives with one, or is that of another stored identity too. */
  ghost predicate IsForgotten(existing: seq<Identity>, imported: seq<Identity>, e: Identity) {
    e.nativeId.None? && exists i :: i in imported && i.ref == e.ref && (i.nativeId.Some? || !IsNamed(existing, e))
  }

  /** The import has the native id of the identity or, without one of its own, its identifier. */
  predicate Takes(existing: seq<Identity>, i: Identity, e: Identity) {
    if i.nativeId.Some? then NativeKeyOf(i) == NativeKeyOf(e) else i.ref == e.ref && IsNamed(existing, e)
  }

  lemma SameNativeIsSame(items: seq<Identity>, a: Identity, b: Identity)
    requires KnownNativesDiffer(items) && a in items && b in items
    requires NativeKeyOf(a).Some? && NativeKeyOf(a) == NativeKeyOf(b)
    ensures a == b
  {
    var p :| 0 <= p < |items| && items[p] == a;
    var q :| 0 <= q < |items| && items[q] == b;
    assert p < q || q < p || p == q;
  }

  lemma TakingIsPrevious(existing: seq<Identity>, i: Identity, e: Identity)
    requires KnownNativesDiffer(existing) && e in existing
    ensures Takes(existing, i, e) <==> Previous(existing, i) == Some(e)
  {
    if NativeKeyOf(i).Some? {
      var found := ByNative(existing, NativeKeyOf(i).value);
      if found.Some? && NativeKeyOf(e) == NativeKeyOf(i) {
        SameNativeIsSame(existing, found.value, e);
      }
    }
  }

  /** Row k is the one that a stored identity ended in. */
  ghost predicate EndsAt(existing: seq<Identity>, imported: seq<Identity>, merged: seq<Identity>, e: Identity, k: nat) {
    && k < |merged| && merged[k].id == e.id
    && (merged[k] == e.(status := DELETED)
        || exists i :: i in imported && Takes(existing, i, e) && merged[k] == i.(id := e.id))
  }

  /** The identity ended in exactly one row. */
  ghost predicate EndsOnce(existing: seq<Identity>, imported: seq<Identity>, merged: seq<Identity>, e: Identity) {
    exists k: nat :: EndsAt(existing, imported, merged, e, k)
                  && forall j :: 0 <= j < |merged| && merged[j].id == e.id ==> j == k
  }

  /** An imported row has the id of a stored identity exactly when its import takes the identity. */
  lemma ImportedRow(existing: seq<Identity>, imported: seq<Identity>, scope: Scope, e: Identity, k: nat)
    requires IsMergeable(existing, imported) && e in existing && k < |imported|
    ensures var row := Merged(existing, imported, scope, true)[k];
            && (row.id == e.id <==> Takes(existing, imported[k], e))
            && (row.id == e.id ==> row == imported[k].(id := e.id))
  {
    var i := imported[k];
    assert i in imported && RenewedAll(existing, imported)[k] == Renewed(existing, i);
    TakingIsPrevious(existing, i, e);
    var previous := Previous(existing, i);
    if previous.Some? && previous.value.id == e.id {
      SameIdIsSame(existing, previous.value, e);
    }
  }

  /** A row behind the imported ones has the id of a stored identity only as its tombstone. */
  lemma TombstoneRow(existing: seq<Identity>, imported: seq<Identity>, scope: Scope, e: Identity, k: nat)
    requires IsMergeable(existing, imported) && e in existing
    requires |imported| <= k < |Merged(existing, imported, scope, true)|
    requires Merged(existing, imported, scope, true)[k].id == e.id
    ensures IsLost(existing, imported, scope, e)
  {
    var rows := Tombstones(existing, imported, scope, existing);
    TombstoneRows(existing, imported, scope, existing);
    assert rows[k - |imported|] in rows;
    var d :| d in existing && IsLost(existing, imported, scope, d) && rows[k - |imported|] == d.(status := DELETED);
    SameIdIsSame(existing, d, e);
  }

  lemma KeptIsTaken(existing: seq<Identity>, imported: seq<Identity>, e: Identity)
    requires IsMergeable(existing, imported) && e in existing
    ensures e.id in KeptIds(existing, imported) <==> exists i :: i in imported && Takes(existing, i, e)
  {
    forall i | i in imported ensures Takes(existing, i, e) <==> Previous(existing, i) == Some(e) {
      TakingIsPrevious(existing, i, e);
    }
    if e.id in KeptIds(existing, imported) {
      var i :| i in imported && Previous(existing, i).Some? && Previous(existing, i).value.id == e.id;
      SameIdIsSame(existing, Previous(existing, i).value, e);
    }
  }

  /** Two imports take an identity only as one by its native id and one by its identifier. */
  lemma TakersAgree(existing: seq<Identity>, imported: seq<Identity>, e: Identity, k: nat, m: nat)
    requires IsMergeable(existing, imported) && !IsTakenTwice(existing, imported, e)
    requires k < |imported| && m < |imported|
    requires Takes(existing, imported[k], e) && Takes(existing, imported[m], e)
    ensures k == m
  {
    var a, b := imported[k], imported[m];
    assert a in imported && b in imported;
    if a.nativeId.Some? && b.nativeId.Some? {
      SameNativeIsSame(imported, a, b);
    } else if a.nativeId.None? && b.nativeId.None? {
      assert a.ref == b.ref;
    }
  }

  lemma TakenEndsOnce(existing: seq<Identity>, imported: seq<Identity>, scope: Scope, e: Identity, k: nat)
    requires IsMergeable(existing, imported) && e in existing && !IsTakenTwice(existing, imported, e)
    requires k < |imported| && Takes(existing, imported[k], e)
    ensures EndsOnce(existing, imported, Merged(existing, imported, scope, true), e)
  {
    var merged := Merged(existing, imported, scope, true);
    ImportedRow(existing, imported, scope, e, k);
    KeptIsTaken(existing, imported, e);
    assert EndsAt(existing, imported, merged, e, k);
    forall j | 0 <= j < |merged| && merged[j].id == e.id ensures j == k {
      if j < |imported| {
        ImportedRow(existing, imported, scope, e, j);
        TakersAgree(existing, imported, e, k, j);
      } else {
        TombstoneRow(existing, imported, scope, e, j);
      }
    }
  }

  lemma LostEndsOnce(existing: seq<Identity>, imported: seq<Identity>, scope: Scope, e: Identity)
    requires IsMergeable(existing, imported) && e in existing && IsLost(existing, imported, scope, e)
    ensures EndsOnce(existing, imported, Merged(existing, imported, scope, true), e)
  {
    var merged, rows := Merged(existing, imported, scope, true), Tombstones(existing, imported, scope, existing);
    TombstoneRows(existing, imported, scope, existing);
    KeptIsTaken(existing, imported, e);
    assert e.(status := DELETED) in rows;
    var m :| 0 <= m < |rows| && rows[m] == e.(status := DELETED);
    var k := |imported| + m;
    assert merged[k] == rows[m] && EndsAt(existing, imported, merged, e, k);
    forall j | 0 <= j < |merged| && merged[j].id == e.id ensures j == k {
      if j < |imported| {
        ImportedRow(existing, imported, scope, e, j);
      } else {
        assert merged[j] == rows[j - |imported|];
      }
    }
  }

  lemma TakenTwiceEndsTwice(existing: seq<Identity>, imported: seq<Identity>, scope: Scope, e: Identity)
    requires IsMergeable(existing, imported) && e in existing && IsTakenTwice(existing, imported, e)
    ensures !EndsOnce(existing, imported, Merged(existing, imported, scope, true), e)
  {
    var i :| i in imported && NativeKeyOf(i) == NativeKeyOf(e);
    var j :| j in imported && j.nativeId.None? && j.ref == e.ref;
    var k :| 0 <= k < |imported| && imported[k] == i;
    var m :| 0 <= m < |imported| && imported[m] == j;
    ImportedRow(existing, imported, scope, e, k);
    ImportedRow(existing, imported, scope, e, m);
  }

  lemma ForgottenEndsNowhere(existing: seq<Identity>, imported: seq<Identity>, scope: Scope, e: Identity)
    requires IsMergeable(existing, imported) && e in existing && IsForgotten(existing, imported, e)
    ensures !EndsOnce(existing, imported, Merged(existing, imported, scope, true), e)
    ensures forall row :: row in Merged(existing, imported, scope, true) ==> row.id != e.id
  {
    var merged := Merged(existing, imported, scope, true);
    forall j | 0 <= j < |merged| ensures merged[j].id != e.id {
      if j < |imported| {
        ImportedRow(existing, imported, scope, e, j);
        ForgottenIsNotTaken(existing, imported, e, j);
      } else if merged[j].id == e.id {
        TombstoneRow(existing, imported, scope, e, j);
      }
    }
  }

  lemma ForgottenIsNotTaken(existing: seq<Identity>, imported: seq<Identity>, e: Identity, j: nat)
    requires IsMergeable(existing, imported) && IsForgotten(existing, imported, e) && j < |imported|
    ensures !Takes(existing, imported[j], e)
  {
    var i :| i in imported && i.ref == e.ref && (i.nativeId.Some? || !IsNamed(existing, e));
    var k :| 0 <= k < |imported| && imported[k] == i;
    assert k < j || j < k || k == j;
  }

  /**
   * After an authoritative import a stored identity in scope is in the merged list exactly once, as the import that
   * took over its id or as a tombstone, if and only if it is neither taken twice nor forgotten.
   */
  lemma EndsOnceExactly(existing: seq<Identity>, imported: seq<Identity>, scope: Scope, e: Identity)
    requires IsMergeable(existing, imported) && e in existing
    requires || scope == Everything || (scope.Providers? && e.ref.provider in scope.names)
             || (scope.IdentityTypes? && e.kind in scope.kinds)
    ensures EndsOnce(existing, imported, Merged(existing, imported, scope, true), e)
       <==> !IsTakenTwice(existing, imported, e) && !IsForgotten(existing, imported, e)
  {
    if IsTakenTwice(existing, imported, e) {
      TakenTwiceEndsTwice(existing, imported, scope, e);
    } else if IsForgotten(existing, imported, e) {
      ForgottenEndsNowhere(existing, imported, scope, e);
    } else if i :| i in imported && Takes(existing, i, e) {
      var k :| 0 <= k < |imported| && imported[k] == i;
      TakenEndsOnce(existing, imported, scope, e, k);
    } else {
      KeptIsTaken(existing, imported, e);
      LostEndsOnce(existing, imported, scope, e);
    }
  }

  lemma RegularIsMergeable(existing: seq<Identity>, imported: seq<Identity>)
    requires Regular(existing, imported)
    ensures IsMergeable(existing, imported)
  {
  }

  /** With native ids everywhere, every stored identity in scope ends exactly once. */
  lemma EveryIdentityEndsOnce(existing: seq<Identity>, imported: seq<Identity>, scope: Scope, e: Identity)
    requires Regular(existing, imported) && e in existing
    requires || scope == Everything || (scope.Providers? && e.ref.provider in scope.names)
             || (scope.IdentityTypes? && e.kind in scope.kinds)
    ensures EndsOnce(existing, imported, Merged(existing, imported, scope, true), e)
  {
    RegularIsMergeable(existing, imported);
    EndsOnceExactly(existing, imported, scope, e);
  }

  // ----- The merged list, row by row -----

  /** The stored identity has the native id of the import in its provider; without a native id, its identifier. */
  predicate Matches(e: Identity, i: Identity) {
    if i.nativeId == None then e.ref == i.ref else e.nativeId == i.nativeId && e.ref.provider == i.ref.provider
  }

  /** The last stored identity that matches the import. */
  ghost predicate IsSource(existing: seq<Identity>, i: Identity, p: int) {
    && 0 <= p < |existing| && Matches(existing[p], i)
    && forall q :: p < q < |existing| ==> !Matches(existing[q], i)
  }

  /** No import takes its id over, its identifier is not reused unless it has a native id, and the scope covers it. */
  ghost predicate IsGone(existing: seq<Identity>, imported: seq<Identity>, scope: Scope, e: Identity) {
    && (forall i, p :: i in imported && IsSource(existing, i, p) ==> existing[p].id != e.id)
    && (e.nativeId != None || forall i :: i in imported ==> i.ref != e.ref)
    && match scope
       case Everything => true
       case Providers(names) => e.ref.provider in names
       case IdentityTypes(kinds) => e.kind in kinds
       case OtherScope => false
  }

  /** The row is the import with the id of the stored identity that it matches, or with its own. */
  ghost predicate IsTakenOver(existing: seq<Identity>, i: Identity, row: Identity) {
    && (forall p :: IsSource(existing, i, p) ==> row == i.(id := existing[p].id))
    && ((forall p :: !IsSource(existing, i, p)) ==> row == i)
  }

  /** The rows are those at the positions, in their order, with nothing but the status changed. */
  ghost predicate AreTombstones(rows: seq<Identity>, existing: seq<Identity>, at: seq<nat>) {
    && |rows| == |at| && (forall i :: 0 <= i < |at| ==> at[i] < |existing|)
    && (forall i, j :: 0 <= i < j < |at| ==> at[i] < at[j])
    && forall i :: 0 <= i < |at| ==> rows[i] == existing[at[i]].(status := "deleted")
  }

  lemma {:induction false} LastMatchIsFound(existing: seq<Identity>, i: Identity)
    ensures forall p :: IsSource(existing, i, p) ==> Previous(existing, i) == Some(existing[p])
    ensures Previous(existing, i).Some? ==> exists p :: IsSource(existing, i, p)
  {
    if existing != [] {
      var n := |existing| - 1;
      var rest := existing[..n];
      LastMatchIsFound(rest, i);
      MatchesByKey(existing[n], i);
      if Matches(existing[n], i) {
        assert IsSource(existing, i, n);
      } else {
        forall p ensures IsSource(existing, i, p) <==> IsSource(rest, i, p) {
          assert forall q :: 0 <= q < n ==> rest[q] == existing[q];
        }
      }
    }
  }

  lemma MatchesByKey(e: Identity, i: Identity)
    ensures Matches(e, i) <==> if NativeKeyOf(i).Some? then NativeKeyOf(e) == NativeKeyOf(i) else e.ref == i.ref
  {
    if e.nativeId.Some? && i.nativeId.Some? && e.nativeId.value == i.nativeId.value {
      assert e.nativeId == i.nativeId;
    }
  }

  lemma LostMeansGone(existing: seq<Identity>, imported: seq<Identity>, scope: Scope, e: Identity)
    ensures IsLost(existing, imported, scope, e) <==> IsGone(existing, imported, scope, e)
  {
    forall i ensures forall p :: IsSource(existing, i, p) ==> Previous(existing, i) == Some(existing[p])
      ensures Previous(existing, i).Some? ==> exists p :: IsSource(existing, i, p)
    {
      LastMatchIsFound(existing, i);
    }
    if e.id in KeptIds(existing, imported) {
      var i :| i in imported && Previous(existing, i).Some? && Previous(existing, i).value.id == e.id;
      var p :| IsSource(existing, i, p);
      assert !IsGone(existing, imported, scope, e);
    }
  }

  lemma {:induction false} TombstonesAreFiltered(existing: seq<Identity>, imported: seq<Identity>, scope: Scope,
                                                 stored: seq<Identity>)
    ensures var lost := Filter((e: Identity) => IsLost(existing, imported, scope, e), stored);
            var rows := Tombstones(existing, imported, scope, stored);
            |rows| == |lost| && forall i :: 0 <= i < |rows| ==> rows[i] == lost[i].(status := "deleted")
  {
    if stored != [] {
      var n := |stored| - 1;
      TombstonesAreFiltered(existing, imported, scope, stored[..n]);
      assert stored == stored[..n] + [stored[n]] && [stored[n]][1..] == [];
      FilterConcat((e: Identity) => IsLost(existing, imported, scope, e), stored[..n], [stored[n]]);
    }
  }

  lemma TombstonesAreAt(existing: seq<Identity>, imported: seq<Identity>, scope: Scope) returns (at: seq<nat>)
    ensures AreTombstones(Tombstones(existing, imported, scope, existing), existing, at)
    ensures forall k :: k in at <==> 0 <= k < |existing| && IsLost(existing, imported, scope, existing[k])
  {
    at := FilterPositions((e: Identity) => IsLost(existing, imported, scope, e), existing);
    TombstonesAreFiltered(existing, imported, scope, existing);
  }

  /**
   * Each import becomes one row, in order, with the id of the stored identity it matches; behind them an authoritative
   * import has one tombstone for each stored identity that is gone, in the stored order, and there is no other row.
   */
  lemma MergedRowByRow(existing: seq<Identity>, imported: seq<Identity>, scope: Scope, authoritative: bool)
    returns (at: seq<nat>)
    ensures var merged := Merged(existing, imported, scope, authoritative);
            && |merged| >= |imported|
            && (forall k :: 0 <= k < |imported| ==> IsTakenOver(existing, imported[k], merged[k]))
            && AreTombstones(merged[|imported|..], existing, at)
            && forall k :: k in at <==> authoritative && 0 <= k < |existing|
                                        && IsGone(existing, imported, scope, existing[k])
  {
    var merged, renewed := Merged(existing, imported, scope, authoritative), RenewedAll(existing, imported);
    at := [];
    if authoritative {
      at := TombstonesAreAt(existing, imported, scope);
      forall k | 0 <= k < |existing|
        ensures IsLost(existing, imported, scope, existing[k]) <==> IsGone(existing, imported, scope, existing[k])
      {
        LostMeansGone(existing, imported, scope, existing[k]);
      }
    }
    assert merged[|imported|..] == if authoritative then Tombstones(existing, imported, scope, existing) else [];
    forall k | 0 <= k < |imported| ensures IsTakenOver(existing, imported[k], merged[k]) {
      LastMatchIsFound(existing, imported[k]);
      assert merged[k] == Renewed(existing, imported[k]);
    }
  }

  // ----- The two inputs where it does not -----

  /** A stored identity without native id, imported again with one, gets neither its id nor a tombstone. */
  lemma NewNativeIdForgets(stored: Identity, renewed: Identity, scope: Scope)
    requires stored.nativeId.None? && renewed.nativeId.Some? && renewed.ref == stored.ref && renewed.id != stored.id
    ensures Merged([stored], [renewed], scope, true) == [renewed]
  {
    assert [stored][..0] == [] && renewed in [renewed];
    assert Tombstones([stored], [renewed], scope, []) == [];
    assert !IsLost([stored], [renewed], scope, stored);
    assert Renewed([stored], renewed) == renewed;
  }

  /** Renamed by its native id, and its old identifier imported without one: both imports get the stored id. */
  lemma OldIdentifierTakesToo(stored: Identity, renamed: Identity, nameless: Identity, scope: Scope)
    requires stored.nativeId.Some? && NativeKeyOf(renamed) == NativeKeyOf(stored) && renamed.ref != stored.ref
    requires nameless.nativeId.None? && nameless.ref == stored.ref
    ensures Merged([stored], [renamed, nameless], scope, true)
         == [renamed.(id := stored.id), nameless.(id := stored.id)]
  {
    var imported := [renamed, nameless];
    assert [stored][..0] == [] && renamed in imported;
    assert Previous([stored], renamed) == Some(stored) == Previous([stored], nameless);
    assert stored.id in KeptIds([stored], imported);
    assert Tombstones([stored], imported, scope, []) == [];
    assert Tombstones([stored], imported, scope, [stored]) == [];
  }
}
