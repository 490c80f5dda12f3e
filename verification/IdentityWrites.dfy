/**
 * The writes of an import of identities, in order: imports that are already deleted, then tombstones, then live
 * imports. The lemmas below say which row of the table each write changes and which names it takes, and when the
 * row that held a name before has been rewritten.
 */
module IdentityWrites {
  import opened Domain
  import opened Ordering
  import opened UniqueIndex
  import opened IdentityReconciliation
  import opened IdentityReconciliationTheorems

  predicate IsDeleted(i: Identity) {
    i.status == DELETED
  }

  /** What a tombstone is told apart by: its native id, or its row id when it has none. */
  predicate SameTag(a: Identity, b: Identity) {
    (if a.nativeId in {None, Some("")} then a.id else a.nativeId.value)
    == (if b.nativeId in {None, Some("")} then b.id else b.nativeId.value)
  }

  /**
   * Two rows are in each other's way exactly when both are live under one identifier, or both are deleted under one
   * identifier with the same tag: a deleted identity never blocks its identifier.
   */
  lemma RowsCollide(a: Identity, b: Identity)
    ensures RowNameOf(a) == RowNameOf(b)
       <==> a.ref == b.ref && (a.status == "deleted" <==> b.status == "deleted")
            && (a.status == "deleted" ==> SameTag(a, b))
  {
    if a.nativeId.Some? && a.nativeId.value == "" {
      assert a.nativeId == Some("");
    }
    if b.nativeId.Some? && b.nativeId.value == "" {
      assert b.nativeId == Some("");
    }
  }

  /** `sorted(merged, key=status != "deleted")`: the deleted ones come first, each part in its old order. */
  function WriteOrder(merged: seq<Identity>): seq<Identity> {
    Filter((i: Identity) => IsDeleted(i), merged) + Filter((i: Identity) => !IsDeleted(i), merged)
  }

  function Writes(items: seq<Identity>): seq<Write<RowName>> {
    seq(|items|, i requires 0 <= i < |items| => Write(items[i].id, RowNameOf(items[i])))
  }

  function DeletedOnes(items: seq<Identity>): seq<Identity> {
    Filter((i: Identity) => IsDeleted(i), items)
  }

  function LiveOnes(items: seq<Identity>): seq<Identity> {
    Filter((i: Identity) => !IsDeleted(i), items)
  }

  lemma {:induction false} RenewalKeepsStatus(existing: seq<Identity>, imported: seq<Identity>)
    ensures DeletedOnes(RenewedAll(existing, imported)) == RenewedAll(existing, DeletedOnes(imported))
    ensures LiveOnes(RenewedAll(existing, imported)) == RenewedAll(existing, LiveOnes(imported))
  {
    if imported != [] {
      RenewalKeepsStatus(existing, imported[1..]);
      assert RenewedAll(existing, imported)[1..] == RenewedAll(existing, imported[1..]);
    }
  }

  lemma {:induction false} AllDeleted(items: seq<Identity>)
    requires forall i :: i in items ==> IsDeleted(i)
    ensures DeletedOnes(items) == items && LiveOnes(items) == []
  {
    if items != [] {
      AllDeleted(items[1..]);
      assert items[0] in items;
    }
  }

  /** Deleted imports, then tombstones, then live imports. */
  lemma OrderOfWrites(existing: seq<Identity>, imported: seq<Identity>, scope: Scope)
    requires DistinctIds(existing)
    ensures WriteOrder(Merged(existing, imported, scope, true))
         == RenewedAll(existing, DeletedOnes(imported)) + Tombstones(existing, imported, scope, existing)
          + RenewedAll(existing, LiveOnes(imported))
  {
    var news, rows := RenewedAll(existing, imported), Tombstones(existing, imported, scope, existing);
    TombstoneRows(existing, imported, scope, existing);
    AllDeleted(rows);
    RenewalKeepsStatus(existing, imported);
    FilterConcat((i: Identity) => IsDeleted(i), news, rows);
    FilterConcat((i: Identity) => !IsDeleted(i), news, rows);
    assert LiveOnes(news) + [] == LiveOnes(news);
  }

  /** The stored rows of the provider are the existing identities; other rows belong to other providers. */
  ghost predicate Stores(t: Table<RowName>, provider: string, existing: seq<Identity>, imported: seq<Identity>) {
    && Unique(t)
    && (forall e :: e in existing ==> e.ref.provider == provider && e.id in t && t[e.id] == RowNameOf(e))
    && (forall i :: i in imported ==> i.ref.provider == provider && i.id !in t)
    && (forall id :: id in t && t[id].ref.provider == provider ==> exists e :: e in existing && e.id == id)
  }

  /** The row of a stored identity is rewritten before the k-th live import is written, or by that import. */
  ghost predicate IsReleased(existing: seq<Identity>, imported: seq<Identity>, scope: Scope, e: Identity, k: nat) {
    var live := LiveOnes(imported);
    || IsLost(existing, imported, scope, e)
    || (exists d :: d in DeletedOnes(imported) && Previous(existing, d) == Some(e))
    || (exists j :: 0 <= j <= k && j < |live| && Previous(existing, live[j]) == Some(e))
  }

  /** Each identifier that a live import takes is free, or was released before it. */
  ghost predicate IdentifiersAreReleased(existing: seq<Identity>, imported: seq<Identity>, scope: Scope) {
    var live := LiveOnes(imported);
    forall k, e :: 0 <= k < |live| && e in existing && !IsDeleted(e) && e.ref == live[k].ref ==>
      IsReleased(existing, imported, scope, e, k)
  }

  lemma {:induction false} FilterKeepsIds(keep: Identity -> bool, items: seq<Identity>)
    requires DistinctIds(items)
    ensures DistinctIds(Filter(keep, items))
  {
    if items != [] {
      FilterKeepsIds(keep, items[1..]);
      var rest := Filter(keep, items[1..]);
      forall k | 0 <= k < |rest| ensures rest[k].id != items[0].id {
        FilterMember(keep, items[1..], rest[k]);
        var p :| 0 <= p < |items[1..]| && items[1..][p] == rest[k];
        assert items[p + 1] == rest[k];
      }
    }
  }

  lemma WriteOrderKeepsIds(merged: seq<Identity>)
    requires DistinctIds(merged)
    ensures DistinctIds(WriteOrder(merged))
    ensures forall x :: x in WriteOrder(merged) <==> x in merged
  {
    var gone, live := (i: Identity) => IsDeleted(i), (i: Identity) => !IsDeleted(i);
    var first, second := Filter(gone, merged), Filter(live, merged);
    FilterKeepsIds(gone, merged);
    FilterKeepsIds(live, merged);
    forall x ensures (x in first <==> x in merged && IsDeleted(x)) && (x in second <==> x in merged && !IsDeleted(x)) {
      FilterMember(gone, merged, x);
      FilterMember(live, merged, x);
    }
    var all := first + second;
    forall i, j | 0 <= i < j < |all| ensures all[i].id != all[j].id {
      if i < |first| <= j {
        assert all[i] in first && all[j] in second;
        if all[i].id == all[j].id {
          SameIdIsSame(merged, all[i], all[j]);
        }
      }
    }
  }

  ghost predicate IsImportedRow(existing: seq<Identity>, imported: seq<Identity>, x: Identity) {
    exists i :: i in imported && x == Renewed(existing, i)
  }

  ghost predicate IsTombstone(existing: seq<Identity>, imported: seq<Identity>, scope: Scope, x: Identity) {
    exists e :: e in existing && IsLost(existing, imported, scope, e) && x == e.(status := DELETED)
  }

  lemma MergedOrigin(existing: seq<Identity>, imported: seq<Identity>, scope: Scope, x: Identity)
    requires DistinctIds(existing) && x in Merged(existing, imported, scope, true)
    ensures IsImportedRow(existing, imported, x) || IsTombstone(existing, imported, scope, x)
  {
    TombstoneRows(existing, imported, scope, existing);
    var news := RenewedAll(existing, imported);
    if x in news {
      var k :| 0 <= k < |news| && news[k] == x;
      assert imported[k] in imported;
    }
  }

  lemma RenewedKeeps(existing: seq<Identity>, i: Identity)
    ensures var x := Renewed(existing, i); x.ref == i.ref && x.status == i.status && x.nativeId == i.nativeId
  {
  }

  lemma ImportedRowsAgree(existing: seq<Identity>, imported: seq<Identity>, x: Identity, y: Identity)
    requires DistinctNatives(imported) && DistinctRefs(imported)
    requires IsImportedRow(existing, imported, x) && IsImportedRow(existing, imported, y)
    requires NativeKeyOf(x) == NativeKeyOf(y) || x.ref == y.ref
    ensures x == y
  {
    var i :| i in imported && x == Renewed(existing, i);
    var j :| j in imported && y == Renewed(existing, j);
    RenewedKeeps(existing, i);
    RenewedKeeps(existing, j);
    SameNativeImports(imported, i, j);
  }

  lemma SameNativeImports(imported: seq<Identity>, a: Identity, b: Identity)
    requires DistinctNatives(imported) && DistinctRefs(imported) && a in imported && b in imported
    requires NativeKeyOf(a) == NativeKeyOf(b) || a.ref == b.ref
    ensures a == b
  {
    var p :| 0 <= p < |imported| && imported[p] == a;
    var q :| 0 <= q < |imported| && imported[q] == b;
    assert p < q || q < p || p == q;
  }

  /** A row with the native id of a stored identity carries its id. */
  lemma NativeGivesId(existing: seq<Identity>, imported: seq<Identity>, scope: Scope, x: Identity, e: Identity)
    requires Regular(existing, imported) && x in Merged(existing, imported, scope, true) && e in existing
    requires NativeKeyOf(x) == NativeKeyOf(e)
    ensures x.id == e.id
  {
    MergedOrigin(existing, imported, scope, x);
    if i :| i in imported && x == Renewed(existing, i) {
      SameNativeIsPrevious(existing, i, e);
    } else {
      var d :| d in existing && x == d.(status := DELETED);
      var p :| 0 <= p < |existing| && existing[p] == d;
      var q :| 0 <= q < |existing| && existing[q] == e;
      assert p < q || q < p || p == q;
    }
  }

  lemma TombstoneHasId(existing: seq<Identity>, imported: seq<Identity>, scope: Scope, x: Identity, y: Identity)
    requires Regular(existing, imported) && y in Merged(existing, imported, scope, true)
    requires IsTombstone(existing, imported, scope, x) && NativeKeyOf(x) == NativeKeyOf(y)
    ensures x.id == y.id
  {
    var e :| e in existing && IsLost(existing, imported, scope, e) && x == e.(status := DELETED);
    NativeGivesId(existing, imported, scope, y, e);
  }

  lemma SameNativeRows(existing: seq<Identity>, imported: seq<Identity>, scope: Scope, x: Identity, y: Identity)
    requires Regular(existing, imported)
    requires x in Merged(existing, imported, scope, true) && y in Merged(existing, imported, scope, true)
    requires NativeKeyOf(x) == NativeKeyOf(y)
    ensures x.id == y.id
  {
    MergedOrigin(existing, imported, scope, x);
    MergedOrigin(existing, imported, scope, y);
    if IsTombstone(existing, imported, scope, x) {
      TombstoneHasId(existing, imported, scope, x, y);
    } else if IsTombstone(existing, imported, scope, y) {
      TombstoneHasId(existing, imported, scope, y, x);
    } else {
      ImportedRowsAgree(existing, imported, x, y);
    }
  }

  lemma LiveRowIsImport(existing: seq<Identity>, imported: seq<Identity>, scope: Scope, x: Identity)
    requires DistinctIds(existing) && x in Merged(existing, imported, scope, true) && !IsDeleted(x)
    ensures IsImportedRow(existing, imported, x)
  {
    MergedOrigin(existing, imported, scope, x);
  }

  lemma MergedHasNativeId(existing: seq<Identity>, imported: seq<Identity>, scope: Scope, x: Identity)
    requires Regular(existing, imported) && x in Merged(existing, imported, scope, true)
    ensures Present(x.nativeId)
  {
    MergedOrigin(existing, imported, scope, x);
    if i :| i in imported && x == Renewed(existing, i) {
      RenewedKeeps(existing, i);
    }
  }

  lemma MergedNamesDiffer(existing: seq<Identity>, imported: seq<Identity>, scope: Scope, x: Identity, y: Identity)
    requires Regular(existing, imported)
    requires x in Merged(existing, imported, scope, true) && y in Merged(existing, imported, scope, true)
    requires RowNameOf(x) == RowNameOf(y)
    ensures x.id == y.id
  {
    if IsDeleted(x) {
      MergedHasNativeId(existing, imported, scope, x);
      MergedHasNativeId(existing, imported, scope, y);
      SameNativeRows(existing, imported, scope, x, y);
    } else {
      LiveRowIsImport(existing, imported, scope, x);
      LiveRowIsImport(existing, imported, scope, y);
      ImportedRowsAgree(existing, imported, x, y);
    }
  }

  /** A tombstone name is held by no row but its own. */
  lemma TombstoneIsFree(existing: seq<Identity>, imported: seq<Identity>, scope: Scope, x: Identity, e: Identity)
    requires Regular(existing, imported) && x in Merged(existing, imported, scope, true) && e in existing
    requires IsDeleted(x) && RowNameOf(e) == RowNameOf(x)
    ensures x.id == e.id
  {
    MergedOrigin(existing, imported, scope, x);
    NativeGivesId(existing, imported, scope, x, e);
  }

  lemma PartsAreImports(imported: seq<Identity>, i: Identity)
    ensures i in DeletedOnes(imported) <==> i in imported && IsDeleted(i)
    ensures i in LiveOnes(imported) <==> i in imported && !IsDeleted(i)
  {
    FilterMember((i: Identity) => IsDeleted(i), imported, i);
    FilterMember((i: Identity) => !IsDeleted(i), imported, i);
  }

  lemma TombstoneAt(existing: seq<Identity>, imported: seq<Identity>, scope: Scope, e: Identity, k: nat)
    requires Regular(existing, imported) && e in existing && k < |Tombstones(existing, imported, scope, existing)|
    ensures Tombstones(existing, imported, scope, existing)[k].id == e.id ==> IsLost(existing, imported, scope, e)
  {
    var rows := Tombstones(existing, imported, scope, existing);
    TombstoneRows(existing, imported, scope, existing);
    assert rows[k] in rows;
    var d :| d in existing && IsLost(existing, imported, scope, d) && rows[k] == d.(status := DELETED);
    if d.id == e.id {
      SameIdIsSame(existing, d, e);
    }
  }

  /** The stored row that holds the name of write i. */
  lemma HolderIsStored(t: Table<RowName>, provider: string, existing: seq<Identity>, imported: seq<Identity>,
                       scope: Scope,
                       x: Identity, id: string) returns (e: Identity)
    requires Regular(existing, imported) && Stores(t, provider, existing, imported)
    requires x in Merged(existing, imported, scope, true) && id in t && t[id] == RowNameOf(x)
    ensures e in existing && e.id == id && RowNameOf(e) == RowNameOf(x) && e.ref == x.ref
  {
    MergedOrigin(existing, imported, scope, x);
    assert t[id].ref.provider == provider;
    e :| e in existing && e.id == id;
  }

  /** The order of the writes: deleted imports, tombstones, live imports. */
  ghost predicate IsOrder(existing: seq<Identity>, imported: seq<Identity>, scope: Scope, order: seq<Identity>) {
    var gone, rows, live := DeletedOnes(imported), Tombstones(existing, imported, scope, existing), LiveOnes(imported);
    var before := |gone| + |rows|;
    && |order| == before + |live|
    && (forall j :: 0 <= j < |gone| ==> order[j] == Renewed(existing, gone[j]))
    && (forall j :: |gone| <= j < before ==> order[j] == rows[j - |gone|])
    && (forall j :: before <= j < |order| ==> order[j] == Renewed(existing, live[j - before]))
  }

  ghost predicate WritesMerged(existing: seq<Identity>, imported: seq<Identity>, scope: Scope, order: seq<Identity>) {
    DistinctIds(order) && forall x :: x in order <==> x in Merged(existing, imported, scope, true)
  }

  /** How many rows are written before the first live import. */
  function Early(existing: seq<Identity>, imported: seq<Identity>, scope: Scope): nat {
    |DeletedOnes(imported)| + |Tombstones(existing, imported, scope, existing)|
  }

  lemma PartsAreOrder(existing: seq<Identity>, imported: seq<Identity>, scope: Scope, a: seq<Identity>,
                      c: seq<Identity>)
    requires a == RenewedAll(existing, DeletedOnes(imported)) && c == RenewedAll(existing, LiveOnes(imported))
    ensures IsOrder(existing, imported, scope, a + Tombstones(existing, imported, scope, existing) + c)
  {
  }

  lemma WriteOrderIsOrder(existing: seq<Identity>, imported: seq<Identity>, scope: Scope)
    requires Regular(existing, imported)
    ensures var order := WriteOrder(Merged(existing, imported, scope, true));
            IsOrder(existing, imported, scope, order) && WritesMerged(existing, imported, scope, order)
  {
    MergedIdsDiffer(existing, imported, scope);
    WriteOrderKeepsIds(Merged(existing, imported, scope, true));
    OrderOfWrites(existing, imported, scope);
    PartsAreOrder(existing, imported, scope, RenewedAll(existing, DeletedOnes(imported)),
                  RenewedAll(existing, LiveOnes(imported)));
  }

  lemma NamesAreWrittenOnce(existing: seq<Identity>, imported: seq<Identity>, scope: Scope, order: seq<Identity>)
    requires Regular(existing, imported) && WritesMerged(existing, imported, scope, order)
    ensures DistinctRows(Writes(order))
    ensures forall i, j :: 0 <= i < j < |order| ==> Writes(order)[i].name != Writes(order)[j].name
  {
    forall i, j | 0 <= i < j < |order| ensures RowNameOf(order[i]) != RowNameOf(order[j]) {
      assert order[i] in order && order[j] in order;
      if RowNameOf(order[i]) == RowNameOf(order[j]) {
        MergedNamesDiffer(existing, imported, scope, order[i], order[j]);
      }
    }
  }

  lemma RowIsWritten(order: seq<Identity>, at: nat, count: nat, id: string)
    requires at < count && at < |order| && order[at].id == id
    ensures IsWritten(Writes(order), count, id)
  {
    assert Writes(order)[at].id == id;
  }

  lemma LostIsWritten(existing: seq<Identity>, imported: seq<Identity>, scope: Scope, order: seq<Identity>, e: Identity,
                      k: nat)
    requires Regular(existing, imported) && IsOrder(existing, imported, scope, order)
    requires e in existing && IsLost(existing, imported, scope, e)
    ensures IsWritten(Writes(order), Early(existing, imported, scope) + k + 1, e.id)
  {
    var gone, rows := DeletedOnes(imported), Tombstones(existing, imported, scope, existing);
    TombstoneRows(existing, imported, scope, existing);
    assert e.(status := DELETED) in rows;
    var m :| 0 <= m < |rows| && rows[m] == e.(status := DELETED);
    RowIsWritten(order, |gone| + m, Early(existing, imported, scope) + k + 1, e.id);
  }

  lemma ImportIsWritten(existing: seq<Identity>, imported: seq<Identity>, order: seq<Identity>, e: Identity,
                        i: Identity,
                        at: nat, count: nat)
    requires Regular(existing, imported) && e in existing && i in imported && Previous(existing, i) == Some(e)
    requires at < count && at < |order| && order[at] == Renewed(existing, i)
    ensures IsWritten(Writes(order), count, e.id)
  {
    RenewedId(existing, imported, i, e);
    RowIsWritten(order, at, count, e.id);
  }

  lemma GoneIsWritten(existing: seq<Identity>, imported: seq<Identity>, scope: Scope, order: seq<Identity>, e: Identity,
                      d: Identity, count: nat)
    requires Regular(existing, imported) && IsOrder(existing, imported, scope, order) && e in existing
    requires d in DeletedOnes(imported) && Previous(existing, d) == Some(e) && count >= |DeletedOnes(imported)|
    ensures IsWritten(Writes(order), count, e.id)
  {
    var gone := DeletedOnes(imported);
    var at :| 0 <= at < |gone| && gone[at] == d;
    PartsAreImports(imported, d);
    ImportIsWritten(existing, imported, order, e, d, at, count);
  }

  lemma LiveIsWritten(existing: seq<Identity>, imported: seq<Identity>, scope: Scope, order: seq<Identity>, e: Identity,
                      j: nat, k: nat)
    requires Regular(existing, imported) && IsOrder(existing, imported, scope, order) && e in existing
    requires j <= k && j < |LiveOnes(imported)| && Previous(existing, LiveOnes(imported)[j]) == Some(e)
    ensures IsWritten(Writes(order), Early(existing, imported, scope) + k + 1, e.id)
  {
    var i, before := LiveOnes(imported)[j], Early(existing, imported, scope);
    assert i in LiveOnes(imported);
    PartsAreImports(imported, i);
    ImportIsWritten(existing, imported, order, e, i, before + j, before + k + 1);
  }

  lemma ReleasedIsWritten(existing: seq<Identity>, imported: seq<Identity>, scope: Scope, order: seq<Identity>,
                          e: Identity, k: nat)
    requires Regular(existing, imported) && IsOrder(existing, imported, scope, order)
    requires e in existing && k < |LiveOnes(imported)| && IsReleased(existing, imported, scope, e, k)
    ensures IsWritten(Writes(order), Early(existing, imported, scope) + k + 1, e.id)
  {
    var live := LiveOnes(imported);
    if IsLost(existing, imported, scope, e) {
      LostIsWritten(existing, imported, scope, order, e, k);
    } else if d :| d in DeletedOnes(imported) && Previous(existing, d) == Some(e) {
      GoneIsWritten(existing, imported, scope, order, e, d, Early(existing, imported, scope) + k + 1);
    } else {
      var j :| 0 <= j <= k && j < |live| && Previous(existing, live[j]) == Some(e);
      LiveIsWritten(existing, imported, scope, order, e, j, k);
    }
  }

  lemma EarlyRowReleases(existing: seq<Identity>, imported: seq<Identity>, scope: Scope, order: seq<Identity>,
                         e: Identity, j: nat)
    requires Regular(existing, imported) && IsOrder(existing, imported, scope, order) && e in existing
    requires j < Early(existing, imported, scope) && order[j].id == e.id
    ensures IsLost(existing, imported, scope, e)
         || exists d :: d in DeletedOnes(imported) && Previous(existing, d) == Some(e)
  {
    var gone := DeletedOnes(imported);
    if j < |gone| {
      assert gone[j] in gone;
      PartsAreImports(imported, gone[j]);
      RenewedId(existing, imported, gone[j], e);
    } else {
      TombstoneAt(existing, imported, scope, e, j - |gone|);
    }
  }

  lemma LiveRowReleases(existing: seq<Identity>, imported: seq<Identity>, scope: Scope, order: seq<Identity>,
                        e: Identity, j: nat)
    requires Regular(existing, imported) && IsOrder(existing, imported, scope, order) && e in existing
    requires j < |LiveOnes(imported)| && order[Early(existing, imported, scope) + j].id == e.id
    ensures Previous(existing, LiveOnes(imported)[j]) == Some(e)
  {
    var i := LiveOnes(imported)[j];
    assert i in LiveOnes(imported);
    PartsAreImports(imported, i);
    RenewedId(existing, imported, i, e);
  }

  lemma WrittenIsReleased(existing: seq<Identity>, imported: seq<Identity>, scope: Scope, order: seq<Identity>,
                          e: Identity, k: nat)
    requires Regular(existing, imported) && IsOrder(existing, imported, scope, order)
    requires e in existing && k < |LiveOnes(imported)|
    requires IsWritten(Writes(order), Early(existing, imported, scope) + k + 1, e.id)
    ensures IsReleased(existing, imported, scope, e, k)
  {
    var before := Early(existing, imported, scope);
    var j :| 0 <= j < before + k + 1 && j < |order| && Writes(order)[j].id == e.id;
    if j < before {
      EarlyRowReleases(existing, imported, scope, order, e, j);
    } else {
      LiveRowReleases(existing, imported, scope, order, e, j - before);
    }
  }

  lemma UnclashingIsReleased(t: Table<RowName>, provider: string, existing: seq<Identity>, imported: seq<Identity>,
                             scope: Scope, order: seq<Identity>, e: Identity, k: nat)
    requires Regular(existing, imported) && Stores(t, provider, existing, imported)
    requires IsOrder(existing, imported, scope, order) && NoClash(t, Writes(order))
    requires k < |LiveOnes(imported)| && e in existing && !IsDeleted(e) && e.ref == LiveOnes(imported)[k].ref
    ensures IsReleased(existing, imported, scope, e, k)
  {
    var i, at := LiveOnes(imported)[k], Early(existing, imported, scope) + k;
    assert i in LiveOnes(imported);
    PartsAreImports(imported, i);
    RenewedKeeps(existing, i);
    assert t[e.id] == Writes(order)[at].name;
    WrittenIsReleased(existing, imported, scope, order, e, k);
  }

  lemma DeletedMeansWritten(t: Table<RowName>, provider: string, existing: seq<Identity>, imported: seq<Identity>,
                            scope: Scope, x: Identity, id: string)
    requires Regular(existing, imported) && Stores(t, provider, existing, imported)
    requires x in Merged(existing, imported, scope, true) && IsDeleted(x) && id in t && t[id] == RowNameOf(x)
    ensures x.id == id
  {
    var e := HolderIsStored(t, provider, existing, imported, scope, x, id);
    TombstoneIsFree(existing, imported, scope, x, e);
  }

  lemma LiveMeansWritten(t: Table<RowName>, provider: string, existing: seq<Identity>, imported: seq<Identity>,
                         scope: Scope, order: seq<Identity>, x: Identity, k: nat, id: string)
    requires Regular(existing, imported) && Stores(t, provider, existing, imported)
    requires IsOrder(existing, imported, scope, order) && IdentifiersAreReleased(existing, imported, scope)
    requires x in Merged(existing, imported, scope, true) && !IsDeleted(x) && id in t && t[id] == RowNameOf(x)
    requires k < |LiveOnes(imported)| && x == Renewed(existing, LiveOnes(imported)[k])
    ensures IsWritten(Writes(order), Early(existing, imported, scope) + k + 1, id)
  {
    var e := HolderIsStored(t, provider, existing, imported, scope, x, id);
    RenewedKeeps(existing, LiveOnes(imported)[k]);
    assert IsReleased(existing, imported, scope, e, k);
    ReleasedIsWritten(existing, imported, scope, order, e, k);
  }

  lemma EarlyRowsAreDeleted(existing: seq<Identity>, imported: seq<Identity>, scope: Scope, order: seq<Identity>,
                            i: nat)
    requires Regular(existing, imported) && IsOrder(existing, imported, scope, order)
          && i < Early(existing, imported, scope)
    ensures IsDeleted(order[i])
  {
    var gone, rows := DeletedOnes(imported), Tombstones(existing, imported, scope, existing);
    if i < |gone| {
      assert gone[i] in gone;
      PartsAreImports(imported, gone[i]);
      RenewedKeeps(existing, gone[i]);
    } else {
      TombstoneRows(existing, imported, scope, existing);
      assert order[i] == rows[i - |gone|] && rows[i - |gone|] in rows;
    }
  }

  lemma ReleasedMeansWritten(t: Table<RowName>, provider: string, existing: seq<Identity>, imported: seq<Identity>,
                             scope: Scope, order: seq<Identity>, i: nat, id: string)
    requires Regular(existing, imported) && Stores(t, provider, existing, imported)
    requires IsOrder(existing, imported, scope, order) && IdentifiersAreReleased(existing, imported, scope)
    requires i < |order| && order[i] in Merged(existing, imported, scope, true) && id in t
          && t[id] == RowNameOf(order[i])
    ensures IsWritten(Writes(order), i + 1, id)
  {
    if IsDeleted(order[i]) {
      DeletedMeansWritten(t, provider, existing, imported, scope, order[i], id);
      RowIsWritten(order, i, i + 1, id);
    } else {
      var k := i - Early(existing, imported, scope);
      if k < 0 {
        EarlyRowsAreDeleted(existing, imported, scope, order, i);
      } else {
        LiveMeansWritten(t, provider, existing, imported, scope, order, order[i], k, id);
      }
    }
  }
}
