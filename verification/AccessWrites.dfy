/** The unique index on accesses after every write of an import. */
module AccessWrites {
  import opened Domain
  import opened UniqueIndex
  import opened AccessReconciliation
  import opened AccessReconciliationLoop
  import opened AccessReconciliationTheorems

  // The rows of accesses that the merged list no longer has are deleted, then the merged list is written row by row.

  function Ids(accesses: seq<Access>): set<string> {
    set access | access in accesses :: access.id
  }

  /** The stored rows that no merged access keeps. */
  function Obsolete(existing: seq<Access>, merged: seq<Access>): set<string> {
    Ids(existing) - Ids(merged)
  }

  function Rows(accesses: seq<Access>): (rows: seq<Write<Ref>>)
    ensures |rows| == |accesses|
    ensures forall i :: 0 <= i < |accesses| ==> rows[i] == Write(accesses[i].id, accesses[i].ref)
  {
    seq(|accesses|, i requires 0 <= i < |accesses| => Write(accesses[i].id, accesses[i].ref))
  }

  /** The stored rows of the provider are the existing accesses; other rows belong to other providers. */
  ghost predicate Stores(t: Table<Ref>, provider: string, existing: seq<Access>, imported: seq<Access>) {
    && Unique(t)
    && (forall e :: e in existing ==> e.ref.provider == provider && e.id in t && t[e.id] == e.ref)
    && (forall i :: i in imported ==> i.ref.provider == provider && i.id !in t)
    && (forall id :: id in t && t[id].provider == provider ==> exists e :: e in existing && e.id == id)
  }

  lemma MergedProvider(provider: string, existing: seq<Access>, imported: seq<Access>, i: nat)
    requires i < |Expected(existing, imported)|
    requires forall e :: e in existing ==> e.ref.provider == provider
    requires forall k :: k in imported ==> k.ref.provider == provider
    ensures Expected(existing, imported)[i].ref.provider == provider
  {
    SlotNames(existing, imported, i);
  }

  /** A stored name in another slot than its own came there by a rename, which is refused. */
  lemma NamesDoNotMove(existing: seq<Access>, imported: seq<Access>, p: nat, q: nat)
    requires Regular(existing, imported) && RenamesAreAllowed(existing, imported)
    requires p < |existing| && q < |existing| && Content(existing, imported, p).ref == existing[q].ref
    ensures p == q
  {
    ContentKeys(existing, imported, p);
    var taker := Taker(existing, imported, p);
    if p != q && taker.Some? {
      var k := taker.value;
      ByNameUnlessTaken(existing, imported, k, q);
      var m :| 0 <= m < k && Slots(existing, imported)[m] == Some(q);
      SlotByNameOrNative(existing, imported, k);
      SlotByNameOrNative(existing, imported, m);
      ImportsDiffer(imported, m, k);
      assert RenameIsAllowed(existing, imported[k]);
      SameNativeSameImport(imported, m, k);
      assert false;
    }
  }

  lemma StoredRow(t: Table<Ref>, provider: string, existing: seq<Access>, imported: seq<Access>, id: string)
    returns (q: nat)
    requires Stores(t, provider, existing, imported) && id in t && t[id].provider == provider
    ensures q < |existing| && existing[q].id == id && t[id] == existing[q].ref
  {
    var e :| e in existing && e.id == id;
    q :| 0 <= q < |existing| && existing[q] == e;
  }

  lemma KeptIdIsInSlot(existing: seq<Access>, imported: seq<Access>, q: nat)
    requires Regular(existing, imported) && q < |existing|
    ensures existing[q].id in Ids(Expected(existing, imported))
       <==> Content(existing, imported, q).id == existing[q].id
  {
    var all := Expected(existing, imported);
    assert all[q] == Content(existing, imported, q);
    if existing[q].id in Ids(all) {
      var access :| access in all && access.id == existing[q].id;
      var i :| 0 <= i < |all| && all[i] == access;
      if i != q {
        StoredIdOnlyAt(existing, imported, q, i);
      }
    }
  }

  /** A row that has a merged name after the deletions is rewritten before the name is written, or with it. */
  lemma NameIsReleased(t: Table<Ref>, provider: string, existing: seq<Access>, imported: seq<Access>, i: nat,
                       id: string)
    requires Regular(existing, imported) && RenamesAreAllowed(existing, imported)
    requires Stores(t, provider, existing, imported) && i < |Expected(existing, imported)|
    requires id in t - Obsolete(existing, Expected(existing, imported)) && t[id] == Expected(existing, imported)[i].ref
    ensures IsWritten(Rows(Expected(existing, imported)), i + 1, id)
  {
    var all := Expected(existing, imported);
    MergedProvider(provider, existing, imported, i);
    var q := StoredRow(t, provider, existing, imported, id);
    assert existing[q] in existing;
    KeptIdIsInSlot(existing, imported, q);
    if i < |existing| {
      NamesDoNotMove(existing, imported, i, q);
    }
    assert Rows(all)[q].id == id;
  }

  lemma RowsAreDistinct(accesses: seq<Access>)
    requires DistinctIds(accesses) && DistinctRefs(accesses)
    ensures DistinctRows(Rows(accesses))
    ensures forall i, j :: 0 <= i < j < |accesses| ==> Rows(accesses)[i].name != Rows(accesses)[j].name
  {
  }

  /**
   * Deleting the obsolete rows first, the unique index on accesses holds after every single write of an accepted
   * import.
   */
  lemma DeletesFirstKeepIndex(t: Table<Ref>, provider: string, existing: seq<Access>, imported: seq<Access>)
    requires Regular(existing, imported) && RenamesAreAllowed(existing, imported)
    requires Stores(t, provider, existing, imported) && Reconciled(existing, imported).Ok?
    ensures var merged := Reconciled(existing, imported).value;
            StaysUnique(t - Obsolete(existing, merged), Rows(merged))
  {
    var merged := Expected(existing, imported);
    var rest := t - Obsolete(existing, merged);
    LoopRepresents(existing, imported);
    ExpectedIsUnique(existing, imported);
    RowsAreDistinct(merged);
    forall i, id | 0 <= i < |merged| && id in rest && rest[id] == Rows(merged)[i].name
      ensures IsWritten(Rows(merged), i + 1, id)
    {
      NameIsReleased(t, provider, existing, imported, i, id);
    }
    UniqueMeansNoClash(rest, Rows(merged));
  }

  /** An access whose id is obsolete was replaced under its own name. */
  lemma {:induction false} ObsoleteWasReplaced(existing: seq<Access>, imported: seq<Access>, q: nat)
    requires Regular(existing, imported) && Faultless(existing, imported) && q < |existing|
    requires Content(existing, imported, q).id != existing[q].id
    ensures Content(existing, imported, q).ref == existing[q].ref
    decreases |imported|
  {
    ContentKeys(existing, imported, q);
    var n := |imported| - 1;
    var rest, last := imported[..n], imported[n];
    assert imported == rest + [last];
    RegularPrefix(existing, rest, last);
    if Content(existing, rest, q).id != existing[q].id {
      ReplacedStays(existing, rest, last, q);
      ObsoleteWasReplaced(existing, rest, q);
    } else {
      ReplacedNow(existing, rest, last, q);
    }
  }

  /** After a replacement nothing else comes into the slot. */
  lemma ReplacedStays(existing: seq<Access>, imported: seq<Access>, incoming: Access, q: nat)
    requires q < |existing| && Fault(existing, imported, incoming).None?
    requires Content(existing, imported, q).id != existing[q].id
    ensures Content(existing, imported + [incoming], q) == Content(existing, imported, q)
  {
    ContentGrows(existing, imported, incoming, q);
  }

  lemma ReplacedNow(existing: seq<Access>, imported: seq<Access>, incoming: Access, q: nat)
    requires Regular(existing, imported + [incoming]) && Fault(existing, imported, incoming).None? && q < |existing|
    requires Content(existing, imported, q).id == existing[q].id
    requires Content(existing, imported + [incoming], q).id != existing[q].id
    ensures Content(existing, imported + [incoming], q).ref == existing[q].ref
  {
    ContentGrows(existing, imported, incoming, q);
    ReplacementIsNamed(existing, imported, incoming, q);
  }

  lemma ReplacementIsNamed(existing: seq<Access>, imported: seq<Access>, incoming: Access, q: nat)
    requires Regular(existing, imported + [incoming]) && Fault(existing, imported, incoming).None? && q < |existing|
    requires Slot(existing, Slots(existing, imported), incoming) == Some(q)
    requires IsReplacement(Content(existing, imported, q), incoming)
    ensures existing[q].ref == incoming.ref
  {
    ReplacedWasFree(existing, imported, incoming, q);
    FreeIsNamed(existing, imported, incoming, q);
  }

  lemma FreeIsNamed(existing: seq<Access>, imported: seq<Access>, incoming: Access, q: nat)
    requires q < |existing| && Slot(existing, Slots(existing, imported), incoming) == Some(q)
    requires IsReplacement(existing[q], incoming)
    ensures existing[q].ref == incoming.ref
  {
  }

  /** Without the deletions the index holds exactly when there is nothing to delete. */
  lemma DeletesAreNeeded(t: Table<Ref>, provider: string, existing: seq<Access>, imported: seq<Access>)
    requires Regular(existing, imported) && RenamesAreAllowed(existing, imported)
    requires Stores(t, provider, existing, imported) && Reconciled(existing, imported).Ok?
    ensures var merged := Reconciled(existing, imported).value;
            StaysUnique(t, Rows(merged)) <==> Obsolete(existing, merged) == {}
  {
    LoopRepresents(existing, imported);
    if Obsolete(existing, Expected(existing, imported)) == {} {
      DeletesFirstKeepIndex(t, provider, existing, imported);
      assert t - {} == t;
    } else {
      ObsoleteRowsBreakIndex(t, provider, existing, imported);
    }
  }

  lemma ObsoleteRowsBreakIndex(t: Table<Ref>, provider: string, existing: seq<Access>, imported: seq<Access>)
    requires Regular(existing, imported) && Faultless(existing, imported) && Stores(t, provider, existing, imported)
    requires Obsolete(existing, Expected(existing, imported)) != {}
    ensures !StaysUnique(t, Rows(Expected(existing, imported)))
  {
    var merged := Expected(existing, imported);
    var id :| id in Obsolete(existing, merged);
    var q :| 0 <= q < |existing| && existing[q].id == id;
    ObsoleteRowClashes(t, provider, existing, imported, q);
    ExpectedIsUnique(existing, imported);
    RowsAreDistinct(merged);
    UniqueMeansNoClash(t, Rows(merged));
  }

  lemma ObsoleteRowClashes(t: Table<Ref>, provider: string, existing: seq<Access>, imported: seq<Access>, q: nat)
    requires Regular(existing, imported) && Faultless(existing, imported) && Stores(t, provider, existing, imported)
    requires q < |existing| && existing[q].id !in Ids(Expected(existing, imported))
    ensures !NoClash(t, Rows(Expected(existing, imported)))
  {
    var merged, id := Expected(existing, imported), existing[q].id;
    assert existing[q] in existing;
    KeptIdIsInSlot(existing, imported, q);
    ObsoleteWasReplaced(existing, imported, q);
    assert Rows(merged)[q].name == merged[q].ref == t[id];
    forall j | 0 <= j < |merged| ensures Rows(merged)[j].id != id {
      assert merged[j] in merged;
    }
  }

  /** Deletes the rows that the merged list no longer has, then writes the list. */
  method WriteAccesses(t: Table<Ref>, provider: string, existing: seq<Access>, imported: seq<Access>)
    returns (table: Result<Table<Ref>>)
    requires Stores(t, provider, existing, imported) && Regular(existing, imported)
    requires RenamesAreAllowed(existing, imported)
    ensures table.Ok? <==> Reconciled(existing, imported).Ok?
    ensures table.Ok? ==> forall access :: access in Reconciled(existing, imported).value ==>
              access.id in table.value && table.value[access.id] == access.ref
    ensures table.Ok? ==> forall id :: id in table.value && table.value[id].provider == provider ==>
              exists access :: access in Reconciled(existing, imported).value && access.id == id
  {
    var merged := ReconcileAccesses(existing, imported);
    if merged.Error? {
      return Error(merged.message);
    }
    var kept := Ids(merged.value);
    var rest := t - (Ids(existing) - kept);
    DeletesFirstKeepIndex(t, provider, existing, imported);
    table := UpsertAll(rest, Rows(merged.value));
    WrittenAreMerged(t, provider, existing, imported);
  }

  lemma KeptRowIsMerged(t: Table<Ref>, provider: string, existing: seq<Access>, imported: seq<Access>, id: string)
    requires Stores(t, provider, existing, imported)
    requires id in t - Obsolete(existing, Expected(existing, imported)) && t[id].provider == provider
    ensures exists access :: access in Expected(existing, imported) && access.id == id
  {
    var e :| e in existing && e.id == id;
    assert id in Ids(existing);
  }

  lemma WrittenAreMerged(t: Table<Ref>, provider: string, existing: seq<Access>, imported: seq<Access>)
    requires Stores(t, provider, existing, imported) && Regular(existing, imported)
    requires Reconciled(existing, imported).Ok?
    ensures var merged := Reconciled(existing, imported).value;
            var table := Written(t - Obsolete(existing, merged), Rows(merged));
            && (forall access :: access in merged ==> access.id in table && table[access.id] == access.ref)
            && (forall id :: id in table && table[id].provider == provider ==>
                  exists access :: access in merged && access.id == id)
  {
    var merged := Expected(existing, imported);
    var rest := t - Obsolete(existing, merged);
    var table := Written(rest, Rows(merged));
    LoopRepresents(existing, imported);
    ExpectedIsUnique(existing, imported);
    RowsAreDistinct(merged);
    forall access | access in merged ensures access.id in table && table[access.id] == access.ref {
      var j :| 0 <= j < |merged| && merged[j] == access;
      WrittenRows(rest, Rows(merged), access.id);
      assert Rows(merged)[j].id == access.id;
    }
    forall id | id in table && table[id].provider == provider
      ensures exists access :: access in merged && access.id == id
    {
      WrittenRows(rest, Rows(merged), id);
      if j :| 0 <= j < |merged| && Rows(merged)[j].id == id {
        assert merged[j] in merged;
      } else {
        KeptRowIsMerged(t, provider, existing, imported, id);
      }
    }
  }
}
