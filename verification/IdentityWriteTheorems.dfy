/** The unique index after every write of an import. */
module IdentityWriteTheorems {
  import opened Domain
  import opened Ordering
  import opened UniqueIndex
  import opened IdentityReconciliation
  import opened IdentityReconciliationTheorems
  import opened IdentityWrites

  /**
   * Writing tombstones first, the unique index on identities holds after every single write exactly when each
   * identifier that an import takes was released before: it was free, its holder got a tombstone, or its
   * holder was renamed by an earlier write.
   */
  lemma TombstonesFirstKeepsIndex(t: Table<RowName>, provider: string, existing: seq<Identity>, imported: seq<Identity>,
                                  scope: Scope)
    requires Regular(existing, imported) && Stores(t, provider, existing, imported)
    ensures StaysUnique(t, Writes(WriteOrder(Merged(existing, imported, scope, true))))
       <==> IdentifiersAreReleased(existing, imported, scope)
  {
    WriteOrderIsOrder(existing, imported, scope);
    OrderKeepsIndex(t, provider, existing, imported, scope, WriteOrder(Merged(existing, imported, scope, true)));
  }

  lemma OrderKeepsIndex(t: Table<RowName>, provider: string, existing: seq<Identity>, imported: seq<Identity>,
                        scope: Scope,
                        order: seq<Identity>)
    requires Regular(existing, imported) && Stores(t, provider, existing, imported)
    requires IsOrder(existing, imported, scope, order) && WritesMerged(existing, imported, scope, order)
    ensures StaysUnique(t, Writes(order)) <==> IdentifiersAreReleased(existing, imported, scope)
  {
    var writes := Writes(order);
    NamesAreWrittenOnce(existing, imported, scope, order);
    UniqueMeansNoClash(t, writes);
    if IdentifiersAreReleased(existing, imported, scope) {
      forall i, id | 0 <= i < |writes| && id in t && t[id] == writes[i].name ensures IsWritten(writes, i + 1, id) {
        assert order[i] in order;
        ReleasedMeansWritten(t, provider, existing, imported, scope, order, i, id);
      }
    }
    if NoClash(t, writes) {
      var live := LiveOnes(imported);
      forall k, e | 0 <= k < |live| && e in existing && !IsDeleted(e) && e.ref == live[k].ref
        ensures IsReleased(existing, imported, scope, e, k)
      {
        UnclashingIsReleased(t, provider, existing, imported, scope, order, e, k);
      }
    }
  }

  /**
   * An authoritative import in scope in which no import takes the identifier of an identity renamed by another import.
   */
  ghost predicate NoIdentifierIsReused(existing: seq<Identity>, imported: seq<Identity>, scope: Scope) {
    && (forall e :: e in existing ==> InScope(e, scope))
    && (forall e, i, j ::
          e in existing && i in imported && j in imported && e.ref == i.ref && NativeKeyOf(e) == NativeKeyOf(j) ==>
          i == j)
  }

  lemma ImportsWithoutReuseAreWritten(t: Table<RowName>, provider: string, existing: seq<Identity>,
                                      imported: seq<Identity>,
                                      scope: Scope)
    requires Regular(existing, imported) && Stores(t, provider, existing, imported)
    requires NoIdentifierIsReused(existing, imported, scope)
    ensures StaysUnique(t, Writes(WriteOrder(Merged(existing, imported, scope, true))))
  {
    var live := LiveOnes(imported);
    forall k, e | 0 <= k < |live| && e in existing && !IsDeleted(e) && e.ref == live[k].ref
      ensures IsReleased(existing, imported, scope, e, k)
    {
      assert live[k] in live;
      PartsAreImports(imported, live[k]);
      KeptMeansTaken(existing, imported, e);
      if i :| i in imported && Previous(existing, i) == Some(e) {
        SameNativeIsPrevious(existing, i, e);
      }
    }
    TombstonesFirstKeepsIndex(t, provider, existing, imported, scope);
  }

  /**
   * An identity is renamed and a new identity takes its identifier: listed first, the new one is written while the old
   * row still has the identifier; listed second, every write keeps the index.
   */
  lemma TakenBeforeReleaseFails(stored: Identity, renamed: Identity, newcomer: Identity)
    requires Present(stored.nativeId) && NativeKeyOf(renamed) == NativeKeyOf(stored)
    requires Present(newcomer.nativeId) && NativeKeyOf(newcomer) != NativeKeyOf(stored)
    requires newcomer.ref == stored.ref && renamed.ref != stored.ref
    requires !IsDeleted(stored) && !IsDeleted(renamed) && !IsDeleted(newcomer)
    requires stored.id != renamed.id && stored.id != newcomer.id && renamed.id != newcomer.id
    ensures var t: Table<RowName> := map[stored.id := RowNameOf(stored)];
            && !StaysUnique(t, Writes(WriteOrder(Merged([stored], [newcomer, renamed], Everything, true))))
            && StaysUnique(t, Writes(WriteOrder(Merged([stored], [renamed, newcomer], Everything, true))))
  {
    IndexMeansReleased(stored, newcomer, renamed);
    IndexMeansReleased(stored, renamed, newcomer);
    EarlyIsNotReleased(stored, renamed, newcomer);
    LateIsReleased(stored, renamed, newcomer);
  }

  lemma IndexMeansReleased(stored: Identity, first: Identity, second: Identity)
    requires Present(stored.nativeId) && Present(first.nativeId) && Present(second.nativeId)
    requires NativeKeyOf(first) != NativeKeyOf(second) && first.ref != second.ref
    requires first.ref.provider == second.ref.provider == stored.ref.provider
    requires stored.id != first.id && stored.id != second.id && first.id != second.id
    ensures var t: Table<RowName> := map[stored.id := RowNameOf(stored)];
            StaysUnique(t, Writes(WriteOrder(Merged([stored], [first, second], Everything, true))))
            <==> IdentifiersAreReleased([stored], [first, second], Everything)
  {
    var t: Table<RowName> := map[stored.id := RowNameOf(stored)];
    assert stored in [stored];
    assert Regular([stored], [first, second]);
    TombstonesFirstKeepsIndex(t, stored.ref.provider, [stored], [first, second], Everything);
  }

  lemma EarlyIsNotReleased(stored: Identity, renamed: Identity, newcomer: Identity)
    requires Present(stored.nativeId) && NativeKeyOf(renamed) == NativeKeyOf(stored)
    requires Present(newcomer.nativeId) && NativeKeyOf(newcomer) != NativeKeyOf(stored)
    requires newcomer.ref == stored.ref && !IsDeleted(stored) && !IsDeleted(renamed) && !IsDeleted(newcomer)
    ensures !IdentifiersAreReleased([stored], [newcomer, renamed], Everything)
  {
    var early := [newcomer, renamed];
    AllLive(early);
    OneStoredPrevious(stored, renamed, newcomer);
    assert renamed in early && stored.id in KeptIds([stored], early);
    assert LiveOnes(early)[0] == newcomer && stored in [stored];
    assert !IsReleased([stored], early, Everything, stored, 0);
  }

  lemma LateIsReleased(stored: Identity, renamed: Identity, newcomer: Identity)
    requires Present(stored.nativeId) && NativeKeyOf(renamed) == NativeKeyOf(stored)
    requires Present(newcomer.nativeId) && NativeKeyOf(newcomer) != NativeKeyOf(stored)
    requires !IsDeleted(stored) && !IsDeleted(renamed) && !IsDeleted(newcomer)
    ensures IdentifiersAreReleased([stored], [renamed, newcomer], Everything)
  {
    var late := [renamed, newcomer];
    AllLive(late);
    OneStoredPrevious(stored, renamed, newcomer);
    forall k, e | 0 <= k < |LiveOnes(late)| && e in [stored] ensures IsReleased([stored], late, Everything, e, k) {
      assert LiveOnes(late)[0] == renamed && Previous([stored], LiveOnes(late)[0]) == Some(stored);
    }
  }

  lemma {:induction false} AllLive(items: seq<Identity>)
    requires forall i :: i in items ==> !IsDeleted(i)
    ensures LiveOnes(items) == items && DeletedOnes(items) == []
  {
    if items != [] {
      AllLive(items[1..]);
      assert items[0] in items;
    }
  }

  lemma OneStoredPrevious(stored: Identity, renamed: Identity, newcomer: Identity)
    requires Present(stored.nativeId) && NativeKeyOf(renamed) == NativeKeyOf(stored)
    requires Present(newcomer.nativeId) && NativeKeyOf(newcomer) != NativeKeyOf(stored)
    ensures Previous([stored], renamed) == Some(stored) && Previous([stored], newcomer) == None
  {
    assert [stored][..0] == [];
  }

  /** A forgotten identity keeps its identifier, so the import that brings its native id cannot be written. */
  lemma ForgottenBlocksItsImport(stored: Identity, renewed: Identity, scope: Scope)
    requires stored.nativeId.None? && renewed.nativeId.Some? && renewed.ref == stored.ref && renewed.id != stored.id
    requires !IsDeleted(stored) && !IsDeleted(renewed)
    ensures var t: Table<RowName> := map[stored.id := RowNameOf(stored)];
            !StaysUnique(t, Writes(WriteOrder(Merged([stored], [renewed], scope, true))))
  {
    var t: Table<RowName>, items := map[stored.id := RowNameOf(stored)], [renewed];
    NewNativeIdForgets(stored, renewed, scope);
    AllLive(items);
    assert WriteOrder(items) == DeletedOnes(items) + LiveOnes(items) == items;
    var w := Writes(items)[0];
    assert Writes(items) == [w] && [w][..0] == [] && Written(t, [w]) == t[w.id := w.name];
    assert t[w.id := w.name][stored.id] == t[w.id := w.name][w.id];
  }
}
