/** Names and ids after an import of accesses. */
module AccessReconciliationTheorems {
  import opened Domain
  import opened AccessReconciliation
  import opened AccessReconciliationLoop

  // ----- The loop meets its description -----

  /** The loop with its two indexes computes the expected list, or fails with the first import that is refused. */
  lemma ReconciliationIsExpected(existing: seq<Access>, imported: seq<Access>)
    requires Regular(existing, imported)
    ensures Faultless(existing, imported) ==> Reconciled(existing, imported) == Ok(Expected(existing, imported))
    ensures !Faultless(existing, imported) ==>
              exists k :: 0 <= k < |imported| && Faultless(existing, imported[..k])
                       && Fault(existing, imported[..k], imported[k]).Some?
                       && Reconciled(existing, imported) == Error(Fault(existing, imported[..k], imported[k]).value)
  {
    LoopRepresents(existing, imported);
    if !Faultless(existing, imported) {
      var k := FirstFault(existing, imported);
      FaultIsReported(existing, imported, k);
    }
  }

  lemma {:induction false} FirstFault(existing: seq<Access>, imported: seq<Access>) returns (k: nat)
    requires !Faultless(existing, imported)
    ensures k < |imported| && Faultless(existing, imported[..k]) && Fault(existing, imported[..k], imported[k]).Some?
  {
    var n := |imported| - 1;
    if Faultless(existing, imported[..n]) {
      k := n;
    } else {
      k := FirstFault(existing, imported[..n]);
      assert imported[..n][..k] == imported[..k];
    }
  }

  lemma RegularUpTo(existing: seq<Access>, imported: seq<Access>, k: nat)
    requires Regular(existing, imported) && k <= |imported|
    ensures Regular(existing, imported[..k])
  {
  }

  lemma FaultIsReported(existing: seq<Access>, imported: seq<Access>, k: nat)
    requires Regular(existing, imported) && k < |imported| && Faultless(existing, imported[..k])
    requires Fault(existing, imported[..k], imported[k]).Some?
    ensures Reconciled(existing, imported) == Error(Fault(existing, imported[..k], imported[k]).value)
  {
    assert imported[..k + 1] == imported[..k] + [imported[k]];
    RegularUpTo(existing, imported, k + 1);
    FaultStops(existing, imported[..k], imported[k]);
    FailureStays(Start(existing), imported, k + 1);
  }

  lemma FaultStops(existing: seq<Access>, earlier: seq<Access>, incoming: Access)
    requires Regular(existing, earlier + [incoming]) && Faultless(existing, earlier)
    requires Fault(existing, earlier, incoming).Some?
    ensures StepAll(Start(existing), earlier + [incoming]) == Error(Fault(existing, earlier, incoming).value)
  {
    assert (earlier + [incoming])[..|earlier|] == earlier;
    RegularPrefix(existing, earlier, incoming);
    LoopRepresents(existing, earlier);
    StepResult(existing, earlier, StepAll(Start(existing), earlier).value, incoming);
  }

  /** An accepted import leaves unique names and ids and keeps each stored access that no import takes where it was. */
  lemma ReconciliationIsConsistent(existing: seq<Access>, imported: seq<Access>)
    requires Regular(existing, imported) && Reconciled(existing, imported).Ok?
    ensures var result := Reconciled(existing, imported).value;
            && |existing| <= |result| && DistinctRefs(result) && DistinctIds(result)
            && (forall p :: 0 <= p < |existing| && Taker(existing, imported, p).None? ==> result[p] == existing[p])
  {
    LoopRepresents(existing, imported);
    ExpectedIsUnique(existing, imported);
    forall p | 0 <= p < |existing| && Taker(existing, imported, p).None?
      ensures Expected(existing, imported)[p] == existing[p]
    {
      ContentKeys(existing, imported, p);
    }
  }

  // ----- When every import arrives -----

  ghost predicate AllArrive(result: Result<seq<Access>>, imported: seq<Access>) {
    result.Ok? && forall k :: 0 <= k < |imported| ==> Arrives(result.value, imported[k])
  }

  ghost predicate Arrives(result: seq<Access>, access: Access) {
    exists i :: 0 <= i < |result| && result[i].ref == access.ref
  }

  /** A stored name whose native id arrives under another name is taken, if at all, by a later import. */
  ghost predicate ReusesComeLater(existing: seq<Access>, imported: seq<Access>) {
    forall p, i, j :: 0 <= p < |existing| && 0 <= i < j < |imported| ==> !Reuses(existing[p], imported[i], imported[j])
  }

  /** The newcomer has the name of a stored access that the other import renames. */
  predicate Reuses(stored: Access, newcomer: Access, renamed: Access) {
    newcomer.ref == stored.ref && NativeKeyOf(stored).Some? && NativeKeyOf(stored) == NativeKeyOf(renamed)
  }

  ghost predicate NoConflicts(existing: seq<Access>, imported: seq<Access>) {
    forall k :: 0 <= k < |imported| && Slots(existing, imported)[k].Some? ==>
      !DefinitionsConflict(existing[Slots(existing, imported)[k].value], imported[k])
  }

  ghost predicate SlotsDiffer(existing: seq<Access>, imported: seq<Access>) {
    forall i, j :: 0 <= i < j < |imported| && Slots(existing, imported)[i].Some? ==>
      Slots(existing, imported)[i] != Slots(existing, imported)[j]
  }

  /**
   * Every import arrives exactly when no definition conflicts and no name is taken before the access that has it is
   * renamed: an import may reuse a name, but it must be listed after the rename.
   */
  lemma ImportsArriveExactly(existing: seq<Access>, imported: seq<Access>)
    requires Regular(existing, imported) && DistinctNatives(existing) && RenamesAreAllowed(existing, imported)
    ensures AllArrive(Reconciled(existing, imported), imported)
       <==> NoConflicts(existing, imported) && ReusesComeLater(existing, imported)
  {
    LoopRepresents(existing, imported);
    if ReusesComeLater(existing, imported) {
      LaterReusesKeepSlotsApart(existing, imported);
      FaultlessMeansNoConflict(existing, imported);
      if NoConflicts(existing, imported) {
        SeparateSlotsArrive(existing, imported);
      }
    } else if Faultless(existing, imported) {
      var p, i, j :| 0 <= p < |existing| && 0 <= i < j < |imported| && Reuses(existing[p], imported[i], imported[j]);
      EarlyReuseSharesSlot(existing, imported, p, i, j);
      FirstOfTwoIsLost(existing, imported, i, j);
    }
  }

  lemma LaterReusesKeepSlotsApart(existing: seq<Access>, imported: seq<Access>)
    requires Regular(existing, imported) && ReusesComeLater(existing, imported)
    ensures SlotsDiffer(existing, imported)
  {
    forall i, j | 0 <= i < j < |imported| && Slots(existing, imported)[i].Some?
      ensures Slots(existing, imported)[i] != Slots(existing, imported)[j]
    {
      var p := Slots(existing, imported)[i].value;
      assert !Reuses(existing[p], imported[i], imported[j]);
      if Slots(existing, imported)[i] == Slots(existing, imported)[j] {
        TakenTwice(existing, imported, i, j);
      }
    }
  }

  lemma SameNativeSameImport(imported: seq<Access>, m: nat, j: nat)
    requires DistinctNatives(imported) && m < |imported| && j < |imported|
    requires NativeKeyOf(imported[m]).Some? && NativeKeyOf(imported[m]) == NativeKeyOf(imported[j])
    ensures m == j
  {
  }

  lemma NotTakenBefore(existing: seq<Access>, imported: seq<Access>, p: nat, i: nat, j: nat, m: nat)
    requires Regular(existing, imported) && p < |existing| && m < i < j < |imported|
    requires Reuses(existing[p], imported[i], imported[j])
    ensures Slots(existing, imported)[m] != Some(p)
  {
    if Slots(existing, imported)[m] == Some(p) {
      SlotByNameOrNative(existing, imported, m);
      ImportsDiffer(imported, m, i);
      SameNativeSameImport(imported, m, j);
    }
  }

  /** Taking a name before its access is renamed puts both imports into one slot. */
  lemma EarlyReuseSharesSlot(existing: seq<Access>, imported: seq<Access>, p: nat, i: nat, j: nat)
    requires Regular(existing, imported) && DistinctNatives(existing) && RenamesAreAllowed(existing, imported)
    requires p < |existing| && i < j < |imported| && Reuses(existing[p], imported[i], imported[j])
    ensures Slots(existing, imported)[i] == Some(p) == Slots(existing, imported)[j]
  {
    ByNameUnlessTaken(existing, imported, i, p);
    forall m | 0 <= m < i ensures Slots(existing, imported)[m] != Some(p) {
      NotTakenBefore(existing, imported, p, i, j, m);
    }
    ImportsDiffer(imported, i, j);
    RenamedHasNoName(existing, imported[j], p);
    SlotAt(existing, imported, j);
  }

  lemma RenamedHasNoName(existing: seq<Access>, renamed: Access, p: nat)
    requires DistinctNatives(existing) && RenameIsAllowed(existing, renamed) && p < |existing|
    requires NativeKeyOf(renamed).Some? && NativeKeyOf(existing[p]) == NativeKeyOf(renamed)
    requires existing[p].ref != renamed.ref
    ensures NamedAt(existing, renamed.ref).None? && LastNative(existing, NativeKeyOf(renamed).value) == Some(p)
  {
    SameNativeSameImport(existing, p, LastNative(existing, NativeKeyOf(renamed).value).value);
  }

  /** With separate slots each import meets the access as it was stored. */
  lemma {:induction false} FaultlessMeansNoConflict(existing: seq<Access>, imported: seq<Access>)
    requires Regular(existing, imported) && SlotsDiffer(existing, imported)
    ensures Faultless(existing, imported) <==> NoConflicts(existing, imported)
    ensures forall k :: 0 <= k < |imported| && Fault(existing, imported[..k], imported[k]).Some? ==>
              Fault(existing, imported[..k], imported[k]) == Some(COLLISION)
  {
    forall k | 0 <= k < |imported|
      ensures Fault(existing, imported[..k], imported[k]) == StoredFault(existing, imported, k)
    {
      FaultMeetsStored(existing, imported, k);
    }
    if Faultless(existing, imported) {
      forall k | 0 <= k < |imported| ensures StoredFault(existing, imported, k).None? {
        FaultlessAt(existing, imported, k);
      }
    } else {
      var k := FirstFault(existing, imported);
      assert StoredFault(existing, imported, k).Some?;
    }
  }

  function StoredFault(existing: seq<Access>, imported: seq<Access>, k: nat): Option<string>
    requires k < |imported|
  {
    var slot := Slots(existing, imported)[k];
    if slot.Some? && DefinitionsConflict(existing[slot.value], imported[k]) then Some(COLLISION) else None
  }

  lemma FaultMeetsStored(existing: seq<Access>, imported: seq<Access>, k: nat)
    requires SlotsDiffer(existing, imported) && k < |imported|
    ensures Fault(existing, imported[..k], imported[k]) == StoredFault(existing, imported, k)
  {
    SlotAt(existing, imported, k);
    var slot := Slots(existing, imported)[k];
    if slot.Some? {
      assert slot !in Slots(existing, imported)[..k];
      ContentKeys(existing, imported[..k], slot.value);
    }
  }

  lemma {:induction false} FaultlessAt(existing: seq<Access>, imported: seq<Access>, k: nat)
    requires Faultless(existing, imported) && k < |imported|
    ensures Fault(existing, imported[..k], imported[k]).None?
  {
    var n := |imported| - 1;
    if k < n {
      FaultlessAt(existing, imported[..n], k);
      assert imported[..n][..k] == imported[..k];
    }
  }

  lemma SeparateSlotsArrive(existing: seq<Access>, imported: seq<Access>)
    requires Regular(existing, imported) && SlotsDiffer(existing, imported)
    ensures forall k :: 0 <= k < |imported| ==> Arrives(Expected(existing, imported), imported[k])
  {
    forall k | 0 <= k < |imported| ensures Arrives(Expected(existing, imported), imported[k]) {
      if Slots(existing, imported)[k].Some? {
        TakerArrives(existing, imported, k, Slots(existing, imported)[k].value);
      } else {
        NewcomerArrives(existing, imported, k);
      }
    }
  }

  lemma TakerArrives(existing: seq<Access>, imported: seq<Access>, k: nat, p: nat)
    requires SlotsDiffer(existing, imported) && k < |imported| && p < |existing|
    requires Slots(existing, imported)[k] == Some(p)
    ensures Arrives(Expected(existing, imported), imported[k])
  {
    ContentKeys(existing, imported, p);
    TakerIsLast(existing, imported, p, k);
    assert Taker(existing, imported, p) == Some(k);
    assert Expected(existing, imported)[p].ref == imported[k].ref;
  }

  lemma NewcomerArrives(existing: seq<Access>, imported: seq<Access>, k: nat)
    requires k < |imported| && Slots(existing, imported)[k].None?
    ensures Arrives(Expected(existing, imported), imported[k])
  {
    var news := Newcomers(existing, imported);
    NewcomersAreImports(existing, imported);
    assert imported[k] in news;
    var i :| 0 <= i < |news| && news[i] == imported[k];
    assert Expected(existing, imported)[|existing| + i] == imported[k];
  }

  lemma {:induction false} TakerIsLast(existing: seq<Access>, imported: seq<Access>, p: nat, j: nat)
    requires j < |imported| && Slots(existing, imported)[j] == Some(p)
    ensures Taker(existing, imported, p).Some? && j <= Taker(existing, imported, p).value
  {
    var n := |imported| - 1;
    if j < n && Slots(existing, imported)[n] != Some(p) {
      TakerIsLast(existing, imported[..n], p, j);
    }
  }

  /** Of two imports in one slot, the first does not arrive. */
  lemma FirstOfTwoIsLost(existing: seq<Access>, imported: seq<Access>, i: nat, j: nat)
    requires Regular(existing, imported) && i < j < |imported|
    requires Slots(existing, imported)[i].Some? && Slots(existing, imported)[i] == Slots(existing, imported)[j]
    ensures !Arrives(Expected(existing, imported), imported[i])
  {
    var all, p := Expected(existing, imported), Slots(existing, imported)[i].value;
    TakenTwice(existing, imported, i, j);
    TakerIsLast(existing, imported, p, j);
    forall q | 0 <= q < |all| ensures all[q].ref != imported[i].ref {
      if q < |existing| {
        ContentKeys(existing, imported, q);
        var taker := Taker(existing, imported, q);
        if taker.Some? {
          ImportsDiffer(imported, i, taker.value);
        } else {
          TakenNotNamed(existing, imported, i, q);
        }
      } else {
        NewcomersAreImports(existing, imported);
        assert all[q] in Newcomers(existing, imported);
        var k :| 0 <= k < |imported| && imported[k] == all[q] && Slots(existing, imported)[k].None?;
        ImportsDiffer(imported, i, k);
      }
    }
  }

  // ----- What goes wrong otherwise -----

  /** Slots and names are settled; a conflicting definition is then the only reason to refuse the import. */
  lemma ConflictIsRefused(existing: seq<Access>, imported: seq<Access>)
    requires Regular(existing, imported) && ReusesComeLater(existing, imported)
    ensures NoConflicts(existing, imported) <==> Reconciled(existing, imported).Ok?
    ensures !NoConflicts(existing, imported) ==> Reconciled(existing, imported) == Error(COLLISION)
  {
    LaterReusesKeepSlotsApart(existing, imported);
    FaultlessMeansNoConflict(existing, imported);
    ReconciliationIsExpected(existing, imported);
  }

  lemma {:induction false} SoleTaker(existing: seq<Access>, imported: seq<Access>, p: nat, i: nat)
    requires p < |existing| && i < |imported| && Slots(existing, imported)[i] == Some(p)
    requires forall k :: 0 <= k < |imported| && k != i ==> Slots(existing, imported)[k] != Some(p)
    ensures Content(existing, imported, p) == Place(existing[p], imported[i])
  {
    var n := |imported| - 1;
    SlotsPrefix(existing, imported, n);
    if i < n {
      SoleTaker(existing, imported[..n], p, i);
    } else {
      ContentKeys(existing, imported[..n], p);
    }
  }

  lemma OneBefore(existing: seq<Access>, imported: seq<Access>, p: nat, i: nat, j: nat, k: nat)
    requires Regular(existing, imported) && i < j < |imported| && k < j && k != i && p < |existing|
    requires Slots(existing, imported)[i] == Some(p) == Slots(existing, imported)[j]
    ensures Slots(existing, imported)[k] != Some(p)
  {
    if Slots(existing, imported)[k] == Some(p) {
      TakenTwice(existing, imported, i, j);
      TakenTwice(existing, imported, k, j);
      ImportsDiffer(imported, i, k);
    }
  }

  /** Before the rename, the slot holds what the newcomer made of the stored access. */
  lemma NewcomerIsThere(existing: seq<Access>, imported: seq<Access>, p: nat, i: nat, j: nat)
    requires Regular(existing, imported) && i < j < |imported| && p < |existing|
    requires Slots(existing, imported)[i] == Some(p) == Slots(existing, imported)[j]
    ensures Content(existing, imported[..j], p) == Place(existing[p], imported[i])
    ensures Slot(existing, Slots(existing, imported[..j]), imported[j]) == Some(p)
  {
    SlotAt(existing, imported, j);
    forall k | 0 <= k < j && k != i ensures Slots(existing, imported)[k] != Some(p) {
      OneBefore(existing, imported, p, i, j, k);
    }
    SoleTaker(existing, imported[..j], p, i);
  }

  /**
   * A newcomer listed before the rename of the access whose name it takes, where nothing was refused before. With a
   * native id it replaces the access, which the rename then misses; without one it only enriches the access, and is
   * lost when the rename carries the access off under its new name.
   */
  lemma EarlyReuseFails(existing: seq<Access>, imported: seq<Access>, p: nat, i: nat, j: nat)
    requires Regular(existing, imported) && DistinctNatives(existing) && RenamesAreAllowed(existing, imported)
    requires p < |existing| && i < j < |imported| && Reuses(existing[p], imported[i], imported[j])
    requires Faultless(existing, imported[..j])
    ensures var newcomer, renamed, enriched := imported[i], imported[j], Enrich(existing[p], imported[i]);
            && (NativeKeyOf(newcomer).Some? ==>
                  Reconciled(existing, imported)
                  == Error(if DefinitionsConflict(existing[p], renamed) then COLLISION else STALE))
            && (NativeKeyOf(newcomer).None? && DefinitionsConflict(enriched, renamed) ==>
                  Reconciled(existing, imported) == Error(COLLISION))
            && (NativeKeyOf(newcomer).None? && Reconciled(existing, imported).Ok? ==>
                  !Arrives(Reconciled(existing, imported).value, newcomer))
  {
    EarlyReuseSharesSlot(existing, imported, p, i, j);
    NewcomerIsThere(existing, imported, p, i, j);
    if NativeKeyOf(imported[i]).Some? {
      NewcomerReplacesStored(existing, imported, p, i, j);
    }
    if Fault(existing, imported[..j], imported[j]).Some? {
      FaultIsReported(existing, imported, j);
    }
    LoopRepresents(existing, imported);
    FirstOfTwoIsLost(existing, imported, i, j);
  }

  lemma NewcomerReplacesStored(existing: seq<Access>, imported: seq<Access>, p: nat, i: nat, j: nat)
    requires Regular(existing, imported) && p < |existing| && i < j < |imported|
    requires Reuses(existing[p], imported[i], imported[j]) && NativeKeyOf(imported[i]).Some?
    ensures Place(existing[p], imported[i]) == imported[i] && imported[i].id != existing[p].id
  {
    if NativeKeyOf(imported[i]) == NativeKeyOf(existing[p]) {
      SameNativeSameImport(imported, i, j);
      assert false;
    }
  }

  // ----- A rename keeps the id -----

  /** An accepted import keeps the repository id of a native id that stays the same, whatever the new name. */
  lemma RenameKeepsId(existing: seq<Access>, imported: seq<Access>, p: nat, k: nat)
    requires Regular(existing, imported) && RenamesAreAllowed(existing, imported)
    requires p < |existing| && k < |imported|
    requires NativeKeyOf(existing[p]).Some? && NativeKeyOf(existing[p]) == NativeKeyOf(imported[k])
    requires forall q :: 0 <= q < |existing| && q != p ==> NativeKeyOf(existing[q]) != NativeKeyOf(existing[p])
    requires Reconciled(existing, imported).Ok?
    ensures p < |Reconciled(existing, imported).value|
    ensures Reconciled(existing, imported).value[p].id == existing[p].id
    ensures Reconciled(existing, imported).value[p].ref == imported[k].ref
  {
    LoopRepresents(existing, imported);
    NativeTakesItsSlot(existing, imported, p, k);
    ContentKeys(existing, imported, p);
    TakerIsLast(existing, imported, p, k);
    var taker := Taker(existing, imported, p).value;
    if k < taker {
      TakenTwice(existing, imported, k, taker);
      SameNativeSameImport(imported, k, taker);
      assert false;
    }
    FaultlessKeepsNative(existing, imported, p, k);
  }

  lemma NativeTakesItsSlot(existing: seq<Access>, imported: seq<Access>, p: nat, k: nat)
    requires Regular(existing, imported) && RenamesAreAllowed(existing, imported)
    requires p < |existing| && k < |imported|
    requires NativeKeyOf(existing[p]).Some? && NativeKeyOf(existing[p]) == NativeKeyOf(imported[k])
    requires forall q :: 0 <= q < |existing| && q != p ==> NativeKeyOf(existing[q]) != NativeKeyOf(existing[p])
    ensures Slots(existing, imported)[k] == Some(p)
    ensures Slot(existing, Slots(existing, imported[..k]), imported[k]) == Some(p)
  {
    var named := NamedAt(existing, imported[k].ref);
    assert RenameIsAllowed(existing, imported[k]);
    assert named.Some? ==> named == Some(p);
    SlotAt(existing, imported, k);
  }

  /** The import with the native id of a stored access leaves it its id, and no later one takes its slot. */
  lemma {:induction false} FaultlessKeepsNative(existing: seq<Access>, imported: seq<Access>, p: nat, k: nat)
    requires Regular(existing, imported) && Faultless(existing, imported) && p < |existing| && k < |imported|
    requires NativeKeyOf(existing[p]).Some? && NativeKeyOf(existing[p]) == NativeKeyOf(imported[k])
    requires Slots(existing, imported)[k] == Some(p) && Taker(existing, imported, p) == Some(k)
    ensures Content(existing, imported, p).id == existing[p].id
  {
    var n := |imported| - 1;
    var rest := imported[..n];
    SlotsPrefix(existing, imported, n);
    RegularUpTo(existing, imported, n);
    if k < n {
      FaultlessKeepsNative(existing, rest, p, k);
    } else {
      ContentNative(existing, rest, p);
    }
  }

  /** The check before the loop: a native id does not arrive under the name of another native id. */
  ghost predicate RenamesAreAllowed(existing: seq<Access>, imported: seq<Access>) {
    forall k :: 0 <= k < |imported| ==> RenameIsAllowed(existing, imported[k])
  }

  ghost predicate RenameIsAllowed(existing: seq<Access>, incoming: Access) {
    var key := NativeKeyOf(incoming);
    key.Some? ==>
      forall p, q :: 0 <= p < |existing| && 0 <= q < |existing| && p != q && existing[q].ref == incoming.ref ==>
        NativeKeyOf(existing[p]) != key || NativeKeyOf(existing[q]) == key
  }

  /** Refuses an import that would move a native id onto the name of another one. */
  method RejectRenameCollisions(existing: seq<Access>, imported: seq<Access>) returns (accepted: bool)
    requires DistinctRefs(existing) && DistinctIds(existing)
    ensures accepted <==> RenamesAreAllowed(existing, imported)
  {
    var byName, byNative := NameIndex(existing), NativeIndex(existing);
    NameIndexNames(existing);
    for i := 0 to |imported|
      invariant forall k :: 0 <= k < i ==> RenameIsAllowed(existing, imported[k])
    {
      var incoming, key := imported[i], NativeKeyOf(imported[i]);
      if key.Some? {
        NativeIndexIsLast(existing, key.value);
        if key.value in byNative && incoming.ref in byName && byNative[key.value] != byName[incoming.ref] {
          var target := NamedAt(existing, incoming.ref);
          ghost var previous := LastNative(existing, key.value);
          assert existing[target.value].id == byName[incoming.ref];
          if NativeKeyOf(existing[target.value]) != key {
            assert previous != target && !RenameIsAllowed(existing, incoming);
            return false;
          }
        }
      }
    }
    return true;
  }

  // ----- The two inputs where the order matters -----

  /**
   * An access is renamed and a new access takes its old name in the same import: listed first, the new access
   * replaces the stored one, and the renamed one is then looked for in vain; listed second, both arrive.
   */
  lemma ReusedNameFails(stored: Access, renamed: Access, newcomer: Access)
    requires NativeKeyOf(stored).Some? && NativeKeyOf(renamed) == NativeKeyOf(stored)
    requires Differ(NativeKeyOf(newcomer), NativeKeyOf(stored))
    requires newcomer.ref == stored.ref && renamed.ref != stored.ref
    requires stored.id != renamed.id && stored.id != newcomer.id && renamed.id != newcomer.id
    requires !DefinitionsConflict(stored, renamed) && !DefinitionsConflict(stored, newcomer)
    ensures RenamesAreAllowed([stored], [newcomer, renamed])
    ensures Reconciled([stored], [newcomer, renamed]) == Error(STALE)
    ensures Reconciled([stored], [renamed, newcomer]) == Ok([renamed.(id := stored.id), newcomer])
  {
    OneStored(stored);
    TwoSteps(Start([stored]), newcomer, renamed);
    TwoSteps(Start([stored]), renamed, newcomer);
    NewcomerReplaces(stored, newcomer);
    RenameMoves(stored, renamed);
    RenamedIsStale(Step(Start([stored]), newcomer).value, stored, newcomer, renamed);
    NewcomerIsAppended(Step(Start([stored]), renamed).value, stored, newcomer, renamed);
  }

  /**
   * The same with a new access that has no native id: listed first, it only enriches the stored access, and its name
   * disappears with the rename, without an error.
   */
  lemma NativelessNewcomerIsLost(stored: Access, renamed: Access, newcomer: Access)
    requires NativeKeyOf(stored).Some? && NativeKeyOf(renamed) == NativeKeyOf(stored) && NativeKeyOf(newcomer).None?
    requires newcomer.ref == stored.ref && renamed.ref != stored.ref
    requires stored.id != renamed.id && stored.id != newcomer.id && renamed.id != newcomer.id
    requires !DefinitionsConflict(stored, renamed) && !DefinitionsConflict(stored, newcomer)
    requires !DefinitionsConflict(Enrich(stored, newcomer), renamed)
    ensures RenamesAreAllowed([stored], [newcomer, renamed])
    ensures Reconciled([stored], [newcomer, renamed]) == Ok([renamed.(id := stored.id)])
    ensures Reconciled([stored], [renamed, newcomer]) == Ok([renamed.(id := stored.id), newcomer])
  {
    OneStored(stored);
    TwoSteps(Start([stored]), newcomer, renamed);
    TwoSteps(Start([stored]), renamed, newcomer);
    NewcomerEnriches(stored, newcomer);
    RenameMoves(stored, renamed);
    EnrichedIsRenamed(Step(Start([stored]), newcomer).value, stored, newcomer, renamed);
    NewcomerIsAppended(Step(Start([stored]), renamed).value, stored, newcomer, renamed);
  }

  lemma NewcomerEnriches(stored: Access, newcomer: Access)
    requires NativeKeyOf(stored).Some? && NativeKeyOf(newcomer).None? && newcomer.ref == stored.ref
    requires !DefinitionsConflict(stored, newcomer)
    ensures Step(Start([stored]), newcomer).Ok?
    ensures var r := Step(Start([stored]), newcomer).value;
            && r.slots == [Enrich(stored, newcomer)] && r.byName.Keys == {stored.ref}
            && r.byNative == map[NativeKeyOf(stored).value := stored.id]
  {
    OneStored(stored);
    assert IndexOf([stored], stored.id) == Some(0);
    assert Previous(Start([stored]), newcomer) == Some(stored.id);
    assert Place(stored, newcomer) == Enrich(stored, newcomer);
    assert [stored][0 := Enrich(stored, newcomer)] == [Enrich(stored, newcomer)];
  }

  lemma EnrichedIsRenamed(r: Reconciliation, stored: Access, newcomer: Access, renamed: Access)
    requires NativeKeyOf(stored).Some? && NativeKeyOf(renamed) == NativeKeyOf(stored) && renamed.ref != stored.ref
    requires NativeKeyOf(newcomer).None? && !DefinitionsConflict(Enrich(stored, newcomer), renamed)
    requires r.slots == [Enrich(stored, newcomer)] && r.byName.Keys == {stored.ref}
    requires r.byNative == map[NativeKeyOf(stored).value := stored.id]
    ensures Step(r, renamed).Ok? && Step(r, renamed).value.slots == [renamed.(id := stored.id)]
  {
    assert Previous(r, renamed) == Some(stored.id);
    assert IndexOf(r.slots, stored.id) == Some(0);
    assert Place(r.slots[0], renamed) == renamed.(id := stored.id);
    assert r.slots[0 := renamed.(id := stored.id)] == [renamed.(id := stored.id)];
  }

  lemma RenamedIsStale(r: Reconciliation, stored: Access, newcomer: Access, renamed: Access)
    requires NativeKeyOf(stored).Some? && NativeKeyOf(renamed) == NativeKeyOf(stored) && renamed.ref != stored.ref
    requires r.slots == [newcomer] && newcomer.id != stored.id && r.byName.Keys == {stored.ref}
    requires NativeKeyOf(stored).value in r.byNative && r.byNative[NativeKeyOf(stored).value] == stored.id
    requires r.replaced == map[stored.id := stored] && !DefinitionsConflict(stored, renamed)
    ensures Step(r, renamed) == Error(STALE)
  {
    assert Previous(r, renamed) == Some(stored.id);
  }

  lemma NewcomerIsAppended(r: Reconciliation, stored: Access, newcomer: Access, renamed: Access)
    requires NativeKeyOf(stored).Some? && NativeKeyOf(newcomer) != NativeKeyOf(stored)
    requires newcomer.ref == stored.ref && renamed.ref != stored.ref
    requires r.slots == [renamed.(id := stored.id)] && r.byName.Keys == {renamed.ref} == r.seen
    requires r.byNative.Keys == {NativeKeyOf(stored).value}
    ensures Step(r, newcomer).Ok? && Step(r, newcomer).value.slots == [renamed.(id := stored.id), newcomer]
  {
    assert Previous(r, newcomer) == None;
  }

  lemma NewcomerReplaces(stored: Access, newcomer: Access)
    requires NativeKeyOf(stored).Some? && Differ(NativeKeyOf(newcomer), NativeKeyOf(stored))
          && newcomer.ref == stored.ref
    requires !DefinitionsConflict(stored, newcomer)
    ensures Step(Start([stored]), newcomer).Ok?
    ensures var r, key := Step(Start([stored]), newcomer).value, NativeKeyOf(stored).value;
            && r.slots == [newcomer] && r.replaced == map[stored.id := stored] && r.byName.Keys == {stored.ref}
            && key in r.byNative && r.byNative[key] == stored.id
  {
    OneStored(stored);
    assert IndexOf([stored], stored.id) == Some(0);
    assert Previous(Start([stored]), newcomer) == Some(stored.id);
    assert Place(stored, newcomer) == newcomer;
    assert [stored][0 := newcomer] == [newcomer];
  }

  lemma RenameMoves(stored: Access, renamed: Access)
    requires NativeKeyOf(stored).Some? && NativeKeyOf(renamed) == NativeKeyOf(stored) && renamed.ref != stored.ref
    requires !DefinitionsConflict(stored, renamed)
    ensures Step(Start([stored]), renamed).Ok?
    ensures var r := Step(Start([stored]), renamed).value;
            && r.slots == [renamed.(id := stored.id)] && r.byName.Keys == {renamed.ref} == r.seen
            && r.byNative.Keys == {NativeKeyOf(stored).value}
  {
    OneStored(stored);
    assert IndexOf([stored], stored.id) == Some(0);
    assert Previous(Start([stored]), renamed) == Some(stored.id);
    assert Place(stored, renamed) == renamed.(id := stored.id);
    assert [stored][0 := renamed.(id := stored.id)] == [renamed.(id := stored.id)];
  }

  lemma OneStored(stored: Access)
    requires NativeKeyOf(stored).Some?
    ensures Start([stored])
         == Reconciliation([stored], map[], map[stored.ref := stored.id],
                           map[NativeKeyOf(stored).value := stored.id], {})
  {
    assert [stored][..0] == [] && NameIndex([]) == map[] && NativeIndex([]) == map[];
  }

  lemma TwoSteps(start: Reconciliation, first: Access, second: Access)
    ensures StepAll(start, [first, second])
         == match Step(start, first) case Ok(r) => Step(r, second) case Error(message) => Step(start, first)
  {
    assert [first, second][..1] == [first] && [first][..0] == [];
    assert StepAll(start, []) == Ok(start);
    assert StepAll(start, [first]) == Step(start, first);
  }
}
