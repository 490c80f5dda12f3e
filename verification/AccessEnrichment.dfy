/** What a stored access becomes when it is imported again: its definition, its texts and its metadata, fact by fact. */
module AccessEnrichment {
  import opened Domain
  import opened AccessReconciliation
  import opened AccessReconciliationLoop
  import opened AccessReconciliationTheorems

  /** Both are the same object of one provider, by native id. */
  predicate SameSource(e: Access, i: Access) {
    && e.ref.provider == i.ref.provider && e.controlObject.Some? && i.controlObject.Some?
    && e.controlObject.value.nativeId.Some? && e.controlObject.value.nativeId == i.controlObject.value.nativeId
  }

  /** Both have native ids, and they differ. */
  predicate OtherSource(e: Access, i: Access) {
    && e.controlObject.Some? && i.controlObject.Some?
    && e.controlObject.value.nativeId.Some? && i.controlObject.value.nativeId.Some?
    && e.controlObject.value.nativeId != i.controlObject.value.nativeId
  }

  /** Both define a target and they differ, or both define a permission and they differ. */
  predicate Contradicts(e: Access, i: Access) {
    || (e.target.Some? && i.target.Some? && e.target != i.target)
    || (e.permission.Some? && i.permission.Some? && e.permission != i.permission)
  }

  /** The new text if there is one, else the stored one. */
  predicate IsNewerText(x: Option<string>, stored: Option<string>, imported: Option<string>) {
    x == if imported in {None, Some("")} then stored else imported
  }

  /** Entry by entry: that of the import if it has one, else the stored one. */
  ghost predicate IsNewerMetadata(x: map<string, string>, stored: map<string, string>, imported: map<string, string>) {
    && (forall k :: k in x <==> k in stored || k in imported)
    && (forall k :: k in imported ==> x[k] == imported[k])
    && (forall k :: k in stored && k !in imported ==> x[k] == stored[k])
  }

  /** The stored control object with newer texts and metadata; whichever there is, when the other side has none. */
  ghost predicate IsNewerControl(x: Option<ControlObject>, stored: Option<ControlObject>,
                                 imported: Option<ControlObject>)
  {
    if stored.None? then x == imported
    else if imported.None? then x == stored
    else
      && x.Some? && x.value.kind == stored.value.kind && x.value.identifier == stored.value.identifier
      && x.value.nativeId == stored.value.nativeId
      && IsNewerText(x.value.displayName, stored.value.displayName, imported.value.displayName)
      && IsNewerText(x.value.description, stored.value.description, imported.value.description)
      && IsNewerMetadata(x.value.metadata, stored.value.metadata, imported.value.metadata)
  }

  /**
   * The stored access with what the import adds: target and permission where it had none, newer texts, control object
   * and metadata. An import with a mapped business context replaces the texts, even by none.
   */
  ghost predicate IsEnriched(x: Access, e: Access, i: Access) {
    && x.ref == e.ref && x.id == e.id && x.owner == e.owner
    && x.target == (if e.target.Some? then e.target else i.target)
    && x.permission == (if e.permission.Some? then e.permission else i.permission)
    && IsNewerControl(x.controlObject, e.controlObject, i.controlObject)
    && IsNewerMetadata(x.metadata, e.metadata, i.metadata)
    && (if "eare_business_context" in i.metadata
        then x.displayName == i.displayName && x.description == i.description
        else IsNewerText(x.displayName, e.displayName, i.displayName)
             && IsNewerText(x.description, e.description, i.description))
  }

  /** Replaced by another object, renamed with its id, or enriched. */
  ghost predicate IsMade(x: Access, e: Access, i: Access) {
    if OtherSource(e, i) then x == i
    else if e.ref != i.ref then x == i.(id := e.id)
    else IsEnriched(x, e, i)
  }

  lemma OrElseIsNewer(stored: Option<string>, imported: Option<string>)
    ensures IsNewerText(OrElse(imported, stored), stored, imported)
  {
    if imported.Some? && imported.value == "" {
      assert imported == Some("");
    }
  }

  lemma SameSourceIsSameKey(e: Access, i: Access)
    ensures SameSource(e, i) <==> NativeKeyOf(e).Some? && NativeKeyOf(e) == NativeKeyOf(i)
  {
    if NativeKeyOf(e).Some? && NativeKeyOf(i).Some? && NativeKeyOf(e).value.nativeId == NativeKeyOf(i).value.nativeId {
      assert AccessNativeId(e) == AccessNativeId(i);
    }
  }

  lemma EnrichedControlIsNewer(stored: Option<ControlObject>, imported: Option<ControlObject>)
    ensures IsNewerControl(EnrichControl(stored, imported), stored, imported)
  {
    if stored.Some? && imported.Some? {
      OrElseIsNewer(stored.value.displayName, imported.value.displayName);
      OrElseIsNewer(stored.value.description, imported.value.description);
    }
  }

  lemma EnrichingEnriches(e: Access, i: Access)
    requires e.ref == i.ref
    ensures IsEnriched(Enrich(e, i), e, i)
  {
    EnrichedControlIsNewer(e.controlObject, i.controlObject);
    OrElseIsNewer(e.displayName, i.displayName);
    OrElseIsNewer(e.description, i.description);
  }

  lemma PlacedIsMade(e: Access, i: Access)
    ensures IsMade(Place(e, i), e, i)
    ensures DefinitionsConflict(e, i) <==> Contradicts(e, i)
  {
    if e.ref == i.ref {
      EnrichingEnriches(e, i);
    }
  }

  /** The import has the name of the stored access or its native id, and no other import has either. */
  ghost predicate ComesAlone(existing: seq<Access>, imported: seq<Access>, p: nat, k: nat)
    requires p < |existing| && k < |imported|
  {
    && (existing[p].ref == imported[k].ref || SameSource(existing[p], imported[k]))
    && forall m :: 0 <= m < |imported| && m != k ==>
         imported[m].ref != existing[p].ref && !SameSource(existing[p], imported[m])
  }

  lemma AloneTakesSlot(existing: seq<Access>, imported: seq<Access>, p: nat, k: nat)
    requires Regular(existing, imported) && DistinctNatives(existing) && RenamesAreAllowed(existing, imported)
    requires p < |existing| && k < |imported| && ComesAlone(existing, imported, p, k)
    ensures Slots(existing, imported)[k] == Some(p)
    ensures forall m :: 0 <= m < |imported| && m != k ==> Slots(existing, imported)[m] != Some(p)
  {
    forall m | 0 <= m < |imported| && m != k ensures Slots(existing, imported)[m] != Some(p) {
      SameSourceIsSameKey(existing[p], imported[m]);
      if Slots(existing, imported)[m] == Some(p) {
        SlotByNameOrNative(existing, imported, m);
      }
    }
    SameSourceIsSameKey(existing[p], imported[k]);
    if existing[p].ref == imported[k].ref {
      ByNameUnlessTaken(existing, imported, k, p);
    } else {
      NativeTakesItsSlot(existing, imported, p, k);
    }
  }

  /**
   * An accepted import that alone has the name or the native id of a stored access does not contradict its definition,
   * and what stands in its place is the import, the import under the stored id, or the enriched access.
   */
  lemma ImportedAgain(existing: seq<Access>, imported: seq<Access>, p: nat, k: nat)
    requires Regular(existing, imported) && DistinctNatives(existing) && RenamesAreAllowed(existing, imported)
    requires p < |existing| && k < |imported| && ComesAlone(existing, imported, p, k)
    ensures Contradicts(existing[p], imported[k]) ==> Reconciled(existing, imported).Error?
    ensures Reconciled(existing, imported).Ok? ==>
              p < |Reconciled(existing, imported).value|
              && IsMade(Reconciled(existing, imported).value[p], existing[p], imported[k])
  {
    AloneTakesSlot(existing, imported, p, k);
    LoopRepresents(existing, imported);
    PlacedIsMade(existing[p], imported[k]);
    if Reconciled(existing, imported).Ok? {
      SoleTaker(existing, imported, p, k);
      FaultlessAt(existing, imported, k);
      SlotAt(existing, imported, k);
      assert Some(p) !in Slots(existing, imported[..k]);
      ContentKeys(existing, imported[..k], p);
    }
  }

  /** The import has the name of the stored access, or its native id. */
  predicate Concerns(e: Access, i: Access) {
    e.ref == i.ref || SameSource(e, i)
  }

  lemma TakerConcerns(existing: seq<Access>, imported: seq<Access>, k: nat)
    requires k < |imported| && Slots(existing, imported)[k].Some?
    ensures Concerns(existing[Slots(existing, imported)[k].value], imported[k])
  {
    SlotByNameOrNative(existing, imported, k);
    SameSourceIsSameKey(existing[Slots(existing, imported)[k].value], imported[k]);
  }

  /** After an accepted import, a stored access that no import concerns is as it was. */
  lemma UnconcernedStays(existing: seq<Access>, imported: seq<Access>, p: nat)
    requires Regular(existing, imported) && Reconciled(existing, imported).Ok? && p < |existing|
    requires forall i :: i in imported ==> !Concerns(existing[p], i)
    ensures p < |Reconciled(existing, imported).value| && Reconciled(existing, imported).value[p] == existing[p]
  {
    LoopRepresents(existing, imported);
    ContentKeys(existing, imported, p);
    if Taker(existing, imported, p).Some? {
      TakerConcerns(existing, imported, Taker(existing, imported, p).value);
    }
  }

  /** An accepted import that concerns no stored access is appended as it is. */
  lemma NewcomerIsAppended(existing: seq<Access>, imported: seq<Access>, k: nat)
    requires Regular(existing, imported) && Reconciled(existing, imported).Ok? && k < |imported|
    requires forall e :: e in existing ==> !Concerns(e, imported[k])
    ensures |existing| <= |Reconciled(existing, imported).value|
    ensures imported[k] in Reconciled(existing, imported).value[|existing|..]
  {
    LoopRepresents(existing, imported);
    NewcomersAreImports(existing, imported);
    if Slots(existing, imported)[k].Some? {
      TakerConcerns(existing, imported, k);
    }
    assert Expected(existing, imported)[|existing|..] == Newcomers(existing, imported);
  }
}
