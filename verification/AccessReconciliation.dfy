/** Merging imported accesses into the stored ones: by name first, by native id second. */
module AccessReconciliation {
  import opened Domain
  import opened GoldenVersions

  datatype NativeKey = NativeKey(provider: string, nativeId: string)

  /**
   * The list under construction, the stored accesses that a replacement took out of it, the two indexes by access id,
   * and the imported names met so far. An index may still lead to an access that was taken out.
   */
  datatype Reconciliation = Reconciliation(
    slots: seq<Access>,
    replaced: map<string, Access>,
    byName: map<Ref, string>,
    byNative: map<NativeKey, string>,
    seen: set<Ref>)

  const BUSINESS_CONTEXT := "eare_business_context"
  const COLLISION := "ACCESS_DEFINITION_COLLISION"
  const STALE := "the indexed access is not in the list"

  function NativeKeyOf(access: Access): Option<NativeKey> {
    var nativeId := AccessNativeId(access);
    if nativeId.Some? then Some(NativeKey(access.ref.provider, nativeId.value)) else None
  }

  predicate Differ<T(==)>(left: Option<T>, right: Option<T>) {
    left.Some? && right.Some? && left != right
  }

  predicate DefinitionsConflict(existing: Access, incoming: Access) {
    Differ(existing.target, incoming.target) || Differ(existing.permission, incoming.permission)
  }

  function FirstSome<T>(left: Option<T>, right: Option<T>): Option<T> {
    if left.Some? then left else right
  }

  function EnrichControl(existing: Option<ControlObject>, incoming: Option<ControlObject>): Option<ControlObject> {
    if existing.None? || incoming.None? then FirstSome(existing, incoming)
    else Some(existing.value.(displayName := OrElse(incoming.value.displayName, existing.value.displayName),
                              description := OrElse(incoming.value.description, existing.value.description),
                              metadata := existing.value.metadata + incoming.value.metadata))
  }

  /** The stored access with what the import adds; a mapped business context replaces the texts as a whole. */
  function Enrich(existing: Access, incoming: Access): Access {
    var mapped := BUSINESS_CONTEXT in incoming.metadata;
    existing.(target := FirstSome(existing.target, incoming.target),
              permission := FirstSome(existing.permission, incoming.permission),
              controlObject := EnrichControl(existing.controlObject, incoming.controlObject),
              displayName := if mapped then incoming.displayName
                             else OrElse(incoming.displayName, existing.displayName),
              description := if mapped then incoming.description
                             else OrElse(incoming.description, existing.description),
              metadata := existing.metadata + incoming.metadata)
  }

  /** The same name for another source object. */
  predicate IsReplacement(existing: Access, incoming: Access) {
    Differ(AccessNativeId(existing), AccessNativeId(incoming))
  }

  /** What stands in the slot of a stored access after an import that was matched with it. */
  function Place(existing: Access, incoming: Access): Access {
    if IsReplacement(existing, incoming) then incoming
    else if existing.ref != incoming.ref then incoming.(id := existing.id)
    else Enrich(existing, incoming)
  }

  function IndexOf(slots: seq<Access>, id: string): (index: Option<nat>)
    ensures index.Some? ==> index.value < |slots| && slots[index.value].id == id
    ensures index.None? ==> forall s :: s in slots ==> s.id != id
  {
    if slots == [] then None
    else if slots[0].id == id then Some(0)
    else
      var later := IndexOf(slots[1..], id);
      assert slots == [slots[0]] + slots[1..];
      if later.Some? then Some(later.value + 1) else None
  }

  function Previous(r: Reconciliation, incoming: Access): Option<string> {
    var key := NativeKeyOf(incoming);
    if incoming.ref in r.byName then Some(r.byName[incoming.ref])
    else if key.Some? && key.value in r.byNative then Some(r.byNative[key.value])
    else None
  }

  function Indexed(r: Reconciliation, incoming: Access, id: string): Reconciliation {
    var key := NativeKeyOf(incoming);
    r.(byName := r.byName[incoming.ref := id],
       byNative := if key.Some? then r.byNative[key.value := id] else r.byNative,
       seen := r.seen + {incoming.ref})
  }

  /** What an import does to a replaced access that an index still leads to: it is compared, and then not found. */
  function Missed(r: Reconciliation, id: string, incoming: Access): string {
    if id in r.replaced && DefinitionsConflict(r.replaced[id], incoming) then COLLISION else STALE
  }

  /** One round of the loop. */
  function Step(r: Reconciliation, incoming: Access): Result<Reconciliation> {
    var previous := Previous(r, incoming);
    if previous.None? then
      var slots := if incoming.ref in r.seen then r.slots else r.slots + [incoming];
      Ok(Indexed(r.(slots := slots), incoming, incoming.id))
    else
      var position := IndexOf(r.slots, previous.value);
      if position.None? then Error(Missed(r, previous.value, incoming))
      else if DefinitionsConflict(r.slots[position.value], incoming) then Error(COLLISION)
      else Ok(Placed(r, incoming, position.value))
  }

  /** The import takes slot p. */
  function Placed(r: Reconciliation, incoming: Access, p: nat): Reconciliation
    requires p < |r.slots|
  {
    var existing, placed := r.slots[p], Place(r.slots[p], incoming);
    var byName := if existing.ref != incoming.ref then r.byName - {existing.ref} else r.byName;
    var replaced := if IsReplacement(existing, incoming) then r.replaced[existing.id := existing] else r.replaced;
    Indexed(r.(slots := r.slots[p := placed], replaced := replaced, byName := byName), incoming, placed.id)
  }

  function StepAll(start: Reconciliation, imported: seq<Access>): Result<Reconciliation> {
    if imported == [] then Ok(start)
    else
      var before := StepAll(start, imported[..|imported| - 1]);
      if before.Error? then before else Step(before.value, imported[|imported| - 1])
  }

  function NameIndex(existing: seq<Access>): map<Ref, string> {
    if existing == [] then map[]
    else NameIndex(existing[..|existing| - 1])[existing[|existing| - 1].ref := existing[|existing| - 1].id]
  }

  function NativeIndex(existing: seq<Access>): map<NativeKey, string> {
    if existing == [] then map[]
    else
      var index, last := NativeIndex(existing[..|existing| - 1]), existing[|existing| - 1];
      if NativeKeyOf(last).Some? then index[NativeKeyOf(last).value := last.id] else index
  }

  function Start(existing: seq<Access>): Reconciliation {
    Reconciliation(existing, map[], NameIndex(existing), NativeIndex(existing), {})
  }

  predicate DistinctRefs(accesses: seq<Access>) {
    forall i, j :: 0 <= i < j < |accesses| ==> accesses[i].ref != accesses[j].ref
  }

  predicate DistinctIds(accesses: seq<Access>) {
    forall i, j :: 0 <= i < j < |accesses| ==> accesses[i].id != accesses[j].id
  }

  function Reconciled(existing: seq<Access>, imported: seq<Access>): Result<seq<Access>> {
    if !DistinctRefs(existing) then Error(COLLISION)
    else match StepAll(Start(existing), imported)
      case Ok(r) => Ok(r.slots)
      case Error(message) => Error(message)
  }

  method IndexExisting(existing: seq<Access>)
    returns (ok: bool, byName: map<Ref, string>, byNative: map<NativeKey, string>)
    ensures ok <==> DistinctRefs(existing)
    ensures ok ==> byName == NameIndex(existing) && byNative == NativeIndex(existing)
  {
    ok, byName, byNative := true, map[], map[];
    for i := 0 to |existing|
      invariant ok && byName == NameIndex(existing[..i]) && byNative == NativeIndex(existing[..i])
      invariant DistinctRefs(existing[..i])
    {
      var access := existing[i];
      assert existing[..i + 1][..i] == existing[..i];
      NameIndexKeys(existing[..i]);
      if access.ref in byName {
        return false, byName, byNative;
      }
      byName := byName[access.ref := access.id];
      if NativeKeyOf(access).Some? {
        byNative := byNative[NativeKeyOf(access).value := access.id];
      }
    }
    assert existing[..|existing|] == existing;
  }

  /** The slot of the previous access now bears the import's name; only a replacement brings a new id into it. */
  ghost predicate TakesSlot(r: Reconciliation, next: Reconciliation, access: Access, p: nat) {
    && p < |r.slots| == |next.slots| && Previous(r, access) == Some(r.slots[p].id)
    && (forall q :: 0 <= q < |r.slots| && q != p ==> next.slots[q] == r.slots[q])
    && next.slots[p].ref == access.ref
    && next.slots[p].id == (if IsReplacement(r.slots[p], access) then access.id else r.slots[p].id)
    && (next.slots[p].id != r.slots[p].id ==> next.replaced == r.replaced[r.slots[p].id := r.slots[p]])
    && (r.slots[p].ref != access.ref ==> r.slots[p].ref !in next.byName)
    && access.ref in next.byName && next.byName[access.ref] == next.slots[p].id
  }

  ghost predicate TakesNewSlot(r: Reconciliation, next: Reconciliation, access: Access) {
    && Previous(r, access).None? && next.replaced == r.replaced
    && next.slots == if access.ref in r.seen then r.slots else r.slots + [access]
  }

  /** The access with this id is in the list, and its definition agrees with the import. */
  predicate Accepts(slots: seq<Access>, id: string, access: Access) {
    IndexOf(slots, id).Some? && !DefinitionsConflict(slots[IndexOf(slots, id).value], access)
  }

  lemma PlacedTakesSlot(r: Reconciliation, access: Access, p: nat)
    requires p < |r.slots| && Previous(r, access) == Some(r.slots[p].id)
    ensures TakesSlot(r, Placed(r, access, p), access, p)
  {
  }

  lemma StepTakesSlot(r: Reconciliation, access: Access)
    ensures Step(r, access).Ok? ==>
              TakesNewSlot(r, Step(r, access).value, access) || exists p: nat ::
                TakesSlot(r, Step(r, access).value, access, p)
  {
    if Step(r, access).Ok? && Previous(r, access).Some? {
      PlacedTakesSlot(r, access, IndexOf(r.slots, Previous(r, access).value).value);
    }
  }

  /**
   * One import. It takes the slot its previous access is in, or a new one; afterwards its name and its native id lead
   * to that slot. It fails exactly when its previous access has left the list or is defined differently.
   */
  method ReconcileOne(r: Reconciliation, access: Access) returns (next: Result<Reconciliation>)
    ensures next == Step(r, access)
    ensures next.Ok? ==> TakesNewSlot(r, next.value, access) || exists p: nat :: TakesSlot(r, next.value, access, p)
    ensures next.Ok? ==> access.ref in next.value.byName && access.ref in next.value.seen
    ensures next.Ok? && NativeKeyOf(access).Some? ==>
              NativeKeyOf(access).value in next.value.byNative
              && next.value.byNative[NativeKeyOf(access).value] == next.value.byName[access.ref]
    ensures next.Error? <==> Previous(r, access).Some? && !Accepts(r.slots, Previous(r, access).value, access)
  {
    var slots, replaced, byName, byNative, seen := r.slots, r.replaced, r.byName, r.byNative, r.seen;
    var key := NativeKeyOf(access);
    var previous: Option<string> := None;
    if access.ref in byName {
      previous := Some(byName[access.ref]);
    } else if key.Some? && key.value in byNative {
      previous := Some(byNative[key.value]);
    }
    var current := access;
    if previous.Some? {
      var position := IndexOf(slots, previous.value);
      if position.None? {
        return Error(Missed(r, previous.value, access));
      }
      var stored := slots[position.value];
      if DefinitionsConflict(stored, access) {
        return Error(COLLISION);
      }
      if IsReplacement(stored, access) {
        slots := slots[position.value := access];
        replaced := replaced[stored.id := stored];
      } else if stored.ref != access.ref {
        current := access.(id := stored.id);
        slots := slots[position.value := current];
      } else {
        current := Enrich(stored, access);
        slots := slots[position.value := current];
      }
      if stored.ref != access.ref {
        byName := byName - {stored.ref};
      }
    } else if access.ref !in seen {
      slots := slots + [access];
    }
    byName := byName[access.ref := current.id];
    if key.Some? {
      byNative := byNative[key.value := current.id];
    }
    seen := seen + {access.ref};
    next := Ok(Reconciliation(slots, replaced, byName, byNative, seen));
    StepTakesSlot(r, access);
  }

  /** The loop over the stored accesses, then the loop over the imported ones. */
  method ReconcileAccesses(existing: seq<Access>, imported: seq<Access>) returns (accesses: Result<seq<Access>>)
    ensures accesses == Reconciled(existing, imported)
  {
    var ok, byName, byNative := IndexExisting(existing);
    if !ok {
      return Error(COLLISION);
    }
    var r := Reconciliation(existing, map[], byName, byNative, {});
    for i := 0 to |imported|
      invariant StepAll(Start(existing), imported[..i]) == Ok(r)
    {
      assert imported[..i + 1][..i] == imported[..i];
      FailureStays(Start(existing), imported, i + 1);
      var next := ReconcileOne(r, imported[i]);
      if next.Error? {
        return Error(next.message);
      }
      r := next.value;
    }
    assert imported[..|imported|] == imported;
    return Ok(r.slots);
  }

  lemma {:induction false} NameIndexKeys(existing: seq<Access>)
    ensures NameIndex(existing).Keys == set access | access in existing :: access.ref
  {
    if existing != [] {
      NameIndexKeys(existing[..|existing| - 1]);
      assert existing == existing[..|existing| - 1] + [existing[|existing| - 1]];
    }
  }

  lemma StepAllStops(start: Reconciliation, imported: seq<Access>, n: nat)
    requires n == |imported| - 1 && StepAll(start, imported[..n]).Error?
    ensures StepAll(start, imported) == StepAll(start, imported[..n])
  {
  }

  lemma {:induction false} FailureStays(start: Reconciliation, imported: seq<Access>, k: nat)
    requires k <= |imported|
    ensures StepAll(start, imported[..k]).Error? ==> StepAll(start, imported) == StepAll(start, imported[..k])
    decreases |imported|
  {
    if k < |imported| {
      var n := |imported| - 1;
      FailureStays(start, imported[..n], k);
      assert imported[..n][..k] == imported[..k];
      if StepAll(start, imported[..n]).Error? {
        StepAllStops(start, imported, n);
      }
    } else {
      assert imported[..k] == imported;
    }
  }
}
