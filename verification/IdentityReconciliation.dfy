/** Merging imported identities into the stored ones. */
module IdentityReconciliation {
  import opened Domain
  import opened Ordering
  import opened UniqueIndex

  datatype NativeKey = NativeKey(provider: string, nativeId: string)

  /** The scope of an import over identities. */
  datatype Scope = Everything | Providers(names: set<string>) | IdentityTypes(kinds: set<string>) | OtherScope

  /** The name under which a row is indexed: tombstones do not occupy the identifier. */
  datatype RowName = Live(ref: Ref) | Tombstone(ref: Ref, tag: string)

  const DELETED := "deleted"

  function NativeKeyOf(identity: Identity): Option<NativeKey> {
    if identity.nativeId.Some? then Some(NativeKey(identity.ref.provider, identity.nativeId.value)) else None
  }

  predicate InScope(identity: Identity, scope: Scope) {
    match scope
    case Everything => true
    case Providers(names) => identity.ref.provider in names
    case IdentityTypes(kinds) => identity.kind in kinds
    case OtherScope => false
  }

  function RowNameOf(identity: Identity): RowName {
    if identity.status == DELETED then
      Tombstone(identity.ref, if Present(identity.nativeId) then identity.nativeId.value else identity.id)
    else Live(identity.ref)
  }

  /** The last identity in the list with this native id. */
  function ByNative(existing: seq<Identity>, key: NativeKey): (found: Option<Identity>)
    ensures found.Some? ==> found.value in existing && NativeKeyOf(found.value) == Some(key)
    ensures found.None? ==> forall e :: e in existing ==> NativeKeyOf(e) != Some(key)
  {
    if existing == [] then None
    else
      var rest, last := existing[..|existing| - 1], existing[|existing| - 1];
      assert existing == rest + [last];
      if NativeKeyOf(last) == Some(key) then Some(last) else ByNative(rest, key)
  }

  function ByRef(existing: seq<Identity>, ref: Ref): (found: Option<Identity>)
    ensures found.Some? ==> found.value in existing && found.value.ref == ref
  {
    if existing == [] then None
    else
      var rest, last := existing[..|existing| - 1], existing[|existing| - 1];
      assert existing == rest + [last];
      if last.ref == ref then Some(last) else ByRef(rest, ref)
  }

  /** The stored identity whose id an import takes; a native id is never matched by name. */
  function Previous(existing: seq<Identity>, incoming: Identity): Option<Identity> {
    if NativeKeyOf(incoming).Some? then ByNative(existing, NativeKeyOf(incoming).value)
    else ByRef(existing, incoming.ref)
  }

  function Renewed(existing: seq<Identity>, incoming: Identity): Identity {
    var previous := Previous(existing, incoming);
    if previous.Some? then incoming.(id := previous.value.id) else incoming
  }

  function RenewedAll(existing: seq<Identity>, imported: seq<Identity>): seq<Identity> {
    seq(|imported|, i requires 0 <= i < |imported| => Renewed(existing, imported[i]))
  }

  function KeptIds(existing: seq<Identity>, imported: seq<Identity>): set<string> {
    set i | i in imported && Previous(existing, i).Some? :: Previous(existing, i).value.id
  }

  function ImportedRefs(imported: seq<Identity>): set<Ref> {
    set i | i in imported :: i.ref
  }

  predicate IsLost(existing: seq<Identity>, imported: seq<Identity>, scope: Scope, e: Identity) {
    && e.id !in KeptIds(existing, imported) && (e.nativeId.Some? || e.ref !in ImportedRefs(imported))
    && InScope(e, scope)
  }

  function Tombstones(existing: seq<Identity>, imported: seq<Identity>, scope: Scope,
                      stored: seq<Identity>): seq<Identity>
  {
    if stored == [] then []
    else
      var e := stored[|stored| - 1];
      Tombstones(existing, imported, scope, stored[..|stored| - 1])
      + if IsLost(existing, imported, scope, e) then [e.(status := DELETED)] else []
  }

  /** Imported identities with their ids, then, for an authoritative import, the tombstones. */
  function Merged(existing: seq<Identity>, imported: seq<Identity>, scope: Scope, authoritative: bool): seq<Identity> {
    RenewedAll(existing, imported) + if authoritative then Tombstones(existing, imported, scope, existing) else []
  }

  method IndexStored(existing: seq<Identity>) returns (byNative: map<NativeKey, Identity>, byRef: map<Ref, Identity>)
    ensures forall k :: ByNative(existing, k) == if k in byNative then Some(byNative[k]) else None
    ensures forall r :: ByRef(existing, r) == if r in byRef then Some(byRef[r]) else None
  {
    byNative, byRef := map[], map[];
    for i := 0 to |existing|
      invariant forall k :: ByNative(existing[..i], k) == if k in byNative then Some(byNative[k]) else None
      invariant forall r :: ByRef(existing[..i], r) == if r in byRef then Some(byRef[r]) else None
    {
      var e := existing[i];
      assert existing[..i + 1][..i] == existing[..i];
      if NativeKeyOf(e).Some? {
        byNative := byNative[NativeKeyOf(e).value := e];
      }
      byRef := byRef[e.ref := e];
    }
    assert existing[..|existing|] == existing;
  }

  lemma NextImport(existing: seq<Identity>, imported: seq<Identity>, i: nat)
    requires i < |imported|
    ensures var previous := Previous(existing, imported[i]);
            && RenewedAll(existing, imported[..i + 1])
                == RenewedAll(existing, imported[..i]) + [Renewed(existing, imported[i])]
            && ImportedRefs(imported[..i + 1]) == ImportedRefs(imported[..i]) + {imported[i].ref}
            && KeptIds(existing, imported[..i + 1])
               == KeptIds(existing, imported[..i]) + (if previous.Some? then {previous.value.id} else {})
  {
    assert imported[..i + 1] == imported[..i] + [imported[i]];
  }

  method ReconcileIdentities(existing: seq<Identity>, imported: seq<Identity>, scope: Scope, authoritative: bool)
    returns (merged: seq<Identity>)
    ensures merged == Merged(existing, imported, scope, authoritative)
  {
    var byNative, byRef := IndexStored(existing);
    var refs: set<Ref>, kept: set<string> := {}, {};
    merged := [];
    for i := 0 to |imported|
      invariant merged == RenewedAll(existing, imported[..i])
      invariant refs == ImportedRefs(imported[..i]) && kept == KeptIds(existing, imported[..i])
    {
      var incoming, key := imported[i], NativeKeyOf(imported[i]);
      NextImport(existing, imported, i);
      var previous :=
        if key.Some? then (if key.value in byNative then Some(byNative[key.value]) else None)
        else if incoming.ref in byRef then Some(byRef[incoming.ref]) else None;
      assert previous == Previous(existing, incoming);
      if previous.Some? {
        incoming := incoming.(id := previous.value.id);
        kept := kept + {previous.value.id};
      }
      refs := refs + {incoming.ref};
      merged := merged + [incoming];
    }
    assert imported[..|imported|] == imported;
    if authoritative {
      var tombstones := AddTombstones(existing, imported, scope, kept, refs);
      merged := merged + tombstones;
    }
  }

  method AddTombstones(existing: seq<Identity>, imported: seq<Identity>, scope: Scope, kept: set<string>,
                       refs: set<Ref>)
    returns (tombstones: seq<Identity>)
    requires kept == KeptIds(existing, imported) && refs == ImportedRefs(imported)
    ensures tombstones == Tombstones(existing, imported, scope, existing)
  {
    tombstones := [];
    for i := 0 to |existing|
      invariant tombstones == Tombstones(existing, imported, scope, existing[..i])
    {
      var e := existing[i];
      assert existing[..i + 1][..i] == existing[..i];
      if e.id !in kept && (e.nativeId.Some? || e.ref !in refs) && InScope(e, scope) {
        tombstones := tombstones + [e.(status := DELETED)];
      }
    }
    assert existing[..|existing|] == existing;
  }
}
