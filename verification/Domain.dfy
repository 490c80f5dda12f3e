/**
 * The records shared by every part of the review engine: providers, identities, accesses, assignments, relations and
 * snapshots, with the optional values, errors and lookups by reference that the other modules use.
 */
module Domain {

  datatype Option<+T> = None | Some(value: T)

  datatype Result<+T> = Ok(value: T) | Error(message: string)

  predicate Distinct<T(==)>(items: seq<T>) {
    forall i, j :: 0 <= i < j < |items| ==> items[i] != items[j]
  }

  /** The list holds each member of the set exactly once. */
  ghost predicate Enumerates<T(!new)>(list: seq<T>, items: set<T>) {
    (forall x :: x in list <==> x in items) && Distinct(list)
  }

  lemma {:induction false} DistinctFitsIn<T>(list: seq<T>, items: set<T>)
    requires Distinct(list) && forall y :: y in list ==> y in items
    ensures |list| <= |items|
  {
    if list != [] {
      DistinctFitsIn(list[1..], items - {list[0]});
    }
  }

  /** A provider-qualified name: an access is keyed by (provider, name), an identity by (provider, identifier). */
  datatype Ref = Ref(provider: string, name: string)

  /** Python's truth value of an optional text: absent and empty text are both false. */
  predicate Present(text: Option<string>) {
    text.Some? && text.value != ""
  }

  /** `left or right` on optional texts. */
  function OrElse(left: Option<string>, right: Option<string>): Option<string> {
    if Present(left) then left else right
  }

  /** Where an observation comes from. `fingerprint` stands for the digest of the whole record. */
  datatype Origin = Origin(
    fingerprint: string,
    rawNativeId: Option<string>,   // GroupSID or group_native_id
    composite: bool,
    principal: Option<string>,
    unresolved: bool)

  datatype Assignment = Assignment(access: Ref, identity: Ref, origin: Origin, id: string)

  const GRANTS := "grants"

  datatype Relation = Relation(parent: Ref, child: Ref, kind: string, origin: Origin, id: string)

  datatype Identity = Identity(
    ref: Ref,
    kind: string,
    status: string,
    nativeId: Option<string>,
    email: Option<string>,
    aliases: seq<string>,
    unresolved: bool,
    id: string)

  datatype ControlObject = ControlObject(
    kind: string,
    identifier: string,
    nativeId: Option<string>,
    displayName: Option<string>,
    description: Option<string>,
    metadata: map<string, string>)

  /** `permission` and `target` carry the identifiers that the engine compares. */
  datatype Access = Access(
    ref: Ref,
    controlObject: Option<ControlObject>,
    permission: Option<string>,
    target: Option<string>,
    displayName: Option<string>,
    description: Option<string>,
    owner: Option<Ref>,
    metadata: map<string, string>,
    id: string)

  datatype Provider = Provider(name: string, kind: string)

  /** An imported state; `incomplete` says that some comparison row reports an incomplete collection. */
  datatype Snapshot = Snapshot(
    providers: seq<Provider>,
    identities: seq<Identity>,
    accesses: seq<Access>,
    assignments: seq<Assignment>,
    relations: seq<Relation>,
    incomplete: bool)

  function AccessNativeId(access: Access): Option<string> {
    if access.controlObject.Some? then access.controlObject.value.nativeId else None
  }

  /** `{key(item): item for item in items}`: a later item replaces an earlier one. */
  function IdentitiesByRef(items: seq<Identity>): map<Ref, Identity> {
    if items == [] then map[]
    else IdentitiesByRef(items[..|items| - 1])[items[|items| - 1].ref := items[|items| - 1]]
  }

  function AccessesByRef(items: seq<Access>): map<Ref, Access> {
    if items == [] then map[]
    else AccessesByRef(items[..|items| - 1])[items[|items| - 1].ref := items[|items| - 1]]
  }

  function AccessRefs(items: seq<Access>): set<Ref> {
    set access | access in items :: access.ref
  }

  lemma {:induction false} AccessesByRefKeys(items: seq<Access>)
    ensures AccessesByRef(items).Keys == AccessRefs(items)
    ensures forall ref :: ref in AccessesByRef(items) ==>
              AccessesByRef(items)[ref] in items && AccessesByRef(items)[ref].ref == ref
  {
    if items != [] {
      AccessesByRefKeys(items[..|items| - 1]);
      assert items == items[..|items| - 1] + [items[|items| - 1]];
    }
  }

  lemma {:induction false} IdentitiesByRefKeys(items: seq<Identity>)
    ensures IdentitiesByRef(items).Keys == set identity | identity in items :: identity.ref
    ensures forall ref :: ref in IdentitiesByRef(items) ==>
              IdentitiesByRef(items)[ref] in items && IdentitiesByRef(items)[ref].ref == ref
  {
    if items != [] {
      IdentitiesByRefKeys(items[..|items| - 1]);
      assert items == items[..|items| - 1] + [items[|items| - 1]];
    }
  }

  /** Among the accesses of one name the last one is found. */
  lemma {:induction false} LastAccessWins(items: seq<Access>, i: nat)
    requires i < |items| && forall j :: i < j < |items| ==> items[j].ref != items[i].ref
    ensures items[i].ref in AccessesByRef(items) && AccessesByRef(items)[items[i].ref] == items[i]
  {
    if i < |items| - 1 {
      LastAccessWins(items[..|items| - 1], i);
    }
  }

  /** Among the identities of one identifier the last one is found. */
  lemma {:induction false} LastIdentityWins(items: seq<Identity>, i: nat)
    requires i < |items| && forall j :: i < j < |items| ==> items[j].ref != items[i].ref
    ensures items[i].ref in IdentitiesByRef(items) && IdentitiesByRef(items)[items[i].ref] == items[i]
  {
    if i < |items| - 1 {
      LastIdentityWins(items[..|items| - 1], i);
    }
  }
}
