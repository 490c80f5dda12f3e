/** Golden Source assignments, their name and native keys, and the creation of immutable versions. */
module GoldenVersions {
  import opened Domain

  datatype GoldenAssignment = GoldenAssignment(
    access: Ref,
    identity: Ref,
    accessNativeId: Option<string>,
    accessPermission: Option<string>,
    identityNativeId: Option<string>)

  /** An access or identity as the stable key names it: by native id, or by name when it has none. */
  datatype StableRef =
    | NativeAccess(nativeId: string, permission: string)
    | NativeIdentity(nativeId: string)
    | Named(name: string)

  datatype StableKey = StableKey(accessProvider: string, access: StableRef, identityProvider: string,
                                 identity: StableRef)

  datatype LegacyKey = LegacyKey(access: Ref, identity: Ref)

  datatype ExpectedModel = ExpectedModel(access: Ref, completeness: string, rights: seq<string>)

  datatype GoldenVersion = GoldenVersion(
    version: nat,
    sourceType: string,
    assignments: set<GoldenAssignment>,
    schemaVersion: nat,
    definitions: seq<Access>,
    relations: seq<Relation>,
    models: seq<ExpectedModel>,
    comments: seq<string>,
    policy: Option<string>)

  function Text(text: Option<string>): string {
    if text.Some? then text.value else ""
  }

  function LegacyKeyOf(item: GoldenAssignment): LegacyKey {
    LegacyKey(item.access, item.identity)
  }

  predicate HasStableKey(item: GoldenAssignment) {
    Present(item.accessNativeId) || Present(item.identityNativeId)
  }

  function StableKeyOf(item: GoldenAssignment): Option<StableKey> {
    if !HasStableKey(item) then None
    else Some(MakeStableKey(item.access, item.accessNativeId, item.accessPermission, item.identity,
                            item.identityNativeId))
  }

  function MakeStableKey(access: Ref, accessNativeId: Option<string>, permission: Option<string>, identity: Ref,
                         identityNativeId: Option<string>): StableKey
  {
    StableKey(
      access.provider,
      if Present(accessNativeId) then NativeAccess(accessNativeId.value, Text(permission)) else Named(access.name),
      identity.provider,
      if Present(identityNativeId) then NativeIdentity(identityNativeId.value) else Named(identity.name))
  }

  /** Known by the same native id, or by the same name when neither side has a native id. */
  predicate SameObject(expectedId: Option<string>, expectedName: string, nativeId: Option<string>, name: string) {
    if expectedId in {None, Some("")} then nativeId in {None, Some("")} && name == expectedName
    else nativeId == expectedId
  }

  /** The two assignments name the same access with the same permission, and the same identity, one by native id. */
  predicate SameByNativeId(x: GoldenAssignment, y: GoldenAssignment) {
    && x.access.provider == y.access.provider && x.identity.provider == y.identity.provider
    && SameObject(y.accessNativeId, y.access.name, x.accessNativeId, x.access.name)
    && SameObject(y.identityNativeId, y.identity.name, x.identityNativeId, x.identity.name)
    && (y.accessNativeId !in {None, Some("")} ==> Text(x.accessPermission) == Text(y.accessPermission))
    && !(y.accessNativeId in {None, Some("")} && y.identityNativeId in {None, Some("")})
  }

  lemma TextIsPresent(text: Option<string>)
    ensures Present(text) <==> text !in {None, Some("")}
  {
    if text.Some? && text.value == "" {
      assert text == Some("");
    }
  }

  lemma SameObjectMeansSameRef(expectedId: Option<string>, expectedName: string, nativeId: Option<string>,
                               name: string)
    ensures SameObject(expectedId, expectedName, nativeId, name)
       <==> if Present(expectedId) then Present(nativeId) && nativeId.value == expectedId.value
            else !Present(nativeId) && name == expectedName
  {
    TextIsPresent(expectedId);
    TextIsPresent(nativeId);
  }

  lemma SameStableKeyMeansSame(x: GoldenAssignment, y: GoldenAssignment)
    ensures SameByNativeId(x, y) <==> HasStableKey(y) && StableKeyOf(x) == StableKeyOf(y)
  {
    TextIsPresent(y.accessNativeId);
    TextIsPresent(y.identityNativeId);
    SameObjectMeansSameRef(y.accessNativeId, y.access.name, x.accessNativeId, x.access.name);
    SameObjectMeansSameRef(y.identityNativeId, y.identity.name, x.identityNativeId, x.identity.name);
  }

  /** No two positions of the list carry the same stable key. */
  ghost predicate StableKeysDiffer(items: seq<GoldenAssignment>) {
    forall i, j :: 0 <= i < j < |items| && HasStableKey(items[i]) && HasStableKey(items[j]) ==>
      StableKeyOf(items[i]) != StableKeyOf(items[j])
  }

  lemma NextStableKey(items: seq<GoldenAssignment>, i: nat)
    requires i < |items|
    ensures StableKeysDiffer(items[..i + 1])
       <==> StableKeysDiffer(items[..i])
            && (HasStableKey(items[i]) ==> forall j :: 0 <= j < i ==> StableKeyOf(items[j]) != StableKeyOf(items[i]))
  {
    var longer, shorter := items[..i + 1], items[..i];
    assert longer[i] == items[i] && forall j :: 0 <= j < i ==> longer[j] == shorter[j] == items[j];
  }

  lemma PrefixRepeats(items: seq<GoldenAssignment>, i: nat)
    requires i <= |items| && !StableKeysDiffer(items[..i])
    ensures !StableKeysDiffer(items)
  {
    var shorter := items[..i];
    assert forall j :: 0 <= j < i ==> shorter[j] == items[j];
  }

  /** Rejects a list in which a stable key occurs twice. */
  method RejectDuplicateStableKeys(items: seq<GoldenAssignment>) returns (accepted: bool)
    ensures accepted <==> StableKeysDiffer(items)
  {
    var seen: set<StableKey> := {};
    for i := 0 to |items|
      invariant forall k :: k in seen <==> exists j :: 0 <= j < i && StableKeyOf(items[j]) == Some(k)
      invariant StableKeysDiffer(items[..i])
    {
      var key := StableKeyOf(items[i]);
      NextStableKey(items, i);
      if key.Some? {
        if key.value in seen {
          PrefixRepeats(items, i + 1);
          return false;
        }
        seen := seen + {key.value};
      }
    }
    assert items[..|items|] == items;
    return true;
  }

  /** Each stable key occurs once among the previous assignments, as version creation enforces. */
  ghost predicate UniqueStableKeys(items: set<GoldenAssignment>) {
    forall x, y :: x in items && y in items && HasStableKey(x) && StableKeyOf(x) == StableKeyOf(y) ==> x == y
  }

  method Enumerate(items: set<GoldenAssignment>) returns (list: seq<GoldenAssignment>)
    ensures Enumerates(list, items)
  {
    list := [];
    var rest := items;
    while rest != {}
      invariant rest <= items
      invariant Enumerates(list, items - rest)
    {
      var x :| x in rest;
      list, rest := list + [x], rest - {x};
    }
  }

  lemma ListHasUniqueKeys(list: seq<GoldenAssignment>, items: set<GoldenAssignment>)
    requires Enumerates(list, items)
    ensures StableKeysDiffer(list) <==> UniqueStableKeys(items)
  {
    if StableKeysDiffer(list) {
      forall x, y | x in items && y in items && HasStableKey(x) && StableKeyOf(x) == StableKeyOf(y) ensures x == y {
        var i :| 0 <= i < |list| && list[i] == x;
        var j :| 0 <= j < |list| && list[j] == y;
      }
    }
    if UniqueStableKeys(items) {
      forall i, j | 0 <= i < j < |list| && HasStableKey(list[i]) && HasStableKey(list[j])
        ensures StableKeyOf(list[i]) != StableKeyOf(list[j])
      {
        assert list[i] in items && list[j] in items;
      }
    }
  }

  function NextVersion(previous: seq<GoldenVersion>): (next: nat)
    ensures forall v :: v in previous ==> v.version < next
    ensures next == 1 || exists v :: v in previous && next == v.version + 1
  {
    if previous == [] then 1
    else
      var rest, last := previous[..|previous| - 1], previous[|previous| - 1];
      var before := NextVersion(rest);
      assert previous == rest + [last];
      if last.version + 1 > before then last.version + 1 else before
  }
}
