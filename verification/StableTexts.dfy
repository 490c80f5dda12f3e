/** The concatenated texts of stable keys, and when they tell the keys apart. */
module StableTexts {
  import opened Domain
  import opened GoldenVersions

  function AccessText(nativeId: string, permission: string): string {
    "native:" + nativeId + ":" + permission
  }

  /** The four texts that the repository concatenates for an assignment with some native id. */
  function StableText(item: GoldenAssignment): (string, string, string, string) {
    (item.access.provider,
     if Present(item.accessNativeId) then AccessText(item.accessNativeId.value, Text(item.accessPermission))
     else "name:" + item.access.name,
     item.identity.provider,
     if Present(item.identityNativeId) then "native:" + item.identityNativeId.value
     else "identifier:" + item.identity.name)
  }

  // ----- Reading the texts -----

  lemma PrefixedTextsDiffer(prefix: string, a: string, b: string)
    ensures prefix + a == prefix + b ==> a == b
  {
    if prefix + a == prefix + b {
      assert (prefix + a)[|prefix|..] == a && (prefix + b)[|prefix|..] == b;
    }
  }

  /** Two ways to split a text at a colon: the longer first part and the longer second part contain a colon. */
  lemma SplitsOverlap(a: string, p: string, b: string, q: string)
    requires a + [':'] + p == b + [':'] + q && |a| < |b|
    ensures b == a + [':'] + b[|a| + 1..] && p == b[|a| + 1..] + [':'] + q
    ensures ':' in b && ':' in p
  {
    var left, right := a + [':'] + p, b + [':'] + q;
    assert left[..|b|] == right[..|b|] == b;
    assert left[|a|] == ':' && b[..|a|] == a && b[|a|] == ':';
    assert p == left[|a| + 1..] == right[|a| + 1..];
    assert p[|b| - |a| - 1] == ':';
  }

  lemma SameLengthSameSplit(a: string, p: string, b: string, q: string)
    requires a + [':'] + p == b + [':'] + q && |a| == |b|
    ensures a == b && p == q
  {
    var left, right := a + [':'] + p, b + [':'] + q;
    assert left[..|a|] == a && right[..|a|] == b && left[|a| + 1..] == p && right[|a| + 1..] == q;
  }

  lemma AccessTextForm(item: GoldenAssignment)
    ensures |StableText(item).1| > 2
    ensures StableText(item).1[2] == if Present(item.accessNativeId) then 't' else 'm'
    ensures Present(item.accessNativeId) ==>
              StableText(item).1 == "native:" + (item.accessNativeId.value + [':'] + Text(item.accessPermission))
  {
    if Present(item.accessNativeId) {
      var a, p := item.accessNativeId.value, Text(item.accessPermission);
      assert AccessText(a, p) == "native:" + (a + [':'] + p);
    }
  }

  /** Equal access texts have the same form, and then the same parts or two splits of one text. */
  lemma AccessTextReads(item: GoldenAssignment, other: GoldenAssignment)
    requires StableText(item).1 == StableText(other).1
    ensures Present(item.accessNativeId) == Present(other.accessNativeId)
    ensures if Present(item.accessNativeId) then
              item.accessNativeId.value + [':'] + Text(item.accessPermission)
              == other.accessNativeId.value + [':'] + Text(other.accessPermission)
            else item.access.name == other.access.name
  {
    AccessTextForm(item);
    AccessTextForm(other);
    if Present(item.accessNativeId) {
      PrefixedTextsDiffer("native:", item.accessNativeId.value + [':'] + Text(item.accessPermission),
                          other.accessNativeId.value + [':'] + Text(other.accessPermission));
    } else {
      PrefixedTextsDiffer("name:", item.access.name, other.access.name);
    }
  }

  lemma IdentityTextIsFaithful(item: GoldenAssignment, other: GoldenAssignment)
    requires StableText(item).3 == StableText(other).3
    ensures Present(item.identityNativeId) == Present(other.identityNativeId)
    ensures if Present(item.identityNativeId) then item.identityNativeId == other.identityNativeId
            else item.identity.name == other.identity.name
  {
    var x, y := StableText(item).3, StableText(other).3;
    assert x[0] == (if Present(item.identityNativeId) then 'n' else 'i');
    assert y[0] == (if Present(other.identityNativeId) then 'n' else 'i');
    if Present(item.identityNativeId) {
      PrefixedTextsDiffer("native:", item.identityNativeId.value, other.identityNativeId.value);
    } else {
      PrefixedTextsDiffer("identifier:", item.identity.name, other.identity.name);
    }
  }

  /** The native ids have different lengths in two keys that share their texts. */
  lemma SharedTextIsSplitTwice(item: GoldenAssignment, other: GoldenAssignment)
    requires HasStableKey(item) && HasStableKey(other)
    requires StableText(item) == StableText(other) && StableKeyOf(item) != StableKeyOf(other)
    ensures Present(item.accessNativeId) && Present(other.accessNativeId)
    ensures |item.accessNativeId.value| != |other.accessNativeId.value|
    ensures item.accessNativeId.value + [':'] + Text(item.accessPermission)
         == other.accessNativeId.value + [':'] + Text(other.accessPermission)
  {
    AccessTextReads(item, other);
    IdentityTextIsFaithful(item, other);
    if Present(item.accessNativeId) && |item.accessNativeId.value| == |other.accessNativeId.value| {
      SameLengthSameSplit(item.accessNativeId.value, Text(item.accessPermission), other.accessNativeId.value,
                          Text(other.accessPermission));
    }
  }

  // ----- When a text is shared -----

  /** The text could be split at another colon: behind the first character of the native id, or in the permission. */
  predicate IsAmbiguous(item: GoldenAssignment) {
    Present(item.accessNativeId) && (':' in item.accessNativeId.value[1..] || ':' in Text(item.accessPermission))
  }

  /** Another key with the same texts. */
  ghost predicate SharesText(item: GoldenAssignment, other: GoldenAssignment) {
    HasStableKey(other) && StableText(other) == StableText(item) && StableKeyOf(other) != StableKeyOf(item)
  }

  lemma SharedIsAmbiguous(item: GoldenAssignment, other: GoldenAssignment)
    requires HasStableKey(item) && SharesText(item, other)
    ensures IsAmbiguous(item)
  {
    SharedTextIsSplitTwice(item, other);
    var a, p := item.accessNativeId.value, Text(item.accessPermission);
    var b, q := other.accessNativeId.value, Text(other.accessPermission);
    if |a| < |b| {
      SplitsOverlap(a, p, b, q);
    } else {
      SplitsOverlap(b, q, a, p);
      assert a[1..][|b| - 1] == ':';
    }
  }

  /** The item with its access text split between these parts. */
  function Resplit(item: GoldenAssignment, nativeId: string, permission: string): GoldenAssignment {
    item.(accessNativeId := Some(nativeId), accessPermission := Some(permission))
  }

  lemma ResplitShares(item: GoldenAssignment, nativeId: string, permission: string)
    requires Present(item.accessNativeId) && nativeId != "" && nativeId != item.accessNativeId.value
    requires nativeId + [':'] + permission == item.accessNativeId.value + [':'] + Text(item.accessPermission)
    ensures SharesText(item, Resplit(item, nativeId, permission))
  {
    assert AccessText(nativeId, permission) == "native:" + (nativeId + [':'] + permission);
    assert AccessText(item.accessNativeId.value, Text(item.accessPermission))
        == "native:" + (item.accessNativeId.value + [':'] + Text(item.accessPermission));
  }

  lemma AmbiguousIsShared(item: GoldenAssignment) returns (other: GoldenAssignment)
    requires IsAmbiguous(item)
    ensures SharesText(item, other)
  {
    var a, p := item.accessNativeId.value, Text(item.accessPermission);
    if ':' in a[1..] {
      var k :| 0 <= k < |a[1..]| && a[1..][k] == ':';
      var n := k + 1;
      assert a == a[..n] + [':'] + a[n + 1..];
      assert a[..n] + [':'] + (a[n + 1..] + [':'] + p) == a + [':'] + p;
      ResplitShares(item, a[..n], a[n + 1..] + [':'] + p);
      other := Resplit(item, a[..n], a[n + 1..] + [':'] + p);
    } else {
      var k :| 0 <= k < |p| && p[k] == ':';
      assert p == p[..k] + [':'] + p[k + 1..];
      assert (a + [':'] + p[..k]) + [':'] + p[k + 1..] == a + [':'] + p;
      ResplitShares(item, a + [':'] + p[..k], p[k + 1..]);
      other := Resplit(item, a + [':'] + p[..k], p[k + 1..]);
    }
  }

  /**
   * Another key has the same texts exactly when the access has a native id with a colon behind its first character, or
   * with a permission that contains a colon.
   */
  lemma TextIsSharedExactly(item: GoldenAssignment)
    requires HasStableKey(item)
    ensures (exists other :: SharesText(item, other)) <==> IsAmbiguous(item)
  {
    if other :| SharesText(item, other) {
      SharedIsAmbiguous(item, other);
    }
    if IsAmbiguous(item) {
      var other := AmbiguousIsShared(item);
    }
  }

  // ----- Texts in place of keys -----

  /** Whatever the native ids contain, the permission has no colon: the text is split at its last colon. */
  predicate HasPlainPermission(item: GoldenAssignment) {
    Present(item.accessNativeId) ==> ':' !in Text(item.accessPermission)
  }

  predicate HasPlainNativeId(item: GoldenAssignment) {
    Present(item.accessNativeId) ==> ':' !in item.accessNativeId.value
  }

  /** The texts of two keys agree exactly when the keys do, where both permissions or both native ids have no colon. */
  lemma StableTextIsFaithful(item: GoldenAssignment, other: GoldenAssignment)
    requires HasStableKey(item) && HasStableKey(other)
    requires || (HasPlainPermission(item) && HasPlainPermission(other))
             || (HasPlainNativeId(item) && HasPlainNativeId(other))
    ensures StableText(item) == StableText(other) <==> StableKeyOf(item) == StableKeyOf(other)
  {
    if StableText(item) == StableText(other) && StableKeyOf(item) != StableKeyOf(other) {
      SharedTextIsSplitTwice(item, other);
      var a, p := item.accessNativeId.value, Text(item.accessPermission);
      var b, q := other.accessNativeId.value, Text(other.accessPermission);
      if |a| < |b| {
        SplitsOverlap(a, p, b, q);
      } else {
        SplitsOverlap(b, q, a, p);
      }
    }
  }

  ghost predicate StableTextsDiffer(items: seq<GoldenAssignment>) {
    forall i, j :: 0 <= i < j < |items| && HasStableKey(items[i]) && HasStableKey(items[j]) ==>
      StableText(items[i]) != StableText(items[j])
  }

  /** Rejecting repeated texts is rejecting repeated keys when no permission contains a colon. */
  lemma TextsDifferWhereKeysDo(items: seq<GoldenAssignment>)
    requires forall item :: item in items ==> HasPlainPermission(item)
    ensures StableTextsDiffer(items) <==> StableKeysDiffer(items)
  {
    forall i, j | 0 <= i < j < |items| && HasStableKey(items[i]) && HasStableKey(items[j])
      ensures StableText(items[i]) == StableText(items[j]) <==> StableKeyOf(items[i]) == StableKeyOf(items[j])
    {
      StableTextIsFaithful(items[i], items[j]);
    }
  }

  /** A native id without a colon is not enough: its permission may have one. */
  lemma AccessTextCollides()
    ensures AccessText("a", "b:c") == AccessText("a:b", "c")
    ensures NativeAccess("a", "b:c") != NativeAccess("a:b", "c")
  {
    assert AccessText("a", "b:c") == "native:a:b:c" == AccessText("a:b", "c");
  }
}
