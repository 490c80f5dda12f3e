/**
 * What the reconciliation loop computes, said without its indexes: each import takes the slot of the stored access
 * that has its name, if no import before it took that slot, or else of the one that has its native id; the other
 * imports are appended. The lemmas below follow the slots and both indexes through the loop, one import at a time.
 */
module AccessReconciliationLoop {
  import opened Domain
  import opened AccessReconciliation

  /** The position of the stored access with this name. */
  function NamedAt(existing: seq<Access>, ref: Ref): (at: Option<nat>)
    ensures at.Some? ==> at.value < |existing| && existing[at.value].ref == ref
    ensures at.None? ==> forall p :: 0 <= p < |existing| ==> existing[p].ref != ref
  {
    if existing == [] then None
    else if existing[|existing| - 1].ref == ref then Some(|existing| - 1)
    else NamedAt(existing[..|existing| - 1], ref)
  }

  /** The last position of a stored access with this native id. */
  function LastNative(existing: seq<Access>, key: NativeKey): (at: Option<nat>)
    ensures at.Some? ==> at.value < |existing| && NativeKeyOf(existing[at.value]) == Some(key)
    ensures at.None? ==> forall p :: 0 <= p < |existing| ==> NativeKeyOf(existing[p]) != Some(key)
  {
    if existing == [] then None
    else if NativeKeyOf(existing[|existing| - 1]) == Some(key) then Some(|existing| - 1)
    else LastNative(existing[..|existing| - 1], key)
  }

  /** The slot an import takes, after others took theirs. */
  function Slot(existing: seq<Access>, taken: seq<Option<nat>>, incoming: Access): (slot: Option<nat>)
    ensures slot.Some? ==> slot.value < |existing|
  {
    var named, key := NamedAt(existing, incoming.ref), NativeKeyOf(incoming);
    if named.Some? && named !in taken then named
    else if key.Some? then LastNative(existing, key.value)
    else None
  }

  /** The slots the imports take, one after the other. */
  function Slots(existing: seq<Access>, imported: seq<Access>): (slots: seq<Option<nat>>)
    ensures |slots| == |imported|
    ensures forall k :: 0 <= k < |imported| && slots[k].Some? ==> slots[k].value < |existing|
  {
    if imported == [] then []
    else
      var earlier := Slots(existing, imported[..|imported| - 1]);
      earlier + [Slot(existing, earlier, imported[|imported| - 1])]
  }

  /** What is in slot p after the imports. */
  function Content(existing: seq<Access>, imported: seq<Access>, p: nat): Access
    requires p < |existing|
  {
    if imported == [] then existing[p]
    else
      var n := |imported| - 1;
      var before := Content(existing, imported[..n], p);
      if Slots(existing, imported)[n] == Some(p) then Place(before, imported[n]) else before
  }

  function Contents(existing: seq<Access>, imported: seq<Access>): (contents: seq<Access>)
    ensures |contents| == |existing|
    ensures forall p :: 0 <= p < |existing| ==> contents[p] == Content(existing, imported, p)
  {
    seq(|existing|, p requires 0 <= p < |existing| => Content(existing, imported, p))
  }

  function Newcomers(existing: seq<Access>, imported: seq<Access>): seq<Access> {
    if imported == [] then []
    else
      var n := |imported| - 1;
      Newcomers(existing, imported[..n]) + if Slots(existing, imported)[n].None? then [imported[n]] else []
  }

  function Expected(existing: seq<Access>, imported: seq<Access>): seq<Access> {
    Contents(existing, imported) + Newcomers(existing, imported)
  }

  /**
   * Why an import is refused: the stored access it refers to is defined differently, or an earlier import replaced
   * that access.
   */
  function Fault(existing: seq<Access>, earlier: seq<Access>, incoming: Access): Option<string> {
    var slot := Slot(existing, Slots(existing, earlier), incoming);
    if slot.None? then None
    else
      var stored, now := existing[slot.value], Content(existing, earlier, slot.value);
      if DefinitionsConflict(if now.id == stored.id then now else stored, incoming) then Some(COLLISION)
      else if now.id != stored.id then Some(STALE)
      else None
  }

  /** No import is refused. */
  ghost predicate Faultless(existing: seq<Access>, imported: seq<Access>) {
    imported == []
    || (Faultless(existing, imported[..|imported| - 1])
        && Fault(existing, imported[..|imported| - 1], imported[|imported| - 1]).None?)
  }

  predicate DistinctNatives(accesses: seq<Access>) {
    forall i, j :: 0 <= i < j < |accesses| && NativeKeyOf(accesses[i]).Some? ==>
      NativeKeyOf(accesses[i]) != NativeKeyOf(accesses[j])
  }

  /** Names and ids are unique on both sides, ids of imports are new, native ids of imports are unique. */
  ghost predicate Regular(existing: seq<Access>, imported: seq<Access>) {
    && DistinctRefs(existing) && DistinctIds(existing) && DistinctRefs(imported) && DistinctIds(imported)
    && (forall p, i :: 0 <= p < |existing| && 0 <= i < |imported| ==> existing[p].id != imported[i].id)
    && DistinctNatives(imported)
  }

  lemma RegularPrefix(existing: seq<Access>, imported: seq<Access>, incoming: Access)
    requires Regular(existing, imported + [incoming])
    ensures Regular(existing, imported)
    ensures forall k :: 0 <= k < |imported| ==> imported[k].ref != incoming.ref && imported[k].id != incoming.id
    ensures forall p :: 0 <= p < |existing| ==> existing[p].id != incoming.id
  {
    var all := imported + [incoming];
    assert forall k :: 0 <= k < |imported| ==> all[k] == imported[k];
    assert all[|imported|] == incoming;
  }

  lemma NativesDiffer(existing: seq<Access>, imported: seq<Access>, incoming: Access, k: nat)
    requires Regular(existing, imported + [incoming]) && k < |imported| && NativeKeyOf(incoming).Some?
    ensures NativeKeyOf(imported[k]) != NativeKeyOf(incoming)
  {
    var all := imported + [incoming];
    assert all[k] == imported[k] && all[|imported|] == incoming;
  }

  // ----- One more import -----

  lemma SlotsGrow(existing: seq<Access>, imported: seq<Access>, incoming: Access)
    ensures Slots(existing, imported + [incoming])
         == Slots(existing, imported) + [Slot(existing, Slots(existing, imported), incoming)]
  {
    assert (imported + [incoming])[..|imported|] == imported;
  }

  lemma ContentGrows(existing: seq<Access>, imported: seq<Access>, incoming: Access, p: nat)
    requires p < |existing|
    ensures var before := Content(existing, imported, p);
            Content(existing, imported + [incoming], p)
            == if Slot(existing, Slots(existing, imported), incoming) == Some(p) then Place(before, incoming)
               else before
  {
    SlotsGrow(existing, imported, incoming);
    assert (imported + [incoming])[..|imported|] == imported;
  }

  lemma NewcomersGrow(existing: seq<Access>, imported: seq<Access>, incoming: Access)
    ensures Newcomers(existing, imported + [incoming])
         == Newcomers(existing, imported)
          + if Slot(existing, Slots(existing, imported), incoming).None? then [incoming] else []
  {
    SlotsGrow(existing, imported, incoming);
    assert (imported + [incoming])[..|imported|] == imported;
  }

  lemma ContentsGrow(existing: seq<Access>, imported: seq<Access>, incoming: Access)
    ensures var slot, contents := Slot(existing, Slots(existing, imported), incoming), Contents(existing, imported);
            Contents(existing, imported + [incoming])
            == if slot.Some? then contents[slot.value := Place(contents[slot.value], incoming)] else contents
  {
    forall p | 0 <= p < |existing|
      ensures var before := Content(existing, imported, p);
              Content(existing, imported + [incoming], p)
              == if Slot(existing, Slots(existing, imported), incoming) == Some(p) then Place(before, incoming)
                 else before
    {
      ContentGrows(existing, imported, incoming, p);
    }
  }

  lemma UpdateLeft<T>(left: seq<T>, right: seq<T>, p: nat, x: T)
    requires p < |left|
    ensures (left + right)[p := x] == left[p := x] + right
  {
  }

  lemma AppendRight<T>(left: seq<T>, right: seq<T>, x: T)
    ensures left + (right + [x]) == (left + right) + [x]
  {
  }

  lemma ExpectedGrows(existing: seq<Access>, imported: seq<Access>, incoming: Access)
    ensures var slot, slots := Slot(existing, Slots(existing, imported), incoming), Expected(existing, imported);
            Expected(existing, imported + [incoming])
            == if slot.Some? then slots[slot.value := Place(slots[slot.value], incoming)] else slots + [incoming]
  {
    var slot, contents := Slot(existing, Slots(existing, imported), incoming), Contents(existing, imported);
    NewcomersGrow(existing, imported, incoming);
    ContentsGrow(existing, imported, incoming);
    if slot.Some? {
      UpdateLeft(contents, Newcomers(existing, imported), slot.value, Place(contents[slot.value], incoming));
    } else {
      AppendRight(contents, Newcomers(existing, imported), incoming);
    }
  }

  // ----- Who is in a slot -----

  /** The last import that took slot p. */
  function Taker(existing: seq<Access>, imported: seq<Access>, p: nat): (taker: Option<nat>)
    ensures taker.Some? ==> taker.value < |imported| && Slots(existing, imported)[taker.value] == Some(p)
    ensures taker.None? <==> Some(p) !in Slots(existing, imported)
  {
    if imported == [] then None
    else if Slots(existing, imported)[|imported| - 1] == Some(p) then Some(|imported| - 1)
    else Taker(existing, imported[..|imported| - 1], p)
  }

  /** An import that goes to another slot than the one with its name comes after one that took it. */
  lemma {:induction false} ByNameUnlessTaken(existing: seq<Access>, imported: seq<Access>, k: nat, p: nat)
    requires DistinctRefs(existing) && k < |imported| && p < |existing| && existing[p].ref == imported[k].ref
    ensures Slots(existing, imported)[k] == Some(p)
         || exists m :: 0 <= m < k && Slots(existing, imported)[m] == Some(p)
  {
    var n := |imported| - 1;
    NamedAtIs(existing, p);
    if k < n {
      ByNameUnlessTaken(existing, imported[..n], k, p);
    }
    assert forall m :: 0 <= m < n ==> Slots(existing, imported)[m] == Slots(existing, imported[..n])[m];
  }

  lemma NamedAtIs(existing: seq<Access>, p: nat)
    requires DistinctRefs(existing) && p < |existing|
    ensures NamedAt(existing, existing[p].ref) == Some(p)
  {
  }

  /** A free slot holds its stored access; another one bears the name of the last import that took it. */
  lemma {:induction false} ContentName(existing: seq<Access>, imported: seq<Access>, p: nat)
    requires p < |existing|
    ensures var taker, content := Taker(existing, imported, p), Content(existing, imported, p);
            && (taker.None? ==> content == existing[p])
            && (taker.Some? ==> content.ref == imported[taker.value].ref)
  {
    if imported != [] {
      ContentName(existing, imported[..|imported| - 1], p);
    }
  }

  /** The id in slot p is the stored one, or that of an import that took the slot. */
  ghost predicate IdBelongs(existing: seq<Access>, imported: seq<Access>, p: nat, id: string)
    requires p < |existing|
  {
    id == existing[p].id
    || exists k :: 0 <= k < |imported| && id == imported[k].id && Slots(existing, imported)[k] == Some(p)
  }

  lemma IdStillBelongs(existing: seq<Access>, imported: seq<Access>, p: nat, id: string)
    requires p < |existing| && imported != []
    requires IdBelongs(existing, imported[..|imported| - 1], p, id)
    ensures IdBelongs(existing, imported, p, id)
  {
    var n := |imported| - 1;
    if k :| 0 <= k < n && id == imported[..n][k].id && Slots(existing, imported[..n])[k] == Some(p) {
      assert imported[k].id == id && Slots(existing, imported)[k] == Some(p);
    }
  }

  lemma {:induction false} ContentId(existing: seq<Access>, imported: seq<Access>, p: nat)
    requires p < |existing|
    ensures IdBelongs(existing, imported, p, Content(existing, imported, p).id)
  {
    if imported != [] {
      ContentId(existing, imported[..|imported| - 1], p);
      IdStillBelongs(existing, imported, p, Content(existing, imported[..|imported| - 1], p).id);
    }
  }

  lemma ContentKeys(existing: seq<Access>, imported: seq<Access>, p: nat)
    requires p < |existing|
    ensures var taker, content := Taker(existing, imported, p), Content(existing, imported, p);
            && (taker.None? ==> content == existing[p])
            && (taker.Some? ==> content.ref == imported[taker.value].ref)
            && (content.id == existing[p].id || exists k :: 0 <= k < |imported| && content.id == imported[k].id
                                                            && Slots(existing, imported)[k] == Some(p))
  {
    ContentName(existing, imported, p);
    ContentId(existing, imported, p);
  }

  /** The access is an import that takes no stored slot. */
  ghost predicate IsNew(existing: seq<Access>, imported: seq<Access>, x: Access) {
    exists k :: 0 <= k < |imported| && imported[k] == x && Slots(existing, imported)[k].None?
  }

  lemma OneMoreIsNew(existing: seq<Access>, imported: seq<Access>, x: Access)
    requires imported != []
    ensures var n := |imported| - 1;
            IsNew(existing, imported, x) <==> IsNew(existing, imported[..n], x)
                                              || (x == imported[n] && Slots(existing, imported)[n].None?)
  {
    var n := |imported| - 1;
    assert forall k :: 0 <= k < n ==> imported[..n][k] == imported[k]
                                      && Slots(existing, imported[..n])[k] == Slots(existing, imported)[k];
  }

  lemma {:induction false} NewcomerIsImport(existing: seq<Access>, imported: seq<Access>, x: Access)
    ensures x in Newcomers(existing, imported) <==> IsNew(existing, imported, x)
  {
    if imported != [] {
      NewcomerIsImport(existing, imported[..|imported| - 1], x);
      OneMoreIsNew(existing, imported, x);
    }
  }

  lemma NewcomersAreImports(existing: seq<Access>, imported: seq<Access>)
    ensures forall x :: x in Newcomers(existing, imported) <==>
              exists k :: 0 <= k < |imported| && imported[k] == x && Slots(existing, imported)[k].None?
  {
    forall x ensures x in Newcomers(existing, imported) <==> IsNew(existing, imported, x) {
      NewcomerIsImport(existing, imported, x);
    }
  }

  // ----- Names and ids of the result -----

  lemma {:induction false} NewcomersDiffer(existing: seq<Access>, imported: seq<Access>)
    requires DistinctRefs(imported) && DistinctIds(imported)
    ensures DistinctRefs(Newcomers(existing, imported)) && DistinctIds(Newcomers(existing, imported))
  {
    if imported != [] {
      var n := |imported| - 1;
      NewcomersDiffer(existing, imported[..n]);
      NewcomersAreImports(existing, imported[..n]);
      var news := Newcomers(existing, imported[..n]);
      forall i | 0 <= i < |news| ensures news[i].ref != imported[n].ref && news[i].id != imported[n].id {
        assert news[i] in news;
      }
    }
  }

  /** An import in another slot does not have the name of a stored access in a free one. */
  lemma TakenNotNamed(existing: seq<Access>, imported: seq<Access>, k: nat, q: nat)
    requires DistinctRefs(existing) && k < |imported| && q < |existing| && Taker(existing, imported, q).None?
    ensures existing[q].ref != imported[k].ref
  {
    if existing[q].ref == imported[k].ref {
      ByNameUnlessTaken(existing, imported, k, q);
    }
  }

  lemma ImportsDiffer(imported: seq<Access>, k: nat, l: nat)
    requires DistinctRefs(imported) && DistinctIds(imported) && k < |imported| && l < |imported| && k != l
    ensures imported[k].ref != imported[l].ref && imported[k].id != imported[l].id
  {
    var i, j := if k < l then k else l, if k < l then l else k;
    assert imported[i].ref != imported[j].ref && imported[i].id != imported[j].id;
  }

  lemma ContentRefsDiffer(existing: seq<Access>, imported: seq<Access>, p: nat, q: nat)
    requires Regular(existing, imported) && p < q < |existing|
    ensures Content(existing, imported, p).ref != Content(existing, imported, q).ref
  {
    ContentKeys(existing, imported, p);
    ContentKeys(existing, imported, q);
    var k, l := Taker(existing, imported, p), Taker(existing, imported, q);
    if k.Some? && l.Some? {
      ImportsDiffer(imported, k.value, l.value);
    } else if k.Some? {
      TakenNotNamed(existing, imported, k.value, q);
    } else if l.Some? {
      TakenNotNamed(existing, imported, l.value, p);
    }
  }

  lemma ContentIdsDiffer(existing: seq<Access>, imported: seq<Access>, p: nat, q: nat)
    requires Regular(existing, imported) && p < |existing| && q < |existing| && p != q
    ensures Content(existing, imported, p).id != Content(existing, imported, q).id
    ensures Content(existing, imported, q).id != existing[p].id
  {
    ContentKeys(existing, imported, p);
    ContentKeys(existing, imported, q);
    assert existing[if p < q then p else q].id != existing[if p < q then q else p].id;
    if Content(existing, imported, p).id != existing[p].id && Content(existing, imported, q).id != existing[q].id {
      var k :| 0 <= k < |imported| && Content(existing, imported, p).id == imported[k].id
            && Slots(existing, imported)[k] == Some(p);
      var l :| 0 <= l < |imported| && Content(existing, imported, q).id == imported[l].id
            && Slots(existing, imported)[l] == Some(q);
      ImportsDiffer(imported, k, l);
    }
  }

  lemma NewcomerDiffers(existing: seq<Access>, imported: seq<Access>, p: nat, x: Access)
    requires Regular(existing, imported) && p < |existing| && x in Newcomers(existing, imported)
    ensures Content(existing, imported, p).ref != x.ref && Content(existing, imported, p).id != x.id
    ensures existing[p].id != x.id
  {
    ContentKeys(existing, imported, p);
    NewcomersAreImports(existing, imported);
    var k :| 0 <= k < |imported| && imported[k] == x && Slots(existing, imported)[k].None?;
    var taker, content := Taker(existing, imported, p), Content(existing, imported, p);
    if taker.Some? {
      ImportsDiffer(imported, k, taker.value);
    } else {
      TakenNotNamed(existing, imported, k, p);
    }
    if l :| 0 <= l < |imported| && content.id == imported[l].id && Slots(existing, imported)[l] == Some(p) {
      ImportsDiffer(imported, k, l);
    }
  }

  /** In the result every name and every id occurs once. */
  lemma ExpectedIsUnique(existing: seq<Access>, imported: seq<Access>)
    requires Regular(existing, imported)
    ensures DistinctRefs(Expected(existing, imported)) && DistinctIds(Expected(existing, imported))
  {
    var all, news := Expected(existing, imported), Newcomers(existing, imported);
    NewcomersDiffer(existing, imported);
    forall i, j | 0 <= i < j < |all| ensures all[i].ref != all[j].ref && all[i].id != all[j].id {
      if j < |existing| {
        ContentRefsDiffer(existing, imported, i, j);
        ContentIdsDiffer(existing, imported, i, j);
      } else if i < |existing| {
        assert all[j] in news;
        NewcomerDiffers(existing, imported, i, all[j]);
      } else {
        assert all[i] == news[i - |existing|] && all[j] == news[j - |existing|];
      }
    }
  }

  /** Another slot than p never holds the id of the access stored in p. */
  lemma StoredIdOnlyAt(existing: seq<Access>, imported: seq<Access>, p: nat, i: nat)
    requires Regular(existing, imported) && p < |existing| && i < |Expected(existing, imported)| && i != p
    ensures Expected(existing, imported)[i].id != existing[p].id
  {
    if i < |existing| {
      ContentIdsDiffer(existing, imported, p, i);
    } else {
      assert Expected(existing, imported)[i] in Newcomers(existing, imported);
      NewcomerDiffers(existing, imported, p, Expected(existing, imported)[i]);
    }
  }

  // ----- The loop computes the expected list -----

  /** The name index names exactly the accesses in the list. */
  ghost predicate NamesSlots(r: Reconciliation) {
    && (forall i :: 0 <= i < |r.slots| ==> r.slots[i].ref in r.byName && r.byName[r.slots[i].ref] == r.slots[i].id)
    && (forall ref :: ref in r.byName ==> exists i :: 0 <= i < |r.slots| && r.slots[i].ref == ref)
  }

  /** Native ids that no import has had yet are indexed as at the start. */
  ghost predicate NativesUntouched(existing: seq<Access>, imported: seq<Access>, r: Reconciliation) {
    forall key :: (forall j :: 0 <= j < |imported| ==> NativeKeyOf(imported[j]) != Some(key)) ==>
      (key in r.byNative <==> key in NativeIndex(existing))
      && (key in r.byNative ==> r.byNative[key] == NativeIndex(existing)[key])
  }

  /** A stored access that is not in its slot under its id any more was replaced as it was stored. */
  ghost predicate KeepsReplaced(existing: seq<Access>, imported: seq<Access>, r: Reconciliation) {
    forall p :: 0 <= p < |existing| && Content(existing, imported, p).id != existing[p].id ==>
      existing[p].id in r.replaced && r.replaced[existing[p].id] == existing[p]
  }

  ghost predicate Represents(existing: seq<Access>, imported: seq<Access>, r: Reconciliation) {
    && r.slots == Expected(existing, imported) && NamesSlots(r) && NativesUntouched(existing, imported, r)
    && KeepsReplaced(existing, imported, r) && r.seen == set access | access in imported :: access.ref
  }

  lemma {:induction false} NameIndexNames(existing: seq<Access>)
    requires DistinctRefs(existing)
    ensures forall p :: 0 <= p < |existing| ==>
              existing[p].ref in NameIndex(existing) && NameIndex(existing)[existing[p].ref] == existing[p].id
    ensures forall ref :: ref in NameIndex(existing) ==> exists p :: 0 <= p < |existing| && existing[p].ref == ref
  {
    if existing != [] {
      NameIndexNames(existing[..|existing| - 1]);
    }
  }

  lemma {:induction false} NativeIndexIsLast(existing: seq<Access>, key: NativeKey)
    ensures key in NativeIndex(existing) <==> LastNative(existing, key).Some?
    ensures key in NativeIndex(existing) ==>
              NativeIndex(existing)[key] == existing[LastNative(existing, key).value].id
  {
    if existing != [] {
      NativeIndexIsLast(existing[..|existing| - 1], key);
    }
  }

  lemma StartRepresents(existing: seq<Access>)
    requires DistinctRefs(existing)
    ensures Represents(existing, [], Start(existing))
  {
    assert Expected(existing, []) == existing;
    NameIndexNames(existing);
  }

  /** The name in a slot is that of a stored access whose slot is free, or an imported one. */
  lemma SlotNames(existing: seq<Access>, imported: seq<Access>, i: nat)
    requires i < |Expected(existing, imported)|
    ensures var ref := Expected(existing, imported)[i].ref;
            || (exists p :: 0 <= p < |existing| && existing[p].ref == ref && Taker(existing, imported, p).None?)
            || (exists k :: 0 <= k < |imported| && imported[k].ref == ref)
  {
    if i < |existing| {
      ContentKeys(existing, imported, i);
      assert Expected(existing, imported)[i] == Content(existing, imported, i);
    } else {
      NewcomersAreImports(existing, imported);
      assert Expected(existing, imported)[i] in Newcomers(existing, imported);
    }
  }

  /** A name that no free slot has and no import had yet is not indexed. */
  lemma NameIsForgotten(existing: seq<Access>, imported: seq<Access>, r: Reconciliation, incoming: Access)
    requires Regular(existing, imported + [incoming]) && Represents(existing, imported, r)
    requires var named := NamedAt(existing, incoming.ref); named.None? || named in Slots(existing, imported)
    ensures incoming.ref !in r.byName
  {
    RegularPrefix(existing, imported, incoming);
    if incoming.ref in r.byName {
      var i :| 0 <= i < |r.slots| && r.slots[i].ref == incoming.ref;
      SlotNames(existing, imported, i);
      var p :| 0 <= p < |existing| && existing[p].ref == incoming.ref && Taker(existing, imported, p).None?;
      NamedAtIs(existing, p);
      assert false;
    }
  }

  lemma NativeIsIndexed(existing: seq<Access>, imported: seq<Access>, r: Reconciliation, incoming: Access)
    requires Regular(existing, imported + [incoming]) && Represents(existing, imported, r)
    requires NativeKeyOf(incoming).Some?
    ensures var key := NativeKeyOf(incoming).value;
            && (key in r.byNative <==> LastNative(existing, key).Some?)
            && (key in r.byNative ==> r.byNative[key] == existing[LastNative(existing, key).value].id)
  {
    forall j | 0 <= j < |imported| ensures NativeKeyOf(imported[j]) != NativeKeyOf(incoming) {
      NativesDiffer(existing, imported, incoming, j);
    }
    NativeIndexIsLast(existing, NativeKeyOf(incoming).value);
  }

  /** The indexes lead an import to the access stored in the slot it takes. */
  lemma PreviousIsStored(existing: seq<Access>, imported: seq<Access>, r: Reconciliation, incoming: Access)
    requires Regular(existing, imported + [incoming]) && Represents(existing, imported, r)
    ensures var slot := Slot(existing, Slots(existing, imported), incoming);
            Previous(r, incoming) == if slot.Some? then Some(existing[slot.value].id) else None
  {
    var named := NamedAt(existing, incoming.ref);
    if named.Some? && named !in Slots(existing, imported) {
      ContentKeys(existing, imported, named.value);
      assert r.slots[named.value] == existing[named.value];
    } else {
      NameIsForgotten(existing, imported, r, incoming);
      if NativeKeyOf(incoming).Some? {
        NativeIsIndexed(existing, imported, r, incoming);
      }
    }
  }

  lemma ReplacedSlots(slots: seq<Access>, p: nat, placed: Access, i: nat)
    requires DistinctRefs(slots) && p < |slots| && i < |slots| && i != p
    ensures slots[p := placed][i] == slots[i] && slots[i].ref != slots[p].ref
  {
  }

  lemma ReplacingKeepsNames(r: Reconciliation, next: Reconciliation, p: nat, placed: Access)
    requires NamesSlots(r) && DistinctRefs(r.slots) && p < |r.slots|
    requires next.slots == r.slots[p := placed] && DistinctRefs(next.slots)
    requires next.byName == (if r.slots[p].ref != placed.ref then r.byName - {r.slots[p].ref} else r.byName)
                            [placed.ref := placed.id]
    ensures NamesSlots(next)
  {
    forall i | 0 <= i < |next.slots|
      ensures next.slots[i].ref in next.byName && next.byName[next.slots[i].ref] == next.slots[i].id
    {
      if i != p {
        ReplacedSlots(r.slots, p, placed, i);
        ReplacedSlots(next.slots, p, r.slots[p], i);
      }
    }
    forall ref | ref in next.byName ensures exists i :: 0 <= i < |next.slots| && next.slots[i].ref == ref {
      if ref == placed.ref {
        assert next.slots[p].ref == ref;
      } else {
        var i :| 0 <= i < |r.slots| && r.slots[i].ref == ref;
        assert next.slots[i].ref == ref;
      }
    }
  }

  lemma AppendingKeepsNames(r: Reconciliation, next: Reconciliation, incoming: Access)
    requires NamesSlots(r) && next.slots == r.slots + [incoming] && DistinctRefs(next.slots)
    requires next.byName == r.byName[incoming.ref := incoming.id]
    ensures NamesSlots(next)
  {
    assert next.slots[|r.slots|] == incoming;
    forall i | 0 <= i < |r.slots| ensures next.slots[i] == r.slots[i] && r.slots[i].ref != incoming.ref {
      assert next.slots[i].ref != next.slots[|r.slots|].ref;
    }
    forall ref | ref in next.byName ensures exists i :: 0 <= i < |next.slots| && next.slots[i].ref == ref {
      if ref != incoming.ref {
        var i :| 0 <= i < |r.slots| && r.slots[i].ref == ref;
        assert next.slots[i].ref == ref;
      }
    }
  }

  lemma IndexingKeepsNatives(existing: seq<Access>, imported: seq<Access>, r: Reconciliation, next: Reconciliation,
                             incoming: Access, id: string)
    requires NativesUntouched(existing, imported, r)
    requires next.byNative == (var key := NativeKeyOf(incoming);
                               if key.Some? then r.byNative[key.value := id] else r.byNative)
    ensures NativesUntouched(existing, imported + [incoming], next)
  {
    var all := imported + [incoming];
    assert all[|imported|] == incoming;
    assert forall j :: 0 <= j < |imported| ==> all[j] == imported[j];
  }

  function Appended(r: Reconciliation, incoming: Access): Reconciliation {
    Indexed(r.(slots := r.slots + [incoming]), incoming, incoming.id)
  }

  lemma IndexOfIs(slots: seq<Access>, p: nat)
    requires DistinctIds(slots) && p < |slots|
    ensures IndexOf(slots, slots[p].id) == Some(p)
  {
    assert slots[p] in slots;
  }

  /** A stored access is found in its slot, unless an import under another id replaced it. */
  lemma StoredIsFound(existing: seq<Access>, imported: seq<Access>, p: nat)
    requires Regular(existing, imported) && p < |existing|
    ensures IndexOf(Expected(existing, imported), existing[p].id)
         == if Content(existing, imported, p).id == existing[p].id then Some(p) else None
  {
    var all := Expected(existing, imported);
    ExpectedIsUnique(existing, imported);
    assert all[p] == Content(existing, imported, p);
    if all[p].id == existing[p].id {
      IndexOfIs(all, p);
    } else if IndexOf(all, existing[p].id).Some? {
      StoredIdOnlyAt(existing, imported, p, IndexOf(all, existing[p].id).value);
      assert false;
    }
  }

  /** The step of an import: it is refused, or its slot is rewritten, or it is appended. */
  lemma StepResult(existing: seq<Access>, imported: seq<Access>, r: Reconciliation, incoming: Access)
    requires Regular(existing, imported + [incoming]) && Represents(existing, imported, r)
    ensures var slot, fault := Slot(existing, Slots(existing, imported), incoming), Fault(existing, imported, incoming);
            && (slot.Some? ==> slot.value < |r.slots| && r.slots[slot.value] == Content(existing, imported, slot.value))
            && Step(r, incoming) == if fault.Some? then Error(fault.value)
                                    else if slot.None? then Ok(Appended(r, incoming))
                                    else Ok(Placed(r, incoming, slot.value))
  {
    var slot := Slot(existing, Slots(existing, imported), incoming);
    PreviousIsStored(existing, imported, r, incoming);
    RegularPrefix(existing, imported, incoming);
    if slot.Some? {
      StoredIsFound(existing, imported, slot.value);
    }
  }

  lemma PlacedKeepsNames(r: Reconciliation, incoming: Access, p: nat)
    requires p < |r.slots| && NamesSlots(r) && DistinctRefs(r.slots) && DistinctRefs(Placed(r, incoming, p).slots)
    ensures NamesSlots(Placed(r, incoming, p))
  {
    assert Place(r.slots[p], incoming).ref == incoming.ref;
    ReplacingKeepsNames(r, Placed(r, incoming, p), p, Place(r.slots[p], incoming));
  }

  lemma SlotsAreDistinct(existing: seq<Access>, imported: seq<Access>, incoming: Access)
    requires Regular(existing, imported + [incoming])
    ensures DistinctRefs(Expected(existing, imported)) && DistinctRefs(Expected(existing, imported + [incoming]))
  {
    RegularPrefix(existing, imported, incoming);
    ExpectedIsUnique(existing, imported);
    ExpectedIsUnique(existing, imported + [incoming]);
  }

  lemma SeenGrows(imported: seq<Access>, incoming: Access)
    ensures (set access | access in imported + [incoming] :: access.ref)
         == (set access | access in imported :: access.ref) + {incoming.ref}
  {
  }

  lemma {:induction false} SlotsPrefix(existing: seq<Access>, imported: seq<Access>, n: nat)
    requires n <= |imported|
    ensures Slots(existing, imported[..n]) == Slots(existing, imported)[..n]
    decreases |imported|
  {
    if n < |imported| {
      SlotsPrefix(existing, imported[..|imported| - 1], n);
      assert imported[..|imported| - 1][..n] == imported[..n];
    } else {
      assert imported[..n] == imported;
    }
  }

  lemma SlotAt(existing: seq<Access>, imported: seq<Access>, k: nat)
    requires k < |imported|
    ensures Slots(existing, imported)[k] == Slot(existing, Slots(existing, imported[..k]), imported[k])
    ensures Slots(existing, imported[..k]) == Slots(existing, imported)[..k]
  {
    SlotsPrefix(existing, imported, k);
    SlotsPrefix(existing, imported, k + 1);
    assert imported[..k + 1][..k] == imported[..k] && imported[..k + 1][k] == imported[k];
  }

  /** Two imports in one slot: the first has the name of the stored access, the second its native id. */
  lemma {:induction false} TakenTwice(existing: seq<Access>, imported: seq<Access>, i: nat, j: nat)
    requires i < j < |imported| && DistinctRefs(imported) && DistinctNatives(imported)
    requires Slots(existing, imported)[i].Some? && Slots(existing, imported)[i] == Slots(existing, imported)[j]
    ensures var p := Slots(existing, imported)[i].value;
            && p < |existing| && existing[p].ref == imported[i].ref && NativeKeyOf(imported[j]).Some?
            && NativeKeyOf(existing[p]) == NativeKeyOf(imported[j]) && existing[p].ref != imported[j].ref
  {
    var n := |imported| - 1;
    if j < n {
      TakenTwice(existing, imported[..n], i, j);
    } else {
      TakenByNative(existing, imported, i);
      SlotByNameOrNative(existing, imported, i);
    }
  }

  /** The last import, in a slot that was taken before, found it by its native id. */
  lemma TakenByNative(existing: seq<Access>, imported: seq<Access>, i: nat)
    requires i < |imported| - 1 && Slots(existing, imported)[i].Some?
    requires Slots(existing, imported)[i] == Slots(existing, imported)[|imported| - 1]
    ensures var p, last := Slots(existing, imported)[i].value, imported[|imported| - 1];
            p < |existing| && NativeKeyOf(last).Some? && NativeKeyOf(existing[p]) == NativeKeyOf(last)
  {
    assert Slots(existing, imported)[i] == Slots(existing, imported[..|imported| - 1])[i];
  }

  /** An import takes a slot by name or by native id. */
  lemma SlotByNameOrNative(existing: seq<Access>, imported: seq<Access>, k: nat)
    requires k < |imported| && Slots(existing, imported)[k].Some?
    ensures var p := Slots(existing, imported)[k].value;
            && p < |existing|
            && (existing[p].ref == imported[k].ref
                || (NativeKeyOf(imported[k]).Some? && NativeKeyOf(existing[p]) == NativeKeyOf(imported[k])))
  {
    SlotAt(existing, imported, k);
  }

  /** An access that is still in the slot under its id has its native id. */
  lemma {:induction false} ContentNative(existing: seq<Access>, imported: seq<Access>, p: nat)
    requires Regular(existing, imported) && p < |existing| && NativeKeyOf(existing[p]).Some?
    requires Content(existing, imported, p).id == existing[p].id
    ensures NativeKeyOf(Content(existing, imported, p)) == NativeKeyOf(existing[p])
  {
    if imported != [] {
      var n := |imported| - 1;
      var rest, last := imported[..n], imported[n];
      assert imported == rest + [last];
      RegularPrefix(existing, rest, last);
      ContentGrows(existing, rest, last, p);
      ContentNative(existing, rest, p);
      ContentKeys(existing, rest, p);
    }
  }

  /** Only an access in a free slot is replaced. */
  lemma ReplacedWasFree(existing: seq<Access>, imported: seq<Access>, incoming: Access, p: nat)
    requires Regular(existing, imported + [incoming]) && Fault(existing, imported, incoming).None?
    requires Slot(existing, Slots(existing, imported), incoming) == Some(p)
    requires IsReplacement(Content(existing, imported, p), incoming)
    ensures Content(existing, imported, p) == existing[p]
  {
    var all, taker := imported + [incoming], Taker(existing, imported, p);
    ContentKeys(existing, imported, p);
    if taker.Some? {
      SlotsGrow(existing, imported, incoming);
      assert all[|imported|] == incoming
          && Slots(existing, all)[taker.value] == Some(p) == Slots(existing, all)[|imported|];
      TakenTwice(existing, all, taker.value, |imported|);
      RegularPrefix(existing, imported, incoming);
      ContentNative(existing, imported, p);
      assert false;
    }
  }

  lemma ReplacedAreKept(existing: seq<Access>, imported: seq<Access>, r: Reconciliation, incoming: Access, p: nat)
    requires Regular(existing, imported + [incoming]) && Represents(existing, imported, r)
    requires Fault(existing, imported, incoming).None? && Slot(existing, Slots(existing, imported), incoming) == Some(p)
    requires p < |r.slots| && r.slots[p] == Content(existing, imported, p)
    ensures KeepsReplaced(existing, imported + [incoming], Placed(r, incoming, p))
  {
    var next := Placed(r, incoming, p);
    RegularPrefix(existing, imported, incoming);
    forall q | 0 <= q < |existing| && Content(existing, imported + [incoming], q).id != existing[q].id
      ensures existing[q].id in next.replaced && next.replaced[existing[q].id] == existing[q]
    {
      ContentGrows(existing, imported, incoming, q);
      if q != p {
        ContentIdsDiffer(existing, imported, q, p);
      } else if IsReplacement(r.slots[p], incoming) {
        ReplacedWasFree(existing, imported, incoming, p);
      }
    }
  }

  lemma PlacedRepresents(existing: seq<Access>, imported: seq<Access>, r: Reconciliation, incoming: Access, p: nat)
    requires Regular(existing, imported + [incoming]) && Represents(existing, imported, r)
    requires Fault(existing, imported, incoming).None? && Slot(existing, Slots(existing, imported), incoming) == Some(p)
    requires p < |r.slots| && r.slots[p] == Content(existing, imported, p)
    ensures Represents(existing, imported + [incoming], Placed(r, incoming, p))
  {
    var next := Placed(r, incoming, p);
    SeenGrows(imported, incoming);
    PlacedIsExpected(existing, imported, r, incoming, p);
    SlotsAreDistinct(existing, imported, incoming);
    PlacedKeepsNames(r, incoming, p);
    ReplacedAreKept(existing, imported, r, incoming, p);
    IndexingKeepsNatives(existing, imported, r, next, incoming, Place(r.slots[p], incoming).id);
  }

  lemma PlacedIsExpected(existing: seq<Access>, imported: seq<Access>, r: Reconciliation, incoming: Access, p: nat)
    requires r.slots == Expected(existing, imported) && p < |r.slots|
    requires Slot(existing, Slots(existing, imported), incoming) == Some(p)
    ensures Placed(r, incoming, p).slots == Expected(existing, imported + [incoming])
  {
    ExpectedGrows(existing, imported, incoming);
  }

  lemma AppendedRepresents(existing: seq<Access>, imported: seq<Access>, r: Reconciliation, incoming: Access)
    requires Regular(existing, imported + [incoming]) && Represents(existing, imported, r)
    requires Slot(existing, Slots(existing, imported), incoming).None?
    ensures Represents(existing, imported + [incoming], Appended(r, incoming))
  {
    var next := Appended(r, incoming);
    SeenGrows(imported, incoming);
    ExpectedGrows(existing, imported, incoming);
    SlotsAreDistinct(existing, imported, incoming);
    AppendingKeepsNames(r, next, incoming);
    IndexingKeepsNatives(existing, imported, r, next, incoming, incoming.id);
    forall q | 0 <= q < |existing|
      ensures Content(existing, imported + [incoming], q) == Content(existing, imported, q)
    {
      ContentGrows(existing, imported, incoming, q);
    }
  }

  /** The loop carries out the imports up to the first one that is refused. */
  lemma {:induction false} LoopRepresents(existing: seq<Access>, imported: seq<Access>)
    requires Regular(existing, imported)
    ensures Faultless(existing, imported) <==> StepAll(Start(existing), imported).Ok?
    ensures Faultless(existing, imported) ==>
              Represents(existing, imported, StepAll(Start(existing), imported).value)
  {
    if imported == [] {
      StartRepresents(existing);
    } else {
      var n := |imported| - 1;
      var rest, last := imported[..n], imported[n];
      assert imported == rest + [last];
      RegularPrefix(existing, rest, last);
      LoopRepresents(existing, rest);
      if Faultless(existing, rest) {
        var r := StepAll(Start(existing), rest).value;
        StepResult(existing, rest, r, last);
        if Fault(existing, rest, last).None? {
          StepRepresents(existing, rest, r, last);
        }
      }
    }
  }

  lemma StepRepresents(existing: seq<Access>, imported: seq<Access>, r: Reconciliation, incoming: Access)
    requires Regular(existing, imported + [incoming]) && Represents(existing, imported, r)
    requires Fault(existing, imported, incoming).None?
    ensures Step(r, incoming).Ok? && Represents(existing, imported + [incoming], Step(r, incoming).value)
  {
    StepResult(existing, imported, r, incoming);
    var slot := Slot(existing, Slots(existing, imported), incoming);
    if slot.Some? {
      PlacedRepresents(existing, imported, r, incoming, slot.value);
    } else {
      AppendedRepresents(existing, imported, r, incoming);
    }
  }
}
