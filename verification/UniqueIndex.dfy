/**
 * A stored table with a unique index, written row by row: the index must hold after every single write, not only at the
 * end, and the first write that breaks it stops the others.
 */
module UniqueIndex {
  import opened Domain

  /** The indexed name of each row, by row id. */
  type Table<K> = map<string, K>

  datatype Write<K> = Write(id: string, name: K)

  ghost predicate Unique<K>(t: Table<K>) {
    forall a, b :: a in t && b in t && t[a] == t[b] ==> a == b
  }

  function Written<K>(t: Table<K>, writes: seq<Write<K>>): Table<K> {
    if writes == [] then t
    else
      var last := writes[|writes| - 1];
      Written(t, writes[..|writes| - 1])[last.id := last.name]
  }

  /** The index holds after every single write. */
  ghost predicate StaysUnique<K>(t: Table<K>, writes: seq<Write<K>>) {
    Unique(Written(t, writes)) && (writes != [] ==> StaysUnique(t, writes[..|writes| - 1]))
  }

  predicate DistinctRows<K(==)>(writes: seq<Write<K>>) {
    forall i, j :: 0 <= i < j < |writes| ==> writes[i].id != writes[j].id
  }

  /** A name is written once, and a row that has it already is that row or was rewritten before. */
  ghost predicate NoClash<K(!new)>(t: Table<K>, writes: seq<Write<K>>) {
    && (forall i, j :: 0 <= i < j < |writes| ==> writes[i].name != writes[j].name)
    && (forall i, id :: 0 <= i < |writes| && id in t && t[id] == writes[i].name ==> IsWritten(writes, i + 1, id))
  }

  ghost predicate IsWritten<K>(writes: seq<Write<K>>, count: nat, id: string) {
    exists j :: 0 <= j < count && j < |writes| && writes[j].id == id
  }

  lemma {:induction false} WrittenRows<K>(t: Table<K>, writes: seq<Write<K>>, id: string)
    requires DistinctRows(writes)
    ensures id in Written(t, writes) <==> id in t || IsWritten(writes, |writes|, id)
    ensures forall j :: 0 <= j < |writes| && writes[j].id == id ==> Written(t, writes)[id] == writes[j].name
    ensures id in t && !IsWritten(writes, |writes|, id) ==> Written(t, writes)[id] == t[id]
  {
    if writes != [] {
      var n := |writes| - 1;
      WrittenRows(t, writes[..n], id);
      if writes[n].id != id {
        assert IsWritten(writes, |writes|, id) <==> IsWritten(writes[..n], n, id);
      }
    }
  }

  /** One more write keeps the index exactly when no other row has the name. */
  lemma NextWrite<K(!new)>(t: Table<K>, w: Write<K>)
    requires Unique(t)
    ensures Unique(t[w.id := w.name]) <==> forall id :: id in t && id != w.id ==> t[id] != w.name
  {
    var next := t[w.id := w.name];
    if id :| id in t && id != w.id && t[id] == w.name {
      assert next[id] == next[w.id];
    }
  }

  lemma {:induction false} FailureStays<K>(t: Table<K>, writes: seq<Write<K>>, k: nat)
    requires k <= |writes| && !StaysUnique(t, writes[..k])
    ensures !StaysUnique(t, writes)
    decreases |writes|
  {
    if k < |writes| {
      var n := |writes| - 1;
      assert writes[..n][..k] == writes[..k];
      FailureStays(t, writes[..n], k);
    } else {
      assert writes[..k] == writes;
    }
  }

  lemma IsWrittenAppends<K>(writes: seq<Write<K>>, w: Write<K>, count: nat, id: string)
    ensures count <= |writes| ==> (IsWritten(writes + [w], count, id) <==> IsWritten(writes, count, id))
    ensures IsWritten(writes + [w], |writes| + 1, id) <==> IsWritten(writes, |writes|, id) || id == w.id
  {
    var all := writes + [w];
    assert all[|writes|] == w;
    assert forall j :: 0 <= j < |writes| ==> all[j] == writes[j];
  }

  /** The row with this name is not another one than the row to be written. */
  ghost predicate IsFree<K(!new)>(t: Table<K>, w: Write<K>) {
    forall id :: id in t && id != w.id ==> t[id] != w.name
  }

  lemma ClashFreePrefix<K(!new)>(t: Table<K>, writes: seq<Write<K>>, w: Write<K>)
    requires DistinctRows(writes + [w]) && NoClash(t, writes + [w])
    ensures NoClash(t, writes) && DistinctRows(writes) && IsFree(Written(t, writes), w)
  {
    var all, n := writes + [w], |writes|;
    assert forall j :: 0 <= j < n ==> all[j] == writes[j];
    assert all[n] == w;
    forall i, j | 0 <= i < j < n ensures writes[i].id != writes[j].id && writes[i].name != writes[j].name {
      assert all[i].id != all[j].id && all[i].name != all[j].name;
    }
    forall i, id | 0 <= i < n && id in t && t[id] == writes[i].name ensures IsWritten(writes, i + 1, id) {
      assert IsWritten(all, i + 1, id);
      IsWrittenAppends(writes, w, i + 1, id);
    }
    forall id | id in Written(t, writes) && id != w.id ensures Written(t, writes)[id] != w.name {
      assert id in t && t[id] == all[n].name ==> IsWritten(all, n + 1, id);
      WrittenRows(t, writes, id);
      IsWrittenAppends(writes, w, n, id);
      if j :| 0 <= j < n && writes[j].id == id {
        assert all[j].name != all[n].name;
      }
    }
  }

  lemma FreeWriteClashesNot<K(!new)>(t: Table<K>, writes: seq<Write<K>>, w: Write<K>)
    requires DistinctRows(writes + [w]) && DistinctRows(writes) && NoClash(t, writes) && IsFree(Written(t, writes), w)
    ensures NoClash(t, writes + [w])
  {
    var all, n := writes + [w], |writes|;
    assert forall j :: 0 <= j < n ==> all[j] == writes[j];
    assert all[n] == w;
    forall i, j | 0 <= i < j < |all| ensures all[i].name != all[j].name {
      if j == n {
        WrittenRows(t, writes, writes[i].id);
        assert IsWritten(writes, n, writes[i].id);
        assert all[i].id != all[n].id;
      }
    }
    forall i, id | 0 <= i < |all| && id in t && t[id] == all[i].name ensures IsWritten(all, i + 1, id) {
      IsWrittenAppends(writes, w, i, id);
      if i < n {
        assert IsWritten(writes, i + 1, id);
        IsWrittenAppends(writes, w, i + 1, id);
      } else {
        WrittenRows(t, writes, id);
      }
    }
  }

  lemma DistinctPrefix<K>(writes: seq<Write<K>>, w: Write<K>)
    requires DistinctRows(writes + [w])
    ensures DistinctRows(writes)
  {
    forall i, j | 0 <= i < j < |writes| ensures writes[i].id != writes[j].id {
      assert (writes + [w])[i].id != (writes + [w])[j].id;
    }
  }

  /** Every intermediate table respects the index exactly when no write clashes. */
  lemma {:induction false} UniqueMeansNoClash<K(!new)>(t: Table<K>, writes: seq<Write<K>>)
    requires Unique(t) && DistinctRows(writes)
    ensures StaysUnique(t, writes) <==> NoClash(t, writes)
  {
    if writes != [] {
      var n := |writes| - 1;
      var rest, w := writes[..n], writes[n];
      assert writes == rest + [w];
      DistinctPrefix(rest, w);
      UniqueMeansNoClash(t, rest);
      if NoClash(t, writes) {
        ClashFreePrefix(t, rest, w);
        NextWrite(Written(t, rest), w);
      }
      if StaysUnique(t, writes) {
        NextWrite(Written(t, rest), w);
        FreeWriteClashesNot(t, rest, w);
      }
    }
  }

  /** Writes row after row and stops at the first violation of the index. */
  method UpsertAll<K(==, !new)>(t: Table<K>, writes: seq<Write<K>>) returns (table: Result<Table<K>>)
    requires Unique(t)
    ensures table.Ok? <==> StaysUnique(t, writes)
    ensures table.Ok? ==> table.value == Written(t, writes)
  {
    var current := t;
    for i := 0 to |writes|
      invariant current == Written(t, writes[..i])
      invariant StaysUnique(t, writes[..i])
    {
      var w := writes[i];
      assert writes[..i + 1][..i] == writes[..i];
      NextWrite(current, w);
      if exists id :: id in current && id != w.id && current[id] == w.name {
        FailureStays(t, writes, i + 1);
        return Error("UNIQUE constraint failed");
      }
      current := current[w.id := w.name];
    }
    assert writes[..|writes|] == writes;
    return Ok(current);
  }
}
