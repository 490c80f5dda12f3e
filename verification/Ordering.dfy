/**
 * Tuple comparison of texts and the stable sort that the engine applies before it iterates, as a function: it keeps
 * every item, orders the keys, and commutes with a restriction of the list. Filters and concatenation are here too.
 */
module Ordering {

  predicate TextLeq(a: string, b: string) {
    a == "" || (b != "" && (a[0] < b[0] || (a[0] == b[0] && TextLeq(a[1..], b[1..]))))
  }

  /** Lexicographic comparison of tuples of texts. */
  predicate KeyLeq(a: seq<string>, b: seq<string>) {
    a == [] || (b != [] && (if a[0] == b[0] then KeyLeq(a[1..], b[1..]) else TextLeq(a[0], b[0])))
  }

  /** The order of texts, written out: the first character that differs decides, and a prefix comes first. */
  lemma {:induction false} TextsAreLexicographic(a: string, b: string)
    ensures TextLeq(a, b) <==> a <= b || exists k :: 0 <= k < |a| && k < |b| && a[..k] == b[..k] && a[k] < b[k]
  {
    if a == "" {
    } else if b == "" {
    } else if a[0] == b[0] {
      TextsAreLexicographic(a[1..], b[1..]);
      assert a == [a[0]] + a[1..] && b == [b[0]] + b[1..];
      if k :| 0 <= k < |a[1..]| && k < |b[1..]| && a[1..][..k] == b[1..][..k] && a[1..][k] < b[1..][k] {
        assert a[..k + 1] == [a[0]] + a[1..][..k] && b[..k + 1] == [b[0]] + b[1..][..k];
      }
      if k :| 0 <= k < |a| && k < |b| && a[..k] == b[..k] && a[k] < b[k] {
        assert k > 0;
        assert a[1..][..k - 1] == a[..k][1..] && b[1..][..k - 1] == b[..k][1..];
        assert a[1..][k - 1] < b[1..][k - 1];
      }
    } else {
      if a[0] < b[0] {
        assert a[..0] == b[..0];
      }
      forall k | 0 < k < |a| && k < |b| ensures a[..k] != b[..k] {
        assert a[..k][0] == a[0] && b[..k][0] == b[0];
      }
    }
  }

  lemma {:induction false} TextOrder(a: string, b: string, c: string)
    ensures TextLeq(a, b) || TextLeq(b, a)
    ensures TextLeq(a, b) && TextLeq(b, a) ==> a == b
    ensures TextLeq(a, b) && TextLeq(b, c) ==> TextLeq(a, c)
  {
    if a != "" && b != "" {
      TextOrder(a[1..], b[1..], if c == "" then "" else c[1..]);
      assert a == [a[0]] + a[1..] && b == [b[0]] + b[1..];
    }
  }

  lemma {:induction false} KeyOrder(a: seq<string>, b: seq<string>, c: seq<string>)
    ensures KeyLeq(a, b) || KeyLeq(b, a)
    ensures KeyLeq(a, b) && KeyLeq(b, c) ==> KeyLeq(a, c)
  {
    if a != [] && b != [] {
      TextOrder(a[0], b[0], if c == [] then "" else c[0]);
      KeyOrder(a[1..], b[1..], if c == [] then [] else c[1..]);
      if c != [] {
        TextOrder(b[0], a[0], c[0]);
        TextOrder(b[0], c[0], a[0]);
        TextOrder(a[0], c[0], b[0]);
      }
    }
  }

  /** Puts x before the first element whose key is not smaller. */
  function Insert<T>(key: T -> seq<string>, x: T, sorted: seq<T>): seq<T> {
    if sorted == [] || KeyLeq(key(x), key(sorted[0])) then [x] + sorted
    else [sorted[0]] + Insert(key, x, sorted[1..])
  }

  /** `sorted(items, key=key)`: ascending, and stable on equal keys. */
  function SortBy<T>(key: T -> seq<string>, items: seq<T>): seq<T> {
    if items == [] then [] else Insert(key, items[0], SortBy(key, items[1..]))
  }

  function Filter<T>(keep: T -> bool, items: seq<T>): seq<T> {
    if items == [] then []
    else (if keep(items[0]) then [items[0]] else []) + Filter(keep, items[1..])
  }

  ghost predicate Ascending<T>(key: T -> seq<string>, items: seq<T>) {
    forall i, j :: 0 <= i < j < |items| ==> KeyLeq(key(items[i]), key(items[j]))
  }

  lemma {:induction false} InsertKeepsContents<T>(key: T -> seq<string>, x: T, sorted: seq<T>)
    ensures multiset(Insert(key, x, sorted)) == multiset{x} + multiset(sorted)
  {
    if sorted != [] {
      assert sorted == [sorted[0]] + sorted[1..];
      if !KeyLeq(key(x), key(sorted[0])) {
        InsertKeepsContents(key, x, sorted[1..]);
      }
    }
  }

  lemma {:induction false} InsertKeepsOrder<T>(key: T -> seq<string>, x: T, sorted: seq<T>)
    requires Ascending(key, sorted)
    ensures Ascending(key, Insert(key, x, sorted))
  {
    if sorted == [] {
    } else if KeyLeq(key(x), key(sorted[0])) {
      forall j | 0 <= j < |sorted| ensures KeyLeq(key(x), key(sorted[j])) {
        KeyOrder(key(x), key(sorted[0]), key(sorted[j]));
      }
    } else {
      var rest := Insert(key, x, sorted[1..]);
      InsertKeepsOrder(key, x, sorted[1..]);
      InsertKeepsContents(key, x, sorted[1..]);
      KeyOrder(key(x), key(sorted[0]), []);
      forall j | 0 <= j < |rest| ensures KeyLeq(key(sorted[0]), key(rest[j])) {
        assert rest[j] in multiset(rest);
        assert rest[j] == x || rest[j] in sorted[1..];
      }
    }
  }

  /** Sorting keeps every item with its multiplicity and orders them. */
  lemma {:induction false} SortIsOrderedPermutation<T>(key: T -> seq<string>, items: seq<T>)
    ensures multiset(SortBy(key, items)) == multiset(items)
    ensures Ascending(key, SortBy(key, items))
  {
    if items != [] {
      SortIsOrderedPermutation(key, items[1..]);
      InsertKeepsContents(key, items[0], SortBy(key, items[1..]));
      InsertKeepsOrder(key, items[0], SortBy(key, items[1..]));
      assert items == [items[0]] + items[1..];
    }
  }

  lemma {:induction false} AscendingStays<T>(key: T -> seq<string>, items: seq<T>)
    requires Ascending(key, items)
    ensures SortBy(key, items) == items
  {
    if items != [] {
      AscendingStays(key, items[1..]);
      assert |items| > 1 ==> KeyLeq(key(items[0]), key(items[1]));
    }
  }

  lemma SortMember<T>(key: T -> seq<string>, items: seq<T>, x: T)
    ensures x in SortBy(key, items) <==> x in items
  {
    SortIsOrderedPermutation(key, items);
    assert x in SortBy(key, items) <==> x in multiset(SortBy(key, items));
    assert x in items <==> x in multiset(items);
  }

  lemma {:induction false} FilterMember<T>(keep: T -> bool, items: seq<T>, x: T)
    ensures x in Filter(keep, items) <==> x in items && keep(x)
  {
    if items != [] {
      FilterMember(keep, items[1..], x);
    }
  }

  lemma {:induction false} SameFilter<T(!new)>(keep: T -> bool, other: T -> bool, items: seq<T>)
    requires forall x :: keep(x) == other(x)
    ensures Filter(keep, items) == Filter(other, items)
  {
    if items != [] {
      SameFilter(keep, other, items[1..]);
    }
  }

  lemma ConcatTail<T>(a: seq<T>, b: seq<T>)
    requires a != []
    ensures (a + b)[0] == a[0] && (a + b)[1..] == a[1..] + b
  {
  }

  lemma Associative<T>(a: seq<T>, b: seq<T>, c: seq<T>)
    ensures a + (b + c) == (a + b) + c
  {
  }

  lemma {:induction false} FilterConcat<T>(keep: T -> bool, a: seq<T>, b: seq<T>)
    ensures Filter(keep, a + b) == Filter(keep, a) + Filter(keep, b)
  {
    if a == [] {
      assert a + b == b;
    } else {
      FilterConcat(keep, a[1..], b);
      ConcatTail(a, b);
      Associative(if keep(a[0]) then [a[0]] else [], Filter(keep, a[1..]), Filter(keep, b));
    }
  }

  /** The positions, ascending, of what a filter keeps. */
  lemma {:induction false} FilterPositions<T>(keep: T -> bool, items: seq<T>) returns (at: seq<nat>)
    ensures |at| == |Filter(keep, items)| && forall i, j :: 0 <= i < j < |at| ==> at[i] < at[j]
    ensures forall i :: 0 <= i < |at| ==> at[i] < |items| && Filter(keep, items)[i] == items[at[i]]
    ensures forall k :: k in at <==> 0 <= k < |items| && keep(items[k])
  {
    at := [];
    if items != [] {
      var n := |items| - 1;
      var before := FilterPositions(keep, items[..n]);
      assert items == items[..n] + [items[n]] && [items[n]][1..] == [];
      FilterConcat(keep, items[..n], [items[n]]);
      at := before + if keep(items[n]) then [n] else [];
      assert forall k :: k in at <==> k in before || (k == n && keep(items[n]));
    }
  }

  lemma {:induction false} FilterInsert<T>(key: T -> seq<string>, keep: T -> bool, x: T, sorted: seq<T>)
    requires Ascending(key, sorted)
    ensures Filter(keep, Insert(key, x, sorted))
         == if keep(x) then Insert(key, x, Filter(keep, sorted)) else Filter(keep, sorted)
  {
    if sorted == [] {
    } else if KeyLeq(key(x), key(sorted[0])) {
      var kept := Filter(keep, sorted);
      if kept != [] {
        FilterMember(keep, sorted, kept[0]);
        var j :| 0 <= j < |sorted| && sorted[j] == kept[0];
        KeyOrder(key(x), key(sorted[0]), key(sorted[j]));
      }
      assert ([x] + sorted)[1..] == sorted;
    } else {
      FilterInsert(key, keep, x, sorted[1..]);
      var inserted := Insert(key, x, sorted);
      assert inserted[1..] == Insert(key, x, sorted[1..]);
      if keep(sorted[0]) {
        var kept := [sorted[0]] + Filter(keep, sorted[1..]);
        assert kept[1..] == Filter(keep, sorted[1..]);
        assert Filter(keep, sorted) == kept;
      } else {
        assert Filter(keep, sorted) == Filter(keep, sorted[1..]);
      }
    }
  }

  /** Restricting a list before or after a stable sort gives the same list, in the same order. */
  lemma {:induction false} FilterCommutesWithSort<T>(key: T -> seq<string>, keep: T -> bool, items: seq<T>)
    ensures Filter(keep, SortBy(key, items)) == SortBy(key, Filter(keep, items))
  {
    if items != [] {
      FilterCommutesWithSort(key, keep, items[1..]);
      SortIsOrderedPermutation(key, items[1..]);
      FilterInsert(key, keep, items[0], SortBy(key, items[1..]));
      if keep(items[0]) {
        assert Filter(keep, items)[1..] == Filter(keep, items[1..]);
      } else {
        assert Filter(keep, items) == Filter(keep, items[1..]);
      }
    }
  }
}
