/**
 * The two underscore.js collection calls the ranking code relies on:
 * `_.filter` (keep the elements a predicate accepts, in order) and
 * `_.sortBy` (a stable ascending sort on a numeric key).
 */
module Sequences {

  /** `_.filter(s, p)`: the elements of `s` that `p` accepts, in their original order. */
  function Select<T>(s: seq<T>, p: T -> bool): (r: seq<T>)
    ensures |r| <= |s|
  {
    if s == [] then [] else (if p(s[0]) then [s[0]] else []) + Select(s[1..], p)
  }

  /** `Select` keeps exactly the elements `p` accepts. */
  lemma {:induction false} SelectMembers<T>(s: seq<T>, p: T -> bool)
    ensures forall i :: 0 <= i < |Select(s, p)| ==> Select(s, p)[i] in s && p(Select(s, p)[i])
    ensures forall i :: 0 <= i < |s| && p(s[i]) ==> s[i] in Select(s, p)
  {
    if s != [] {
      SelectMembers(s[1..], p);
      SelectSingle(s[0], p);
      SelectAppend([s[0]], s[1..], p);
      assert s == [s[0]] + s[1..];
      forall i | 0 <= i < |s| && p(s[i]) ensures s[i] in Select(s, p) {
        if i > 0 { assert s[i] == s[1..][i - 1]; }
      }
    }
  }

  /** Non-decreasing by `key`. */
  predicate SortedBy<T>(s: seq<T>, key: T -> int)
  {
    forall i, j :: 0 <= i < j < |s| ==> key(s[i]) <= key(s[j])
  }

  /** The elements of `s` whose key is `k`, in their original order. */
  function WithKey<T>(s: seq<T>, key: T -> int, k: int): seq<T>
  {
    Select(s, KeyIs(key, k))
  }

  /** The predicate "has key `k`". */
  function KeyIs<T>(key: T -> int, k: int): T -> bool
  {
    x => key(x) == k
  }

  /** Places `x` in front of the first element whose key is not below `key(x)`. */
  function Insert<T>(x: T, s: seq<T>, key: T -> int): (r: seq<T>)
    ensures |r| == |s| + 1
  {
    if s == [] || key(x) <= key(s[0]) then [x] + s
    else
      assert s == [s[0]] + s[1..];
      [s[0]] + Insert(x, s[1..], key)
  }

  /** `_.sortBy(s, key)`: a stable insertion sort. */
  function SortBy<T>(s: seq<T>, key: T -> int): (r: seq<T>)
    ensures |r| == |s|
  {
    if s == [] then []
    else
      assert s == [s[0]] + s[1..];
      Insert(s[0], SortBy(s[1..], key), key)
  }

  /** `Insert` adds `x` and loses nothing. */
  lemma {:induction false} InsertPermutes<T>(x: T, s: seq<T>, key: T -> int)
    ensures multiset(Insert(x, s, key)) == multiset(s) + multiset{x}
  {
    if s != [] && key(s[0]) < key(x) {
      InsertPermutes(x, s[1..], key);
      assert s == [s[0]] + s[1..];
    }
  }

  lemma {:induction false} SortByPermutes<T>(s: seq<T>, key: T -> int)
    ensures multiset(SortBy(s, key)) == multiset(s)
  {
    if s != [] {
      SortByPermutes(s[1..], key);
      InsertPermutes(s[0], SortBy(s[1..], key), key);
      assert s == [s[0]] + s[1..];
    }
  }

  lemma {:induction false} SelectAppend<T>(a: seq<T>, b: seq<T>, p: T -> bool)
    ensures Select(a + b, p) == Select(a, p) + Select(b, p)
  {
    if a == [] {
      assert a + b == b;
    } else {
      var head := if p(a[0]) then [a[0]] else [];
      assert (a + b)[0] == a[0];
      assert (a + b)[1..] == a[1..] + b;
      assert Select(a + b, p) == head + Select(a[1..] + b, p);
      SelectAppend(a[1..], b, p);
      assert Select(a, p) == head + Select(a[1..], p);
    }
  }

  lemma {:induction false} InsertSorted<T>(x: T, s: seq<T>, key: T -> int)
    requires SortedBy(s, key)
    ensures SortedBy(Insert(x, s, key), key)
  {
    if s != [] && key(s[0]) < key(x) {
      InsertSorted(x, s[1..], key);
      InsertPermutes(x, s[1..], key);
      var rest := Insert(x, s[1..], key);
      forall j | 0 <= j < |rest| ensures key(s[0]) <= key(rest[j]) {
        assert rest[j] in multiset(rest);
        if rest[j] != x {
          assert rest[j] in multiset(s[1..]);
          assert rest[j] in s[1..];
        }
      }
    }
  }

  lemma SelectSingle<T>(x: T, p: T -> bool)
    ensures Select([x], p) == if p(x) then [x] else []
  {
    assert [x][1..] == [];
  }

  /** Inserting `x` puts it ahead of every element with the same key. */
  lemma {:induction false} InsertWithKey<T>(x: T, s: seq<T>, key: T -> int, k: int)
    ensures WithKey(Insert(x, s, key), key, k) == (if key(x) == k then [x] else []) + WithKey(s, key, k)
  {
    var p := KeyIs(key, k);
    SelectSingle(x, p);
    if s == [] || key(x) <= key(s[0]) {
      assert Insert(x, s, key) == [x] + s;
      SelectAppend([x], s, p);
    } else {
      var rest := Insert(x, s[1..], key);
      assert Insert(x, s, key) == [s[0]] + rest;
      InsertWithKey(x, s[1..], key, k);
      SelectSingle(s[0], p);
      SelectAppend([s[0]], rest, p);
      SelectAppend([s[0]], s[1..], p);
      assert s == [s[0]] + s[1..];
      assert key(x) == k ==> Select([s[0]], p) == [];
    }
  }

  lemma {:induction false} SortBySorted<T>(s: seq<T>, key: T -> int)
    ensures SortedBy(SortBy(s, key), key)
  {
    if s != [] {
      SortBySorted(s[1..], key);
      InsertSorted(s[0], SortBy(s[1..], key), key);
    }
  }

  /**
   * `SortBy` is a stable sort: its result is a permutation of the input,
   * non-decreasing by the key, and the elements sharing any one key keep
   * their input order.
   */
  lemma {:induction false} SortByIsStableSort<T>(s: seq<T>, key: T -> int)
    ensures multiset(SortBy(s, key)) == multiset(s)
    ensures |SortBy(s, key)| == |s|
    ensures SortedBy(SortBy(s, key), key)
    ensures forall k :: WithKey(SortBy(s, key), key, k) == WithKey(s, key, k)
  {
    if s != [] {
      SortByIsStableSort(s[1..], key);
      SortByPermutes(s, key);
      SortBySorted(s, key);
      forall k ensures WithKey(SortBy(s, key), key, k) == WithKey(s, key, k) {
        InsertWithKey(s[0], SortBy(s[1..], key), key, k);
        SelectAppend([s[0]], s[1..], KeyIs(key, k));
        assert s == [s[0]] + s[1..];
      }
    }
  }

  /** Inserting below every element of `s` puts `x` in front. */
  lemma InsertBelowAll<T>(x: T, s: seq<T>, key: T -> int)
    requires forall i :: 0 <= i < |s| ==> key(x) <= key(s[i])
    ensures Insert(x, s, key) == [x] + s
  {
  }

  /** The case where `x` goes in front: the filtered `s` stays above `x` too. */
  lemma SelectInsertFront<T>(x: T, s: seq<T>, key: T -> int, p: T -> bool)
    requires SortedBy(s, key)
    requires s == [] || key(x) <= key(s[0])
    ensures Select(Insert(x, s, key), p) == if p(x) then Insert(x, Select(s, p), key) else Select(s, p)
  {
    var sel := Select(s, p);
    SelectSingle(x, p);
    assert Insert(x, s, key) == [x] + s;
    SelectAppend([x], s, p);
    if p(x) {
      SelectMembers(s, p);
      forall j | 0 <= j < |sel| ensures key(x) <= key(sel[j]) {
        var i :| 0 <= i < |s| && s[i] == sel[j];
        assert key(s[0]) <= key(s[i]) || i == 0;
      }
      InsertBelowAll(x, sel, key);
    } else {
      assert [] + sel == sel;
    }
  }

  lemma {:induction false} SelectInsert<T>(x: T, s: seq<T>, key: T -> int, p: T -> bool)
    requires SortedBy(s, key)
    ensures Select(Insert(x, s, key), p) == if p(x) then Insert(x, Select(s, p), key) else Select(s, p)
  {
    if s == [] || key(x) <= key(s[0]) {
      SelectInsertFront(x, s, key, p);
    } else {
      var sel := Select(s, p);
      var rest := Insert(x, s[1..], key);
      var sel' := Select(s[1..], p);
      var head := Select([s[0]], p);
      assert Insert(x, s, key) == [s[0]] + rest;
      SelectInsert(x, s[1..], key, p);
      SelectSingle(s[0], p);
      SelectAppend([s[0]], rest, p);
      SelectAppend([s[0]], s[1..], p);
      assert s == [s[0]] + s[1..];
      assert sel == head + sel';
      assert Select(Insert(x, s, key), p) == head + Select(rest, p);
      if !p(x) {
        assert Select(rest, p) == sel';
      } else if p(s[0]) {
        assert Insert(x, [s[0]] + sel', key) == [s[0]] + Insert(x, sel', key) by {
          assert ([s[0]] + sel')[0] == s[0];
          assert ([s[0]] + sel')[1..] == sel';
        }
      } else {
        assert sel == sel';
      }
    }
  }

  /**
   * Filtering after a stable sort gives what sorting after the filter gives:
   * the survivors are the accepted elements in stable key order.
   */
  lemma {:induction false} SelectSortBy<T>(s: seq<T>, key: T -> int, p: T -> bool)
    ensures Select(SortBy(s, key), p) == SortBy(Select(s, p), key)
  {
    if s != [] {
      var sorted := SortBy(s[1..], key);
      var sel := Select(s[1..], p);
      assert SortBy(s, key) == Insert(s[0], sorted, key);
      SelectSortBy(s[1..], key, p);
      SortBySorted(s[1..], key);
      SelectInsert(s[0], sorted, key, p);
      SelectSingle(s[0], p);
      SelectAppend([s[0]], s[1..], p);
      assert s == [s[0]] + s[1..];
      if p(s[0]) {
        assert Select(s, p) == [s[0]] + sel;
        assert SortBy([s[0]] + sel, key) == Insert(s[0], SortBy(sel, key), key) by {
          assert ([s[0]] + sel)[0] == s[0];
          assert ([s[0]] + sel)[1..] == sel;
        }
      } else {
        assert Select(s, p) == sel;
      }
    }
  }
}
