/** `createDictBy`: an index from a record field to the record carrying it. */
module Dict {

  /** The dictionary the loop has built after visiting all of `s`: later writes win. */
  function DictBy<T, K(==)>(s: seq<T>, id: T -> K): map<K, T>
  {
    if s == [] then map[]
    else DictBy(s[..|s| - 1], id)[id(s[|s| - 1]) := s[|s| - 1]]
  }

  /** `s[i]` is the last element of `s` whose key is `k`. */
  predicate LastWith<T, K(==)>(s: seq<T>, id: T -> K, k: K, i: int)
  {
    0 <= i < |s| && id(s[i]) == k && forall j :: i < j < |s| ==> id(s[j]) != k
  }

  /**
   * The index holds exactly the keys that occur in `s`, and each key maps to
   * the last element of `s` carrying it.
   */
  lemma {:induction false} DictByLastWins<T, K>(s: seq<T>, id: T -> K)
    ensures forall i :: 0 <= i < |s| ==> id(s[i]) in DictBy(s, id)
    ensures forall k :: k in DictBy(s, id) ==> exists i :: LastWith(s, id, k, i) && DictBy(s, id)[k] == s[i]
  {
    if s != [] {
      var init := s[..|s| - 1];
      var last := s[|s| - 1];
      DictByLastWins(init, id);
      forall i | 0 <= i < |s| ensures id(s[i]) in DictBy(s, id) {
        if i < |s| - 1 { assert s[i] == init[i]; }
      }
      forall k | k in DictBy(s, id) ensures exists i :: LastWith(s, id, k, i) && DictBy(s, id)[k] == s[i] {
        if k == id(last) {
          assert LastWith(s, id, k, |s| - 1);
        } else {
          var i :| LastWith(init, id, k, i) && DictBy(init, id)[k] == init[i];
          assert LastWith(s, id, k, i);
        }
      }
    }
  }

  /**
   * `createDictBy(obj, id)`: walks `obj` in order, writing each element under
   * its key.
   */
  method CreateDictBy<T, K(==)>(obj: seq<T>, id: T -> K) returns (ret: map<K, T>)
    ensures ret == DictBy(obj, id)
  {
    ret := map[];
    for i := 0 to |obj|
      invariant ret == DictBy(obj[..i], id)
    {
      assert obj[..i + 1][..i] == obj[..i];
      var element := obj[i];
      ret := ret[id(element) := element];
    }
    assert obj[..|obj|] == obj;
  }
}
