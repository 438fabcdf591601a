/**
 * Sequence operations shared by the route handlers: the lodash `filter`,
 * `findIndex` and `uniqBy` helpers, stated once for any key function.
 */
module Seqs {

  /** Some element of `s` has key `k`. */
  predicate HasKey<T, K(==)>(s: seq<T>, key: T -> K, k: K) {
    exists i :: 0 <= i < |s| && key(s[i]) == k
  }

  /** No two elements of `s` share a key. */
  predicate DistinctKeys<T, K(==)>(s: seq<T>, key: T -> K) {
    forall i, j :: 0 <= i < j < |s| ==> key(s[i]) != key(s[j])
  }

  /** `_.filter(s, p)`: the elements satisfying `p`, in order. */
  function Filter<T>(s: seq<T>, p: T -> bool): (r: seq<T>)
    ensures |r| <= |s|
    ensures forall x :: x in r ==> x in s && p(x)
    ensures forall i :: 0 <= i < |s| && p(s[i]) ==> s[i] in r
  {
    if s == [] then []
    else (if p(s[0]) then [s[0]] else []) + Filter(s[1..], p)
  }

  /** The elements of `s` whose key is `k`, in order. */
  function WithKey<T, K(==)>(s: seq<T>, key: T -> K, k: K): (r: seq<T>)
    ensures |r| <= |s|
    ensures forall x :: x in r ==> x in s && key(x) == k
  {
    if s == [] then []
    else (if key(s[0]) == k then [s[0]] else []) + WithKey(s[1..], key, k)
  }

  /** `_.findIndex`: the position of the first element with key `k`, or -1. */
  function FindIndex<T, K(==)>(s: seq<T>, key: T -> K, k: K): (r: int)
    ensures -1 <= r < |s|
    ensures r == -1 <==> !HasKey(s, key, k)
    ensures r >= 0 ==> key(s[r]) == k && forall i :: 0 <= i < r ==> key(s[i]) != k
  {
    if s == [] then -1
    else if key(s[0]) == k then 0
    else
      var j := FindIndex(s[1..], key, k);
      assert forall i :: 0 < i < |s| ==> s[i] == s[1..][i - 1];
      if j == -1 then -1 else j + 1
  }

  /**
   * `_.uniqBy(s, key)`: the first element for each key, in order. Defined
   * by adding one element at a time at the end, as lodash walks the list.
   */
  function UniqBy<T, K(==)>(s: seq<T>, key: T -> K): seq<T>
  {
    if s == [] then []
    else
      var init, x := s[..|s| - 1], s[|s| - 1];
      UniqBy(init, key) + (if HasKey(init, key, key(x)) then [] else [x])
  }

  lemma {:induction false} WithKeyConcat<T, K>(a: seq<T>, b: seq<T>, key: T -> K, k: K)
    ensures WithKey(a + b, key, k) == WithKey(a, key, k) + WithKey(b, key, k)
  {
    if a != [] {
      assert (a + b)[0] == a[0];
      assert (a + b)[1..] == a[1..] + b;
      WithKeyConcat(a[1..], b, key, k);
      var h := if key(a[0]) == k then [a[0]] else [];
      calc {
        WithKey(a + b, key, k);
        h + WithKey(a[1..] + b, key, k);
        h + (WithKey(a[1..], key, k) + WithKey(b, key, k));
        (h + WithKey(a[1..], key, k)) + WithKey(b, key, k);
      }
    } else {
      assert a + b == b;
    }
  }

  lemma {:induction false} WithKeyCons<T, K>(x: T, s: seq<T>, key: T -> K, k: K)
    ensures WithKey([x] + s, key, k) == (if key(x) == k then [x] else []) + WithKey(s, key, k)
  {
    assert ([x] + s)[0] == x;
    assert ([x] + s)[1..] == s;
  }

  /** Putting an element with a fresh key in front keeps the keys distinct. */
  lemma {:induction false} DistinctCons<T, K>(x: T, s: seq<T>, key: T -> K)
    requires DistinctKeys(s, key) && !HasKey(s, key, key(x))
    ensures DistinctKeys([x] + s, key)
  {
    var w := [x] + s;
    forall a, b | 0 <= a < b < |w| ensures key(w[a]) != key(w[b]) {
      assert w[b] == s[b - 1];
      if a > 0 {
        assert w[a] == s[a - 1];
      }
    }
  }

  /** Extending `s` at the end adds its last element to the group of its key only. */
  lemma {:induction false} WithKeySnoc<T, K>(s: seq<T>, x: T, key: T -> K, k: K)
    ensures WithKey(s + [x], key, k) == WithKey(s, key, k) + (if key(x) == k then [x] else [])
  {
    WithKeyConcat(s, [x], key, k);
    assert WithKey([x], key, k) == (if key(x) == k then [x] else []) + WithKey([x][1..], key, k);
  }

  /** The first position of a key is unchanged by extending `s` at the end, unless the key is new. */
  lemma {:induction false} FindIndexSnoc<T, K>(s: seq<T>, x: T, key: T -> K, k: K)
    ensures FindIndex(s + [x], key, k) ==
      if HasKey(s, key, k) then FindIndex(s, key, k)
      else if key(x) == k then |s| else -1
  {
    var r := FindIndex(s + [x], key, k);
    var t := s + [x];
    assert forall i :: 0 <= i < |s| ==> t[i] == s[i];
    if HasKey(s, key, k) {
      var j := FindIndex(s, key, k);
      assert key(t[j]) == k;
    } else if key(x) == k {
      assert key(t[|s|]) == k;
    } else {
      assert forall i :: 0 <= i < |t| ==> key(t[i]) != k;
    }
  }

  /** The keys of `UniqBy(s, key)` are pairwise distinct. */
  lemma {:induction false} UniqByDistinct<T, K>(s: seq<T>, key: T -> K)
    ensures DistinctKeys(UniqBy(s, key), key)
  {
    if s != [] {
      var init, x := s[..|s| - 1], s[|s| - 1];
      UniqByDistinct(init, key);
      UniqByKeys(init, key);
      var ui := UniqBy(init, key);
      if !HasKey(init, key, key(x)) {
        assert !HasKey(ui, key, key(x));
        assert forall i :: 0 <= i < |ui| ==> key(ui[i]) != key(x);
      }
    }
  }

  /** `UniqBy(s, key)` has exactly the keys that occur in `s`. */
  lemma {:induction false} UniqByKeys<T, K>(s: seq<T>, key: T -> K)
    ensures forall k :: HasKey(UniqBy(s, key), key, k) <==> HasKey(s, key, k)
  {
    if s != [] {
      var init, x := s[..|s| - 1], s[|s| - 1];
      UniqByKeys(init, key);
      var u := UniqBy(s, key);
      var ui := UniqBy(init, key);
      assert s == init + [x];
      forall k ensures HasKey(u, key, k) <==> HasKey(s, key, k) {
        if HasKey(s, key, k) {
          var i :| 0 <= i < |s| && key(s[i]) == k;
          if i < |init| {
            assert key(init[i]) == k;
            assert HasKey(init, key, k);
            assert HasKey(ui, key, k);
            var j :| 0 <= j < |ui| && key(ui[j]) == k;
            assert u[j] == ui[j];
          } else if !HasKey(init, key, key(x)) {
            assert u[|ui|] == x;
          } else {
            assert HasKey(init, key, k);
            assert HasKey(ui, key, k);
            var j :| 0 <= j < |ui| && key(ui[j]) == k;
            assert u[j] == ui[j];
          }
        }
        if HasKey(u, key, k) {
          var j :| 0 <= j < |u| && key(u[j]) == k;
          if j < |ui| {
            assert u[j] == ui[j];
            assert HasKey(ui, key, k);
            var i :| 0 <= i < |init| && key(init[i]) == k;
            assert s[i] == init[i];
          } else {
            assert u[j] == x == s[|s| - 1];
          }
        }
      }
    }
  }

  /**
   * Each element of `UniqBy(s, key)` is the first element of `s` with its
   * key, and their first positions increase along the result.
   */
  lemma {:induction false} UniqByFirsts<T, K>(s: seq<T>, key: T -> K)
    ensures forall j :: 0 <= j < |UniqBy(s, key)| ==>
      HasKey(s, key, key(UniqBy(s, key)[j])) &&
      UniqBy(s, key)[j] == s[FindIndex(s, key, key(UniqBy(s, key)[j]))]
    ensures forall j1, j2 :: 0 <= j1 < j2 < |UniqBy(s, key)| ==>
      FindIndex(s, key, key(UniqBy(s, key)[j1])) < FindIndex(s, key, key(UniqBy(s, key)[j2]))
  {
    if s != [] {
      var init, x := s[..|s| - 1], s[|s| - 1];
      assert s == init + [x];
      UniqByFirsts(init, key);
      UniqByKeys(init, key);
      var u := UniqBy(s, key);
      var ui := UniqBy(init, key);
      forall j | 0 <= j < |ui|
        ensures HasKey(s, key, key(u[j])) && u[j] == s[FindIndex(s, key, key(u[j]))]
        ensures FindIndex(s, key, key(u[j])) == FindIndex(init, key, key(u[j]))
      {
        assert u[j] == ui[j];
        FindIndexSnoc(init, x, key, key(u[j]));
        var i := FindIndex(init, key, key(u[j]));
        assert s[i] == init[i];
      }
      if !HasKey(init, key, key(x)) {
        FindIndexSnoc(init, x, key, key(x));
        assert u[|ui|] == x;
      }
    }
  }
}
