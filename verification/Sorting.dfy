/** A stable sort by a numeric key, standing for the standard library's `sort_by`. */
module Sorting {

  function Place<T>(key: T -> nat, x: T, s: seq<T>): seq<T> {
    if s == [] then [x]
    else if key(x) <= key(s[0]) then [x] + s
    else [s[0]] + Place(key, x, s[1..])
  }

  function Sort<T>(key: T -> nat, s: seq<T>): seq<T> {
    if s == [] then [] else Place(key, s[0], Sort(key, s[1..]))
  }

  predicate Sorted<T>(key: T -> nat, s: seq<T>) {
    forall i, j :: 0 <= i < j < |s| ==> key(s[i]) <= key(s[j])
  }

  /** The elements with key `k`, in their order. */
  function WithKey<T>(key: T -> nat, k: nat, s: seq<T>): seq<T> {
    if s == [] then [] else (if key(s[0]) == k then [s[0]] else []) + WithKey(key, k, s[1..])
  }

  /** `x` is put in at some position and nothing else moves. */
  lemma {:induction false} PlaceSplits<T>(key: T -> nat, x: T, s: seq<T>) returns (p: nat)
    ensures p <= |s| && Place(key, x, s) == s[..p] + [x] + s[p..]
    ensures forall i :: 0 <= i < p ==> key(s[i]) < key(x)
    ensures p < |s| ==> key(x) <= key(s[p])
  {
    p := 0;
    if s != [] && key(x) > key(s[0]) {
      var q := PlaceSplits(key, x, s[1..]);
      p := q + 1;
      assert [s[0]] + (s[1..][..q] + [x] + s[1..][q..]) == s[..p] + [x] + s[p..];
      assert forall i :: 1 <= i < p ==> s[i] == s[1..][i - 1];
    }
  }

  lemma PlaceSorted<T>(key: T -> nat, x: T, s: seq<T>)
    requires Sorted(key, s)
    ensures Sorted(key, Place(key, x, s)) && |Place(key, x, s)| == |s| + 1
    ensures multiset(Place(key, x, s)) == multiset{x} + multiset(s)
  {
    hide Place;
    var p := PlaceSplits(key, x, s);
    assert s == s[..p] + s[p..];
    assert forall i :: p <= i < |s| ==> key(x) <= key(s[i]);
  }

  lemma WithKeyCons<T>(key: T -> nat, k: nat, x: T, s: seq<T>)
    ensures WithKey(key, k, [x] + s) == if key(x) == k then [x] + WithKey(key, k, s) else WithKey(key, k, s)
  {
    assert ([x] + s)[1..] == s;
  }

  lemma {:induction false} PlaceStable<T>(key: T -> nat, x: T, s: seq<T>, k: nat)
    ensures WithKey(key, k, Place(key, x, s)) == WithKey(key, k, [x] + s)
  {
    hide WithKey;
    WithKeyCons(key, k, x, s);
    if s == [] {
      assert [x] == [x] + s;
    } else if key(x) > key(s[0]) {
      PlaceStable(key, x, s[1..], k);
      WithKeyCons(key, k, x, s[1..]);
      WithKeyCons(key, k, s[0], s[1..]);
      WithKeyCons(key, k, s[0], Place(key, x, s[1..]));
      assert s == [s[0]] + s[1..];
    }
  }

  /** The result is sorted, holds the same elements, and keeps the order of equal keys. */
  lemma {:induction false} SortIsStable<T>(key: T -> nat, s: seq<T>, k: nat)
    ensures Sorted(key, Sort(key, s))
    ensures multiset(Sort(key, s)) == multiset(s) && |Sort(key, s)| == |s|
    ensures WithKey(key, k, Sort(key, s)) == WithKey(key, k, s)
  {
    hide Place, WithKey;
    if s != [] {
      hide Sorted;
      var rest := Sort(key, s[1..]);
      SortIsStable(key, s[1..], k);
      PlaceSorted(key, s[0], rest);
      PlaceStable(key, s[0], rest, k);
      WithKeyCons(key, k, s[0], s[1..]);
      WithKeyCons(key, k, s[0], rest);
      assert s == [s[0]] + s[1..];
    }
  }

  lemma {:induction false} SortSorted<T>(key: T -> nat, s: seq<T>)
    requires Sorted(key, s)
    ensures Sort(key, s) == s
  {
    if s != [] {
      SortSorted(key, s[1..]);
      assert |s| > 1 ==> key(s[0]) <= key(s[1]);
      assert s == [s[0]] + s[1..];
    }
  }
}
