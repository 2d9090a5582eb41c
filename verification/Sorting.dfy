/** A stable sort by an integer key. */
module Sorting {

  ghost predicate Sorted<T>(key: T -> int, s: seq<T>) {
    forall i, j :: 0 <= i < j < |s| ==> key(s[i]) <= key(s[j])
  }

  /** The elements with key `k`, in order. */
  function WithKey<T>(key: T -> int, s: seq<T>, k: int): (r: seq<T>) {
    if s == [] then []
    else if key(s[0]) == k then [s[0]] + WithKey(key, s[1..], k)
    else WithKey(key, s[1..], k)
  }

  /** `x` before every element with a key at least its own. */
  function Insert<T>(key: T -> int, x: T, s: seq<T>): (r: seq<T>) {
    if s == [] then [x]
    else if key(x) <= key(s[0]) then [x] + s
    else [s[0]] + Insert(key, x, s[1..])
  }

  function SortBy<T>(key: T -> int, s: seq<T>): (r: seq<T>) {
    if s == [] then [] else Insert(key, s[0], SortBy(key, s[1..]))
  }

  lemma {:induction false} InsertKeeps<T>(key: T -> int, x: T, s: seq<T>)
    ensures multiset(Insert(key, x, s)) == multiset{x} + multiset(s)
  {
    if s != [] && key(x) > key(s[0]) {
      InsertKeeps(key, x, s[1..]);
      assert s == [s[0]] + s[1..];
    }
  }

  lemma {:induction false} InsertSorted<T>(key: T -> int, x: T, s: seq<T>)
    requires Sorted(key, s)
    ensures Sorted(key, Insert(key, x, s))
  {
    if s != [] && key(x) > key(s[0]) {
      InsertSorted(key, x, s[1..]);
      InsertKeeps(key, x, s[1..]);
      var r := Insert(key, x, s[1..]);
      forall y | y in r
        ensures key(s[0]) <= key(y)
      {
        assert y in multiset(r);
        assert y == x || y in s[1..];
      }
    }
  }

  lemma {:induction false} InsertStable<T>(key: T -> int, x: T, s: seq<T>, k: int)
    ensures WithKey(key, Insert(key, x, s), k) == (if key(x) == k then [x] else []) + WithKey(key, s, k)
  {
    if s == [] {
    } else if key(x) <= key(s[0]) {
      assert ([x] + s)[1..] == s;
    } else {
      InsertStable(key, x, s[1..], k);
      assert ([s[0]] + Insert(key, x, s[1..]))[1..] == Insert(key, x, s[1..]);
    }
  }

  /** Sorting orders by key, keeps every element and keeps equal keys in order. */
  lemma {:induction false} SortBySorts<T>(key: T -> int, s: seq<T>)
    ensures Sorted(key, SortBy(key, s))
    ensures multiset(SortBy(key, s)) == multiset(s)
    ensures forall k :: WithKey(key, SortBy(key, s), k) == WithKey(key, s, k)
  {
    if s != [] {
      SortBySorts(key, s[1..]);
      InsertSorted(key, s[0], SortBy(key, s[1..]));
      InsertKeeps(key, s[0], SortBy(key, s[1..]));
      assert s == [s[0]] + s[1..];
      forall k
        ensures WithKey(key, SortBy(key, s), k) == WithKey(key, s, k)
      {
        InsertStable(key, s[0], SortBy(key, s[1..]), k);
      }
    }
  }

  function Self(n: nat): (k: int) { n }

  /** Numbers in ascending order. */
  function Ascending(s: seq<nat>): (r: seq<nat>) { SortBy(Self, s) }

  lemma {:induction false} AscendingSorts(s: seq<nat>)
    ensures multiset(Ascending(s)) == multiset(s)
    ensures forall i, j :: 0 <= i < j < |Ascending(s)| ==> Ascending(s)[i] <= Ascending(s)[j]
  {
    SortBySorts(Self, s);
    var r := Ascending(s);
    forall i, j | 0 <= i < j < |r|
      ensures r[i] <= r[j]
    {
      assert Self(r[i]) <= Self(r[j]);
    }
  }
}
