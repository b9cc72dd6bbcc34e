/** Sorting by a price. Go's `sort.Sort` is not stable, so it appears here as an arbitrary
    function returning a sorted permutation; `sort.SliceStable` has one possible result,
    which the insertion sort below computes. */
module Sorting {

  ghost predicate SortedBy<T>(s: seq<T>, key: T -> real) {
    forall i, j :: 0 <= i < j < |s| ==> key(s[i]) <= key(s[j])
  }

  ghost predicate SortedPermutation<T>(s: seq<T>, t: seq<T>, key: T -> real) {
    multiset(s) == multiset(t) && SortedBy(t, key)
  }

  /** What `sort.Sort` promises, whatever it does with equal keys. */
  ghost predicate IsSorter<T(!new)>(sort: seq<T> -> seq<T>, key: T -> real) {
    forall s :: SortedPermutation(s, sort(s), key)
  }

  /** Puts x behind every element whose key is not greater. */
  function Insert<T>(s: seq<T>, x: T, key: T -> real): seq<T> {
    if s == [] || key(s[|s| - 1]) <= key(x) then s + [x]
    else Insert(s[..|s| - 1], x, key) + [s[|s| - 1]]
  }

  /** The stable sort: elements are inserted in order, each behind its equals. */
  function StableSort<T>(s: seq<T>, key: T -> real): seq<T> {
    if s == [] then []
    else Insert(StableSort(s[..|s| - 1], key), s[|s| - 1], key)
  }

  lemma {:induction false} InsertPermutes<T>(s: seq<T>, x: T, key: T -> real)
    ensures multiset(Insert(s, x, key)) == multiset(s) + multiset{x}
  {
    if s == [] || key(s[|s| - 1]) <= key(x) {
    } else {
      InsertPermutes(s[..|s| - 1], x, key);
      assert s == s[..|s| - 1] + [s[|s| - 1]];
    }
  }

  lemma {:induction false} InsertSorts<T>(s: seq<T>, x: T, key: T -> real)
    requires SortedBy(s, key)
    ensures SortedBy(Insert(s, x, key), key)
  {
    if s == [] || key(s[|s| - 1]) <= key(x) {
    } else {
      InsertSorts(s[..|s| - 1], x, key);
      InsertPermutes(s[..|s| - 1], x, key);
      BoundedByLast(s, Insert(s[..|s| - 1], x, key), x, key);
    }
  }

  lemma BoundedByLast<T>(s: seq<T>, t: seq<T>, x: T, key: T -> real)
    requires s != [] && SortedBy(s, key) && key(x) <= key(s[|s| - 1])
    requires multiset(t) == multiset(s[..|s| - 1]) + multiset{x}
    ensures forall i :: 0 <= i < |t| ==> key(t[i]) <= key(s[|s| - 1])
  {
    forall i | 0 <= i < |t| ensures key(t[i]) <= key(s[|s| - 1]) {
      assert t[i] in multiset(t);
      assert t[i] in s[..|s| - 1] || t[i] == x;
    }
  }

  lemma {:induction false} StableSortSorts<T>(s: seq<T>, key: T -> real)
    ensures SortedPermutation(s, StableSort(s, key), key)
  {
    if s != [] {
      var n := |s| - 1;
      StableSortSorts(s[..n], key);
      InsertSorts(StableSort(s[..n], key), s[n], key);
      InsertPermutes(StableSort(s[..n], key), s[n], key);
      assert s == s[..n] + [s[n]];
    }
  }

  /** The elements with key p, in order. */
  function WithKey<T>(s: seq<T>, key: T -> real, p: real): seq<T> {
    if s == [] then [] else WithKey(s[..|s| - 1], key, p) + if key(s[|s| - 1]) == p then [s[|s| - 1]] else []
  }

  lemma {:induction false} InsertIsStable<T>(s: seq<T>, x: T, key: T -> real, p: real)
    requires SortedBy(s, key)
    ensures WithKey(Insert(s, x, key), key, p) == WithKey(s, key, p) + if key(x) == p then [x] else []
  {
    if s != [] && key(x) < key(s[|s| - 1]) {
      InsertIsStable(s[..|s| - 1], x, key, p);
      var last := s[|s| - 1];
      if key(x) == p { assert WithKey(s, key, p) == WithKey(s[..|s| - 1], key, p); }
      assert (Insert(s[..|s| - 1], x, key) + [last])[..|Insert(s[..|s| - 1], x, key)|] == Insert(s[..|s| - 1], x, key);
    } else {
      assert (s + [x])[..|s|] == s;
    }
  }

  /** Elements with equal keys keep their order. */
  lemma {:induction false} StableSortIsStable<T>(s: seq<T>, key: T -> real, p: real)
    ensures WithKey(StableSort(s, key), key, p) == WithKey(s, key, p)
  {
    if s != [] {
      var n := |s| - 1;
      StableSortIsStable(s[..n], key, p);
      StableSortSorts(s[..n], key);
      InsertIsStable(StableSort(s[..n], key), s[n], key, p);
    }
  }
}
