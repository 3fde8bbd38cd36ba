/** Sorting by a numeric key, as `sort_values` and the median need it. */
module Sorting {

  /** `s` is in non-decreasing order of `key`. */
  ghost predicate SortedBy<T>(s: seq<T>, key: T -> real)
  {
    forall i, j :: 0 <= i < j < |s| ==> key(s[i]) <= key(s[j])
  }

  /** Inserts `x` before the first element whose key is not smaller. */
  function Insert<T>(x: T, s: seq<T>, key: T -> real): seq<T>
  {
    if s == [] then [x]
    else if key(x) <= key(s[0]) then [x] + s
    else [s[0]] + Insert(x, s[1..], key)
  }

  /** Inserting adds exactly `x` to the elements. */
  lemma {:induction false} InsertPermutation<T>(x: T, s: seq<T>, key: T -> real)
    ensures multiset(Insert(x, s, key)) == multiset(s) + multiset{x}
  {
    if s != [] && key(x) > key(s[0]) {
      assert s == [s[0]] + s[1..];
      InsertPermutation(x, s[1..], key);
    }
  }

  /** An element no greater than every element of a sorted sequence can go in front of it. */
  lemma SortedCons<T>(a: T, t: seq<T>, key: T -> real)
    requires SortedBy(t, key)
    requires forall e :: e in t ==> key(a) <= key(e)
    ensures SortedBy([a] + t, key)
  {
    var r := [a] + t;
    forall i, j | 0 <= i < j < |r| ensures key(r[i]) <= key(r[j]) {
      assert r[j] == t[j - 1];
      if i > 0 {
        assert r[i] == t[i - 1];
      }
    }
  }

  /** The elements of an insertion are `x` and those of `s`. */
  lemma {:induction false} InsertMembers<T>(x: T, s: seq<T>, key: T -> real, e: T)
    ensures e in Insert(x, s, key) <==> e == x || e in s
  {
    if s != [] && key(x) > key(s[0]) {
      InsertMembers(x, s[1..], key, e);
      assert s == [s[0]] + s[1..];
    }
  }

  /** Inserting into a sorted sequence keeps it sorted. */
  lemma {:induction false} InsertSorted<T>(x: T, s: seq<T>, key: T -> real)
    requires SortedBy(s, key)
    ensures SortedBy(Insert(x, s, key), key)
  {
    if s == [] {
    } else if key(x) <= key(s[0]) {
      SortedCons(x, s, key);
    } else {
      var tail := s[1..];
      assert SortedBy(tail, key);
      InsertSorted(x, tail, key);
      forall e | e in tail ensures key(s[0]) <= key(e) {
        var j :| 0 <= j < |tail| && tail[j] == e;
        assert s[j + 1] == e;
      }
      var t := Insert(x, tail, key);
      forall e | e in t ensures key(s[0]) <= key(e) {
        InsertMembers(x, tail, key, e);
      }
      SortedCons(s[0], Insert(x, tail, key), key);
    }
  }

  /**
   * Sorts by `key` (insertion sort). Which of two elements with equal keys
   * comes first is left unspecified by `SortByOrderedPermutation`.
   */
  function SortBy<T>(xs: seq<T>, key: T -> real): seq<T>
  {
    if xs == [] then [] else Insert(xs[0], SortBy(xs[1..], key), key)
  }

  /** The result is in key order and holds exactly the input's elements, as often as they occur. */
  lemma {:induction false} SortByOrderedPermutation<T>(xs: seq<T>, key: T -> real)
    ensures SortedBy(SortBy(xs, key), key)
    ensures multiset(SortBy(xs, key)) == multiset(xs)
    ensures |SortBy(xs, key)| == |xs|
  {
    if xs != [] {
      assert xs == [xs[0]] + xs[1..];
      SortByOrderedPermutation(xs[1..], key);
      InsertSorted(xs[0], SortBy(xs[1..], key), key);
      InsertPermutation(xs[0], SortBy(xs[1..], key), key);
    }
    assert |multiset(SortBy(xs, key))| == |multiset(xs)|;
  }
}
