/**
 * Python's `sorted(xs, key=...)`: a stable sort. Modelled as an insertion sort that
 * places each element before the elements of equal key that follow it in the input.
 * Keys are reals so that one sort serves integer lengths, GC percentages and records.
 */
module Sorting {

  ghost predicate SortedBy<T>(s: seq<T>, key: T -> real) {
    forall i, j :: 0 <= i < j < |s| ==> key(s[i]) <= key(s[j])
  }

  /** Sorted by `key`, and elements of equal key in increasing `rank`. */
  ghost predicate StablySortedBy<T>(s: seq<T>, key: T -> real, rank: T -> int) {
    forall i, j :: 0 <= i < j < |s| ==>
      key(s[i]) < key(s[j]) || (key(s[i]) == key(s[j]) && rank(s[i]) < rank(s[j]))
  }

  function Insert<T>(x: T, s: seq<T>, key: T -> real): (r: seq<T>)
    ensures |r| == |s| + 1
    ensures multiset(r) == multiset(s) + multiset{x}
  {
    if s == [] || key(x) <= key(s[0]) then [x] + s
    else
      assert s == [s[0]] + s[1..];
      [s[0]] + Insert(x, s[1..], key)
  }

  function SortBy<T>(s: seq<T>, key: T -> real): (r: seq<T>)
    ensures |r| == |s|
    ensures multiset(r) == multiset(s)
  {
    if s == [] then []
    else
      assert s == [s[0]] + s[1..];
      Insert(s[0], SortBy(s[1..], key), key)
  }

  lemma {:induction false} InsertMembers<T>(x: T, s: seq<T>, key: T -> real)
    ensures forall j :: 0 <= j < |Insert(x, s, key)| ==> Insert(x, s, key)[j] == x || Insert(x, s, key)[j] in s
  {
    if s != [] && key(x) > key(s[0]) {
      InsertMembers(x, s[1..], key);
      assert s == [s[0]] + s[1..];
    }
  }

  lemma {:induction false} InsertSorted<T>(x: T, s: seq<T>, key: T -> real)
    requires SortedBy(s, key)
    ensures SortedBy(Insert(x, s, key), key)
  {
    if s != [] && key(x) > key(s[0]) {
      InsertSorted(x, s[1..], key);
      InsertMembers(x, s[1..], key);
      var r := Insert(x, s[1..], key);
      assert Insert(x, s, key) == [s[0]] + r;
      forall j | 0 <= j < |r| ensures key(s[0]) <= key(r[j]) {
        if r[j] != x {
          var k :| 0 <= k < |s[1..]| && s[1..][k] == r[j];
          assert s[k + 1] == r[j];
        }
      }
    }
  }

  /** The sort puts its input in order of key, and is a permutation of it. */
  lemma {:induction false} SortBySorted<T>(s: seq<T>, key: T -> real)
    ensures SortedBy(SortBy(s, key), key)
  {
    if s != [] {
      SortBySorted(s[1..], key);
      InsertSorted(s[0], SortBy(s[1..], key), key);
    }
  }

  lemma {:induction false} InsertStable<T>(x: T, s: seq<T>, key: T -> real, rank: T -> int)
    requires StablySortedBy(s, key, rank)
    requires forall z :: z in s ==> rank(x) < rank(z)
    ensures StablySortedBy(Insert(x, s, key), key, rank)
  {
    if s != [] && key(x) > key(s[0]) {
      InsertStable(x, s[1..], key, rank);
      InsertMembers(x, s[1..], key);
      var r := Insert(x, s[1..], key);
      assert Insert(x, s, key) == [s[0]] + r;
      forall j | 0 <= j < |r|
        ensures key(s[0]) < key(r[j]) || (key(s[0]) == key(r[j]) && rank(s[0]) < rank(r[j]))
      {
        if r[j] != x {
          var k :| 0 <= k < |s[1..]| && s[1..][k] == r[j];
          assert s[k + 1] == r[j];
        }
      }
    }
  }

  /**
   * Stability: when the input is in increasing `rank`, elements of equal key leave
   * the sort in increasing `rank`, that is, in their input order.
   */
  lemma {:induction false} SortByStable<T>(s: seq<T>, key: T -> real, rank: T -> int)
    requires forall i, j :: 0 <= i < j < |s| ==> rank(s[i]) < rank(s[j])
    ensures StablySortedBy(SortBy(s, key), key, rank)
  {
    if s != [] {
      SortByStable(s[1..], key, rank);
      var t := SortBy(s[1..], key);
      forall z | z in t ensures rank(s[0]) < rank(z) {
        assert z in multiset(t);
        assert z in multiset(s[1..]);
        var k :| 0 <= k < |s[1..]| && s[1..][k] == z;
        assert s[k + 1] == z;
      }
      InsertStable(s[0], t, key, rank);
    }
  }
}
