/**
 * An insertion-ordered counter: Python's `Counter` and the `dict` counters that are
 * incremented with `d[k] = d.get(k, 0) + 1`. Keys keep the order of their first
 * increment, as Python dictionaries do, which `max` over `items()` observes.
 */
module Tally {
  import opened Wrappers

  datatype Entry = Entry(key: string, count: nat)

  type Counts = seq<Entry>

  /** `counts.get(k, 0)`. */
  function Get(t: Counts, k: string): nat {
    if t == [] then 0 else if t[0].key == k then t[0].count else Get(t[1..], k)
  }

  /** The sum of all counts (`sum(counts.values())`). */
  function Total(t: Counts): nat {
    if t == [] then 0 else t[0].count + Total(t[1..])
  }

  predicate HasKey(t: Counts, k: string) {
    exists i :: 0 <= i < |t| && t[i].key == k
  }

  ghost predicate DistinctKeys(t: Counts) {
    forall i, j :: 0 <= i < j < |t| ==> t[i].key != t[j].key
  }

  ghost predicate Positive(t: Counts) {
    forall i :: 0 <= i < |t| ==> t[i].count >= 1
  }

  /** `counts[k] += 1`: an existing key keeps its place, a new key goes last with count 1. */
  function Bump(t: Counts, k: string): Counts {
    if t == [] then [Entry(k, 1)]
    else if t[0].key == k then [Entry(k, t[0].count + 1)] + t[1..]
    else [t[0]] + Bump(t[1..], k)
  }

  lemma {:induction false} HasKeyTail(t: Counts, k: string)
    requires t != [] && t[0].key != k
    ensures HasKey(t, k) <==> HasKey(t[1..], k)
  {
    if HasKey(t, k) {
      var i :| 0 <= i < |t| && t[i].key == k;
      assert t[1..][i - 1].key == k;
    }
    if HasKey(t[1..], k) {
      var i :| 0 <= i < |t[1..]| && t[1..][i].key == k;
      assert t[i + 1].key == k;
    }
  }

  /** Bumping keeps every key in place without lowering its count, and appends a missing key with count 1. */
  lemma {:induction false} BumpEntries(t: Counts, k: string)
    ensures |Bump(t, k)| == if HasKey(t, k) then |t| else |t| + 1
    ensures forall i :: 0 <= i < |t| ==> Bump(t, k)[i].key == t[i].key && Bump(t, k)[i].count >= t[i].count
    ensures !HasKey(t, k) ==> Bump(t, k)[|t|] == Entry(k, 1)
  {
    if t != [] && t[0].key != k {
      BumpEntries(t[1..], k);
      HasKeyTail(t, k);
    } else if t != [] {
      assert t[0].key == k;
    }
  }

  /** Bumping a key adds one to its count and to the total, and changes no other count. */
  lemma {:induction false} BumpCounts(t: Counts, k: string)
    ensures Get(Bump(t, k), k) == Get(t, k) + 1
    ensures forall x :: x != k ==> Get(Bump(t, k), x) == Get(t, x)
    ensures Total(Bump(t, k)) == Total(t) + 1
  {
    if t != [] && t[0].key != k {
      BumpCounts(t[1..], k);
    }
  }

  /** Bumping keeps keys distinct and counts positive. */
  lemma {:induction false} BumpShape(t: Counts, k: string)
    requires DistinctKeys(t) && Positive(t)
    ensures DistinctKeys(Bump(t, k)) && Positive(Bump(t, k))
  {
    var r := Bump(t, k);
    BumpEntries(t, k);
    forall i, j | 0 <= i < j < |r| ensures r[i].key != r[j].key {
      if j == |t| {
        assert r[j].key == k;
      }
    }
  }

  /** `list.count(k)`. */
  function Occurrences(ks: seq<string>, k: string): nat {
    if ks == [] then 0 else Occurrences(ks[..|ks| - 1], k) + (if ks[|ks| - 1] == k then 1 else 0)
  }

  lemma {:induction false} OccurrencesMember(ks: seq<string>, i: nat)
    requires i < |ks|
    ensures Occurrences(ks, ks[i]) >= 1
  {
    if i < |ks| - 1 {
      OccurrencesMember(ks[..|ks| - 1], i);
    }
  }

  /** `Counter(ks)`: the keys counted one after the other, left to right. */
  function OfKeys(ks: seq<string>): Counts {
    if ks == [] then [] else Bump(OfKeys(ks[..|ks| - 1]), ks[|ks| - 1])
  }

  /** A counter built from a list counts every key as often as it occurs, and sums to the list's length. */
  lemma {:induction false} OfKeysCounts(ks: seq<string>)
    ensures forall k :: Get(OfKeys(ks), k) == Occurrences(ks, k)
    ensures Total(OfKeys(ks)) == |ks|
    ensures DistinctKeys(OfKeys(ks)) && Positive(OfKeys(ks))
  {
    if ks != [] {
      var init := ks[..|ks| - 1];
      OfKeysCounts(init);
      BumpCounts(OfKeys(init), ks[|ks| - 1]);
      BumpShape(OfKeys(init), ks[|ks| - 1]);
    }
  }

  /** Index of the entry Python's `max(t.items(), key=count)` returns: the first of the largest counts. */
  function MostCommonIndex(t: Counts): (m: nat)
    requires t != []
    ensures m < |t|
    ensures forall j :: 0 <= j < |t| ==> t[j].count <= t[m].count
    ensures forall j :: 0 <= j < m ==> t[j].count < t[m].count
  {
    if |t| == 1 then 0
    else
      var m := MostCommonIndex(t[1..]) + 1;
      if t[m].count > t[0].count then m else 0
  }

  /** The most common entry, or `None` for an empty counter. */
  function MostCommon(t: Counts): (r: Option<Entry>)
    ensures r.None? <==> t == []
    ensures r.Some? ==> exists m :: 0 <= m < |t| && r.value == t[m]
                                    && (forall j :: 0 <= j < |t| ==> t[j].count <= t[m].count)
                                    && (forall j :: 0 <= j < m ==> t[j].count < t[m].count)
  {
    if t == [] then None else Some(t[MostCommonIndex(t)])
  }
}
