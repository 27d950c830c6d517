/** Python's stable `list.sort` / `sorted` by an integer key, modelled on
    positions: position `x` is placed before position `y` when its key is
    smaller, or the keys are equal and `x` comes first in the original list.
    Sorting positions rather than elements also gives back, for every element
    of the sorted copy, the position it had in the original list (what
    `list.index` finds by object identity). */
module Sorting {

  /** `x` precedes `y` in a stable ascending sort by `keys`. */
  predicate Before(keys: seq<int>, x: nat, y: nat)
    requires x < |keys| && y < |keys|
  {
    keys[x] < keys[y] || (keys[x] == keys[y] && x < y)
  }

  /** The positions i, i+1, ..., n-1. */
  function Range(i: nat, n: nat): (r: seq<nat>)
    ensures |r| == if i < n then n - i else 0
    ensures forall k :: 0 <= k < |r| ==> r[k] == i + k
    decreases n - i
  {
    if i >= n then [] else [i] + Range(i + 1, n)
  }

  lemma {:induction false} RangeMembers(i: nat, n: nat)
    ensures forall x: nat :: x in Range(i, n) <==> i <= x < n
    decreases n - i
  {
    if i < n {
      RangeMembers(i + 1, n);
    }
  }

  /** Every position of `s` is a position of `keys`, and `s` lists them in
      stable sorted order. */
  predicate Ordered(keys: seq<int>, s: seq<nat>)
  {
    && (forall k :: 0 <= k < |s| ==> s[k] < |keys|)
    && (forall a, b :: 0 <= a < b < |s| ==> Before(keys, s[a], s[b]))
  }

  /** In an ordered list every earlier position precedes position `s[i]`. */
  lemma OrderedBefore(keys: seq<int>, s: seq<nat>, i: nat)
    requires Ordered(keys, s) && i < |s|
    ensures forall a :: 0 <= a < i ==> Before(keys, s[a], s[i])
  {
  }

  /** Inserts position `x` in front of the first position whose key is not
      smaller than its own. */
  function InsertPosition(keys: seq<int>, x: nat, s: seq<nat>): (r: seq<nat>)
    requires x < |keys|
    requires forall k :: 0 <= k < |s| ==> s[k] < |keys|
    ensures multiset(r) == multiset(s) + multiset{x}
    ensures forall k :: 0 <= k < |r| ==> r[k] < |keys|
    ensures forall k :: 0 <= k < |r| ==> r[k] == x || r[k] in s
  {
    if s == [] || keys[x] <= keys[s[0]] then [x] + s
    else
      assert s == [s[0]] + s[1..];
      [s[0]] + InsertPosition(keys, x, s[1..])
  }

  lemma {:induction false} InsertOrdered(keys: seq<int>, x: nat, s: seq<nat>)
    requires x < |keys| && Ordered(keys, s)
    requires forall k :: 0 <= k < |s| ==> x < s[k]
    ensures Ordered(keys, InsertPosition(keys, x, s))
  {
    if s == [] || keys[x] <= keys[s[0]] {
      assert InsertPosition(keys, x, s) == [x] + s;
      ConsOrdered(keys, x, s);
    } else {
      var t := s[1..];
      InsertOrdered(keys, x, t);
      var it := InsertPosition(keys, x, t);
      assert InsertPosition(keys, x, s) == [s[0]] + it;
      forall b | 0 <= b < |it| ensures Before(keys, s[0], it[b]) {
        if it[b] != x {
          var j :| 0 <= j < |t| && t[j] == it[b];
          assert Before(keys, s[0], s[j + 1]);
        }
      }
      ConsOrdered(keys, s[0], it);
    }
  }

  /** A position that precedes every position of an ordered list can be put
      in front of it. */
  lemma ConsOrdered(keys: seq<int>, x: nat, s: seq<nat>)
    requires x < |keys| && Ordered(keys, s)
    requires forall b :: 0 <= b < |s| ==> Before(keys, x, s[b])
    ensures Ordered(keys, [x] + s)
  {
    var r := [x] + s;
    forall a, b | 0 <= a < b < |r| ensures Before(keys, r[a], r[b]) {
      if a == 0 {
        assert r[b] == s[b - 1];
      } else {
        assert r[a] == s[a - 1] && r[b] == s[b - 1];
      }
    }
  }

  /** Stable sort of the positions i, ..., |keys|-1, one insertion at a time. */
  function SortFrom(keys: seq<int>, i: nat): (r: seq<nat>)
    ensures multiset(r) == multiset(Range(i, |keys|))
    ensures forall k :: 0 <= k < |r| ==> i <= r[k] < |keys|
    decreases |keys| - i
  {
    if i >= |keys| then []
    else
      var rest := SortFrom(keys, i + 1);
      assert Range(i, |keys|) == [i] + Range(i + 1, |keys|);
      InsertPosition(keys, i, rest)
  }

  lemma {:induction false} SortFromOrdered(keys: seq<int>, i: nat)
    ensures Ordered(keys, SortFrom(keys, i))
    decreases |keys| - i
  {
    if i < |keys| {
      SortFromOrdered(keys, i + 1);
      InsertOrdered(keys, i, SortFrom(keys, i + 1));
    }
  }

  /** The positions of `keys` in the order a stable sort by key puts them:
      every position exactly once, in `Before` order. */
  function SortPositions(keys: seq<int>): (r: seq<nat>)
    ensures |r| == |keys|
    ensures multiset(r) == multiset(Range(0, |keys|))
    ensures forall x: nat :: x < |keys| ==> x in r
    ensures Ordered(keys, r)
  {
    SortFromOrdered(keys, 0);
    RangeMembers(0, |keys|);
    var r := SortFrom(keys, 0);
    assert |multiset(r)| == |r|;
    forall x: nat | x < |keys| ensures x in r {
      assert x in Range(0, |keys|);
      assert x in multiset(Range(0, |keys|));
    }
    r
  }

  /** On keys already in ascending order the sort leaves every position where it is. */
  lemma {:induction false} SortFromSorted(keys: seq<int>, i: nat)
    requires forall k :: 0 <= k < |keys| - 1 ==> keys[k] <= keys[k + 1]
    ensures SortFrom(keys, i) == Range(i, |keys|)
    decreases |keys| - i
  {
    if i < |keys| {
      SortFromSorted(keys, i + 1);
    }
  }

  lemma SortPositionsSorted(keys: seq<int>)
    requires forall k :: 0 <= k < |keys| - 1 ==> keys[k] <= keys[k + 1]
    ensures SortPositions(keys) == Range(0, |keys|)
  {
    SortFromSorted(keys, 0);
  }
}
