/** Coalescing of free fragments (`ProcessLine.recalculateSpace`): a pass
    that joins every two free fragments that are neighbours IN THE LIST, then
    a stable sort of the list by start position.

    Joining list neighbours rather than memory neighbours is what the code
    does. When the list is sorted and contiguous the two coincide; otherwise
    (a split remainder is appended at the back of the list) the joined
    fragment can claim cells it does not cover. The total of the lengths is
    kept either way. */
module Coalesce {
  import opened Memory
  import Sorting

  /** Joins a fragment with the one after it: the lengths add up and the end
      is taken from the second, whatever lies between them. */
  function Merge(current: PageSpace, next: PageSpace): (r: PageSpace)
    ensures r.start == current.start && r.end == next.end && r.process == current.process
    ensures r.space == current.space + next.space
  {
    current.Resize(current.space + next.space).(end := next.end)
  }

  /** The list after joining positions `i` and `i + 1` (overwrite, then delete). */
  function JoinAt(pages: seq<PageSpace>, i: nat): (r: seq<PageSpace>)
    requires i + 1 < |pages|
    ensures |r| == |pages| - 1
    ensures Total(r) == Total(pages)
    ensures Occupants(r) + Held(pages[i + 1]) == Occupants(pages)
    ensures r[i] == Merge(pages[i], pages[i + 1])
    ensures forall k :: 0 <= k < i ==> r[k] == pages[k]
    ensures forall k :: i < k < |r| ==> r[k] == pages[k + 1]
  {
    var q := pages[i := Merge(pages[i], pages[i + 1])];
    var r := q[..i + 1] + q[i + 2..];
    TotalUpdate(pages, i, q[i]);
    RemoveAt(q, i + 1);
    JoinAtOccupants(pages, i, q);
    JoinAtShape(pages, i, q, r);
    r
  }

  /** Overwriting position `i` and deleting position `i + 1` keeps every
      other fragment, shifted down by one past `i`. */
  lemma JoinAtShape(pages: seq<PageSpace>, i: nat, q: seq<PageSpace>, r: seq<PageSpace>)
    requires i + 1 < |pages| && q == pages[i := Merge(pages[i], pages[i + 1])]
    requires r == q[..i + 1] + q[i + 2..]
    ensures |r| == |pages| - 1
    ensures r[i] == Merge(pages[i], pages[i + 1])
    ensures forall k :: 0 <= k < i ==> r[k] == pages[k]
    ensures forall k :: i < k < |r| ==> r[k] == pages[k + 1]
  {
    DropAt(q, i + 1, r);
  }

  /** Deleting position `j` shifts everything after it down by one. */
  lemma DropAt(q: seq<PageSpace>, j: nat, r: seq<PageSpace>)
    requires j < |q| && r == q[..j] + q[j + 1..]
    ensures |r| == |q| - 1
    ensures forall k :: 0 <= k < j ==> r[k] == q[k]
    ensures forall k :: j <= k < |r| ==> r[k] == q[k + 1]
  {
  }

  /** The joined fragment keeps the first one's occupant, so the join loses
      only the second one's. */
  lemma JoinAtOccupants(pages: seq<PageSpace>, i: nat, q: seq<PageSpace>)
    requires i + 1 < |pages| && q == pages[i := Merge(pages[i], pages[i + 1])]
    ensures Occupants(q[..i + 1] + q[i + 2..]) + Held(pages[i + 1]) == Occupants(pages)
  {
    OccupantsUpdate(pages, i, q[i]);
    Cancel(Occupants(q), Occupants(pages), Held(pages[i]));
    RemoveAtOccupants(q, i + 1);
  }

  /** The merge pass of `recalculateSpace` from position `i` on: join the
      fragment at `i` with the next while both are free, otherwise move on.
      Only free fragments are joined, so every occupied fragment passes
      through unchanged and no process is lost. */
  function MergeFrom(pages: seq<PageSpace>, i: nat): (r: seq<PageSpace>)
    ensures |r| <= |pages|
    ensures Total(r) == Total(pages)
    ensures Occupants(r) == Occupants(pages)
    ensures HasFree(pages) ==> HasFree(r)
    decreases |pages| - i
  {
    if i + 1 >= |pages| then pages
    else if pages[i].IsFree() && pages[i + 1].IsFree() then
      var joined := JoinAt(pages, i);
      assert joined[i].IsFree();
      MergeFrom(joined, i)
    else MergeFrom(pages, i + 1)
  }

  /** One step of the merge pass, as the loop of `recalculateSpace` takes it. */
  lemma MergeFromStep(pages: seq<PageSpace>, i: nat)
    ensures i + 1 >= |pages| ==> MergeFrom(pages, i) == pages
    ensures i + 1 < |pages| && pages[i].IsFree() && pages[i + 1].IsFree() ==>
      MergeFrom(pages, i) == MergeFrom(JoinAt(pages, i), i)
    ensures i + 1 < |pages| && !(pages[i].IsFree() && pages[i + 1].IsFree()) ==>
      MergeFrom(pages, i) == MergeFrom(pages, i + 1)
  {
  }

  function Starts(pages: seq<PageSpace>): (r: seq<int>)
    ensures |r| == |pages|
    ensures forall k :: 0 <= k < |r| ==> r[k] == pages[k].start
  {
    seq(|pages|, k requires 0 <= k < |pages| => pages[k].start)
  }

  /** The fragments at the given positions, in that order. */
  function Gather(pages: seq<PageSpace>, positions: seq<nat>): (r: seq<PageSpace>)
    requires forall k :: 0 <= k < |positions| ==> positions[k] < |pages|
    ensures |r| == |positions|
    ensures forall k :: 0 <= k < |r| ==> r[k] == pages[positions[k]]
  {
    seq(|positions|, k requires 0 <= k < |positions| => pages[positions[k]])
  }

  lemma {:induction false} GatherInsert(pages: seq<PageSpace>, keys: seq<int>, x: nat, s: seq<nat>)
    requires |keys| == |pages| && x < |keys|
    requires forall k :: 0 <= k < |s| ==> s[k] < |keys|
    ensures multiset(Gather(pages, Sorting.InsertPosition(keys, x, s)))
         == multiset(Gather(pages, s)) + multiset{pages[x]}
  {
    var r := Sorting.InsertPosition(keys, x, s);
    if s == [] || keys[x] <= keys[s[0]] {
      assert r == [x] + s;
      GatherCons(pages, x, s);
    } else {
      var t := Sorting.InsertPosition(keys, x, s[1..]);
      assert r == [s[0]] + t;
      GatherInsert(pages, keys, x, s[1..]);
      GatherKeepHead(pages, x, s, t);
    }
  }

  /** Putting the head of `s` back in front of `t` keeps `t`'s relation to
      the tail of `s`. */
  lemma GatherKeepHead(pages: seq<PageSpace>, x: nat, s: seq<nat>, t: seq<nat>)
    requires s != [] && x < |pages|
    requires forall k :: 0 <= k < |s| ==> s[k] < |pages|
    requires forall k :: 0 <= k < |t| ==> t[k] < |pages|
    requires multiset(Gather(pages, t)) == multiset(Gather(pages, s[1..])) + multiset{pages[x]}
    ensures multiset(Gather(pages, [s[0]] + t)) == multiset(Gather(pages, s)) + multiset{pages[x]}
  {
    assert s == [s[0]] + s[1..];
    GatherCons(pages, s[0], s[1..]);
    GatherCons(pages, s[0], t);
  }

  lemma GatherCons(pages: seq<PageSpace>, x: nat, s: seq<nat>)
    requires x < |pages| && forall k :: 0 <= k < |s| ==> s[k] < |pages|
    ensures multiset(Gather(pages, [x] + s)) == multiset{pages[x]} + multiset(Gather(pages, s))
  {
    assert Gather(pages, [x] + s) == [pages[x]] + Gather(pages, s);
  }

  lemma {:induction false} GatherSortFrom(pages: seq<PageSpace>, keys: seq<int>, i: nat)
    requires |keys| == |pages| && i <= |pages|
    ensures multiset(Gather(pages, Sorting.SortFrom(keys, i))) == multiset(pages[i..])
    decreases |keys| - i
  {
    if i < |keys| {
      GatherSortFrom(pages, keys, i + 1);
      GatherSortFromStep(pages, keys, i);
    } else {
      assert Gather(pages, []) == [];
    }
  }

  lemma GatherSortFromStep(pages: seq<PageSpace>, keys: seq<int>, i: nat)
    requires |keys| == |pages| && i < |pages|
    requires multiset(Gather(pages, Sorting.SortFrom(keys, i + 1))) == multiset(pages[i + 1..])
    ensures multiset(Gather(pages, Sorting.SortFrom(keys, i))) == multiset(pages[i..])
  {
    var rest := Sorting.SortFrom(keys, i + 1);
    assert multiset(Gather(pages, Sorting.SortFrom(keys, i)))
        == multiset(Gather(pages, rest)) + multiset{pages[i]} by {
      assert Sorting.SortFrom(keys, i) == Sorting.InsertPosition(keys, i, rest);
      GatherInsert(pages, keys, i, rest);
    }
    MultisetSuffix(pages, i);
  }

  lemma MultisetSuffix(pages: seq<PageSpace>, i: nat)
    requires i < |pages|
    ensures multiset(pages[i..]) == multiset{pages[i]} + multiset(pages[i + 1..])
  {
    assert pages[i..] == [pages[i]] + pages[i + 1..];
  }

  /** Fragments in ascending order of start position. */
  predicate Sorted(pages: seq<PageSpace>)
  {
    forall k :: 0 <= k < |pages| - 1 ==> pages[k].start <= pages[k + 1].start
  }

  /** Every fragment's end agrees with its length, and each fragment starts
      right after the one before it ends: no gap, no overlap. */
  predicate Contiguous(pages: seq<PageSpace>)
  {
    && (forall k :: 0 <= k < |pages| ==> pages[k].WellFormed())
    && (forall k :: 0 <= k < |pages| - 1 ==> pages[k].end + 1 == pages[k + 1].start)
  }

  /** No two neighbouring fragments are both free. */
  predicate Coalesced(pages: seq<PageSpace>)
  {
    forall k :: 0 <= k < |pages| - 1 ==> !(pages[k].IsFree() && pages[k + 1].IsFree())
  }

  /** Python's stable `sort(key=start_position)`: a permutation of the list in
      ascending start order, equal starts kept in list order. */
  function SortByStart(pages: seq<PageSpace>): (r: seq<PageSpace>)
    ensures |r| == |pages|
    ensures multiset(r) == multiset(pages)
    ensures Sorted(r)
  {
    var keys := Starts(pages);
    var order := Sorting.SortPositions(keys);
    GatherSorted(pages, keys, order);
    Gather(pages, order)
  }

  lemma GatherSorted(pages: seq<PageSpace>, keys: seq<int>, order: seq<nat>)
    requires keys == Starts(pages) && order == Sorting.SortPositions(keys)
    ensures multiset(Gather(pages, order)) == multiset(pages)
    ensures Sorted(Gather(pages, order))
  {
    GatherSortFrom(pages, keys, 0);
    assert pages[0..] == pages;
    var r := Gather(pages, order);
    forall k | 0 <= k < |r| - 1 ensures r[k].start <= r[k + 1].start {
      assert Sorting.Before(keys, order[k], order[k + 1]);
    }
  }

  /** `recalculateSpace`: the merge pass, then the sort. Every occupied
      fragment is still there, and the occupants are the same. */
  function Recalc(pages: seq<PageSpace>): (r: seq<PageSpace>)
    ensures Total(r) == Total(pages)
    ensures Occupants(r) == Occupants(pages)
    ensures |r| <= |pages|
    ensures Sorted(r)
    ensures HasFree(pages) ==> HasFree(r)
  {
    var merged := MergeFrom(pages, 0);
    var r := SortByStart(merged);
    TotalPermutation(r, merged);
    OccupantsPermutation(r, merged);

    assert HasFree(merged) ==> HasFree(r) by {
      if HasFree(merged) {
        var k :| 0 <= k < |merged| && merged[k].IsFree();
        assert merged[k] in multiset(r);
      }
    }
    r
  }

  /** The merge pass joins free fragments only: every occupied fragment
      comes through it unchanged. */
  lemma {:induction false} MergeFromKeepsResidents(pages: seq<PageSpace>, i: nat, x: PageSpace)
    requires x in pages && !x.IsFree()
    ensures x in MergeFrom(pages, i)
    decreases |pages| - i
  {
    if i + 1 < |pages| {
      if pages[i].IsFree() && pages[i + 1].IsFree() {
        var joined := JoinAt(pages, i);
        var k :| 0 <= k < |pages| && pages[k] == x;
        if k < i {
          assert joined[k] == x;
        } else {
          assert joined[k - 1] == x;
        }
        MergeFromKeepsResidents(joined, i, x);
      } else {
        MergeFromKeepsResidents(pages, i + 1, x);
      }
    }
  }

  /** Coalescing keeps every occupied fragment as it is. */
  lemma RecalcKeepsResidents(pages: seq<PageSpace>, x: PageSpace)
    requires x in pages && !x.IsFree()
    ensures x in Recalc(pages)
  {
    var merged := MergeFrom(pages, 0);
    MergeFromKeepsResidents(pages, 0, x);
    assert x in multiset(merged);
  }

  /** Whatever the input, the merge pass leaves no two list neighbours free. */
  lemma {:induction false} MergeFromCoalesced(pages: seq<PageSpace>, i: nat)
    requires forall k :: 0 <= k < i && k + 1 < |pages| ==> !(pages[k].IsFree() && pages[k + 1].IsFree())
    ensures Coalesced(MergeFrom(pages, i))
    decreases |pages| - i
  {
    if i + 1 >= |pages| {
    } else if pages[i].IsFree() && pages[i + 1].IsFree() {
      var joined := JoinAt(pages, i);
      if i > 0 {
        assert !pages[i - 1].IsFree();
      }
      MergeFromCoalesced(joined, i);
    } else {
      MergeFromCoalesced(pages, i + 1);
    }
  }

  /** On a sorted, contiguous list the merge pass joins memory neighbours only,
      so the list stays sorted and contiguous. */
  lemma {:induction false} MergeFromTidy(pages: seq<PageSpace>, i: nat)
    requires Sorted(pages) && Contiguous(pages)
    ensures Sorted(MergeFrom(pages, i)) && Contiguous(MergeFrom(pages, i))
    decreases |pages| - i
  {
    if i + 1 >= |pages| {
    } else if pages[i].IsFree() && pages[i + 1].IsFree() {
      JoinAtTidy(pages, i);
      MergeFromTidy(JoinAt(pages, i), i);
    } else {
      MergeFromTidy(pages, i + 1);
    }
  }

  /** Joining two memory neighbours of a sorted, contiguous list keeps it so. */
  lemma JoinAtTidy(pages: seq<PageSpace>, i: nat)
    requires Sorted(pages) && Contiguous(pages) && i + 1 < |pages|
    ensures Sorted(JoinAt(pages, i)) && Contiguous(JoinAt(pages, i))
  {
    var joined := JoinAt(pages, i);
    assert pages[i].WellFormed() && pages[i + 1].WellFormed();
    assert joined[i].WellFormed();
    forall k | 0 <= k < |joined| - 1
      ensures joined[k].start <= joined[k + 1].start && joined[k].end + 1 == joined[k + 1].start
    {
      if k + 1 < i {
      } else if k + 1 == i {
      } else if k == i {
        assert joined[k + 1] == pages[k + 2];
        assert pages[i + 1].start <= pages[i + 2].start;
      } else {
        assert joined[k] == pages[k + 1] && joined[k + 1] == pages[k + 2];
      }
    }
  }

  /** A list with no two free neighbours passes through the merge unchanged. */
  lemma {:induction false} MergeFromCoalescedFixed(pages: seq<PageSpace>, i: nat)
    requires Coalesced(pages)
    ensures MergeFrom(pages, i) == pages
    decreases |pages| - i
  {
    if i + 1 < |pages| {
      MergeFromCoalescedFixed(pages, i + 1);
    }
  }

  /** A list already in start order is left as it is by the sort. */
  lemma SortByStartSorted(pages: seq<PageSpace>)
    requires Sorted(pages)
    ensures SortByStart(pages) == pages
  {
    Sorting.SortPositionsSorted(Starts(pages));
  }

  /** On a sorted, contiguous list `recalculateSpace` keeps the list sorted
      and contiguous, leaves no two neighbouring free fragments, and a second
      call changes nothing. */
  lemma RecalcTidy(pages: seq<PageSpace>)
    requires Sorted(pages) && Contiguous(pages)
    ensures var r := Recalc(pages);
      Sorted(r) && Contiguous(r) && Coalesced(r) && Recalc(r) == r
  {
    var merged := MergeFrom(pages, 0);
    MergeFromTidy(pages, 0);
    MergeFromCoalesced(pages, 0);
    SortByStartSorted(merged);
    MergeFromCoalescedFixed(merged, 0);
  }

  /** A contiguous list covers the cells from its first start to that start
      plus the total length, minus one. */
  lemma {:induction false} ContiguousCovers(pages: seq<PageSpace>)
    requires Contiguous(pages) && |pages| > 0
    ensures pages[|pages| - 1].end == pages[0].start + Total(pages) - 1
  {
    if |pages| > 1 {
      ContiguousCovers(pages[1..]);
      assert pages[0].WellFormed();
    } else {
      assert pages[0].WellFormed();
    }
  }

  /** The merge pass keeps the first fragment's start: a join keeps the
      start of its first fragment, and nothing moves ahead of index 0. */
  lemma {:induction false} MergeFromKeepsFirstStart(pages: seq<PageSpace>, i: nat)
    requires |pages| > 0
    ensures |MergeFrom(pages, i)| > 0 && MergeFrom(pages, i)[0].start == pages[0].start
    decreases |pages| - i
  {
    if i + 1 >= |pages| {
    } else if pages[i].IsFree() && pages[i + 1].IsFree() {
      var joined := JoinAt(pages, i);
      assert joined[0].start == pages[0].start;
      MergeFromKeepsFirstStart(joined, i);
    } else {
      MergeFromKeepsFirstStart(pages, i + 1);
    }
  }

  /** On a sorted, contiguous list `recalculateSpace` covers exactly the cells
      the list covered before: the same first start and the same last end. */
  lemma RecalcCovers(pages: seq<PageSpace>)
    requires Sorted(pages) && Contiguous(pages) && |pages| > 0
    ensures var r := Recalc(pages);
      |r| > 0 && r[0].start == pages[0].start && r[|r| - 1].end == pages[|pages| - 1].end
  {
    var merged := MergeFrom(pages, 0);
    MergeFromTidy(pages, 0);
    MergeFromKeepsFirstStart(pages, 0);
    SortByStartSorted(merged);
    assert Recalc(pages) == merged;
    ContiguousCovers(pages);
    ContiguousCovers(merged);
  }
}
