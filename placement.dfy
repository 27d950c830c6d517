/** The two placement policies (`BestFitSorting.searchPage` and
    `WorstFitSorting.searchPage`) as one operation over a closed set of
    variants.

    As written, both policies first reject the request when the smallest free
    fragment is shorter than it (even if a longer free fragment would take
    it), then scan a stably sorted copy of the fragment list and keep the
    position of the last free fragment that fits. Sorting by ascending space
    (BestFitSorting) makes that the free fragment of greatest space; sorting
    by descending space (WorstFitSorting) makes it the free fragment of least
    space; equal spaces are won by the later fragment of the list. */
module Placement {
  import opened Memory
  import opened Sorting

  datatype Strategy = BestFitSorting | WorstFitSorting

  /** The key the policy's sorted copy is ordered by, made ascending:
      `sorted(..., reverse=True)` is stable, so descending space with equal
      spaces in list order is ascending `-space`. */
  function Rank(s: Strategy, page: PageSpace): int
  {
    match s
    case BestFitSorting => page.space
    case WorstFitSorting => -page.space
  }

  function Ranks(s: Strategy, pages: seq<PageSpace>): (r: seq<int>)
    ensures |r| == |pages|
    ensures forall k :: 0 <= k < |r| ==> r[k] == Rank(s, pages[k])
  {
    seq(|pages|, k requires 0 <= k < |pages| => Rank(s, pages[k]))
  }

  /** Length of the smallest free fragment. */
  function MinFree(pages: seq<PageSpace>): (m: int)
    requires HasFree(pages)
    ensures exists k :: 0 <= k < |pages| && pages[k].IsFree() && pages[k].space == m
    ensures forall k :: 0 <= k < |pages| && pages[k].IsFree() ==> m <= pages[k].space
    decreases |pages|
  {
    var tail := pages[1..];
    assert forall k :: 1 <= k < |pages| ==> pages[k] == tail[k - 1];
    if !HasFree(tail) then
      assert pages[0].IsFree() by {
        var k :| 0 <= k < |pages| && pages[k].IsFree();
        assert k == 0;
      }
      pages[0].space
    else
      var m := MinFree(tail);
      ghost var k :| 0 <= k < |tail| && tail[k].IsFree() && tail[k].space == m;
      assert pages[k + 1].space == m;
      if pages[0].IsFree() && pages[0].space <= m then pages[0].space else m
  }

  /** Fragment `i` wins over fragment `j` in the policy's scan: for
      BestFitSorting it has more space, for WorstFitSorting less, and on equal
      space it is not earlier in the list. */
  predicate Outranks(s: Strategy, pages: seq<PageSpace>, i: nat, j: nat)
    requires i < |pages| && j < |pages|
  {
    match s
    case BestFitSorting =>
      pages[j].space < pages[i].space || (pages[j].space == pages[i].space && j <= i)
    case WorstFitSorting =>
      pages[j].space > pages[i].space || (pages[j].space == pages[i].space && j <= i)
  }

  /** `i` is the free fragment that wins over every free fragment. */
  predicate Chosen(s: Strategy, pages: seq<PageSpace>, i: nat)
  {
    && i < |pages| && pages[i].IsFree()
    && forall j :: 0 <= j < |pages| && pages[j].IsFree() ==> Outranks(s, pages, i, j)
  }

  predicate FreeBelow(pages: seq<PageSpace>, n: nat)
    requires n <= |pages|
  {
    exists k :: 0 <= k < n && pages[k].IsFree()
  }

  /** Reference selection: the free fragment among the first `n` that wins
      over all the others, found by a left-to-right pass. */
  function Pick(s: Strategy, pages: seq<PageSpace>, n: nat): (r: nat)
    requires n <= |pages| && FreeBelow(pages, n)
    ensures r < n && pages[r].IsFree()
    ensures forall j :: 0 <= j < n && pages[j].IsFree() ==> Outranks(s, pages, r, j)
    decreases n
  {
    var last := n - 1;
    if !FreeBelow(pages, last) then last
    else
      var best := Pick(s, pages, last);
      if pages[last].IsFree() && Rank(s, pages[best]) <= Rank(s, pages[last]) then last else best
  }

  /** At most one fragment is chosen. */
  lemma ChosenUnique(s: Strategy, pages: seq<PageSpace>, i: nat, i': nat)
    requires Chosen(s, pages, i) && Chosen(s, pages, i')
    ensures i == i'
  {
    assert Outranks(s, pages, i, i') && Outranks(s, pages, i', i);
  }

  /** What `searchPage` answers: the fast-fail on the smallest free fragment,
      then 0 for a one-fragment list, else the chosen fragment. */
  function SearchPageSpec(s: Strategy, pages: seq<PageSpace>, processSize: int): (r: Result<nat>)
    requires HasFree(pages)
    ensures r.Failure? <==>
      exists k :: 0 <= k < |pages| && pages[k].IsFree() && pages[k].space < processSize
    ensures r.Failure? ==> r.error == InsufficientSpace
    ensures r.Success? ==> Chosen(s, pages, r.value) && processSize <= pages[r.value].space
    ensures r.Success? && |pages| == 1 ==> r.value == 0
  {
    if MinFree(pages) < processSize then Failure(InsufficientSpace)
    else if |pages| == 1 then Success(0)
    else Success(Pick(s, pages, |pages|))
  }

  /** Fragment `j` is free and long enough: the scan's two tests. */
  predicate Qualifies(pages: seq<PageSpace>, processSize: int, j: nat)
    requires j < |pages|
  {
    pages[j].IsFree() && processSize <= pages[j].space
  }

  /** What the scan knows after looking at the first `i` entries of the
      sorted copy: `bestSize` is the last qualifying fragment seen (0 while
      none was), and every qualifying fragment seen precedes it in the
      policy's order. */
  predicate ScanInv(pageList: seq<PageSpace>, processSize: int, ranks: seq<int>,
                    copypages: seq<nat>, i: nat, bestSize: nat, found: bool)
  {
    && |ranks| == |pageList| && i <= |copypages|
    && (forall a :: 0 <= a < |copypages| ==> copypages[a] < |pageList|)
    && bestSize < |pageList|
    && (found ==> Qualifies(pageList, processSize, bestSize))
    && (!found ==> bestSize == 0)
    && (!found ==> forall a :: 0 <= a < i ==> !Qualifies(pageList, processSize, copypages[a]))
    && (forall a :: 0 <= a < i && Qualifies(pageList, processSize, copypages[a]) ==>
          copypages[a] == bestSize || Before(ranks, copypages[a], bestSize))
  }

  /** One step of the scan keeps `ScanInv`. */
  lemma ScanStep(pageList: seq<PageSpace>, processSize: int, ranks: seq<int>,
                 copypages: seq<nat>, i: nat, bestSize: nat, found: bool)
    requires ScanInv(pageList, processSize, ranks, copypages, i, bestSize, found)
    requires i < |copypages| && Ordered(ranks, copypages)
    ensures var q := Qualifies(pageList, processSize, copypages[i]);
      ScanInv(pageList, processSize, ranks, copypages, i + 1,
              if q then copypages[i] else bestSize, found || q)
  {
    if Qualifies(pageList, processSize, copypages[i]) {
      OrderedBefore(ranks, copypages, i);
    }
  }

  /** Past the fast-fail every free fragment fits and every position occurs
      in the sorted copy, so the scan ends on the reference selection. */
  lemma ScanChoosesPick(s: Strategy, pageList: seq<PageSpace>, processSize: int,
                        copypages: seq<nat>, bestSize: nat, found: bool)
    requires HasFree(pageList) && 1 < |pageList| && processSize <= MinFree(pageList)
    requires |copypages| == |pageList| && forall x: nat :: x < |pageList| ==> x in copypages
    requires ScanInv(pageList, processSize, Ranks(s, pageList), copypages, |copypages|, bestSize, found)
    ensures bestSize == Pick(s, pageList, |pageList|)
  {
    var j :| 0 <= j < |pageList| && pageList[j].IsFree();
    assert j in copypages;
    assert found by {
      var a :| 0 <= a < |copypages| && copypages[a] == j;
      assert Qualifies(pageList, processSize, copypages[a]);
    }
    forall k | 0 <= k < |pageList| && pageList[k].IsFree()
      ensures Outranks(s, pageList, bestSize, k)
    {
      assert k in copypages;
      var a :| 0 <= a < |copypages| && copypages[a] == k;
      assert Qualifies(pageList, processSize, copypages[a]);
    }
    ChosenUnique(s, pageList, bestSize, Pick(s, pageList, |pageList|));
  }

  /** `searchPage` as written: fast-fail, one-fragment shortcut, then a scan
      of the stably sorted copy that overwrites the answer with the original
      position of every free fragment that fits. */
  method SearchPage(s: Strategy, pageList: seq<PageSpace>, processSize: int) returns (r: Result<nat>)
    requires HasFree(pageList)
    ensures r == SearchPageSpec(s, pageList, processSize)
  {
    if MinFree(pageList) < processSize {
      return Failure(InsufficientSpace);
    }
    if |pageList| == 1 {
      return Success(0);
    }
    var bestSize: nat := 0;
    var ranks := Ranks(s, pageList);
    var copypages := SortPositions(ranks);
    ghost var found := false;
    for i := 0 to |copypages|
      invariant ScanInv(pageList, processSize, ranks, copypages, i, bestSize, found)
    {
      ScanStep(pageList, processSize, ranks, copypages, i, bestSize, found);
      var page := pageList[copypages[i]];
      if page.process.Some? {
        continue;
      }
      if processSize <= page.space {
        bestSize := copypages[i];
        found := true;
      }
    }
    ScanChoosesPick(s, pageList, processSize, copypages, bestSize, found);
    r := Success(bestSize);
  }
}
