/** Concrete situations that show how the allocator behaves as written. */
module Scenarios {
  import opened Memory
  import opened Placement
  import opened Coalesce
  import opened Timeline

  function Free(start: int, space: int): PageSpace
  {
    PageSpace(start, start + space - 1, space, None)
  }

  function Holding(start: int, p: Process): PageSpace
  {
    PageSpace(start, start + p.memory - 1, p.memory, Some(p))
  }

  /** Free fragments of 50, 200 and 100 cells and a request for 40: the
      policy named best fit takes the 200-cell fragment, the one named worst
      fit the 50-cell fragment. */
  lemma PoliciesSwapped()
    ensures var pages := [Free(0, 50), Free(50, 200), Free(250, 100)];
      && HasFree(pages)
      && SearchPageSpec(BestFitSorting, pages, 40) == Success(1)
      && SearchPageSpec(WorstFitSorting, pages, 40) == Success(0)
  {
    var pages := [Free(0, 50), Free(50, 200), Free(250, 100)];
    assert pages[0].IsFree();
    var best := SearchPageSpec(BestFitSorting, pages, 40);
    var worst := SearchPageSpec(WorstFitSorting, pages, 40);
    assert Chosen(BestFitSorting, pages, 1);
    ChosenUnique(BestFitSorting, pages, 1, best.value);
    assert Chosen(WorstFitSorting, pages, 0);
    ChosenUnique(WorstFitSorting, pages, 0, worst.value);
  }

  /** Two free fragments of equal length: both policies take the later one. */
  lemma TieGoesToLater(s: Strategy)
    ensures HasFree([Free(0, 60), Free(60, 60)])
    ensures SearchPageSpec(s, [Free(0, 60), Free(60, 60)], 10) == Success(1)
  {
    var pages := [Free(0, 60), Free(60, 60)];
    assert pages[0].IsFree();
    var r := SearchPageSpec(s, pages, 10);
    assert Chosen(s, pages, 1);
    ChosenUnique(s, pages, 1, r.value);
  }

  /** A 10-cell and a 200-cell free fragment and a request for 40: the
      request is turned down although the 200-cell fragment would take it. */
  lemma FastFailRejectsFittingRequest(s: Strategy)
    ensures HasFree([Free(0, 10), Free(10, 200)])
    ensures SearchPageSpec(s, [Free(0, 10), Free(10, 200)], 40) == Failure(InsufficientSpace)
  {
    var pages := [Free(0, 10), Free(10, 200)];
    assert pages[0].IsFree() && pages[0].space < 40;
  }

  const A := Process("A", 1, 30, 1)
  const B := Process("B", 1, 30, 5)
  const C := Process("C", 2, 10, 5)

  /** B after one tick of residence. */
  const AgedB := B.(execTime := 4)

  /** A new 100-cell memory under WorstFitSorting. */
  function Start(): Line
  {
    Initial(WorstFitSorting, 100)
  }

  /** The memory after A (30 cells) was placed. */
  function AfterA(): Line
  {
    Line(100, WorstFitSorting, [Holding(0, A), Free(30, 70)], [], 1)
  }

  /** The memory after A and then B (30 cells each) were placed. */
  function Admitted(): Line
  {
    Line(100, WorstFitSorting, [Holding(0, A), Holding(30, B), Free(60, 40)], [], 1)
  }

  /** The memory after its first tick with A (one tick to run) and B (five)
      arriving: A has left, B stays with four ticks to go. */
  function AfterFirstTick(): Line
  {
    Line(100, WorstFitSorting, [Free(0, 30), Holding(30, AgedB), Free(60, 40)], [], 2)
  }

  /** A fills the front of the single free fragment. */
  lemma PlaceA()
    ensures Inv(Start())
    ensures Insert(Start(), Some(A)) == (AfterA(), Pass)
  {
    var l := Start();
    assert l.pages == [Free(0, 100)];
    assert l.pages[0].InsertProcess(A) == Success(Split(Holding(0, A), Free(30, 70)));
    assert l.pages[0 := Holding(0, A)] + [Free(30, 70)] == AfterA().pages;
  }

  /** B goes into the remainder, the only free fragment. */
  lemma PlaceB()
    ensures Inv(AfterA())
    ensures Insert(AfterA(), Some(B)) == (Admitted(), Pass)
  {
    var l := AfterA();
    assert l.pages[1].IsFree();
    assert Total(l.pages[1..]) == 70;
    var r := SearchPageSpec(WorstFitSorting, l.pages, 30);
    assert Chosen(WorstFitSorting, l.pages, 1);
    ChosenUnique(WorstFitSorting, l.pages, 1, r.value);
    assert l.pages[1].InsertProcess(B) == Success(Split(Holding(30, B), Free(60, 40)));
    assert l.pages[1 := Holding(30, B)] + [Free(60, 40)] == Admitted().pages;
  }

  /** A batch with one more process is the batch, then that process. */
  lemma BatchSnoc(l: Line, ps: seq<Option<Process>>, x: Option<Process>)
    requires Inv(l)
    ensures InsertBatch(l, ps + [x]) == Insert(InsertBatch(l, ps), x).0
  {
    assert (ps + [x])[..|ps|] == ps;
  }

  /** Admitting A and then B. */
  lemma AdmitBoth()
    ensures Inv(Start())
    ensures Admit(Start(), [A, B]) == Admitted()
  {
    var l := Start();
    var ps := Somes([A, B]);
    assert ps == [Some(A)] + [Some(B)];
    assert [] + [Some(A)] == [Some(A)];
    BatchSnoc(l, [], Some(A));
    assert InsertBatch(l, []) == l;
    PlaceA();
    assert InsertBatch(l, [Some(A)]) == AfterA();
    BatchSnoc(l, [Some(A)], Some(B));
    PlaceB();
    assert InsertBatch(l, ps) == Admitted();
  }

  /** Aging frees A and leaves B with four ticks. */
  lemma AgeAdmitted()
    ensures Age(Admitted().pages) == AfterFirstTick().pages
  {
    var aged := Age(Admitted().pages);
    assert aged[0] == Free(0, 30) && aged[1] == Holding(30, AgedB) && aged[2] == Free(60, 40);
  }

  /** Aging frees A and leaves B with four ticks; coalescing finds nothing to
      join. */
  lemma FinishAdmitted()
    ensures Inv(Admitted())
    ensures Finish(Admitted()) == AfterFirstTick()
  {
    var l := Admitted();
    assert l.pages[2].IsFree();
    assert l.pages[1..] == [Holding(30, B), Free(60, 40)];
    assert l.pages[2..] == [Free(60, 40)];
    assert Total([Free(60, 40)]) == 40;
    var aged := AfterFirstTick().pages;
    AgeAdmitted();
    AfterFirstTickTidy();
    MergeFromCoalescedFixed(aged, 0);
    SortByStartSorted(aged);
  }

  /** The first tick, end to end. */
  lemma FirstTick()
    ensures Inv(Start())
    ensures Tick(Start(), [A, B]) == AfterFirstTick()
  {
    AdmitBoth();
    FinishAdmitted();
    assert RetryPass(Admitted()) == Admitted();
  }

  /** That line keeps the invariant and is sorted, contiguous and coalesced. */
  lemma AfterFirstTickTidy()
    ensures Inv(AfterFirstTick())
    ensures Sorted(AfterFirstTick().pages) && Contiguous(AfterFirstTick().pages)
    ensures Coalesced(AfterFirstTick().pages)
  {
    var l := AfterFirstTick();
    assert l.pages[0].IsFree();
    assert l.pages[1..] == [Holding(30, AgedB), Free(60, 40)];
    assert l.pages[2..] == [Free(60, 40)];
    assert Total([Free(60, 40)]) == 40;
  }

  /** Worst fit takes the 30-cell fragment for C: the smaller of the two free ones. */
  lemma WorstFitTakesFirst()
    ensures HasFree(AfterFirstTick().pages)
    ensures SearchPageSpec(WorstFitSorting, AfterFirstTick().pages, 10) == Success(0)
  {
    var pages := AfterFirstTick().pages;
    assert pages[0].IsFree();
    var r := SearchPageSpec(WorstFitSorting, pages, 10);
    assert Chosen(WorstFitSorting, pages, 0);
    ChosenUnique(WorstFitSorting, pages, 0, r.value);
  }

  /** The list after C is placed. */
  function AfterPlacingC(): seq<PageSpace>
  {
    [Holding(0, C), Holding(30, AgedB), Free(60, 40), Free(10, 20)]
  }

  /** Placing C (10 cells) puts it at the start of the 30-cell fragment and
      appends the free remainder, cells 10 to 29, at the back of the list. */
  lemma RemainderAppended()
    ensures Inv(AfterFirstTick())
    ensures Insert(AfterFirstTick(), Some(C)) == (AfterFirstTick().(pages := AfterPlacingC()), Pass)
  {
    AfterFirstTickTidy();
    var l := AfterFirstTick();
    WorstFitTakesFirst();
    assert l.pages[0].InsertProcess(C) == Success(Split(Holding(0, C), Free(10, 20)));
    PlacedList();
    assert Insert(l, Some(C)) == (l.(pages := l.pages[0 := Holding(0, C)] + [Free(10, 20)]), Pass);
  }

  lemma PlacedList()
    ensures AfterFirstTick().pages[0 := Holding(0, C)] + [Free(10, 20)] == AfterPlacingC()
  {
    assert AfterFirstTick().pages[0 := Holding(0, C)] == [Holding(0, C), Holding(30, AgedB), Free(60, 40)];
  }

  /** That list is out of start order. */
  lemma AfterPlacingCUnsorted()
    ensures !Sorted(AfterPlacingC())
  {
    assert AfterPlacingC()[2].start > AfterPlacingC()[3].start;
  }

  /** The fragment that coalescing makes of the two free ones of that list. */
  const Joined := PageSpace(60, 29, 60, None)

  /** Two occupied fragments followed by two free ones: the merge pass joins
      the free pair and keeps the rest. */
  lemma MergeTwoFree(a: PageSpace, b: PageSpace, f: PageSpace, g: PageSpace)
    requires !a.IsFree() && !b.IsFree() && f.IsFree() && g.IsFree()
    ensures MergeFrom([a, b, f, g], 0) == [a, b, Merge(f, g)]
  {
    var pages := [a, b, f, g];
    var merged := [a, b, Merge(f, g)];
    MergeFromStep(pages, 0);
    MergeFromStep(pages, 1);
    MergeFromStep(pages, 2);
    var j := JoinAt(pages, 2);
    assert j == merged;
    MergeFromStep(merged, 2);
  }

  /** The merge pass joins the last two fragments, free neighbours in the list. */
  lemma MergedAfterPlacingC()
    ensures MergeFrom(AfterPlacingC(), 0) == [Holding(0, C), Holding(30, AgedB), Joined]
  {
    MergeTwoFree(Holding(0, C), Holding(30, AgedB), Free(60, 40), Free(10, 20));
    assert Merge(Free(60, 40), Free(10, 20)) == Joined;
  }

  /** Coalescing that list joins the two free fragments because they are
      neighbours in the list, not in memory: the joined fragment starts at
      60 and ends at 29, before its start, and its 60 cells counted from 60
      run past the end of the 100-cell memory, so the sorted list is no
      longer contiguous. */
  lemma CoalescingJoinsDistantFragments()
    ensures Joined in Recalc(AfterPlacingC())
    ensures !Contiguous(Recalc(AfterPlacingC()))
  {
    MergedAfterPlacingC();
    var r := Recalc(AfterPlacingC());
    assert multiset(r) == multiset([Holding(0, C), Holding(30, AgedB), Joined]);
    assert Joined in multiset(r);
    var k :| 0 <= k < |r| && r[k] == Joined;
    assert !r[k].WellFormed();
  }
}
