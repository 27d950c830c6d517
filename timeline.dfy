/** The orchestrator (`ProcessLine`): it owns the fragment list, the overflow
    buffer, the clock and the placement policy, admits processes, retries the
    buffer, ages and evicts residents and coalesces free space once per tick.

    `Line` is a snapshot of a ProcessLine; the functions over it say what each
    operation does to the whole state, and the class's methods are proved to
    do exactly that. */
module Timeline {
  import opened Memory
  import opened Placement
  import opened Buffer
  import opened Coalesce

  const DefaultSize: int := 2000

  /** How a single insertion ended: `Pass`, or the exception it raised. */
  datatype Outcome = Pass | Fail(error: Error)

  datatype Line = Line(size: int, sorting: Strategy, pages: seq<PageSpace>, buffer: seq<Process>, time: int)

  /** What every ProcessLine keeps: the lengths add up to the memory size, at
      least one fragment is free (so the `min` over free fragments in
      `searchPage` always has something to look at), and every buffered
      process fits the memory as a whole. */
  predicate Inv(l: Line)
  {
    && Total(l.pages) == l.size
    && HasFree(l.pages)
    && forall k :: 0 <= k < |l.buffer| ==> l.buffer[k].memory <= l.size
  }

  /** A new ProcessLine: one free fragment covering the whole memory, an empty
      buffer, time 1. It is sorted, contiguous and coalesced. */
  function Initial(sorting: Strategy, size: int): (l: Line)
    ensures Inv(l) && l.buffer == [] && l.time == 1
    ensures Sorted(l.pages) && Contiguous(l.pages) && Coalesced(l.pages)
    ensures |l.pages| == 1 && l.pages[0].start == 0 && l.pages[0].end == size - 1
  {
    var l := Line(size, sorting, [NewPageSpace(size, None)], [], 1);
    assert l.pages[0].IsFree();
    l
  }

  /** `r` is `l` after `p` was placed: the chosen free fragment now holds `p`
      from its old start on, over exactly `p.memory` cells; one free
      remainder covering the rest of the old fragment is appended at the
      back; nothing else changed. */
  predicate Placed(l: Line, p: Process, r: Line)
  {
    && r.buffer == l.buffer
    && |r.pages| == |l.pages| + 1
    && (exists i :: 0 <= i < |l.pages| && Chosen(l.sorting, l.pages, i)
         && r.pages[..|l.pages|] == l.pages[i := r.pages[i]]
         && r.pages[i].process == Some(p) && r.pages[i].start == l.pages[i].start
         && r.pages[i].space == p.memory
         && r.pages[i].end == l.pages[i].start + p.memory - 1
         && r.pages[|l.pages|].IsFree()
         && r.pages[|l.pages|].start == l.pages[i].start + p.memory
         && r.pages[|l.pages|].end == l.pages[i].end
         && r.pages[i].space + r.pages[|l.pages|].space == l.pages[i].space)
  }

  /** `ProcessLine.insertProcess`. */
  function Insert(l: Line, p: Option<Process>): (r: (Line, Outcome))
    requires Inv(l)
    ensures Inv(r.0) && r.0.size == l.size && r.0.sorting == l.sorting && r.0.time == l.time
    ensures p.None? ==> r == (l, Pass)
    ensures p.Some? && p.value.memory > l.size ==> r == (l, Fail(NoMoreSpace))
    ensures r.1 == Fail(NoMoreSpace) <==> p.Some? && p.value.memory > l.size
    ensures p.Some? && p.value.memory <= l.size ==>
      (r.1 == Fail(InsufficientSpace) <==>
         exists k :: 0 <= k < |l.pages| && l.pages[k].IsFree() && l.pages[k].space < p.value.memory)
    ensures p.Some? && r.1 == Fail(InsufficientSpace) ==>
      r.0.pages == l.pages && r.0.buffer == l.buffer + [p.value]
    ensures p.Some? && r.1 == Pass ==> Placed(l, p.value, r.0)
  {
    match p
    case None => (l, Pass)
    case Some(process) =>
      if process.memory > l.size then (l, Fail(NoMoreSpace))
      else
        match SearchPageSpec(l.sorting, l.pages, process.memory)
        case Failure(e) => (l.(buffer := l.buffer + [process]), Fail(e))
        case Success(index) =>
          match l.pages[index].InsertProcess(process)
          case Failure(e) => (l.(buffer := l.buffer + [process]), Fail(e))
          case Success(split) =>
            var pages := l.pages[index := split.occupied] + [split.remainder];
            SplitPlaced(l, process, index, split, pages);
            (l.(pages := pages), Pass)
  }

  /** Putting the split of the chosen fragment in its place and appending
      the remainder is a placement, and it keeps the invariant. */
  lemma SplitPlaced(l: Line, p: Process, index: nat, split: Split, pages: seq<PageSpace>)
    requires Inv(l) && Chosen(l.sorting, l.pages, index)
    requires l.pages[index].InsertProcess(p) == Success(split)
    requires pages == l.pages[index := split.occupied] + [split.remainder]
    ensures Inv(l.(pages := pages))
    ensures Placed(l, p, l.(pages := pages))
  {
    TotalUpdate(l.pages, index, split.occupied);
    TotalConcat(l.pages[index := split.occupied], [split.remainder]);
    assert pages[|l.pages|].IsFree();
    assert pages[..|l.pages|] == l.pages[index := pages[index]];
  }

  /** Every process the line holds: the fragments' occupants and the buffer. */
  function Holdings(l: Line): multiset<Process>
  {
    Occupants(l.pages) + multiset(l.buffer)
  }

  /** Every process offered with a demand no larger than the memory ends up
      in exactly one place, a fragment or the buffer; nothing else moves. */
  lemma InsertConserves(l: Line, p: Process)
    requires Inv(l) && p.memory <= l.size
    ensures Holdings(Insert(l, Some(p)).0) == Holdings(l) + multiset{p}
  {
    var r := Insert(l, Some(p));
    if r.1 == Pass {
      var i :| 0 <= i < |l.pages| && Chosen(l.sorting, l.pages, i)
        && r.0.pages[..|l.pages|] == l.pages[i := r.0.pages[i]]
        && r.0.pages[i].process == Some(p)
        && r.0.pages[|l.pages|].IsFree();
      PlacedOccupants(l.pages, i, r.0.pages);
      assert r.0.buffer == l.buffer;
    } else {
      assert r.1 == Fail(InsufficientSpace);
      assert r.0.pages == l.pages && r.0.buffer == l.buffer + [p];
    }
  }

  /** Occupying a free fragment and appending a free remainder adds exactly
      the new occupant. */
  lemma PlacedOccupants(pages: seq<PageSpace>, i: nat, after: seq<PageSpace>)
    requires i < |pages| && |after| == |pages| + 1 && pages[i].IsFree()
    requires after[..|pages|] == pages[i := after[i]] && after[|pages|].IsFree()
    ensures Occupants(after) == Occupants(pages) + Held(after[i])
  {
    var updated := after[..|pages|];
    assert after == updated + [after[|pages|]];
    OccupantsConcat(updated, [after[|pages|]]);
    assert Occupants([after[|pages|]]) == multiset{};
    OccupantsUpdate(pages, i, after[i]);
  }

  /** `ProcessLine.insertProcesses`: every insertion in turn, both exceptions
      swallowed. */
  function InsertBatch(l: Line, ps: seq<Option<Process>>): (r: Line)
    requires Inv(l)
    ensures Inv(r) && r.size == l.size && r.sorting == l.sorting && r.time == l.time
    decreases |ps|
  {
    if ps == [] then l else Insert(InsertBatch(l, ps[..|ps| - 1]), ps[|ps| - 1]).0
  }

  /** The processes of `ps` that can ever be placed: present, and no larger
      than the memory. */
  function Admissible(ps: seq<Option<Process>>, size: int): multiset<Process>
  {
    if ps == [] then multiset{}
    else
      var last := ps[|ps| - 1];
      Admissible(ps[..|ps| - 1], size)
        + if last.Some? && last.value.memory <= size then multiset{last.value} else multiset{}
  }

  /** Batch insertion loses and duplicates nothing: the processes held or
      buffered afterwards are those before plus the admissible ones offered;
      a process larger than the memory is dropped and is in neither. */
  lemma {:induction false} InsertBatchConserves(l: Line, ps: seq<Option<Process>>)
    requires Inv(l)
    ensures Holdings(InsertBatch(l, ps)) == Holdings(l) + Admissible(ps, l.size)
    decreases |ps|
  {
    if ps != [] {
      var front := ps[..|ps| - 1];
      InsertBatchConserves(l, front);
      var mid := InsertBatch(l, front);
      var last := ps[|ps| - 1];
      assert InsertBatch(l, ps) == Insert(mid, last).0;
      if last.Some? && last.value.memory <= l.size {
        assert Admissible(ps, l.size) == Admissible(front, l.size) + multiset{last.value};
        InsertConserves(mid, last.value);
      } else {
        assert Admissible(ps, l.size) == Admissible(front, l.size);
        assert Insert(mid, last).0 == mid;
      }
    }
  }

  /** `getMaxPageSize`: the greatest `space` over ALL fragments, occupied
      ones included, or -1 for an empty list. */
  function MaxSpace(pages: seq<PageSpace>): (m: int)
    ensures m >= -1
    ensures forall k :: 0 <= k < |pages| ==> pages[k].space <= m
    ensures m == -1 || exists k :: 0 <= k < |pages| && pages[k].space == m
  {
    if pages == [] then -1
    else
      var m := MaxSpace(pages[..|pages| - 1]);
      assert forall k :: 0 <= k < |pages| - 1 ==> pages[..|pages| - 1][k] == pages[k];
      if m < pages[|pages| - 1].space then pages[|pages| - 1].space else m
  }

  /** Taking the next process out of the buffer keeps the invariant. */
  lemma TakeNextKeepsInv(l: Line, maxSpace: int)
    requires Inv(l)
    ensures Inv(l.(buffer := NextProcess(l.buffer, maxSpace).1))
  {
    var rest := NextProcess(l.buffer, maxSpace).1;
    forall k | 0 <= k < |rest| ensures rest[k].memory <= l.size {
      assert rest[k] in multiset(rest);
      assert rest[k] in multiset(l.buffer);
    }
  }

  /** One retry: take the first buffered process that fits the largest
      fragment (occupied or not) and offer it again (`insertProcesses` of a
      one-element list). At most one process moves from the buffer into a
      fragment, or back to the end of the buffer; nothing is lost or
      duplicated. */
  function RetryOnce(l: Line): (r: Line)
    requires Inv(l)
    ensures Inv(r) && r.size == l.size && r.sorting == l.sorting && r.time == l.time
    ensures Holdings(r) == Holdings(l)
  {
    var taken := NextProcess(l.buffer, MaxSpace(l.pages));
    TakeNextKeepsInv(l, MaxSpace(l.pages));
    var l' := l.(buffer := taken.1);
    if taken.0.Some? then
      assert taken.0.value in multiset(l.buffer);
      InsertConserves(l', taken.0.value);
      Insert(l', taken.0).0
    else
      Insert(l', taken.0).0
  }

  /** A retry is the two calls `update` makes: take from the buffer, then
      insert a one-element batch. */
  lemma RetryOnceSteps(l: Line, maxSpace: int, r: Line)
    requires Inv(l) && maxSpace == MaxSpace(l.pages)
    requires Inv(l.(buffer := NextProcess(l.buffer, maxSpace).1))
    requires r == InsertBatch(l.(buffer := NextProcess(l.buffer, maxSpace).1), [NextProcess(l.buffer, maxSpace).0])
    ensures r == RetryOnce(l)
  {
    var next := NextProcess(l.buffer, maxSpace).0;
    assert [next][..0] == [];
  }

  /** The retry step run `n` times; the processes held are the same. */
  function RetryN(l: Line, n: nat): (r: Line)
    requires Inv(l)
    ensures Inv(r) && r.size == l.size && r.sorting == l.sorting && r.time == l.time
    ensures Holdings(r) == Holdings(l)
  {
    if n == 0 then l else RetryOnce(RetryN(l, n - 1))
  }

  /** `after` is `before` one tick older: same extent; a free fragment stays
      free; an occupant's `execTime` goes down by exactly one, and the
      fragment is freed exactly when that leaves it at 0 or below. */
  predicate Aged(before: PageSpace, after: PageSpace)
  {
    && after.start == before.start && after.end == before.end && after.space == before.space
    && (before.IsFree() ==> after.IsFree())
    && (before.process.Some? ==>
          var p := before.process.value;
          && (after.IsFree() <==> p.execTime - 1 <= 0)
          && (after.process.Some? ==> after.process.value == p.(execTime := p.execTime - 1)))
  }

  function AgePage(page: PageSpace): PageSpace
  {
    match page.process
    case None => page
    case Some(p) =>
      var aged := p.(execTime := p.execTime - 1);
      if aged.execTime <= 0 then page.(process := None) else page.(process := Some(aged))
  }

  /** The aging pass of `update` over the whole list. */
  function Age(pages: seq<PageSpace>): (r: seq<PageSpace>)
    ensures |r| == |pages|
    ensures forall k :: 0 <= k < |r| ==> Aged(pages[k], r[k])
    ensures Total(r) == Total(pages)
    ensures HasFree(pages) ==> HasFree(r)
  {
    var r := seq(|pages|, k requires 0 <= k < |pages| => AgePage(pages[k]));
    TotalSameSpaces(r, pages);
    r
  }

  function Somes(ps: seq<Process>): (r: seq<Option<Process>>)
    ensures |r| == |ps|
    ensures forall k :: 0 <= k < |ps| ==> r[k] == Some(ps[k])
  {
    seq(|ps|, k requires 0 <= k < |ps| => Some(ps[k]))
  }

  /** The admission step of `update`: the arrivals, if any, as one batch. */
  function Admit(l: Line, arrivals: seq<Process>): (r: Line)
    requires Inv(l)
    ensures Inv(r) && r.size == l.size && r.sorting == l.sorting && r.time == l.time
  {
    if |arrivals| != 0 then InsertBatch(l, Somes(arrivals)) else l
  }

  /** Admission and the retry pass together lose and duplicate nothing: what
      the line holds afterwards is what it held before plus every arrival no
      larger than the memory. */
  lemma AdmissionConserves(l: Line, arrivals: seq<Process>)
    requires Inv(l)
    ensures Holdings(RetryPass(Admit(l, arrivals))) == Holdings(l) + Admissible(Somes(arrivals), l.size)
  {
    if |arrivals| != 0 {
      InsertBatchConserves(l, Somes(arrivals));
    } else {
      assert Somes(arrivals) == [];
    }
  }

  /** The retry pass of `update`: as many retries as the buffer has entries
      when the pass starts (none for an empty buffer). */
  function RetryPass(l: Line): (r: Line)
    requires Inv(l)
    ensures Inv(r) && r.size == l.size && r.sorting == l.sorting && r.time == l.time
    ensures Holdings(r) == Holdings(l)
  {
    RetryN(l, |l.buffer|)
  }

  /** The end of `update`: age every fragment that is occupied at that point,
      advance the clock, coalesce. The buffer is left alone. */
  function Finish(l: Line): (r: Line)
    requires Inv(l)
    ensures Inv(r) && r.size == l.size && r.sorting == l.sorting && r.buffer == l.buffer
    ensures Occupants(r.pages) == Occupants(Age(l.pages))
    ensures r.time == l.time + 1
    ensures Sorted(r.pages)
  {
    l.(pages := Recalc(Age(l.pages)), time := l.time + 1)
  }

  /** `update`, one tick: admit the arrivals, run the retry pass, then age,
      advance the clock and coalesce. Arrivals placed in this tick are aged
      in this tick too. */
  function Tick(l: Line, arrivals: seq<Process>): (r: Line)
    requires Inv(l)
    ensures Inv(r) && r.size == l.size && r.sorting == l.sorting
    ensures r.time == l.time + 1
    ensures Sorted(r.pages)
  {
    Finish(RetryPass(Admit(l, arrivals)))
  }

  /** Joining two neighbours is the overwrite of the first, then the deletion
      of the second. */
  lemma JoinAtSteps(pages: seq<PageSpace>, i: nat, current: PageSpace)
    requires i + 1 < |pages| && current == Merge(pages[i], pages[i + 1])
    ensures pages[i := current][..i + 1] + pages[i := current][i + 2..] == JoinAt(pages, i)
  {
  }

  /** Coalescing keeps the invariant. */
  lemma RecalcKeepsInv(l: Line, merged: seq<PageSpace>, pages: seq<PageSpace>)
    requires Inv(l)
    requires merged == MergeFrom(l.pages, 0) && pages == SortByStart(merged)
    ensures pages == Recalc(l.pages)
    ensures Inv(l.(pages := pages))
  {
  }

  /** Aging and the clock keep the invariant. */
  lemma AgedKeepsInv(l: Line, r: Line)
    requires Inv(l)
    requires r == l.(pages := Age(l.pages), time := l.time + 1)
    ensures Inv(r)
  {
  }

  class ProcessLine {
    const size: int
    const sorting: Strategy
    const buff: ProcessBuffer
    var pages: seq<PageSpace>
    var time: int

    ghost function State(): Line
      reads this, buff
    {
      Line(size, sorting, pages, buff.processList, time)
    }

    ghost predicate Valid()
      reads this, buff
    {
      Inv(State())
    }

    constructor (sorting: Strategy, size: int := DefaultSize)
      ensures Valid() && State() == Initial(sorting, size)
    {
      this.size := size;
      this.sorting := sorting;
      buff := new ProcessBuffer();
      pages := [NewPageSpace(size, None)];
      time := 1;
    }

    /** Offers one process (or none). */
    method InsertProcess(process: Option<Process>) returns (outcome: Outcome)
      requires Valid()
      modifies this, buff
      ensures Valid()
      ensures (State(), outcome) == Insert(old(State()), process)
    {
      if process.None? {
        return Pass;
      }
      var p := process.value;
      if p.memory > size {
        return Fail(NoMoreSpace);
      }
      var found := SearchPage(sorting, pages, p.memory);
      if found.Failure? {
        buff.AddToBuffer(p);
        return Fail(found.error);
      }
      var index := found.value;
      var split := pages[index].InsertProcess(p);
      // The fragment found has room for the process, so the split succeeds.
      assert split.Success?;
      pages := pages[index := split.value.occupied];
      pages := pages + [split.value.remainder];
      outcome := Pass;
      assert (State(), outcome) == Insert(old(State()), process);
    }

    /** Offers each process in turn; failures leave the process buffered
        (too little free space) or dropped (larger than the memory). */
    method InsertProcesses(processes: seq<Option<Process>>)
      requires Valid()
      modifies this, buff
      ensures Valid()
      ensures State() == InsertBatch(old(State()), processes)
    {
      for k := 0 to |processes|
        invariant Valid()
        invariant State() == InsertBatch(old(State()), processes[..k])
      {
        var _ := InsertProcess(processes[k]);
        assert processes[..k + 1][..k] == processes[..k];
      }
      assert processes[..|processes|] == processes;
    }

    method GetMaxPageSize() returns (bigger: int)
      ensures bigger == MaxSpace(pages)
    {
      bigger := -1;
      for k := 0 to |pages|
        invariant bigger == MaxSpace(pages[..k])
      {
        assert pages[..k + 1][..k] == pages[..k];
        if bigger < pages[k].space {
          bigger := pages[k].space;
        }
      }
      assert pages[..|pages|] == pages;
    }

    /** The merge loop of `recalculateSpace`: joins every two free list
        neighbours in place. */
    method MergeNeighbours()
      modifies this
      ensures pages == MergeFrom(old(pages), 0) && time == old(time)
    {
      var i := 0;
      while i < |pages| - 1
        invariant MergeFrom(pages, i) == MergeFrom(old(pages), 0)
        invariant time == old(time)
        decreases |pages| - i
      {
        MergeFromStep(pages, i);
        var currentPage := pages[i];
        var nextPage := pages[i + 1];
        if currentPage.IsFree() && nextPage.IsFree() {
          currentPage := currentPage.Resize(currentPage.space + nextPage.space);
          currentPage := currentPage.(end := nextPage.end);
          JoinAtSteps(pages, i, currentPage);
          pages := pages[i := currentPage];
          pages := pages[..i + 1] + pages[i + 2..];
        } else {
          i := i + 1;
        }
      }
      MergeFromStep(pages, i);
    }

    /** Joins every two free list neighbours, then sorts by start position. */
    method RecalculateSpace()
      requires Valid()
      modifies this
      ensures Valid()
      ensures pages == Recalc(old(pages)) && time == old(time)
    {
      MergeNeighbours();
      ghost var merged := pages;
      pages := SortByStart(pages);
      RecalcKeepsInv(old(State()), merged, pages);
    }

    /** One retry of `update`: take the first buffered process that fits the
        largest fragment and offer it again as a one-element batch. */
    method RetryOne()
      requires Valid()
      modifies this, buff
      ensures Valid()
      ensures State() == RetryOnce(old(State()))
    {
      var maxSpace := GetMaxPageSize();
      TakeNextKeepsInv(State(), maxSpace);
      var next := buff.GetNextProcess(maxSpace);
      InsertProcesses([next]);
      RetryOnceSteps(old(State()), maxSpace, State());
    }

    /** The retry pass of `update`: as many retries as the buffer has entries
        when the pass starts. */
    method RetryBuffer()
      requires Valid()
      modifies this, buff
      ensures Valid()
      ensures State() == RetryPass(old(State()))
    {
      ghost var start := State();
      var n := |buff.processList|;
      assert n == |start.buffer| && State() == RetryN(start, 0);
      if n != 0 {
        for k := 0 to n
          invariant Valid()
          invariant State() == RetryN(start, k)
        {
          RetryOne();
        }
      }
      assert State() == RetryN(start, n);
    }

    /** The aging pass of `update`: every occupant's remaining time goes down
        by one, and its fragment is freed when that reaches 0 or below. */
    method AgeResidents()
      modifies this
      ensures pages == Age(old(pages)) && time == old(time)
    {
      for k := 0 to |pages|
        invariant |pages| == |old(pages)|
        invariant forall j :: 0 <= j < k ==> pages[j] == AgePage(old(pages)[j])
        invariant forall j :: k <= j < |pages| ==> pages[j] == old(pages)[j]
        invariant time == old(time)
      {
        var page := pages[k];
        if page.process.None? {
          continue;
        }
        var p := page.process.value;
        p := p.(execTime := p.execTime - 1);
        page := page.(process := Some(p));
        if p.execTime <= 0 {
          page := page.(process := None);
        }
        pages := pages[k := page];
      }
    }

    /** The admission step of `update`: the arrivals, if any, are offered as
        one batch. */
    method AdmitArrivals(processes: seq<Process>)
      requires Valid()
      modifies this, buff
      ensures Valid()
      ensures State() == Admit(old(State()), processes)
    {
      if |processes| != 0 {
        InsertProcesses(Somes(processes));
      }
    }

    /** The end of `update`: aging, the clock, and the coalescing pass. */
    method AgeAndRecalculate()
      requires Valid()
      modifies this
      ensures Valid()
      ensures State() == Finish(old(State()))
    {
      ghost var start := State();
      AgeResidents();
      time := time + 1;
      AgedKeepsInv(start, State());
      RecalculateSpace();
    }

    /** One tick of the simulation with the processes arriving now. */
    method Update(processes: seq<Process> := [])
      requires Valid()
      modifies this, buff
      ensures Valid()
      ensures State() == Tick(old(State()), processes)
    {
      AdmitArrivals(processes);
      RetryBuffer();
      AgeAndRecalculate();
    }
  }
}
