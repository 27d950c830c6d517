/** Processes and memory fragments: the `Process` and `PageSpace` records of the
    simulator, the two exceptions it raises, and sums over a fragment list. */
module Memory {

  datatype Option<+T> = None | Some(value: T)

  /** The two exceptions of the allocator: `InsuficientFragmentSpaceError`
      (no fragment can take the process now) and `NoMoreSpaceError` (the
      process is larger than the whole memory). */
  datatype Error = InsufficientSpace | NoMoreSpace

  datatype Result<+T> = Success(value: T) | Failure(error: Error)

  /** A process: its name, arrival time, memory demand and remaining duration. */
  datatype Process = Process(name: string, arribal: int, memory: int, execTime: int)

  /** The outcome of splitting a free fragment: the part now holding the
      process and the free remainder. */
  datatype Split = Split(occupied: PageSpace, remainder: PageSpace)

  /** A fragment of memory covering positions `start` to `end`, `space` cells
      long, free or holding one process. */
  datatype PageSpace = PageSpace(start: int, end: int, space: int, process: Option<Process>)
  {
    predicate IsFree() { process.None? }

    /** The end position agrees with the start and the length. */
    predicate WellFormed() { end == start + space - 1 }

    /** Changes the length only; the extent and the occupant stay as they are. */
    function Resize(newSpace: int): (r: PageSpace)
      ensures r.space == newSpace
      ensures r.start == start && r.end == end && r.process == process
    {
      this.(space := newSpace)
    }

    /** Places `p` at the start of this fragment and returns the free
        remainder. Fails, changing nothing, when `p` needs more than `space`.
        The fragment is not checked to be free. */
    function InsertProcess(p: Process): (r: Result<Split>)
      ensures r.Failure? <==> p.memory > space
      ensures r.Failure? ==> r.error == InsufficientSpace
      ensures r.Success? ==>
        var Split(occupied, remainder) := r.value;
        && occupied.process == Some(p) && occupied.space == p.memory
        && occupied.start == start && occupied.end == start + p.memory - 1
        && remainder.IsFree() && remainder.space >= 0
        && remainder.start == occupied.end + 1 && remainder.end == end
        && occupied.space + remainder.space == space
        && (WellFormed() ==> occupied.WellFormed() && remainder.WellFormed())
    {
      if p.memory > space then Failure(InsufficientSpace)
      else
        var fragment := NewPageSpace(space - p.memory, None).(start := start + p.memory, end := end);
        var occupied := this.(process := Some(p), end := p.memory + start - 1).Resize(p.memory);
        Success(Split(occupied, fragment))
    }
  }

  /** A fresh fragment of `space` cells at position 0. */
  function NewPageSpace(space: int, process: Option<Process>): (r: PageSpace)
    ensures r.start == 0 && r.space == space && r.process == process
    ensures r.WellFormed()
  {
    PageSpace(0, space - 1, space, process)
  }

  /** Sum of the lengths of the fragments. */
  function Total(pages: seq<PageSpace>): int
  {
    if pages == [] then 0 else pages[0].space + Total(pages[1..])
  }

  predicate HasFree(pages: seq<PageSpace>)
  {
    exists k :: 0 <= k < |pages| && pages[k].IsFree()
  }

  /** The processes held by the fragments. */
  function Occupants(pages: seq<PageSpace>): multiset<Process>
  {
    if pages == [] then multiset{} else Held(pages[0]) + Occupants(pages[1..])
  }

  function Held(page: PageSpace): multiset<Process>
  {
    if page.process.Some? then multiset{page.process.value} else multiset{}
  }

  lemma {:induction false} TotalConcat(a: seq<PageSpace>, b: seq<PageSpace>)
    ensures Total(a + b) == Total(a) + Total(b)
  {
    if a == [] {
      assert a + b == b;
    } else {
      assert (a + b)[1..] == a[1..] + b;
      TotalConcat(a[1..], b);
    }
  }

  lemma {:induction false} OccupantsConcat(a: seq<PageSpace>, b: seq<PageSpace>)
    ensures Occupants(a + b) == Occupants(a) + Occupants(b)
  {
    if a == [] {
      assert a + b == b;
    } else {
      assert (a + b)[1..] == a[1..] + b;
      OccupantsConcat(a[1..], b);
    }
  }

  /** Replacing one fragment changes the total by the difference of lengths. */
  lemma TotalUpdate(pages: seq<PageSpace>, i: nat, x: PageSpace)
    requires i < |pages|
    ensures Total(pages[i := x]) == Total(pages) - pages[i].space + x.space
  {
    assert pages == pages[..i] + [pages[i]] + pages[i + 1..];
    assert pages[i := x] == pages[..i] + [x] + pages[i + 1..];
    TotalConcat(pages[..i] + [pages[i]], pages[i + 1..]);
    TotalConcat(pages[..i], [pages[i]]);
    TotalConcat(pages[..i] + [x], pages[i + 1..]);
    TotalConcat(pages[..i], [x]);
  }

  /** Replacing one fragment swaps its occupant for the new one's. */
  lemma OccupantsUpdate(pages: seq<PageSpace>, i: nat, x: PageSpace)
    requires i < |pages|
    ensures Occupants(pages[i := x]) + Held(pages[i]) == Occupants(pages) + Held(x)
  {
    assert pages == pages[..i] + [pages[i]] + pages[i + 1..];
    assert pages[i := x] == pages[..i] + [x] + pages[i + 1..];
    OccupantsConcat(pages[..i] + [pages[i]], pages[i + 1..]);
    OccupantsConcat(pages[..i], [pages[i]]);
    OccupantsConcat(pages[..i] + [x], pages[i + 1..]);
    OccupantsConcat(pages[..i], [x]);
  }

  /** Two lists whose lengths agree position by position have the same total. */
  lemma {:induction false} TotalSameSpaces(a: seq<PageSpace>, b: seq<PageSpace>)
    requires |a| == |b|
    requires forall k :: 0 <= k < |a| ==> a[k].space == b[k].space
    ensures Total(a) == Total(b)
  {
    if a != [] {
      TotalSameSpaces(a[1..], b[1..]);
    }
  }

  /** A permutation of a fragment list has the same total. */
  lemma {:induction false} TotalPermutation(a: seq<PageSpace>, b: seq<PageSpace>)
    requires multiset(a) == multiset(b)
    ensures Total(a) == Total(b)
    decreases |a|
  {
    if a != [] {
      var j := MatchHead(a, b);
      RemoveAt(b, j);
      TotalPermutation(a[1..], b[..j] + b[j + 1..]);
      assert Total(a) == a[0].space + Total(a[1..]);
    } else {
      assert |multiset(b)| == 0;
    }
  }

  /** A permutation of a fragment list has the same occupants. */
  lemma {:induction false} OccupantsPermutation(a: seq<PageSpace>, b: seq<PageSpace>)
    requires multiset(a) == multiset(b)
    ensures Occupants(a) == Occupants(b)
    decreases |a|
  {
    if a != [] {
      var j := MatchHead(a, b);
      RemoveAtOccupants(b, j);
      OccupantsPermutation(a[1..], b[..j] + b[j + 1..]);
      assert Occupants(a) == Held(a[0]) + Occupants(a[1..]);
    } else {
      assert |multiset(b)| == 0;
    }
  }

  /** The first element of `a` sits at some position `j` of its permutation
      `b`, and the rest of `a` is a permutation of `b` without position `j`. */
  lemma MatchHead(a: seq<PageSpace>, b: seq<PageSpace>) returns (j: nat)
    requires multiset(a) == multiset(b) && a != []
    ensures j < |b| && b[j] == a[0]
    ensures multiset(a[1..]) == multiset(b[..j] + b[j + 1..])
  {
    assert a[0] in multiset(b);
    j :| 0 <= j < |b| && b[j] == a[0];
    RemoveAt(b, j);
    assert a == [a[0]] + a[1..];
    Cancel(multiset(a[1..]), multiset(b[..j] + b[j + 1..]), multiset{a[0]});
  }

  lemma Cancel<T>(m: multiset<T>, n: multiset<T>, x: multiset<T>)
    requires m + x == n + x
    ensures m == n
  {
    forall y ensures m[y] == n[y] {
      assert (m + x)[y] == (n + x)[y];
    }
  }

  /** Removing the fragment at `j` takes one copy of it out of the multiset
      and its length out of the total. */
  lemma RemoveAt(b: seq<PageSpace>, j: nat)
    requires j < |b|
    ensures multiset(b[..j] + b[j + 1..]) + multiset{b[j]} == multiset(b)
    ensures Total(b[..j] + b[j + 1..]) == Total(b) - b[j].space
  {
    var front := b[..j];
    var back := b[j + 1..];
    Split3(b, j);
    TotalConcat(front + [b[j]], back);
    TotalConcat(front, [b[j]]);
    TotalConcat(front, back);
  }

  /** Removing the fragment at `j` takes its occupant out of the occupants. */
  lemma RemoveAtOccupants(b: seq<PageSpace>, j: nat)
    requires j < |b|
    ensures Occupants(b[..j] + b[j + 1..]) + Held(b[j]) == Occupants(b)
  {
    var front := b[..j];
    var back := b[j + 1..];
    Split3(b, j);
    OccupantsConcat(front + [b[j]], back);
    OccupantsConcat(front, [b[j]]);
    OccupantsConcat(front, back);
    assert [b[j]][1..] == [];
  }

  lemma Split3(b: seq<PageSpace>, j: nat)
    requires j < |b|
    ensures b == b[..j] + [b[j]] + b[j + 1..]
    ensures multiset(b) == multiset(b[..j]) + multiset{b[j]} + multiset(b[j + 1..])
  {
    assert b == b[..j] + [b[j]] + b[j + 1..];
  }
}
