# Contiguous memory allocation simulator, modelled in Dafny

This project models the core of `gestormemoria.py`: a discrete-time simulator
of contiguous, variable-partition memory allocation. A `ProcessLine` owns a
memory of `size` cells (2000 by default), split into fragments (`PageSpace`)
that are free or hold one `Process`. Each tick (`update`):

1. the processes arriving now are offered in order;
2. the overflow buffer (`ProcessBuffer`) is retried once for each entry it
   has at that point;
3. every occupant's remaining time goes down by one, and a fragment is freed
   when that reaches 0 or below;
4. the clock advances;
5. free fragments that are neighbours in the list are joined, and the list is
   sorted by start position (`recalculateSpace`).

A placement asks the policy (`searchPage` of `BestFitSorting` or
`WorstFitSorting`) for a fragment. If the policy answers, the process takes
the start of that fragment and the free remainder is appended at the back of
the list. If not, the process waits in the buffer. A process larger than the
whole memory is dropped.

Modules:

- `Memory` (memory.dfy): the `Process` and `PageSpace` records, the two
  errors as a `Result`, and sums over a fragment list.
- `Sorting` (sorting.dfy): Python's stable sort by an integer key, computed
  on positions.
- `Placement` (placement.dfy): the two policies as one operation over a
  two-case `Strategy`.
- `Buffer` (buffer.dfy): the `ProcessBuffer` class.
- `Coalesce` (coalesce.dfy): `recalculateSpace` as a function, with its
  properties.
- `Timeline` (timeline.dfy): the `ProcessLine` class. A value `Line` is a
  snapshot of its state. The functions `Insert`, `InsertBatch`, `Admit`,
  `RetryPass`, `Finish` and `Tick` say what each operation does to a
  snapshot, and every method of the class is proved to do exactly that.
  The steps of `update` are separate methods: `AdmitArrivals`, the retry pass
  `RetryBuffer` (one step is `RetryOne`), and `AgeAndRecalculate`, which runs
  the aging loop `AgeResidents` and then `RecalculateSpace`.
- `Arrivals` (arrivals.dfy): `getProcessesToAdd`.
- `Scenarios` (scenarios.dfy): concrete situations that show the behaviour
  described below.

The invariant kept by every `ProcessLine` operation (`Timeline.Inv`) has
three parts:

- the fragments' lengths add up to `size`;
- at least one fragment is free;
- every buffered process fits the memory as a whole.

Behaviour of the code that its class names and its coalescing step do not
suggest, modelled as the code has it:

- **The policy names are swapped.** Both policies scan a copy of the list
  sorted by length and keep the last free fragment that fits. Sorted
  ascending, `BestFitSorting` picks the LARGEST free fragment. Sorted
  descending, `WorstFitSorting` picks the SMALLEST
  (`Scenarios.PoliciesSwapped`).
- **Ties go to the later fragment.** Both sorts are stable, so between free
  fragments of equal length the later one in the list wins
  (`Scenarios.TieGoesToLater`).
- **The fast-fail can reject a request that fits.** Both policies first
  reject the request when the smallest free fragment is shorter than it. So
  a request can be turned down while a longer free fragment would take it
  (`Scenarios.FastFailRejectsFittingRequest`).
- **The list is not always contiguous.** Split remainders are appended at
  the back of the list, and the coalescing pass joins free fragments that
  are neighbours in the LIST. A joined fragment can then end before it
  starts, with a length that runs past the end of the memory, and the sorted
  list is no longer contiguous (`Scenarios.RemainderAppended`,
  `Scenarios.CoalescingJoinsDistantFragments`). Contiguity is therefore
  proved only for a list that is already sorted and contiguous
  (`Coalesce.RecalcTidy`).

## Model

| member | source | states |
|---|---|---|
| Memory.NewPageSpace | gestormemoria.py:93-104 | a new fragment starts at 0, has the given length and occupant, and ends at length - 1 |
| Memory.OccupantsPermutation | gestormemoria.py:328 | reordering the fragment list keeps its occupants |
| Memory.PageSpace.Resize | gestormemoria.py:136-142 | only the length changes; extent and occupant are kept |
| Memory.PageSpace.InsertProcess | gestormemoria.py:114-134 | fails with InsufficientSpace exactly when the process needs more than the fragment's length; otherwise the fragment holds the process from its old start with the process's length, the free remainder starts right after it and keeps the old end, the two lengths add up to the old one, and a well-formed fragment splits into two well-formed ones |
| Sorting.SortPositions | gestormemoria.py:182-183 | the stable sort by key yields every position exactly once, ordered by key with equal keys in list order |
| Sorting.SortPositionsSorted | gestormemoria.py:328 | on keys already ascending, the stable sort leaves every position in place |
| Placement.MinFree | gestormemoria.py:175-176 | the length of some free fragment, and no free fragment is shorter |
| Placement.Pick | gestormemoria.py:181-187 | a free fragment among the first n that outranks every other free one among them |
| Placement.ChosenUnique | gestormemoria.py:181-187 | at most one fragment outranks all free fragments, so the selection is determined |
| Placement.SearchPageSpec | gestormemoria.py:174-188 | fails with InsufficientSpace iff some free fragment is shorter than the request; a one-fragment list answers 0; otherwise the answer is the free fragment of greatest length (BestFitSorting) or least length (WorstFitSorting), ties to the later one, and it fits the request |
| Placement.ScanStep | gestormemoria.py:184-187 | one step of the scan keeps the last qualifying fragment ahead, in the policy's order, of every qualifying fragment seen |
| Placement.ScanChoosesPick | gestormemoria.py:181-188 | past the fast-fail, the scan of the sorted copy ends on the reference selection |
| Placement.SearchPage | gestormemoria.py:171-206 | the sort-and-overwrite scan of both policies answers exactly `SearchPageSpec` |
| Buffer.FirstFit | gestormemoria.py:73-75 | none iff no queued process fits; otherwise the first position whose process fits, all earlier ones not fitting |
| Buffer.NextProcess | gestormemoria.py:62-75 | hands out the first fitting process and removes only it, keeping the rest in order, or hands out nothing and keeps the queue; the handed-out process fits, and nothing is lost or duplicated |
| Buffer.ProcessBuffer.constructor | gestormemoria.py:44-52 | the queue holds the given processes in order |
| Buffer.ProcessBuffer.AddToBuffer | gestormemoria.py:54-60 | the process is appended at the back |
| Buffer.ProcessBuffer.GetNextProcess | gestormemoria.py:62-75 | result and new queue are exactly `NextProcess` of the old queue |
| Coalesce.Merge | gestormemoria.py:322-324 | the joined fragment keeps the first start and occupant, takes the second end, and its length is the sum |
| Coalesce.JoinAt | gestormemoria.py:322-325 | one element fewer, the same total, the joined fragment in place of the first, every other fragment kept in order; only the second fragment's occupant leaves the occupants |
| Coalesce.MergeFrom | gestormemoria.py:318-327 | the merge pass never lengthens the list, keeps the total and the occupants, and keeps a free fragment if there was one |
| Coalesce.MergeFromKeepsResidents | gestormemoria.py:318-327 | every occupied fragment comes through the merge pass unchanged |
| Coalesce.MergeFromCoalesced | gestormemoria.py:318-327 | after the merge pass no two list neighbours are both free, whatever the input |
| Coalesce.JoinAtTidy | gestormemoria.py:322-325 | joining two memory neighbours of a sorted contiguous list keeps it sorted and contiguous |
| Coalesce.MergeFromTidy | gestormemoria.py:318-327 | on a sorted contiguous list the merge pass keeps it sorted and contiguous |
| Coalesce.MergeFromCoalescedFixed | gestormemoria.py:318-327 | a list with no two free neighbours passes through the merge pass unchanged |
| Coalesce.SortByStart | gestormemoria.py:328 | a permutation of the list in ascending start order |
| Coalesce.SortByStartSorted | gestormemoria.py:328 | a list already in start order is left as it is |
| Coalesce.Recalc | gestormemoria.py:314-328 | keeps the total and the occupants, never lengthens the list, ends sorted by start, keeps a free fragment |
| Coalesce.RecalcKeepsResidents | gestormemoria.py:314-328 | every occupied fragment is still in the list after coalescing, unchanged |
| Coalesce.RecalcTidy | gestormemoria.py:314-328 | on a sorted contiguous list the result is sorted, contiguous, has no two free neighbours, and a second call changes nothing |
| Coalesce.ContiguousCovers | gestormemoria.py:231-233 | a contiguous list covers the cells from its first start to that start plus the total, minus one |
| Coalesce.MergeFromKeepsFirstStart | gestormemoria.py:318-327 | the merge pass keeps the start of the first fragment of a non-empty list |
| Coalesce.RecalcCovers | gestormemoria.py:314-328 | on a sorted contiguous list, coalescing keeps the first start and the last end, so the same cells are covered |
| Timeline.Initial | gestormemoria.py:222-235 | a new line has one free fragment over cells 0 to size - 1, an empty buffer and time 1; it keeps the invariant and is sorted, contiguous and coalesced |
| Timeline.Insert | gestormemoria.py:238-260 | nothing offered: no change; larger than the memory: NoMoreSpace, nothing changed; InsufficientSpace iff a free fragment is shorter than the demand, with the process appended to the buffer and the fragments unchanged; success: the chosen fragment holds the process from its old start to start + memory - 1, one free remainder covering the rest is appended at the back, the buffer unchanged; the invariant is kept |
| Timeline.InsertConserves | gestormemoria.py:247-260 | a process no larger than the memory ends up in exactly one place, a fragment or the buffer |
| Timeline.PlacedOccupants | gestormemoria.py:254-255 | occupying a free fragment and appending a free remainder adds exactly the new occupant |
| Timeline.InsertBatch | gestormemoria.py:262-275 | insertion of each element in order, both errors swallowed, keeps the invariant |
| Timeline.InsertBatchConserves | gestormemoria.py:262-275 | after a batch the processes held or buffered are those before plus every offered process no larger than the memory |
| Timeline.MaxSpace | gestormemoria.py:330-340 | the greatest length over all fragments, occupied ones included, or -1 for an empty list |
| Timeline.TakeNextKeepsInv | gestormemoria.py:291 | taking the next process out of the buffer keeps the invariant |
| Timeline.RetryOnce | gestormemoria.py:291 | one retry keeps the invariant and what the line holds |
| Timeline.RetryOnceSteps | gestormemoria.py:291 | a retry is a take from the buffer followed by a one-element batch insertion |
| Timeline.RetryN | gestormemoria.py:289-291 | n retries keep the invariant and what the line holds |
| Timeline.RetryPass | gestormemoria.py:289-291 | the retry pass, one retry per buffered entry at its start, keeps the invariant and what the line holds |
| Timeline.Age | gestormemoria.py:292-301 | every fragment keeps its extent; free stays free; an occupant's remaining time goes down by exactly one, and its fragment is freed iff that leaves it at 0 or below; total and a free fragment are kept |
| Timeline.Admit | gestormemoria.py:287-288 | admitting the arrivals keeps the invariant |
| Timeline.AdmissionConserves | gestormemoria.py:287-291 | after admission and the retry pass the line holds what it held plus every arrival no larger than the memory |
| Timeline.Finish | gestormemoria.py:292-303 | aging, the clock and coalescing keep the invariant and the buffer, advance the time by exactly 1, leave the list sorted by start, and coalescing keeps every aged occupant |
| Timeline.Tick | gestormemoria.py:277-306 | a tick keeps the invariant, advances the time by exactly 1 and leaves the list sorted by start |
| Timeline.ProcessLine.constructor | gestormemoria.py:222-235 | the new line is `Initial` and keeps the invariant |
| Timeline.ProcessLine.InsertProcess | gestormemoria.py:238-260 | new state and outcome are exactly `Insert` of the old state |
| Timeline.ProcessLine.InsertProcesses | gestormemoria.py:262-275 | new state is exactly `InsertBatch` of the old state |
| Timeline.ProcessLine.GetMaxPageSize | gestormemoria.py:330-340 | answers `MaxSpace` of the fragment list |
| Timeline.ProcessLine.MergeNeighbours | gestormemoria.py:318-327 | the in-place merge loop leaves exactly `MergeFrom` of the old list |
| Timeline.ProcessLine.RecalculateSpace | gestormemoria.py:314-328 | the fragment list becomes `Recalc` of the old list, the invariant is kept |
| Timeline.ProcessLine.RetryOne | gestormemoria.py:291 | new state is exactly `RetryOnce` of the old state |
| Timeline.ProcessLine.RetryBuffer | gestormemoria.py:289-291 | new state is exactly `RetryPass` of the old state |
| Timeline.ProcessLine.AgeResidents | gestormemoria.py:292-301 | the fragment list becomes `Age` of the old list, the time is unchanged |
| Timeline.ProcessLine.AdmitArrivals | gestormemoria.py:287-288 | new state is exactly `Admit` of the old state |
| Timeline.ProcessLine.AgeAndRecalculate | gestormemoria.py:292-303 | new state is exactly `Finish` of the old state |
| Timeline.ProcessLine.Update | gestormemoria.py:277-306 | new state is exactly `Tick` of the old state and the arrivals, none by default |
| Arrivals.Arrived | gestormemoria.py:352 | every process handed out arrives at the given time |
| Arrivals.Pending | gestormemoria.py:353 | no process kept pending arrives at the given time |
| Arrivals.ArrivalsPartition | gestormemoria.py:352-353 | arrivals and pending processes together are the input as a multiset |
| Arrivals.ArrivalsMembers | gestormemoria.py:352-353 | a process is handed out iff it is in the input and arrives now, and kept pending iff it is in the input and does not |
| Arrivals.ArrivalsOrdered | gestormemoria.py:352-353 | both results keep the input's order |
| Arrivals.GetProcessesToAdd | gestormemoria.py:342-354 | returns exactly the arrivals and the pending processes, which together are the input |
| Scenarios.PoliciesSwapped | gestormemoria.py:171-206 | with free fragments of 50, 200 and 100 cells and a request for 40, BestFitSorting takes the 200-cell fragment and WorstFitSorting the 50-cell one |
| Scenarios.TieGoesToLater | gestormemoria.py:181-187 | between two free fragments of equal length both policies take the later one |
| Scenarios.FastFailRejectsFittingRequest | gestormemoria.py:175-177 | a request for 40 is rejected when a 10-cell fragment is free, though a 200-cell free fragment would take it |
| Scenarios.WorstFitTakesFirst | gestormemoria.py:193-206 | worst fit takes the smaller of two free fragments that fit |
| Scenarios.PlaceA | gestormemoria.py:238-260 | in a new 100-cell memory, A (30 cells) takes cells 0 to 29 and the free remainder 30 to 99 follows |
| Scenarios.PlaceB | gestormemoria.py:238-260 | B (30 cells) then takes cells 30 to 59 of that remainder, the only free fragment, leaving 60 to 99 free |
| Scenarios.AdmitBoth | gestormemoria.py:287-288 | admitting A and B together gives that memory |
| Scenarios.AgeAdmitted | gestormemoria.py:292-301 | aging frees A's fragment (one tick to run) and leaves B with four of its five ticks |
| Scenarios.FinishAdmitted | gestormemoria.py:292-303 | aging, the clock and coalescing give the sorted memory free 0-29, B 30-59, free 60-99 at time 2 |
| Scenarios.FirstTick | gestormemoria.py:277-306 | the first tick of a new 100-cell worst-fit memory with A and B arriving ends in exactly that memory |
| Scenarios.AfterFirstTickTidy | gestormemoria.py:314-328 | the memory after the first tick keeps the invariant and is sorted, contiguous and coalesced |
| Scenarios.RemainderAppended | gestormemoria.py:253-255 | placing a process in the first fragment appends its remainder at the back of the list |
| Scenarios.AfterPlacingCUnsorted | gestormemoria.py:255 | the list after that placement is out of start order |
| Scenarios.MergeTwoFree | gestormemoria.py:318-327 | two occupied fragments followed by two free ones: the merge pass joins the free pair and keeps the rest |
| Scenarios.MergedAfterPlacingC | gestormemoria.py:318-327 | on the list after placing C, the merge pass joins the fragment at 60 with the remainder at 10 |
| Scenarios.CoalescingJoinsDistantFragments | gestormemoria.py:314-328 | coalescing that list joins two free fragments that are not memory neighbours into one that ends before it starts, and the result is not contiguous |

## Left out

- Console and file output: every `print`, the truncation of `result.txt` in
  the constructor and the writes in `update`. The condition at
  gestormemoria.py:294 only shapes that output.
- `generateProcessFromFile` (text parsing), the `__main__` driver
  (`input()`, `sys.argv`, `time.sleep`) and the `__str__` methods.
- gestorgrafico.py is not part of this model. It is the Tkinter front end,
  with threads and a sleep setting.
- The exception classes and the abstract `ISorting` base class. They are
  replaced by the `Error`/`Result` and `Outcome` datatypes and the two-case
  `Strategy`.
- Update in place and aliasing of `Process` and `PageSpace` objects. Both
  are values here, and a field update replaces the list element. The lookup
  `pageList.index(copypages[i])` finds the sorted fragment by identity. It
  is modelled by sorting positions rather than fragments, which gives the
  same original position.
- Arrivals.GetProcessesToAdd: the caller's list is overwritten in place by
  slice assignment. Here the pending processes are returned as a second
  result instead.
- Placement.SearchPage: `min` over the free fragments raises `ValueError`
  when none is free. That case is excluded by a precondition rather than
  modelled. A `ProcessLine` never reaches it, because its invariant keeps a
  free fragment at all times.
- Timeline.Tick: the function states the invariant, the clock and sortedness.
  The order of the steps is its definition, and `ProcessLine.Update` is
  proved equal to it.
