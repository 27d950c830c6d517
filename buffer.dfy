/** The overflow buffer (`ProcessBuffer`): processes that could not be placed
    wait here in arrival order and are taken out by "first one that fits". */
module Buffer {
  import opened Memory

  /** Position of the first process, in queue order, that needs at most
      `maxSpace` cells. */
  function FirstFit(queue: seq<Process>, maxSpace: int): (r: Option<nat>)
    ensures r.None? <==> forall k :: 0 <= k < |queue| ==> queue[k].memory > maxSpace
    ensures r.Some? ==>
      && r.value < |queue| && queue[r.value].memory <= maxSpace
      && forall k :: 0 <= k < r.value ==> queue[k].memory > maxSpace
  {
    if queue == [] then None
    else if queue[0].memory <= maxSpace then Some(0)
    else
      match FirstFit(queue[1..], maxSpace)
      case None => None
      case Some(i) => Some(i + 1)
  }

  /** What `getNextProcess` hands out and what it leaves queued: the first
      fitting process, removed with everything else kept in order, or nothing
      with the queue as it was. Nothing is lost or duplicated. */
  function NextProcess(queue: seq<Process>, maxSpace: int): (r: (Option<Process>, seq<Process>))
    ensures FirstFit(queue, maxSpace).None? ==> r == (None, queue)
    ensures FirstFit(queue, maxSpace).Some? ==>
      var i := FirstFit(queue, maxSpace).value;
      r == (Some(queue[i]), queue[..i] + queue[i + 1..])
    ensures r.0.Some? ==> r.0.value.memory <= maxSpace
    ensures multiset(r.1) + (if r.0.Some? then multiset{r.0.value} else multiset{}) == multiset(queue)
  {
    match FirstFit(queue, maxSpace)
    case None => (None, queue)
    case Some(i) =>
      assert queue == queue[..i] + [queue[i]] + queue[i + 1..];
      (Some(queue[i]), queue[..i] + queue[i + 1..])
  }

  class ProcessBuffer {
    var processList: seq<Process>

    /** Queues the given processes one by one. */
    constructor (procList: seq<Process> := [])
      ensures processList == procList
    {
      processList := [];
      new;
      for k := 0 to |procList|
        invariant processList == procList[..k]
      {
        AddToBuffer(procList[k]);
      }
    }

    /** Appends `process` at the back of the queue. */
    method AddToBuffer(process: Process)
      modifies this
      ensures processList == old(processList) + [process]
    {
      processList := processList + [process];
    }

    /** Removes and returns the first queued process that needs at most
        `maxSpace` cells; returns nothing, leaving the queue alone, when none does. */
    method GetNextProcess(maxSpace: int) returns (r: Option<Process>)
      modifies this
      ensures (r, processList) == NextProcess(old(processList), maxSpace)
    {
      for i := 0 to |processList|
        invariant processList == old(processList)
        invariant forall k :: 0 <= k < i ==> processList[k].memory > maxSpace
      {
        if processList[i].memory <= maxSpace {
          r := Some(processList[i]);
          processList := processList[..i] + processList[i + 1..];
          return;
        }
      }
      r := None;
    }
  }
}
