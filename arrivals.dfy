/** Selecting the processes that arrive at a given instant
    (`getProcessesToAdd`): the arrivals are handed out, everything else stays
    pending, both in their original order. */
module Arrivals {
  import opened Memory

  /** The processes of `processes` whose arrival time is `time`, in order. */
  function Arrived(processes: seq<Process>, time: int): (r: seq<Process>)
    ensures forall k :: 0 <= k < |r| ==> r[k].arribal == time
    ensures |r| <= |processes|
  {
    if processes == [] then []
    else
      var last := processes[|processes| - 1];
      Arrived(processes[..|processes| - 1], time) + if last.arribal == time then [last] else []
  }

  /** The processes of `processes` whose arrival time is not `time`, in order. */
  function Pending(processes: seq<Process>, time: int): (r: seq<Process>)
    ensures forall k :: 0 <= k < |r| ==> r[k].arribal != time
    ensures |r| <= |processes|
  {
    if processes == [] then []
    else
      var last := processes[|processes| - 1];
      Pending(processes[..|processes| - 1], time) + if last.arribal != time then [last] else []
  }

  /** Together the arrivals and the pending processes are the input, each
      process exactly as often as it occurs there. */
  lemma {:induction false} ArrivalsPartition(processes: seq<Process>, time: int)
    ensures multiset(Arrived(processes, time)) + multiset(Pending(processes, time)) == multiset(processes)
  {
    if processes != [] {
      var front := processes[..|processes| - 1];
      var last := processes[|processes| - 1];
      ArrivalsPartition(front, time);
      assert processes == front + [last];
      assert multiset(processes) == multiset(front) + multiset{last};
      var arrived, pending := Arrived(front, time), Pending(front, time);
      if last.arribal == time {
        assert Arrived(processes, time) == arrived + [last];
        assert multiset(Arrived(processes, time)) == multiset(arrived) + multiset{last};
        assert Pending(processes, time) == pending;
      } else {
        assert Arrived(processes, time) == arrived;
        assert Pending(processes, time) == pending + [last];
        assert multiset(Pending(processes, time)) == multiset(pending) + multiset{last};
      }
    }
  }

  /** A process is handed out exactly when it is in the input and arrives
      now, and stays pending exactly when it is in the input and does not. */
  lemma ArrivalsMembers(processes: seq<Process>, time: int, p: Process)
    ensures p in Arrived(processes, time) <==> p in processes && p.arribal == time
    ensures p in Pending(processes, time) <==> p in processes && p.arribal != time
  {
    ArrivalsPartition(processes, time);
    assert p in Arrived(processes, time) ==> p in multiset(processes);
    assert p in Pending(processes, time) ==> p in multiset(processes);
    if p in processes {
      assert p in multiset(processes);
    }
  }

  /** `s` is `t` with some elements left out and the rest in their order:
      the `k`-th element of `s` is found at position `idx[k]` of `t`, and the
      positions increase. */
  ghost predicate Subsequence(s: seq<Process>, t: seq<Process>)
  {
    exists idx: seq<nat> ::
      && |idx| == |s|
      && (forall k :: 0 <= k < |idx| ==> idx[k] < |t| && s[k] == t[idx[k]])
      && (forall a, b :: 0 <= a < b < |idx| ==> idx[a] < idx[b])
  }

  lemma {:induction false} SubsequenceExtend(s: seq<Process>, t: seq<Process>, x: Process, keep: bool)
    requires Subsequence(s, t)
    ensures Subsequence(s + (if keep then [x] else []), t + [x])
  {
    var idx: seq<nat> :| |idx| == |s|
      && (forall k :: 0 <= k < |idx| ==> idx[k] < |t| && s[k] == t[idx[k]])
      && (forall a, b :: 0 <= a < b < |idx| ==> idx[a] < idx[b]);
    var s' := s + (if keep then [x] else []);
    var t' := t + [x];
    var idx' := idx + (if keep then [|t|] else []);
    assert |idx'| == |s'|;
    forall k | 0 <= k < |idx'| ensures idx'[k] < |t'| && s'[k] == t'[idx'[k]] {
      if k < |idx| {
        assert idx'[k] == idx[k] && s'[k] == s[k] && t'[idx[k]] == t[idx[k]];
      }
    }
    assert Subsequence(s', t');
  }

  /** Both results keep the input's order. */
  lemma {:induction false} ArrivalsOrdered(processes: seq<Process>, time: int)
    ensures Subsequence(Arrived(processes, time), processes)
    ensures Subsequence(Pending(processes, time), processes)
  {
    if processes == [] {
      var idx: seq<nat> := [];
      assert |idx| == |Arrived(processes, time)|;
      assert Subsequence(Arrived(processes, time), processes);
      assert |idx| == |Pending(processes, time)|;
      assert Subsequence(Pending(processes, time), processes);
    } else {
      var front := processes[..|processes| - 1];
      var last := processes[|processes| - 1];
      ArrivalsOrdered(front, time);
      assert processes == front + [last];
      SubsequenceExtend(Arrived(front, time), front, last, last.arribal == time);
      SubsequenceExtend(Pending(front, time), front, last, last.arribal != time);
    }
  }

  /** `getProcessesToAdd`: returns the processes arriving at `time` and, in
      place of the caller's list, the ones still pending. */
  method GetProcessesToAdd(processes: seq<Process>, time: int) returns (ready: seq<Process>, remaining: seq<Process>)
    ensures ready == Arrived(processes, time)
    ensures remaining == Pending(processes, time)
    ensures multiset(ready) + multiset(remaining) == multiset(processes)
  {
    ready := [];
    for k := 0 to |processes|
      invariant ready == Arrived(processes[..k], time)
    {
      assert processes[..k + 1][..k] == processes[..k];
      if processes[k].arribal == time {
        ready := ready + [processes[k]];
      }
    }
    remaining := [];
    for k := 0 to |processes|
      invariant remaining == Pending(processes[..k], time)
    {
      assert processes[..k + 1][..k] == processes[..k];
      if processes[k].arribal != time {
        remaining := remaining + [processes[k]];
      }
    }
    assert processes[..|processes|] == processes;
    ArrivalsPartition(processes, time);
  }
}
