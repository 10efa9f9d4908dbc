/**
 `low` is exact. Any run can be relabelled: the same requests, schedule and outcomes with other
 payloads. Relabelled with a log that marks entry low + 1, it leaves a graph that does not
 reflect that entry.
 */
module RaftExactness {
  import opened Wrappers
  import opened ReplicatedGraph
  import opened RaftFollower
  import Runs = RaftRuns
  import opened RaftInterleaving

  // ---------------------------------------------------------------------------
  // The marker log
  // ---------------------------------------------------------------------------

  const Y := PropertyCell("node", "y")

  function Assign(key: Key, n: int): Payload {
    Record(NodeEvent("node", PropertySet(key, Integer(n))))
  }

  /** A log in which entry k sets y to 1, every earlier one sets it to 0 and no later one
      writes it. */
  function Marker(k: nat, v: nat): Log {
    seq(v, i => Mark(k, i + 1))
  }

  function Mark(k: nat, n: int): Payload {
    if n < k then Assign("y", 0) else if n == k then Assign("y", 1) else Assign("x", 0)
  }

  lemma MarkerEntry(k: nat, v: nat, n: nat)
    requires 1 <= n <= v
    ensures Target(Marker(k, v)[n - 1]) == Some(Y) <==> n <= k
    ensures n <= k ==> Written(Marker(k, v)[n - 1]) == Holds(Integer(if n == k then 1 else 0))
  {
    assert "x"[0] != "y"[0];
    assert Marker(k, v)[n - 1] == Mark(k, n);
  }

  lemma {:induction false} MarkerValue(k: nat, v: nat, n: nat)
    requires 1 <= k <= n <= v
    ensures Read(Replay(Marker(k, v), n), Y) == Holds(Integer(1))
    decreases n
  {
    ReadAfterApply(Replay(Marker(k, v), n - 1), Marker(k, v)[n - 1], Y);
    MarkerEntry(k, v, n);
    if n > k {
      MarkerValue(k, v, n - 1);
    }
  }

  /** Entry k is missing from a graph that reflects the log up to k - 1. */
  predicate Stale(s: System, k: nat) {
    s.low + 1 == k ==> Read(s.graph, Y) != Holds(Integer(1))
  }

  lemma StepKeepsStale(s: System, ev: Event, k: nat, v: nat)
    requires TasksDrawn(s, Marker(k, v)) && 1 <= k && Stale(s, k)
    ensures Stale(Step(s, ev), k)
  {
    if ev.Handle? && Enabled(s, ev) {
      var task := s.tasks[ev.task];
      var e := task.sorted[task.i];
      if Classify(e.seqNo, task.committed, task.leaderCommit).TryApply? {
        assert e in task.sorted;
        ReadAfterApply(s.graph, e.payload, Y);
        MarkerEntry(k, v, e.seqNo);
      }
    }
  }

  lemma {:induction false} RunKeepsStale(s: System, events: seq<Event>, k: nat, v: nat)
    requires TasksDrawn(s, Marker(k, v)) && DrawnEvents(events, Marker(k, v)) && 1 <= k && Stale(s, k)
    ensures Stale(RunEvents(s, events), k)
    decreases |events|
  {
    if events != [] {
      StepKeepsDrawn(s, events[0], Marker(k, v));
      StepKeepsStale(s, events[0], k, v);
      RunKeepsStale(Step(s, events[0]), events[1..], k, v);
    }
  }

  // ---------------------------------------------------------------------------
  // Relabelling
  // ---------------------------------------------------------------------------

  /** The same entry numbers with the marker log's payloads. */
  function Marked(entries: seq<LogEntry>, k: nat): (r: seq<LogEntry>)
    ensures |r| == |entries|
    ensures forall i :: 0 <= i < |r| ==> r[i] == LogEntry(entries[i].seqNo, Mark(k, entries[i].seqNo))
  {
    if entries == [] then []
    else [LogEntry(entries[0].seqNo, Mark(k, entries[0].seqNo))] + Marked(entries[1..], k)
  }

  /** A fault with which a marker entry fares as the payload fares with the given one. */
  function SameOutcome(p: Payload, fault: Fault): Fault {
    if Applies(p, fault) then NoFault else if LandsAnyway(p, fault) then FailsAfter else FailsBefore
  }

  function Relabel1(s: System, ev: Event, k: nat): Event {
    match ev
    case Load(t, rpc) => Load(t, AppendEntries(Marked(rpc.entries, k), rpc.leaderCommit))
    case Handle(t, fault) =>
      if Enabled(s, ev) then Handle(t, SameOutcome(s.tasks[t].sorted[s.tasks[t].i].payload, fault)) else ev
    case _ => ev
  }

  function Relabel(s: System, events: seq<Event>, k: nat): seq<Event>
    decreases |events|
  {
    if events == [] then [] else [Relabel1(s, events[0], k)] + Relabel(Step(s, events[0]), events[1..], k)
  }

  function MarkedTask(task: Task, k: nat): Task {
    match task
    case Running(sorted, leaderCommit, i, committed) => Running(Marked(sorted, k), leaderCommit, i, committed)
    case Swapped(_, _) => task
  }

  function MarkedTasks(tasks: map<nat, Task>, k: nat): map<nat, Task> {
    map t | t in tasks :: MarkedTask(tasks[t], k)
  }

  /** The two systems differ in payloads and in what these wrote, and in nothing else. */
  predicate Alike(s: System, m: System, k: nat) {
    m == s.(graph := m.graph, tasks := MarkedTasks(s.tasks, k))
  }

  lemma SetTask(tasks: map<nat, Task>, t: nat, task: Task, k: nat)
    ensures MarkedTasks(tasks[t := task], k) == MarkedTasks(tasks, k)[t := MarkedTask(task, k)]
  {
  }

  lemma DropTask(tasks: map<nat, Task>, t: nat, k: nat)
    ensures MarkedTasks(tasks - {t}, k) == MarkedTasks(tasks, k) - {t}
  {
  }

  lemma MarkedFront(e: LogEntry, rest: seq<LogEntry>, k: nat)
    ensures Marked([e] + rest, k) == [LogEntry(e.seqNo, Mark(k, e.seqNo))] + Marked(rest, k)
  {
    assert ([e] + rest)[1..] == rest;
  }

  lemma {:induction false} InsertMarked(e: LogEntry, sorted: seq<LogEntry>, k: nat)
    requires SortedBySeq(sorted) && SortedBySeq(Marked(sorted, k))
    ensures InsertBySeq(LogEntry(e.seqNo, Mark(k, e.seqNo)), Marked(sorted, k)) == Marked(InsertBySeq(e, sorted), k)
    decreases |sorted|
  {
    if sorted == [] || e.seqNo <= sorted[0].seqNo {
      MarkedFront(e, sorted, k);
    } else {
      assert Marked(sorted, k)[1..] == Marked(sorted[1..], k);
      InsertMarked(e, sorted[1..], k);
      MarkedFront(sorted[0], InsertBySeq(e, sorted[1..]), k);
    }
  }

  lemma {:induction false} SortMarked(entries: seq<LogEntry>, k: nat)
    ensures SortBySeq(Marked(entries, k)) == Marked(SortBySeq(entries), k)
  {
    if entries != [] {
      SortMarked(entries[1..], k);
      assert Marked(entries, k)[1..] == Marked(entries[1..], k);
      InsertMarked(entries[0], SortBySeq(entries[1..]), k);
    }
  }

  /** A marker entry applies, lands or fails as the entry it stands for. */
  lemma OutcomeSame(p: Payload, fault: Fault, k: nat, n: nat)
    ensures Applies(Mark(k, n), SameOutcome(p, fault)) <==> Applies(p, fault)
    ensures LandsAnyway(Mark(k, n), SameOutcome(p, fault)) <==> LandsAnyway(p, fault)
  {
  }

  lemma HandleAlike(s: System, m: System, ev: Event, k: nat)
    requires Alike(s, m, k) && ev.Handle? && Enabled(s, ev)
    ensures Alike(Step(s, ev), Step(m, Relabel1(s, ev, k)), k)
  {
    var t, task := ev.task, s.tasks[ev.task];
    var e := task.sorted[task.i];
    OutcomeSame(e.payload, ev.fault, k, e.seqNo);
    SetTask(s.tasks, t, task.(i := |task.sorted|), k);
    SetTask(s.tasks, t, task.(i := task.i + 1), k);
    SetTask(s.tasks, t, task.(i := task.i + 1, committed := e.seqNo), k);
  }

  lemma StepAlike(s: System, m: System, ev: Event, k: nat)
    requires Alike(s, m, k)
    ensures Alike(Step(s, ev), Step(m, Relabel1(s, ev, k)), k)
  {
    if !Enabled(s, ev) {
    } else if ev.Handle? {
      HandleAlike(s, m, ev, k);
    } else {
      OtherAlike(s, m, ev, k);
    }
  }

  lemma OtherAlike(s: System, m: System, ev: Event, k: nat)
    requires Alike(s, m, k) && Enabled(s, ev) && !ev.Handle?
    ensures Alike(Step(s, ev), Step(m, Relabel1(s, ev, k)), k)
  {
    match ev
    case Load(t, rpc) =>
      SortMarked(rpc.entries, k);
      SetTask(s.tasks, t, Running(SortBySeq(rpc.entries), rpc.leaderCommit, 0, s.mem), k);
    case Swap(t) => SetTask(s.tasks, t, Swapped(s.tasks[t].committed, s.mem), k);
    case Finish(t, _) => DropTask(s.tasks, t, k);
    case Crash(_) =>
  }

  lemma {:induction false} RunAlike(s: System, m: System, events: seq<Event>, k: nat)
    requires Alike(s, m, k)
    ensures Alike(RunEvents(s, events), RunEvents(m, Relabel(s, events, k)), k)
    decreases |events|
  {
    if events != [] {
      var ev := Relabel1(s, events[0], k);
      StepAlike(s, m, events[0], k);
      RunAlike(Step(s, events[0]), Step(m, ev), events[1..], k);
      RunFront(m, ev, Relabel(Step(s, events[0]), events[1..], k));
    }
  }

  lemma MarkedDrawn(entries: seq<LogEntry>, log: Log, k: nat)
    requires Runs.FromLog(entries, log)
    ensures Runs.FromLog(Marked(entries, k), Marker(k, |log|))
  {
    forall e | e in Marked(entries, k) && e.seqNo > 0
      ensures e.seqNo <= |log| && e.payload == Marker(k, |log|)[e.seqNo - 1]
    {
      var i :| 0 <= i < |entries| && Marked(entries, k)[i] == e;
      assert entries[i] in entries;
    }
  }

  lemma {:induction false} RelabelDrawn(s: System, events: seq<Event>, log: Log, k: nat)
    requires DrawnEvents(events, log)
    ensures DrawnEvents(Relabel(s, events, k), Marker(k, |log|))
    decreases |events|
  {
    if events != [] {
      assert events[0] in events;
      RelabelDrawn(Step(s, events[0]), events[1..], log, k);
      if events[0].Load? {
        MarkedDrawn(events[0].rpc.entries, log, k);
      }
    }
  }

  // ---------------------------------------------------------------------------
  // No sharper bound holds
  // ---------------------------------------------------------------------------

  lemma NotMarked(s: System, v: nat)
    requires s.low < s.high <= v && Stale(s, s.low + 1)
    ensures !Between(s.graph, Marker(s.low + 1, v), s.low + 1, s.high)
  {
    var k := s.low + 1;
    forall n: nat | k <= n <= s.high ensures Read(s.graph, Y) != Read(Replay(Marker(k, v), n), Y) {
      MarkerValue(k, v, n);
    }
    assert !CellBetween(s.graph, Marker(k, v), Y, k, s.high);
  }

  /** For every run whose graph is not known to be complete: the same run on the marker log of
      entry low + 1 has the same watermarks, landings and replies, and its graph does not
      reflect that entry. So nothing better than `low` can be said of the run. */
  lemma LowIsExact(events: seq<Event>, log: Log)
    requires DrawnEvents(events, log) && RunEvents(START, events).low < RunEvents(START, events).high
    ensures var s := RunEvents(START, events);
            var k := s.low + 1;
            var m := RunEvents(START, Relabel(START, events, k));
            && DrawnEvents(Relabel(START, events, k), Marker(k, |log|)) && Alike(s, m, k)
            && s.high <= |log| && !Between(m.graph, Marker(k, |log|), k, s.high)
  {
    var k := RunEvents(START, events).low + 1;
    StartIsStale(k);
    InterleavedConvergence(events, log);
    RelabelledRun(START, events, log, k);
  }

  lemma StartIsStale(k: nat)
    ensures START.tasks == map[] && Stale(START, k)
  {
  }

  lemma RelabelledStale(start: System, events: seq<Event>, log: Log, k: nat)
    requires DrawnEvents(events, log) && start.tasks == map[] && Stale(start, k) && k >= 1
    ensures DrawnEvents(Relabel(start, events, k), Marker(k, |log|))
    ensures Stale(RunEvents(start, Relabel(start, events, k)), k)
  {
    RelabelDrawn(start, events, log, k);
    RunKeepsStale(start, Relabel(start, events, k), k, |log|);
  }

  lemma AlikeNotMarked(s: System, m: System, k: nat, v: nat)
    requires Alike(s, m, k) && Stale(m, k) && s.low + 1 == k && s.low < s.high <= v
    ensures !Between(m.graph, Marker(k, v), k, s.high)
  {
    NotMarked(m, v);
  }

  lemma RelabelledRun(start: System, events: seq<Event>, log: Log, k: nat)
    requires DrawnEvents(events, log) && start.tasks == map[] && Stale(start, k)
    requires var s := RunEvents(start, events); s.low + 1 == k && s.low < s.high <= |log|
    ensures var s, m := RunEvents(start, events), RunEvents(start, Relabel(start, events, k));
            && DrawnEvents(Relabel(start, events, k), Marker(k, |log|)) && Alike(s, m, k)
            && !Between(m.graph, Marker(k, |log|), k, s.high)
  {
    assert Alike(start, start, k);
    RunAlike(start, start, events, k);
    RelabelledStale(start, events, log, k);
    AlikeNotMarked(RunEvents(start, events), RunEvents(start, Relabel(start, events, k)), k, |log|);
  }
}
