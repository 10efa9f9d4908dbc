/**
 AppendEntries handlers running concurrently. Every connection has its own task; the atomic
 watermark is loaded once, swapped once, and persisted after the swap, and any other task
 may run in between. A crash drops all tasks wherever they are.
 */
module RaftInterleaving {
  import opened ReplicatedGraph
  import opened Landing
  import opened RaftFollower
  import opened RaftRuns

  /** A handler between its load and its swap, or between its swap and its response. */
  datatype Task =
    | Running(sorted: seq<LogEntry>, leaderCommit: nat, i: nat, committed: nat)
    | Swapped(committed: nat, prev: nat)

  /** `landed` are the entries applied at least once, `high` the largest of them, `low` how far
      the graph reflects the log, `reported` every last_committed sent to the leader. */
  datatype System = System(
    mem: nat, persisted: nat, graph: Graph, tasks: map<nat, Task>,
    landed: set<nat>, low: nat, high: nat, reported: set<nat>)

  const START := System(0, 0, EMPTY_GRAPH, map[], {}, 0, 0, {})

  datatype Event =
    | Load(task: nat, rpc: AppendEntries)
    | Handle(task: nat, fault: Fault)
    | Swap(task: nat)
    | Finish(task: nat, persistOk: bool)
    | Crash(read: ReadOutcome)

  predicate Enabled(s: System, ev: Event) {
    match ev
    case Load(t, _) => t !in s.tasks
    case Handle(t, _) => t in s.tasks && s.tasks[t].Running? && s.tasks[t].i < |s.tasks[t].sorted|
    case Swap(t) => t in s.tasks && s.tasks[t].Running? && s.tasks[t].i >= |s.tasks[t].sorted|
    case Finish(t, _) => t in s.tasks && s.tasks[t].Swapped?
    case Crash(_) => true
  }

  /** Entry e has reached the graph. */
  function Land(s: System, e: LogEntry): System {
    s.(graph := ApplyPayload(s.graph, e.payload), landed := s.landed + {e.seqNo},
       low := Landed(s.low, e.seqNo), high := Max(s.high, e.seqNo))
  }

  /** One iteration of task t's loop; leaving the loop moves its cursor to the end. */
  function HandleEntry(s: System, t: nat, fault: Fault): System
    requires Enabled(s, Handle(t, fault))
  {
    var task := s.tasks[t];
    var e, done := task.sorted[task.i], s.tasks[t := task.(i := |task.sorted|)];
    match Classify(e.seqNo, task.committed, task.leaderCommit)
    case Stop => s.(tasks := done)
    case Gap => s.(tasks := done)
    case Skip => s.(tasks := s.tasks[t := task.(i := task.i + 1)])
    case TryApply =>
      if Applies(e.payload, fault) then
        Land(s, e).(tasks := s.tasks[t := task.(i := task.i + 1, committed := e.seqNo)])
      else if LandsAnyway(e.payload, fault) then Land(s, e).(tasks := done)
      else s.(tasks := done)
  }

  function Step(s: System, ev: Event): System {
    if !Enabled(s, ev) then s
    else match ev
      case Load(t, rpc) => s.(tasks := s.tasks[t := Running(SortBySeq(rpc.entries), rpc.leaderCommit, 0, s.mem)])
      case Handle(t, fault) => HandleEntry(s, t, fault)
      case Swap(t) =>
        s.(mem := s.tasks[t].committed, tasks := s.tasks[t := Swapped(s.tasks[t].committed, s.mem)])
      case Finish(t, persistOk) =>
        var task := s.tasks[t];
        s.(persisted := if task.committed > task.prev && persistOk then task.committed else s.persisted,
           reported := s.reported + {task.committed}, tasks := s.tasks - {t})
      case Crash(read) =>
        var node := Reopen(s.persisted, read, s.graph);
        s.(mem := node.applied, persisted := node.persisted, tasks := map[])
  }

  function RunEvents(s: System, events: seq<Event>): System
    decreases |events|
  {
    if events == [] then s else RunEvents(Step(s, events[0]), events[1..])
  }

  // ---------------------------------------------------------------------------
  // At least once
  // ---------------------------------------------------------------------------

  ghost predicate Covered(landed: set<nat>, n: nat) {
    forall m: nat :: 1 <= m <= n ==> m in landed
  }

  ghost predicate AtLeastOnce(s: System) {
    && Covered(s.landed, s.mem) && Covered(s.landed, s.persisted)
    && (forall t :: t in s.tasks ==> Covered(s.landed, s.tasks[t].committed))
    && (forall n :: n in s.reported ==> Covered(s.landed, n))
  }

  lemma StepKeepsAtLeastOnce(s: System, ev: Event)
    requires AtLeastOnce(s)
    ensures AtLeastOnce(Step(s, ev)) && s.landed <= Step(s, ev).landed && s.reported <= Step(s, ev).reported
  {
    var s' := Step(s, ev);
    if Enabled(s, ev) && ev.Handle? {
      var task := s.tasks[ev.task];
      assert Covered(s.landed, task.committed);
      forall n: nat | Covered(s.landed, n) ensures Covered(s'.landed, n) {
      }
      assert Covered(s'.landed, s'.tasks[ev.task].committed);
    }
  }

  /** For every interleaving of load, apply, swap, persist and crash: whatever is at or below
      the watermark in memory, the one on disk, or any acknowledgement, has been applied. */
  lemma {:induction false} InterleavedAtLeastOnce(s: System, events: seq<Event>)
    requires AtLeastOnce(s)
    ensures var t := RunEvents(s, events);
            AtLeastOnce(t) && s.landed <= t.landed && s.reported <= t.reported
    decreases |events|
  {
    if events != [] {
      StepKeepsAtLeastOnce(s, events[0]);
      InterleavedAtLeastOnce(Step(s, events[0]), events[1..]);
    }
  }

  // ---------------------------------------------------------------------------
  // How far the graph reflects the log
  // ---------------------------------------------------------------------------

  predicate DrawnEvents(events: seq<Event>, log: Log) {
    forall ev :: ev in events && ev.Load? ==> FromLog(ev.rpc.entries, log)
  }

  predicate TasksDrawn(s: System, log: Log) {
    forall t :: t in s.tasks && s.tasks[t].Running? ==> FromLog(s.tasks[t].sorted, log)
  }

  ghost predicate LowInv(s: System, log: Log) {
    s.low <= s.high <= |log| && Between(s.graph, log, s.low, s.high) && TasksDrawn(s, log)
  }

  lemma SortedFromLog(entries: seq<LogEntry>, log: Log)
    requires FromLog(entries, log)
    ensures FromLog(SortBySeq(entries), log)
  {
    forall e | e in SortBySeq(entries) ensures e in entries {
      assert e in multiset(SortBySeq(entries));
    }
  }

  lemma StepKeepsDrawn(s: System, ev: Event, log: Log)
    requires TasksDrawn(s, log) && (ev.Load? ==> FromLog(ev.rpc.entries, log))
    ensures TasksDrawn(Step(s, ev), log)
  {
    if ev.Load? {
      SortedFromLog(ev.rpc.entries, log);
    }
  }

  lemma StepKeepsLow(s: System, ev: Event, log: Log)
    requires LowInv(s, log) && (ev.Load? ==> FromLog(ev.rpc.entries, log))
    ensures LowInv(Step(s, ev), log)
  {
    StepKeepsDrawn(s, ev, log);
    if ev.Handle? && Enabled(s, ev) {
      var task := s.tasks[ev.task];
      var e := task.sorted[task.i];
      if Classify(e.seqNo, task.committed, task.leaderCommit).TryApply? {
        assert e in task.sorted;
        BetweenApplyAny(s.graph, log, s.low, s.high, e.seqNo);
      }
    }
  }

  lemma {:induction false} RunKeepsLow(s: System, events: seq<Event>, log: Log)
    requires LowInv(s, log) && DrawnEvents(events, log)
    ensures LowInv(RunEvents(s, events), log)
    decreases |events|
  {
    if events != [] {
      StepKeepsLow(s, events[0], log);
      RunKeepsLow(Step(s, events[0]), events[1..], log);
    }
  }

  /** For every interleaving, overlapping handlers, failures, crashes anywhere and whatever a
      restart reads included: every cell of the graph comes from a prefix between `low` and
      the highest entry ever applied, and when the two meet the graph is that replay. */
  lemma InterleavedConvergence(events: seq<Event>, log: Log)
    requires DrawnEvents(events, log)
    ensures var s := RunEvents(START, events);
            LowInv(s, log) && (s.low == s.high ==> s.graph == Replay(log, s.high))
  {
    BetweenPoint(EMPTY_GRAPH, log, 0);
    RunKeepsLow(START, events, log);
    var s := RunEvents(START, events);
    BetweenPoint(s.graph, log, s.high);
  }

  // ---------------------------------------------------------------------------
  // One handler at a time
  // ---------------------------------------------------------------------------

  predicate Idle(s: System) {
    forall t :: t in s.tasks ==> s.tasks[t].Swapped?
  }

  /** What a lock held from load to swap would enforce, and a restart that reads no watermark
      above what the graph reflects. */
  predicate Guarded(s: System, ev: Event) {
    && (ev.Load? ==> Idle(s))
    && (ev.Crash? && ev.read.ReadOk? ==> s.persisted <= s.low)
  }

  predicate AllGuarded(s: System, events: seq<Event>)
    decreases |events|
  {
    events == [] || (Guarded(s, events[0]) && AllGuarded(Step(s, events[0]), events[1..]))
  }

  /** A handler in its loop is the only one, and works above the watermark on entries the
      graph reflects; a handler past its swap has published at most the watermark. */
  predicate TaskInv(s: System, t: nat)
    requires t in s.tasks
  {
    match s.tasks[t]
    case Swapped(committed, _) => committed <= s.mem
    case Running(_, _, _, committed) =>
      s.mem <= committed <= s.low && forall u :: u in s.tasks && s.tasks[u].Running? ==> u == t
  }

  predicate ExclusiveInv(s: System) {
    s.mem <= s.low && forall t :: t in s.tasks ==> TaskInv(s, t)
  }

  lemma StepKeepsExclusive(s: System, ev: Event)
    requires ExclusiveInv(s) && Guarded(s, ev)
    ensures ExclusiveInv(Step(s, ev))
  {
    var s' := Step(s, ev);
    if Enabled(s, ev) && !ev.Crash? {
      assert !ev.Load? ==> TaskInv(s, ev.task);
      assert s'.mem <= s'.low;
      forall u | u in s'.tasks ensures TaskInv(s', u) {
        assert u in s.tasks ==> TaskInv(s, u);
      }
    }
  }

  lemma {:induction false} RunKeepsExclusive(s: System, events: seq<Event>)
    requires ExclusiveInv(s) && AllGuarded(s, events)
    ensures ExclusiveInv(RunEvents(s, events))
    decreases |events|
  {
    if events != [] {
      StepKeepsExclusive(s, events[0]);
      RunKeepsExclusive(Step(s, events[0]), events[1..]);
    }
  }

  /** If no handler loads the watermark while another is between its load and its swap, and no
      restart reads a watermark above what the graph reflects, then the graph reflects the log up to the watermark, and
      once that has caught up with the high mark the graph is the replay of the log. */
  lemma ExclusiveConvergence(events: seq<Event>, log: Log)
    requires AllGuarded(START, events) && DrawnEvents(events, log)
    ensures var s := RunEvents(START, events);
            && LowInv(s, log) && ExclusiveInv(s)
            && (s.mem == s.high ==> s.graph == Replay(log, s.mem))
  {
    InterleavedConvergence(events, log);
    RunKeepsExclusive(START, events);
  }

  // ---------------------------------------------------------------------------
  // Overlapping handlers
  // ---------------------------------------------------------------------------

  lemma {:induction false} SortedStays(entries: seq<LogEntry>)
    requires SortedBySeq(entries)
    ensures SortBySeq(entries) == entries
  {
    if entries != [] {
      SortedStays(entries[1..]);
      assert entries == [entries[0]] + entries[1..];
    }
  }

  function Repeat(ev: Event, n: nat): seq<Event> {
    if n == 0 then [] else [ev] + Repeat(ev, n - 1)
  }

  lemma {:induction false} RunEventsConcat(s: System, a: seq<Event>, b: seq<Event>)
    ensures RunEvents(s, a + b) == RunEvents(RunEvents(s, a), b)
    decreases |a|
  {
    if a == [] {
      assert a + b == b;
    } else {
      assert (a + b)[0] == a[0] && (a + b)[1..] == a[1..] + b;
      RunEventsConcat(Step(s, a[0]), a[1..], b);
    }
  }

  /** Task t is in its loop over the batch 1..n of the counting log and has applied 1..c. */
  predicate Counting(s: System, t: nat, v: nat, n: nat, c: nat) {
    c <= n <= v && t in s.tasks && s.tasks[t] == Running(Batch(Counter(v), n), n, c, c)
  }

  /** Only task t's loop moved from s to s', leaving x in the property. */
  predicate OnlyMoved(s: System, s': System, t: nat, x: nat) {
    && s'.mem == s.mem && s'.persisted == s.persisted && s'.low == x && s'.high == Max(s.high, x)
    && s'.tasks.Keys == s.tasks.Keys && (forall u :: u in s.tasks && u != t ==> s'.tasks[u] == s.tasks[u])
    && Read(s'.graph, X) == Holds(Integer(x))
  }

  lemma CountOne(s: System, t: nat, v: nat, n: nat, c: nat)
    requires Counting(s, t, v, n, c) && c < n && c <= s.low
    ensures var s' := Step(s, Handle(t, NoFault));
            Counting(s', t, v, n, c + 1) && OnlyMoved(s, s', t, c + 1)
  {
    assert Batch(Counter(v), n)[c] == LogEntry(c + 1, Counter(v)[c]);
    ReadAfterApply(s.graph, Counter(v)[c], X);
  }

  lemma MovedTwice(s: System, s1: System, s2: System, t: nat, x: nat, y: nat)
    requires x <= y && OnlyMoved(s, s1, t, x) && OnlyMoved(s1, s2, t, y)
    ensures OnlyMoved(s, s2, t, y)
  {
    forall u | u in s.tasks && u != t ensures s2.tasks[u] == s.tasks[u] {
      assert u in s1.tasks.Keys;
    }
  }

  lemma RunFront(s: System, ev: Event, rest: seq<Event>)
    ensures RunEvents(s, [ev] + rest) == RunEvents(Step(s, ev), rest)
  {
    assert ([ev] + rest)[1..] == rest;
  }

  lemma {:induction false} CountAll(s: System, t: nat, v: nat, n: nat, c: nat)
    requires Counting(s, t, v, n, c) && c < n && c <= s.low
    ensures var s' := RunEvents(s, Repeat(Handle(t, NoFault), n - c));
            Counting(s', t, v, n, n) && OnlyMoved(s, s', t, n)
    decreases n - c
  {
    var ev, s1 := Handle(t, NoFault), Step(s, Handle(t, NoFault));
    CountOne(s, t, v, n, c);
    RunFront(s, ev, Repeat(ev, n - c - 1));
    if c + 1 < n {
      CountAll(s1, t, v, n, c + 1);
      MovedTwice(s, s1, RunEvents(s1, Repeat(ev, n - c - 1)), t, c + 1, n);
    }
  }

  lemma SwapCounting(s: System, t: nat, v: nat, n: nat)
    requires Counting(s, t, v, n, n)
    ensures RunEvents(s, [Swap(t)]) == s.(mem := n, tasks := s.tasks[t := Swapped(n, s.mem)])
  {
    RunFront(s, Swap(t), []);
  }

  /** Two handlers load watermark 0. The fast one applies 1..v; then the slow one re-applies
      1..a; then each publishes its watermark, the fast one last. */
  function OverlappingLoads(a: nat, v: nat): seq<Event>
    requires a <= v
  {
    [Load(0, AppendEntries(Batch(Counter(v), a), a))] + [Load(1, AppendEntries(Batch(Counter(v), v), v))]
  }

  function OverlappingRun(a: nat, v: nat): seq<Event>
    requires a <= v
  {
    OverlappingLoads(a, v) + Repeat(Handle(1, NoFault), v) + Repeat(Handle(0, NoFault), a) + [Swap(0)] + [Swap(1)]
  }

  lemma LoadBoth(s: System, rpc0: AppendEntries, rpc1: AppendEntries)
    requires s.tasks == map[] && SortBySeq(rpc0.entries) == rpc0.entries && SortBySeq(rpc1.entries) == rpc1.entries
    ensures var s' := RunEvents(s, [Load(0, rpc0)] + [Load(1, rpc1)]);
            && s'.tasks.Keys == {0, 1} && s'.high == s.high && s'.mem == s.mem
            && s'.tasks[0] == Running(rpc0.entries, rpc0.leaderCommit, 0, s.mem)
            && s'.tasks[1] == Running(rpc1.entries, rpc1.leaderCommit, 0, s.mem)
  {
    RunFront(s, Load(0, rpc0), [Load(1, rpc1)]);
    RunFront(Step(s, Load(0, rpc0)), Load(1, rpc1), []);
  }

  lemma BatchSorted(v: nat, n: nat)
    requires n <= v
    ensures SortBySeq(Batch(Counter(v), n)) == Batch(Counter(v), n)
  {
    SortedStays(Batch(Counter(v), n));
  }

  lemma AfterLoads(s: System, a: nat, v: nat)
    requires 0 < a < v && s.mem == 0 && s.tasks == map[]
    ensures var s' := RunEvents(s, OverlappingLoads(a, v));
            && Counting(s', 0, v, a, 0) && Counting(s', 1, v, v, 0)
            && s'.tasks.Keys == {0, 1} && s'.high == s.high && s'.mem == 0
  {
    BatchSorted(v, a);
    BatchSorted(v, v);
    LoadBoth(s, AppendEntries(Batch(Counter(v), a), a), AppendEntries(Batch(Counter(v), v), v));
  }

  lemma AfterApplies(s: System, a: nat, v: nat)
    requires 0 < a < v && Counting(s, 0, v, a, 0) && Counting(s, 1, v, v, 0)
    requires s.tasks.Keys == {0, 1} && s.high == 0
    ensures var s' := RunEvents(RunEvents(s, Repeat(Handle(1, NoFault), v)), Repeat(Handle(0, NoFault), a));
            && Counting(s', 0, v, a, a) && Counting(s', 1, v, v, v) && s'.tasks.Keys == {0, 1}
            && s'.low == a && s'.high == v && Read(s'.graph, X) == Holds(Integer(a))
  {
    CountAll(s, 1, v, v, 0);
    CountAll(RunEvents(s, Repeat(Handle(1, NoFault), v)), 0, v, a, 0);
  }

  lemma AfterSwaps(s: System, a: nat, v: nat)
    requires 0 < a < v && Counting(s, 0, v, a, a) && Counting(s, 1, v, v, v) && s.tasks.Keys == {0, 1}
    ensures var s' := RunEvents(RunEvents(s, [Swap(0)]), [Swap(1)]);
            Idle(s') && s'.mem == v && s'.low == s.low && s'.high == s.high && s'.graph == s.graph
  {
    SwapCounting(s, 0, v, a);
    SwapCounting(RunEvents(s, [Swap(0)]), 1, v, v);
  }

  lemma RunStages(s: System, a: seq<Event>, b: seq<Event>, c: seq<Event>, d: seq<Event>, e: seq<Event>)
    ensures RunEvents(s, a + b + c + d + e) ==
            RunEvents(RunEvents(RunEvents(RunEvents(RunEvents(s, a), b), c), d), e)
  {
    RunEventsConcat(s, a, b);
    RunEventsConcat(s, a + b, c);
    RunEventsConcat(s, a + b + c, d);
    RunEventsConcat(s, a + b + c + d, e);
  }

  lemma OverlapDrawn(a: nat, v: nat)
    requires a <= v
    ensures DrawnEvents(OverlappingRun(a, v), Counter(v))
  {
    RepeatOne(Handle(1, NoFault), v);
    RepeatOne(Handle(0, NoFault), a);
  }

  lemma {:induction false} RepeatOne(ev: Event, n: nat)
    ensures forall x :: x in Repeat(ev, n) ==> x == ev
  {
    if n > 0 {
      RepeatOne(ev, n - 1);
    }
  }

  /** The second load finds the first handler still in its loop. */
  lemma OverlapUnguarded(a: nat, v: nat)
    requires a <= v
    ensures !AllGuarded(START, OverlappingRun(a, v))
  {
    var run := OverlappingRun(a, v);
    var load0 := Load(0, AppendEntries(Batch(Counter(v), a), a));
    var load1 := Load(1, AppendEntries(Batch(Counter(v), v), v));
    assert run[0] == load0 && run[1..][0] == load1;
    var s1 := Step(START, load0);
    assert 0 in s1.tasks && s1.tasks[0].Running?;
    assert !Guarded(s1, load1);
  }

  /** Without the lock the watermark can be wrong, for every 0 < a < v: both handlers have
      published, the watermark is at the high mark, and the graph holds a where the log
      says v. */
  lemma OverlapDiverges(a: nat, v: nat)
    requires 0 < a < v
    ensures DrawnEvents(OverlappingRun(a, v), Counter(v)) && !AllGuarded(START, OverlappingRun(a, v))
    ensures var s := RunEvents(START, OverlappingRun(a, v));
            && Idle(s) && s.mem == s.high == v && s.low == a
            && Read(s.graph, X) == Holds(Integer(a)) && s.graph != Replay(Counter(v), v)
  {
    var fast, slow := Repeat(Handle(1, NoFault), v), Repeat(Handle(0, NoFault), a);
    var s2 := RunEvents(START, OverlappingLoads(a, v));
    OverlapDrawn(a, v);
    OverlapUnguarded(a, v);
    AfterLoads(START, a, v);
    AfterApplies(s2, a, v);
    AfterSwaps(RunEvents(RunEvents(s2, fast), slow), a, v);
    RunStages(START, OverlappingLoads(a, v), fast, slow, [Swap(0)], [Swap(1)]);
    CounterValue(v, v);
  }
}
