/**
 What an acknowledgement is worth. A follower has entry n when its graph reflects the log at
 least up to n. In every interleaving it keeps n exactly as long as no entry below n lands.

 If handlers do not overlap (the guard of RaftInterleaving, which the code does not enforce),
 this can be read off the watermark: a follower has n when it reports n, keeps n while its
 watermark does not fall below n - 1, and has n again once its watermark is back at n. With
 overlapping handlers n can be lost while the watermark stays.
 */
module RaftAcknowledged {
  import opened ReplicatedGraph
  import opened RaftFollower
  import Runs = RaftRuns
  import opened RaftInterleaving
  import opened RaftSerial

  // ---------------------------------------------------------------------------
  // One node
  // ---------------------------------------------------------------------------

  /** The graph holds nothing older than entry n. */
  ghost predicate Reflects(s: System, log: Log, n: nat) {
    n <= s.high <= |log| && Between(s.graph, log, n, s.high)
  }

  lemma LowReflects(s: System, log: Log, n: nat)
    requires LowInv(s, log) && n <= s.low
    ensures Reflects(s, log, n)
  {
    BetweenWiden(s.graph, log, s.low, s.high, n, s.high);
  }

  /** Some response has told the leader that everything up to n is applied. */
  ghost predicate Reported(s: System, n: nat) {
    exists m :: m in s.reported && n <= m
  }

  /** The event puts an entry numbered below n on the graph. */
  predicate LandsBelow(s: System, ev: Event, n: nat) {
    ev.Handle? && Enabled(s, ev) &&
    var task := s.tasks[ev.task];
    var e := task.sorted[task.i];
    && e.seqNo < n && Classify(e.seqNo, task.committed, task.leaderCommit).TryApply?
    && (Applies(e.payload, ev.fault) || LandsAnyway(e.payload, ev.fault))
  }

  predicate NoneBelow(s: System, events: seq<Event>, n: nat)
    decreases |events|
  {
    events == [] || (!LandsBelow(s, events[0], n) && NoneBelow(Step(s, events[0]), events[1..], n))
  }

  /** The graph reflects entry n now and after every event. */
  predicate StaysReflected(s: System, events: seq<Event>, n: nat)
    decreases |events|
  {
    n <= s.low && (events == [] || StaysReflected(Step(s, events[0]), events[1..], n))
  }

  lemma StepKeptIff(s: System, ev: Event, n: nat)
    requires n <= s.low
    ensures n <= Step(s, ev).low <==> !LandsBelow(s, ev, n)
  {
  }

  /** For every interleaving and every crash: entry n stays reflected if and only if no entry
      below n lands. */
  lemma {:induction false} KeptIff(s: System, events: seq<Event>, n: nat)
    requires n <= s.low
    ensures StaysReflected(s, events, n) <==> NoneBelow(s, events, n)
    decreases |events|
  {
    if events != [] {
      StepKeptIff(s, events[0], n);
      if n <= Step(s, events[0]).low {
        KeptIff(Step(s, events[0]), events[1..], n);
      }
    }
  }

  // ---------------------------------------------------------------------------
  // One node whose handlers do not overlap
  // ---------------------------------------------------------------------------

  /** The watermark is at or above w now and after every event. */
  predicate StaysAbove(s: System, events: seq<Event>, w: nat)
    decreases |events|
  {
    s.mem >= w && (events == [] || StaysAbove(Step(s, events[0]), events[1..], w))
  }

  /** Without overlap nothing at or below the watermark lands again. */
  lemma NothingBelowWatermark(s: System, ev: Event, n: nat)
    requires ExclusiveInv(s) && n <= s.mem + 1
    ensures !LandsBelow(s, ev, n)
  {
    if ev.Handle? && Enabled(s, ev) {
      assert TaskInv(s, ev.task);
    }
  }

  lemma StepKeepsEntry(s: System, ev: Event, n: nat)
    requires ExclusiveInv(s) && n <= s.low && n <= s.mem + 1
    ensures n <= Step(s, ev).low
  {
    NothingBelowWatermark(s, ev, n);
    StepKeptIff(s, ev, n);
  }

  lemma {:induction false} RunKeepsEntry(s: System, events: seq<Event>, w: nat, n: nat)
    requires ExclusiveInv(s) && AllGuarded(s, events) && StaysAbove(s, events, w)
    requires n <= s.low && n <= w + 1
    ensures n <= RunEvents(s, events).low
    decreases |events|
  {
    if events != [] {
      StepKeepsExclusive(s, events[0]);
      StepKeepsEntry(s, events[0], n);
      RunKeepsEntry(Step(s, events[0]), events[1..], w, n);
    }
  }

  /** If handlers do not overlap and the watermark has reached n and from then on stays at or
      above w, the graph reflects entry n at the end. */
  ghost predicate Keeps(log: Log, before: seq<Event>, after: seq<Event>, w: nat, n: nat) {
    var s := RunEvents(START, before);
    DrawnEvents(before + after, log) && AllGuarded(START, before) && AllGuarded(s, after) &&
    n <= s.mem && StaysAbove(s, after, w) ==>
      Reflects(RunEvents(s, after), log, n)
  }

  lemma KeepsAbove(log: Log, before: seq<Event>, after: seq<Event>, w: nat, n: nat)
    requires n <= w + 1
    ensures Keeps(log, before, after, w, n)
  {
    var s := RunEvents(START, before);
    if && DrawnEvents(before + after, log) && AllGuarded(START, before) && AllGuarded(s, after)
       && n <= s.mem && StaysAbove(s, after, w) {
      RunKeepsExclusive(START, before);
      RunKeepsEntry(s, after, w, n);
      InterleavedConvergence(before + after, log);
      RunEventsConcat(START, before, after);
      LowReflects(RunEvents(s, after), log, n);
    }
  }

  /** Without a crash the watermark of a guarded run never falls. */
  lemma {:induction false} StaysWithoutCrash(s: System, events: seq<Event>, w: nat)
    requires ExclusiveInv(s) && AllGuarded(s, events) && s.mem >= w
    requires forall ev :: ev in events ==> !ev.Crash?
    ensures StaysAbove(s, events, w)
    decreases |events|
  {
    if events != [] {
      var ev := events[0];
      assert ev in events;
      if ev.Swap? && Enabled(s, ev) {
        assert TaskInv(s, ev.task);
      }
      StepKeepsExclusive(s, ev);
      StaysWithoutCrash(Step(s, ev), events[1..], w);
    }
  }

  lemma CrashThenServe(s: System, rpc: AppendEntries, env: Environment, w: nat)
    requires AtRest(s) && ExclusiveInv(s) && s.mem >= w && s.persisted == w
    ensures StaysAbove(s, [Crash(ReadOk)] + Serve(0, rpc, env), w)
  {
    var events, s1 := [Crash(ReadOk)] + Serve(0, rpc, env), Step(s, Crash(ReadOk));
    ServeGuarded(s1, 0, rpc, env);
    StepKeepsExclusive(s, Crash(ReadOk));
    StaysWithoutCrash(s1, Serve(0, rpc, env), w);
    assert events[0] == Crash(ReadOk) && events[1..] == Serve(0, rpc, env);
  }

  /** The schedule of the run that falls back to w and goes on to w + 1. */
  lemma FallBackStays(s: System, w: nat, v: nat)
    requires AtRest(s) && ExclusiveInv(s) && w + 1 <= v && s.mem >= w && s.persisted == w
    ensures StaysAbove(s, Schedule(Runs.FallBack(w + 1, v)), w)
  {
    var steps := Runs.FallBack(w + 1, v);
    ScheduleOfTwo(steps);
    CrashThenServe(s, steps[1].rpc, steps[1].env, w);
  }

  lemma LosesBelow(w: nat, n: nat)
    requires w + 1 < n
    ensures !Keeps(Runs.Counter(n), Schedule(Runs.AheadOfFile(w, n)), Schedule(Runs.FallBack(w + 1, n)), w, n)
  {
    var first, second := Runs.AheadOfFile(w, n), Runs.FallBack(w + 1, n);
    var before, after := Schedule(first), Schedule(second);
    var s := RunEvents(START, before);
    Runs.AheadOfFileState(w, n);
    SerialIsInterleaved(START, first);
    ScheduleGuarded(START, first);
    Runs.FallBackRegresses(Seen(s), w, w + 1, n);
    SerialIsInterleaved(s, second);
    ScheduleGuarded(s, second);
    ScheduleDrawn(first, Runs.Counter(n));
    ScheduleDrawn(second, Runs.Counter(n));
    RunKeepsExclusive(START, before);
    FallBackStays(s, w, n);
  }

  /** Without overlap, never falling below w keeps every acknowledged entry n exactly when w is
      at least n - 1. */
  lemma KeepsIff(w: nat, n: nat)
    ensures (forall log, before, after :: Keeps(log, before, after, w, n)) <==> n <= w + 1
  {
    if n <= w + 1 {
      forall log, before, after ensures Keeps(log, before, after, w, n) {
        KeepsAbove(log, before, after, w, n);
      }
    } else {
      LosesBelow(w, n);
    }
  }

  /** Entry v is reported, the watermark falls back to w, and entries up to a are applied. */
  function RegressRun(w: nat, a: nat, v: nat): seq<Event>
    requires w <= v && a <= v
  {
    Schedule(Runs.AheadOfFile(w, v)) + Schedule(Runs.FallBack(a, v))
  }

  /** A follower that has reported v and then falls back to w, for every w < a < v: it no
      longer has any entry above a. */
  lemma ReportedRegresses(w: nat, a: nat, v: nat)
    requires w < a < v
    ensures DrawnEvents(RegressRun(w, a, v), Runs.Counter(v)) && AllGuarded(START, RegressRun(w, a, v))
    ensures var s := RunEvents(START, RegressRun(w, a, v));
            Reported(s, v) && forall n: nat :: a < n <= v ==> !Reflects(s, Runs.Counter(v), n)
  {
    var first, second := Runs.AheadOfFile(w, v), Runs.FallBack(a, v);
    var s := RunEvents(START, Schedule(first));
    Runs.AheadOfFileState(w, v);
    SerialIsInterleaved(START, first);
    ScheduleGuarded(START, first);
    Runs.FallBackRegresses(Seen(s), w, a, v);
    SerialIsInterleaved(s, second);
    ScheduleGuarded(s, second);
    ScheduleDrawn(first, Runs.Counter(v));
    ScheduleDrawn(second, Runs.Counter(v));
    AllGuardedConcat(START, Schedule(first), Schedule(second));
    RunEventsConcat(START, Schedule(first), Schedule(second));
    AheadIsReported(w, v);
  }

  lemma AheadIsReported(w: nat, v: nat)
    requires w < v
    ensures v in RunEvents(START, Schedule(Runs.AheadOfFile(w, v))).reported
  {
    var steps := Runs.AheadOfFile(w, v);
    var one, two := Schedule1(steps[0]), Schedule1(steps[1]);
    Runs.AheadOfFileState(w, v);
    SerialIsInterleaved(START, steps);
    StepIsSerial(START, steps[0]);
    StepIsSerial(RunEvents(START, one), steps[1]);
    RunEventsConcat(START, one, two);
    ScheduleOfTwo(steps);
  }

  // ---------------------------------------------------------------------------
  // One node whose handlers overlap
  // ---------------------------------------------------------------------------

  /** Two handlers load watermark 0; the fast one applies 1..v, publishes v and reports it. */
  function FastReports(a: nat, v: nat): seq<Event>
    requires a <= v
  {
    OverlappingLoads(a, v) + Repeat(Handle(1, NoFault), v) + [Swap(1)] + [Finish(1, true)]
  }

  lemma {:induction false} HandlesKeepWatermark(s: System, t: nat, n: nat, w: nat)
    requires s.mem >= w
    ensures StaysAbove(s, Repeat(Handle(t, NoFault), n), w)
    ensures RunEvents(s, Repeat(Handle(t, NoFault), n)).mem == s.mem
    decreases n
  {
    if n > 0 {
      var ev, rest := Handle(t, NoFault), Repeat(Handle(t, NoFault), n - 1);
      assert ([ev] + rest)[1..] == rest;
      HandlesKeepWatermark(Step(s, ev), t, n - 1, w);
    }
  }

  lemma FourStages(s: System, a: seq<Event>, b: seq<Event>, c: seq<Event>, d: seq<Event>)
    ensures RunEvents(s, a + b + c + d) == RunEvents(RunEvents(RunEvents(RunEvents(s, a), b), c), d)
  {
    RunEventsConcat(s, a, b);
    RunEventsConcat(s, a + b, c);
    RunEventsConcat(s, a + b + c, d);
  }

  lemma PublishAndReport(s: System, a: nat, v: nat)
    requires Counting(s, 1, v, v, v) && Counting(s, 0, v, a, 0)
    ensures var s' := RunEvents(RunEvents(s, [Swap(1)]), [Finish(1, true)]);
            && Counting(s', 0, v, a, 0) && s'.mem == v && s'.low == s.low && s'.high == s.high && v in s'.reported
  {
    SwapCounting(s, 1, v, v);
    RunFront(RunEvents(s, [Swap(1)]), Finish(1, true), []);
  }

  lemma MovedKeepsOther(s: System, s': System, t: nat, x: nat, u: nat, v: nat, n: nat, c: nat)
    requires OnlyMoved(s, s', t, x) && u != t && Counting(s, u, v, n, c)
    ensures Counting(s', u, v, n, c) && s'.low == x
  {
    assert u in s'.tasks.Keys && s'.tasks[u] == s.tasks[u];
  }

  lemma FastApplies(s: System, a: nat, v: nat)
    requires 0 < a < v && Counting(s, 0, v, a, 0) && Counting(s, 1, v, v, 0) && s.high == 0
    ensures var s' := RunEvents(s, Repeat(Handle(1, NoFault), v));
            Counting(s', 1, v, v, v) && Counting(s', 0, v, a, 0) && s'.low == s'.high == v
  {
    var s' := RunEvents(s, Repeat(Handle(1, NoFault), v - 0));
    CountAll(s, 1, v, v, 0);
    assert OnlyMoved(s, s', 1, v);
    MovedKeepsOther(s, s', 1, v, 0, v, a, 0);
  }

  lemma AfterReport(s: System, a: nat, v: nat)
    requires 0 < a < v && s.mem == s.high == 0 && s.tasks == map[]
    ensures var s' := RunEvents(s, FastReports(a, v));
            Counting(s', 0, v, a, 0) && s'.mem == s'.low == s'.high == v && v in s'.reported
  {
    AfterLoads(s, a, v);
    AfterReportFrom(RunEvents(s, OverlappingLoads(a, v)), a, v);
    FourStages(s, OverlappingLoads(a, v), Repeat(Handle(1, NoFault), v), [Swap(1)], [Finish(1, true)]);
  }

  lemma AfterReportFrom(s: System, a: nat, v: nat)
    requires 0 < a < v && Counting(s, 0, v, a, 0) && Counting(s, 1, v, v, 0) && s.high == 0
    ensures var s' := RunEvents(RunEvents(RunEvents(s, Repeat(Handle(1, NoFault), v)), [Swap(1)]), [Finish(1, true)]);
            Counting(s', 0, v, a, 0) && s'.mem == s'.low == s'.high == v && v in s'.reported
  {
    FastApplies(s, a, v);
    PublishAndReport(RunEvents(s, Repeat(Handle(1, NoFault), v)), a, v);
  }

  lemma FastReportsDrawn(a: nat, v: nat)
    requires a <= v
    ensures DrawnEvents(FastReports(a, v) + Repeat(Handle(0, NoFault), a), Runs.Counter(v))
  {
    RepeatOne(Handle(1, NoFault), v);
    RepeatOne(Handle(0, NoFault), a);
  }

  /** With overlap an acknowledged entry is lost without the watermark falling, for every
      0 < a < v: v has been reported and is reflected, the slow handler then re-applies 1..a,
      the watermark stays at v, and v is no longer reflected. */
  lemma OverlapLoses(a: nat, v: nat)
    requires 0 < a < v
    ensures var before, after := FastReports(a, v), Repeat(Handle(0, NoFault), a);
            var s, t := RunEvents(START, before), RunEvents(START, before + after);
            && DrawnEvents(before + after, Runs.Counter(v))
            && Reported(s, v) && Reflects(s, Runs.Counter(v), v)
            && StaysAbove(s, after, v) && t.mem == v && !Reflects(t, Runs.Counter(v), v)
  {
    var before, after := FastReports(a, v), Repeat(Handle(0, NoFault), a);
    var s := RunEvents(START, before);
    AfterReport(START, a, v);
    FastReportsDrawn(a, v);
    InterleavedConvergence(before, Runs.Counter(v));
    LowReflects(s, Runs.Counter(v), v);
    HandlesKeepWatermark(s, 0, a, v);
    CountAll(s, 0, v, a, 0);
    RunEventsConcat(START, before, after);
    var t := RunEvents(s, after);
    Runs.NotReflected(t.graph, v, a, v, t.high);
  }
}
