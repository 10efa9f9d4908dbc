/**
 Handling requests one at a time is one of the interleavings. `Serve` is the schedule of a
 single handler, from its load to its reply; running it is delivering the request, and a whole
 serial run of the follower is a guarded interleaving with the same watermarks and graph.
 */
module RaftSerial {
  import opened ReplicatedGraph
  import opened Landing
  import opened RaftFollower
  import Runs = RaftRuns
  import opened RaftInterleaving

  /** One event per entry; those after the handler has left its loop do nothing. */
  function Handles(t: nat, sorted: seq<LogEntry>, env: Environment, i: nat): seq<Event>
    requires i <= |sorted|
    decreases |sorted| - i
  {
    if i == |sorted| then [] else [Handle(t, FaultAt(env, sorted[i].seqNo))] + Handles(t, sorted, env, i + 1)
  }

  function Serve(t: nat, rpc: AppendEntries, env: Environment): seq<Event> {
    [Load(t, rpc)] + Handles(t, SortBySeq(rpc.entries), env, 0) + [Swap(t)] + [Finish(t, env.persistOk)]
  }

  /** The follower as the serial runs see it. */
  function Seen(s: System): Runs.RunState {
    Runs.RunState(FollowerState(s.mem, s.persisted, s.graph), s.low, s.high)
  }

  /** Task t has left its loop; the rest of the system is as in s except for what landed. */
  predicate LeftLoop(s: System, s': System, t: nat, d: Progress,
                     committed: nat, sorted: seq<LogEntry>, leaderCommit: nat)
    requires committed <= d.reached
  {
    && s'.mem == s.mem && s'.persisted == s.persisted && s'.reported == s.reported && s'.graph == d.graph
    && s'.low == Runs.LandAll(s.low, committed, d.reached)
    && s'.high == (if d.reached > committed then Max(s.high, d.reached) else s.high)
    && s'.tasks == s.tasks[t := Running(sorted, leaderCommit, |sorted|, d.committed)]
  }

  lemma {:induction false} DisabledHandles(s: System, t: nat, sorted: seq<LogEntry>, env: Environment, i: nat)
    requires i <= |sorted| && t in s.tasks && s.tasks[t].Running? && s.tasks[t].i >= |s.tasks[t].sorted|
    ensures RunEvents(s, Handles(t, sorted, env, i)) == s
    decreases |sorted| - i
  {
    if i < |sorted| {
      RunFront(s, Handle(t, FaultAt(env, sorted[i].seqNo)), Handles(t, sorted, env, i + 1));
      DisabledHandles(s, t, sorted, env, i + 1);
    }
  }

  lemma {:induction false} HandlesDrain(s: System, t: nat, rpc: AppendEntries, env: Environment,
                                        sorted: seq<LogEntry>, i: nat, committed: nat)
    requires t in s.tasks && s.tasks[t] == Running(sorted, rpc.leaderCommit, i, committed)
    requires AtCursor(rpc, sorted, i, committed)
    ensures var d := Drain(rpc, env, committed, s.graph);
            && committed <= d.reached
            && LeftLoop(s, RunEvents(s, Handles(t, sorted, env, i)), t, d, committed, sorted, rpc.leaderCommit)
    decreases |sorted| - i
  {
    DrainBounds(rpc, env, committed, s.graph);
    if i == |sorted| {
      NothingLeft(rpc, env, sorted, i, committed, s.graph);
    } else {
      var e, ev := sorted[i], Handle(t, FaultAt(env, sorted[i].seqNo));
      var s1 := Step(s, ev);
      RunFront(s, ev, Handles(t, sorted, env, i + 1));
      match Classify(e.seqNo, committed, rpc.leaderCommit) {
      case Skip =>
        HandlesDrain(s1, t, rpc, env, sorted, i + 1, committed);
      case Stop =>
        NothingLeft(rpc, env, sorted, i, committed, s.graph);
        DisabledHandles(s1, t, sorted, env, i + 1);
      case Gap =>
        LoopStep(rpc, env, sorted, i, committed, s.graph);
        DisabledHandles(s1, t, sorted, env, i + 1);
      case TryApply =>
        LoopStep(rpc, env, sorted, i, committed, s.graph);
        if Applies(e.payload, FaultAt(env, e.seqNo)) {
          HandlesDrain(s1, t, rpc, env, sorted, i + 1, e.seqNo);
        } else {
          DisabledHandles(s1, t, sorted, env, i + 1);
        }
      }
    }
  }

  lemma ServeLoop(s: System, t: nat, rpc: AppendEntries, env: Environment)
    requires t !in s.tasks
    ensures var sorted, d := SortBySeq(rpc.entries), Drain(rpc, env, s.mem, s.graph);
            var s2 := RunEvents(Step(s, Load(t, rpc)), Handles(t, sorted, env, 0));
            && s.mem <= d.reached
            && LeftLoop(Step(s, Load(t, rpc)), s2, t, d, s.mem, sorted, rpc.leaderCommit)
            && s2.tasks == s.tasks[t := Running(sorted, rpc.leaderCommit, |sorted|, d.committed)]
  {
    CursorStarts(rpc, s.mem);
    HandlesDrain(Step(s, Load(t, rpc)), t, rpc, env, SortBySeq(rpc.entries), 0, s.mem);
  }

  lemma ServeStages(s: System, t: nat, rpc: AppendEntries, env: Environment)
    ensures var s2 := RunEvents(Step(s, Load(t, rpc)), Handles(t, SortBySeq(rpc.entries), env, 0));
            RunEvents(s, Serve(t, rpc, env)) == Step(Step(s2, Swap(t)), Finish(t, env.persistOk))
  {
    var load, loop := [Load(t, rpc)], Handles(t, SortBySeq(rpc.entries), env, 0);
    var s2 := RunEvents(Step(s, Load(t, rpc)), loop);
    RunFront(s, Load(t, rpc), []);
    RunFront(s2, Swap(t), []);
    RunFront(Step(s2, Swap(t)), Finish(t, env.persistOk), []);
    RunEventsConcat(s, load, loop);
    RunEventsConcat(s, load + loop, [Swap(t)]);
    RunEventsConcat(s, load + loop + [Swap(t)], [Finish(t, env.persistOk)]);
  }

  lemma SwapAndFinish(s: System, s2: System, t: nat, task: Task, persistOk: bool)
    requires t !in s.tasks && task.Running? && task.i >= |task.sorted| && s2.tasks == s.tasks[t := task]
    ensures var s' := Step(Step(s2, Swap(t)), Finish(t, persistOk));
            s' == s2.(mem := task.committed, reported := s2.reported + {task.committed}, tasks := s.tasks,
                      persisted := if task.committed > s2.mem && persistOk then task.committed else s2.persisted)
  {
    assert s.tasks[t := Swapped(task.committed, s2.mem)] - {t} == s.tasks;
    assert s2.tasks[t := Swapped(task.committed, s2.mem)] == s.tasks[t := Swapped(task.committed, s2.mem)];
  }

  /** Run without interruption, a handler does what `Deliver` says, and reports the new
      watermark. */
  lemma ServeIsDeliver(s: System, t: nat, rpc: AppendEntries, env: Environment)
    requires t !in s.tasks && s.mem <= s.high
    ensures var s' := RunEvents(s, Serve(t, rpc, env));
            && Seen(s') == Runs.Next(Seen(s), Runs.Rpc(rpc, env))
            && s'.tasks == s.tasks && s'.reported == s.reported + {s'.mem}
  {
    ServeLoop(s, t, rpc, env);
    ServeStages(s, t, rpc, env);
    var sorted, d := SortBySeq(rpc.entries), Drain(rpc, env, s.mem, s.graph);
    var s2 := RunEvents(Step(s, Load(t, rpc)), Handles(t, sorted, env, 0));
    SwapAndFinish(s, s2, t, Running(sorted, rpc.leaderCommit, |sorted|, d.committed), env.persistOk);
  }

  // ---------------------------------------------------------------------------
  // Whole runs
  // ---------------------------------------------------------------------------

  function Schedule1(step: Runs.Step): seq<Event> {
    match step
    case Rpc(rpc, env) => Serve(0, rpc, env)
    case Restart(read) => [Crash(read)]
  }

  function Schedule(steps: seq<Runs.Step>): seq<Event> {
    if steps == [] then [] else Schedule1(steps[0]) + Schedule(steps[1..])
  }

  lemma ScheduleOfTwo(steps: seq<Runs.Step>)
    requires |steps| == 2
    ensures Schedule(steps) == Schedule1(steps[0]) + Schedule1(steps[1])
  {
    var last := steps[1..];
    assert last[0] == steps[1] && last[1..] == [] && Schedule(last[1..]) == [];
    assert Schedule(last) == Schedule1(last[0]) + [] == Schedule1(last[0]);
  }

  /** No handler is at work, and no watermark is above the highest entry applied. */
  predicate AtRest(s: System) {
    s.tasks == map[] && s.mem <= s.high && s.persisted <= s.high
  }

  lemma StepIsSerial(s: System, step: Runs.Step)
    requires AtRest(s)
    ensures var s' := RunEvents(s, Schedule1(step));
            && AtRest(s') && Seen(s') == Runs.Next(Seen(s), step) && s.reported <= s'.reported
            && (step.Rpc? ==> s'.mem in s'.reported)
  {
    match step
    case Rpc(rpc, env) =>
      ServeIsDeliver(s, 0, rpc, env);
      DrainBounds(rpc, env, s.mem, s.graph);
    case Restart(read) =>
      RunFront(s, Crash(read), []);
  }

  /** A serial run of the follower is the interleaving its schedule describes. */
  lemma {:induction false} SerialIsInterleaved(s: System, steps: seq<Runs.Step>)
    requires AtRest(s)
    ensures var s' := RunEvents(s, Schedule(steps));
            AtRest(s') && Seen(s') == Runs.Run(Seen(s), steps) && s.reported <= s'.reported
    decreases |steps|
  {
    if steps != [] {
      StepIsSerial(s, steps[0]);
      var s1 := RunEvents(s, Schedule1(steps[0]));
      RunEventsConcat(s, Schedule1(steps[0]), Schedule(steps[1..]));
      SerialIsInterleaved(s1, steps[1..]);
    }
  }

  lemma {:induction false} AllGuardedConcat(s: System, a: seq<Event>, b: seq<Event>)
    ensures AllGuarded(s, a + b) <==> AllGuarded(s, a) && AllGuarded(RunEvents(s, a), b)
    decreases |a|
  {
    if a == [] {
      assert a + b == b;
    } else {
      assert (a + b)[0] == a[0] && (a + b)[1..] == a[1..] + b;
      AllGuardedConcat(Step(s, a[0]), a[1..], b);
    }
  }

  /** After the load nothing a handler does needs a guard. */
  predicate NeedsNoGuard(events: seq<Event>) {
    forall ev :: ev in events ==> !ev.Load? && !ev.Crash?
  }

  lemma {:induction false} UnguardedSteps(s: System, events: seq<Event>)
    requires NeedsNoGuard(events)
    ensures AllGuarded(s, events)
    decreases |events|
  {
    if events != [] {
      assert events[0] in events;
      UnguardedSteps(Step(s, events[0]), events[1..]);
    }
  }

  lemma {:induction false} HandlesNeedNoGuard(t: nat, sorted: seq<LogEntry>, env: Environment, i: nat)
    requires i <= |sorted|
    ensures NeedsNoGuard(Handles(t, sorted, env, i))
    decreases |sorted| - i
  {
    if i < |sorted| {
      HandlesNeedNoGuard(t, sorted, env, i + 1);
    }
  }

  lemma ServeGuarded(s: System, t: nat, rpc: AppendEntries, env: Environment)
    requires s.tasks == map[]
    ensures AllGuarded(s, Serve(t, rpc, env))
    ensures forall ev :: ev in Serve(t, rpc, env) ==> !ev.Crash? && (ev.Load? ==> ev.rpc == rpc)
  {
    var load, loop := [Load(t, rpc)], Handles(t, SortBySeq(rpc.entries), env, 0);
    var rest := loop + [Swap(t)] + [Finish(t, env.persistOk)];
    HandlesNeedNoGuard(t, SortBySeq(rpc.entries), env, 0);
    assert Serve(t, rpc, env) == load + rest;
    LoadGuarded(s, t, rpc, rest);
  }

  lemma LoadGuarded(s: System, t: nat, rpc: AppendEntries, rest: seq<Event>)
    requires s.tasks == map[] && NeedsNoGuard(rest)
    ensures AllGuarded(s, [Load(t, rpc)] + rest)
  {
    var events := [Load(t, rpc)] + rest;
    assert events[0] == Load(t, rpc) && events[1..] == rest;
    UnguardedSteps(Step(s, Load(t, rpc)), rest);
  }

  lemma {:induction false} ScheduleGuarded(s: System, steps: seq<Runs.Step>)
    requires AtRest(s)
    ensures AllGuarded(s, Schedule(steps)) <==> Runs.SafeRestarts(Seen(s), steps)
    decreases |steps|
  {
    if steps != [] {
      var first := Schedule1(steps[0]);
      AllGuardedConcat(s, first, Schedule(steps[1..]));
      StepIsSerial(s, steps[0]);
      ScheduleGuarded(RunEvents(s, first), steps[1..]);
      match steps[0]
      case Rpc(rpc, env) => ServeGuarded(s, 0, rpc, env);
      case Restart(read) => assert AllGuarded(s, first) <==> Guarded(s, first[0]);
    }
  }

  lemma {:induction false} ScheduleDrawn(steps: seq<Runs.Step>, log: Log)
    requires Runs.Drawn(steps, log)
    ensures DrawnEvents(Schedule(steps), log)
    decreases |steps|
  {
    if steps != [] {
      assert steps[0] in steps;
      ScheduleDrawn(steps[1..], log);
      if steps[0].Rpc? {
        ServeGuarded(START, 0, steps[0].rpc, steps[0].env);
      }
    }
  }
}
