/**
 Whole runs of one follower whose RPCs are handled one at a time: batches duplicated,
 reordered, gapped or lost, graph calls that fail, watermark writes that fail, and crashes.

 The leader's log is fixed and terms are not checked, so a batch is drawn from the log: its
 entry number n carries the log's payload n.
 */
module RaftRuns {
  import opened Wrappers
  import opened ReplicatedGraph
  import opened Landing
  import opened RaftFollower

  datatype Step =
    | Rpc(rpc: AppendEntries, env: Environment)
    | Restart(read: ReadOutcome)

  /** `high` is the highest entry whose effect ever reached the graph; `low` is how far the
      graph reflects the log, given the order in which entries landed. */
  datatype RunState = RunState(node: FollowerState, low: nat, high: nat)

  const INITIAL := RunState(FollowerState(0, 0, EMPTY_GRAPH), 0, 0)

  /** `low` after the entries first + 1 to last have landed one after the other. */
  function LandAll(low: nat, first: nat, last: nat): nat
    requires first <= last
    decreases last - first
  {
    if first == last then low else LandAll(Landed(low, first + 1), first + 1, last)
  }

  lemma {:induction false} LandAllValue(low: nat, first: nat, last: nat)
    requires first <= last
    ensures LandAll(low, first, last) == if first < last && first <= low then last else low
    decreases last - first
  {
    if first < last {
      LandAllValue(Landed(low, first + 1), first + 1, last);
    }
  }

  function Next(s: RunState, step: Step): RunState {
    match step
    case Rpc(rpc, env) =>
      var d := Drain(rpc, env, s.node.applied, s.node.graph);
      DrainBounds(rpc, env, s.node.applied, s.node.graph);
      RunState(Deliver(s.node, rpc, env), LandAll(s.low, s.node.applied, d.reached), Max(s.high, d.reached))
    case Restart(read) =>
      RunState(Reopen(s.node.persisted, read, s.node.graph), s.low, s.high)
  }

  function Run(s: RunState, steps: seq<Step>): RunState
    decreases |steps|
  {
    if steps == [] then s else Run(Next(s, steps[0]), steps[1..])
  }

  lemma {:induction false} RunConcat(s: RunState, a: seq<Step>, b: seq<Step>)
    ensures Run(s, a + b) == Run(Run(s, a), b)
    decreases |a|
  {
    if a == [] {
      assert a + b == b;
    } else {
      assert (a + b)[0] == a[0] && (a + b)[1..] == a[1..] + b;
      RunConcat(Next(s, a[0]), a[1..], b);
    }
  }

  /** Numbered entries agree with the log; number 0 marks an entry that could not be parsed. */
  predicate FromLog(entries: seq<LogEntry>, log: Log) {
    forall e :: e in entries && e.seqNo > 0 ==> e.seqNo <= |log| && e.payload == log[e.seqNo - 1]
  }

  predicate Drawn(steps: seq<Step>, log: Log) {
    forall step :: step in steps && step.Rpc? ==> FromLog(step.rpc.entries, log)
  }

  predicate NoRestart(steps: seq<Step>) {
    forall step :: step in steps ==> step.Rpc?
  }

  /** No graph call reports a failure after its write went through. */
  predicate CleanFaults(steps: seq<Step>) {
    forall step, n :: step in steps && step.Rpc? && n in step.env.faults ==> !step.env.faults[n].FailsAfter?
  }

  // ---------------------------------------------------------------------------
  // The invariant
  // ---------------------------------------------------------------------------

  /** Every cell comes from some prefix between `low` and the highest entry ever applied, and
      both watermarks are at most that entry. */
  ghost predicate Inv(s: RunState, log: Log) {
    && s.low <= s.high <= |log| && s.node.applied <= s.high && s.node.persisted <= s.high
    && Between(s.node.graph, log, s.low, s.high)
  }

  lemma FirstFromLog(entries: seq<LogEntry>, log: Log, n: nat)
    requires FromLog(entries, log) && n > 0 && First(entries, n).Some?
    ensures n <= |log| && First(entries, n).value == log[n - 1]
  {
    FirstIsInBatch(entries, n);
  }

  lemma {:induction false} DrainKeepsBetween(rpc: AppendEntries, env: Environment, log: Log,
                                             committed: nat, low: nat, high: nat, g: Graph)
    requires FromLog(rpc.entries, log) && committed <= high && low <= high <= |log|
    requires Between(g, log, low, high)
    ensures var d := Drain(rpc, env, committed, g);
            && committed <= d.committed <= d.reached <= d.committed + 1 && d.reached <= |log|
            && LandAll(low, committed, d.reached) <= Max(high, d.reached)
            && Between(d.graph, log, LandAll(low, committed, d.reached), Max(high, d.reached))
    decreases rpc.leaderCommit - committed
  {
    var n := committed + 1;
    if n <= rpc.leaderCommit && First(rpc.entries, n).Some? {
      var p := First(rpc.entries, n).value;
      FirstFromLog(rpc.entries, log, n);
      BetweenApplyAny(g, log, low, high, n);
      var r := ApplyEntry(g, p, FaultAt(env, n));
      if r.ok {
        DrainKeepsBetween(rpc, env, log, n, Landed(low, n), Max(high, n), r.graph);
      }
    }
  }

  lemma NextKeepsInv(s: RunState, step: Step, log: Log)
    requires Inv(s, log)
    requires step.Rpc? ==> FromLog(step.rpc.entries, log)
    ensures Inv(Next(s, step), log)
  {
    if step.Rpc? {
      DrainKeepsBetween(step.rpc, step.env, log, s.node.applied, s.low, s.high, s.node.graph);
    }
  }

  /** Every run: no premise on faults, crashes or what a restart reads. */
  lemma {:induction false} RunKeepsInv(s: RunState, steps: seq<Step>, log: Log)
    requires Inv(s, log) && Drawn(steps, log)
    ensures Inv(Run(s, steps), log)
    decreases |steps|
  {
    if steps != [] {
      NextKeepsInv(s, steps[0], log);
      RunKeepsInv(Next(s, steps[0]), steps[1..], log);
    }
  }

  // ---------------------------------------------------------------------------
  // Which watermarks are right
  // ---------------------------------------------------------------------------

  /** The graph reflects the log up to the watermark. */
  predicate Trusted(s: RunState) {
    s.node.applied <= s.low
  }

  /** A restart is safe when it reads no watermark above what the graph reflects; one that does
      not raise the watermark is. */
  predicate SafeRestart(s: RunState, step: Step) {
    step.Restart? && step.read.ReadOk? ==> s.node.persisted <= s.low
  }

  predicate SafeRestarts(s: RunState, steps: seq<Step>)
    decreases |steps|
  {
    steps == [] || (SafeRestart(s, steps[0]) && SafeRestarts(Next(s, steps[0]), steps[1..]))
  }

  predicate AlwaysTrusted(s: RunState, steps: seq<Step>)
    decreases |steps|
  {
    Trusted(s) && (steps == [] || AlwaysTrusted(Next(s, steps[0]), steps[1..]))
  }

  /** The condition is exact: the watermark stays right throughout a run if and only if every
      restart of the run is safe. */
  lemma {:induction false} TrustIff(s: RunState, steps: seq<Step>)
    requires Trusted(s)
    ensures AlwaysTrusted(s, steps) <==> SafeRestarts(s, steps)
    ensures SafeRestarts(s, steps) ==> Trusted(Run(s, steps))
    decreases |steps|
  {
    if steps != [] {
      if steps[0].Rpc? {
        var rpc, env := steps[0].rpc, steps[0].env;
        DrainBounds(rpc, env, s.node.applied, s.node.graph);
        LandAllValue(s.low, s.node.applied, Drain(rpc, env, s.node.applied, s.node.graph).reached);
      }
      if Trusted(Next(s, steps[0])) {
        TrustIff(Next(s, steps[0]), steps[1..]);
      }
    }
  }

  /** After every run, whatever failed and whatever restarts read, every cell comes from a
      prefix between `low` and the high mark. When every restart was safe, the graph reflects
      the log up to the watermark, and once that is back at the high mark the graph is exactly
      the replay of the log up to it. */
  lemma CrashConvergence(steps: seq<Step>, log: Log)
    requires Drawn(steps, log)
    ensures var s := Run(INITIAL, steps);
            && Inv(s, log)
            && (s.low == s.high ==> s.node.graph == Replay(log, s.high))
            && (SafeRestarts(INITIAL, steps) ==>
                  && s.node.applied <= s.low
                  && (s.node.applied == s.high ==> s.node.graph == Replay(log, s.node.applied)))
  {
    BetweenPoint(EMPTY_GRAPH, log, 0);
    RunKeepsInv(INITIAL, steps, log);
    TrustIff(INITIAL, steps);
    var s := Run(INITIAL, steps);
    BetweenPoint(s.node.graph, log, s.high);
  }

  /** A lost file stays lost: whatever the next restart reads, the watermark is 0. */
  lemma LostStaysLost(s: RunState, read: ReadOutcome)
    ensures Next(Next(s, Restart(FileLost)), Restart(read)).node.applied == 0
  {
  }

  /** A watermark p is right for every graph known to be between low and high exactly when it
      is at most low. */
  lemma WatermarkRightIff(low: nat, high: nat, p: nat)
    requires low <= high
    ensures (forall log: Log, g | high <= |log| && Between(g, log, low, high) :: Between(g, log, p, high)) <==> p <= low
  {
    if p <= low {
      forall log: Log, g | high <= |log| && Between(g, log, low, high) ensures Between(g, log, p, high) {
        BetweenWiden(g, log, low, high, p, high);
      }
    } else {
      var log := Counter(high);
      var g := Replay(log, low);
      BetweenPoint(g, log, low);
      BetweenWiden(g, log, low, low, low, high);
      NotReflected(g, high, low, p, high);
      assert high <= |log| && Between(g, log, low, high) && !Between(g, log, p, high);
    }
  }

  /** A graph whose property holds a does not reflect the counting log up to p > a. */
  lemma NotReflected(g: Graph, v: nat, a: nat, p: nat, high: nat)
    requires a < p && high <= v && Read(g, X) == if a == 0 then Absent else Holds(Integer(a))
    ensures !Between(g, Counter(v), p, high)
  {
    forall k: nat | p <= k <= high ensures Read(g, X) != Read(Replay(Counter(v), k), X) {
      CounterValue(v, k);
    }
    assert !CellBetween(g, Counter(v), X, p, high);
  }

  // ---------------------------------------------------------------------------
  // Runs without crashes
  // ---------------------------------------------------------------------------

  /** Between two neighbouring prefixes only one cell can differ. */
  lemma BetweenNeighbours(g: Graph, log: Log, n: nat)
    requires n < |log| && Between(g, log, n, n + 1)
    ensures g == Replay(log, n) || g == Replay(log, n + 1)
  {
    var p := log[n];
    var before, after := Replay(log, n), Replay(log, n + 1);
    forall c ensures Read(g, c) == Read(before, c) || Read(g, c) == Read(after, c) {
      var hi := n + 1;
      assert CellBetween(g, log, c, n, hi);
    }
    forall c ensures Target(p) != Some(c) ==> Read(g, c) == Read(before, c) == Read(after, c) {
      ReadAfterApply(before, p, c);
    }
    if Target(p).None? || Read(g, Target(p).value) == Read(before, Target(p).value) {
      SameReadsSameGraph(g, before);
    } else {
      SameReadsSameGraph(g, after);
    }
  }

  lemma CleanDrain(rpc: AppendEntries, env: Environment, committed: nat, g: Graph)
    requires forall n :: n in env.faults ==> !env.faults[n].FailsAfter?
    ensures Drain(rpc, env, committed, g).reached == Drain(rpc, env, committed, g).committed
    decreases rpc.leaderCommit - committed
  {
  }

  function MaxCommit(steps: seq<Step>): nat {
    if steps == [] then 0
    else if steps[0].Rpc? then Max(steps[0].rpc.leaderCommit, MaxCommit(steps[1..]))
    else MaxCommit(steps[1..])
  }

  lemma {:induction false} NoRestartIsSafe(s: RunState, steps: seq<Step>)
    requires NoRestart(steps)
    ensures SafeRestarts(s, steps)
    decreases |steps|
  {
    if steps != [] {
      NoRestartIsSafe(Next(s, steps[0]), steps[1..]);
    }
  }

  lemma {:induction false} RunWithoutCrash(s: RunState, steps: seq<Step>)
    requires NoRestart(steps) && s.node.applied <= s.high
    ensures var t := Run(s, steps);
            && s.node.applied <= t.node.applied <= t.high
            && t.node.applied <= Max(s.node.applied, MaxCommit(steps))
            && (s.high <= s.node.applied + 1 ==> t.high <= t.node.applied + 1)
            && (CleanFaults(steps) && s.high == s.node.applied ==> t.high == t.node.applied)
    decreases |steps|
  {
    if steps != [] {
      var rpc, env := steps[0].rpc, steps[0].env;
      DrainBounds(rpc, env, s.node.applied, s.node.graph);
      if CleanFaults(steps) {
        CleanDrain(rpc, env, s.node.applied, s.node.graph);
      }
      RunWithoutCrash(Next(s, steps[0]), steps[1..]);
    }
  }

  /** Serialised runs: the graph is the replay of exactly the first `applied` entries, except
      that the one entry above the watermark may already be in when its call failed late; the
      watermark never passes the largest commit index received. */
  lemma SerialisedRun(steps: seq<Step>, log: Log)
    requires Drawn(steps, log) && NoRestart(steps)
    ensures var s := Run(INITIAL, steps);
            && s.node.applied <= |log| && s.node.applied <= MaxCommit(steps)
            && (s.node.graph == Replay(log, s.node.applied) ||
                (s.node.applied < |log| && s.node.graph == Replay(log, s.node.applied + 1)))
            && (CleanFaults(steps) ==> s.node.graph == Replay(log, s.node.applied))
  {
    CrashConvergence(steps, log);
    NoRestartIsSafe(INITIAL, steps);
    RunWithoutCrash(INITIAL, steps);
    var s := Run(INITIAL, steps);
    if s.high != s.node.applied {
      BetweenWiden(s.node.graph, log, s.low, s.high, s.node.applied, s.high);
      BetweenNeighbours(s.node.graph, log, s.node.applied);
    }
  }

  /** Without a restart the watermark never decreases. */
  lemma WatermarkMonotone(before: seq<Step>, after: seq<Step>)
    requires NoRestart(before) && NoRestart(after)
    ensures Run(INITIAL, before).node.applied <= Run(INITIAL, before + after).node.applied
  {
    RunWithoutCrash(INITIAL, before);
    RunWithoutCrash(Run(INITIAL, before), after);
    RunConcat(INITIAL, before, after);
  }

  // ---------------------------------------------------------------------------
  // Why a restart must not raise the watermark
  // ---------------------------------------------------------------------------

  /** A log that overwrites one property with 1, 2, 3, ... */
  function Counter(n: nat): Log {
    seq(n, i => Record(NodeEvent("node", PropertySet("x", Integer(i + 1)))))
  }

  function Batch(log: Log, n: nat): (b: seq<LogEntry>)
    requires n <= |log|
    ensures FromLog(b, log)
    ensures |b| == n && forall i :: 0 <= i < n ==> b[i] == LogEntry(i + 1, log[i])
  {
    if n == 0 then [] else Batch(log, n - 1) + [LogEntry(n, log[n - 1])]
  }

  const X := PropertyCell("node", "x")

  lemma CounterValue(v: nat, n: nat)
    requires n <= v
    ensures Read(Replay(Counter(v), n), X) == if n == 0 then Absent else Holds(Integer(n))
  {
    if n > 0 {
      ReadAfterApply(Replay(Counter(v), n - 1), Counter(v)[n - 1], X);
    }
  }

  /** Delivering 1..n with no fault applies all of it and leaves n in the property. */
  lemma {:induction false} DrainCounter(v: nat, n: nat, env: Environment, committed: nat, g: Graph)
    requires committed <= n <= v && env.faults == map[]
    ensures var d := Drain(AppendEntries(Batch(Counter(v), n), n), env, committed, g);
            && d.committed == d.reached == n
            && Read(d.graph, X) == if committed < n then Holds(Integer(n)) else Read(g, X)
    decreases n - committed
  {
    if committed < n {
      var log, m := Counter(v), committed + 1;
      var entries := Batch(log, n);
      assert entries[committed] == LogEntry(m, log[committed]);
      FirstIsInBatch(entries, m);
      FirstFromLog(entries, log, m);
      var g' := ApplyPayload(g, log[committed]);
      ReadAfterApply(g, log[committed], X);
      DrainCounter(v, n, env, m, g');
    }
  }

  /** Apply v entries; restart without being able to read the file; re-apply a of them, with
      the watermark write failing; restart again, this time reading v. */
  function MisreadRun(a: nat, v: nat): seq<Step>
    requires a <= v
  {
    [Rpc(AppendEntries(Batch(Counter(v), v), v), Environment(map[], true)),
     Restart(ReadError),
     Rpc(AppendEntries(Batch(Counter(v), a), a), Environment(map[], false)),
     Restart(ReadOk)]
  }

  /** Convergence fails for every 0 < a < v once a read error leaves a later restart free to
      read v over a graph that reflects a: the watermark is back at the high mark, yet the graph
      holds a where the log says v. */
  lemma MisreadDiverges(a: nat, v: nat)
    requires 0 < a < v
    ensures var s := Run(INITIAL, MisreadRun(a, v));
            && Drawn(MisreadRun(a, v), Counter(v)) && !SafeRestarts(INITIAL, MisreadRun(a, v))
            && s.node.applied == s.high == v && s.low == a
            && Read(s.node.graph, X) == Holds(Integer(a))
            && s.node.graph != Replay(Counter(v), v)
  {
    var steps := MisreadRun(a, v);
    DrainCounter(v, v, steps[0].env, 0, EMPTY_GRAPH);
    var s1 := Next(INITIAL, steps[0]);
    var s2 := Next(s1, steps[1]);
    DrainCounter(v, a, steps[2].env, 0, s2.node.graph);
    var s3 := Next(s2, steps[2]);
    var s4 := Next(s3, steps[3]);
    LandAllValue(0, 0, v);
    LandAllValue(v, 0, a);
    FourSteps(INITIAL, steps);
    CounterValue(v, v);
  }

  lemma FourSteps(s: RunState, steps: seq<Step>)
    requires |steps| == 4
    ensures Run(s, steps) == Next(Next(Next(Next(s, steps[0]), steps[1]), steps[2]), steps[3])
    ensures SafeRestarts(s, steps) ==> SafeRestart(Next(Next(Next(s, steps[0]), steps[1]), steps[2]), steps[3])
  {
    var s1 := Next(s, steps[0]);
    var s2 := Next(s1, steps[1]);
    var s3 := Next(s2, steps[2]);
    assert SafeRestarts(s, steps) ==> SafeRestarts(s1, steps[1..]);
    assert SafeRestarts(s1, steps[1..]) ==> SafeRestarts(s2, steps[1..][1..]);
    assert SafeRestarts(s2, steps[1..][1..]) ==> SafeRestarts(s3, steps[1..][1..][1..]);
    assert Run(s, steps) == Run(s1, steps[1..]);
    assert Run(s1, steps[1..]) == Run(s2, steps[1..][1..]);
    assert Run(s2, steps[1..][1..]) == Run(s3, steps[1..][1..][1..]);
    assert steps[1..][1..][1..] == [steps[3]];
    assert Run(s3, [steps[3]]) == Run(Next(s3, steps[3]), []);
  }

  // ---------------------------------------------------------------------------
  // A watermark that falls back
  // ---------------------------------------------------------------------------

  /** Apply w entries and record it; apply up to v, with the watermark write failing. */
  function AheadOfFile(w: nat, v: nat): seq<Step>
    requires w <= v
  {
    [Rpc(AppendEntries(Batch(Counter(v), w), w), Environment(map[], true)),
     Rpc(AppendEntries(Batch(Counter(v), v), v), Environment(map[], false))]
  }

  /** Restart, and apply up to a. */
  function FallBack(a: nat, v: nat): seq<Step>
    requires a <= v
  {
    [Restart(ReadOk), Rpc(AppendEntries(Batch(Counter(v), a), a), Environment(map[], true))]
  }

  lemma TwoSteps(s: RunState, steps: seq<Step>)
    requires |steps| == 2
    ensures Run(s, steps) == Next(Next(s, steps[0]), steps[1])
    ensures SafeRestarts(s, steps) <==> SafeRestart(s, steps[0]) && SafeRestart(Next(s, steps[0]), steps[1])
  {
    var s1, last := Next(s, steps[0]), steps[1..];
    assert last[0] == steps[1] && last[1..] == [];
    assert Run(s1, last) == Run(Next(s1, steps[1]), []);
    assert SafeRestarts(s1, last) <==> SafeRestart(s1, last[0]) && SafeRestarts(Next(s1, last[0]), []);
  }

  /** One batch 1..n of the counting log. */
  lemma DeliverCounter(s: RunState, v: nat, n: nat, persistOk: bool)
    requires s.node.applied <= n <= v && s.node.applied <= s.low
    ensures var t := Next(s, Rpc(AppendEntries(Batch(Counter(v), n), n), Environment(map[], persistOk)));
            && t.node.applied == n && t.high == Max(s.high, n)
            && t.node.persisted == (if n > s.node.applied && persistOk then n else s.node.persisted)
            && t.low == (if s.node.applied < n then n else s.low)
            && Read(t.node.graph, X) == if s.node.applied < n then Holds(Integer(n)) else Read(s.node.graph, X)
  {
    DrainCounter(v, n, Environment(map[], persistOk), s.node.applied, s.node.graph);
    LandAllValue(s.low, s.node.applied, n);
  }

  /** Entry v has been acknowledged, and the file still says w. */
  lemma AheadOfFileState(w: nat, v: nat)
    requires w < v
    ensures var steps, s := AheadOfFile(w, v), Run(INITIAL, AheadOfFile(w, v));
            && Drawn(steps, Counter(v)) && SafeRestarts(INITIAL, steps)
            && s.node.applied == v && s.node.persisted == w && s.low == s.high == v
  {
    TwoSteps(INITIAL, AheadOfFile(w, v));
    DeliverCounter(INITIAL, v, w, true);
    DeliverCounter(Next(INITIAL, AheadOfFile(w, v)[0]), v, v, false);
  }

  /** A watermark that falls back from v to w takes the graph back with it, for every
      w < a < v: once a has been applied again the property holds a, although v has been
      acknowledged and every restart was safe. */
  lemma FallBackRegresses(s: RunState, w: nat, a: nat, v: nat)
    requires w < a < v && s.node.applied == v && s.node.persisted == w && s.low == s.high == v
    ensures var steps, t := FallBack(a, v), Run(s, FallBack(a, v));
            && Drawn(steps, Counter(v)) && SafeRestarts(s, steps)
            && t.node.applied == t.low == a && t.high == v
            && forall n: nat :: a < n <= v ==> !Between(t.node.graph, Counter(v), n, v)
  {
    var steps := FallBack(a, v);
    TwoSteps(s, steps);
    DeliverCounter(Next(s, steps[0]), v, a, true);
    var t := Run(s, steps);
    forall n: nat | a < n <= v ensures !Between(t.node.graph, Counter(v), n, v) {
      NotReflected(t.node.graph, v, a, n, v);
    }
  }
}
