/**
 Failing closed. An entry that does not decode is never acknowledged and never passed: no
 watermark, in memory or on disk, and no reply ever reaches it, in any interleaving. And nothing
 else holds a follower back: a committed batch of decodable entries that follows on from the
 watermark is applied to its end and answered with success.
 */
module RaftFailClosed {
  import opened Wrappers
  import opened ReplicatedGraph
  import opened RaftFollower
  import opened RaftInterleaving

  // ---------------------------------------------------------------------------
  // One entry
  // ---------------------------------------------------------------------------

  /** An entry is accepted exactly when its bytes decode and, if it is one of the four writes,
      the write goes through. */
  lemma AcceptedIff(g: Graph, p: Payload, fault: Fault)
    ensures ApplyEntry(g, p, fault).ok <==> p.Record? && (fault.NoFault? || Target(p).None?)
  {
  }

  // ---------------------------------------------------------------------------
  // One request
  // ---------------------------------------------------------------------------

  /** The next committed entry does not decode: nothing is applied and the reply is no success. */
  lemma UndecodableStops(s: FollowerState, rpc: AppendEntries, env: Environment)
    requires s.applied + 1 <= rpc.leaderCommit && First(rpc.entries, s.applied + 1) == Some(Undecodable)
    ensures Deliver(s, rpc, env) == s && !Settled(rpc, Deliver(s, rpc, env).applied)
  {
    FirstIsInBatch(rpc.entries, s.applied + 1);
    assert LogEntry(s.applied + 1, Undecodable) in rpc.entries;
  }

  /** The batch is the entries first, first + 1, ... of decodable payloads, all committed, and
      none of its graph calls fails. */
  predicate CleanBatch(rpc: AppendEntries, env: Environment, first: nat) {
    && rpc.entries != [] && first + |rpc.entries| - 1 <= rpc.leaderCommit
    && forall i :: 0 <= i < |rpc.entries| ==>
         && rpc.entries[i].seqNo == first + i && rpc.entries[i].payload.Record?
         && (first + i in env.faults ==> env.faults[first + i].NoFault?)
  }

  lemma {:induction false} CleanDrain(rpc: AppendEntries, env: Environment, first: nat, committed: nat, g: Graph)
    requires CleanBatch(rpc, env, first) && first <= committed + 1
    ensures var last := first + |rpc.entries| - 1;
            Drain(rpc, env, committed, g).committed == if committed < last then last else committed
    decreases first + |rpc.entries| - committed
  {
    var n := committed + 1;
    FirstIsInBatch(rpc.entries, n);
    if n <= first + |rpc.entries| - 1 {
      assert rpc.entries[n - first].seqNo == n && rpc.entries[n - first] in rpc.entries;
      var p := First(rpc.entries, n).value;
      CleanEntry(rpc, env, first, LogEntry(n, p));
      AcceptedIff(g, p, FaultAt(env, n));
      CleanDrain(rpc, env, first, n, ApplyEntry(g, p, FaultAt(env, n)).graph);
    } else {
      forall e | e in rpc.entries ensures e.seqNo != n {
        CleanEntry(rpc, env, first, e);
      }
    }
  }

  lemma CleanEntry(rpc: AppendEntries, env: Environment, first: nat, e: LogEntry)
    requires CleanBatch(rpc, env, first) && e in rpc.entries
    ensures first <= e.seqNo < first + |rpc.entries| && e.payload.Record? && FaultAt(env, e.seqNo).NoFault?
  {
    var i :| 0 <= i < |rpc.entries| && rpc.entries[i] == e;
    assert e.seqNo == first + i;
  }

  /** Such a batch that leaves no gap takes the follower to its last entry and is answered with
      success. */
  lemma CleanBatchSucceeds(s: FollowerState, rpc: AppendEntries, env: Environment, first: nat)
    requires CleanBatch(rpc, env, first) && first <= s.applied + 1
    ensures var w, last := Deliver(s, rpc, env).applied, first + |rpc.entries| - 1;
            w == (if s.applied < last then last else s.applied) && Settled(rpc, w)
  {
    CleanDrain(rpc, env, first, s.applied, s.graph);
    forall e | e in rpc.entries ensures e.seqNo <= first + |rpc.entries| - 1 {
      CleanEntry(rpc, env, first, e);
    }
  }

  // ---------------------------------------------------------------------------
  // Every interleaving
  // ---------------------------------------------------------------------------

  /** No watermark, no handler's cursor and no reply has reached k, and k has not landed. */
  predicate StaysBelow(s: System, k: nat) {
    && s.mem < k && s.persisted < k && k !in s.landed
    && (forall t :: t in s.tasks ==> s.tasks[t].committed < k)
    && (forall n :: n in s.reported ==> n < k)
  }

  lemma StepStaysBelow(s: System, ev: Event, log: Log, k: nat)
    requires 1 <= k <= |log| && log[k - 1].Undecodable? && TasksDrawn(s, log) && StaysBelow(s, k)
    ensures StaysBelow(Step(s, ev), k)
  {
    if ev.Handle? && Enabled(s, ev) {
      var task := s.tasks[ev.task];
      assert task.sorted[task.i] in task.sorted;
    }
  }

  lemma {:induction false} RunStaysBelow(s: System, events: seq<Event>, log: Log, k: nat)
    requires 1 <= k <= |log| && log[k - 1].Undecodable? && TasksDrawn(s, log) && StaysBelow(s, k)
    requires DrawnEvents(events, log)
    ensures StaysBelow(RunEvents(s, events), k)
    decreases |events|
  {
    if events != [] {
      StepStaysBelow(s, events[0], log, k);
      StepKeepsDrawn(s, events[0], log);
      RunStaysBelow(Step(s, events[0]), events[1..], log, k);
    }
  }

  /** In every interleaving drawn from a log, with any faults, crashes and restarts, an entry that
      does not decode stays above both watermarks and every reply. */
  lemma UndecodableNeverPassed(events: seq<Event>, log: Log, k: nat)
    requires 1 <= k <= |log| && log[k - 1].Undecodable? && DrawnEvents(events, log)
    ensures StaysBelow(RunEvents(START, events), k)
  {
    RunStaysBelow(START, events, log, k);
  }
}
