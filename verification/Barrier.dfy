/**
 The epoch barrier scheduler. Shards report that they have flushed an epoch; the report that
 completes an epoch releases the state lock before it commits, so reports and commits of
 different tasks interleave. Creating a barrier inserts its state before it advances the
 current epoch, and reports may come in between.
 */
module Barrier {
  datatype ShardStatus = Pending | Flushed(nodeCount: nat, eventCount: nat) | Failed(error: string)

  datatype EpochState = EpochState(total: nat, completed: set<nat>, failed: map<nat, string>)

  datatype Outcome = Ok | UnknownEpoch(epoch: nat) | AlreadyCommitted(epoch: nat)

  predicate Complete(e: EpochState) {
    |e.completed| >= e.total
  }

  /** `creating` is true while a barrier is being created; `inFlight` are the epochs whose
      commit is due but has not taken the commit lock yet. */
  datatype State = State(
    total: nat, current: nat, creating: bool, epochs: map<nat, EpochState>,
    committed: nat, notified: seq<nat>, inFlight: multiset<nat>)

  function Initial(total: nat): State {
    State(total, 1, false, map[], 0, [], multiset{})
  }

  // ---------------------------------------------------------------------------
  // Steps
  // ---------------------------------------------------------------------------

  function BeginCreate(s: State): State {
    s.(creating := true, epochs := s.epochs[s.current := EpochState(s.total, {}, map[])])
  }

  function EndCreate(s: State): State {
    s.(creating := false, current := s.current + 1)
  }

  function Recorded(e: EpochState, shard: nat, status: ShardStatus): EpochState {
    match status
    case Flushed(_, _) => e.(completed := e.completed + {shard})
    case Failed(error) => e.(failed := e.failed[shard := error])
    case Pending => e
  }

  /** The commit this report asks for. */
  predicate Completes(s: State, epoch: nat, shard: nat, status: ShardStatus) {
    epoch in s.epochs && status.Flushed? && Complete(Recorded(s.epochs[epoch], shard, status))
  }

  function Report(s: State, epoch: nat, shard: nat, status: ShardStatus): State {
    if epoch !in s.epochs then s
    else
      var s' := s.(epochs := s.epochs[epoch := Recorded(s.epochs[epoch], shard, status)]);
      if Completes(s, epoch, shard, status) then s'.(inFlight := s.inFlight + multiset{epoch}) else s'
  }

  function Commit(s: State, epoch: nat): State {
    var s' := s.(inFlight := s.inFlight - multiset{epoch});
    if epoch <= s.committed then s' else s'.(committed := epoch, notified := s.notified + [epoch])
  }

  datatype Step =
    | BeginBarrier
    | EndBarrier
    | ShardReport(epoch: nat, shard: nat, status: ShardStatus)
    | CommitEpoch(epoch: nat)

  /** A step that the locks allow. Reports are accepted from any shard number. */
  predicate Allowed(s: State, step: Step) {
    match step
    case BeginBarrier => !s.creating
    case EndBarrier => s.creating
    case ShardReport(_, _, _) => true
    case CommitEpoch(epoch) => epoch in s.inFlight
  }

  function Next(s: State, step: Step): State {
    if !Allowed(s, step) then s
    else match step
      case BeginBarrier => BeginCreate(s)
      case EndBarrier => EndCreate(s)
      case ShardReport(epoch, shard, status) => Report(s, epoch, shard, status)
      case CommitEpoch(epoch) => Commit(s, epoch)
  }

  /** The state after a run, last step outermost. */
  function Run(total: nat, steps: seq<Step>): State {
    if steps == [] then Initial(total) else Next(Run(total, steps[..|steps| - 1]), steps[|steps| - 1])
  }

  // ---------------------------------------------------------------------------
  // The scheduler
  // ---------------------------------------------------------------------------

  class BarrierScheduler {
    const totalShards: nat
    var currentEpoch: nat
    var committedEpoch: nat
    var epochStates: map<nat, EpochState>
    var commits: seq<nat>

    ghost function Abs(): State
      reads this
    {
      State(totalShards, currentEpoch, false, epochStates, committedEpoch, commits, multiset{})
    }

    constructor (totalShards: nat)
      ensures Abs() == Initial(totalShards)
    {
      this.totalShards := totalShards;
      currentEpoch, committedEpoch, epochStates, commits := 1, 0, map[], [];
    }

    method CreateBarrier() returns (epoch: nat)
      modifies this
      ensures Abs() == EndCreate(BeginCreate(old(Abs()))) && epoch == old(currentEpoch)
    {
      epoch := currentEpoch;
      epochStates := epochStates[epoch := EpochState(totalShards, {}, map[])];
      currentEpoch := currentEpoch + 1;
    }

    /** Run alone, a report is its recording followed by the commit it asks for. It fails on an
        unknown epoch, and with AlreadyCommitted on every flush that finds the epoch complete
        at or below the committed one, even though the flush has been recorded. */
    method ReportShard(epoch: nat, shard: nat, status: ShardStatus) returns (r: Outcome)
      modifies this
      ensures var s := old(Abs());
              Abs() == if Completes(s, epoch, shard, status) then Commit(Report(s, epoch, shard, status), epoch)
                       else Report(s, epoch, shard, status)
      ensures r == if epoch !in old(epochStates) then UnknownEpoch(epoch)
                   else if Completes(old(Abs()), epoch, shard, status) && epoch <= old(committedEpoch)
                   then AlreadyCommitted(epoch)
                   else Ok
    {
      if epoch !in epochStates {
        return UnknownEpoch(epoch);
      }
      var state := epochStates[epoch];
      match status {
      case Flushed(_, _) =>
        state := state.(completed := state.completed + {shard});
        epochStates := epochStates[epoch := state];
        if |state.completed| >= state.total {
          r := DoCommit(epoch);
          return r;
        }
      case Failed(error) =>
        epochStates := epochStates[epoch := state.(failed := state.failed[shard := error])];
      case Pending =>
        epochStates := epochStates[epoch := state];
      }
      r := Ok;
    }

    method DoCommit(epoch: nat) returns (r: Outcome)
      modifies this
      ensures Abs() == Commit(old(Abs()), epoch)
      ensures r == if epoch <= old(committedEpoch) then AlreadyCommitted(epoch) else Ok
    {
      if epoch <= committedEpoch {
        return AlreadyCommitted(epoch);
      }
      committedEpoch := epoch;
      commits := commits + [epoch];
      r := Ok;
    }

    method IsBarrierComplete(epoch: nat) returns (complete: bool)
      ensures complete <==> IsComplete(Abs(), epoch)
    {
      complete := epoch in epochStates && |epochStates[epoch].completed| >= epochStates[epoch].total;
    }
  }

  // ---------------------------------------------------------------------------
  // The invariant
  // ---------------------------------------------------------------------------

  predicate Increasing(xs: seq<nat>) {
    forall i, j :: 0 <= i < j < |xs| ==> xs[i] < xs[j]
  }

  /** The newest epoch that has been created. */
  function Newest(s: State): int {
    if s.creating then s.current else s.current - 1
  }

  ghost predicate EpochsWellFormed(s: State) {
    && s.current >= 1 && (forall e: nat :: e in s.epochs <==> 1 <= e <= Newest(s))
    && forall e :: e in s.epochs ==> s.epochs[e].total == s.total
  }

  predicate IsComplete(s: State, e: nat) {
    e in s.epochs && Complete(s.epochs[e])
  }

  ghost predicate CommitsWellFormed(s: State) {
    && Increasing(s.notified) && s.committed == (if s.notified == [] then 0 else s.notified[|s.notified| - 1])
    && (forall e :: e in s.notified ==> IsComplete(s, e))
    && (forall e :: e in s.inFlight ==> IsComplete(s, e))
    && forall e: nat :: IsComplete(s, e) ==> e <= s.committed || e in s.inFlight
  }

  ghost predicate Inv(s: State) {
    s.total >= 1 && EpochsWellFormed(s) && CommitsWellFormed(s)
  }

  lemma BeginKeepsInv(s: State)
    requires Inv(s) && !s.creating
    ensures Inv(BeginCreate(s))
  {
    var s' := BeginCreate(s);
    assert s'.epochs[s.current].completed == {};
    forall e: nat ensures IsComplete(s', e) <==> IsComplete(s, e) {
      if e == s.current { assert e !in s.epochs; }
    }
  }

  lemma EndKeepsInv(s: State)
    requires Inv(s) && s.creating
    ensures Inv(EndCreate(s))
  {
    forall e: nat ensures IsComplete(EndCreate(s), e) <==> IsComplete(s, e) {
    }
  }

  lemma RecordedGrows(e: EpochState, shard: nat, status: ShardStatus)
    ensures Complete(e) ==> Complete(Recorded(e, shard, status))
    ensures Complete(Recorded(e, shard, status)) && !status.Flushed? ==> Complete(e)
  {
    if shard in e.completed {
      assert e.completed + {shard} == e.completed;
    } else {
      assert |e.completed + {shard}| == |e.completed| + 1;
    }
  }

  /** A report changes which epochs are complete only by putting the new one in flight. */
  lemma ReportComplete(s: State, epoch: nat, shard: nat, status: ShardStatus, e: nat)
    requires epoch in s.epochs
    ensures var s' := Report(s, epoch, shard, status);
            && (IsComplete(s, e) ==> IsComplete(s', e))
            && (IsComplete(s', e) ==> IsComplete(s, e) || (e == epoch && e in s'.inFlight))
            && (e in s'.inFlight ==> e in s.inFlight || (e == epoch && IsComplete(s', e)))
            && (e in s.inFlight ==> e in s'.inFlight)
  {
    RecordedGrows(s.epochs[epoch], shard, status);
  }

  lemma ReportKeepsEpochs(s: State, epoch: nat, shard: nat, status: ShardStatus)
    requires EpochsWellFormed(s)
    ensures EpochsWellFormed(Report(s, epoch, shard, status))
  {
  }

  lemma ReportKeepsInv(s: State, epoch: nat, shard: nat, status: ShardStatus)
    requires Inv(s)
    ensures Inv(Report(s, epoch, shard, status))
  {
    ReportKeepsEpochs(s, epoch, shard, status);
    if epoch in s.epochs {
      var s' := Report(s, epoch, shard, status);
      forall e | e in s.notified || e in s'.inFlight ensures IsComplete(s', e) {
        ReportComplete(s, epoch, shard, status, e);
      }
      forall e: nat | IsComplete(s', e) ensures e <= s'.committed || e in s'.inFlight {
        ReportComplete(s, epoch, shard, status, e);
      }
    }
  }

  lemma CommitKeepsInv(s: State, epoch: nat)
    requires Inv(s) && epoch in s.inFlight
    ensures Inv(Commit(s, epoch))
  {
    var s' := Commit(s, epoch);
    assert IsComplete(s, epoch);
    CommitNotifies(s, epoch);
    forall e: nat ensures IsComplete(s', e) == IsComplete(s, e) {
    }
    forall e: nat | IsComplete(s', e) ensures e <= s'.committed || e in s'.inFlight {
    }
    forall e | e in s'.inFlight ensures IsComplete(s', e) {
      assert e in s.inFlight;
    }
  }

  /** The notified epochs stay increasing, and the last one stays the committed epoch. */
  lemma CommitNotifies(s: State, epoch: nat)
    requires Inv(s) && epoch in s.inFlight
    ensures var s' := Commit(s, epoch);
            && Increasing(s'.notified) && (forall e :: e in s'.notified ==> IsComplete(s', e))
            && s'.committed == (if s'.notified == [] then 0 else s'.notified[|s'.notified| - 1])
  {
    if epoch > s.committed {
      forall i | 0 <= i < |s.notified| ensures s.notified[i] < epoch {
      }
      forall e | e in s.notified + [epoch] ensures IsComplete(s, e) {
        assert e in s.notified || e == epoch;
      }
    }
  }

  lemma StepKeepsInv(s: State, step: Step)
    requires Inv(s)
    ensures Inv(Next(s, step))
  {
    if Allowed(s, step) {
      match step
      case BeginBarrier => BeginKeepsInv(s);
      case EndBarrier => EndKeepsInv(s);
      case ShardReport(epoch, shard, status) => ReportKeepsInv(s, epoch, shard, status);
      case CommitEpoch(epoch) => CommitKeepsInv(s, epoch);
    }
  }

  lemma {:induction false} RunKeepsInv(total: nat, steps: seq<Step>)
    requires total >= 1
    ensures Inv(Run(total, steps)) && Run(total, steps).total == total
  {
    if steps != [] {
      RunKeepsInv(total, steps[..|steps| - 1]);
      StepKeepsInv(Run(total, steps[..|steps| - 1]), steps[|steps| - 1]);
    }
  }

  // ---------------------------------------------------------------------------
  // Safety
  // ---------------------------------------------------------------------------

  function Range(n: nat): (r: set<nat>)
    ensures |r| == n && forall i: nat :: i in r <==> i < n
  {
    if n == 0 then {} else Range(n - 1) + {n - 1}
  }

  /** As many different shards as there are shards is all of them. */
  lemma AllShards(completed: set<nat>, total: nat)
    requires forall shard :: shard in completed ==> shard < total
    requires |completed| >= total
    ensures forall shard: nat :: shard < total ==> shard in completed
  {
    var missing := Range(total) - completed;
    assert completed + missing == Range(total);
    assert missing == {};
    forall shard: nat | shard < total ensures shard in completed {
      assert shard in Range(total) && shard !in missing;
    }
  }

  predicate IsFlush(step: Step, epoch: nat, shard: nat) {
    step.ShardReport? && step.epoch == epoch && step.shard == shard && step.status.Flushed?
  }

  /** Some report of the run, made once the epoch existed, says that the shard has flushed it. */
  predicate HasFlushed(total: nat, steps: seq<Step>, epoch: nat, shard: nat) {
    if steps == [] then false
    else
      var before, step := steps[..|steps| - 1], steps[|steps| - 1];
      HasFlushed(total, before, epoch, shard) || (IsFlush(step, epoch, shard) && epoch in Run(total, before).epochs)
  }

  predicate HasCompleted(s: State, epoch: nat, shard: nat) {
    epoch in s.epochs && shard in s.epochs[epoch].completed
  }

  /** A step adds a shard to an epoch's completed ones exactly when it is that shard's Flushed
      report, and takes none away. */
  lemma NextCompleted(s: State, step: Step, epoch: nat, shard: nat)
    requires EpochsWellFormed(s)
    ensures HasCompleted(Next(s, step), epoch, shard) <==>
            HasCompleted(s, epoch, shard) || (IsFlush(step, epoch, shard) && epoch in s.epochs)
  {
  }

  /** The shards that count as completed are exactly those that have reported a flush. */
  lemma {:induction false} CompletedIffReported(total: nat, steps: seq<Step>, epoch: nat, shard: nat)
    requires total >= 1
    ensures HasCompleted(Run(total, steps), epoch, shard) <==> HasFlushed(total, steps, epoch, shard)
  {
    if steps != [] {
      var before := steps[..|steps| - 1];
      RunKeepsInv(total, before);
      CompletedIffReported(total, before, epoch, shard);
      NextCompleted(Run(total, before), steps[|steps| - 1], epoch, shard);
    }
  }

  /** In every run: notifications strictly increase, so none is repeated; every notified epoch,
      the committed one included, has been flushed by at least `total` different shards; and the
      committed epoch is below the current one whenever no barrier is being created. */
  lemma BarrierSafety(total: nat, steps: seq<Step>)
    requires total >= 1
    ensures var s := Run(total, steps);
            && Increasing(s.notified)
            && (s.committed > 0 ==> s.committed in s.notified)
            && (forall e :: e in s.notified ==> e in s.epochs && |s.epochs[e].completed| >= total)
            && (forall e, shard :: HasCompleted(s, e, shard) <==> HasFlushed(total, steps, e, shard))
            && (!s.creating ==> s.committed < s.current) && s.committed <= s.current
  {
    var s := Run(total, steps);
    RunKeepsInv(total, steps);
    forall e | e in s.notified ensures e in s.epochs && |s.epochs[e].completed| >= total {
      assert IsComplete(s, e);
    }
    forall e, shard ensures HasCompleted(s, e, shard) <==> HasFlushed(total, steps, e, shard) {
      CompletedIffReported(total, steps, e, shard);
    }
    if s.notified != [] {
      assert IsComplete(s, s.committed);
    }
  }

  predicate IsFailure(step: Step, epoch: nat, shard: nat) {
    step.ShardReport? && step.epoch == epoch && step.shard == shard && step.status.Failed?
  }

  /** Step number i reports that the shard has failed the epoch, which exists then, and no later
      step reports another failure of it. */
  predicate IsLastFailure(total: nat, steps: seq<Step>, i: nat, epoch: nat, shard: nat) {
    && i < |steps| && IsFailure(steps[i], epoch, shard) && epoch in Run(total, steps[..i]).epochs
    && forall j :: i < j < |steps| ==> !IsFailure(steps[j], epoch, shard)
  }

  predicate RemembersFailure(s: State, epoch: nat, shard: nat, error: string) {
    epoch in s.epochs && shard in s.epochs[epoch].failed && s.epochs[epoch].failed[shard] == error
  }

  lemma NextFailure(s: State, step: Step, epoch: nat, shard: nat, error: string)
    requires EpochsWellFormed(s)
    ensures RemembersFailure(Next(s, step), epoch, shard, error) <==>
            if IsFailure(step, epoch, shard) && epoch in s.epochs then step.status.error == error
            else RemembersFailure(s, epoch, shard, error)
  {
  }

  lemma {:induction false} EpochStays(total: nat, steps: seq<Step>, i: nat, epoch: nat)
    requires total >= 1 && i <= |steps| && epoch in Run(total, steps[..i]).epochs
    ensures epoch in Run(total, steps).epochs
    decreases |steps|
  {
    if i < |steps| {
      var before := steps[..|steps| - 1];
      assert before[..i] == steps[..i];
      EpochStays(total, before, i, epoch);
    } else {
      assert steps[..i] == steps;
    }
  }

  /** One more step: a failure of a known epoch is the last one; any other step leaves the last
      failure what it was. */
  lemma LastFailureStep(total: nat, steps: seq<Step>, step: Step, i: nat, epoch: nat, shard: nat)
    requires total >= 1
    ensures var counts := IsFailure(step, epoch, shard) && epoch in Run(total, steps).epochs;
            IsLastFailure(total, steps + [step], i, epoch, shard) <==>
            if counts then i == |steps| else IsLastFailure(total, steps, i, epoch, shard)
  {
    var all := steps + [step];
    assert (forall j :: 0 <= j < |steps| ==> all[j] == steps[j]) && all[|steps|] == step;
    if i <= |steps| {
      assert all[..i] == steps[..i];
    }
    if i == |steps| {
      assert all[..i] == steps;
    }
    if i < |steps| && epoch in Run(total, steps[..i]).epochs {
      EpochStays(total, steps, i, epoch);
    }
  }

  ghost predicate LastFailureIs(total: nat, steps: seq<Step>, epoch: nat, shard: nat, error: string) {
    exists i: nat :: IsLastFailure(total, steps, i, epoch, shard) && steps[i].status.error == error
  }

  lemma LastFailureIsStep(total: nat, steps: seq<Step>, step: Step, epoch: nat, shard: nat, error: string)
    requires total >= 1
    ensures LastFailureIs(total, steps + [step], epoch, shard, error) <==>
            if IsFailure(step, epoch, shard) && epoch in Run(total, steps).epochs then step.status.error == error
            else LastFailureIs(total, steps, epoch, shard, error)
  {
    var all := steps + [step];
    forall i: nat ensures IsLastFailure(total, all, i, epoch, shard) <==>
      if IsFailure(step, epoch, shard) && epoch in Run(total, steps).epochs then i == |steps|
      else IsLastFailure(total, steps, i, epoch, shard)
    {
      LastFailureStep(total, steps, step, i, epoch, shard);
    }
    if i: nat :| IsLastFailure(total, steps, i, epoch, shard) && steps[i].status.error == error {
      assert all[i] == steps[i];
    }
    assert all[|steps|] == step;
  }

  /** The failure remembered for a shard is the one it reported last. */
  lemma {:induction false} FailureIsLastReported(total: nat, steps: seq<Step>, epoch: nat, shard: nat, error: string)
    requires total >= 1
    ensures RemembersFailure(Run(total, steps), epoch, shard, error) <==>
            LastFailureIs(total, steps, epoch, shard, error)
  {
    if steps != [] {
      var before, step := steps[..|steps| - 1], steps[|steps| - 1];
      assert steps == before + [step];
      RunKeepsInv(total, before);
      FailureIsLastReported(total, before, epoch, shard, error);
      NextFailure(Run(total, before), step, epoch, shard, error);
      LastFailureIsStep(total, before, step, epoch, shard, error);
    }
  }

  lemma RunThen(total: nat, steps: seq<Step>, step: Step)
    ensures Run(total, steps + [step]) == Next(Run(total, steps), step)
  {
    assert (steps + [step])[..|steps|] == steps;
  }

  // ---------------------------------------------------------------------------
  // Which shards have flushed
  // ---------------------------------------------------------------------------

  predicate EveryShard(total: nat, completed: set<nat>) {
    forall shard: nat :: shard < total ==> shard in completed
  }

  predicate OnlyKnown(total: nat, completed: set<nat>) {
    forall shard :: shard in completed ==> shard < total
  }

  /** Exactly as many shards as there are: all of them are in if and only if no other is. */
  lemma AllIffOnlyKnown(total: nat, completed: set<nat>)
    requires |completed| == total
    ensures EveryShard(total, completed) <==> OnlyKnown(total, completed)
  {
    if OnlyKnown(total, completed) {
      AllShards(completed, total);
    }
    if EveryShard(total, completed) {
      var others := completed - Range(total);
      assert completed == Range(total) + others;
      assert others == {};
      forall shard | shard in completed ensures shard < total {
        assert shard !in others;
      }
    }
  }

  /** The report that completes an epoch leaves exactly `total` shards completed. */
  lemma ExactlyTotal(s: State, epoch: nat, shard: nat, status: ShardStatus)
    requires Inv(s) && !IsComplete(s, epoch) && IsComplete(Report(s, epoch, shard, status), epoch)
    ensures |Report(s, epoch, shard, status).epochs[epoch].completed| == s.total
  {
    AddOne(s.epochs[epoch].completed, shard);
  }

  lemma AddOne(shards: set<nat>, shard: nat)
    ensures |shards + {shard}| <= |shards| + 1
  {
    assert shard in shards ==> shards + {shard} == shards;
  }

  /** When an epoch first becomes complete, every shard has flushed it if and only if every
      shard that has flushed it is one of the scheduler's. */
  lemma EveryShardFlushedIff(total: nat, steps: seq<Step>, report: Step)
    requires total >= 1 && report.ShardReport? && !IsComplete(Run(total, steps), report.epoch)
    requires IsComplete(Run(total, steps + [report]), report.epoch)
    ensures (forall x: nat :: x < total ==> HasFlushed(total, steps + [report], report.epoch, x)) <==>
            (forall x: nat :: HasFlushed(total, steps + [report], report.epoch, x) ==> x < total)
  {
    RunThen(total, steps, report);
    RunKeepsInv(total, steps);
    ExactlyTotal(Run(total, steps), report.epoch, report.shard, report.status);
    FlushersAtCompletion(total, steps + [report], report.epoch);
  }

  lemma FlushersAtCompletion(total: nat, steps: seq<Step>, epoch: nat)
    requires total >= 1
    requires var s := Run(total, steps); epoch in s.epochs && |s.epochs[epoch].completed| == total
    ensures (forall x: nat :: x < total ==> HasFlushed(total, steps, epoch, x)) <==>
            (forall x: nat :: HasFlushed(total, steps, epoch, x) ==> x < total)
  {
    var s := Run(total, steps);
    var completed := s.epochs[epoch].completed;
    AllIffOnlyKnown(total, completed);
    if OnlyKnown(total, completed) {
      forall x: nat | x < total ensures HasFlushed(total, steps, epoch, x) {
        CompletedIffReported(total, steps, epoch, x);
        assert HasCompleted(s, epoch, x);
      }
      forall x: nat | HasFlushed(total, steps, epoch, x) ensures x < total {
        CompletedIffReported(total, steps, epoch, x);
        assert HasCompleted(s, epoch, x);
      }
    } else {
      var missing: nat :| missing < total && missing !in completed;
      var unknown: nat :| unknown >= total && unknown in completed;
      CompletedIffReported(total, steps, epoch, missing);
      CompletedIffReported(total, steps, epoch, unknown);
      assert HasCompleted(s, epoch, unknown) && !HasCompleted(s, epoch, missing);
    }
  }

  /** Whatever is reported later and for other epochs: when only the scheduler's own shards have
      flushed a notified epoch, all of them have. */
  lemma EveryShardFlushed(total: nat, steps: seq<Step>, epoch: nat, shard: nat)
    requires total >= 1 && epoch in Run(total, steps).notified && shard < total
    requires forall x: nat :: HasFlushed(total, steps, epoch, x) ==> x < total
    ensures HasFlushed(total, steps, epoch, shard)
  {
    BarrierSafety(total, steps);
    var s := Run(total, steps);
    forall x | x in s.epochs[epoch].completed ensures x < total {
      assert HasCompleted(s, epoch, x);
    }
    AllShards(s.epochs[epoch].completed, total);
    assert HasCompleted(s, epoch, shard);
  }

  /** Flushed reports of shards 1..n for epoch 1. */
  function Reports(n: nat, status: ShardStatus): seq<Step> {
    if n == 0 then [BeginBarrier] + [EndBarrier] else Reports(n - 1, status) + [ShardReport(1, n, status)]
  }

  function OneTo(n: nat): (r: set<nat>)
    ensures |r| == n && forall i: nat :: i in r <==> 1 <= i <= n
  {
    if n == 0 then {} else OneTo(n - 1) + {n}
  }

  /** Epoch 1 exists and shards 1..n have flushed it; its commit is due when n is the total. */
  function Reported(total: nat, n: nat): State {
    State(total, 2, false, map[1 := EpochState(total, OneTo(n), map[])], 0, [],
          if n == total then multiset{1} else multiset{})
  }

  lemma ReportNext(total: nat, n: nat, status: ShardStatus)
    requires 1 <= n <= total && status.Flushed?
    ensures Report(Reported(total, n - 1), 1, n, status) == Reported(total, n)
  {
    var e := Recorded(EpochState(total, OneTo(n - 1), map[]), n, status);
    assert e == EpochState(total, OneTo(n), map[]);
    assert map[1 := EpochState(total, OneTo(n - 1), map[])][1 := e] == map[1 := e];
  }

  lemma {:induction false} AfterReports(total: nat, n: nat, status: ShardStatus)
    requires 1 <= total && n <= total && status.Flushed?
    ensures Run(total, Reports(n, status)) == Reported(total, n)
  {
    if n == 0 {
      AfterBarrier(total);
    } else {
      AfterReports(total, n - 1, status);
      RunThen(total, Reports(n - 1, status), ShardReport(1, n, status));
      ReportNext(total, n, status);
    }
  }

  lemma AfterBarrier(total: nat)
    requires total >= 1
    ensures Run(total, [BeginBarrier] + [EndBarrier]) == Reported(total, 0)
  {
    RunThen(total, [], BeginBarrier);
    RunThen(total, [BeginBarrier], EndBarrier);
    assert [] + [BeginBarrier] == [BeginBarrier];
  }

  /** Shard numbers are only counted: for every number of shards, one unknown shard stands in
      for a real one that has not flushed. */
  lemma UnknownShardCounts(total: nat, status: ShardStatus)
    requires total >= 1 && status.Flushed?
    ensures var steps := Reports(total, status) + [CommitEpoch(1)];
            Run(total, steps).notified == [1] && !HasFlushed(total, steps, 1, 0)
  {
    var steps := Reports(total, status) + [CommitEpoch(1)];
    AfterReports(total, total, status);
    RunThen(total, Reports(total, status), CommitEpoch(1));
    CompletedIffReported(total, steps, 1, 0);
  }

  /** When no report is in flight, the committed epoch is the greatest complete one, whatever
      the order in which epochs completed, or 0 when none is complete. */
  lemma BarrierQuiescence(total: nat, steps: seq<Step>)
    requires total >= 1 && Run(total, steps).inFlight == multiset{}
    ensures var s := Run(total, steps);
            && (forall e: nat :: IsComplete(s, e) ==> e <= s.committed)
            && (IsComplete(s, s.committed) || (s.committed == 0 && forall e: nat :: !IsComplete(s, e)))
  {
    var s := Run(total, steps);
    RunKeepsInv(total, steps);
    if s.notified == [] {
      assert forall e: nat :: IsComplete(s, e) ==> e >= 1;
    } else {
      assert s.committed in s.notified;
    }
  }

  // ---------------------------------------------------------------------------
  // Epochs that complete late
  // ---------------------------------------------------------------------------

  lemma StepKeepsOvertaken(s: State, step: Step, epoch: nat)
    requires epoch <= s.committed && epoch !in s.notified
    ensures epoch <= Next(s, step).committed && epoch !in Next(s, step).notified
  {
  }

  /** An epoch overtaken by a later commit is never notified in any continuation. */
  lemma {:induction false} OvertakenNeverNotified(total: nat, before: seq<Step>, after: seq<Step>, epoch: nat)
    requires total >= 1
    requires var s := Run(total, before); epoch <= s.committed && epoch !in s.notified
    ensures var s := Run(total, before + after); epoch <= s.committed && epoch !in s.notified
  {
    if after == [] {
      assert before + after == before;
    } else {
      var init, step := after[..|after| - 1], after[|after| - 1];
      OvertakenNeverNotified(total, before, init, epoch);
      assert before + after == (before + init) + [step];
      RunThen(total, before + init, step);
      StepKeepsOvertaken(Run(total, before + init), step, epoch);
    }
  }
}
