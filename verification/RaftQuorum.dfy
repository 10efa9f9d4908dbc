/**
 What a majority's acknowledgements are worth, for followers whose handlers interleave and
 crash freely, and for followers whose handlers do not overlap.
 */
module RaftQuorum {
  import opened ReplicatedGraph
  import opened RaftLeader
  import Runs = RaftRuns
  import Cluster = RaftCluster
  import opened RaftInterleaving
  import opened RaftAcknowledged

  /** The leader, known by its id and the length of its own log, and its followers. */
  datatype Replicas = Replicas(leader: NodeId, leaderSeq: nat, nodes: map<NodeId, System>)

  datatype Action = LeaderAppends | AtNode(id: NodeId, event: Event)

  function Act(r: Replicas, a: Action): Replicas {
    match a
    case LeaderAppends => r.(leaderSeq := r.leaderSeq + 1)
    case AtNode(id, event) => if id in r.nodes then r.(nodes := r.nodes[id := Step(r.nodes[id], event)]) else r
  }

  function ActAll(r: Replicas, actions: seq<Action>): Replicas
    decreases |actions|
  {
    if actions == [] then r else ActAll(Act(r, actions[0]), actions[1..])
  }

  predicate GuardedAction(r: Replicas, a: Action) {
    a.AtNode? && a.id in r.nodes ==> Guarded(r.nodes[a.id], a.event)
  }

  predicate GuardedActions(r: Replicas, actions: seq<Action>)
    decreases |actions|
  {
    actions == [] || (GuardedAction(r, actions[0]) && GuardedActions(Act(r, actions[0]), actions[1..]))
  }

  predicate DrawnActions(actions: seq<Action>, log: Log) {
    forall a :: a in actions && a.AtNode? && a.event.Load? ==> Runs.FromLog(a.event.rpc.entries, log)
  }

  predicate Started(r: Replicas) {
    r.leader !in r.nodes && forall f :: f in r.nodes ==> r.nodes[f] == START
  }

  function Members(r: Replicas): set<NodeId> {
    r.nodes.Keys + {r.leader}
  }

  /** Node f has told the leader, in some response, that it has applied everything up to n. */
  ghost predicate Acked(r: Replicas, f: NodeId, n: nat) {
    if f == r.leader then n <= r.leaderSeq else f in r.nodes && Reported(r.nodes[f], n)
  }

  /** Node f has entries 1..n: in its log for the leader, on its graph for a follower. */
  ghost predicate Has(r: Replicas, f: NodeId, n: nat, log: Log) {
    if f == r.leader then n <= r.leaderSeq else f in r.nodes && Reflects(r.nodes[f], log, n)
  }

  /** Node f has applied each of 1..n at some time. */
  ghost predicate HasApplied(r: Replicas, f: NodeId, n: nat) {
    if f == r.leader then n <= r.leaderSeq else f in r.nodes && Covered(r.nodes[f].landed, n)
  }

  // ---------------------------------------------------------------------------
  // What holds at every node
  // ---------------------------------------------------------------------------

  ghost predicate Sound(r: Replicas, log: Log) {
    r.leader !in r.nodes && forall f :: f in r.nodes ==> LowInv(r.nodes[f], log) && AtLeastOnce(r.nodes[f])
  }

  lemma {:induction false} ActionsKeepSound(r: Replicas, actions: seq<Action>, log: Log)
    requires Sound(r, log) && DrawnActions(actions, log)
    ensures Sound(ActAll(r, actions), log)
    decreases |actions|
  {
    if actions != [] {
      var a := actions[0];
      if a.AtNode? && a.id in r.nodes {
        StepKeepsAtLeastOnce(r.nodes[a.id], a.event);
        StepKeepsLow(r.nodes[a.id], a.event, log);
      }
      ActionsKeepSound(Act(r, a), actions[1..], log);
    }
  }

  predicate Exclusive(r: Replicas) {
    forall f :: f in r.nodes ==> ExclusiveInv(r.nodes[f])
  }

  lemma {:induction false} ActionsKeepExclusive(r: Replicas, actions: seq<Action>)
    requires Exclusive(r) && GuardedActions(r, actions)
    ensures Exclusive(ActAll(r, actions))
    decreases |actions|
  {
    if actions != [] {
      var a := actions[0];
      if a.AtNode? && a.id in r.nodes {
        StepKeepsExclusive(r.nodes[a.id], a.event);
      }
      ActionsKeepExclusive(Act(r, a), actions[1..]);
    }
  }

  lemma StartSound(r: Replicas, log: Log)
    requires Started(r)
    ensures Sound(r, log) && Exclusive(r)
  {
    BetweenPoint(EMPTY_GRAPH, log, 0);
  }

  /** No follower that has reported n is restarted below n - 1, at any point. */
  ghost predicate ReportersStay(r: Replicas, actions: seq<Action>, n: nat)
    decreases |actions|
  {
    && (forall f :: f in r.nodes && Reported(r.nodes[f], n) ==> n <= r.nodes[f].mem + 1)
    && (actions == [] || ReportersStay(Act(r, actions[0]), actions[1..], n))
  }

  ghost predicate ReportedIsKept(s: System, n: nat) {
    Reported(s, n) ==> n <= s.low
  }

  lemma StepKeepsReported(s: System, ev: Event, n: nat)
    requires ExclusiveInv(s) && Guarded(s, ev) && ReportedIsKept(s, n)
    requires Reported(s, n) ==> n <= s.mem + 1
    ensures ReportedIsKept(Step(s, ev), n)
  {
    if Reported(s, n) {
      StepKeepsEntry(s, ev, n);
    } else if ev.Finish? && Enabled(s, ev) && Reported(Step(s, ev), n) {
      assert TaskInv(s, ev.task);
    }
  }

  lemma {:induction false} ActionsKeepReported(r: Replicas, actions: seq<Action>, n: nat)
    requires Exclusive(r) && GuardedActions(r, actions) && ReportersStay(r, actions, n)
    requires forall f :: f in r.nodes ==> ReportedIsKept(r.nodes[f], n)
    ensures forall f :: f in ActAll(r, actions).nodes ==> ReportedIsKept(ActAll(r, actions).nodes[f], n)
    decreases |actions|
  {
    if actions != [] {
      var a := actions[0];
      if a.AtNode? && a.id in r.nodes {
        StepKeepsExclusive(r.nodes[a.id], a.event);
        StepKeepsReported(r.nodes[a.id], a.event, n);
      }
      ActionsKeepReported(Act(r, a), actions[1..], n);
    }
  }

  // ---------------------------------------------------------------------------
  // Majorities
  // ---------------------------------------------------------------------------

  ghost predicate Majority(r: Replicas, nodes: set<NodeId>) {
    nodes <= Members(r) && |nodes| >= |Members(r)| / 2 + 1
  }

  /** In every run, once a majority has reported n, every majority contains a node that has
      applied each of 1..n at some time and whose high mark is at least n. */
  lemma QuorumApplied(r: Replicas, actions: seq<Action>, log: Log, n: nat, acked: set<NodeId>, quorum: set<NodeId>)
    requires Started(r) && DrawnActions(actions, log)
    requires var r' := ActAll(r, actions);
             Majority(r', acked) && Majority(r', quorum) && forall f :: f in acked ==> Acked(r', f, n)
    ensures exists f :: f in quorum && f in acked && HasApplied(ActAll(r, actions), f, n)
  {
    var r' := ActAll(r, actions);
    StartSound(r, log);
    ActionsKeepSound(r, actions, log);
    Cluster.MajoritiesMeet(Members(r'), acked, quorum);
    var f :| f in acked && f in quorum;
    if f != r'.leader {
      var m :| m in r'.nodes[f].reported && n <= m;
      assert Covered(r'.nodes[f].landed, m);
    }
  }

  /** Node f has entry n, by how far its graph reflects the log. */
  predicate Holds(r: Replicas, f: NodeId, n: nat) {
    if f == r.leader then n <= r.leaderSeq else f in r.nodes && n <= r.nodes[f].low
  }

  /** No entry below n lands on a follower that has n. */
  predicate NoneLandsBelow(r: Replicas, actions: seq<Action>, n: nat)
    decreases |actions|
  {
    actions == [] ||
    (var a := actions[0];
     && (a.AtNode? && a.id in r.nodes && n <= r.nodes[a.id].low ==> !LandsBelow(r.nodes[a.id], a.event, n))
     && NoneLandsBelow(Act(r, a), actions[1..], n))
  }

  lemma {:induction false} ActionsKeepHolds(r: Replicas, actions: seq<Action>, f: NodeId, n: nat)
    requires Holds(r, f, n) && NoneLandsBelow(r, actions, n)
    ensures var r' := ActAll(r, actions); Holds(r', f, n) && r'.leader == r.leader
    decreases |actions|
  {
    if actions != [] {
      var a := actions[0];
      if a.AtNode? && a.id in r.nodes && n <= r.nodes[a.id].low {
        StepKeptIff(r.nodes[a.id], a.event, n);
      }
      ActionsKeepHolds(Act(r, a), actions[1..], f, n);
    }
  }

  /** For every interleaving and crash: if a majority has entry n and no entry below n lands on
      a follower that has n, every majority goes on containing a node that has n. */
  lemma MajorityKeeps(r: Replicas, actions: seq<Action>, log: Log, n: nat, held: set<NodeId>, quorum: set<NodeId>)
    requires Sound(r, log) && DrawnActions(actions, log) && NoneLandsBelow(r, actions, n)
    requires Majority(r, held) && Majority(r, quorum) && forall f :: f in held ==> Holds(r, f, n)
    ensures exists f :: f in quorum && Has(ActAll(r, actions), f, n, log)
  {
    Cluster.MajoritiesMeet(Members(r), held, quorum);
    var f :| f in held && f in quorum;
    ActionsKeepSound(r, actions, log);
    ActionsKeepHolds(r, actions, f, n);
    var r' := ActAll(r, actions);
    if f != r'.leader {
      LowReflects(r'.nodes[f], log, n);
    }
    assert Has(r', f, n, log);
  }

  /** In every guarded run a follower whose watermark is at n has n, whatever it lost and
      regained before. */
  lemma CaughtUpHas(r: Replicas, actions: seq<Action>, log: Log, f: NodeId, n: nat)
    requires Started(r) && DrawnActions(actions, log) && GuardedActions(r, actions)
    requires var r' := ActAll(r, actions); f in r'.nodes && n <= r'.nodes[f].mem
    ensures Has(ActAll(r, actions), f, n, log)
  {
    StartSound(r, log);
    ActionsKeepSound(r, actions, log);
    ActionsKeepExclusive(r, actions);
    LowReflects(ActAll(r, actions).nodes[f], log, n);
  }

  /** In a guarded run, if no follower that has reported n is restarted below n - 1, then once a
      majority has reported n, every majority contains a node that has n. */
  lemma QuorumDurability(r: Replicas, actions: seq<Action>, log: Log, n: nat, acked: set<NodeId>, quorum: set<NodeId>)
    requires Started(r) && DrawnActions(actions, log) && GuardedActions(r, actions) && ReportersStay(r, actions, n)
    requires var r' := ActAll(r, actions);
             Majority(r', acked) && Majority(r', quorum) && forall f :: f in acked ==> Acked(r', f, n)
    ensures exists f :: f in quorum && Has(ActAll(r, actions), f, n, log)
  {
    var r' := ActAll(r, actions);
    StartSound(r, log);
    ActionsKeepSound(r, actions, log);
    ActionsKeepReported(r, actions, n);
    Cluster.MajoritiesMeet(Members(r'), acked, quorum);
    var f :| f in acked && f in quorum;
    if f != r'.leader {
      assert ReportedIsKept(r'.nodes[f], n);
      LowReflects(r'.nodes[f], log, n);
    }
    assert Has(r', f, n, log);
  }

  // ---------------------------------------------------------------------------
  // All followers at once
  // ---------------------------------------------------------------------------

  function Lift(id: NodeId, events: seq<Event>): seq<Action> {
    if events == [] then [] else [AtNode(id, events[0])] + Lift(id, events[1..])
  }

  /** Every listed follower in turn goes through the events. */
  function AtEach(ids: seq<NodeId>, events: seq<Event>): seq<Action> {
    if ids == [] then [] else Lift(ids[0], events) + AtEach(ids[1..], events)
  }

  lemma {:induction false} LiftRun(r: Replicas, id: NodeId, events: seq<Event>, rest: seq<Action>)
    requires id in r.nodes && AllGuarded(r.nodes[id], events)
    ensures var r' := r.(nodes := r.nodes[id := RunEvents(r.nodes[id], events)]);
            && ActAll(r, Lift(id, events) + rest) == ActAll(r', rest)
            && (GuardedActions(r', rest) ==> GuardedActions(r, Lift(id, events) + rest))
    decreases |events|
  {
    if events == [] {
      assert Lift(id, events) + rest == rest;
      assert r.nodes[id := r.nodes[id]] == r.nodes;
    } else {
      var a := AtNode(id, events[0]);
      var all, later := Lift(id, events) + rest, Lift(id, events[1..]) + rest;
      assert all[0] == a && all[1..] == later;
      LiftRun(Act(r, a), id, events[1..], rest);
      assert Act(r, a).nodes[id := RunEvents(r.nodes[id], events)] == r.nodes[id := RunEvents(r.nodes[id], events)];
    }
  }

  lemma {:induction false} AtEachRun(r: Replicas, ids: seq<NodeId>, events: seq<Event>)
    requires AllGuarded(START, events)
    requires forall i, j :: 0 <= i < j < |ids| ==> ids[i] != ids[j]
    requires forall id :: id in ids ==> id in r.nodes && r.nodes[id] == START
    ensures GuardedActions(r, AtEach(ids, events))
    ensures var r' := ActAll(r, AtEach(ids, events));
            && r'.nodes.Keys == r.nodes.Keys && r'.leader == r.leader
            && forall f :: f in r.nodes ==> r'.nodes[f] == if f in ids then RunEvents(START, events) else r.nodes[f]
    decreases |ids|
  {
    if ids != [] {
      var id := ids[0];
      var r1 := r.(nodes := r.nodes[id := RunEvents(START, events)]);
      assert id in ids;
      forall x | x in ids[1..] ensures x in r1.nodes && r1.nodes[x] == START {
        assert x in ids && x != id;
      }
      AtEachRun(r1, ids[1..], events);
      LiftRun(r, id, events, AtEach(ids[1..], events));
      assert forall f :: f in ids <==> f == id || f in ids[1..];
    }
  }

  lemma {:induction false} LiftDrawn(ids: seq<NodeId>, events: seq<Event>, log: Log)
    requires DrawnEvents(events, log)
    ensures DrawnActions(AtEach(ids, events), log)
  {
    if ids != [] {
      LiftDrawn(ids[1..], events, log);
      LiftIsEvents(ids[0], events);
    }
  }

  lemma {:induction false} LiftIsEvents(id: NodeId, events: seq<Event>)
    ensures forall a :: a in Lift(id, events) ==> a.AtNode? && a.event in events
  {
    if events != [] {
      LiftIsEvents(id, events[1..]);
    }
  }

  lemma LostNode(r: Replicas, f: NodeId, v: nat, n: nat, log: Log)
    requires r.leader !in r.nodes && f in r.nodes && n <= v
    requires Reported(r.nodes[f], v) && !Reflects(r.nodes[f], log, n)
    ensures Acked(r, f, n) && !Has(r, f, n, log)
  {
    var m :| m in r.nodes[f].reported && v <= m;
    assert n <= m;
  }

  /** Every follower has reported v, and none has any entry above a. */
  ghost predicate AllLost(r: Replicas, a: nat, v: nat, log: Log) {
    forall f, n: nat :: f in r.nodes && a < n <= v ==> Acked(r, f, n) && !Has(r, f, n, log)
  }

  lemma AllLose(r: Replicas, ids: seq<NodeId>, events: seq<Event>, a: nat, v: nat, log: Log)
    requires Started(r) && AllGuarded(START, events) && DrawnEvents(events, log)
    requires (forall i, j :: 0 <= i < j < |ids| ==> ids[i] != ids[j]) && forall f :: f in ids <==> f in r.nodes
    requires var s := RunEvents(START, events); Reported(s, v) && forall n: nat :: a < n <= v ==> !Reflects(s, log, n)
    ensures DrawnActions(AtEach(ids, events), log) && GuardedActions(r, AtEach(ids, events))
    ensures var r' := ActAll(r, AtEach(ids, events)); Members(r') == Members(r) && AllLost(r', a, v, log)
  {
    AtEachRun(r, ids, events);
    LiftDrawn(ids, events, log);
    var r' := ActAll(r, AtEach(ids, events));
    forall f, n: nat | f in r'.nodes && a < n <= v ensures Acked(r', f, n) && !Has(r', f, n, log) {
      assert f in r.nodes.Keys && r'.nodes[f] == RunEvents(START, events);
      LostNode(r', f, v, n, log);
    }
  }

  /** The condition is needed: for every cluster and every w < a < v there is a guarded run
      after which every follower has reported v and none has any entry above a. */
  lemma AllRegress(r: Replicas, ids: seq<NodeId>, w: nat, a: nat, v: nat) returns (actions: seq<Action>)
    requires Started(r) && w < a < v
    requires (forall i, j :: 0 <= i < j < |ids| ==> ids[i] != ids[j]) && forall f :: f in ids <==> f in r.nodes
    ensures DrawnActions(actions, Runs.Counter(v)) && GuardedActions(r, actions)
    ensures var r' := ActAll(r, actions); Members(r') == Members(r) && AllLost(r', a, v, Runs.Counter(v))
  {
    var events := RegressRun(w, a, v);
    ReportedRegresses(w, a, v);
    AllLose(r, ids, events, a, v, Runs.Counter(v));
    actions := AtEach(ids, events);
  }
}
