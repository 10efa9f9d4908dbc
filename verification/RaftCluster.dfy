/**
 The leader and its followers together: what an acknowledgement means, what the leader makes
 of it, and what survives.
 */
module RaftCluster {
  import opened ReplicatedGraph
  import opened Landing
  import opened RaftFollower
  import opened RaftRuns
  import opened RaftLeader

  // ---------------------------------------------------------------------------
  // One round
  // ---------------------------------------------------------------------------

  /** A contiguous batch first..last of the log. */
  predicate Contiguous(entries: seq<LogEntry>, log: Log, first: nat, last: nat) {
    && FromLog(entries, log) && 1 <= first <= last <= |log| && |entries| == last - first + 1
    && forall i :: 0 <= i < |entries| ==> entries[i].seqNo == first + i
  }

  /** The leader records `last` as replicated whenever the follower answers success. That is
      true of the follower exactly when `last` was committed at the time of sending or was
      already applied; otherwise the follower has dropped the tail of the batch. */
  lemma AcknowledgedIffCommitted(s: FollowerState, entries: seq<LogEntry>, log: Log,
                                 first: nat, last: nat, leaderCommit: nat, env: Environment)
    requires Contiguous(entries, log, first, last)
    requires var rpc := AppendEntries(entries, leaderCommit); Settled(rpc, Deliver(s, rpc, env).applied)
    ensures Deliver(s, AppendEntries(entries, leaderCommit), env).applied >= last <==>
            last <= leaderCommit || last <= s.applied
  {
    var rpc := AppendEntries(entries, leaderCommit);
    var w := Deliver(s, rpc, env).applied;
    DrainIsLargest(rpc, env, s.applied, s.graph);
    assert entries[|entries| - 1].seqNo == last;
    if w >= last && last > s.applied {
      assert Ready(rpc, env, last);
    }
  }

  // ---------------------------------------------------------------------------
  // Runs of the whole cluster
  // ---------------------------------------------------------------------------

  datatype Request = Request(to: NodeId, rpc: AppendEntries)

  /** `sent` keeps every request: a slow one can still arrive after the leader gave up on it. */
  datatype Cluster = Cluster(leader: LeaderState, nodes: map<NodeId, FollowerState>, sent: set<Request>)

  datatype Move =
    | Append
    | Register(id: NodeId, lastSeq: nat)
    | Remove(id: NodeId)
    | Replicate(to: NodeId, lastSeen: nat, commitSeen: nat, env: Environment, answered: bool, newCommit: nat)
    | LateArrival(request: Request, env: Environment)

  function EntriesOf(log: Log, batch: seq<nat>): (r: seq<LogEntry>)
    requires forall i :: 0 <= i < |batch| ==> 1 <= batch[i] <= |log|
    ensures |r| == |batch| && forall i :: 0 <= i < |r| ==> r[i] == LogEntry(batch[i], log[batch[i] - 1])
  {
    seq(|batch|, i requires 0 <= i < |batch| => LogEntry(batch[i], log[batch[i] - 1]))
  }

  /** The request of a Replicate move. The leader reads its log end and its commit index
      before it sends, and rounds to other followers may move both in the meantime. */
  function RequestOf(c: Cluster, m: Move, log: Log): Request
    requires m.Replicate? && m.to in c.leader.followers
    requires m.lastSeen <= |log| && c.leader.followers[m.to].nextSeq >= 1
  {
    var batch := NextBatch(c.leader, c.leader.followers[m.to], m.lastSeen);
    Request(m.to, AppendEntries(EntriesOf(log, batch), m.commitSeen))
  }

  /** The leader's state once the answer is in. */
  function Answered(c: Cluster, m: Move, req: Request): LeaderState
    requires m.Replicate? && req.rpc.entries != []
  {
    Acknowledge(c.leader, m.to, req.rpc.entries[|req.rpc.entries| - 1].seqNo)
  }

  ghost predicate Enabled(c: Cluster, m: Move, log: Log) {
    match m
    case Append => c.leader.lastApplied < |log|
    case Register(_, _) => true
    case Remove(_) => true
    case LateArrival(req, _) => req in c.sent && req.to in c.nodes
    case Replicate(to, lastSeen, commitSeen, env, answered, newCommit) =>
      && to in c.leader.followers && to in c.nodes
      && lastSeen <= c.leader.lastApplied <= |log| && commitSeen <= c.leader.commitIndex
      && c.leader.followers[to].nextSeq >= 1
      && var req := RequestOf(c, m, log);
      && req.rpc.entries != []
      && (answered && Settled(req.rpc, Deliver(c.nodes[to], req.rpc, env).applied) ==>
            IsCommitPoint(Answered(c, m, req), newCommit))
  }

  function Move1(c: Cluster, m: Move, log: Log): Cluster
    requires Enabled(c, m, log)
  {
    match m
    case Append => c.(leader := Appended(c.leader, c.leader.lastApplied + 1))
    case Register(id, lastSeq) => c.(leader := Registered(c.leader, id, lastSeq))
    case Remove(id) => c.(leader := Removed(c.leader, id))
    case LateArrival(req, env) =>
      c.(nodes := c.nodes[req.to := Deliver(c.nodes[req.to], req.rpc, env)])
    case Replicate(to, _, _, env, answered, newCommit) =>
      var req := RequestOf(c, m, log);
      var node := Deliver(c.nodes[to], req.rpc, env);
      var c' := c.(nodes := c.nodes[to := node], sent := c.sent + {req});
      if answered && Settled(req.rpc, node.applied) then
        c'.(leader := Answered(c, m, req).(commitIndex := Max(c.leader.commitIndex, newCommit)))
      else c'
  }

  ghost predicate EnabledAll(c: Cluster, moves: seq<Move>, log: Log)
    decreases |moves|
  {
    moves == [] || (Enabled(c, moves[0], log) && EnabledAll(Move1(c, moves[0], log), moves[1..], log))
  }

  function MoveAll(c: Cluster, moves: seq<Move>, log: Log): Cluster
    requires EnabledAll(c, moves, log)
    decreases |moves|
  {
    if moves == [] then c else MoveAll(Move1(c, moves[0], log), moves[1..], log)
  }

  // ---------------------------------------------------------------------------
  // Nothing is on a follower before it is committed
  // ---------------------------------------------------------------------------

  predicate BehindCommit(c: Cluster) {
    && (forall f :: f in c.nodes ==> c.nodes[f].applied <= c.leader.commitIndex)
    && (forall req :: req in c.sent ==> req.rpc.leaderCommit <= c.leader.commitIndex)
  }

  lemma DeliverWithinCommit(s: FollowerState, rpc: AppendEntries, env: Environment)
    ensures s.applied <= Deliver(s, rpc, env).applied
    ensures Deliver(s, rpc, env).applied <= Max(s.applied, rpc.leaderCommit)
  {
    DrainIsLargest(rpc, env, s.applied, s.graph);
    var w := Deliver(s, rpc, env).applied;
    if w > s.applied { assert Ready(rpc, env, w); }
  }

  lemma MoveKeepsBehindCommit(c: Cluster, m: Move, log: Log)
    requires BehindCommit(c) && Enabled(c, m, log)
    ensures BehindCommit(Move1(c, m, log))
    ensures c.leader.commitIndex <= Move1(c, m, log).leader.commitIndex
    ensures forall f :: f in c.nodes ==> Move1(c, m, log).nodes[f].applied <= c.leader.commitIndex
  {
    if m.Replicate? {
      DeliverWithinCommit(c.nodes[m.to], RequestOf(c, m, log).rpc, m.env);
    } else if m.LateArrival? {
      DeliverWithinCommit(c.nodes[m.request.to], m.request.rpc, m.env);
    }
  }

  lemma {:induction false} RunKeepsBehindCommit(c: Cluster, moves: seq<Move>, log: Log)
    requires BehindCommit(c) && EnabledAll(c, moves, log)
    ensures BehindCommit(MoveAll(c, moves, log))
    decreases |moves|
  {
    if moves != [] {
      MoveKeepsBehindCommit(c, moves[0], log);
      RunKeepsBehindCommit(Move1(c, moves[0], log), moves[1..], log);
    }
  }

  predicate Fresh(c: Cluster) {
    c.leader.commitIndex == 0 && c.sent == {} && forall f :: f in c.nodes ==> c.nodes[f].applied == 0
  }

  /** In every run, at the very moment an entry becomes committed no follower holds it: the
      quorum behind a commit consists of acknowledgements for entries that were dropped. */
  lemma CommitIsUnsupported(c: Cluster, moves: seq<Move>, m: Move, log: Log, n: nat)
    requires Fresh(c) && EnabledAll(c, moves, log)
    requires var c1 := MoveAll(c, moves, log);
             Enabled(c1, m, log) && c1.leader.commitIndex < n <= Move1(c1, m, log).leader.commitIndex
    ensures var c2 := Move1(MoveAll(c, moves, log), m, log);
            forall f :: f in c2.nodes ==> c2.nodes[f].applied < n
  {
    RunKeepsBehindCommit(c, moves, log);
    MoveKeepsBehindCommit(MoveAll(c, moves, log), m, log);
  }

  // ---------------------------------------------------------------------------
  // A stranded follower never recovers
  // ---------------------------------------------------------------------------

  /** The leader sends the follower nothing or has moved past an entry it lacks, and no request
      on its way to the follower lets it apply that entry. */
  predicate Stranded(c: Cluster, f: NodeId) {
    && f in c.nodes
    && (f in c.leader.followers ==> c.leader.followers[f].nextSeq > c.nodes[f].applied + 1)
    && forall req :: req in c.sent && req.to == f ==>
         req.rpc.leaderCommit <= c.nodes[f].applied || First(req.rpc.entries, c.nodes[f].applied + 1).None?
  }

  lemma NoneFromGap(rpc: AppendEntries, env: Environment, s: FollowerState)
    requires rpc.leaderCommit <= s.applied || First(rpc.entries, s.applied + 1).None?
    ensures Deliver(s, rpc, env).applied == s.applied
  {
  }

  lemma MoveKeepsStranded(c: Cluster, m: Move, log: Log, f: NodeId)
    requires Stranded(c, f) && Enabled(c, m, log)
    requires m.Register? && m.id == f ==> m.lastSeq > c.nodes[f].applied
    ensures Stranded(Move1(c, m, log), f)
    ensures Move1(c, m, log).nodes[f].applied == c.nodes[f].applied
  {
    if m.Replicate? && m.to == f {
      var req, a := RequestOf(c, m, log), c.nodes[f].applied;
      FirstIsInBatch(req.rpc.entries, a + 1);
      assert First(req.rpc.entries, a + 1).None?;
      NoneFromGap(req.rpc, m.env, c.nodes[f]);
    } else if m.LateArrival? && m.request.to == f {
      NoneFromGap(m.request.rpc, m.env, c.nodes[f]);
    }
  }

  /** No move registers f at or below n. */
  predicate NotFreed(moves: seq<Move>, f: NodeId, n: nat) {
    forall m :: m in moves && m.Register? && m.id == f ==> m.lastSeq > n
  }

  /** Once stranded, a follower's watermark stays where it is for the rest of every run in which
      it is not registered again at or below its watermark. */
  lemma {:induction false} StrandedForever(c: Cluster, moves: seq<Move>, log: Log, f: NodeId)
    requires Stranded(c, f) && EnabledAll(c, moves, log) && NotFreed(moves, f, c.nodes[f].applied)
    ensures Stranded(MoveAll(c, moves, log), f)
    ensures MoveAll(c, moves, log).nodes[f].applied == c.nodes[f].applied
    decreases |moves|
  {
    if moves != [] {
      assert moves[0] in moves;
      MoveKeepsStranded(c, moves[0], log, f);
      StrandedForever(Move1(c, moves[0], log), moves[1..], log, f);
    }
  }

  /** Registering a stranded follower frees it exactly when it is registered at or below its
      watermark, as a starting leader does, which registers every peer at 0. */
  lemma RegisterFreesIff(c: Cluster, f: NodeId, lastSeq: nat, log: Log)
    requires Stranded(c, f)
    ensures !Stranded(Move1(c, Register(f, lastSeq), log), f) <==> lastSeq <= c.nodes[f].applied
  {
  }

  /** A follower that is not past gets its next entry with the first round that carries it,
      committed, and does not fail. */
  lemma RoundAdvances(c: Cluster, m: Move, log: Log)
    requires m.Replicate? && Enabled(c, m, log)
    requires c.leader.followers[m.to].nextSeq <= c.nodes[m.to].applied + 1
    requires var entries, n := RequestOf(c, m, log).rpc.entries, c.nodes[m.to].applied + 1;
             n <= m.commitSeen && n <= entries[|entries| - 1].seqNo && Applies(log[n - 1], FaultAt(m.env, n))
    ensures Move1(c, m, log).nodes[m.to].applied > c.nodes[m.to].applied
  {
    var rpc, node := RequestOf(c, m, log).rpc, c.nodes[m.to];
    var n, next := node.applied + 1, c.leader.followers[m.to].nextSeq;
    assert rpc.entries[n - next] == LogEntry(n, log[n - 1]);
    FirstIsInBatch(rpc.entries, n);
    assert LogEntry(n, First(rpc.entries, n).value) in rpc.entries;
    assert Ready(rpc, m.env, n);
    DrainIsLargest(rpc, m.env, node.applied, node.graph);
  }

  /** A run that strands a follower and commits what nobody has, for every log, every fault
      and every cluster of quorum 2: one entry, one answered round. */
  function StrandingRun(f: NodeId, env: Environment): seq<Move> {
    [Append, Replicate(f, 1, 0, env, true, 1)]
  }

  /** A cluster of quorum 2 whose followers have just been registered at 0. */
  predicate JustStarted(c: Cluster) {
    && Fresh(c) && c.leader.quorumSize == 2 && c.leader.maxBatch >= 1 && c.leader.lastApplied == 0
    && forall f :: f in c.leader.followers ==> c.leader.followers[f] == FollowerProgress(1, 0)
  }

  lemma FirstCommit(c: Cluster, f: NodeId)
    requires JustStarted(c) && f in c.leader.followers
    ensures IsCommitPoint(Acknowledge(c.leader.(lastApplied := 1), f, 1), 1)
  {
    var l := Acknowledge(c.leader.(lastApplied := 1), f, 1);
    assert Believed(l.followers, 1) == {f};
    forall n: nat | n > 1 ensures Votes(l, n) < Needed(l) {
      assert Believed(l.followers, n) == {};
    }
    assert f in l.followers.Keys && |l.followers| == |l.followers.Keys|;
  }

  lemma FirstRoundStrands(c: Cluster, f: NodeId, env: Environment, log: Log)
    requires JustStarted(c) && f in c.leader.followers && f in c.nodes && log != []
    ensures EnabledAll(c, StrandingRun(f, env), log)
    ensures var c' := MoveAll(c, StrandingRun(f, env), log);
            && c'.leader.commitIndex == 1 && Stranded(c', f)
            && forall x :: x in c'.nodes ==> c'.nodes[x].applied == 0
  {
    var moves := StrandingRun(f, env);
    var c1, m := Move1(c, Append, log), moves[1];
    FirstCommit(c, f);
    var rpc := RequestOf(c1, m, log).rpc;
    assert rpc.entries == [LogEntry(1, log[0])];
    DeliverWithinCommit(c1.nodes[f], rpc, env);
    assert Enabled(c1, m, log);
    assert moves[1..][0] == m && moves[1..][1..] == [];
    assert MoveAll(c1, moves[1..], log) == MoveAll(Move1(c1, m, log), [], log);
  }

  /** Where an answered round leaves the follower: up to the commit index sent along, or to the
      end of the batch. */
  lemma RoundReaches(c: Cluster, m: Move, log: Log)
    requires m.Replicate? && Enabled(c, m, log) && m.answered
    requires c.leader.followers[m.to].nextSeq == c.nodes[m.to].applied + 1
    requires var req := RequestOf(c, m, log); Settled(req.rpc, Deliver(c.nodes[m.to], req.rpc, m.env).applied)
    ensures var entries, w := RequestOf(c, m, log).rpc.entries, Move1(c, m, log).nodes[m.to].applied;
            var last := entries[|entries| - 1].seqNo;
            if last <= m.commitSeen then w == last else w == Max(c.nodes[m.to].applied, m.commitSeen)
  {
    var req, node := RequestOf(c, m, log), c.nodes[m.to];
    var entries := req.rpc.entries;
    var last := entries[|entries| - 1].seqNo;
    AcknowledgedIffCommitted(node, entries, log, node.applied + 1, last, m.commitSeen, m.env);
    DeliverWithinCommit(node, req.rpc, m.env);
    DrainIsLargest(req.rpc, m.env, node.applied, node.graph);
    var w := Deliver(node, req.rpc, m.env).applied;
    if w > last {
      assert Ready(req.rpc, m.env, w);
      FirstIsInBatch(entries, w);
    }
    if last > m.commitSeen > node.applied {
      assert entries[m.commitSeen - node.applied - 1].seqNo == m.commitSeen;
    }
  }

  /** One answered round strands the follower exactly when it carried an uncommitted entry. */
  lemma RoundStrandsIff(c: Cluster, m: Move, log: Log)
    requires m.Replicate? && Enabled(c, m, log) && m.answered
    requires c.leader.followers[m.to].nextSeq == c.nodes[m.to].applied + 1
    requires forall req :: req in c.sent && req.to == m.to ==> req.rpc.leaderCommit <= m.commitSeen
    requires var req := RequestOf(c, m, log); Settled(req.rpc, Deliver(c.nodes[m.to], req.rpc, m.env).applied)
    ensures var entries := RequestOf(c, m, log).rpc.entries;
            Stranded(Move1(c, m, log), m.to) <==> entries[|entries| - 1].seqNo > m.commitSeen
  {
    RoundReaches(c, m, log);
  }

  // ---------------------------------------------------------------------------
  // A quorum of one
  // ---------------------------------------------------------------------------

  /** k is the largest of the leader's log end and the positions recorded for its followers. */
  ghost predicate IsFurthest(l: LeaderState, k: nat) {
    && l.lastApplied <= k && (forall f :: f in l.followers ==> l.followers[f].matchSeq <= k)
    && (k == l.lastApplied || exists f :: f in l.followers && l.followers[f].matchSeq == k)
  }

  /** With a quorum of one the commit point is the furthest position of all. */
  lemma SingleCommitPoint(l: LeaderState, k: nat)
    requires l.quorumSize <= 1 && IsCommitPoint(l, k)
    ensures IsFurthest(l, k)
  {
    var next := k + 1;
    assert Votes(l, next) < Needed(l) <= Votes(l, k);
    forall n: nat | Votes(l, n) >= 1 ensures n <= k {
    }
    assert Votes(l, l.lastApplied) >= 1;
    forall f | f in l.followers ensures l.followers[f].matchSeq <= k {
      var n := l.followers[f].matchSeq;
      assert f in Believed(l.followers, n);
      assert Votes(l, n) >= 1;
    }
    if k != l.lastApplied {
      assert Believed(l.followers, k) != {};
      var f :| f in Believed(l.followers, k);
    }
  }

  /** The commit index is the leader's log end, and no position recorded for a follower is beyond
      it. */
  predicate CommittedToEnd(l: LeaderState) {
    l.commitIndex == l.lastApplied && forall f :: f in l.followers ==> l.followers[f].matchSeq <= l.lastApplied
  }

  /** No follower is registered beyond the leader's log. */
  predicate RegisteredWithin(c: Cluster, m: Move) {
    m.Register? ==> m.lastSeq <= c.leader.lastApplied
  }

  ghost predicate AllRegisteredWithin(c: Cluster, moves: seq<Move>, log: Log)
    requires EnabledAll(c, moves, log)
    decreases |moves|
  {
    moves == [] || (RegisteredWithin(c, moves[0]) && AllRegisteredWithin(Move1(c, moves[0], log), moves[1..], log))
  }

  lemma SingleMove(c: Cluster, m: Move, log: Log)
    requires c.leader.quorumSize <= 1 && c.leader.commitIndex >= c.leader.lastApplied && Enabled(c, m, log)
    ensures var l := Move1(c, m, log).leader;
            && l.quorumSize <= 1 && l.commitIndex >= l.lastApplied >= c.leader.lastApplied
            && (m.Append? ==> l.lastApplied == c.leader.lastApplied + 1)
            && (CommittedToEnd(c.leader) && RegisteredWithin(c, m) ==> CommittedToEnd(l))
  {
    if m.Replicate? {
      var req := RequestOf(c, m, log);
      var node := Deliver(c.nodes[m.to], req.rpc, m.env);
      if m.answered && Settled(req.rpc, node.applied) {
        SingleCommitPoint(Answered(c, m, req), m.newCommit);
      }
    }
  }

  /** A leader that is a quorum by itself: in every run whatever it has appended is committed.
      When no follower is registered beyond its log, the commit index is exactly its log end. */
  lemma {:induction false} SingleNodeCommits(c: Cluster, moves: seq<Move>, log: Log)
    requires c.leader.quorumSize <= 1 && c.leader.commitIndex >= c.leader.lastApplied && EnabledAll(c, moves, log)
    ensures var l := MoveAll(c, moves, log).leader;
            && l.commitIndex >= l.lastApplied
            && (CommittedToEnd(c.leader) && AllRegisteredWithin(c, moves, log) ==> CommittedToEnd(l))
    decreases |moves|
  {
    if moves != [] {
      SingleMove(c, moves[0], log);
      SingleNodeCommits(Move1(c, moves[0], log), moves[1..], log);
    }
  }

  // ---------------------------------------------------------------------------
  // Majorities
  // ---------------------------------------------------------------------------

  /** Two majorities of the same nodes share one. */
  lemma MajoritiesMeet(all: set<NodeId>, a: set<NodeId>, b: set<NodeId>)
    requires a <= all && b <= all && |a| >= |all| / 2 + 1 && |b| >= |all| / 2 + 1
    ensures exists f :: f in a && f in b
  {
    if a * b == {} {
      SubsetSize(a + b, all);
    } else {
      var f :| f in a * b;
    }
  }
}
