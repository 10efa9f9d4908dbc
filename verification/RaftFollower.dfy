/**
 The follower's AppendEntries handler: one RPC, run on its own.

 `Drain` says what a batch means without sorting and without a cursor: keep taking the next
 sequence number while the batch has it, it is committed and it applies. The class below
 runs the handler's sorted, early-breaking loop, and its contract is `Drain`.
 */
module RaftFollower {
  import opened Wrappers
  import opened ReplicatedGraph
  import opened Landing

  datatype AppendEntries = AppendEntries(entries: seq<LogEntry>, leaderCommit: nat)

  datatype AppendEntriesResponse =
    AppendEntriesResponse(term: nat, success: bool, lastCommitted: nat, lastLogSeq: nat)

  /** What the environment does during one RPC: which graph calls fail, and whether the
      watermark file can be written. */
  datatype Environment = Environment(faults: map<nat, Fault>, persistOk: bool)

  function FaultAt(env: Environment, seqNo: nat): Fault {
    if seqNo in env.faults then env.faults[seqNo] else NoFault
  }

  /** The in-memory watermark, the watermark on disk (0 when there is no file) and the graph. */
  datatype FollowerState = FollowerState(applied: nat, persisted: nat, graph: Graph)

  // ---------------------------------------------------------------------------
  // What a batch means
  // ---------------------------------------------------------------------------

  /** The payload of the earliest-arriving entry numbered n. */
  function First(entries: seq<LogEntry>, n: nat): Option<Payload> {
    if entries == [] then None
    else if entries[0].seqNo == n then Some(entries[0].payload)
    else First(entries[1..], n)
  }

  lemma FirstIsInBatch(entries: seq<LogEntry>, n: nat)
    ensures First(entries, n).Some? <==> exists e :: e in entries && e.seqNo == n
    ensures First(entries, n).Some? ==> LogEntry(n, First(entries, n).value) in entries
  {
    if entries != [] {
      FirstIsInBatch(entries[1..], n);
      assert entries == [entries[0]] + entries[1..];
    }
  }

  /** Entry n can be applied now: it is committed, in the batch, and its apply succeeds. */
  predicate Ready(rpc: AppendEntries, env: Environment, n: nat) {
    n <= rpc.leaderCommit && First(rpc.entries, n).Some? && Applies(First(rpc.entries, n).value, FaultAt(env, n))
  }

  /** `reached` is the highest entry whose effect is in the graph: one above `committed` when
      the handler stopped at a call that failed after its commit. */
  datatype Progress = Progress(committed: nat, reached: nat, graph: Graph)

  function Drain(rpc: AppendEntries, env: Environment, committed: nat, g: Graph): Progress
    decreases rpc.leaderCommit - committed
  {
    var n := committed + 1;
    if n > rpc.leaderCommit || First(rpc.entries, n).None? then Progress(committed, committed, g)
    else
      var p := First(rpc.entries, n).value;
      var r := ApplyEntry(g, p, FaultAt(env, n));
      if r.ok then Drain(rpc, env, n, r.graph)
      else Progress(committed, if LandsAnyway(p, FaultAt(env, n)) then n else committed, r.graph)
  }

  lemma {:induction false} DrainBounds(rpc: AppendEntries, env: Environment, committed: nat, g: Graph)
    ensures var d := Drain(rpc, env, committed, g);
            committed <= d.committed <= d.reached <= d.committed + 1 && d.committed <= Max(committed, rpc.leaderCommit)
    decreases rpc.leaderCommit - committed
  {
    var n := committed + 1;
    if n <= rpc.leaderCommit && First(rpc.entries, n).Some? {
      var r := ApplyEntry(g, First(rpc.entries, n).value, FaultAt(env, n));
      if r.ok {
        DrainBounds(rpc, env, n, r.graph);
      }
    }
  }

  /** No committed entry of the batch is above the watermark. */
  predicate Settled(rpc: AppendEntries, committed: nat) {
    forall e :: e in rpc.entries && e.seqNo <= rpc.leaderCommit ==> e.seqNo <= committed
  }

  function MaxSeq(entries: seq<LogEntry>): (m: nat)
    ensures forall e :: e in entries ==> e.seqNo <= m
    ensures entries != [] ==> exists e :: e in entries && e.seqNo == m
    ensures entries == [] ==> m == 0
  {
    if entries == [] then 0
    else if entries[0].seqNo > MaxSeq(entries[1..]) then entries[0].seqNo
    else MaxSeq(entries[1..])
  }

  /** One RPC as a step of the follower's state. */
  function Deliver(s: FollowerState, rpc: AppendEntries, env: Environment): FollowerState {
    var d := Drain(rpc, env, s.applied, s.graph);
    FollowerState(d.committed,
                  if d.committed > s.applied && env.persistOk then d.committed else s.persisted,
                  d.graph)
  }

  /** The file changes only together with the watermark, never by itself, and is then the
      watermark; so a failed write is not made up for by a request that applies nothing. */
  lemma FileFollowsWatermark(s: FollowerState, rpc: AppendEntries, env: Environment)
    ensures var t := Deliver(s, rpc, env);
            && (t.persisted == s.persisted || t.persisted == t.applied)
            && (t.applied == s.applied || !env.persistOk ==> t.persisted == s.persisted)
            && (t.applied != s.applied && env.persistOk ==> t.persisted == t.applied > s.applied)
  {
    DrainBounds(rpc, env, s.applied, s.graph);
  }

  /** What a starting process finds where the watermark file should be. */
  datatype ReadOutcome = ReadOk | FileLost | ReadError

  /** Restart: a file that is missing, corrupt or cannot be read counts as watermark 0. A lost
      file stays lost; after a read error the old contents are still there. */
  function Reopen(onDisk: nat, read: ReadOutcome, g: Graph): FollowerState {
    match read
    case ReadOk => FollowerState(onDisk, onDisk, g)
    case FileLost => FollowerState(0, 0, g)
    case ReadError => FollowerState(0, onDisk, g)
  }

  // ---------------------------------------------------------------------------
  // The closed form of one batch
  // ---------------------------------------------------------------------------

  /** Everything in (committed, n] is ready. */
  predicate AllReady(rpc: AppendEntries, env: Environment, committed: nat, n: nat) {
    forall m :: committed < m <= n ==> Ready(rpc, env, m)
  }

  /** The watermark moves to the largest n such that everything in (committed, n] is ready. */
  lemma {:induction false} DrainIsLargest(rpc: AppendEntries, env: Environment, committed: nat, g: Graph)
    ensures var w := Drain(rpc, env, committed, g).committed;
            && committed <= w && AllReady(rpc, env, committed, w) && !Ready(rpc, env, w + 1)
            && forall n: nat :: AllReady(rpc, env, committed, n) ==> n <= w
    decreases rpc.leaderCommit - committed
  {
    var next := committed + 1;
    if Ready(rpc, env, next) {
      var r := ApplyEntry(g, First(rpc.entries, next).value, FaultAt(env, next));
      DrainIsLargest(rpc, env, next, r.graph);
    }
    var w := Drain(rpc, env, committed, g).committed;
    var above := w + 1;
    assert !Ready(rpc, env, above);
  }

  /** The committed part of the batch above `committed` is exactly the interval up to w. */
  ghost predicate WholeInterval(rpc: AppendEntries, committed: nat, w: nat) {
    forall n: nat :: committed < n <= w <==> (committed < n <= rpc.leaderCommit && First(rpc.entries, n).Some?)
  }

  /** The acknowledgement is honest and complete: `success` holds exactly when the committed
      part of the batch above the old watermark is the whole interval up to the new one. */
  lemma SuccessMeansWholeInterval(rpc: AppendEntries, env: Environment, committed: nat, g: Graph)
    ensures var w := Drain(rpc, env, committed, g).committed;
            Settled(rpc, w) <==> WholeInterval(rpc, committed, w)
  {
    var w := Drain(rpc, env, committed, g).committed;
    DrainIsLargest(rpc, env, committed, g);
    if Settled(rpc, w) {
      forall n: nat
        ensures committed < n <= w <==> (committed < n <= rpc.leaderCommit && First(rpc.entries, n).Some?)
      {
        FirstIsInBatch(rpc.entries, n);
        assert committed < n <= w ==> Ready(rpc, env, n);
      }
    } else {
      var e :| e in rpc.entries && e.seqNo <= rpc.leaderCommit && e.seqNo > w;
      var n := e.seqNo;
      FirstIsInBatch(rpc.entries, n);
      assert First(rpc.entries, n).Some? && committed < n <= rpc.leaderCommit && !(committed < n <= w);
      assert !WholeInterval(rpc, committed, w);
    }
  }

  // ---------------------------------------------------------------------------
  // The stable sort by sequence number
  // ---------------------------------------------------------------------------

  predicate SortedBySeq(entries: seq<LogEntry>) {
    forall i, j :: 0 <= i < j < |entries| ==> entries[i].seqNo <= entries[j].seqNo
  }

  function InsertBySeq(e: LogEntry, sorted: seq<LogEntry>): (r: seq<LogEntry>)
    requires SortedBySeq(sorted)
    ensures SortedBySeq(r) && multiset(r) == multiset(sorted) + multiset{e}
  {
    if sorted == [] || e.seqNo <= sorted[0].seqNo then [e] + sorted
    else
      var rest := InsertBySeq(e, sorted[1..]);
      assert sorted == [sorted[0]] + sorted[1..];
      InsertedAboveHead(sorted[0], e, sorted[1..], rest);
      [sorted[0]] + rest
  }

  /** Among equal numbers the inserted entry comes first. */
  lemma {:induction false} InsertKeepsFirst(e: LogEntry, sorted: seq<LogEntry>, n: nat)
    requires SortedBySeq(sorted)
    ensures First(InsertBySeq(e, sorted), n) == if n == e.seqNo then Some(e.payload) else First(sorted, n)
  {
    if sorted == [] || e.seqNo <= sorted[0].seqNo {
      assert ([e] + sorted)[1..] == sorted;
    } else {
      InsertKeepsFirst(e, sorted[1..], n);
      var rest := InsertBySeq(e, sorted[1..]);
      assert ([sorted[0]] + rest)[1..] == rest;
    }
  }

  lemma InsertedAboveHead(head: LogEntry, e: LogEntry, tail: seq<LogEntry>, rest: seq<LogEntry>)
    requires forall x :: x in tail ==> head.seqNo <= x.seqNo
    requires head.seqNo <= e.seqNo
    requires SortedBySeq(rest) && multiset(rest) == multiset(tail) + multiset{e}
    ensures SortedBySeq([head] + rest)
  {
    forall j | 0 <= j < |rest| ensures head.seqNo <= rest[j].seqNo {
      assert rest[j] in multiset(rest);
      assert rest[j] == e || rest[j] in tail;
    }
  }

  /** The entries in ascending order, equal numbers in order of arrival. */
  function SortBySeq(entries: seq<LogEntry>): (r: seq<LogEntry>)
    ensures SortedBySeq(r) && multiset(r) == multiset(entries)
  {
    if entries == [] then []
    else
      assert entries == [entries[0]] + entries[1..];
      InsertBySeq(entries[0], SortBySeq(entries[1..]))
  }

  lemma {:induction false} SortKeepsFirst(entries: seq<LogEntry>, n: nat)
    ensures First(SortBySeq(entries), n) == First(entries, n)
  {
    if entries != [] {
      SortKeepsFirst(entries[1..], n);
      InsertKeepsFirst(entries[0], SortBySeq(entries[1..]), n);
    }
  }

  // ---------------------------------------------------------------------------
  // The handler
  // ---------------------------------------------------------------------------

  datatype Action = Stop | Skip | Gap | TryApply

  /** The branch the handler's loop takes on an entry. */
  function Classify(seqNo: nat, committed: nat, leaderCommit: nat): Action {
    if seqNo > leaderCommit then Stop
    else if seqNo <= committed then Skip
    else if seqNo != committed + 1 then Gap
    else TryApply
  }

  /** `sorted` is the batch in order of sequence number, and the loop is at index i with
      everything before i at or below the watermark. */
  ghost predicate AtCursor(rpc: AppendEntries, sorted: seq<LogEntry>, i: nat, committed: nat) {
    && SortedBySeq(sorted) && multiset(sorted) == multiset(rpc.entries)
    && (forall n: nat :: First(sorted, n) == First(rpc.entries, n))
    && i <= |sorted|
    && (forall j :: 0 <= j < i ==> sorted[j].seqNo <= committed)
  }

  lemma CursorStarts(rpc: AppendEntries, committed: nat)
    ensures AtCursor(rpc, SortBySeq(rpc.entries), 0, committed)
  {
    forall n: nat ensures First(SortBySeq(rpc.entries), n) == First(rpc.entries, n) {
      SortKeepsFirst(rpc.entries, n);
    }
  }

  lemma {:induction false} FirstAtCursor(sorted: seq<LogEntry>, i: nat, n: nat)
    requires SortedBySeq(sorted) && i <= |sorted|
    requires forall j :: 0 <= j < i ==> sorted[j].seqNo < n
    requires i < |sorted| ==> sorted[i].seqNo >= n
    ensures First(sorted, n) == if i < |sorted| && sorted[i].seqNo == n then Some(sorted[i].payload) else None
  {
    if i > 0 {
      FirstAtCursor(sorted[1..], i - 1, n);
    } else if |sorted| > 0 && sorted[0].seqNo > n {
      FirstIsInBatch(sorted, n);
      forall e | e in sorted ensures e.seqNo != n {
        var j :| 0 <= j < |sorted| && sorted[j] == e;
        assert sorted[0].seqNo <= sorted[j].seqNo;
      }
    }
  }

  /** Where the loop stops without an error, nothing committed is left to apply. */
  lemma NothingLeft(rpc: AppendEntries, env: Environment, sorted: seq<LogEntry>, i: nat, committed: nat, g: Graph)
    requires AtCursor(rpc, sorted, i, committed)
    requires i < |sorted| ==> sorted[i].seqNo > rpc.leaderCommit
    ensures Drain(rpc, env, committed, g) == Progress(committed, committed, g)
    ensures Settled(rpc, committed)
  {
    if committed + 1 <= rpc.leaderCommit {
      FirstAtCursor(sorted, i, committed + 1);
    }
    forall e | e in rpc.entries && e.seqNo <= rpc.leaderCommit ensures e.seqNo <= committed {
      assert e in multiset(sorted);
    }
  }

  /** The first entry the loop neither skips nor stops at decides what `Drain` does next. */
  lemma LoopStep(rpc: AppendEntries, env: Environment, sorted: seq<LogEntry>, i: nat, committed: nat, g: Graph)
    requires AtCursor(rpc, sorted, i, committed) && i < |sorted|
    requires committed < sorted[i].seqNo <= rpc.leaderCommit
    ensures !Settled(rpc, committed)
    ensures var e, d := sorted[i], Drain(rpc, env, committed, g);
            var r := ApplyEntry(g, e.payload, FaultAt(env, e.seqNo));
            if e.seqNo != committed + 1 then d == Progress(committed, committed, g)
            else if r.ok then d == Drain(rpc, env, e.seqNo, r.graph)
            else d == Progress(committed, if LandsAnyway(e.payload, FaultAt(env, e.seqNo)) then e.seqNo else committed,
                               r.graph)
  {
    FirstAtCursor(sorted, i, committed + 1);
    assert sorted[i] in multiset(rpc.entries);
  }

  class Follower {
    var appliedIndex: nat
    var persistedIndex: nat
    var graph: Graph

    ghost function State(): FollowerState
      reads this
    {
      FollowerState(appliedIndex, persistedIndex, graph)
    }

    /** A new process over the surviving file and graph. */
    constructor (onDisk: nat, read: ReadOutcome, g: Graph)
      ensures State() == Reopen(onDisk, read, g)
    {
      appliedIndex := if read.ReadOk? then onDisk else 0;
      persistedIndex := if read.FileLost? then 0 else onDisk;
      graph := g;
    }

    method HandleAppendEntries(rpc: AppendEntries, env: Environment) returns (resp: AppendEntriesResponse)
      modifies this
      ensures State() == Deliver(old(State()), rpc, env)
      ensures resp.lastCommitted == appliedIndex
      ensures resp.success <==> Settled(rpc, appliedIndex)
      ensures resp.term == 1 && resp.lastLogSeq == MaxSeq(rpc.entries)
    {
      var lastSeq := LastSeq(rpc.entries);
      var sorted := SortBySeq(rpc.entries);
      CursorStarts(rpc, appliedIndex);
      var committed, failed := ApplyCommitted(rpc, env, sorted);
      var prev := appliedIndex;
      appliedIndex := committed;
      if committed > prev && env.persistOk {
        persistedIndex := committed;
      }
      resp := AppendEntriesResponse(1, !failed, committed, lastSeq);
    }

    /** The handler's loop over the sorted entries. */
    method ApplyCommitted(rpc: AppendEntries, env: Environment, sorted: seq<LogEntry>)
      returns (committed: nat, failed: bool)
      requires AtCursor(rpc, sorted, 0, appliedIndex)
      modifies `graph
      ensures var d := Drain(rpc, env, appliedIndex, old(graph)); committed == d.committed && graph == d.graph
      ensures failed <==> !Settled(rpc, committed)
    {
      committed, failed := appliedIndex, false;
      var i := 0;
      while i < |sorted|
        invariant 0 <= i <= |sorted| && !failed && AtCursor(rpc, sorted, i, committed)
        invariant Drain(rpc, env, committed, graph) == Drain(rpc, env, appliedIndex, old(graph))
      {
        var e := sorted[i];
        var action := Classify(e.seqNo, committed, rpc.leaderCommit);
        if action.Stop? {
          break;
        }
        if !action.Skip? {
          LoopStep(rpc, env, sorted, i, committed, graph);
          if action.Gap? {
            failed := true;
            break;
          }
          var r := ApplyEntry(graph, e.payload, FaultAt(env, e.seqNo));
          graph := r.graph;
          if !r.ok {
            failed := true;
            break;
          }
          committed := e.seqNo;
        }
        i := i + 1;
      }
      if !failed {
        NothingLeft(rpc, env, sorted, i, committed, graph);
      }
    }
  }

  /** The largest number in the batch, 0 when there is none. */
  method LastSeq(entries: seq<LogEntry>) returns (m: nat)
    ensures m == MaxSeq(entries)
    ensures (forall e :: e in entries ==> e.seqNo <= m) && (entries == [] ==> m == 0)
    ensures entries != [] ==> exists e :: e in entries && e.seqNo == m
  {
    m := 0;
    var i := |entries|;
    while i > 0
      invariant 0 <= i <= |entries| && m == MaxSeq(entries[i..])
    {
      i := i - 1;
      if entries[i].seqNo > m { m := entries[i].seqNo; }
      assert entries[i..][1..] == entries[i + 1..];
    }
  }
}
