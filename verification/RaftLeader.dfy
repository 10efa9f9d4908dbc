/**
 The leader's log replicator: which entries it sends to a follower, and how far its commit
 index moves once followers have acknowledged.
 */
module RaftLeader {
  import opened Wrappers

  type NodeId = nat

  datatype FollowerProgress = FollowerProgress(nextSeq: nat, matchSeq: nat)

  datatype LeaderState = LeaderState(
    quorumSize: nat, maxBatch: nat, commitIndex: nat, lastApplied: nat,
    followers: map<NodeId, FollowerProgress>)

  function Min(a: nat, b: nat): nat {
    if a < b then a else b
  }

  // ---------------------------------------------------------------------------
  // Votes
  // ---------------------------------------------------------------------------

  /** The followers the leader believes to hold every entry up to n. */
  function Believed(followers: map<NodeId, FollowerProgress>, n: nat): set<NodeId> {
    set f | f in followers && followers[f].matchSeq >= n
  }

  /** Votes for committing n, the leader's own included. */
  function Votes(l: LeaderState, n: nat): nat {
    |Believed(l.followers, n)| + if l.lastApplied >= n then 1 else 0
  }

  /** The number of votes the order statistic really asks for: the position saturates at 0
      when fewer nodes are registered than the quorum needs. */
  function Needed(l: LeaderState): nat {
    Min(l.quorumSize, |l.followers| + 1)
  }

  /** k is the largest entry number with enough votes. */
  ghost predicate IsCommitPoint(l: LeaderState, k: nat) {
    Votes(l, k) >= Needed(l) && forall n: nat :: n > k ==> Votes(l, n) < Needed(l)
  }

  lemma CommitPointUnique(l: LeaderState, j: nat, k: nat)
    requires IsCommitPoint(l, j) && IsCommitPoint(l, k)
    ensures j == k
  {
    assert Votes(l, j) >= Needed(l) && Votes(l, k) >= Needed(l);
  }

  lemma SubsetSize<T>(a: set<T>, b: set<T>)
    requires a <= b
    ensures |a| <= |b|
  {
    assert b == a + (b - a);
  }

  /** The commit point carries a real quorum exactly when enough nodes are registered. */
  lemma QuorumIff(l: LeaderState, k: nat)
    requires IsCommitPoint(l, k)
    ensures Votes(l, k) >= l.quorumSize <==> |l.followers| + 1 >= l.quorumSize
  {
    SubsetSize(Believed(l.followers, k), l.followers.Keys);
    assert |l.followers.Keys| == |l.followers|;
  }

  // ---------------------------------------------------------------------------
  // The order statistic
  // ---------------------------------------------------------------------------

  function CountGe(values: seq<nat>, n: nat): nat {
    if values == [] then 0 else (if values[0] >= n then 1 else 0) + CountGe(values[1..], n)
  }

  predicate Ascending(values: seq<nat>) {
    forall i, j :: 0 <= i < j < |values| ==> values[i] <= values[j]
  }

  function Insert(x: nat, sorted: seq<nat>): seq<nat> {
    if sorted == [] || x <= sorted[0] then [x] + sorted else [sorted[0]] + Insert(x, sorted[1..])
  }

  function Sort(values: seq<nat>): seq<nat> {
    if values == [] then [] else Insert(values[0], Sort(values[1..]))
  }

  lemma CountGeFront(x: nat, values: seq<nat>, n: nat)
    ensures CountGe([x] + values, n) == CountGe(values, n) + if x >= n then 1 else 0
  {
    assert ([x] + values)[1..] == values;
  }

  lemma {:induction false} InsertAscends(x: nat, sorted: seq<nat>)
    requires Ascending(sorted)
    ensures Ascending(Insert(x, sorted)) && |Insert(x, sorted)| == |sorted| + 1
    ensures Insert(x, sorted)[0] == if sorted == [] || x <= sorted[0] then x else sorted[0]
  {
    if sorted != [] && x > sorted[0] {
      InsertAscends(x, sorted[1..]);
    }
  }

  lemma {:induction false} InsertCounts(x: nat, sorted: seq<nat>, n: nat)
    ensures CountGe(Insert(x, sorted), n) == CountGe(sorted, n) + if x >= n then 1 else 0
  {
    if sorted == [] || x <= sorted[0] {
      CountGeFront(x, sorted, n);
    } else {
      InsertCounts(x, sorted[1..], n);
      CountGeFront(sorted[0], Insert(x, sorted[1..]), n);
    }
  }

  lemma {:induction false} SortAscends(values: seq<nat>)
    ensures Ascending(Sort(values)) && |Sort(values)| == |values|
  {
    if values != [] {
      SortAscends(values[1..]);
      InsertAscends(values[0], Sort(values[1..]));
    }
  }

  /** Sorting changes no count. */
  lemma {:induction false} SortCounts(values: seq<nat>, n: nat)
    ensures CountGe(Sort(values), n) == CountGe(values, n)
  {
    if values != [] {
      SortCounts(values[1..], n);
      InsertCounts(values[0], Sort(values[1..]), n);
    }
  }

  /** In an ascending list, the values at or above n are those from the first such index on. */
  lemma {:induction false} CountGeAscending(values: seq<nat>, n: nat, i: nat)
    requires Ascending(values) && i <= |values|
    ensures i < |values| && values[i] >= n ==> CountGe(values, n) >= |values| - i
    ensures i < |values| && values[i] < n ==> CountGe(values, n) <= |values| - i - 1
    ensures CountGe(values, n) <= |values|
  {
    if values != [] {
      CountGeAscending(values[1..], n, if i > 0 then i - 1 else 0);
      if i == 0 && values[0] >= n {
        AllGe(values, n);
      }
    }
  }

  lemma {:induction false} AllGe(values: seq<nat>, n: nat)
    requires forall x :: x in values ==> x >= n
    ensures CountGe(values, n) == |values|
  {
    if values != [] {
      assert forall x :: x in values[1..] ==> x in values;
      assert values[0] in values;
      AllGe(values[1..], n);
    }
  }

  /** The element at position len - needed is the largest number that `needed` values reach. */
  lemma OrderStatistic(values: seq<nat>, needed: nat)
    requires 1 <= needed <= |values|
    ensures |Sort(values)| == |values|
    ensures var k := Sort(values)[|values| - needed];
            CountGe(values, k) >= needed && forall n: nat :: n > k ==> CountGe(values, n) < needed
  {
    SortAscends(values);
    var sorted, pos := Sort(values), |values| - needed;
    CountGeAscending(sorted, sorted[pos], pos);
    SortCounts(values, sorted[pos]);
    forall n: nat | n > sorted[pos] ensures CountGe(values, n) < needed {
      CountGeAscending(sorted, n, pos);
      SortCounts(values, n);
    }
  }

  // ---------------------------------------------------------------------------
  // The replicator
  // ---------------------------------------------------------------------------

  /** The entry numbers of the next batch for a follower. */
  function NextBatch(l: LeaderState, p: FollowerProgress, lastApplied: nat): (b: seq<nat>)
    ensures |b| == if p.nextSeq <= lastApplied then Min(l.maxBatch, lastApplied - p.nextSeq + 1) else 0
    ensures forall i :: 0 <= i < |b| ==> b[i] == p.nextSeq + i
  {
    var size := if p.nextSeq <= lastApplied then Min(l.maxBatch, lastApplied - p.nextSeq + 1) else 0;
    seq(size, i requires 0 <= i => p.nextSeq + i)
  }

  /** A successful response moves the follower's progress to the last entry sent. */
  function Acknowledge(l: LeaderState, id: NodeId, lastSent: nat): LeaderState {
    if id in l.followers then l.(followers := l.followers[id := FollowerProgress(lastSent + 1, lastSent)]) else l
  }

  function Registered(l: LeaderState, id: NodeId, lastSeq: nat): LeaderState {
    l.(followers := l.followers[id := FollowerProgress(lastSeq + 1, lastSeq)])
  }

  /** A new local entry; alone, it commits only when the leader is a quorum by itself. */
  function Appended(l: LeaderState, seqNo: nat): (r: LeaderState)
    ensures r == l.(lastApplied := r.lastApplied, commitIndex := r.commitIndex)
    ensures r.lastApplied >= l.lastApplied && r.lastApplied >= seqNo && r.lastApplied in {l.lastApplied, seqNo}
    ensures l.quorumSize > 1 ==> r.commitIndex == l.commitIndex
    ensures l.quorumSize <= 1 ==>
              r.commitIndex >= l.commitIndex && r.commitIndex >= seqNo && r.commitIndex in {l.commitIndex, seqNo}
  {
    l.(lastApplied := if seqNo > l.lastApplied then seqNo else l.lastApplied,
       commitIndex := if l.quorumSize <= 1 && seqNo > l.commitIndex then seqNo else l.commitIndex)
  }

  function Removed(l: LeaderState, id: NodeId): LeaderState {
    l.(followers := l.followers - {id})
  }

  /** A registered follower is believed to have exactly the entries up to the given one, a
      removed one none, and the other followers are not affected. */
  lemma BelievedAfter(l: LeaderState, id: NodeId, lastSeq: nat, n: nat)
    ensures id in Believed(Registered(l, id, lastSeq).followers, n) <==> n <= lastSeq
    ensures Believed(Registered(l, id, lastSeq).followers, n) - {id} == Believed(l.followers, n) - {id}
    ensures Believed(Removed(l, id).followers, n) == Believed(l.followers, n) - {id}
  {
  }

  class Replicator {
    const quorumSize: nat
    const maxBatch: nat
    var commitIndex: nat
    var lastApplied: nat
    var followers: map<NodeId, FollowerProgress>

    ghost function State(): LeaderState
      reads this
    {
      LeaderState(quorumSize, maxBatch, commitIndex, lastApplied, followers)
    }

    constructor (quorumSize: nat, maxBatch: nat)
      ensures State() == LeaderState(quorumSize, maxBatch, 0, 0, map[])
    {
      this.quorumSize, this.maxBatch := quorumSize, maxBatch;
      commitIndex, lastApplied, followers := 0, 0, map[];
    }

    method RegisterFollower(id: NodeId, lastSeq: nat)
      modifies this
      ensures State() == Registered(old(State()), id, lastSeq)
    {
      followers := followers[id := FollowerProgress(lastSeq + 1, lastSeq)];
    }

    method RemoveFollower(id: NodeId)
      modifies this
      ensures State() == Removed(old(State()), id)
    {
      followers := followers - {id};
    }

    method AppendLocal(seqNo: nat)
      modifies this
      ensures State() == Appended(old(State()), seqNo)
    {
      if seqNo > lastApplied { lastApplied := seqNo; }
      if quorumSize <= 1 && seqNo > commitIndex { commitIndex := seqNo; }
    }

    method CollectEntries(id: NodeId) returns (entries: Option<seq<nat>>)
      ensures entries.None? <==> id !in followers
      ensures entries.Some? ==> entries.value == NextBatch(State(), followers[id], lastApplied)
    {
      if id !in followers {
        return None;
      }
      var seqNo, batch := followers[id].nextSeq, [];
      while seqNo <= lastApplied && |batch| < maxBatch
        invariant |batch| <= maxBatch && seqNo == followers[id].nextSeq + |batch|
        invariant |batch| > 0 ==> seqNo <= lastApplied + 1
        invariant forall i :: 0 <= i < |batch| ==> batch[i] == followers[id].nextSeq + i
      {
        batch := batch + [seqNo];
        seqNo := seqNo + 1;
      }
      entries := Some(batch);
    }

    /** What replicate_to does with a successful response. */
    method RecordSuccess(id: NodeId, lastSent: nat)
      requires quorumSize >= 1
      modifies this
      ensures var l := Acknowledge(old(State()), id, lastSent);
              && State() == l.(commitIndex := commitIndex)
              && commitIndex >= l.commitIndex
              && (commitIndex > l.commitIndex ==> IsCommitPoint(l, commitIndex))
              && (commitIndex == l.commitIndex ==> forall n: nat :: n > commitIndex ==> Votes(l, n) < Needed(l))
    {
      if id in followers {
        followers := followers[id := FollowerProgress(lastSent + 1, lastSent)];
      }
      var newCommit := CommitPoint();
      if newCommit > commitIndex {
        commitIndex := newCommit;
      }
    }

    /** Collect the match positions, add the leader's own, sort, and take the quorum position. */
    method CommitPoint() returns (k: nat)
      requires quorumSize >= 1
      ensures IsCommitPoint(State(), k)
    {
      var matched := [];
      var rest := followers;
      while rest != map[]
        invariant forall f :: f in rest ==> f in followers && followers[f] == rest[f]
        invariant |matched| + |rest| == |followers|
        invariant Collected(matched, rest, followers)
        decreases |rest|
      {
        var f :| f in rest;
        TakeOne(matched, rest, followers, f);
        matched := [rest[f].matchSeq] + matched;
        rest := rest - {f};
      }
      Tally(State(), matched);
      matched := [lastApplied] + matched;
      var pos := if |matched| >= quorumSize then |matched| - quorumSize else 0;
      OrderStatistic(matched, |matched| - pos);
      k := Sort(matched)[pos];
    }
  }

  /** What the positions taken so far count for n, and the followers still to come, make up
      the followers believed to have n. */
  ghost predicate Collected(matched: seq<nat>, rest: map<NodeId, FollowerProgress>,
                            followers: map<NodeId, FollowerProgress>) {
    forall n: nat :: CountGe(matched, n) + |Believed(rest, n)| == |Believed(followers, n)|
  }

  lemma TakeOne(matched: seq<nat>, rest: map<NodeId, FollowerProgress>,
                followers: map<NodeId, FollowerProgress>, f: NodeId)
    requires f in rest && Collected(matched, rest, followers)
    ensures |rest - {f}| == |rest| - 1
    ensures Collected([rest[f].matchSeq] + matched, rest - {f}, followers)
  {
    assert (rest - {f}).Keys == rest.Keys - {f};
    forall n: nat
      ensures CountGe([rest[f].matchSeq] + matched, n) + |Believed(rest - {f}, n)| == |Believed(followers, n)|
    {
      CountGeFront(rest[f].matchSeq, matched, n);
      assert Believed(rest - {f}, n) == Believed(rest, n) - {f};
    }
  }

  lemma Tally(l: LeaderState, matched: seq<nat>)
    requires Collected(matched, map[], l.followers)
    ensures forall n: nat :: CountGe([l.lastApplied] + matched, n) == Votes(l, n)
  {
    forall n: nat ensures CountGe([l.lastApplied] + matched, n) == Votes(l, n) {
      CountGeFront(l.lastApplied, matched, n);
      assert Believed(map[], n) == {};
    }
  }
}
