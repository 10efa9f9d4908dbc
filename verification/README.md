# Nexora verification model

A Dafny model of the parts of Nexora whose correctness is hardest to see from the code: Raft
log replication with its apply watermark, the epoch barrier, the rate limiter, the graph
traversals, bulk ingest, materialized views, keyword suggestion, date conversion and the
materialized view statement parser. `dafny verify dfyconfig.toml` checks everything.

Code that updates state is modelled by classes and loops with the same branches, each proved
against a specification that does not follow the code: the sorted follower loop against a
batch drained without sorting, the two-row distance table against chains of edits, the
traversals against walks, the index lookup against a scan. Protocols are state machines, and
what is proved holds for every run of them.

## Modules

| module | what it is about |
|---|---|
| `ReplicatedGraph` | log entries, the graph they change, replays and prefixes of replays |
| `Landing` | entries that reach the graph in any order |
| `RaftFollower` | one AppendEntries request at a follower |
| `RaftFailClosed` | entries that do not decode are never passed, and nothing else holds a follower back |
| `RaftRuns` | whole runs of a follower whose requests are handled one at a time, with crashes |
| `RaftInterleaving` | handlers that run at the same time, step by step, with crashes |
| `RaftSerial` | handling requests one at a time as one of the interleavings |
| `RaftExactness` | relabelling a run's payloads; why nothing better than `low` holds |
| `RaftLeader` | the leader's bookkeeping and its commit index |
| `RaftCluster` | leader and followers together |
| `RaftAcknowledged`, `RaftQuorum` | what one follower's and a majority's acknowledgement guarantee |
| `Barrier` | epochs, shard reports and commits in every interleaving |
| `RateLimiter` | token buckets, windows of requests, cleanup |
| `Walks`, `Traversal`, `PathSearch`, `DepthFirst` | levels of walks and the searches over them |
| `BulkIngest` | coalescing records per node |
| `MaterializedView`, `ViewBridge` | row indexes, and rows maintained from standing query results |
| `EditDistance` | the Levenshtein loop and keyword suggestion |
| `Calendar` | dates as days since 1970-01-01 |
| `DdlParser` | parsing CREATE MATERIALIZED VIEW |
| `Ascii`, `Sequences`, `Wrappers` | shared helpers |

## Findings

Where the code does not do what its comments or a reader would expect, the model follows the
code, shows a case in which the expectation fails and proves exactly when it holds.

- What a follower's graph holds depends on the order in which entries land. The model tracks
  `low`, how far the graph reflects the log; for every interleaving and every crash the graph
  is between `low` and the highest entry applied (`RaftInterleaving.InterleavedConvergence`),
  a watermark can be trusted exactly when it is at most `low` (`RaftRuns.WatermarkRightIff`),
  and nothing better can be said of any run (`RaftExactness.LowIsExact`).
- The comment on loading the watermark says that reading 0 is always safe
  (crates/nexora-app/src/raft_handler.rs:117-120). After a passing read error a later restart
  can read the old file, with a watermark above `low` (`RaftRuns.MisreadDiverges`). The
  watermark stays right exactly when no restart does that (`RaftRuns.TrustIff`), for instance
  when no restart raises the watermark.
- Handlers of different connections share the watermark with one load and one swap. When two
  overlap, an older entry can overwrite a newer one for good
  (`RaftInterleaving.OverlapDiverges`). It cannot in a guarded run, where one handler at a time
  is between its load and its swap (`RaftInterleaving.ExclusiveConvergence`); the code does not
  enforce this. No entry is ever lost either way (`RaftInterleaving.InterleavedAtLeastOnce`).
- A follower that has acknowledged entry n can lose it again. In every interleaving it keeps n
  exactly as long as no entry below n lands (`RaftAcknowledged.KeptIff`), and on that condition
  majorities keep n (`RaftQuorum.MajorityKeeps`). Overlapping handlers can break it while the
  watermark stays (`RaftAcknowledged.OverlapLoses`). In guarded runs it can be read off the
  watermark: n is kept exactly while the watermark does not fall below n - 1
  (`RaftAcknowledged.KeepsIff`, `RaftQuorum.QuorumDurability`) and is back once the watermark is
  back at n (`RaftQuorum.CaughtUpHas`). A restart that falls back further can make all followers
  lose n at once (`RaftQuorum.AllRegress`).
- A follower drops the entries above leader_commit and still answers success, and the leader
  records the last entry sent as replicated. That record is right exactly when the entry was
  committed before it was sent or had already been applied
  (`RaftCluster.AcknowledgedIffCommitted`). So an entry is on no
  follower when it becomes committed (`RaftCluster.CommitIsUnsupported`), and a follower that
  dropped one is not sent it again (`RaftCluster.RoundStrandsIff`,
  `RaftCluster.StrandedForever`) until it is registered at or below its watermark, as happens
  when the leader restarts (`RaftCluster.RegisterFreesIff`). The very first round of a cluster
  of quorum 2 does this (`RaftCluster.FirstRoundStrands`).
- The quorum position saturates: with fewer registered nodes than the quorum needs, the
  commit index follows all registered nodes instead of a quorum (`RaftLeader.QuorumIff`).
- The scheduler counts shard numbers without checking them (`Barrier.UnknownShardCounts`).
  When an epoch first becomes complete, every shard has flushed it exactly when no unknown
  one has (`Barrier.EveryShardFlushedIff`). An epoch overtaken by a later one is never
  notified (`Barrier.OvertakenNeverNotified`), and its last report is answered with an error
  although it has been recorded (`Barrier.BarrierScheduler.ReportShard`).
- The rate limiter reads the clock before it takes the lock, so times can arrive out of order.
  What it admits is exactly what the time that passed forwards allows
  (`RateLimiter.AdmittedIff`); that is the plain length of the window exactly when times are in
  order, and more otherwise (`RateLimiter.TravelInOrder`, `RateLimiter.OutOfOrderBreaksBound`).
- Cleanup reads the clock before the lock too. For requests that do not take the lock after a
  cleanup that read a later clock, cleanup changes no decision exactly when rate * ttl is at
  least burst (`RateLimiter.CleanupInvisibleIff`), which the defaults meet. A request that does
  can be decided differently whatever the time to live (`RateLimiter.LateRequestDiffers`).
- The comment on the breadth-first handler says that the starts are excluded
  (crates/nexora-app/src/handlers.rs:1527). A start that a walk leads back to is reported
  (`Traversal.LocalBfs`). For the same reason the shortest path from a node to itself is its
  shortest cycle (`PathSearch.BfsShortestPath`).
- The depth-limited depth-first traversal can miss a node within the bound. It serves every
  graph of n nodes exactly when the bound is at most 1 or at least n - 1
  (`DepthFirst.ServedIff`).
- The date conversion accepts days such as 31 February and years before 1970, which get the
  number of another date (`Calendar.MissingDayCollides`, `Calendar.EarlierYearCollides`). A
  date has a number of its own exactly when it is valid (`Calendar.DistinctIffValid`).

## Assumptions

- The leader's log is fixed and terms do not change, as in the code, which sets the term to 1
  and never checks it. A numbered entry in a batch carries the log's payload. The leader as
  written departs from this: it sends empty payloads for its caller to fill
  (crates/nexora-raft/src/lib.rs:340-346), and the caller forwards them as they are
  (crates/nexora-app/src/raft_handler.rs:363-379).
- Graph writes survive a crash. Writing the watermark file either replaces its contents or
  fails. A crash in the middle of a batch is a step of `RaftInterleaving`; in `RaftRuns` it is
  a request with a smaller leader_commit whose watermark write fails, followed by a restart.
- Setting a property overwrites it: the node stamps each call with its own increasing clock.
- A quorum size of 0 would make the leader index past the end of its list, so the leader's
  methods require at least 1. The run theorems of the barrier are for at least one shard.
- Tokens, rates and times are real numbers, and rates and times to live are not negative.
- Neighbour lists, which fetch completes next, how a value prints, how an identifier and an
  event time are read from a record, and whether a call or a write fails are parameters.
- Upper case, in the statement parser and in keyword suggestion, is that of ASCII.

## Model

| member | source | states |
|---|---|---|
| `ReplicatedGraph.ApplyEntry` | crates/nexora-app/src/raft_handler.rs:463-531 | which entries apply and which fail, and that a failed call leaves either the old graph or, when it fails after its commit, the new one |
| `ReplicatedGraph.ReadAfterApply` | crates/nexora-app/src/raft_handler.rs:484-511 | an entry changes at most the one cell it addresses, to a value that does not depend on the graph |
| `ReplicatedGraph.PropertyIsLastWrite` | crates/nexora-app/src/raft_handler.rs:480-491 | after a replay a property holds a value exactly when the last entry that sets or removes it sets that value |
| `ReplicatedGraph.EdgeIsLastWrite` | crates/nexora-app/src/raft_handler.rs:492-503 | after a replay a half-edge is there exactly when the last entry that adds or removes it adds it |
| `ReplicatedGraph.BetweenApply` | crates/nexora-app/src/raft_handler.rs:463-531 | re-applying the entry after the watermark over a graph whose cells come from later prefixes keeps every cell between the two prefixes |
| `Landing.BetweenApplyAny` | crates/nexora-app/src/raft_handler.rs:463-531 | whatever entry is applied, in whatever order, every cell stays between how far the graph reflects the log and the highest entry applied |
| `RaftFollower.Follower.HandleAppendEntries` | crates/nexora-app/src/raft_handler.rs:585-662 | the sorted, early-breaking loop leaves exactly the watermark, the file and the graph that `Drain` defines without sorting; success exactly when no committed entry of the batch is above the watermark; last_committed is the new watermark and last_log_seq the largest number received |
| `RaftFollower.Follower.ApplyCommitted` | crates/nexora-app/src/raft_handler.rs:595-628 | the loop over the sorted batch ends with the watermark and the graph of `Drain`, and has failed exactly when a committed entry is still above the watermark |
| `RaftFollower.Follower.constructor` | crates/nexora-app/src/raft_handler.rs:121-126 | a starting process takes the watermark from the file and 0 when the file is missing, corrupt or unreadable |
| `RaftFollower.LastSeq` | crates/nexora-app/src/raft_handler.rs:588 | at least every sequence number of the batch and one of them, 0 when there are none |
| `RaftFollower.SortBySeq` | crates/nexora-app/src/raft_handler.rs:590-593 | the batch in ascending order, a permutation of what arrived |
| `RaftFollower.SortKeepsFirst` | crates/nexora-app/src/raft_handler.rs:590-593 | the sort is stable: the first of several entries with one number stays the first |
| `RaftFollower.DrainIsLargest` | crates/nexora-app/src/raft_handler.rs:599-628 | the new watermark is the largest n such that every entry above the old one up to n is in the batch, committed, and applies |
| `RaftFollower.SuccessMeansWholeInterval` | crates/nexora-app/src/raft_handler.rs:654-662 | success holds exactly when the committed part of the batch above the old watermark is the whole interval up to the new one |
| `RaftFollower.LoopStep` | crates/nexora-app/src/raft_handler.rs:599-628 | the first entry the loop neither skips nor stops at decides the rest: a gap or a failure ends it, otherwise it goes on from that entry |
| `RaftFollower.FileFollowsWatermark` | crates/nexora-app/src/raft_handler.rs:630-637 | the file changes only when the watermark advances, and is then the watermark; a failed write is not made up for by a request that applies nothing |
| `RaftFailClosed.AcceptedIff` | crates/nexora-app/src/raft_handler.rs:463-531 | an entry is accepted exactly when its payload decodes and, if it is one of the four writes, the write goes through |
| `RaftFailClosed.UndecodableStops` | crates/nexora-app/src/raft_handler.rs:472-474 | when the next committed entry does not decode, nothing changes and the reply is no success |
| `RaftFailClosed.CleanBatchSucceeds` | crates/nexora-app/src/raft_handler.rs:599-662 | a committed batch of decodable entries that leaves no gap and meets no fault is applied to its last entry and answered with success |
| `RaftFailClosed.UndecodableNeverPassed` | crates/nexora-app/src/raft_handler.rs:472-474 | in every interleaving drawn from a log, with any faults, crashes and restarts, an entry that does not decode stays above the watermark in memory, the one on disk, every handler's cursor and every reply |
| `RaftRuns.DrainKeepsBetween` | crates/nexora-app/src/raft_handler.rs:595-628 | one batch, from any watermark, keeps every cell between how far the graph reflects the log and the highest entry ever applied |
| `RaftRuns.RunKeepsInv` | crates/nexora-app/src/raft_handler.rs:595-637 | the same over every run: duplicates, gaps, failures, failed writes of the watermark, crashes, and whatever a restart reads |
| `RaftRuns.CrashConvergence` | crates/nexora-app/src/raft_handler.rs:117-144 | after every run the graph is between `low` and the high mark; when no restart read a watermark above `low` the graph reflects the log up to the watermark, and once that is back at the high mark it is exactly the replay of the log |
| `RaftRuns.TrustIff` | crates/nexora-app/src/raft_handler.rs:117-126 | the watermark stays right throughout a run exactly when no restart of the run reads a watermark above `low` |
| `RaftRuns.LostStaysLost` | crates/nexora-app/src/raft_handler.rs:121-126 | after a lost file the next restart starts from 0, whatever it reads |
| `RaftRuns.WatermarkRightIff` | crates/nexora-app/src/raft_handler.rs:117-126 | a watermark is right for every graph between low and high exactly when it is at most low |
| `RaftRuns.SerialisedRun` | crates/nexora-app/src/raft_handler.rs:533-543 | without a restart the graph is the replay of exactly the applied entries, or of one more when its call failed after the commit; the watermark never passes the largest commit index received |
| `RaftRuns.WatermarkMonotone` | crates/nexora-app/src/raft_handler.rs:595-637 | without a restart the watermark never decreases |
| `RaftRuns.MisreadDiverges` | crates/nexora-app/src/raft_handler.rs:117-126 | a family of runs, one for every 0 < a < v, in which a passing read error lets a later restart read v over a graph that reflects a: reading 0 is not always safe |
| `RaftRuns.FallBackRegresses` | crates/nexora-app/src/raft_handler.rs:167-177 | for every w < a < v a watermark that falls back from v to w takes the graph back: once a is applied again nothing above a is reflected |
| `RaftInterleaving.InterleavedAtLeastOnce` | crates/nexora-app/src/raft_handler.rs:234-248 | for every interleaving of load, apply, swap, persist, reply and crash of any number of handlers: whatever is at or below the watermark in memory, the one on disk or any reply has been applied |
| `RaftInterleaving.InterleavedConvergence` | crates/nexora-app/src/raft_handler.rs:595-637 | for every interleaving, overlapping handlers and any restart included, every cell comes from a prefix between `low` and the high mark, and when the two meet the graph is the replay of the log |
| `RaftExactness.LowIsExact` | crates/nexora-app/src/raft_handler.rs:595-637 | for every run with `low` below the high mark: the same run with the payloads of a log that marks entry low + 1 has the same watermarks, landings and replies, and a graph that does not reflect that entry |
| `RaftExactness.RunAlike` | crates/nexora-app/src/raft_handler.rs:595-662 | relabelling payloads and faults changes nothing of a run but what is written |
| `RaftInterleaving.ExclusiveConvergence` | crates/nexora-app/src/raft_handler.rs:595-637 | guarded runs only: when no handler loads the watermark while another is between its load and its swap and no restart reads a watermark above `low`, the watermark is at most `low`, and at the high mark the graph is the replay of the log |
| `RaftInterleaving.OverlapDiverges` | crates/nexora-app/src/raft_handler.rs:595-637 | without that guard the watermark can be wrong, for every 0 < a < v, on a run drawn from the log: both handlers have published, the watermark is v and the graph holds a |
| `RaftSerial.ServeIsDeliver` | crates/nexora-app/src/raft_handler.rs:595-662 | a handler that is not interrupted does, step by step, what one request does in the serial model, and reports the new watermark |
| `RaftSerial.SerialIsInterleaved` | crates/nexora-app/src/raft_handler.rs:234-248 | every serial run, restarts included, is one of the interleavings, with the same watermarks and graph |
| `RaftSerial.ScheduleGuarded` | crates/nexora-app/src/raft_handler.rs:234-248 | that interleaving is guarded exactly when no restart of the run reads a watermark above `low` |
| `RaftLeader.Replicator.AppendLocal` | crates/nexora-raft/src/lib.rs:275-306 | the log end is the maximum of the old one and the entry; with a quorum of at most one the commit index is the maximum of the old one and the entry, otherwise it stays |
| `RaftLeader.BelievedAfter` | crates/nexora-raft/src/lib.rs:244-271 | a registered follower counts for exactly the entries up to the given one, a removed one for none, and the others are not affected |
| `RaftLeader.Replicator.CollectEntries` | crates/nexora-raft/src/lib.rs:322-350 | an unknown follower is an error; otherwise the batch is the consecutive numbers from the follower on, up to the log end and the batch size |
| `RaftLeader.Replicator.RecordSuccess` | crates/nexora-raft/src/lib.rs:374-393 | after a successful reply the follower counts as having the last entry sent, and the commit index is the larger of the old one and the commit point |
| `RaftLeader.Replicator.CommitPoint` | crates/nexora-raft/src/lib.rs:413-425 | collecting, sorting and taking the quorum position finds the largest entry number that enough nodes are believed to have |
| `RaftLeader.OrderStatistic` | crates/nexora-raft/src/lib.rs:422-425 | the element at position len - needed of the sorted list is the largest number that `needed` of the values reach |
| `RaftLeader.SortCounts` | crates/nexora-raft/src/lib.rs:422-423 | sorting changes no count of values at or above a bound |
| `RaftLeader.CommitPointUnique` | crates/nexora-raft/src/lib.rs:413-425 | there is only one commit point |
| `RaftLeader.QuorumIff` | crates/nexora-raft/src/lib.rs:424-425 | the commit point carries a real quorum exactly when enough nodes are registered, because the position saturates at 0 |
| `RaftCluster.AcknowledgedIffCommitted` | crates/nexora-raft/src/lib.rs:374-393 | a successful reply means the follower has the last entry sent exactly when that entry was committed when sent or already applied |
| `RaftCluster.RunKeepsBehindCommit` | crates/nexora-raft/src/lib.rs:310-410 | in every run of leader, followers and late requests no follower is ahead of the commit index |
| `RaftCluster.CommitIsUnsupported` | crates/nexora-raft/src/lib.rs:413-469 | in every run from an empty cluster, at the moment an entry becomes committed no follower has it |
| `RaftCluster.StrandedForever` | crates/nexora-raft/src/lib.rs:374-393 | a follower the leader has moved past never advances again, in every continuation that does not register it at or below its watermark |
| `RaftCluster.RegisterFreesIff` | crates/nexora-app/src/raft_handler.rs:208-212 | registering a stranded follower frees it exactly when it is registered at or below its watermark, as a starting leader does |
| `RaftCluster.RoundAdvances` | crates/nexora-raft/src/lib.rs:310-410 | a follower that is not past advances with the first round that carries its next entry committed and does not fail |
| `RaftCluster.FirstRoundStrands` | crates/nexora-raft/src/lib.rs:374-393 | for every log and every cluster of quorum 2, one entry and one answered round commit an entry that no follower has and strand the follower |
| `RaftCluster.RoundReaches` | crates/nexora-raft/src/lib.rs:374-393 | an answered round takes an up-to-date follower to the end of the batch, or to the commit index sent along when that is less |
| `RaftCluster.RoundStrandsIff` | crates/nexora-raft/src/lib.rs:374-393 | one answered round strands an up-to-date follower exactly when its last entry was above the commit index sent along |
| `RaftCluster.SingleNodeCommits` | crates/nexora-raft/src/lib.rs:300-302 | a leader that is a quorum by itself has, in every run, committed whatever it has appended; when no follower is registered beyond its log its commit index is exactly its log end |
| `RaftCluster.SingleCommitPoint` | crates/nexora-raft/src/lib.rs:413-425 | with a quorum of one the commit point is the furthest position of all |
| `RaftCluster.MajoritiesMeet` | crates/nexora-app/src/main.rs:1550-1555 | two majorities of the same nodes share a node |
| `RaftAcknowledged.KeptIff` | crates/nexora-app/src/raft_handler.rs:595-637 | for every interleaving and crash, a follower that has entry n keeps it exactly as long as no entry below n lands |
| `RaftAcknowledged.KeepsIff` | crates/nexora-app/src/raft_handler.rs:630-662 | guarded runs only: a follower whose watermark has reached n and never again falls below w keeps entry n on its graph exactly when w is at least n - 1 |
| `RaftAcknowledged.OverlapLoses` | crates/nexora-app/src/raft_handler.rs:595-637 | overlapping handlers lose an acknowledged entry while the watermark stays, for every 0 < a < v: v is reported and reflected, the slow handler re-applies 1 to a, and v is no longer reflected |
| `RaftQuorum.CaughtUpHas` | crates/nexora-app/src/raft_handler.rs:117-144 | guarded runs only: a follower whose watermark is at n has entry n on its graph, whatever it lost and regained before |
| `RaftQuorum.QuorumApplied` | crates/nexora-app/src/raft_handler.rs:630-662 | in every run, once a majority has reported n, every majority contains a node that has applied each of 1 to n at some time |
| `RaftQuorum.MajorityKeeps` | crates/nexora-app/src/raft_handler.rs:595-662 | for every interleaving and crash: if a majority has entry n and no entry below n lands on a follower that has it, every majority goes on containing a node that has n on its graph |
| `RaftQuorum.QuorumDurability` | crates/nexora-app/src/raft_handler.rs:630-662 | guarded runs only: when no follower that has reported n is restarted below n - 1, once a majority has reported n every majority contains a node that has entry n on its graph |
| `RaftQuorum.AllRegress` | crates/nexora-app/src/raft_handler.rs:117-144 | the condition on restarts is needed: for every cluster and every w < a < v, a guarded run after which every follower has reported v and none has any entry above a |
| `RateLimiter.LevelAtMostBudget` | crates/nexora-app/src/security.rs:83-97 | what a request finds is at most what any window ending with it still allows, for every history |
| `RateLimiter.LevelIsSomeBudget` | crates/nexora-app/src/security.rs:83-97 | and it is exactly what one of those windows allows |
| `RateLimiter.AdmittedIff` | crates/nexora-app/src/security.rs:83-97 | a request is admitted exactly when every window that ends with it stays within burst + rate * the time that passed forwards in it, in whatever order the clock was read |
| `RateLimiter.WindowBound` | crates/nexora-app/src/security.rs:83-97 | no window of any history admits more than burst + rate * the time that passed forwards in it |
| `RateLimiter.TravelInOrder` | crates/nexora-app/src/security.rs:152-166 | at least the plain time passes forwards, and exactly that if and only if the clock was read in order |
| `RateLimiter.WindowBoundInOrder` | crates/nexora-app/src/security.rs:83-97 | so a window of a history taken in order admits at most burst + rate * its length |
| `RateLimiter.OutOfOrderBreaksBound` | crates/nexora-app/src/security.rs:152-166 | times read before the lock can arrive out of order, and then the bound by plain length fails |
| `RateLimiter.Limiter.CheckWithCost` | crates/nexora-app/src/security.rs:152-166 | the decision and the new bucket of the address, a full one when it had none; the other addresses keep theirs |
| `RateLimiter.LimiterRemembers` | crates/nexora-app/src/security.rs:152-173 | when rate * ttl is at least burst and no request of the address comes after a cleanup that read a later clock, the address is either remembered exactly or forgotten with a bucket that would be full; requests may be in any order among themselves |
| `RateLimiter.CleanupInvisible` | crates/nexora-app/src/security.rs:169-173 | under the same two conditions cleanup changes no decision |
| `RateLimiter.CleanupInvisibleIff` | crates/nexora-app/src/security.rs:169-173 | with requests not behind cleanups, cleanup is invisible in every run exactly when rate * ttl is at least burst |
| `RateLimiter.LateRequestDiffers` | crates/nexora-app/src/security.rs:152-173 | the order is needed: whatever the time to live, a request that read the clock before the bucket could have refilled and takes the lock after a cleanup is decided differently |
| `RateLimiter.CleanupVisible` | crates/nexora-app/src/security.rs:169-173 | when rate * ttl is less than burst, some run in order is decided differently |
| `Ascii.UpperByTable` | crates/nexora-app/src/error.rs:312 | each of the 26 small letters becomes its capital and every other character stays |
| `Ascii.SameUpToCaseIff` | crates/nexora-app/src/sql_ddl_parser.rs:25 | two texts are the same up to case, by the two alphabets, exactly when their upper cases are equal |
| `EditDistance.Levenshtein` | crates/nexora-app/src/error.rs:334-349 | the two-row loop computes the length of the shortest chain of single-character edits |
| `EditDistance.FillRow` | crates/nexora-app/src/error.rs:340-346 | one pass fills row i of the distance table from row i - 1 |
| `EditDistance.ShortestChain` | crates/nexora-app/src/error.rs:334-349 | a chain of edits as short as the distance exists |
| `EditDistance.ChainAtLeastDist` | crates/nexora-app/src/error.rs:334-349 | no chain of edits is shorter than the distance |
| `EditDistance.Symmetric` | crates/nexora-app/src/error.rs:334-349 | the distance is symmetric |
| `EditDistance.ZeroIffEqual` | crates/nexora-app/src/error.rs:334-349 | it is 0 exactly for equal strings |
| `EditDistance.Triangle` | crates/nexora-app/src/error.rs:334-349 | it meets the triangle inequality |
| `EditDistance.LengthBound` | crates/nexora-app/src/error.rs:334-349 | it is at least the difference and at most the sum of the lengths |
| `EditDistance.SuggestKeyword` | crates/nexora-app/src/error.rs:311-331 | no suggestion exactly when no keyword is within its threshold of the token in upper case; otherwise the earliest of the closest keywords |
| `EditDistance.Closest` | crates/nexora-app/src/error.rs:320-330 | the search over any keyword list finds the earliest of the closest ones within threshold |
| `EditDistance.CloseByNumbers` | crates/nexora-app/src/error.rs:324-326 | close means one edit for keywords of up to 5 letters and two for those of 6 to 8, and no keyword is longer |
| `EditDistance.CaseDoesNotMatter` | crates/nexora-app/src/error.rs:312 | tokens that are the same up to case get the same suggestion, or both none |
| `EditDistance.KeywordSuggestsItself` | crates/nexora-app/src/error.rs:311-331 | a token that is a keyword, in whatever case, is suggested as itself |
| `Walks.LevelIffWalk` | crates/nexora-bench/benches/traversal.rs:158-181 | level k is what walks of k edges reach |
| `Walks.LevelsIffWalk` | crates/nexora-bench/benches/traversal.rs:158-181 | being within a range of levels is being at the end of a walk of such a length |
| `Walks.NextFrontier` | crates/nexora-bench/benches/traversal.rs:164-174 | expanding only the nodes new at one level finds everything new at the next |
| `Walks.Saturated` | crates/nexora-bench/benches/traversal.rs:175-177 | once a level brings nothing new no later level does |
| `Traversal.BfsTraverse` | crates/nexora-bench/benches/traversal.rs:158-181 | the result is the nodes within the depth, each once, none before a nearer one |
| `Traversal.LocalBfs` | crates/nexora-app/src/handlers.rs:1528-1584 | whatever order the fetches of each level complete in, the result is the ends of the walks of 1 to max_depth edges from the starts, each once, none before a nearer one |
| `Traversal.LevelTurn` | crates/nexora-app/src/handlers.rs:1550-1582 | expanding the frontier and keeping what is new takes a traversal exactly one level further |
| `Traversal.FetchUnordered` | crates/nexora-app/src/handlers.rs:1550-1567 | the concurrent fetch returns the list of every frontier node, in some order |
| `Traversal.Expand` | crates/nexora-app/src/handlers.rs:1571-1581 | the nested loops keep the first occurrence of every node not visited before |
| `PathSearch.BfsShortestPath` | crates/nexora-bench/benches/traversal.rs:227-253 | Some(k) only for the length of the shortest non-empty walk, None only when every such walk is longer than the bound |
| `PathSearch.ExpandNode` | crates/nexora-bench/benches/traversal.rs:242-249 | a node's edges either contain the target or queue exactly the unvisited ones, each once |
| `PathSearch.Turn` | crates/nexora-bench/benches/traversal.rs:236-250 | each turn of the queue loop keeps the search invariant or has found the shortest walk |
| `DepthFirst.DfsTraverse` | crates/nexora-bench/benches/traversal.rs:183-204 | the stack loop lists what the recursive definition of the traversal lists |
| `DepthFirst.DfsSound` | crates/nexora-bench/benches/traversal.rs:183-204 | each node at most once and only nodes that breadth-first search to the same depth lists |
| `DepthFirst.DfsReachesAll` | crates/nexora-bench/benches/traversal.rs:183-204 | with a bound of at least the number of other nodes, exactly the reachable nodes |
| `DepthFirst.DfsMissesNode` | crates/nexora-bench/benches/traversal.rs:183-204 | for every n and every bound from 2 to n - 2, a graph of n nodes in which a node two hops away is missed |
| `DepthFirst.SmallBoundServes` | crates/nexora-bench/benches/traversal.rs:183-204 | with a bound of 0 or 1 nothing is missed |
| `DepthFirst.ServedIff` | crates/nexora-bench/benches/traversal.rs:183-204 | every graph of n nodes, with neighbours listed in any order, is listed as breadth-first search lists it exactly when the bound is at most 1 or at least n - 1 |
| `Barrier.BarrierScheduler.CreateBarrier` | crates/nexora-barrier/src/lib.rs:106-130 | the barrier has the current epoch, which starts with no shard completed, and the epoch advances by one |
| `Barrier.BarrierScheduler.ReportShard` | crates/nexora-barrier/src/lib.rs:133-172 | the recorded report followed by the commit it asks for; UnknownEpoch, and AlreadyCommitted for a flush that finds a complete epoch at or below the committed one |
| `Barrier.BarrierScheduler.DoCommit` | crates/nexora-barrier/src/lib.rs:175-188 | a commit at or below the committed epoch is refused, a later one is recorded and notified |
| `Barrier.RunKeepsInv` | crates/nexora-barrier/src/lib.rs:106-188 | every interleaving of barriers, reports and commits keeps the invariant between epochs, notifications and commits under way |
| `Barrier.CompletedIffReported` | crates/nexora-barrier/src/lib.rs:133-157 | the shards that count as completed are exactly those that have reported a flush of the epoch |
| `Barrier.FailureIsLastReported` | crates/nexora-barrier/src/lib.rs:163-167 | the failure remembered for a shard is the one it reported last |
| `Barrier.BarrierSafety` | crates/nexora-barrier/src/lib.rs:133-188 | in every run notifications strictly increase, every notified epoch was flushed by at least as many different shards as there are, and the committed epoch is below the current one |
| `Barrier.EveryShardFlushedIff` | crates/nexora-barrier/src/lib.rs:146-162 | when an epoch first becomes complete, every shard has flushed it exactly when every shard that has flushed it is one of the scheduler's |
| `Barrier.EveryShardFlushed` | crates/nexora-barrier/src/lib.rs:152-162 | when only the scheduler's own shards have flushed a notified epoch, all of them have, whatever else was reported |
| `Barrier.UnknownShardCounts` | crates/nexora-barrier/src/lib.rs:146-160 | shard numbers are not checked: for every number of shards, an unknown one can complete an epoch for a real one that has not flushed |
| `Barrier.BarrierQuiescence` | crates/nexora-barrier/src/lib.rs:159-188 | when no commit is under way the committed epoch is the greatest complete one, whatever the order of completion |
| `Barrier.OvertakenNeverNotified` | crates/nexora-barrier/src/lib.rs:175-188 | an epoch overtaken by a later commit is never notified, in any continuation |
| `Calendar.DateToEpochDays` | crates/nexora-app/src/handlers.rs:3837-3863 | None exactly outside months 1 to 12 and days 1 to 31; otherwise the days from 1970-01-01, for which `Calendar.DateClosedForm` gives a formula |
| `Calendar.NextDayIsOneMore` | crates/nexora-app/src/handlers.rs:3837-3863 | the day after a valid date has the next number, over month ends, leap days and year ends |
| `Calendar.OrderPreserved` | crates/nexora-app/src/handlers.rs:3837-3863 | an earlier valid date has a smaller number |
| `Calendar.Bijection` | crates/nexora-app/src/handlers.rs:3837-3863 | valid dates from 1970 on and the natural numbers correspond one to one |
| `Calendar.ClosedForm` | crates/nexora-app/src/handlers.rs:3842-3846 | the loop over years is 365 * years plus the leap years by the 4/100/400 rule |
| `Calendar.MonthClosedForm` | crates/nexora-app/src/handlers.rs:3848-3856 | the loop over months is (153 * (month - 3) + 2) / 5 + 59 from March on, and one more after a leap day |
| `Calendar.MonthLengths` | crates/nexora-app/src/handlers.rs:3849 | the month lengths of section 5.7 of RFC 3339, month by month |
| `Calendar.DateClosedForm` | crates/nexora-app/src/handlers.rs:3837-3863 | one formula for every accepted date from 1970 on, without the table and the loops |
| `Calendar.LeapYearCounts` | crates/nexora-app/src/handlers.rs:3865-3867 | the leap year test agrees with the count of leap years |
| `Calendar.MissingDayCollides` | crates/nexora-app/src/handlers.rs:3837-3863 | an accepted day that its month lacks gets the number of a day of the next month |
| `Calendar.DistinctIffValid` | crates/nexora-app/src/handlers.rs:3837-3863 | an accepted date, of whatever year, shares its number with no other valid date exactly when it is valid |
| `Calendar.EarlierYearCollides` | crates/nexora-app/src/handlers.rs:3842-3846 | a date before 1970 gets the number of the same day of 1970, or of the next one after a leap day |
| `BulkIngest.Group` | crates/nexora-app/src/handlers.rs:2450-2520 | one item per node that has operations, in order of first appearance, and the number of records skipped; what these are is said by the next rows |
| `BulkIngest.PushFields` | crates/nexora-app/src/handlers.rs:2450-2520 | one operation per field except the id field, after those already there |
| `BulkIngest.NamesNodeIff` | crates/nexora-app/src/handlers.rs:2463-2485 | a record names a node exactly when it is an object whose id field can be read as one |
| `BulkIngest.ItemsAreFields` | crates/nexora-app/src/handlers.rs:2498-2508 | the operations of an item are exactly, in order and each once, the fields of its node's records other than the id field, each with the field's name and value and its record's event time; the id field is never written |
| `BulkIngest.OrderIsFirstAppearance` | crates/nexora-app/src/handlers.rs:2494-2497 | the nodes with items come in order of first appearance |
| `BulkIngest.SkippedIsCount` | crates/nexora-app/src/handlers.rs:2463-2485 | the records counted as skipped are those that name no node |
| `BulkIngest.LastRecordWins` | crates/nexora-app/src/handlers.rs:2450-2520 | when properties keep the last value set, after all items in any order a property holds the value of the last field of its node's records that carries the key |
| `BulkIngest.ItemsHoldOps` | crates/nexora-app/src/handlers.rs:2450-2520 | items are for different nodes; a node has an item exactly when it has operations, and the item holds all of them in order |
| `BulkIngest.SelectStream` | crates/nexora-app/src/handlers.rs:2450-2520 | a node's coalesced operations are its part of the stream of accepted records |
| `BulkIngest.AnyOrderPreservesMeaning` | crates/nexora-app/src/handlers.rs:2520-2533 | any order of the operations that keeps each node's own order has the same result, so nodes can be written at the same time |
| `BulkIngest.CoalescingPreservesMeaning` | crates/nexora-app/src/handlers.rs:2450-2520 | applying the items in any order equals applying the accepted records one by one, for every initial state and every effect of an operation |
| `MaterializedView.ViewManager.CreateView` | crates/nexora-core/src/materialized_view.rs:263-300 | the view exists and has no rows; the other views keep theirs |
| `MaterializedView.ViewManager.UpsertRow` | crates/nexora-core/src/materialized_view.rs:303-363 | the row replaces the old one under its key, an unknown view is an error, and every index stays exact |
| `MaterializedView.ViewManager.DeleteRow` | crates/nexora-core/src/materialized_view.rs:436-464 | the row is gone, an unknown view is an error, and every index stays exact |
| `MaterializedView.ViewManager.QueryByColumn` | crates/nexora-core/src/materialized_view.rs:380-405 | the index lookup lists exactly the rows whose column prints like the value, each once |
| `MaterializedView.UnindexKeeps` | crates/nexora-core/src/materialized_view.rs:318-333 | taking a row's entries out leaves every bucket exact for the remaining rows |
| `MaterializedView.IndexKeeps` | crates/nexora-core/src/materialized_view.rs:338-348 | adding a new row's entries leaves every bucket exact |
| `MaterializedView.LookupIsScan` | crates/nexora-core/src/materialized_view.rs:391-403 | following a bucket to its rows is filtering all rows |
| `ViewBridge.Bridge.OnSqResult` | crates/nexora-app/src/sq_mv_bridge.rs:39-91 | a match of a mapped query upserts the node's row, an unmatch deletes it, and everything else changes nothing |
| `ViewBridge.RowsAreLatestMatches` | crates/nexora-app/src/sq_mv_bridge.rs:39-91 | after any run the rows of a view are exactly the nodes whose latest result routed to it was a match, with that result's properties |
| `ViewBridge.RoutedIff` | crates/nexora-app/src/sq_mv_bridge.rs:27-36 | a query is routed to a view exactly when its last registration is for that view and has not been withdrawn |
| `ViewBridge.UnmappedLeavesNoTrace` | crates/nexora-app/src/sq_mv_bridge.rs:27-91 | a query that is never registered leaves no trace: the run without its steps ends in the same state |
| `DdlParser.ParseAfterCreate` | crates/nexora-app/src/sql_ddl_parser.rs:33-72 | an accepted statement has a one-word name and a query without final semicolons |
| `DdlParser.AsIsAfterName` | crates/nexora-app/src/sql_ddl_parser.rs:40-52 | the first AS between blanks cannot start inside the name, so the text between them exists |
| `DdlParser.RoundTrip` | crates/nexora-app/src/sql_ddl_parser.rs:23-73 | printing a statement and parsing it gives the statement back |
| `DdlParser.RoundTripIff` | crates/nexora-app/src/sql_ddl_parser.rs:23-73 | it does so exactly when the name is one word and the query is not empty, starts and ends in no white space and ends in no semicolon |
| `DdlParser.AnyCaseParses` | crates/nexora-app/src/sql_ddl_parser.rs:23-73 | a printed statement whose keywords are written in any case parses to the same statement, name and query untouched |
| `DdlParser.OuterSpace` | crates/nexora-app/src/sql_ddl_parser.rs:24 | white space around a statement does not matter |
| `DdlParser.RefusedIff` | crates/nexora-app/src/sql_ddl_parser.rs:28-40 | a text is refused for its first words exactly when these are not CREATE MATERIALIZED VIEW in some case, and for its name exactly when nothing follows them |
| `DdlParser.MissingAsIff` | crates/nexora-app/src/sql_ddl_parser.rs:43-46 | after the first words a text is refused exactly when AS does not stand in it between two blanks, in some case |
| `DdlParser.ManualIff` | crates/nexora-app/src/sql_ddl_parser.rs:49-56 | the mode is manual exactly when WITH MANUAL stands between name and AS and WITH INCREMENTAL does not |
| `DdlParser.SpaceByCode` | crates/nexora-app/src/sql_ddl_parser.rs:24 | white space is the blank and the characters 9 to 13 |
| `DdlParser.BlankQueryFails` | crates/nexora-app/src/sql_ddl_parser.rs:43-47 | without a query the keyword AS is not found |
| `DdlParser.TrailingSpaceIsLost` | crates/nexora-app/src/sql_ddl_parser.rs:24 | white space after the query is not part of the statement |

## Left out

- EveryShardFlushed: one way only, because reports that come after an epoch is complete can add unknown shards without harm; at the moment it first becomes complete `EveryShardFlushedIff` is exact.
- ExclusiveConvergence: the guard is sufficient; overlapping handlers whose entries happen to land in order do no harm, which `InterleavedConvergence` decides for each run through `low`.
- DateToEpochDays: does not model 64-bit overflow, which needs a year beyond any the loop could reach.
- Follower crashes in the cluster runs; they are in the single-follower runs and in the durability theorem.
- Transport: TCP framing, JSON, hexadecimal and FlatBuffer decoding; an undecodable payload is a case of its own.
- The leader's commit waiters, the files of its commit index and log end, and snapshot transfer.
- Replies from a higher term: the leader's error for them, which never occurs with the fixed term.
- Rounding of floating-point tokens.
- The 64 concurrent fetches of a traversal level are any order of completion; failed fetches, which count as no neighbours, are empty lists.
- Counting triangles in the benchmark.
- How one commit of a node resolves operations by event time; the coalescing theorem holds for every effect of an operation.
- Persistence of materialized views, rebuilding their indexes at start, the delta log, replacing all rows, scanning and aggregates.
- Inferring a schema from a RETURN clause, the DROP statement, and letters outside ASCII.
- Lagging subscribers of the barrier's notification channel.
- Authentication, auditing, metrics, the query engine and the vendored streaming engine.
