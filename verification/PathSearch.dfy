/** The benchmark's queue-based shortest path. */
module PathSearch {
  import opened Wrappers
  import opened Walks
  import opened Traversal

  /** A node together with the number of hops at which it was found. */
  datatype Tagged = Tagged(node: Node, hops: nat)

  function Nodes(entries: seq<Tagged>): set<Node> {
    if entries == [] then {} else {entries[0].node} + Nodes(entries[1..])
  }

  lemma {:induction false} NodeOf(entries: seq<Tagged>, e: Tagged)
    requires e in entries
    ensures e.node in Nodes(entries)
  {
    if e != entries[0] {
      NodeOf(entries[1..], e);
    }
  }

  lemma {:induction false} EntryOf(entries: seq<Tagged>, n: Node) returns (e: Tagged)
    requires n in Nodes(entries)
    ensures e in entries && e.node == n
  {
    e := entries[0];
    if e.node != n {
      e := EntryOf(entries[1..], n);
    }
  }

  lemma {:induction false} AppendNodes(a: seq<Tagged>, b: seq<Tagged>)
    ensures Nodes(a + b) == Nodes(a) + Nodes(b)
  {
    if a == [] {
      assert a + b == b;
    } else {
      AppendNodes(a[1..], b);
      assert (a + b)[1..] == a[1..] + b;
    }
  }

  // ---------------------------------------------------------------------------
  // bfs_shortest_path
  // ---------------------------------------------------------------------------

  function Tag(nodes: seq<Node>, depth: nat): (r: seq<Tagged>)
    ensures |r| == |nodes| && forall i :: 0 <= i < |r| ==> r[i] == Tagged(nodes[i], depth)
  {
    seq(|nodes|, i requires 0 <= i < |nodes| => Tagged(nodes[i], depth))
  }

  lemma {:induction false} TagNodes(nodes: seq<Node>, depth: nat)
    ensures Nodes(Tag(nodes, depth)) == Elements(nodes)
  {
    if nodes != [] {
      TagNodes(nodes[1..], depth);
      assert Tag(nodes, depth)[1..] == Tag(nodes[1..], depth);
      assert Elements(nodes) == {nodes[0]} + Elements(nodes[1..]);
    }
  }

  /** One edge of the loop: dropped when visited, otherwise visited and queued. */
  lemma QueueOne(edges: seq<Node>, visited: set<Node>, queue: seq<Tagged>, depth: nat)
    requires edges != []
    ensures var isNew, rest := edges[0] !in visited, edges[1..];
            var visited', queue' := if isNew then visited + {edges[0]} else visited,
                                    if isNew then queue + [Tagged(edges[0], depth)] else queue;
            && visited + Elements(Fresh(edges, visited)) == visited' + Elements(Fresh(rest, visited'))
            && queue + Tag(Fresh(edges, visited), depth) == queue' + Tag(Fresh(rest, visited'), depth)
  {
    if edges[0] !in visited {
      var next := Fresh(edges[1..], visited + {edges[0]});
      assert Fresh(edges, visited) == [edges[0]] + next;
      assert Elements([edges[0]] + next) == {edges[0]} + Elements(next);
      assert Tag([edges[0]] + next, depth) == [Tagged(edges[0], depth)] + Tag(next, depth);
    }
  }

  /** One node's edges: stop at the target, otherwise queue the unvisited ones. */
  method ExpandNode(g: Adjacency, node: Node, depth: nat, target: Node, v: set<Node>, q: seq<Tagged>)
    returns (found: bool, visited: set<Node>, queue: seq<Tagged>)
    ensures found <==> target in Neighbours(g, node)
    ensures !found ==> var next := Fresh(Neighbours(g, node), v);
                       visited == v + Elements(next) && queue == q + Tag(next, depth + 1)
  {
    var edges := Neighbours(g, node);
    visited, queue, found := v, q, false;
    for i := 0 to |edges|
      invariant target !in edges[..i]
      invariant visited + Elements(Fresh(edges[i..], visited)) == v + Elements(Fresh(edges, v))
      invariant queue + Tag(Fresh(edges[i..], visited), depth + 1) == q + Tag(Fresh(edges, v), depth + 1)
    {
      var other := edges[i];
      if other == target {
        found := true;
        return;
      }
      QueueOne(edges[i..], visited, queue, depth + 1);
      assert edges[i..][1..] == edges[i + 1..];
      if other !in visited {
        visited, queue := visited + {other}, queue + [Tagged(other, depth + 1)];
      }
    }
  }

  /** The entries are tagged with the least number of hops, at least cur and at most cur + 1. */
  ghost predicate LeastHops(g: Adjacency, src: Node, bound: nat, queue: seq<Tagged>, cur: nat) {
    && (forall i, j :: 0 <= i < j < |queue| ==> queue[i].hops <= queue[j].hops)
    && forall e :: e in queue ==> IsLeast(g, src, bound, e, cur)
  }

  ghost predicate IsLeast(g: Adjacency, src: Node, bound: nat, e: Tagged, cur: nat) {
    && cur <= e.hops <= cur + 1 && e.hops <= bound
    && e.node in Level(g, {src}, e.hops) && e.node !in Levels(g, {src}, 0, e.hops)
  }

  /** All edges of `done` lead to visited nodes other than the target, and a visited node is
      done, queued, or too far away to matter. */
  ghost predicate Searched(g: Adjacency, src: Node, dst: Node, bound: nat,
                           visited: set<Node>, queued: set<Node>, done: set<Node>) {
    && (forall n :: n in done ==> Elements(Neighbours(g, n)) <= visited - {dst})
    && forall n :: n in visited && n in Levels(g, {src}, 0, bound) ==> n in done || n in queued
  }

  /** Everything within cur hops has been seen, so what is nearer than cur is done. */
  lemma NearerIsDone(g: Adjacency, src: Node, dst: Node, bound: nat, visited: set<Node>,
                     queue: seq<Tagged>, done: set<Node>, cur: nat, n: Node)
    requires LeastHops(g, src, bound, queue, cur) && Searched(g, src, dst, bound, visited, Nodes(queue), done)
    requires cur <= bound && n in Levels(g, {src}, 0, cur) && n in visited
    ensures n in done
  {
    LevelsMonotone(g, {src}, 0, cur, bound);
    if n in Nodes(queue) {
      var e := EntryOf(queue, n);
      LevelsMonotone(g, {src}, 0, cur, e.hops);
    }
  }

  lemma LastHop(g: Adjacency, src: Node, dst: Node, cur: nat) returns (n: Node)
    requires dst in Levels(g, {src}, 1, cur + 1)
    ensures n in Levels(g, {src}, 0, cur) && dst in Neighbours(g, n)
  {
    var k := FindLevel(g, {src}, 1, cur + 1, dst);
    n :| n in Level(g, {src}, k - 1) && dst in Neighbours(g, n);
    LevelWithin(g, {src}, 0, cur, k - 1, n);
  }

  /** The target is not within cur hops of the source. */
  lemma TargetNotNearer(g: Adjacency, src: Node, dst: Node, bound: nat, visited: set<Node>,
                        queue: seq<Tagged>, done: set<Node>, cur: nat)
    requires LeastHops(g, src, bound, queue, cur) && Searched(g, src, dst, bound, visited, Nodes(queue), done)
    requires cur <= bound && Levels(g, {src}, 0, cur) <= visited
    ensures dst !in Levels(g, {src}, 1, cur + 1)
  {
    if dst in Levels(g, {src}, 1, cur + 1) {
      var n := LastHop(g, src, dst, cur);
      NearerIsDone(g, src, dst, bound, visited, queue, done, cur, n);
      DoneMissesTarget(g, src, dst, bound, visited, Nodes(queue), done, n);
    }
  }

  lemma DoneMissesTarget(g: Adjacency, src: Node, dst: Node, bound: nat,
                         visited: set<Node>, queued: set<Node>, done: set<Node>, n: Node)
    requires Searched(g, src, dst, bound, visited, queued, done) && n in done
    ensures dst !in Neighbours(g, n)
  {
    assert dst !in Elements(Neighbours(g, n));
  }

  /** When the head of the queue is one hop further out, the level before it is finished. */
  lemma NextLevelSeen(g: Adjacency, src: Node, dst: Node, bound: nat, visited: set<Node>,
                      queue: seq<Tagged>, done: set<Node>, cur: nat)
    requires LeastHops(g, src, bound, queue, cur + 1) && Searched(g, src, dst, bound, visited, Nodes(queue), done)
    requires cur + 1 <= bound && Levels(g, {src}, 0, cur + 1) <= visited
    ensures Levels(g, {src}, 0, cur + 2) <= visited
  {
    forall n | n in Level(g, {src}, cur) ensures Elements(Neighbours(g, n)) <= visited {
      ParentIsDone(g, src, dst, bound, visited, queue, done, cur, n);
    }
    LevelSeen(g, src, visited, cur);
  }

  lemma ParentIsDone(g: Adjacency, src: Node, dst: Node, bound: nat, visited: set<Node>,
                     queue: seq<Tagged>, done: set<Node>, cur: nat, n: Node)
    requires LeastHops(g, src, bound, queue, cur + 1) && Searched(g, src, dst, bound, visited, Nodes(queue), done)
    requires cur + 1 <= bound && Levels(g, {src}, 0, cur + 1) <= visited && n in Level(g, {src}, cur)
    ensures Elements(Neighbours(g, n)) <= visited
  {
    LevelWithin(g, {src}, 0, cur + 1, cur, n);
    NearerIsDone(g, src, dst, bound, visited, queue, done, cur + 1, n);
  }

  lemma LevelSeen(g: Adjacency, src: Node, visited: set<Node>, cur: nat)
    requires Levels(g, {src}, 0, cur + 1) <= visited
    requires forall n :: n in Level(g, {src}, cur) ==> Elements(Neighbours(g, n)) <= visited
    ensures Levels(g, {src}, 0, cur + 2) <= visited
  {
    forall t | t in Level(g, {src}, cur + 1) ensures t in visited {
      var n :| n in Level(g, {src}, cur) && t in Neighbours(g, n);
      assert t in Elements(Neighbours(g, n));
    }
  }

  /** With the queue empty the target is out of reach within the bound. */
  lemma {:induction false} EmptyQueue(g: Adjacency, src: Node, dst: Node, bound: nat,
                                      visited: set<Node>, done: set<Node>, k: nat)
    requires Searched(g, src, dst, bound, visited, {}, done) && src in visited && k <= bound
    ensures dst !in Levels(g, {src}, 1, k + 1) && Level(g, {src}, k) <= visited
  {
    if k == 0 {
      assert Levels(g, {src}, 1, 1) == {};
    } else {
      EmptyQueue(g, src, dst, bound, visited, done, k - 1);
      forall n | n in Level(g, {src}, k - 1) ensures Elements(Neighbours(g, n)) <= visited - {dst} {
        LevelWithin(g, {src}, 0, bound, k - 1, n);
      }
      NextLevelSafe(g, src, dst, visited, k);
    }
  }

  lemma NextLevelSafe(g: Adjacency, src: Node, dst: Node, visited: set<Node>, k: nat)
    requires k >= 1 && dst !in Levels(g, {src}, 1, k)
    requires forall n :: n in Level(g, {src}, k - 1) ==> Elements(Neighbours(g, n)) <= visited - {dst}
    ensures dst !in Levels(g, {src}, 1, k + 1) && Level(g, {src}, k) <= visited
  {
    forall t | t in Level(g, {src}, k) ensures t in visited - {dst} {
      var n :| n in Level(g, {src}, k - 1) && t in Neighbours(g, n);
      assert t in Elements(Neighbours(g, n));
    }
  }

  /** The entries added for the head's new neighbours are one hop further out. */
  lemma AddedHops(g: Adjacency, src: Node, bound: nat, visited: set<Node>,
                  next: seq<Node>, node: Node, depth: nat, e: Tagged)
    requires node in Level(g, {src}, depth) && Levels(g, {src}, 0, depth + 1) <= visited
    requires forall t :: t in next ==> t in Neighbours(g, node) && t !in visited
    requires e in Tag(next, depth + 1)
    ensures e.hops == depth + 1 && e.node in Level(g, {src}, depth + 1) && e.node !in Levels(g, {src}, 0, depth + 1)
  {
    assert e.node in next;
  }

  lemma ExpandKeepsHops(g: Adjacency, src: Node, bound: nat, visited: set<Node>,
                        queue: seq<Tagged>, next: seq<Node>, node: Node, depth: nat)
    requires queue != [] && queue[0] == Tagged(node, depth) && LeastHops(g, src, bound, queue, depth)
    requires depth < bound && Levels(g, {src}, 0, depth + 1) <= visited
    requires forall t :: t in next ==> t in Neighbours(g, node) && t !in visited
    ensures LeastHops(g, src, bound, queue[1..] + Tag(next, depth + 1), depth)
  {
    assert queue[0] in queue;
    var added := Tag(next, depth + 1);
    forall i | 0 <= i < |queue| ensures queue[i].hops <= depth + 1 {
      assert queue[i] in queue;
    }
    forall e | e in queue[1..] + added ensures IsLeast(g, src, bound, e, depth) {
      if e in queue[1..] {
        assert e in queue;
      } else {
        AddedHops(g, src, bound, visited, next, node, depth, e);
      }
    }
  }

  lemma ExpandKeepsSearched(g: Adjacency, src: Node, dst: Node, bound: nat, visited: set<Node>,
                            queued: set<Node>, queued': set<Node>, done: set<Node>, n: Node, next: set<Node>)
    requires Searched(g, src, dst, bound, visited, queued, done)
    requires dst !in Neighbours(g, n) && Elements(Neighbours(g, n)) <= visited + next
    requires queued <= queued' + {n} && next <= queued'
    ensures Searched(g, src, dst, bound, visited + next, queued', done + {n})
  {
    assert dst !in Elements(Neighbours(g, n));
  }

  lemma SkipKeepsSearched(g: Adjacency, src: Node, dst: Node, bound: nat, visited: set<Node>,
                          queued: set<Node>, queued': set<Node>, done: set<Node>, n: Node)
    requires Searched(g, src, dst, bound, visited, queued, done)
    requires queued <= queued' + {n} && n !in Levels(g, {src}, 0, bound)
    ensures Searched(g, src, dst, bound, visited, queued', done)
  {
  }

  lemma QueueNodes(queue: seq<Tagged>, added: seq<Tagged>)
    requires queue != []
    ensures Nodes(queue) <= Nodes(queue[1..] + added) + {queue[0].node}
    ensures Nodes(added) <= Nodes(queue[1..] + added)
  {
    AppendNodes(queue[1..], added);
  }

  /** Taking the head off and queueing what it leads to. */
  lemma ExpandKeeps(g: Adjacency, src: Node, dst: Node, bound: nat, visited: set<Node>,
                    queue: seq<Tagged>, done: set<Node>, next: seq<Node>, node: Node, depth: nat)
    requires queue != [] && queue[0] == Tagged(node, depth) && Searched(g, src, dst, bound, visited, Nodes(queue), done)
    requires dst !in Neighbours(g, node) && Elements(Neighbours(g, node)) <= visited + Elements(next)
    ensures var queue' := queue[1..] + Tag(next, depth + 1);
            Searched(g, src, dst, bound, visited + Elements(next), Nodes(queue'), done + {node})
  {
    var added := Tag(next, depth + 1);
    QueueNodes(queue, added);
    TagNodes(next, depth + 1);
    var queued' := Nodes(queue[1..] + added);
    ExpandKeepsSearched(g, src, dst, bound, visited, Nodes(queue), queued', done, node, Elements(next));
  }

  lemma TailHops(g: Adjacency, src: Node, bound: nat, queue: seq<Tagged>, cur: nat)
    requires queue != [] && LeastHops(g, src, bound, queue, cur)
    ensures LeastHops(g, src, bound, queue[1..], cur)
  {
    assert forall e :: e in queue[1..] ==> e in queue;
  }

  /** An entry at the bound is dropped: its node is too far away to matter. */
  lemma SkipKeeps(g: Adjacency, src: Node, dst: Node, bound: nat,
                  visited: set<Node>, queue: seq<Tagged>, done: set<Node>)
    requires queue != [] && LeastHops(g, src, bound, queue, queue[0].hops) && queue[0].hops >= bound
    requires Searched(g, src, dst, bound, visited, Nodes(queue), done)
    ensures LeastHops(g, src, bound, queue[1..], queue[0].hops)
    ensures Searched(g, src, dst, bound, visited, Nodes(queue[1..]), done)
  {
    assert queue[0] in queue;
    assert queue[0].hops == bound;
    TailHops(g, src, bound, queue, queue[0].hops);
    QueueNodes(queue, []);
    assert queue[1..] + [] == queue[1..];
    SkipKeepsSearched(g, src, dst, bound, visited, Nodes(queue), Nodes(queue[1..]), done, queue[0].node);
  }

  /** The search has seen everything within cur hops. */
  ghost predicate SearchInv(g: Adjacency, src: Node, dst: Node, bound: nat, visited: set<Node>,
                            queue: seq<Tagged>, done: set<Node>, cur: nat) {
    && src in visited && cur <= bound && Levels(g, {src}, 0, cur + 1) <= visited
    && LeastHops(g, src, bound, queue, cur) && Searched(g, src, dst, bound, visited, Nodes(queue), done)
  }

  lemma SearchStarts(g: Adjacency, src: Node, dst: Node, bound: nat)
    ensures SearchInv(g, src, dst, bound, {src}, [Tagged(src, 0)], {}, 0)
  {
    assert Tagged(src, 0) in [Tagged(src, 0)];
    assert Levels(g, {src}, 0, 1) == Levels(g, {src}, 0, 0) + {src};
  }

  lemma HopsFromHead(g: Adjacency, src: Node, bound: nat, queue: seq<Tagged>, cur: nat, depth: nat)
    requires queue != [] && queue[0].hops == depth && LeastHops(g, src, bound, queue, cur)
    ensures LeastHops(g, src, bound, queue, depth) && cur <= depth <= cur + 1 && depth <= bound
  {
    assert queue[0] in queue;
    forall e | e in queue ensures depth <= e.hops {
      var i :| 0 <= i < |queue| && queue[i] == e;
      assert queue[0].hops <= queue[i].hops;
    }
  }

  lemma AtHead(g: Adjacency, src: Node, dst: Node, bound: nat, visited: set<Node>,
               queue: seq<Tagged>, done: set<Node>, cur: nat, depth: nat)
    requires queue != [] && queue[0].hops == depth && SearchInv(g, src, dst, bound, visited, queue, done, cur)
    ensures SearchInv(g, src, dst, bound, visited, queue, done, depth)
  {
    HopsFromHead(g, src, bound, queue, cur, depth);
    if depth == cur + 1 {
      NextLevelSeen(g, src, dst, bound, visited, queue, done, cur);
    }
  }

  /** Some walk of k hops leads from src to dst, and no shorter one that is not empty. */
  predicate IsShortest(g: Adjacency, src: Node, dst: Node, k: nat) {
    dst in Level(g, {src}, k) && dst !in Levels(g, {src}, 1, k)
  }

  lemma SkipStep(g: Adjacency, src: Node, dst: Node, bound: nat, visited: set<Node>,
                 queue: seq<Tagged>, done: set<Node>, node: Node, depth: nat)
    requires queue != [] && queue[0] == Tagged(node, depth) && depth >= bound
    requires SearchInv(g, src, dst, bound, visited, queue, done, depth)
    ensures SearchInv(g, src, dst, bound, visited, queue[1..], done, depth)
  {
    SkipKeeps(g, src, dst, bound, visited, queue, done);
    assert depth == queue[0].hops;
  }

  lemma FoundStep(g: Adjacency, src: Node, dst: Node, bound: nat, visited: set<Node>,
                  queue: seq<Tagged>, done: set<Node>, node: Node, depth: nat)
    requires queue != [] && queue[0] == Tagged(node, depth) && dst in Neighbours(g, node)
    requires SearchInv(g, src, dst, bound, visited, queue, done, depth)
    ensures IsShortest(g, src, dst, depth + 1)
  {
    assert queue[0] in queue;
    LevelsMonotone(g, {src}, 0, depth, depth + 1);
    TargetNotNearer(g, src, dst, bound, visited, queue, done, depth);
  }

  lemma ExpandStep(g: Adjacency, src: Node, dst: Node, bound: nat, visited: set<Node>,
                   queue: seq<Tagged>, done: set<Node>, node: Node, depth: nat)
    requires queue != [] && queue[0] == Tagged(node, depth) && depth < bound && dst !in Neighbours(g, node)
    requires SearchInv(g, src, dst, bound, visited, queue, done, depth)
    ensures var next := Fresh(Neighbours(g, node), visited);
            var queue' := queue[1..] + Tag(next, depth + 1);
            SearchInv(g, src, dst, bound, visited + Elements(next), queue', done + {node}, depth)
  {
    var next := Fresh(Neighbours(g, node), visited);
    assert forall t :: t in next ==> t in Elements(next);
    ExpandKeepsHops(g, src, bound, visited, queue, next, node, depth);
    ExpandKeeps(g, src, dst, bound, visited, queue, done, next, node, depth);
  }

  /** What one turn of the loop makes of the head of the queue. */
  lemma Turn(g: Adjacency, src: Node, dst: Node, bound: nat, visited: set<Node>,
             queue: seq<Tagged>, done: set<Node>, cur: nat, node: Node, depth: nat)
    requires queue != [] && queue[0] == Tagged(node, depth)
    requires SearchInv(g, src, dst, bound, visited, queue, done, cur)
    ensures depth >= bound ==> SearchInv(g, src, dst, bound, visited, queue[1..], done, depth)
    ensures depth < bound && dst in Neighbours(g, node) ==> IsShortest(g, src, dst, depth + 1)
    ensures var next := Fresh(Neighbours(g, node), visited);
            var queue' := queue[1..] + Tag(next, depth + 1);
            depth < bound && dst !in Neighbours(g, node) ==>
              SearchInv(g, src, dst, bound, visited + Elements(next), queue', done + {node}, depth)
  {
    AtHead(g, src, dst, bound, visited, queue, done, cur, depth);
    if depth >= bound {
      SkipStep(g, src, dst, bound, visited, queue, done, node, depth);
    } else if dst in Neighbours(g, node) {
      FoundStep(g, src, dst, bound, visited, queue, done, node, depth);
    } else {
      ExpandStep(g, src, dst, bound, visited, queue, done, node, depth);
    }
  }

  /** The length of the shortest non-empty walk from src to dst, if it is at most the bound. */
  method BfsShortestPath(g: Adjacency, src: Node, dst: Node, bound: nat) returns (hops: Option<nat>)
    ensures hops.Some? ==> 1 <= hops.value <= bound && IsShortest(g, src, dst, hops.value)
    ensures hops.None? ==> dst !in Levels(g, {src}, 1, bound + 1)
  {
    var visited, queue := {src}, [Tagged(src, 0)];
    ghost var done: set<Node>, cur: nat := {}, 0;
    ghost var u := Universe(g, src);
    SearchStarts(g, src, dst, bound);
    while queue != []
      invariant visited <= u && SearchInv(g, src, dst, bound, visited, queue, done, cur)
      decreases |u - visited| + |queue|
    {
      var node, depth := queue[0].node, queue[0].hops;
      Turn(g, src, dst, bound, visited, queue, done, cur, node, depth);
      cur := depth;
      if depth >= bound {
        queue := queue[1..];
        continue;
      }
      QueueShrinks(g, src, node, visited);
      var found, visited', queue' := ExpandNode(g, node, depth, dst, visited, queue[1..]);
      if found {
        return Some(depth + 1);
      }
      done := done + {node};
      visited, queue := visited', queue';
    }
    hops := None;
    EmptyQueue(g, src, dst, bound, visited, done, bound);
  }

  /** Each newly visited node leaves the unvisited part of the universe for the queue. */
  lemma QueueShrinks(g: Adjacency, src: Node, node: Node, visited: set<Node>)
    requires visited <= Universe(g, src)
    ensures var u, next := Universe(g, src), Fresh(Neighbours(g, node), visited);
            visited + Elements(next) <= u && |u - (visited + Elements(next))| + |next| == |u - visited|
  {
    var next := Fresh(Neighbours(g, node), visited);
    forall t | t in Elements(next) ensures t in Universe(g, src) {
      UniverseClosed(g, src, node, t);
    }
    DistinctSize(next);
    SplitSize(Universe(g, src), visited, Elements(next));
  }

  lemma SplitSize(u: set<Node>, v: set<Node>, e: set<Node>)
    requires e <= u && e * v == {}
    ensures |u - (v + e)| + |e| == |u - v|
  {
    assert u - v == (u - (v + e)) + e;
  }

  lemma {:induction false} DistinctSize(s: seq<Node>)
    requires NoDuplicates(s)
    ensures |Elements(s)| == |s|
  {
    if s != [] {
      DistinctSize(s[1..]);
      assert Elements(s) == {s[0]} + Elements(s[1..]);
    }
  }
}
