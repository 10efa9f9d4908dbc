/**
 The breadth-first traversals: the benchmark's from one start, and the request handler's from
 several starts with the neighbour lists of a level fetched concurrently.
 */
module Traversal {
  import opened Walks

  function Elements(s: seq<Node>): set<Node> {
    set n | n in s
  }

  predicate NoDuplicates(s: seq<Node>) {
    forall i, j :: 0 <= i < j < |s| ==> s[i] != s[j]
  }

  function Flatten(lists: seq<seq<Node>>): seq<Node> {
    if lists == [] then [] else lists[0] + Flatten(lists[1..])
  }

  /** The elements not visited yet, each once, in order of first occurrence. */
  function Fresh(list: seq<Node>, visited: set<Node>): (r: seq<Node>)
    ensures NoDuplicates(r) && Elements(r) == Elements(list) - visited
    decreases |list|
  {
    if list == [] then []
    else if list[0] in visited then Fresh(list[1..], visited)
    else
      var rest := Fresh(list[1..], visited + {list[0]});
      assert Elements(list) == {list[0]} + Elements(list[1..]);
      assert Elements([list[0]] + rest) == {list[0]} + Elements(rest);
      assert list[0] !in Elements(rest);
      [list[0]] + rest
  }

  /** Serial expansion of one level: two nested loops over the fetched lists. */
  method Expand(lists: seq<seq<Node>>, visited0: set<Node>) returns (visited: set<Node>, next: seq<Node>)
    ensures next == Fresh(Flatten(lists), visited0) && visited == visited0 + Elements(next)
  {
    visited, next := visited0, [];
    for i := 0 to |lists|
      invariant next + Fresh(Flatten(lists[i..]), visited) == Fresh(Flatten(lists), visited0)
      invariant visited == visited0 + Elements(next)
    {
      var list, later := lists[i], Flatten(lists[i + 1..]);
      assert lists[i..][0] == list && lists[i..][1..] == lists[i + 1..];
      visited, next := ExpandList(list, later, visited0, visited, next);
    }
  }

  method ExpandList(list: seq<Node>, ghost later: seq<Node>, ghost visited0: set<Node>, v: set<Node>, n: seq<Node>)
    returns (visited: set<Node>, next: seq<Node>)
    requires v == visited0 + Elements(n)
    ensures visited == visited0 + Elements(next)
    ensures next + Fresh(later, visited) == n + Fresh(list + later, v)
  {
    visited, next := v, n;
    for j := 0 to |list|
      invariant visited == visited0 + Elements(next)
      invariant next + Fresh(list[j..] + later, visited) == n + Fresh(list + later, v)
    {
      var target := list[j];
      assert (list[j..] + later)[0] == target && (list[j..] + later)[1..] == list[j + 1..] + later;
      if target !in visited {
        visited := visited + {target};
        next := next + [target];
      }
    }
    assert list[|list|..] + later == later;
  }

  /** A node is never listed before one that fewer hops reach. */
  ghost predicate InHopOrder(g: Adjacency, starts: set<Node>, lo: nat, reached: seq<Node>) {
    forall i, j, k: nat :: 0 <= i < j < |reached| && lo <= k && reached[j] in Level(g, starts, k) ==>
      reached[i] in Levels(g, starts, lo, k + 1)
  }

  /** The ends of the walks of lo to hi - 1 edges, each once, none before a nearer one. */
  ghost predicate IsTraversal(g: Adjacency, starts: set<Node>, lo: nat, hi: nat, reached: seq<Node>) {
    Elements(reached) == Levels(g, starts, lo, hi) && NoDuplicates(reached) && InHopOrder(g, starts, lo, reached)
  }

  lemma NotEarlier(g: Adjacency, starts: set<Node>, lo: nat, k: nat, m: nat, earlier: Node, later: Node)
    requires earlier in Levels(g, starts, lo, k + 1)
    requires later !in Levels(g, starts, lo, k) && lo <= m && later in Level(g, starts, m)
    ensures earlier in Levels(g, starts, lo, m + 1)
  {
    if m < k { LevelWithin(g, starts, lo, k, m, later); }
    LevelsMonotone(g, starts, lo, k + 1, m + 1);
  }

  lemma HopOrderStep(g: Adjacency, starts: set<Node>, lo: nat, k: nat, reached: seq<Node>, next: seq<Node>)
    requires InHopOrder(g, starts, lo, reached)
    requires forall n :: n in reached || n in next ==> n in Levels(g, starts, lo, k + 1)
    requires forall n :: n in next ==> n !in Levels(g, starts, lo, k)
    ensures InHopOrder(g, starts, lo, reached + next)
  {
    var all := reached + next;
    forall i, j, m: nat | 0 <= i < j < |all| && lo <= m && all[j] in Level(g, starts, m)
      ensures all[i] in Levels(g, starts, lo, m + 1)
    {
      if j >= |reached| {
        assert all[j] in next && (all[i] in reached || all[i] in next);
        NotEarlier(g, starts, lo, k, m, all[i], all[j]);
      }
    }
  }

  lemma ExploredStep(g: Adjacency, starts: set<Node>, lo: nat, k: nat, reached: seq<Node>, next: seq<Node>)
    requires IsTraversal(g, starts, lo, k, reached) && lo <= k
    requires NoDuplicates(next) && Elements(next) == Level(g, starts, k) - Levels(g, starts, lo, k)
    ensures IsTraversal(g, starts, lo, k + 1, reached + next)
  {
    assert forall n :: n in reached <==> n in Elements(reached);
    assert forall n :: n in next <==> n in Elements(next);
    HopOrderStep(g, starts, lo, k, reached, next);
    assert Elements(reached + next) == Elements(reached) + Elements(next);
    assert NoDuplicates(reached + next) by {
      assert forall i, j :: 0 <= i < |reached| && 0 <= j < |next| ==> reached[i] in reached && next[j] in next;
    }
  }

  /** The neighbour lists of a frontier, in the order in which the fetches completed. */
  predicate Fetched(g: Adjacency, frontier: seq<Node>, lists: seq<seq<Node>>) {
    Elements(Flatten(lists)) == NeighboursOf(g, Elements(frontier))
  }

  function Lists(g: Adjacency, frontier: seq<Node>): seq<seq<Node>> {
    seq(|frontier|, i requires 0 <= i < |frontier| => Neighbours(g, frontier[i]))
  }

  lemma {:induction false} ListsAreFetched(g: Adjacency, frontier: seq<Node>)
    ensures Fetched(g, frontier, Lists(g, frontier))
  {
    if frontier != [] {
      ListsAreFetched(g, frontier[1..]);
      assert Lists(g, frontier)[1..] == Lists(g, frontier[1..]);
      assert Elements(frontier) == {frontier[0]} + Elements(frontier[1..]);
      assert Elements(Flatten(Lists(g, frontier))) ==
             Elements(Neighbours(g, frontier[0])) + Elements(Flatten(Lists(g, frontier[1..])));
    }
  }

  /** The state of a traversal after k levels: `frontier` is what level k brought. */
  ghost predicate AtLevel(g: Adjacency, starts: set<Node>, lo: nat, k: nat,
                          visited: set<Node>, reached: seq<Node>, frontier: seq<Node>) {
    && visited == Elements(reached) && IsTraversal(g, starts, lo, k + 1, reached)
    && Elements(frontier) == Level(g, starts, k) - Levels(g, starts, lo, k)
  }

  /** Expanding the frontier and keeping what is new takes the traversal one level further. */
  lemma LevelTurn(g: Adjacency, starts: set<Node>, lo: nat, k: nat, visited: set<Node>,
                  reached: seq<Node>, frontier: seq<Node>, lists: seq<seq<Node>>, next: seq<Node>)
    requires lo <= 1 && AtLevel(g, starts, lo, k, visited, reached, frontier)
    requires Fetched(g, frontier, lists) && next == Fresh(Flatten(lists), visited)
    ensures AtLevel(g, starts, lo, k + 1, visited + Elements(next), reached + next, next)
  {
    NextFrontier(g, starts, lo, k);
    assert Elements(next) == Level(g, starts, k + 1) - Levels(g, starts, lo, k + 1);
    ExploredStep(g, starts, lo, k + 1, reached, next);
    assert Elements(reached + next) == Elements(reached) + Elements(next);
  }

  lemma NothingNew(g: Adjacency, starts: set<Node>, lo: nat, k: nat)
    requires Elements([]) == Level(g, starts, k) - Levels(g, starts, lo, k)
    ensures Level(g, starts, k) <= Levels(g, starts, lo, k)
  {
    forall t | t in Level(g, starts, k) ensures t in Levels(g, starts, lo, k) {
      assert t !in Elements([]);
    }
  }

  /** A level that brings nothing new ends the traversal. */
  lemma LastLevel(g: Adjacency, starts: set<Node>, lo: nat, k: nat, hi: nat, visited: set<Node>, reached: seq<Node>)
    requires AtLevel(g, starts, lo, k, visited, reached, []) && k < hi && (lo == 0 ==> k >= 1) && lo <= 1
    ensures IsTraversal(g, starts, lo, hi, reached)
  {
    NothingNew(g, starts, lo, k);
    if k == 0 {
      assert starts == {};
      NoStarts(g, 1, hi);
      NoStarts(g, 1, 1);
    } else {
      Saturated(g, starts, lo, k, hi);
      Saturated(g, starts, lo, k, k + 1);
    }
  }

  // ---------------------------------------------------------------------------
  // bfs_traverse
  // ---------------------------------------------------------------------------

  lemma StartsAtLevel(g: Adjacency, start: Node)
    ensures AtLevel(g, {start}, 0, 0, {start}, [start], [start])
  {
    assert Levels(g, {start}, 0, 1) == Levels(g, {start}, 0, 0) + {start};
  }

  method BfsTraverse(g: Adjacency, start: Node, depth: nat) returns (result: seq<Node>)
    ensures IsTraversal(g, {start}, 0, depth + 1, result)
  {
    var visited, frontier := {start}, [start];
    result := [start];
    StartsAtLevel(g, start);
    for k := 0 to depth
      invariant AtLevel(g, {start}, 0, k, visited, result, frontier)
    {
      var lists := Lists(g, frontier);
      var visited', next := Expand(lists, visited);
      ListsAreFetched(g, frontier);
      LevelTurn(g, {start}, 0, k, visited, result, frontier, lists, next);
      if next == [] {
        assert result + next == result && visited + Elements(next) == visited;
        LastLevel(g, {start}, 0, k + 1, depth + 1, visited, result);
        return;
      }
      visited, result, frontier := visited', result + next, next;
    }
  }

  // ---------------------------------------------------------------------------
  // local_bfs
  // ---------------------------------------------------------------------------

  ghost predicate InSomeOrder(g: Adjacency, frontier: seq<Node>, lists: seq<seq<Node>>) {
    exists order :: multiset(order) == multiset(frontier) && lists == Lists(g, order)
  }

  /** The concurrent fetches of one level: `pick` chooses which pending fetch completes next. */
  method FetchUnordered(g: Adjacency, frontier: seq<Node>, pick: nat -> nat) returns (lists: seq<seq<Node>>)
    ensures InSomeOrder(g, frontier, lists) && Fetched(g, frontier, lists)
  {
    ghost var order: seq<Node> := [];
    lists := [];
    var pending := frontier;
    while pending != []
      invariant multiset(order) + multiset(pending) == multiset(frontier)
      invariant lists == Lists(g, order)
      decreases |pending|
    {
      var i := pick(|pending|) % |pending|;
      var n := pending[i];
      assert pending == pending[..i] + [n] + pending[i + 1..];
      lists := lists + [Neighbours(g, n)];
      order := order + [n];
      pending := pending[..i] + pending[i + 1..];
    }
    SameElements(order, frontier);
    ListsAreFetched(g, order);
  }

  /** Whatever order the fetches of each level complete in (`pick(level)`), the result is the
      ends of the walks of 1 to maxDepth edges, each once, in order of hop distance. A start
      is among them exactly when such a walk leads back to it. */
  method LocalBfs(g: Adjacency, starts: seq<Node>, maxDepth: nat, pick: nat -> nat -> nat) returns (reached: seq<Node>)
    ensures IsTraversal(g, Elements(starts), 1, maxDepth + 1, reached)
  {
    ghost var s := Elements(starts);
    var visited: set<Node>, frontier := {}, starts;
    reached := [];
    for k := 0 to maxDepth
      invariant AtLevel(g, s, 1, k, visited, reached, frontier)
    {
      if frontier == [] {
        LastLevel(g, s, 1, k, maxDepth + 1, visited, reached);
        return;
      }
      var lists := FetchUnordered(g, frontier, pick(k));
      var visited', next := Expand(lists, visited);
      LevelTurn(g, s, 1, k, visited, reached, frontier, lists, next);
      visited, reached, frontier := visited', reached + next, next;
    }
  }

  lemma SameElements(a: seq<Node>, b: seq<Node>)
    requires multiset(a) == multiset(b)
    ensures Elements(a) == Elements(b)
  {
    forall n ensures n in a <==> n in b {
      assert n in multiset(a) <==> n in multiset(b);
    }
  }
}
