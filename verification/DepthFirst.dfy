/**
 The benchmark's depth-first traversal. `Dfs` is the traversal as a function of its stack;
 the method runs the same stack in a loop. What it returns depends on the order in which
 neighbours are listed, and below the node count it can miss nodes that are near enough.
 */
module DepthFirst {
  import opened Walks
  import opened Traversal
  import opened PathSearch

  datatype Search = Search(stack: seq<Tagged>, visited: set<Node>)

  function Top(s: Search): Tagged
    requires s.stack != []
  {
    s.stack[|s.stack| - 1]
  }

  function Popped(s: Search): Search
    requires s.stack != []
  {
    s.(stack := s.stack[..|s.stack| - 1])
  }

  /** The unvisited neighbours, each as often as it is listed. */
  function Unvisited(edges: seq<Node>, visited: set<Node>): (r: seq<Node>)
    ensures Elements(r) == Elements(edges) - visited
  {
    if edges == [] then []
    else
      assert Elements(edges) == {edges[0]} + Elements(edges[1..]);
      var rest := Unvisited(edges[1..], visited);
      if edges[0] in visited then rest
      else
        assert Elements([edges[0]] + rest) == {edges[0]} + Elements(rest);
        [edges[0]] + rest
  }

  /** What the top of the stack pushes when it is visited. */
  function Pushed(g: Adjacency, s: Search, bound: nat): seq<Tagged>
    requires s.stack != []
  {
    var e := Top(s);
    if e.hops >= bound then [] else Tag(Unvisited(Neighbours(g, e.node), s.visited + {e.node}), e.hops + 1)
  }

  /** One iteration: take the top off, and if its node is new, visit it and push its edges. */
  function Step(g: Adjacency, s: Search, bound: nat): Search
    requires s.stack != []
  {
    var e := Top(s);
    if e.node in s.visited then Popped(s)
    else Search(Popped(s).stack + Pushed(g, s, bound), s.visited + {e.node})
  }

  /** The node the iteration adds to the result, if any. */
  function Emitted(s: Search): seq<Node>
    requires s.stack != []
  {
    if Top(s).node in s.visited then [] else [Top(s).node]
  }

  /** The search stays in a set of nodes that no edge leaves. */
  predicate Inside(g: Adjacency, u: set<Node>, s: Search) {
    NeighboursOf(g, u) <= u && forall e :: e in s.stack ==> e.node in u
  }

  lemma PushedNodes(g: Adjacency, s: Search, bound: nat)
    requires s.stack != []
    ensures forall e :: e in Pushed(g, s, bound) ==>
              e.node in Neighbours(g, Top(s).node) && e.hops == Top(s).hops + 1 && Top(s).hops < bound
    ensures Top(s).hops < bound ==>
              Elements(Neighbours(g, Top(s).node)) <= s.visited + {Top(s).node} + Nodes(Pushed(g, s, bound))
  {
    var e := Top(s);
    if e.hops < bound {
      var added := Unvisited(Neighbours(g, e.node), s.visited + {e.node});
      forall x | x in Pushed(g, s, bound) ensures x.node in Neighbours(g, e.node) && x.hops == e.hops + 1 {
        assert x.node in Elements(added);
      }
      TagNodes(added, e.hops + 1);
    }
  }

  lemma StepInside(g: Adjacency, u: set<Node>, s: Search, bound: nat)
    requires s.stack != [] && Inside(g, u, s)
    ensures Inside(g, u, Step(g, s, bound)) && Top(s).node in u
  {
    assert Top(s) in s.stack;
    assert forall e :: e in Popped(s).stack ==> e in s.stack;
    PushedNodes(g, s, bound);
    forall e | e in Pushed(g, s, bound) ensures e.node in u {
      assert e.node in NeighboursOf(g, u);
    }
  }

  lemma LessUnvisited(u: set<Node>, visited: set<Node>, n: Node)
    requires n in u && n !in visited
    ensures |u - (visited + {n})| < |u - visited|
  {
    assert u - visited == (u - (visited + {n})) + {n};
  }

  /** Each iteration either visits one more node or shortens the stack. */
  lemma StepDecreases(g: Adjacency, u: set<Node>, s: Search, bound: nat)
    requires s.stack != [] && Inside(g, u, s)
    ensures var s' := Step(g, s, bound);
            |u - s'.visited| < |u - s.visited| || (s'.visited == s.visited && |s'.stack| < |s.stack|)
  {
    assert Top(s) in s.stack;
    if Top(s).node !in s.visited {
      LessUnvisited(u, s.visited, Top(s).node);
    }
  }

  function Dfs(g: Adjacency, u: set<Node>, s: Search, bound: nat): seq<Node>
    requires Inside(g, u, s)
    decreases |u - s.visited|, |s.stack|
  {
    if s.stack == [] then []
    else
      StepInside(g, u, s, bound);
      StepDecreases(g, u, s, bound);
      Emitted(s) + Dfs(g, u, Step(g, s, bound), bound)
  }

  function Initial(start: Node): Search {
    Search([Tagged(start, 0)], {})
  }

  lemma InitialInside(g: Adjacency, start: Node)
    ensures Inside(g, Universe(g, start), Initial(start))
  {
    forall t | t in NeighboursOf(g, Universe(g, start)) ensures t in Universe(g, start) {
      var n :| n in Universe(g, start) && t in Neighbours(g, n);
      UniverseClosed(g, start, n, t);
    }
  }

  function DfsFrom(g: Adjacency, start: Node, bound: nat): seq<Node> {
    InitialInside(g, start);
    Dfs(g, Universe(g, start), Initial(start), bound)
  }

  method DfsTraverse(g: Adjacency, start: Node, bound: nat) returns (result: seq<Node>)
    ensures result == DfsFrom(g, start, bound)
  {
    InitialInside(g, start);
    ghost var u := Universe(g, start);
    result := Loop(g, u, [Tagged(start, 0)], bound);
  }

  method Loop(g: Adjacency, ghost u: set<Node>, start: seq<Tagged>, bound: nat) returns (result: seq<Node>)
    requires Inside(g, u, Search(start, {}))
    ensures result == Dfs(g, u, Search(start, {}), bound)
  {
    var visited: set<Node>, stack := {}, start;
    result := [];
    while stack != []
      invariant Inside(g, u, Search(stack, visited))
      invariant result + Dfs(g, u, Search(stack, visited), bound) == Dfs(g, u, Search(start, {}), bound)
      decreases |u - visited|, |stack|
    {
      StepDfs(g, u, Search(stack, visited), bound, result);
      StepDecreases(g, u, Search(stack, visited), bound);
      var emitted;
      stack, visited, emitted := Iterate(g, stack, visited, bound);
      result := result + emitted;
    }
  }

  lemma StepDfs(g: Adjacency, u: set<Node>, s: Search, bound: nat, result: seq<Node>)
    requires s.stack != [] && Inside(g, u, s)
    ensures var s' := Step(g, s, bound);
            Inside(g, u, s') && result + Dfs(g, u, s, bound) == (result + Emitted(s)) + Dfs(g, u, s', bound)
  {
    StepInside(g, u, s, bound);
    var rest := Dfs(g, u, Step(g, s, bound), bound);
    assert Dfs(g, u, s, bound) == Emitted(s) + rest;
    assert result + (Emitted(s) + rest) == (result + Emitted(s)) + rest;
  }

  lemma StepCases(g: Adjacency, s: seq<Tagged>, v: set<Node>, bound: nat)
    requires s != []
    ensures var e, rest := s[|s| - 1], s[..|s| - 1];
            Step(g, Search(s, v), bound) ==
            if e.node in v then Search(rest, v)
            else if e.hops >= bound then Search(rest, v + {e.node})
            else Search(rest + Tag(Unvisited(Neighbours(g, e.node), v + {e.node}), e.hops + 1), v + {e.node})
  {
    assert s[..|s| - 1] + [] == s[..|s| - 1];
  }

  method Iterate(g: Adjacency, s: seq<Tagged>, v: set<Node>, bound: nat)
    returns (stack: seq<Tagged>, visited: set<Node>, emitted: seq<Node>)
    requires s != []
    ensures Search(stack, visited) == Step(g, Search(s, v), bound) && emitted == Emitted(Search(s, v))
  {
    var e := s[|s| - 1];
    stack, visited, emitted := s[..|s| - 1], v, [];
    if e.node !in visited {
      visited := visited + {e.node};
      emitted := [e.node];
      if e.hops < bound {
        stack := PushEdges(Neighbours(g, e.node), visited, stack, e.hops + 1);
      }
    }
    StepCases(g, s, v, bound);
  }

  /** One edge of the loop: skipped when visited, pushed otherwise. */
  lemma PushOne(edges: seq<Node>, visited: set<Node>, stack: seq<Tagged>, hops: nat)
    requires edges != []
    ensures var pushed := if edges[0] in visited then stack else stack + [Tagged(edges[0], hops)];
            stack + Tag(Unvisited(edges, visited), hops) == pushed + Tag(Unvisited(edges[1..], visited), hops)
  {
    var rest := Unvisited(edges[1..], visited);
    if edges[0] !in visited {
      assert Tag([edges[0]] + rest, hops) == [Tagged(edges[0], hops)] + Tag(rest, hops);
    }
  }

  method PushEdges(edges: seq<Node>, visited: set<Node>, s: seq<Tagged>, hops: nat) returns (stack: seq<Tagged>)
    ensures stack == s + Tag(Unvisited(edges, visited), hops)
  {
    stack := s;
    for i := 0 to |edges|
      invariant stack + Tag(Unvisited(edges[i..], visited), hops) == s + Tag(Unvisited(edges, visited), hops)
    {
      PushOne(edges[i..], visited, stack, hops);
      assert edges[i..][1..] == edges[i + 1..];
      if edges[i] !in visited {
        stack := stack + [Tagged(edges[i], hops)];
      }
    }
  }

  // ---------------------------------------------------------------------------
  // Each node once, and only near ones
  // ---------------------------------------------------------------------------

  lemma PrependDistinct(a: seq<Node>, rest: seq<Node>)
    requires |a| <= 1 && NoDuplicates(rest) && Elements(rest) * Elements(a) == {}
    ensures NoDuplicates(a + rest) && Elements(a + rest) == Elements(a) + Elements(rest)
  {
    forall j | 0 <= j < |rest| && a != [] ensures rest[j] != a[0] {
      assert rest[j] !in Elements(rest) * Elements(a);
      assert rest[j] in Elements(rest);
    }
  }

  lemma StepVisits(g: Adjacency, s: Search, bound: nat)
    requires s.stack != []
    ensures Step(g, s, bound).visited == s.visited + Elements(Emitted(s)) && Elements(Emitted(s)) * s.visited == {}
    ensures |Emitted(s)| <= 1
  {
  }

  lemma {:induction false} DfsDistinct(g: Adjacency, u: set<Node>, s: Search, bound: nat)
    requires Inside(g, u, s)
    ensures NoDuplicates(Dfs(g, u, s, bound)) && Elements(Dfs(g, u, s, bound)) * s.visited == {}
    decreases |u - s.visited|, |s.stack|
  {
    if s.stack != [] {
      StepInside(g, u, s, bound);
      StepDecreases(g, u, s, bound);
      StepVisits(g, s, bound);
      DfsDistinct(g, u, Step(g, s, bound), bound);
      PrependDistinct(Emitted(s), Dfs(g, u, Step(g, s, bound), bound));
    }
  }

  /** The entry is tagged with the length of a walk that reaches it. */
  ghost predicate HopsAreWalk(g: Adjacency, start: Node, e: Tagged, bound: nat) {
    e.hops <= bound && e.node in Level(g, {start}, e.hops)
  }

  ghost predicate HopsAreWalks(g: Adjacency, start: Node, s: Search, bound: nat) {
    forall e :: e in s.stack ==> HopsAreWalk(g, start, e, bound)
  }

  lemma PushedHops(g: Adjacency, start: Node, s: Search, bound: nat, x: Tagged)
    requires s.stack != [] && HopsAreWalk(g, start, Top(s), bound) && x in Pushed(g, s, bound)
    ensures HopsAreWalk(g, start, x, bound)
  {
    PushedNodes(g, s, bound);
    NeighbourLevel(g, start, Top(s).hops, Top(s).node, x.node);
  }

  lemma StepHops(g: Adjacency, start: Node, s: Search, bound: nat)
    requires s.stack != [] && HopsAreWalks(g, start, s, bound)
    ensures HopsAreWalks(g, start, Step(g, s, bound), bound)
    ensures Elements(Emitted(s)) <= Levels(g, {start}, 0, bound + 1)
  {
    var e := Top(s);
    assert e in s.stack;
    LevelWithin(g, {start}, 0, bound + 1, e.hops, e.node);
    forall x | x in Step(g, s, bound).stack ensures HopsAreWalk(g, start, x, bound) {
      if x in Popped(s).stack {
        assert x in s.stack;
      } else {
        PushedHops(g, start, s, bound, x);
      }
    }
  }

  lemma NeighbourLevel(g: Adjacency, start: Node, k: nat, n: Node, t: Node)
    requires n in Level(g, {start}, k) && t in Neighbours(g, n)
    ensures t in Level(g, {start}, k + 1)
  {
  }

  lemma {:induction false} DfsWithin(g: Adjacency, u: set<Node>, start: Node, s: Search, bound: nat)
    requires Inside(g, u, s) && HopsAreWalks(g, start, s, bound)
    ensures Elements(Dfs(g, u, s, bound)) <= Levels(g, {start}, 0, bound + 1)
    decreases |u - s.visited|, |s.stack|
  {
    if s.stack != [] {
      StepInside(g, u, s, bound);
      StepDecreases(g, u, s, bound);
      StepHops(g, start, s, bound);
      DfsWithin(g, u, start, Step(g, s, bound), bound);
    }
  }

  /** The traversal lists each node once and nothing that breadth-first search to the same
      depth does not list. */
  lemma DfsSound(g: Adjacency, start: Node, bound: nat)
    ensures NoDuplicates(DfsFrom(g, start, bound))
    ensures Elements(DfsFrom(g, start, bound)) <= Levels(g, {start}, 0, bound + 1)
  {
    InitialInside(g, start);
    DfsDistinct(g, Universe(g, start), Initial(start), bound);
    DfsWithin(g, Universe(g, start), start, Initial(start), bound);
  }

  // ---------------------------------------------------------------------------
  // Everything, when the bound is at least the number of other nodes
  // ---------------------------------------------------------------------------

  /** No entry is deeper than the number of nodes visited before it, and edges of visited
      nodes lead to visited or stacked nodes. */
  predicate Thorough(g: Adjacency, u: set<Node>, s: Search) {
    && s.visited <= u && (forall e :: e in s.stack ==> e.hops <= |s.visited|)
    && NeighboursOf(g, s.visited) <= s.visited + Nodes(s.stack)
  }

  /** Either the node at the top may be expanded, or it is the last one to visit. */
  lemma TopIsShallow(u: set<Node>, s: Search, bound: nat)
    requires s.stack != [] && Top(s).node in u && Top(s).node !in s.visited && |u| <= bound + 1
    requires s.visited <= u && forall e :: e in s.stack ==> e.hops <= |s.visited|
    ensures |s.visited + {Top(s).node}| == |s.visited| + 1
    ensures Top(s).hops < bound || s.visited + {Top(s).node} == u
  {
    assert Top(s) in s.stack;
    var rest := u - (s.visited + {Top(s).node});
    assert u == s.visited + {Top(s).node} + rest;
    assert |rest| == 0 ==> rest == {};
  }

  lemma StackNodes(s: Search)
    requires s.stack != []
    ensures Nodes(s.stack) == Nodes(Popped(s).stack) + {Top(s).node}
  {
    AppendNodes(Popped(s).stack, [Top(s)]);
    assert s.stack == Popped(s).stack + [Top(s)];
  }

  /** An iteration forgets nothing: what was visited or stacked still is. */
  lemma StepKeepsAll(g: Adjacency, s: Search, bound: nat)
    requires s.stack != []
    ensures s.visited + Nodes(s.stack) <= Step(g, s, bound).visited + Nodes(Step(g, s, bound).stack)
  {
    StackNodes(s);
    AppendNodes(Popped(s).stack, Pushed(g, s, bound));
  }

  lemma StepCloses(g: Adjacency, s: Search, bound: nat)
    requires s.stack != [] && Top(s).hops < bound && Top(s).node !in s.visited
    requires NeighboursOf(g, s.visited) <= s.visited + Nodes(s.stack)
    ensures var s' := Step(g, s, bound); NeighboursOf(g, s'.visited) <= s'.visited + Nodes(s'.stack)
  {
    var s' := Step(g, s, bound);
    StepKeepsAll(g, s, bound);
    PushedNodes(g, s, bound);
    AppendNodes(Popped(s).stack, Pushed(g, s, bound));
    forall t | t in NeighboursOf(g, s'.visited) ensures t in s'.visited + Nodes(s'.stack) {
      var n :| n in s'.visited && t in Neighbours(g, n);
      if n in s.visited {
        assert t in NeighboursOf(g, s.visited);
      } else {
        assert t in Elements(Neighbours(g, n));
      }
    }
  }

  lemma StepThorough(g: Adjacency, u: set<Node>, s: Search, bound: nat)
    requires s.stack != [] && Inside(g, u, s) && Thorough(g, u, s) && |u| <= bound + 1
    ensures Thorough(g, u, Step(g, s, bound))
  {
    assert Top(s) in s.stack;
    assert forall e :: e in Popped(s).stack ==> e in s.stack;
    if Top(s).node in s.visited {
      StepKeepsAll(g, s, bound);
    } else {
      TopIsShallow(u, s, bound);
      PushedNodes(g, s, bound);
      if Top(s).hops < bound {
        StepCloses(g, s, bound);
      } else {
        assert Step(g, s, bound).visited == u;
      }
    }
  }

  lemma {:induction false} DfsComplete(g: Adjacency, u: set<Node>, s: Search, bound: nat)
    requires Inside(g, u, s) && Thorough(g, u, s) && |u| <= bound + 1
    ensures var all := s.visited + Elements(Dfs(g, u, s, bound));
            NeighboursOf(g, all) <= all && Nodes(s.stack) <= all
    decreases |u - s.visited|, |s.stack|
  {
    if s.stack == [] {
      assert s.visited + Elements([]) == s.visited;
    } else {
      var s' := Step(g, s, bound);
      StepInside(g, u, s, bound);
      StepDecreases(g, u, s, bound);
      StepThorough(g, u, s, bound);
      StepVisits(g, s, bound);
      StepKeepsAll(g, s, bound);
      DfsComplete(g, u, s', bound);
      AllGrows(g, u, s, bound);
    }
  }

  lemma AllGrows(g: Adjacency, u: set<Node>, s: Search, bound: nat)
    requires s.stack != [] && Inside(g, u, s) && Inside(g, u, Step(g, s, bound))
    ensures s.visited + Elements(Dfs(g, u, s, bound)) ==
            Step(g, s, bound).visited + Elements(Dfs(g, u, Step(g, s, bound), bound))
  {
    StepVisits(g, s, bound);
    var a, b := Emitted(s), Dfs(g, u, Step(g, s, bound), bound);
    assert Elements(a + b) == Elements(a) + Elements(b);
  }

  lemma {:induction false} ClosedHoldsLevels(g: Adjacency, start: Node, all: set<Node>, k: nat)
    requires start in all && NeighboursOf(g, all) <= all
    ensures Level(g, {start}, k) <= all
  {
    if k > 0 {
      ClosedHoldsLevels(g, start, all, k - 1);
      forall t | t in Level(g, {start}, k) ensures t in all {
        var n :| n in Level(g, {start}, k - 1) && t in Neighbours(g, n);
        assert t in NeighboursOf(g, all);
      }
    }
  }

  lemma DfsCloses(g: Adjacency, start: Node, bound: nat)
    requires |Universe(g, start)| <= bound + 1
    ensures var all := Elements(DfsFrom(g, start, bound)); start in all && NeighboursOf(g, all) <= all
  {
    InitialInside(g, start);
    assert NeighboursOf(g, {}) == {};
    DfsComplete(g, Universe(g, start), Initial(start), bound);
    var all := Elements(DfsFrom(g, start, bound));
    assert {} + all == all;
    assert Tagged(start, 0) in Initial(start).stack;
  }

  /** With a bound of at least the number of other nodes, exactly the reachable nodes are
      listed. */
  lemma DfsReachesAll(g: Adjacency, start: Node, bound: nat, t: Node)
    requires |Universe(g, start)| <= bound + 1
    ensures t in Elements(DfsFrom(g, start, bound)) <==> exists k: nat, w :: WalkTo(g, {start}, k, t, w)
  {
    var all := Elements(DfsFrom(g, start, bound));
    DfsSound(g, start, bound);
    DfsCloses(g, start, bound);
    if t in all {
      var k := FindLevel(g, {start}, 0, bound + 1, t);
      var w := LevelHasWalk(g, {start}, k, t);
    }
    forall k: nat, w | WalkTo(g, {start}, k, t, w) ensures t in all {
      WalkEndsInLevel(g, {start}, k, t, w);
      ClosedHoldsLevels(g, start, all, k);
    }
  }

  // ---------------------------------------------------------------------------
  // Which bounds serve every graph
  // ---------------------------------------------------------------------------

  /** The traversal lists what breadth-first search to the same depth lists. */
  predicate Served(g: Adjacency, start: Node, bound: nat) {
    Elements(DfsFrom(g, start, bound)) == Levels(g, {start}, 0, bound + 1)
  }

  lemma LargeBoundServes(g: Adjacency, start: Node, bound: nat)
    requires |Universe(g, start)| <= bound + 1
    ensures Served(g, start, bound)
  {
    DfsSound(g, start, bound);
    DfsCloses(g, start, bound);
    var all := Elements(DfsFrom(g, start, bound));
    forall t | t in Levels(g, {start}, 0, bound + 1) ensures t in all {
      var k := FindLevel(g, {start}, 0, bound + 1, t);
      ClosedHoldsLevels(g, start, all, k);
    }
  }

  /** Whatever is on the stack is listed in the end. */
  lemma {:induction false} StackIsListed(g: Adjacency, u: set<Node>, s: Search, bound: nat)
    requires Inside(g, u, s)
    ensures Nodes(s.stack) <= s.visited + Elements(Dfs(g, u, s, bound))
    decreases |u - s.visited|, |s.stack|
  {
    if s.stack != [] {
      StepInside(g, u, s, bound);
      StepDecreases(g, u, s, bound);
      StepKeepsAll(g, s, bound);
      StackIsListed(g, u, Step(g, s, bound), bound);
      AllGrows(g, u, s, bound);
    }
  }

  /** With a bound of 0 or 1 nothing is met at the end of a detour. */
  lemma SmallBoundServes(g: Adjacency, start: Node, bound: nat)
    requires bound <= 1
    ensures Served(g, start, bound)
  {
    var u, s := Universe(g, start), Initial(start);
    InitialInside(g, start);
    DfsSound(g, start, bound);
    DfsUnfold(g, u, s, bound);
    var s1, all := Step(g, s, bound), Elements(DfsFrom(g, start, bound));
    StackIsListed(g, u, s1, bound);
    AllGrows(g, u, s, bound);
    assert {} + all == all;
    assert start in all;
    if bound == 1 {
      FirstNeighbours(g, start);
    }
    forall t | t in Levels(g, {start}, 0, bound + 1) ensures t in all {
      if t != start {
        var k := FindLevel(g, {start}, 0, bound + 1, t);
        assert k == 1 && t in Elements(Neighbours(g, start));
      }
    }
  }

  lemma FirstNeighbours(g: Adjacency, start: Node)
    ensures Elements(Neighbours(g, start)) <= {start} + Nodes(Step(g, Initial(start), 1).stack)
  {
    PushedNodes(g, Initial(start), 1);
    AppendNodes(Popped(Initial(start)).stack, Pushed(g, Initial(start), 1));
    assert {} + {start} == {start};
  }

  lemma DfsUnfold(g: Adjacency, u: set<Node>, s: Search, bound: nat)
    requires s.stack != [] && Inside(g, u, s)
    ensures Inside(g, u, Step(g, s, bound))
    ensures Dfs(g, u, s, bound) == Emitted(s) + Dfs(g, u, Step(g, s, bound), bound)
  {
    StepInside(g, u, s, bound);
  }

  // ---------------------------------------------------------------------------
  // A node that is near enough and missed
  // ---------------------------------------------------------------------------

  /** Nodes are told apart by the lengths of their names. */
  function Name(i: nat): (n: Node)
    ensures |n| == i
  {
    seq(i, _ => 'x')
  }

  function Names(n: nat): (r: set<Node>)
    ensures |r| == n && forall x :: x in r <==> |x| < n && x == Name(|x|)
  {
    if n == 0 then {}
    else
      var rest := Names(n - 1);
      assert Name(n - 1) !in rest;
      rest + {Name(n - 1)}
  }

  /** Node 0 leads to 1 and to a detour 3, 4, ..., bound + 1 that ends at 1; node 1 leads to 2;
      the remaining nodes are alone. */
  function DetourEdges(bound: nat, i: nat): seq<Node> {
    if i == 0 then [Name(1), Name(3)]
    else if i == 1 then [Name(2)]
    else if 3 <= i <= bound then [Name(i + 1)]
    else if i == bound + 1 then [Name(1)]
    else []
  }

  function Detour(bound: nat, n: nat): Adjacency {
    map x | x in Names(n) :: DetourEdges(bound, |x|)
  }

  lemma DetourNeighbours(bound: nat, n: nat, i: nat)
    requires i < n
    ensures Neighbours(Detour(bound, n), Name(i)) == DetourEdges(bound, i)
  {
    assert Name(i) in Names(n);
  }

  lemma DetourUniverse(bound: nat, n: nat)
    requires 2 <= bound <= n - 2
    ensures Universe(Detour(bound, n), Name(0)) == Names(n)
  {
    var g := Detour(bound, n);
    forall t | t in NeighboursOf(g, g.Keys) ensures t in Names(n) {
      var x :| x in g.Keys && t in Neighbours(g, x);
      DetourTarget(bound, n, x, t);
    }
    assert Name(0) in Names(n);
  }

  lemma DetourTarget(bound: nat, n: nat, x: Node, t: Node)
    requires 2 <= bound <= n - 2 && x in Names(n) && t in Neighbours(Detour(bound, n), x)
    ensures t in Names(n)
  {
    assert t in DetourEdges(bound, |x|);
    assert Name(1) in Names(n) && Name(2) in Names(n) && Name(3) in Names(n);
  }

  /** The node the detour has reached after j hops. */
  function Along(bound: nat, j: nat): nat {
    if j < bound then j + 2 else 1
  }

  /** The nodes visited before the j-th node of the detour. */
  function Passed(j: nat): (r: set<Node>)
    requires j >= 1
    ensures forall x :: x in r <==> x == Name(|x|) && (|x| == 0 || 3 <= |x| <= j + 1)
  {
    if j == 1 then {Name(0)} else Passed(j - 1) + {Name(j + 1)}
  }

  /** After j hops of the detour: node 1 still waits at depth 1 below the top of the stack. */
  function OnDetour(bound: nat, j: nat): Search
    requires 1 <= j <= bound
  {
    Search([Tagged(Name(1), 1), Tagged(Name(Along(bound, j)), j)], Passed(j))
  }

  lemma OneUnvisited(x: Node, visited: set<Node>)
    requires x !in visited
    ensures Unvisited([x], visited) == [x]
  {
    assert Unvisited([x], visited) == [x] + Unvisited([], visited);
  }

  lemma DetourStart(bound: nat, n: nat)
    requires 2 <= bound <= n - 2
    ensures Step(Detour(bound, n), Initial(Name(0)), bound) == OnDetour(bound, 1)
  {
    DetourNeighbours(bound, n, 0);
    assert Name(1) !in {Name(0)} && Name(3) !in {Name(0)};
    PushPair(Detour(bound, n), Name(0), Name(1), Name(3), bound);
  }

  lemma PushPair(g: Adjacency, x: Node, y: Node, z: Node, bound: nat)
    requires Neighbours(g, x) == [y, z] && y !in {x} && z !in {x} && bound > 0
    ensures Step(g, Initial(x), bound) == Search([Tagged(y, 1), Tagged(z, 1)], {x})
  {
    OneUnvisited(z, {x});
    assert [y, z][1..] == [z];
    assert Unvisited([y, z], {x}) == [y] + [z];
    StepCases(g, [Tagged(x, 0)], {}, bound);
    assert {} + {x} == {x} && [Tagged(x, 0)][..0] == [];
    assert Tag([y, z], 1) == [Tagged(y, 1), Tagged(z, 1)];
  }

  lemma DetourStep(bound: nat, n: nat, j: nat)
    requires 2 <= bound <= n - 2 && 1 <= j < bound
    ensures Step(Detour(bound, n), OnDetour(bound, j), bound) == OnDetour(bound, j + 1)
  {
    var x, y := Name(j + 2), Name(Along(bound, j + 1));
    DetourNeighbours(bound, n, j + 2);
    assert x !in Passed(j) && y !in Passed(j + 1) && Passed(j) + {x} == Passed(j + 1);
    PushSingle(Detour(bound, n), Tagged(Name(1), 1), x, y, j, Passed(j), bound);
  }

  /** A node with one edge, to an unvisited node, is replaced by that node. */
  lemma PushSingle(g: Adjacency, below: Tagged, x: Node, y: Node, j: nat, visited: set<Node>, bound: nat)
    requires Neighbours(g, x) == [y] && x !in visited && y !in visited + {x} && j < bound
    ensures Step(g, Search([below, Tagged(x, j)], visited), bound) ==
            Search([below, Tagged(y, j + 1)], visited + {x})
  {
    var stack := [below, Tagged(x, j)];
    OneUnvisited(y, visited + {x});
    StepCases(g, stack, visited, bound);
    assert stack[..1] == [below] && Tag([y], j + 1) == [Tagged(y, j + 1)];
  }

  /** At the end of the detour node 1 is visited at the bound and not expanded; when it comes up
      again it counts as visited. */
  lemma DetourEnd(g: Adjacency, u: set<Node>, bound: nat)
    requires 2 <= bound && Inside(g, u, OnDetour(bound, bound))
    ensures Dfs(g, u, OnDetour(bound, bound), bound) == [Name(1)]
  {
    assert Name(1) !in Passed(bound);
    MetTwice(g, u, Name(1), Passed(bound), bound);
  }

  /** A node that comes up first at the bound is listed and never expanded. */
  lemma MetTwice(g: Adjacency, u: set<Node>, x: Node, visited: set<Node>, bound: nat)
    requires x !in visited && Inside(g, u, Search([Tagged(x, 1), Tagged(x, bound)], visited))
    ensures Dfs(g, u, Search([Tagged(x, 1), Tagged(x, bound)], visited), bound) == [x]
  {
    var stack := [Tagged(x, 1), Tagged(x, bound)];
    var s, s1 := Search(stack, visited), Search([Tagged(x, 1)], visited + {x});
    DfsUnfold(g, u, s, bound);
    StepCases(g, stack, visited, bound);
    assert stack[..1] == [Tagged(x, 1)];
    DfsUnfold(g, u, s1, bound);
    StepCases(g, s1.stack, s1.visited, bound);
    assert s1.stack[..0] == [];
  }

  lemma MissesStep(g: Adjacency, u: set<Node>, s: Search, s': Search, bound: nat, x: Node)
    requires s.stack != [] && Inside(g, u, s) && Step(g, s, bound) == s' && Top(s).node != x
    requires Inside(g, u, s') ==> x !in Elements(Dfs(g, u, s', bound))
    ensures Inside(g, u, s') && x !in Elements(Dfs(g, u, s, bound))
  {
    DfsUnfold(g, u, s, bound);
  }

  lemma {:induction false} DetourMisses(bound: nat, n: nat, u: set<Node>, j: nat)
    requires 2 <= bound <= n - 2 && 1 <= j <= bound && Inside(Detour(bound, n), u, OnDetour(bound, j))
    ensures Name(2) !in Elements(Dfs(Detour(bound, n), u, OnDetour(bound, j), bound))
    decreases bound - j
  {
    var g, s := Detour(bound, n), OnDetour(bound, j);
    if j == bound {
      DetourEnd(g, u, bound);
    } else {
      DetourStep(bound, n, j);
      StepInside(g, u, s, bound);
      DetourMisses(bound, n, u, j + 1);
      MissesStep(g, u, s, OnDetour(bound, j + 1), bound, Name(2));
    }
  }

  lemma TwoHops(bound: nat, n: nat)
    requires 2 <= bound <= n - 2
    ensures Name(2) in Levels(Detour(bound, n), {Name(0)}, 0, bound + 1)
  {
    DetourNeighbours(bound, n, 0);
    DetourNeighbours(bound, n, 1);
    assert Name(1) in DetourEdges(bound, 0) && Name(2) in DetourEdges(bound, 1);
    TwoEdges(Detour(bound, n), Name(0), Name(1), Name(2), bound);
  }

  lemma TwoEdges(g: Adjacency, a: Node, b: Node, c: Node, bound: nat)
    requires b in Neighbours(g, a) && c in Neighbours(g, b) && bound >= 2
    ensures c in Levels(g, {a}, 0, bound + 1)
  {
    NeighbourLevel(g, a, 0, a, b);
    NeighbourLevel(g, a, 1, b, c);
    LevelWithin(g, {a}, 0, bound + 1, 2, c);
  }

  /** A graph of n nodes on which the traversal misses a node two hops away, for every bound
      from 2 to n - 2. */
  lemma DfsMissesNode(bound: nat, n: nat)
    requires 2 <= bound <= n - 2
    ensures |Universe(Detour(bound, n), Name(0))| == n && !Served(Detour(bound, n), Name(0), bound)
  {
    var g, s := Detour(bound, n), Initial(Name(0));
    var u := Universe(g, Name(0));
    DetourUniverse(bound, n);
    InitialInside(g, Name(0));
    DfsUnfold(g, u, s, bound);
    DetourStart(bound, n);
    DetourMisses(bound, n, u, 1);
    assert Emitted(s) == [Name(0)];
    TwoHops(bound, n);
  }

  /** Every graph of n nodes, with its neighbours listed in any order, is served exactly when
      the bound is 0 or 1 or at least n - 1. */
  lemma ServedIff(n: nat, bound: nat)
    ensures (forall g, start :: |Universe(g, start)| == n ==> Served(g, start, bound)) <==> bound <= 1 || n <= bound + 1
  {
    if bound <= 1 || n <= bound + 1 {
      forall g, start | |Universe(g, start)| == n ensures Served(g, start, bound) {
        if bound <= 1 {
          SmallBoundServes(g, start, bound);
        } else {
          LargeBoundServes(g, start, bound);
        }
      }
    } else {
      DfsMissesNode(bound, n);
    }
  }
}
