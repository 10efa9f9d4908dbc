/** Finite directed graphs, walks, and the sets of nodes that walks of a given length reach. */
module Walks {
  type Node = string

  /** Each node's neighbours, in the order the graph service lists them. */
  type Adjacency = map<Node, seq<Node>>

  function Neighbours(g: Adjacency, n: Node): seq<Node> {
    if n in g then g[n] else []
  }

  function NeighboursOf(g: Adjacency, nodes: set<Node>): set<Node> {
    set n, t | n in nodes && t in Neighbours(g, n) :: t
  }

  predicate IsWalk(g: Adjacency, w: seq<Node>) {
    w != [] && forall i :: 0 <= i < |w| - 1 ==> w[i + 1] in Neighbours(g, w[i])
  }

  /** The ends of the walks of exactly k edges from one of the starts. */
  function Level(g: Adjacency, starts: set<Node>, k: nat): set<Node> {
    if k == 0 then starts else NeighboursOf(g, Level(g, starts, k - 1))
  }

  ghost predicate WalkTo(g: Adjacency, starts: set<Node>, k: nat, t: Node, w: seq<Node>) {
    IsWalk(g, w) && |w| == k + 1 && w[0] in starts && w[k] == t
  }

  lemma {:induction false} WalkEndsInLevel(g: Adjacency, starts: set<Node>, k: nat, t: Node, w: seq<Node>)
    requires WalkTo(g, starts, k, t, w)
    ensures t in Level(g, starts, k)
    decreases k
  {
    if k > 0 {
      WalkEndsInLevel(g, starts, k - 1, w[k - 1], w[..k]);
      assert w[k - 1 + 1] in Neighbours(g, w[k - 1]);
    }
  }

  lemma {:induction false} LevelHasWalk(g: Adjacency, starts: set<Node>, k: nat, t: Node) returns (w: seq<Node>)
    requires t in Level(g, starts, k)
    ensures WalkTo(g, starts, k, t, w)
    decreases k
  {
    if k == 0 {
      w := [t];
    } else {
      var n :| n in Level(g, starts, k - 1) && t in Neighbours(g, n);
      var w' := LevelHasWalk(g, starts, k - 1, n);
      w := w' + [t];
      forall i | 0 <= i < |w| - 1 ensures w[i + 1] in Neighbours(g, w[i]) {
        if i < |w'| - 1 { assert w'[i + 1] in Neighbours(g, w'[i]); }
      }
    }
  }

  /** Levels are what walks reach. */
  lemma LevelIffWalk(g: Adjacency, starts: set<Node>, k: nat, t: Node)
    ensures t in Level(g, starts, k) <==> exists w :: WalkTo(g, starts, k, t, w)
  {
    if t in Level(g, starts, k) {
      var w := LevelHasWalk(g, starts, k, t);
    }
    if w :| WalkTo(g, starts, k, t, w) {
      WalkEndsInLevel(g, starts, k, t, w);
    }
  }

  /** The ends of the walks of lo to hi - 1 edges. */
  function Levels(g: Adjacency, starts: set<Node>, lo: nat, hi: nat): set<Node> {
    if hi <= lo then {} else Levels(g, starts, lo, hi - 1) + Level(g, starts, hi - 1)
  }

  lemma {:induction false} LevelWithin(g: Adjacency, starts: set<Node>, lo: nat, hi: nat, k: nat, t: Node)
    requires lo <= k < hi && t in Level(g, starts, k)
    ensures t in Levels(g, starts, lo, hi)
    decreases hi
  {
    if k < hi - 1 { LevelWithin(g, starts, lo, hi - 1, k, t); }
  }

  lemma {:induction false} FindLevel(g: Adjacency, starts: set<Node>, lo: nat, hi: nat, t: Node) returns (k: nat)
    requires t in Levels(g, starts, lo, hi)
    ensures lo <= k < hi && t in Level(g, starts, k)
    decreases hi
  {
    if t in Level(g, starts, hi - 1) {
      k := hi - 1;
    } else {
      k := FindLevel(g, starts, lo, hi - 1, t);
    }
  }

  lemma LevelsMonotone(g: Adjacency, starts: set<Node>, lo: nat, hi: nat, hi': nat)
    requires hi <= hi'
    ensures Levels(g, starts, lo, hi) <= Levels(g, starts, lo, hi')
    decreases hi'
  {
  }

  /** One more edge from a node within the bound ends one level further at most. */
  lemma {:induction false} StepWithinLevels(g: Adjacency, starts: set<Node>, lo: nat, hi: nat, n: Node, t: Node)
    requires n in Levels(g, starts, lo, hi) && t in Neighbours(g, n)
    ensures t in Levels(g, starts, lo, hi + 1)
  {
    var k := FindLevel(g, starts, lo, hi, n);
    LevelWithin(g, starts, lo, hi + 1, k + 1, t);
  }

  /** Expanding only the nodes that are new at level k finds everything new at level k + 1. */
  lemma NextFrontier(g: Adjacency, starts: set<Node>, lo: nat, k: nat)
    requires lo <= 1
    ensures var frontier := Level(g, starts, k) - Levels(g, starts, lo, k);
            NeighboursOf(g, frontier) - Levels(g, starts, lo, k + 1) ==
            Level(g, starts, k + 1) - Levels(g, starts, lo, k + 1)
  {
    var frontier := Level(g, starts, k) - Levels(g, starts, lo, k);
    forall t | t in Level(g, starts, k + 1) && t !in Levels(g, starts, lo, k + 1)
      ensures t in NeighboursOf(g, frontier)
    {
      var n :| n in Level(g, starts, k) && t in Neighbours(g, n);
      if n in Levels(g, starts, lo, k) {
        StepWithinLevels(g, starts, lo, k, n, t);
        assert false;
      }
    }
  }

  lemma {:induction false} LaterLevels(g: Adjacency, starts: set<Node>, lo: nat, k: nat, hi: nat)
    requires lo <= k <= hi && Level(g, starts, k) <= Levels(g, starts, lo, k)
    ensures Level(g, starts, hi) <= Levels(g, starts, lo, k)
    decreases hi
  {
    if k < hi {
      LaterLevels(g, starts, lo, k, hi - 1);
      NextSaturated(g, starts, lo, k, hi);
    }
  }

  lemma OneLevelMore(g: Adjacency, starts: set<Node>, lo: nat, hi: nat)
    requires lo < hi
    ensures Levels(g, starts, lo, hi) == Levels(g, starts, lo, hi - 1) + Level(g, starts, hi - 1)
  {
  }

  /** A level that brings nothing new is the last that matters. */
  lemma {:induction false} Saturated(g: Adjacency, starts: set<Node>, lo: nat, k: nat, hi: nat)
    requires lo <= k <= hi && Level(g, starts, k) <= Levels(g, starts, lo, k)
    ensures Levels(g, starts, lo, hi) == Levels(g, starts, lo, k)
    ensures Level(g, starts, hi) <= Levels(g, starts, lo, k)
    decreases hi
  {
    LaterLevels(g, starts, lo, k, hi);
    if k < hi {
      Saturated(g, starts, lo, k, hi - 1);
      OneLevelMore(g, starts, lo, hi);
    }
  }

  lemma NextSaturated(g: Adjacency, starts: set<Node>, lo: nat, k: nat, j: nat)
    requires lo <= k && Level(g, starts, k) <= Levels(g, starts, lo, k)
    requires j >= 1 && Level(g, starts, j - 1) <= Levels(g, starts, lo, k)
    ensures Level(g, starts, j) <= Levels(g, starts, lo, k)
  {
    forall t | t in Level(g, starts, j) ensures t in Levels(g, starts, lo, k) {
      var n :| n in Level(g, starts, j - 1) && t in Neighbours(g, n);
      StaysSaturated(g, starts, lo, k, n, t);
    }
  }

  lemma StaysSaturated(g: Adjacency, starts: set<Node>, lo: nat, k: nat, n: Node, t: Node)
    requires lo <= k && Level(g, starts, k) <= Levels(g, starts, lo, k)
    requires n in Levels(g, starts, lo, k) && t in Neighbours(g, n)
    ensures t in Levels(g, starts, lo, k)
  {
    StepWithinLevels(g, starts, lo, k, n, t);
    assert Levels(g, starts, lo, k + 1) == Levels(g, starts, lo, k) + Level(g, starts, k);
  }

  lemma NoStarts(g: Adjacency, lo: nat, hi: nat)
    ensures Level(g, {}, hi) == {} && Levels(g, {}, lo, hi) == {}
    decreases hi
  {
    if hi > 0 { NoStarts(g, lo, hi - 1); }
  }

  /** Being within the bound is being at the end of a walk of such a length. */
  lemma LevelsIffWalk(g: Adjacency, starts: set<Node>, lo: nat, hi: nat, t: Node)
    ensures t in Levels(g, starts, lo, hi) <==> exists k: nat, w :: lo <= k < hi && WalkTo(g, starts, k, t, w)
  {
    if t in Levels(g, starts, lo, hi) {
      var k := FindLevel(g, starts, lo, hi, t);
      var w := LevelHasWalk(g, starts, k, t);
      assert lo <= k < hi && WalkTo(g, starts, k, t, w);
    }
    forall k: nat, w | lo <= k < hi && WalkTo(g, starts, k, t, w) ensures t in Levels(g, starts, lo, hi) {
      WalkEndsInLevel(g, starts, k, t, w);
      LevelWithin(g, starts, lo, hi, k, t);
    }
  }

  /** Every node there is: the start, the nodes with a list, and the nodes on a list. */
  function Universe(g: Adjacency, start: Node): set<Node> {
    {start} + g.Keys + NeighboursOf(g, g.Keys)
  }

  lemma UniverseClosed(g: Adjacency, start: Node, n: Node, t: Node)
    requires t in Neighbours(g, n)
    ensures t in Universe(g, start)
  {
  }
}
