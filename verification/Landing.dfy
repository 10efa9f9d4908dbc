/**
 Entries that reach a graph in any order: how far the graph reflects the log afterwards.
 */
module Landing {
  import opened Wrappers
  import opened ReplicatedGraph

  function Max(a: nat, b: nat): nat {
    if a > b then a else b
  }

  /** How far the graph is known to reflect the log once entry n has landed on a graph that
      reflected it up to `low`. An older entry takes it back, the next one forward; one that
      leaves a gap changes nothing, since the entries in the gap may be stale. */
  function Landed(low: nat, n: nat): nat {
    if n <= low + 1 then n else low
  }

  /** Whatever entry lands, in whatever order, every cell stays between the two ends. */
  lemma BetweenApplyAny(g: Graph, log: Log, lo: nat, hi: nat, n: nat)
    requires lo <= hi <= |log| && 1 <= n <= |log|
    requires Between(g, log, lo, hi)
    ensures Between(ApplyPayload(g, log[n - 1]), log, Landed(lo, n), Max(hi, n))
  {
    if n == lo + 1 {
      BetweenApply(g, log, lo, hi);
    } else {
      var p, lo', hi' := log[n - 1], Landed(lo, n), Max(hi, n);
      var g' := ApplyPayload(g, p);
      forall c ensures CellBetween(g', log, c, lo', hi') {
        ReadAfterApply(g, p, c);
        ReadAfterApply(Replay(log, n - 1), p, c);
        if Target(p) == Some(c) {
          assert lo' <= n <= hi' && Read(g', c) == Read(Replay(log, n), c);
        } else {
          assert CellBetween(g, log, c, lo, hi);
          var k: nat :| lo <= k <= hi && Read(g, c) == Read(Replay(log, k), c);
          assert lo' <= k <= hi' && Read(g', c) == Read(Replay(log, k), c);
        }
      }
    }
  }
}
