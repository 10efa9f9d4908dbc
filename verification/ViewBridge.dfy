/**
 The bridge from standing query results to materialized views: a table from query to view,
 and one row per node whose latest result for the view was a match.
 */
module ViewBridge {
  import opened Wrappers
  import opened MaterializedView

  type QueryId = string

  datatype ResultType = Matched(properties: Row) | Unmatched

  datatype Step =
    | CreateView(view: ViewId)
    | Register(query: QueryId, view: ViewId)
    | Unregister(query: QueryId)
    | Result(query: QueryId, node: Key, result: ResultType)

  type Table = map<QueryId, ViewId>
  type Views = map<ViewId, map<Key, Row>>

  // ---------------------------------------------------------------------------
  // One step
  // ---------------------------------------------------------------------------

  function Routed(table: Table, step: Step): Table {
    match step
    case Register(query, view) => table[query := view]
    case Unregister(query) => table - {query}
    case _ => table
  }

  function RowsAfter(rows: map<Key, Row>, node: Key, result: ResultType): map<Key, Row> {
    match result
    case Matched(properties) => rows[node := properties]
    case Unmatched => rows - {node}
  }

  /** A result for a query that is not in the table, or for a view that does not exist,
      changes nothing. */
  function Updated(table: Table, views: Views, step: Step): Views {
    match step
    case CreateView(view) => views[view := map[]]
    case Result(query, node, result) =>
      if query in table && table[query] in views
      then views[table[query] := RowsAfter(views[table[query]], node, result)]
      else views
    case _ => views
  }

  // ---------------------------------------------------------------------------
  // The bridge
  // ---------------------------------------------------------------------------

  class Bridge {
    const manager: ViewManager
    var sqToMv: Table

    constructor (manager: ViewManager)
      ensures this.manager == manager && sqToMv == map[]
    {
      this.manager, sqToMv := manager, map[];
    }

    method RegisterSqForMv(query: QueryId, view: ViewId)
      modifies this
      ensures sqToMv == Routed(old(sqToMv), Register(query, view))
    {
      sqToMv := sqToMv[query := view];
    }

    method UnregisterSq(query: QueryId)
      modifies this
      ensures sqToMv == Routed(old(sqToMv), Unregister(query))
    {
      sqToMv := sqToMv - {query};
    }

    /** Errors of the view manager are logged and otherwise ignored. */
    method OnSqResult(query: QueryId, node: Key, result: ResultType)
      requires manager.Valid()
      modifies manager
      ensures manager.Valid() && manager.Rows() == Updated(sqToMv, old(manager.Rows()), Result(query, node, result))
    {
      if query in sqToMv {
        match result {
          case Matched(properties) => var _ := manager.UpsertRow(sqToMv[query], node, properties);
          case Unmatched => var _ := manager.DeleteRow(sqToMv[query], node);
        }
      }
    }
  }

  // ---------------------------------------------------------------------------
  // Runs
  // ---------------------------------------------------------------------------

  function TableAfter(steps: seq<Step>): Table {
    if steps == [] then map[] else Routed(TableAfter(steps[..|steps| - 1]), steps[|steps| - 1])
  }

  /** The step maps or unmaps the query. */
  predicate Remaps(step: Step, query: QueryId) {
    step == Unregister(query) || (step.Register? && step.query == query)
  }

  /** Step number i registers the query for the view, and no later step maps or unmaps it. */
  predicate IsLastRegistration(steps: seq<Step>, i: nat, query: QueryId, view: ViewId) {
    && i < |steps| && steps[i] == Register(query, view)
    && forall j :: i < j < |steps| ==> !Remaps(steps[j], query)
  }

  /** A query is routed to a view exactly when its last registration is for that view and has not
      been withdrawn. */
  lemma {:induction false} RoutedIff(steps: seq<Step>, query: QueryId, view: ViewId)
    ensures query in TableAfter(steps) && TableAfter(steps)[query] == view <==>
            exists i: nat :: IsLastRegistration(steps, i, query, view)
  {
    if steps != [] {
      var before, n := steps[..|steps| - 1], |steps| - 1;
      RoutedIff(before, query, view);
      if Remaps(steps[n], query) {
        assert steps[n] == Register(query, view) ==> IsLastRegistration(steps, n, query, view);
        forall i: nat ensures IsLastRegistration(steps, i, query, view) ==> i == n {
        }
      } else {
        forall i: nat
          ensures IsLastRegistration(steps, i, query, view) <==> IsLastRegistration(before, i, query, view)
        {
          assert forall j :: 0 <= j < n ==> before[j] == steps[j];
        }
      }
    }
  }

  function ViewsAfter(steps: seq<Step>): Views {
    if steps == [] then map[]
    else
      var before := steps[..|steps| - 1];
      Updated(TableAfter(before), ViewsAfter(before), steps[|steps| - 1])
  }

  /** The latest result for the node that was routed to the view since the view was created. */
  function Latest(steps: seq<Step>, view: ViewId, node: Key): Option<ResultType> {
    if steps == [] then None
    else
      var before, step := steps[..|steps| - 1], steps[|steps| - 1];
      match step
      case CreateView(v) => if v == view then None else Latest(before, view, node)
      case Result(query, n, result) =>
        if query in TableAfter(before) && TableAfter(before)[query] == view && n == node then Some(result)
        else Latest(before, view, node)
      case _ => Latest(before, view, node)
  }

  /** After any run the rows of a view are exactly the nodes whose latest result routed to it
      was a match, each with that result's properties. */
  lemma {:induction false} RowsAreLatestMatches(steps: seq<Step>, view: ViewId, node: Key)
    requires view in ViewsAfter(steps)
    ensures var rows, latest := ViewsAfter(steps)[view], Latest(steps, view, node);
            && (node in rows <==> latest.Some? && latest.value.Matched?)
            && (node in rows ==> rows[node] == latest.value.properties)
    decreases |steps|
  {
    if steps != [] {
      var before := steps[..|steps| - 1];
      if view in ViewsAfter(before) {
        RowsAreLatestMatches(before, view, node);
      }
    }
  }

  predicate Mentions(step: Step, query: QueryId) {
    (step.Register? || step.Unregister? || step.Result?) && step.query == query
  }

  lemma {:induction false} NeverRegistered(steps: seq<Step>, query: QueryId)
    requires forall step :: step in steps ==> !(step.Register? && step.query == query)
    ensures query !in TableAfter(steps)
  {
    if steps != [] {
      NeverRegistered(steps[..|steps| - 1], query);
      assert steps[|steps| - 1] in steps;
    }
  }

  function Drop(steps: seq<Step>, query: QueryId): seq<Step> {
    if steps == [] then []
    else
      var before, step := Drop(steps[..|steps| - 1], query), steps[|steps| - 1];
      if Mentions(step, query) then before else before + [step]
  }

  lemma UnmappedStep(table: Table, views: Views, step: Step, query: QueryId)
    requires Mentions(step, query) && !step.Register? && query !in table
    ensures Routed(table, step) == table && Updated(table, views, step) == views
  {
    assert table - {query} == table;
  }

  lemma OneMore(steps: seq<Step>, step: Step)
    ensures TableAfter(steps + [step]) == Routed(TableAfter(steps), step)
    ensures ViewsAfter(steps + [step]) == Updated(TableAfter(steps), ViewsAfter(steps), step)
  {
    assert (steps + [step])[..|steps|] == steps;
  }

  /** A query that is never registered leaves no trace: the run without its steps ends in the
      same table and the same views. */
  lemma {:induction false} UnmappedLeavesNoTrace(steps: seq<Step>, query: QueryId)
    requires forall step :: step in steps ==> !(step.Register? && step.query == query)
    ensures TableAfter(Drop(steps, query)) == TableAfter(steps)
    ensures ViewsAfter(Drop(steps, query)) == ViewsAfter(steps)
  {
    if steps != [] {
      var before, step := steps[..|steps| - 1], steps[|steps| - 1];
      assert step in steps;
      UnmappedLeavesNoTrace(before, query);
      NeverRegistered(before, query);
      if Mentions(step, query) {
        UnmappedStep(TableAfter(before), ViewsAfter(before), step, query);
      } else {
        OneMore(Drop(before, query), step);
      }
    }
  }
}
