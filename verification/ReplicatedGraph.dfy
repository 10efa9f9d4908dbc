/**
 The state a Raft follower replicates and the log entries that change it.

 A graph is read cell by cell: a cell is one property of one node or one half-edge of one
 node. Every log entry writes at most one cell, and what it writes does not depend on the
 graph; everything the later modules prove about replays rests on these two facts.
 */
module ReplicatedGraph {
  import opened Wrappers

  type NexoraId = string
  type Key = string

  datatype PropertyValue = Null | Boolean(b: bool) | Integer(n: int) | Text(s: string)

  datatype EdgeDirection = Out | In

  datatype HalfEdge = HalfEdge(edgeType: string, direction: EdgeDirection, other: NexoraId)

  datatype NodeChangeEvent =
    | PropertySet(key: Key, value: PropertyValue)
    | PropertyRemoved(key: Key)
    | EdgeAdded(edge: HalfEdge)
    | EdgeRemoved(edge: HalfEdge)
    | LabelAdded(name: string)
    | LabelRemoved(name: string)
    | EdgePropertySet(edgeType: string, target: NexoraId, key: Key, value: PropertyValue)
    | EdgePropertyRemoved(edgeType: string, target: NexoraId, key: Key)
    | NodeDeleted
    | NodeRestored

  datatype WalOperation =
    | NodeEvent(qid: NexoraId, event: NodeChangeEvent)
    | SnapshotCheckpoint
    | IngestOffsetCommit
    | OtherOperation

  /** The bytes of an entry: either they decode to a record or they do not. */
  datatype Payload = Record(operation: WalOperation) | Undecodable

  datatype LogEntry = LogEntry(seqNo: nat, payload: Payload)

  datatype Graph = Graph(properties: map<(NexoraId, Key), PropertyValue>, edges: set<(NexoraId, HalfEdge)>)

  const EMPTY_GRAPH := Graph(map[], {})

  /** How one call into the graph service fails: before its commit, or after it (the reply
      is lost, or a secondary index rejects the write). */
  datatype Fault = NoFault | FailsBefore | FailsAfter

  datatype Applied = Applied(ok: bool, graph: Graph)

  // ---------------------------------------------------------------------------
  // Applying an entry
  // ---------------------------------------------------------------------------

  function ApplyEvent(g: Graph, qid: NexoraId, event: NodeChangeEvent): Graph {
    match event
    case PropertySet(key, value) => g.(properties := g.properties[(qid, key) := value])
    case PropertyRemoved(key) => g.(properties := g.properties - {(qid, key)})
    case EdgeAdded(edge) => g.(edges := g.edges + {(qid, edge)})
    case EdgeRemoved(edge) => g.(edges := g.edges - {(qid, edge)})
    case _ => g
  }

  function ApplyPayload(g: Graph, p: Payload): Graph {
    match p
    case Record(NodeEvent(qid, event)) => ApplyEvent(g, qid, event)
    case _ => g
  }

  /** Whether applying the entry calls the graph service at all. */
  predicate CallsGraph(p: Payload) {
    p.Record? && p.operation.NodeEvent? &&
    match p.operation.event
    case PropertySet(_, _) => true
    case PropertyRemoved(_) => true
    case EdgeAdded(_) => true
    case EdgeRemoved(_) => true
    case _ => false
  }

  predicate Applies(p: Payload, fault: Fault) {
    p.Record? && (CallsGraph(p) ==> fault.NoFault?)
  }

  /** Applying one entry: an undecodable payload and a failing graph call are errors. */
  function ApplyEntry(g: Graph, p: Payload, fault: Fault): (r: Applied)
    ensures r.ok <==> Applies(p, fault)
    ensures r.ok ==> r.graph == ApplyPayload(g, p)
    ensures !r.ok ==> r.graph == if LandsAnyway(p, fault) then ApplyPayload(g, p) else g
  {
    match p
    case Undecodable => Applied(false, g)
    case Record(_) =>
      if !CallsGraph(p) then Applied(true, g)
      else match fault
           case NoFault => Applied(true, ApplyPayload(g, p))
           case FailsBefore => Applied(false, g)
           case FailsAfter => Applied(false, ApplyPayload(g, p))
  }

  /** The call is reported as failed although the write went through. */
  predicate LandsAnyway(p: Payload, fault: Fault) {
    CallsGraph(p) && fault.FailsAfter?
  }

  // ---------------------------------------------------------------------------
  // Cells
  // ---------------------------------------------------------------------------

  datatype Cell = PropertyCell(qid: NexoraId, key: Key) | EdgeCell(qid: NexoraId, edge: HalfEdge)

  datatype Content = Absent | Holds(value: PropertyValue) | Linked

  function Read(g: Graph, c: Cell): Content {
    match c
    case PropertyCell(qid, key) =>
      if (qid, key) in g.properties then Holds(g.properties[(qid, key)]) else Absent
    case EdgeCell(qid, edge) =>
      if (qid, edge) in g.edges then Linked else Absent
  }

  /** The one cell an entry writes, if any. */
  function Target(p: Payload): Option<Cell> {
    match p
    case Record(NodeEvent(qid, PropertySet(key, _))) => Some(PropertyCell(qid, key))
    case Record(NodeEvent(qid, PropertyRemoved(key))) => Some(PropertyCell(qid, key))
    case Record(NodeEvent(qid, EdgeAdded(edge))) => Some(EdgeCell(qid, edge))
    case Record(NodeEvent(qid, EdgeRemoved(edge))) => Some(EdgeCell(qid, edge))
    case _ => None
  }

  /** What the entry leaves in its target cell, whatever was there before. */
  function Written(p: Payload): Content {
    match p
    case Record(NodeEvent(_, PropertySet(_, value))) => Holds(value)
    case Record(NodeEvent(_, EdgeAdded(_))) => Linked
    case _ => Absent
  }

  lemma ReadAfterApply(g: Graph, p: Payload, c: Cell)
    ensures Read(ApplyPayload(g, p), c) == if Target(p) == Some(c) then Written(p) else Read(g, c)
  {
  }

  lemma SameReadsSameGraph(g: Graph, h: Graph)
    requires forall c :: Read(g, c) == Read(h, c)
    ensures g == h
  {
    forall k: (NexoraId, Key)
      ensures k in g.properties <==> k in h.properties
      ensures k in g.properties && k in h.properties ==> g.properties[k] == h.properties[k]
    {
      assert Read(g, PropertyCell(k.0, k.1)) == Read(h, PropertyCell(k.0, k.1));
    }
    assert g.properties == h.properties;
    forall e: (NexoraId, HalfEdge)
      ensures e in g.edges <==> e in h.edges
    {
      assert Read(g, EdgeCell(e.0, e.1)) == Read(h, EdgeCell(e.0, e.1));
    }
    assert g.edges == h.edges;
  }

  // ---------------------------------------------------------------------------
  // Replaying a prefix of the leader's log
  // ---------------------------------------------------------------------------

  /** The leader's log; entry number n is at index n - 1. */
  type Log = seq<Payload>

  function Replay(log: Log, n: nat): Graph
    requires n <= |log|
  {
    if n == 0 then EMPTY_GRAPH else ApplyPayload(Replay(log, n - 1), log[n - 1])
  }

  /** The entry sets or removes the property. */
  predicate TouchesProperty(p: Payload, qid: NexoraId, key: Key) {
    p.Record? && p.operation.NodeEvent? && p.operation.qid == qid &&
    (p.operation.event == PropertyRemoved(key) ||
     (p.operation.event.PropertySet? && p.operation.event.key == key))
  }

  /** The entry adds or removes the half-edge. */
  predicate TouchesEdge(p: Payload, qid: NexoraId, edge: HalfEdge) {
    p == Record(NodeEvent(qid, EdgeAdded(edge))) || p == Record(NodeEvent(qid, EdgeRemoved(edge)))
  }

  /** No entry from number i + 1 to n touches the property. */
  predicate PropertyUntouched(log: Log, i: nat, n: nat, qid: NexoraId, key: Key)
    requires n <= |log|
  {
    forall j :: i <= j < n ==> !TouchesProperty(log[j], qid, key)
  }

  predicate EdgeUntouched(log: Log, i: nat, n: nat, qid: NexoraId, edge: HalfEdge)
    requires n <= |log|
  {
    forall j :: i <= j < n ==> !TouchesEdge(log[j], qid, edge)
  }

  /** After a replay a property holds a value exactly when the last entry that touches it sets
      that value. */
  lemma {:induction false} PropertyIsLastWrite(log: Log, n: nat, qid: NexoraId, key: Key, value: PropertyValue)
    requires n <= |log|
    ensures var properties := Replay(log, n).properties;
            (qid, key) in properties && properties[(qid, key)] == value <==>
            exists i: nat :: i < n && log[i] == Record(NodeEvent(qid, PropertySet(key, value))) &&
                             PropertyUntouched(log, i + 1, n, qid, key)
  {
    if n > 0 {
      PropertyIsLastWrite(log, n - 1, qid, key, value);
      if TouchesProperty(log[n - 1], qid, key) {
        assert PropertyUntouched(log, n, n, qid, key);
      } else {
        forall i: nat | i < n
          ensures PropertyUntouched(log, i, n, qid, key) <==> PropertyUntouched(log, i, n - 1, qid, key)
        {
        }
      }
    }
  }

  /** And a half-edge is there exactly when the last entry that touches it adds it. */
  lemma {:induction false} EdgeIsLastWrite(log: Log, n: nat, qid: NexoraId, edge: HalfEdge)
    requires n <= |log|
    ensures (qid, edge) in Replay(log, n).edges <==>
            exists i: nat :: i < n && log[i] == Record(NodeEvent(qid, EdgeAdded(edge))) &&
                             EdgeUntouched(log, i + 1, n, qid, edge)
  {
    if n > 0 {
      EdgeIsLastWrite(log, n - 1, qid, edge);
      if TouchesEdge(log[n - 1], qid, edge) {
        assert EdgeUntouched(log, n, n, qid, edge);
      } else {
        forall i: nat | i < n
          ensures EdgeUntouched(log, i, n, qid, edge) <==> EdgeUntouched(log, i, n - 1, qid, edge)
        {
        }
      }
    }
  }

  /** Cell c of g holds what it holds after some prefix of length lo..hi. */
  ghost predicate CellBetween(g: Graph, log: Log, c: Cell, lo: nat, hi: nat)
    requires hi <= |log|
  {
    exists k: nat :: lo <= k <= hi && Read(g, c) == Read(Replay(log, k), c)
  }

  /** Every cell is explained by some prefix of length lo..hi, each cell by its own. */
  ghost predicate Between(g: Graph, log: Log, lo: nat, hi: nat)
    requires hi <= |log|
  {
    forall c :: CellBetween(g, log, c, lo, hi)
  }

  lemma BetweenWiden(g: Graph, log: Log, lo: nat, hi: nat, lo': nat, hi': nat)
    requires lo' <= lo && hi <= hi' <= |log|
    requires Between(g, log, lo, hi)
    ensures Between(g, log, lo', hi')
  {
    forall c ensures CellBetween(g, log, c, lo', hi') {
      assert CellBetween(g, log, c, lo, hi);
    }
  }

  /** Once the interval has shrunk to a point the graph is exactly that replay. */
  lemma BetweenPoint(g: Graph, log: Log, n: nat)
    requires n <= |log|
    ensures Between(g, log, n, n) <==> g == Replay(log, n)
  {
    if Between(g, log, n, n) {
      forall c ensures Read(g, c) == Read(Replay(log, n), c) {
        assert CellBetween(g, log, c, n, n);
      }
      SameReadsSameGraph(g, Replay(log, n));
    }
    if g == Replay(log, n) {
      forall c ensures CellBetween(g, log, c, n, n) {
        assert n <= n && Read(g, c) == Read(Replay(log, n), c);
      }
    }
  }

  /** Re-applying the entry just above the lower end raises that end by one. */
  lemma BetweenApply(g: Graph, log: Log, lo: nat, hi: nat)
    requires lo <= hi <= |log| && lo < |log|
    requires Between(g, log, lo, hi)
    ensures Between(ApplyPayload(g, log[lo]), log, lo + 1, if hi > lo then hi else lo + 1)
  {
    var p, lo', hi' := log[lo], lo + 1, if hi > lo then hi else lo + 1;
    var g' := ApplyPayload(g, p);
    forall c ensures CellBetween(g', log, c, lo', hi') {
      ReadAfterApply(g, p, c);
      ReadAfterApply(Replay(log, lo), p, c);
      assert Replay(log, lo') == ApplyPayload(Replay(log, lo), p);
      if Target(p) == Some(c) {
        assert Read(g', c) == Read(Replay(log, lo'), c);
      } else {
        assert CellBetween(g, log, c, lo, hi);
        var k: nat :| lo <= k <= hi && Read(g, c) == Read(Replay(log, k), c);
        var k' := if k == lo then lo' else k;
        assert lo' <= k' <= hi' && Read(g', c) == Read(Replay(log, k'), c);
      }
    }
  }
}
