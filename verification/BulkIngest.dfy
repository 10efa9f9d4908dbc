/**
 The grouping part of bulk ingest: records for the same node are coalesced into one item.
 Whatever a node's state is and however one operation changes it, applying the items in any
 order gives what applying the accepted records one by one gives.
 */
module BulkIngest {
  import opened Wrappers
  import opened Sequences

  type NodeId = string

  datatype Json = Text(text: string) | Number(n: int) | OtherValue(repr: string)

  /** A record is a JSON object or something else. Its event time, if any, has been read. */
  datatype Record = NotAnObject | Object(fields: seq<(string, Json)>, eventTime: Option<nat>)

  datatype SetProperty = SetProperty(key: string, value: Json, eventTime: Option<nat>)

  datatype Item = Item(qid: NodeId, ops: seq<SetProperty>)

  /** Which field names the node, and how a field's value becomes a node id: a string always
      does, a number when it fits, anything else does not. */
  datatype Request = Request(idField: string, idOf: Json -> Option<NodeId>)

  // ---------------------------------------------------------------------------
  // What the records say
  // ---------------------------------------------------------------------------

  function Lookup(fields: seq<(string, Json)>, key: string): Option<Json> {
    if fields == [] then None
    else if fields[0].0 == key then Some(fields[0].1)
    else Lookup(fields[1..], key)
  }

  /** The node a record is about, or None for a record that is skipped. */
  function NodeOf(req: Request, rec: Record): Option<NodeId> {
    if rec.NotAnObject? then None
    else match Lookup(rec.fields, req.idField)
         case None => None
         case Some(v) => req.idOf(v)
  }

  /** One operation per field other than the id field. */
  function OpsOf(req: Request, fields: seq<(string, Json)>, eventTime: Option<nat>): seq<SetProperty> {
    if fields == [] then []
    else
      var rest := OpsOf(req, fields[1..], eventTime);
      if fields[0].0 == req.idField then rest else [SetProperty(fields[0].0, fields[0].1, eventTime)] + rest
  }

  function RecordOps(req: Request, rec: Record): seq<SetProperty> {
    if rec.NotAnObject? then [] else OpsOf(req, rec.fields, rec.eventTime)
  }

  /** The operations of one node, in order of arrival. */
  function NodeOps(req: Request, records: seq<Record>, qid: NodeId): seq<SetProperty> {
    if records == [] then []
    else
      var before, last := NodeOps(req, records[..|records| - 1], qid), records[|records| - 1];
      if NodeOf(req, last) == Some(qid) then before + RecordOps(req, last) else before
  }

  /** The nodes in order of first appearance. */
  function Order(req: Request, records: seq<Record>): (r: seq<NodeId>)
    ensures forall i, j :: 0 <= i < j < |r| ==> r[i] != r[j]
  {
    if records == [] then []
    else
      var before, node := Order(req, records[..|records| - 1]), NodeOf(req, records[|records| - 1]);
      if node.Some? && node.value !in before then before + [node.value] else before
  }

  function Skipped(req: Request, records: seq<Record>): nat {
    if records == [] then 0
    else Skipped(req, records[..|records| - 1]) + if NodeOf(req, records[|records| - 1]).None? then 1 else 0
  }

  /** One item per node that has operations. */
  function Items(req: Request, records: seq<Record>, order: seq<NodeId>): seq<Item> {
    if order == [] then []
    else
      var before, qid := Items(req, records, order[..|order| - 1]), order[|order| - 1];
      var ops := NodeOps(req, records, qid);
      if ops == [] then before else before + [Item(qid, ops)]
  }

  // ---------------------------------------------------------------------------
  // The grouping loop
  // ---------------------------------------------------------------------------

  method PushFields(req: Request, fields: seq<(string, Json)>, eventTime: Option<nat>, entry: seq<SetProperty>)
    returns (ops: seq<SetProperty>)
    ensures ops == entry + OpsOf(req, fields, eventTime)
  {
    ops := entry;
    for i := 0 to |fields|
      invariant ops + OpsOf(req, fields[i..], eventTime) == entry + OpsOf(req, fields, eventTime)
    {
      assert fields[i..][0] == fields[i] && fields[i..][1..] == fields[i + 1..];
      if fields[i].0 != req.idField {
        ops := ops + [SetProperty(fields[i].0, fields[i].1, eventTime)];
      }
    }
  }

  /** `order` and `byNode` after some records. */
  ghost predicate Grouped(req: Request, records: seq<Record>, order: seq<NodeId>,
                          byNode: map<NodeId, seq<SetProperty>>) {
    && order == Order(req, records)
    && (forall q :: q in byNode <==> q in order)
    && forall q :: q in byNode ==> byNode[q] == NodeOps(req, records, q)
  }

  /** A node that has not appeared has no operations. */
  lemma {:induction false} AbsentHasNone(req: Request, records: seq<Record>, qid: NodeId)
    requires qid !in Order(req, records)
    ensures NodeOps(req, records, qid) == []
  {
    if records != [] {
      AbsentHasNone(req, records[..|records| - 1], qid);
    }
  }

  lemma GroupedStep(req: Request, records: seq<Record>, order: seq<NodeId>,
                    byNode: map<NodeId, seq<SetProperty>>, rec: Record, entry: seq<SetProperty>)
    requires Grouped(req, records, order, byNode) && NodeOf(req, rec).Some?
    requires var qid := NodeOf(req, rec).value;
             entry == (if qid in byNode then byNode[qid] else []) + RecordOps(req, rec)
    ensures var qid := NodeOf(req, rec).value;
            Grouped(req, records + [rec], if qid in byNode then order else order + [qid], byNode[qid := entry])
  {
    var qid, all := NodeOf(req, rec).value, records + [rec];
    assert all[..|all| - 1] == records;
    if qid !in byNode { AbsentHasNone(req, records, qid); }
  }

  lemma SkippedStep(req: Request, records: seq<Record>, order: seq<NodeId>,
                    byNode: map<NodeId, seq<SetProperty>>, rec: Record)
    requires Grouped(req, records, order, byNode) && NodeOf(req, rec).None?
    ensures Grouped(req, records + [rec], order, byNode)
  {
    assert (records + [rec])[..|records|] == records;
  }

  method Group(req: Request, records: seq<Record>) returns (items: seq<Item>, skipped: nat)
    ensures items == Items(req, records, Order(req, records)) && skipped == Skipped(req, records)
  {
    var order: seq<NodeId>, byNode: map<NodeId, seq<SetProperty>> := [], map[];
    skipped := 0;
    for i := 0 to |records|
      invariant Grouped(req, records[..i], order, byNode) && skipped == Skipped(req, records[..i])
    {
      var rec := records[i];
      assert records[..i + 1] == records[..i] + [rec] && records[..i + 1][..i] == records[..i];
      var node := NodeOf(req, rec);
      if node.None? {
        SkippedStep(req, records[..i], order, byNode, rec);
        skipped := skipped + 1;
        continue;
      }
      var entry := if node.value in byNode then byNode[node.value] else [];
      entry := PushFields(req, rec.fields, rec.eventTime, entry);
      GroupedStep(req, records[..i], order, byNode, rec, entry);
      if node.value !in byNode {
        order := order + [node.value];
      }
      byNode := byNode[node.value := entry];
    }
    assert records[..|records|] == records;
    items := Collect(req, records, order, byNode);
  }

  /** Each node's entry is taken out of the map once; empty ones are dropped. */
  method Collect(req: Request, ghost records: seq<Record>, order: seq<NodeId>, byNode: map<NodeId, seq<SetProperty>>)
    returns (items: seq<Item>)
    requires Grouped(req, records, order, byNode)
    ensures items == Items(req, records, order)
  {
    items := [];
    var rest := byNode;
    for i := 0 to |order|
      invariant items == Items(req, records, order[..i])
      invariant forall j :: i <= j < |order| ==> order[j] in rest && rest[order[j]] == NodeOps(req, records, order[j])
    {
      var qid := order[i];
      var ops := rest[qid];
      rest := rest - {qid};
      assert order[..i + 1][..i] == order[..i];
      if ops != [] {
        items := items + [Item(qid, ops)];
      }
    }
    assert order[..|order|] == order;
  }

  // ---------------------------------------------------------------------------
  // Nothing lost, nothing duplicated
  // ---------------------------------------------------------------------------

  predicate DistinctNodes(items: seq<Item>) {
    forall i, j :: 0 <= i < j < |items| ==> items[i].qid != items[j].qid
  }

  /** A node has an item exactly when it has operations, and then the item holds all of them. */
  lemma {:induction false} ItemsHoldOps(req: Request, records: seq<Record>, order: seq<NodeId>)
    requires forall i, j :: 0 <= i < j < |order| ==> order[i] != order[j]
    ensures var items := Items(req, records, order);
            && DistinctNodes(items)
            && (forall it :: it in items ==> it.qid in order && it.ops == NodeOps(req, records, it.qid) && it.ops != [])
            && (forall q :: q in order && NodeOps(req, records, q) != [] ==> Item(q, NodeOps(req, records, q)) in items)
    decreases |order|
  {
    if order != [] {
      ItemsHoldOps(req, records, order[..|order| - 1]);
      var before := Items(req, records, order[..|order| - 1]);
      assert forall i :: 0 <= i < |before| ==> before[i] in before;
    }
  }

  /** Every operation of every accepted record, in order of arrival. */
  function Stream(req: Request, records: seq<Record>): seq<(NodeId, SetProperty)> {
    if records == [] then []
    else
      var before, last := Stream(req, records[..|records| - 1]), records[|records| - 1];
      if NodeOf(req, last).None? then before
      else before + Addressed(NodeOf(req, last).value, RecordOps(req, last))
  }

  function Addressed(qid: NodeId, ops: seq<SetProperty>): (r: seq<(NodeId, SetProperty)>)
    ensures |r| == |ops| && forall i :: 0 <= i < |r| ==> r[i] == (qid, ops[i])
  {
    seq(|ops|, i requires 0 <= i < |ops| => (qid, ops[i]))
  }

  /** The operations a stream addresses to one node. */
  function Select(stream: seq<(NodeId, SetProperty)>, qid: NodeId): seq<SetProperty> {
    if stream == [] then []
    else
      var before, last := Select(stream[..|stream| - 1], qid), stream[|stream| - 1];
      if last.0 == qid then before + [last.1] else before
  }

  lemma {:induction false} SelectConcat(a: seq<(NodeId, SetProperty)>, b: seq<(NodeId, SetProperty)>, qid: NodeId)
    ensures Select(a + b, qid) == Select(a, qid) + Select(b, qid)
    decreases |b|
  {
    if b == [] {
      assert a + b == a;
    } else {
      SelectConcat(a, b[..|b| - 1], qid);
      assert (a + b)[..|a + b| - 1] == a + b[..|b| - 1];
    }
  }

  lemma {:induction false} SelectAddressed(node: NodeId, ops: seq<SetProperty>, qid: NodeId)
    ensures Select(Addressed(node, ops), qid) == if node == qid then ops else []
    decreases |ops|
  {
    if ops != [] {
      SelectAddressed(node, ops[..|ops| - 1], qid);
      assert Addressed(node, ops)[..|ops| - 1] == Addressed(node, ops[..|ops| - 1]);
      assert ops == ops[..|ops| - 1] + [ops[|ops| - 1]];
    }
  }

  lemma {:induction false} SelectStream(req: Request, records: seq<Record>, qid: NodeId)
    ensures Select(Stream(req, records), qid) == NodeOps(req, records, qid)
  {
    if records != [] {
      var before, last := records[..|records| - 1], records[|records| - 1];
      SelectStream(req, before, qid);
      if NodeOf(req, last).Some? {
        var node := NodeOf(req, last).value;
        SelectConcat(Stream(req, before), Addressed(node, RecordOps(req, last)), qid);
        SelectAddressed(node, RecordOps(req, last), qid);
      }
    }
  }

  // ---------------------------------------------------------------------------
  // Which fields of which records become operations
  // ---------------------------------------------------------------------------

  /** A record names a node exactly when it is an object whose id field can be read as one. */
  lemma {:induction false} NamesNodeIff(req: Request, rec: Record, qid: NodeId)
    ensures NodeOf(req, rec) == Some(qid) <==>
            rec.Object? && exists i :: && 0 <= i < |rec.fields| && rec.fields[i].0 == req.idField
                                       && (forall j :: 0 <= j < i ==> rec.fields[j].0 != req.idField)
                                       && req.idOf(rec.fields[i].1) == Some(qid)
  {
    if rec.Object? {
      LookupIsFirst(rec.fields, req.idField);
    }
  }

  lemma {:induction false} LookupIsFirst(fields: seq<(string, Json)>, key: string)
    ensures Lookup(fields, key).None? ==> forall j :: 0 <= j < |fields| ==> fields[j].0 != key
    ensures Lookup(fields, key).Some? ==>
              exists i :: && 0 <= i < |fields| && fields[i].0 == key && Lookup(fields, key) == Some(fields[i].1)
                          && forall j :: 0 <= j < i ==> fields[j].0 != key
  {
    if fields != [] && fields[0].0 != key {
      LookupIsFirst(fields[1..], key);
      assert forall j :: 1 <= j < |fields| ==> fields[j] == fields[1..][j - 1];
      if Lookup(fields, key).Some? {
        var i :| && 0 <= i < |fields| - 1 && fields[1..][i].0 == key && Lookup(fields, key) == Some(fields[1..][i].1)
                 && forall j :: 0 <= j < i ==> fields[1..][j].0 != key;
        assert fields[i + 1].0 == key;
      }
    }
  }

  /** Field number `field` of record number `record`. */
  datatype Origin = Origin(record: nat, field: nat)

  /** The field belongs to a record of the node and is not its id field. */
  predicate IsOrigin(req: Request, records: seq<Record>, qid: NodeId, o: Origin) {
    && o.record < |records| && NodeOf(req, records[o.record]) == Some(qid)
    && o.field < |records[o.record].fields| && records[o.record].fields[o.field].0 != req.idField
  }

  predicate Earlier(o: Origin, p: Origin) {
    o.record < p.record || (o.record == p.record && o.field < p.field)
  }

  /** The operation sets that field's name to that field's value, with its record's event time. */
  predicate ComesFrom(records: seq<Record>, op: SetProperty, o: Origin)
    requires o.record < |records| && records[o.record].Object? && o.field < |records[o.record].fields|
  {
    var rec := records[o.record];
    op == SetProperty(rec.fields[o.field].0, rec.fields[o.field].1, rec.eventTime)
  }

  /** The operations are those of the given fields, in order of record and field, each once, and
      these are all the fields of the node's records but the id fields. */
  ghost predicate Explained(req: Request, records: seq<Record>, qid: NodeId,
                            ops: seq<SetProperty>, origins: seq<Origin>) {
    && |origins| == |ops|
    && (forall i :: 0 <= i < |ops| ==>
          IsOrigin(req, records, qid, origins[i]) && ComesFrom(records, ops[i], origins[i]))
    && (forall i, j :: 0 <= i < j < |ops| ==> Earlier(origins[i], origins[j]))
    && (forall o :: IsOrigin(req, records, qid, o) ==> o in origins)
  }

  function FieldOrigins(req: Request, fields: seq<(string, Json)>, record: nat, i: nat): seq<Origin>
    requires i <= |fields|
    decreases |fields| - i
  {
    if i == |fields| then []
    else
      var rest := FieldOrigins(req, fields, record, i + 1);
      if fields[i].0 == req.idField then rest else [Origin(record, i)] + rest
  }

  /** What `Explained` says, of the fields from i on of one record. */
  ghost predicate FieldsExplained(req: Request, fields: seq<(string, Json)>, eventTime: Option<nat>,
                                  record: nat, i: nat, ops: seq<SetProperty>, origins: seq<Origin>) {
    && |origins| == |ops|
    && (forall k :: 0 <= k < |ops| ==>
          && origins[k].record == record && i <= origins[k].field < |fields|
          && fields[origins[k].field].0 != req.idField
          && ops[k] == SetProperty(fields[origins[k].field].0, fields[origins[k].field].1, eventTime))
    && (forall k, l :: 0 <= k < l < |ops| ==> origins[k].field < origins[l].field)
    && (forall f: nat :: i <= f < |fields| && fields[f].0 != req.idField ==> Origin(record, f) in origins)
  }

  lemma ExplainFront(req: Request, fields: seq<(string, Json)>, eventTime: Option<nat>, record: nat, i: nat,
                     ops: seq<SetProperty>, origins: seq<Origin>)
    requires i < |fields| && FieldsExplained(req, fields, eventTime, record, i + 1, ops, origins)
    ensures fields[i].0 == req.idField ==> FieldsExplained(req, fields, eventTime, record, i, ops, origins)
    ensures fields[i].0 != req.idField ==>
              FieldsExplained(req, fields, eventTime, record, i,
                              [SetProperty(fields[i].0, fields[i].1, eventTime)] + ops, [Origin(record, i)] + origins)
  {
  }

  lemma {:induction false} ExplainFields(req: Request, fields: seq<(string, Json)>, eventTime: Option<nat>,
                                         record: nat, i: nat)
    requires i <= |fields|
    ensures FieldsExplained(req, fields, eventTime, record, i,
                            OpsOf(req, fields[i..], eventTime), FieldOrigins(req, fields, record, i))
    decreases |fields| - i
  {
    if i < |fields| {
      ExplainFields(req, fields, eventTime, record, i + 1);
      assert fields[i..][0] == fields[i] && fields[i..][1..] == fields[i + 1..];
      ExplainFront(req, fields, eventTime, record, i,
                   OpsOf(req, fields[i + 1..], eventTime), FieldOrigins(req, fields, record, i + 1));
    }
  }

  lemma OriginsGrow(req: Request, records: seq<Record>, rec: Record, qid: NodeId, o: Origin)
    ensures IsOrigin(req, records + [rec], qid, o) <==>
            IsOrigin(req, records, qid, o) ||
            (o.record == |records| && NodeOf(req, rec) == Some(qid) && o.field < |rec.fields| &&
             rec.fields[o.field].0 != req.idField)
  {
  }

  lemma ExplainSnoc(req: Request, records: seq<Record>, rec: Record, qid: NodeId, ops: seq<SetProperty>,
                    origins: seq<Origin>, more: seq<SetProperty>, from: seq<Origin>)
    requires Explained(req, records, qid, ops, origins) && NodeOf(req, rec) == Some(qid)
    requires FieldsExplained(req, rec.fields, rec.eventTime, |records|, 0, more, from)
    ensures Explained(req, records + [rec], qid, ops + more, origins + from)
  {
    var all := records + [rec];
    forall i | 0 <= i < |ops + more|
      ensures IsOrigin(req, all, qid, (origins + from)[i]) && ComesFrom(all, (ops + more)[i], (origins + from)[i])
    {
      OriginsGrow(req, records, rec, qid, (origins + from)[i]);
      if i < |ops| {
        assert IsOrigin(req, records, qid, origins[i]) && ComesFrom(records, ops[i], origins[i]);
      } else {
        assert from[i - |ops|].record == |records|;
      }
    }
    forall i, j | 0 <= i < j < |ops + more| ensures Earlier((origins + from)[i], (origins + from)[j]) {
      if i < |ops| {
        assert IsOrigin(req, records, qid, origins[i]);
      }
    }
    forall o | IsOrigin(req, all, qid, o) ensures o in origins + from {
      OriginsGrow(req, records, rec, qid, o);
      assert o.record == |records| ==> o == Origin(|records|, o.field);
    }
  }

  lemma ExplainOther(req: Request, records: seq<Record>, rec: Record, qid: NodeId,
                     ops: seq<SetProperty>, origins: seq<Origin>)
    requires Explained(req, records, qid, ops, origins) && NodeOf(req, rec) != Some(qid)
    ensures Explained(req, records + [rec], qid, ops, origins)
  {
    var all := records + [rec];
    forall o | IsOrigin(req, all, qid, o) ensures o in origins {
      assert IsOrigin(req, records, qid, o);
    }
  }

  /** A node's operations are exactly, in order and each once, the fields of its records other than
      the id field, each with that field's name and value and that record's event time. */
  lemma {:induction false} OpsAreFields(req: Request, records: seq<Record>, qid: NodeId) returns (origins: seq<Origin>)
    ensures Explained(req, records, qid, NodeOps(req, records, qid), origins)
  {
    origins := [];
    if records != [] {
      var before, last := records[..|records| - 1], records[|records| - 1];
      origins := OpsAreFields(req, before, qid);
      assert records == before + [last];
      if NodeOf(req, last) == Some(qid) {
        var from := FieldOrigins(req, last.fields, |before|, 0);
        ExplainFields(req, last.fields, last.eventTime, |before|, 0);
        assert last.fields[0..] == last.fields;
        ExplainSnoc(req, before, last, qid, NodeOps(req, before, qid), origins, RecordOps(req, last), from);
        origins := origins + from;
      } else {
        ExplainOther(req, before, last, qid, NodeOps(req, before, qid), origins);
      }
    }
  }

  /** Every item holds its node's fields, and the id field is never written. */
  lemma ItemsAreFields(req: Request, records: seq<Record>, it: Item) returns (origins: seq<Origin>)
    requires it in Items(req, records, Order(req, records))
    ensures Explained(req, records, it.qid, it.ops, origins)
    ensures forall op :: op in it.ops ==> op.key != req.idField
  {
    ItemsHoldOps(req, records, Order(req, records));
    origins := OpsAreFields(req, records, it.qid);
    forall op | op in it.ops ensures op.key != req.idField {
      var i :| 0 <= i < |it.ops| && it.ops[i] == op;
      assert IsOrigin(req, records, it.qid, origins[i]) && ComesFrom(records, op, origins[i]);
    }
  }

  /** The records that are skipped are those that name no node. */
  lemma {:induction false} SkippedIsCount(req: Request, records: seq<Record>)
    ensures Skipped(req, records) == |set i | 0 <= i < |records| && NodeOf(req, records[i]).None?|
  {
    if records != [] {
      var before, n := records[..|records| - 1], |records| - 1;
      SkippedIsCount(req, before);
      var earlier := set i | 0 <= i < n && NodeOf(req, before[i]).None?;
      var all := set i | 0 <= i < |records| && NodeOf(req, records[i]).None?;
      assert forall i :: 0 <= i < n ==> before[i] == records[i];
      if NodeOf(req, records[n]).None? {
        assert all == earlier + {n};
      } else {
        assert all == earlier;
      }
    }
  }

  /** Record number i is about the node. */
  predicate IsAbout(req: Request, records: seq<Record>, i: nat, qid: NodeId) {
    i < |records| && NodeOf(req, records[i]) == Some(qid)
  }

  predicate IsMentioned(req: Request, records: seq<Record>, qid: NodeId) {
    exists i :: 0 <= i < |records| && IsAbout(req, records, i, qid)
  }

  /** Some record about the one node comes before every record about the other. */
  predicate AppearsFirst(req: Request, records: seq<Record>, qid: NodeId, other: NodeId) {
    exists i :: 0 <= i < |records| && IsAbout(req, records, i, qid) &&
      forall j :: 0 <= j < |records| && IsAbout(req, records, j, other) ==> i < j
  }

  lemma AboutStep(req: Request, records: seq<Record>, rec: Record, q: NodeId, r: NodeId)
    ensures IsMentioned(req, records + [rec], q) <==> IsMentioned(req, records, q) || NodeOf(req, rec) == Some(q)
    ensures AppearsFirst(req, records, q, r) ==> AppearsFirst(req, records + [rec], q, r)
    ensures IsMentioned(req, records, q) && !IsMentioned(req, records, r) ==> AppearsFirst(req, records + [rec], q, r)
  {
    var all := records + [rec];
    forall i: nat, x ensures IsAbout(req, all, i, x) <==>
                             IsAbout(req, records, i, x) || (i == |records| && NodeOf(req, rec) == Some(x)) {
    }
    if NodeOf(req, rec) == Some(q) {
      assert IsAbout(req, all, |records|, q);
    }
    if IsMentioned(req, records, q) {
      var i :| 0 <= i < |records| && IsAbout(req, records, i, q);
      assert IsAbout(req, all, i, q);
    }
    if AppearsFirst(req, records, q, r) {
      var i :| 0 <= i < |records| && IsAbout(req, records, i, q) &&
               forall j :: 0 <= j < |records| && IsAbout(req, records, j, r) ==> i < j;
      assert IsAbout(req, all, i, q);
    }
  }

  predicate InAppearanceOrder(req: Request, records: seq<Record>, order: seq<NodeId>) {
    forall a, b :: 0 <= a < b < |order| ==> AppearsFirst(req, records, order[a], order[b])
  }

  lemma AppearanceStep(req: Request, records: seq<Record>, rec: Record, order: seq<NodeId>, a: nat, b: nat)
    requires a < b < |order| && InAppearanceOrder(req, records, order)
    ensures AppearsFirst(req, records + [rec], order[a], order[b])
  {
    AboutStep(req, records, rec, order[a], order[b]);
  }

  /** The nodes in the order are those that records are about, and each comes before those that
      appear later. */
  lemma {:induction false} OrderIsFirstAppearance(req: Request, records: seq<Record>)
    ensures forall q :: q in Order(req, records) <==> IsMentioned(req, records, q)
    ensures InAppearanceOrder(req, records, Order(req, records))
  {
    if records != [] {
      var before, last := records[..|records| - 1], records[|records| - 1];
      assert records == before + [last];
      OrderIsFirstAppearance(req, before);
      var order, order' := Order(req, before), Order(req, records);
      forall q ensures q in order' <==> IsMentioned(req, records, q) {
        AboutStep(req, before, last, q, q);
      }
      forall a, b | 0 <= a < b < |order'| ensures AppearsFirst(req, records, order'[a], order'[b]) {
        assert order'[a] == order[a] && order[a] in order;
        if b < |order| {
          AppearanceStep(req, before, last, order, a, b);
        } else {
          AboutStep(req, before, last, order[a], order'[b]);
        }
      }
    }
  }

  // ---------------------------------------------------------------------------
  // The same meaning
  // ---------------------------------------------------------------------------

  /** How nodes change: their initial state and the effect of one operation. */
  datatype Semantics<!S> = Semantics(start: S, step: (S, SetProperty) -> S)

  function Get<S>(sem: Semantics<S>, st: map<NodeId, S>, qid: NodeId): S {
    if qid in st then st[qid] else sem.start
  }

  function Fold<S>(sem: Semantics<S>, s: S, ops: seq<SetProperty>): S {
    if ops == [] then s else sem.step(Fold(sem, s, ops[..|ops| - 1]), ops[|ops| - 1])
  }

  function ApplyStream<S>(sem: Semantics<S>, st: map<NodeId, S>, stream: seq<(NodeId, SetProperty)>): map<NodeId, S> {
    if stream == [] then st
    else
      var before, last := ApplyStream(sem, st, stream[..|stream| - 1]), stream[|stream| - 1];
      before[last.0 := sem.step(Get(sem, before, last.0), last.1)]
  }

  function ApplyItems<S>(sem: Semantics<S>, st: map<NodeId, S>, items: seq<Item>): map<NodeId, S> {
    if items == [] then st
    else
      var before, last := ApplyItems(sem, st, items[..|items| - 1]), items[|items| - 1];
      before[last.qid := Fold(sem, Get(sem, before, last.qid), last.ops)]
  }

  lemma {:induction false} StreamAtNode<S>(sem: Semantics<S>, st: map<NodeId, S>,
                                           stream: seq<(NodeId, SetProperty)>, qid: NodeId)
    ensures var r := ApplyStream(sem, st, stream);
            && Get(sem, r, qid) == Fold(sem, Get(sem, st, qid), Select(stream, qid))
            && (qid in r <==> qid in st || Select(stream, qid) != [])
    decreases |stream|
  {
    if stream != [] {
      var before, last := stream[..|stream| - 1], stream[|stream| - 1];
      StreamAtNode(sem, st, before, qid);
      if last.0 == qid {
        assert (Select(before, qid) + [last.1])[..|Select(before, qid)|] == Select(before, qid);
      }
    }
  }

  lemma {:induction false} ItemsAtNode<S>(sem: Semantics<S>, st: map<NodeId, S>, items: seq<Item>, qid: NodeId)
    requires DistinctNodes(items)
    ensures var r := ApplyItems(sem, st, items);
            && (forall it :: it in items && it.qid == qid ==>
                  qid in r && Get(sem, r, qid) == Fold(sem, Get(sem, st, qid), it.ops))
            && ((forall it :: it in items ==> it.qid != qid) ==>
                  Get(sem, r, qid) == Get(sem, st, qid) && (qid in r <==> qid in st))
    decreases |items|
  {
    if items != [] {
      var before, last := items[..|items| - 1], items[|items| - 1];
      ItemsAtNode(sem, st, before, qid);
      assert forall it :: it in items <==> it in before || it == last;
      if last.qid == qid {
        assert forall i :: 0 <= i < |before| ==> items[i].qid != qid;
        assert forall it :: it in before ==> it.qid != qid;
      }
    }
  }

  lemma SameItemsDistinct(items: seq<Item>, perm: seq<Item>)
    requires multiset(perm) == multiset(items) && DistinctNodes(items)
    ensures DistinctNodes(perm) && forall it :: it in perm <==> it in items
  {
    forall it ensures it in perm <==> it in items {
      assert it in multiset(perm) <==> it in multiset(items);
    }
    forall i, j | 0 <= i < j < |perm| ensures perm[i].qid != perm[j].qid {
      if perm[i].qid == perm[j].qid {
        SameNodeSameItem(items, perm[i], perm[j]);
        TwiceCounts(perm, i, j);
        OnceInSeq(items, perm[i]);
      }
    }
  }

  lemma SameNodeSameItem(items: seq<Item>, a: Item, b: Item)
    requires DistinctNodes(items) && a in items && b in items && a.qid == b.qid
    ensures a == b
  {
  }

  lemma {:induction false} OnceInSeq(items: seq<Item>, it: Item)
    requires DistinctNodes(items)
    ensures multiset(items)[it] <= 1
    decreases |items|
  {
    if items != [] {
      var before, last := items[..|items| - 1], items[|items| - 1];
      assert items == before + [last];
      OnceInSeq(before, it);
      if last == it {
        assert forall i :: 0 <= i < |before| ==> before[i] != it;
        assert it !in before;
      }
    }
  }

  /** Nodes do not interfere: any order of the operations that keeps each node's own order has
      the same result, whether the items of different nodes are applied one after the other or
      at the same time. */
  lemma AnyOrderPreservesMeaning<S>(req: Request, records: seq<Record>, stream: seq<(NodeId, SetProperty)>,
                                    sem: Semantics<S>, st: map<NodeId, S>)
    requires forall q :: Select(stream, q) == NodeOps(req, records, q)
    ensures ApplyStream(sem, st, stream) == ApplyStream(sem, st, Stream(req, records))
  {
    var a, b := ApplyStream(sem, st, stream), ApplyStream(sem, st, Stream(req, records));
    forall q: NodeId ensures (q in a <==> q in b) && Get(sem, a, q) == Get(sem, b, q) {
      StreamAtNode(sem, st, stream, q);
      StreamAtNode(sem, st, Stream(req, records), q);
      SelectStream(req, records, q);
      assert Select(stream, q) == NodeOps(req, records, q);
    }
    SameAtEveryNode(sem, a, b);
  }

  lemma SameAtEveryNode<S>(sem: Semantics<S>, a: map<NodeId, S>, b: map<NodeId, S>)
    requires forall q: NodeId :: (q in a <==> q in b) && Get(sem, a, q) == Get(sem, b, q)
    ensures a == b
  {
    forall q: NodeId | q in a && q in b ensures a[q] == b[q] {
      assert Get(sem, a, q) == Get(sem, b, q);
    }
    assert a.Keys == b.Keys;
  }

  /** Coalescing preserves meaning: applying the items in any order is applying the accepted
      records one by one, for every initial state and every effect of an operation. */
  lemma CoalescingPreservesMeaning<S>(req: Request, records: seq<Record>, perm: seq<Item>,
                                      sem: Semantics<S>, st: map<NodeId, S>)
    requires multiset(perm) == multiset(Items(req, records, Order(req, records)))
    ensures DistinctNodes(perm)
    ensures ApplyItems(sem, st, perm) == ApplyStream(sem, st, Stream(req, records))
  {
    var order := Order(req, records);
    var items := Items(req, records, order);
    ItemsHoldOps(req, records, order);
    SameItemsDistinct(items, perm);
    var a, b := ApplyItems(sem, st, perm), ApplyStream(sem, st, Stream(req, records));
    forall q: NodeId ensures (q in a <==> q in b) && Get(sem, a, q) == Get(sem, b, q) {
      StreamAtNode(sem, st, Stream(req, records), q);
      SelectStream(req, records, q);
      ItemsAtNode(sem, st, perm, q);
      var ops := NodeOps(req, records, q);
      if q !in order { AbsentHasNone(req, records, q); }
      if ops != [] { assert Item(q, ops) in perm; }
    }
    SameAtEveryNode(sem, a, b);
  }

  // ---------------------------------------------------------------------------
  // The last record wins
  // ---------------------------------------------------------------------------

  type Properties = map<string, Json>

  /** Properties that hold the last value set. */
  const LAST_VALUE: Semantics<Properties> := Semantics(map[], (m: Properties, op: SetProperty) => m[op.key := op.value])

  lemma FoldOne(m: Properties, ops: seq<SetProperty>)
    requires ops != []
    ensures var last := ops[|ops| - 1];
            Fold(LAST_VALUE, m, ops) == Fold(LAST_VALUE, m, ops[..|ops| - 1])[last.key := last.value]
  {
  }

  /** Operation i is the last one on its key. */
  predicate IsLastOp(ops: seq<SetProperty>, i: nat) {
    i < |ops| && forall j :: i < j < |ops| ==> ops[j].key != ops[i].key
  }

  lemma {:induction false} FoldKeepsLast(m: Properties, ops: seq<SetProperty>, i: nat)
    requires IsLastOp(ops, i)
    ensures var r := Fold(LAST_VALUE, m, ops); ops[i].key in r && r[ops[i].key] == ops[i].value
    decreases |ops|
  {
    FoldOne(m, ops);
    var before := ops[..|ops| - 1];
    if i < |before| {
      assert IsLastOp(before, i) && before[i] == ops[i];
      FoldKeepsLast(m, before, i);
      assert ops[|ops| - 1].key != ops[i].key;
    }
  }

  /** Field o of a record of the node carries the key, and no later field of its records does. */
  ghost predicate IsLastOf(req: Request, records: seq<Record>, qid: NodeId, key: string, o: Origin) {
    && IsOrigin(req, records, qid, o) && records[o.record].fields[o.field].0 == key
    && forall p :: IsOrigin(req, records, qid, p) && Earlier(o, p) ==> records[p.record].fields[p.field].0 != key
  }

  /** After all items, in any order, a property of a node holds the value of the last field of its
      records that carries the key. */
  lemma LastRecordWins(req: Request, records: seq<Record>, perm: seq<Item>, st: map<NodeId, Properties>,
                       qid: NodeId, key: string, o: Origin)
    requires multiset(perm) == multiset(Items(req, records, Order(req, records)))
    requires IsLastOf(req, records, qid, key, o)
    ensures var r := ApplyItems(LAST_VALUE, st, perm);
            qid in r && key in r[qid] && r[qid][key] == records[o.record].fields[o.field].1
  {
    CoalescingPreservesMeaning(req, records, perm, LAST_VALUE, st);
    StreamAtNode(LAST_VALUE, st, Stream(req, records), qid);
    SelectStream(req, records, qid);
    var ops := NodeOps(req, records, qid);
    var origins := OpsAreFields(req, records, qid);
    assert o in origins;
    var i :| 0 <= i < |origins| && origins[i] == o;
    assert ComesFrom(records, ops[i], o);
    forall j | i < j < |ops| ensures ops[j].key != key {
      assert Earlier(origins[i], origins[j]) && ComesFrom(records, ops[j], origins[j]);
    }
    FoldKeepsLast(Get(LAST_VALUE, st, qid), ops, i);
  }
}
