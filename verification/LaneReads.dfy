/** The step results of module LaneSteps after decoding: what `ReadNode` and `ReadEdge` return. */
module LaneReads {
  import opened Bytes
  import opened Graph
  import opened Serialization
  import opened EdgeList
  import opened Memtable
  import opened Wal
  import opened Lane
  import opened LaneSteps

  lemma NodeOnTopReads(stack: seq<Bytes>, v: Bytes, n: Node)
    requires Tops(stack, v) && EncodesNode(v, n) && FitsNode(n)
    ensures NewestNode(stack) == Some(NormNode(n))
  {
    NodeRoundTrip(v, n);
  }

  lemma EdgeOnTopReads(stack: seq<Bytes>, v: Bytes, e: Edge)
    requires Tops(stack, v) && EncodesEdge(v, e) && FitsEdge(e)
    ensures NewestEdge(stack) == Some(NormEdge(e))
  {
    EdgeRoundTrip(v, e);
  }

  lemma NodeKeysDiffer(a: Bytes, b: Bytes)
    ensures NodeKey(a) == NodeKey(b) <==> a == b
    ensures EdgeKey(a) == EdgeKey(b) <==> a == b
    ensures OutKey(a) == OutKey(b) <==> a == b
    ensures InKey(a) == InKey(b) <==> a == b
  {
    if NodeKey(a) == NodeKey(b) { PrefixInjective(NODE_PREFIX, a, b); }
    if EdgeKey(a) == EdgeKey(b) { PrefixInjective(EDGE_PREFIX, a, b); }
    if OutKey(a) == OutKey(b) { PrefixInjective(OUT_PREFIX, a, b); }
    if InKey(a) == InKey(b) { PrefixInjective(IN_PREFIX, a, b); }
  }

  function KeysOf(id: Bytes, list: Bytes): Keys {
    Keys(NodeKey(id), EdgeKey(id), list)
  }

  /** A node write, whatever it stores, is not seen by readers of edges. */
  lemma NodeStepElsewhere(l: Lane, n: Node, l': Lane, out: NodeOutcome, id: Bytes, key: Bytes)
    requires WriteNodeStep(l, n, l', out) && out != NodeCrashed
    ensures ReadEdge(l', id) == ReadEdge(l, id) && ListBytes(l', key) == ListBytes(l, key)
  {
    hide EncodesNode, WriteNodeWith;
    if !l.stopped && Supported(n.props) {
      var logged, stored, retried, now :|
        EncodesNode(logged, n) && EncodesNode(stored, n) && EncodesNode(retried, n)
        && (l', out) == WriteNodeWith(l, n, logged, stored, retried, now);
      NodeWriteLook(l, n, logged, stored, retried, now, KeysOf(id, key));
    }
  }

  /** Main step result for nodes: a successful write is what is read next, and nothing else any
      reader sees moves, whether or not tables were rotated. */
  lemma NodeStepReads(l: Lane, n: Node, l': Lane, out: NodeOutcome, id: Bytes, key: Bytes)
    requires WriteNodeStep(l, n, l', out) && out != NodeCrashed && (out.NodeWritten? ==> FitsNode(n))
    ensures ReadNode(l', id) == if out.NodeWritten? && id == n.id then Some(NormNode(n)) else ReadNode(l, id)
    ensures ReadEdge(l', id) == ReadEdge(l, id) && ListBytes(l', key) == ListBytes(l, key)
  {
    if !l.stopped && Supported(n.props) {
      var logged, stored, retried, now :|
        EncodesNode(logged, n) && EncodesNode(stored, n) && EncodesNode(retried, n)
        && (l', out) == WriteNodeWith(l, n, logged, stored, retried, now);
      var k := KeysOf(id, key);
      NodeWriteLook(l, n, logged, stored, retried, now, k);
      NodeKeysDiffer(id, n.id);
      if out.NodeWritten? && id == n.id {
        var s := NodeStack(l', NodeKey(id));
        NodeOnTopReads(s, if Tops(s, stored) then stored else retried, n);
      }
    }
  }

  /** An edge write, whatever it stores, is not seen by readers of nodes. */
  lemma EdgeStepElsewhere(l: Lane, e: Edge, l': Lane, out: EdgeOutcome, id: Bytes)
    requires WriteEdgeStep(l, e, l', out) && out != EdgeCrashed
    ensures ReadNode(l', id) == ReadNode(l, id)
  {
    hide EncodesEdge, WriteEdgeWith;
    if !l.stopped && Supported(e.props) {
      var logged, stored, retried, rewritten, now :|
        EncodesEdge(logged, e) && EncodesEdge(stored, e) && EncodesEdge(retried, e) && EncodesEdge(rewritten, e)
        && (l', out) == WriteEdgeWith(l, e, logged, stored, retried, rewritten, now);
      EdgeWriteLook(l, e, logged, stored, retried, rewritten, now, KeysOf(id, []));
    }
  }

  /** Main step result for edges, for every outcome and not only for success: the error that
      `WriteEdge` returns tells exactly whether the edge can be read, whether its source lists it
      and whether its target does. */
  lemma EdgeStepReads(l: Lane, e: Edge, l': Lane, out: EdgeOutcome, id: Bytes, key: Bytes)
    requires WriteEdgeStep(l, e, l', out) && out != EdgeCrashed && (Kept(out) ==> FitsEdge(e))
    ensures ReadNode(l', id) == ReadNode(l, id)
    ensures ReadEdge(l', id) == if Kept(out) && id == e.id then Some(NormEdge(e)) else ReadEdge(l, id)
    ensures ListBytes(l', key) == ListBytes(l, key) + NewItems(e, OutListed(out), InListed(out), key)
  {
    if !l.stopped && Supported(e.props) {
      var logged, stored, retried, rewritten, now :|
        EncodesEdge(logged, e) && EncodesEdge(stored, e) && EncodesEdge(retried, e) && EncodesEdge(rewritten, e)
        && (l', out) == WriteEdgeWith(l, e, logged, stored, retried, rewritten, now);
      EdgeWriteLook(l, e, logged, stored, retried, rewritten, now, KeysOf(id, key));
      NodeKeysDiffer(id, e.id);
      if Kept(out) && id == e.id {
        var s := EdgeStack(l', EdgeKey(id));
        EdgeOnTopReads(s, if Tops(s, stored) then stored else if Tops(s, retried) then retried else rewritten, e);
      }
    } else {
      NothingAdded(ListBytes(l, key));
    }
  }

  lemma ReplayNodeElsewhere(l: Lane, n: Node, l': Lane, r: PutResult, id: Bytes, key: Bytes)
    requires ReplayNodeStep(l, n, l', r) && !r.Panicked?
    ensures ReadEdge(l', id) == ReadEdge(l, id) && ListBytes(l', key) == ListBytes(l, key)
  {
    var stored :| EncodesNode(stored, n) && (l', r) == PutInNodes(l, NodeKey(n.id), stored);
    PutInNodesLook(l, NodeKey(n.id), stored, KeysOf(id, key));
  }

  lemma ReplayNodeReads(l: Lane, n: Node, l': Lane, r: PutResult, id: Bytes, key: Bytes)
    requires ReplayNodeStep(l, n, l', r) && !r.Panicked? && (r.Stored? ==> FitsNode(n))
    ensures ReadNode(l', id) == if r.Stored? && id == n.id then Some(NormNode(n)) else ReadNode(l, id)
    ensures ReadEdge(l', id) == ReadEdge(l, id) && ListBytes(l', key) == ListBytes(l, key)
  {
    var stored :| EncodesNode(stored, n) && (l', r) == PutInNodes(l, NodeKey(n.id), stored);
    var k := KeysOf(id, key);
    PutInNodesLook(l, NodeKey(n.id), stored, k);
    NodeKeysDiffer(id, n.id);
    if r.Stored? && id == n.id {
      NodeOnTopReads(NodeStack(l', NodeKey(id)), stored, n);
    }
  }

  lemma ReplayEdgeLook(l: Lane, e: Edge, stored: Bytes, k: Keys)
    requires Ready(l) && NoTombstones(Last(l.edges)) && NoTombstones(Last(l.adj))
    ensures var (l', r, out, inc) := ReplayEdgeWith(l, e, stored);
            && SameShape(l, l') && NodeStack(l', k.node) == NodeStack(l, k.node)
            && ListBytes(l', k.list) == ListBytes(l, k.list) + NewItems(e, out, inc, k.list)
            && (if r.Stored? && k.edge == EdgeKey(e.id) then Tops(EdgeStack(l', k.edge), stored)
                else EdgeStack(l', k.edge) == EdgeStack(l, k.edge))
  {
    PutInEdgesLook(l, EdgeKey(e.id), stored, k);
    var (l1, r) := PutInEdges(l, EdgeKey(e.id), stored);
    if r.Stored? {
      OutIsNotIn(e.from, e.to);
      AddInAdjLook(l1, OutKey(e.from), e.id, k);
      AddNeverPanics(l1, OutKey(e.from), e.id);
      var l2 := AddInAdj(l1, OutKey(e.from), e.id).0;
      AddInAdjLook(l2, InKey(e.to), e.id, k);
      AddNeverPanics(l2, InKey(e.to), e.id);
      NothingAdded(ListBytes(l1, k.list));
      NothingAdded(ListBytes(l2, k.list));
    } else {
      NothingAdded(ListBytes(l, k.list));
    }
  }

  lemma AddNeverPanics(l: Lane, key: Bytes, edgeID: Bytes)
    requires Ready(l) && NoTombstones(Last(l.adj))
    ensures var (l', r) := AddInAdj(l, key, edgeID); !r.Panicked? && NoTombstones(Last(l'.adj))
  {
  }

  ghost predicate NoTombstones(t: Table) {
    forall k :: k in t.data ==> t.data[k].Some?
  }

  lemma ReplayEdgeElsewhere(l: Lane, e: Edge, l': Lane, r: PutResult, out: bool, inc: bool, id: Bytes)
    requires ReplayEdgeStep(l, e, l', r, out, inc)
    requires NoTombstones(Last(l.edges)) && NoTombstones(Last(l.adj))
    ensures ReadNode(l', id) == ReadNode(l, id)
  {
    var stored :| EncodesEdge(stored, e) && (l', r, out, inc) == ReplayEdgeWith(l, e, stored);
    ReplayEdgeLook(l, e, stored, KeysOf(id, []));
  }

  lemma ReplayEdgeReads(l: Lane, e: Edge, l': Lane, r: PutResult, out: bool, inc: bool, id: Bytes, key: Bytes)
    requires ReplayEdgeStep(l, e, l', r, out, inc) && (r.Stored? ==> FitsEdge(e))
    requires NoTombstones(Last(l.edges)) && NoTombstones(Last(l.adj))
    ensures ReadNode(l', id) == ReadNode(l, id)
    ensures ReadEdge(l', id) == if r.Stored? && id == e.id then Some(NormEdge(e)) else ReadEdge(l, id)
    ensures ListBytes(l', key) == ListBytes(l, key) + NewItems(e, out, inc, key)
  {
    var stored :| EncodesEdge(stored, e) && (l', r, out, inc) == ReplayEdgeWith(l, e, stored);
    ReplayEdgeLook(l, e, stored, KeysOf(id, key));
    NodeKeysDiffer(id, e.id);
    if r.Stored? && id == e.id {
      EdgeOnTopReads(EdgeStack(l', EdgeKey(id)), stored, e);
    }
  }

  /** A tombstone or a table removed after flushing touches nodes only. */
  lemma NodeTablesOnly(l: Lane, l': Lane, id: Bytes, key: Bytes)
    requires l'.edges == l.edges && l'.adj == l.adj
    ensures ReadEdge(l', id) == ReadEdge(l, id) && ListBytes(l', key) == ListBytes(l, key)
  {
  }

  lemma StackInit(ts: seq<Table>, us: seq<Table>, key: Bytes)
    requires ts != [] && |us| == |ts| && us[..|ts| - 1] == ts[..|ts| - 1]
    ensures Stack(us, |ts| - 1, key) == Stack(ts, |ts| - 1, key)
  {
    hide Stack;
    forall i | 0 <= i < |ts| - 1
      ensures us[i] == ts[i]
    {
      assert us[..|ts| - 1][i] == ts[..|ts| - 1][i];
    }
    StackSame(ts, us, |ts| - 1, key);
  }

  /** Replaying a deletion takes the node whose key it names out of the active table: a version in an older
      table is read again, for a tombstone hides nothing there. Nothing else changes for readers. */
  lemma ReplayDeleteReads(l: Lane, key: Bytes, id: Bytes, list: Bytes)
    requires Ready(l)
    ensures var l' := ReplayDelete(l, key);
            && ReadNode(l', id) == (if NodeKey(id) == key then NewestTo(l.nodes, |l.nodes| - 1, id)
                                    else ReadNode(l, id))
            && ReadEdge(l', id) == ReadEdge(l, id) && ListBytes(l', list) == ListBytes(l, list)
  {
    hide NewestNode, Delete;
    var l' := ReplayDelete(l, key);
    var n := |l.nodes| - 1;
    DeleteExactly(Last(l.nodes), key);
    StackInit(l.nodes, l'.nodes, NodeKey(id));
    NothingAdded(Stack(l.nodes, n, NodeKey(id)));
  }

  // ---------- removing a flushed node table ----------

  /** A table between the `i`-th and the `n`-th has a version of the node that can be read. */
  ghost predicate Overridden(ts: seq<Table>, i: nat, n: nat, id: Bytes) {
    exists j :: i < j < n && j < |ts| && GetNode(ts[j], id).Some?
  }

  /** The newest version in the `n` oldest tables. */
  function NewestTo(ts: seq<Table>, n: nat, id: Bytes): Option<Node>
    requires n <= |ts|
  {
    NewestNode(Stack(ts, n, NodeKey(id)))
  }

  lemma {:induction false} WithoutTable(ts: seq<Table>, us: seq<Table>, i: nat, n: nat, id: Bytes)
    requires i < n <= |ts| && us == ts[..i] + ts[i + 1..]
    ensures NewestTo(us, n - 1, id)
         == if Overridden(ts, i, n, id) then NewestTo(ts, n, id) else NewestTo(ts, i, id)
    ensures !Overridden(ts, i, n, id) ==>
              NewestTo(ts, n, id) == if GetNode(ts[i], id).Some? then GetNode(ts[i], id) else NewestTo(ts, i, id)
    decreases n
  {
    hide GetNode, NewestNode, Stack;
    NewestNodeStep(ts, n, id);
    if n == i + 1 {
      StackSame(ts, us, i, NodeKey(id));
    } else {
      WithoutTable(ts, us, i, n - 1, id);
      NewestNodeStep(us, n - 1, id);
      assert us[n - 2] == ts[n - 1];
      assert Overridden(ts, i, n, id) <==> Overridden(ts, i, n - 1, id) || GetNode(ts[n - 1], id).Some?;
    }
  }

  /** Lane reads never consult the flushed file. Once an old table is gone, a node it held in the
      newest version falls back to the version before, or to nothing; every other node reads as ever. */
  lemma RemoveOldReads(l: Lane, i: nat, id: Bytes)
    requires i + 1 < |l.nodes|
    ensures ReadNode(RemoveOld(l, i), id)
         == if GetNode(l.nodes[i], id).Some? && !Overridden(l.nodes, i, |l.nodes|, id) then NewestTo(l.nodes, i, id)
            else ReadNode(l, id)
  {
    hide GetNode, NewestNode, Stack;
    WithoutTable(l.nodes, RemoveOld(l, i).nodes, i, |l.nodes|, id);
  }

  /** Main result: removing a flushed table is harmless for a node if and only if the table does not
      hold it, or a newer one does, or the tables before it hold the same version. */
  lemma RemovalIsHarmless(l: Lane, i: nat, id: Bytes)
    requires i + 1 < |l.nodes|
    ensures ReadNode(RemoveOld(l, i), id) == ReadNode(l, id)
       <==> || GetNode(l.nodes[i], id).None?
            || Overridden(l.nodes, i, |l.nodes|, id)
            || NewestTo(l.nodes, i, id) == GetNode(l.nodes[i], id)
  {
    hide GetNode, NewestNode, Stack;
    RemoveOldReads(l, i, id);
    WithoutTable(l.nodes, RemoveOld(l, i).nodes, i, |l.nodes|, id);
  }

  /** The stale read: when the flush of an older table was refused and that of a newer one was not,
      the removal brings the older version back. */
  lemma FlushedNodeGoesStale(l: Lane, i: nat, id: Bytes, latest: Node, stale: Node)
    requires i + 1 < |l.nodes| && !Overridden(l.nodes, i, |l.nodes|, id)
    requires GetNode(l.nodes[i], id) == Some(latest) && NewestTo(l.nodes, i, id) == Some(stale)
    ensures ReadNode(l, id) == Some(latest) && ReadNode(RemoveOld(l, i), id) == Some(stale)
  {
    hide GetNode, NewestNode, Stack;
    RemoveOldReads(l, i, id);
    WithoutTable(l.nodes, RemoveOld(l, i).nodes, i, |l.nodes|, id);
  }

  /** And the node is lost when no older table holds it. */
  lemma FlushedNodeIsLost(l: Lane, i: nat, id: Bytes)
    requires i + 1 < |l.nodes| && !Overridden(l.nodes, i, |l.nodes|, id)
    requires GetNode(l.nodes[i], id).Some? && forall j :: 0 <= j < i ==> GetNode(l.nodes[j], id).None?
    ensures ReadNode(l, id) == GetNode(l.nodes[i], id) && ReadNode(RemoveOld(l, i), id) == None
  {
    hide GetNode, NewestNode, Stack;
    RemoveOldReads(l, i, id);
    WithoutTable(l.nodes, RemoveOld(l, i).nodes, i, |l.nodes|, id);
    NothingHeld(l.nodes, i, id);
  }

  lemma {:induction false} NothingHeld(ts: seq<Table>, n: nat, id: Bytes)
    requires n <= |ts| && forall j :: 0 <= j < n ==> GetNode(ts[j], id).None?
    ensures NewestTo(ts, n, id) == None
  {
    if n > 0 {
      NewestNodeStep(ts, n, id);
      NothingHeld(ts, n - 1, id);
    }
  }
}
