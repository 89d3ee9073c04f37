/** What one call leaves in the tables of a write lane, all of it: how often they rotate, what is in the
    active ones afterwards, and in which order the lists are then read. */
module LaneTables {
  import opened Bytes
  import opened Graph
  import opened Serialization
  import opened EdgeList
  import opened Memtable
  import opened Wal
  import opened Lane
  import opened LaneSteps
  import opened LaneReads
  import opened LaneHealth

  // ---------- rotation ----------

  /** A rotation freezes the active table as it stands and puts an empty one behind it. */
  lemma FreezeAndAddIs(ts: seq<Table>, maxSize: int)
    requires ts != []
    ensures var r, n := FreezeAndAdd(ts, maxSize), |ts| - 1;
            && |r| == |ts| + 1 && r[..n] == ts[..n]
            && r[n] == Table(ts[n].data, ts[n].size, ts[n].count, ts[n].maxSize, true)
            && r[n + 1] == Table(map[], 0, 0, maxSize, false)
  {
  }

  function Rotated(ts: seq<Table>, times: nat, maxSize: int): (r: seq<Table>)
    requires ts != []
    ensures |r| == |ts| + times
  {
    if times == 0 then ts else FreezeAndAdd(Rotated(ts, times - 1, maxSize), maxSize)
  }

  /** Storing a value in the active table. */
  function WithValue(ts: seq<Table>, key: Bytes, value: Bytes): (r: seq<Table>)
    requires ts != []
    ensures |r| == |ts|
  {
    SetLast(ts, Put(Last(ts), key, value).0)
  }

  function WithItem(ts: seq<Table>, key: Bytes, edgeID: Bytes): (r: seq<Table>)
    requires ts != []
    ensures |r| == |ts|
  {
    WithValue(ts, key, ListAt(Last(ts), key) + edgeID + [44])
  }

  lemma ItemIs(ts: seq<Table>, key: Bytes, edgeID: Bytes)
    requires ts != []
    ensures SetLast(ts, AddToList(Last(ts), key, edgeID).0) == WithItem(ts, key, edgeID)
  {
    Concat3(ListAt(Last(ts), key), edgeID, [44]);
  }

  lemma OnceRotated(ts: seq<Table>, maxSize: int)
    requires ts != []
    ensures Rotated(ts, 0, maxSize) == ts && Rotated(ts, 1, maxSize) == FreezeAndAdd(ts, maxSize)
    ensures Rotated(ts, 2, maxSize) == FreezeAndAdd(FreezeAndAdd(ts, maxSize), maxSize)
  {
  }

  // ---------- nodes ----------

  function Refusals(room: bool): nat { if room then 0 else 1 }

  /** The lane after writing a node whose encoding was logged, and stored when there was room for it. */
  ghost predicate NodeTables(l: Lane, n: Node, logged: Bytes, stored: Bytes, now: i64, l': Lane, out: NodeOutcome) {
    && Ready(l)
    && var r := Refusals(Room(Last(l.nodes), 5 + |n.id| + NodeSize(n)));
       var nodes := Rotated(l.nodes, r, l.maxSize);
       && l'.maxSize == l.maxSize && l'.stopped == l.stopped && l'.log == l.log + [Entry(1, n.id, logged, now)]
       && l'.nodes == (if out.NodeWritten? then WithValue(nodes, NodeKey(n.id), stored) else nodes)
       && l'.edges == Rotated(l.edges, r, l.maxSize) && l'.adj == Rotated(l.adj, r, l.maxSize)
  }

  /** Main result: all of what `WriteNode` leaves behind in a lane in good order. Nothing is touched in a
      lane that is stopped, which is tested first, or for a node that cannot be serialized. Otherwise the
      node is logged, all three kinds of tables rotate once if there is no room for it, and it is stored if
      there is room then. */
  lemma NodeStepTables(l: Lane, n: Node, l': Lane, out: NodeOutcome)
    requires Healthy(l) && WriteNodeStep(l, n, l', out)
    ensures out == if l.stopped then NodeStopped else NodeResult(n, l.maxSize)
    ensures out.NodeStopped? || out.NodeUnserializable? ==> l' == l
    ensures out.NodeWritten? || out.NodeRefused? ==> exists logged, stored, now ::
              EncodesNode(logged, n) && EncodesNode(stored, n) && NodeTables(l, n, logged, stored, now, l', out)
  {
    hide EncodesNode, WriteNodeWith, NodeTables, NodeSize;
    if !l.stopped {
      NodeOutcomeIs(l, n, l', out);
      if Supported(n.props) {
        var logged, stored, retried, now :|
          EncodesNode(logged, n) && EncodesNode(stored, n) && EncodesNode(retried, n)
          && (l', out) == WriteNodeWith(l, n, logged, stored, retried, now);
        NodeLength(stored, n);
        NodeLength(retried, n);
        NodeWriteTables(l, n, logged, stored, retried, now);
      }
    }
  }

  lemma NodeWriteTables(l: Lane, n: Node, logged: Bytes, stored: Bytes, retried: Bytes, now: i64)
    requires Healthy(l) && |retried| == |stored| == NodeSize(n)
    ensures var (l', out) := WriteNodeWith(l, n, logged, stored, retried, now);
            NodeTables(l, n, logged, stored, now, l', out) || NodeTables(l, n, logged, retried, now, l', out)
  {
    hide Put, NodeSize;
    var l1 := Logged(l, ENTRY_NODE, n.id, logged, now);
    PutSound(Last(l1.nodes), NodeKey(n.id), stored);
    RotateHealthy(PutInNodes(l1, NodeKey(n.id), stored).0);
    PutSound(Fresh(l.maxSize), NodeKey(n.id), retried);
    PutExactly(Last(l.nodes), NodeKey(n.id), stored);
    PutExactly(Fresh(l.maxSize), NodeKey(n.id), retried);
    SameLast(l.nodes);
    SameLast(FreezeAndAdd(l.nodes, l.maxSize));
    OnceRotated(l.nodes, l.maxSize);
    OnceRotated(l.edges, l.maxSize);
    OnceRotated(l.adj, l.maxSize);
  }

  /** `WriteNode` panics exactly when the active table holds a tombstone under the node's key and has room for
      the node; this takes no invariant. */
  lemma NodeCrashExactly(l: Lane, n: Node, l': Lane, out: NodeOutcome)
    requires WriteNodeStep(l, n, l', out) && !l.stopped && Supported(n.props)
    ensures out.NodeCrashed? <==>
              && NodeKey(n.id) in Last(l.nodes).data && Lookup(Last(l.nodes), NodeKey(n.id)) == None
              && Room(Last(l.nodes), 5 + |n.id| + NodeSize(n))
  {
    hide EncodesNode, Put, NodeSize;
    var logged, stored, retried, now :|
      EncodesNode(logged, n) && EncodesNode(stored, n) && EncodesNode(retried, n)
      && (l', out) == WriteNodeWith(l, n, logged, stored, retried, now);
    NodeLength(stored, n);
    PutExactly(Last(l.nodes), NodeKey(n.id), stored);
    PutExactly(Fresh(l.maxSize), NodeKey(n.id), retried);
  }

  lemma SameLast(ts: seq<Table>)
    requires ts != []
    ensures SetLast(ts, Last(ts)) == ts
  {
  }

  // ---------- edges ----------

  /** The lists after an edge's two updates, as far as they were accepted. */
  function Listed(adj: seq<Table>, e: Edge, outListed: bool, inListed: bool): (r: seq<Table>)
    requires adj != []
    ensures |r| == |adj|
  {
    var once := if outListed then WithItem(adj, OutKey(e.from), e.id) else adj;
    if inListed then WithItem(once, InKey(e.to), e.id) else once
  }

  /** The edge tables after an edge that has room was stored and, if its outgoing update was refused at
      first, stored once more behind another rotation. */
  function StoredEdge(edges: seq<Table>, e: Edge, stored: Bytes, again: bool, rewritten: Bytes, maxSize: int):
    (r: seq<Table>)
    requires edges != []
    ensures r != []
  {
    var once := WithValue(edges, EdgeKey(e.id), stored);
    if again then WithValue(FreezeAndAdd(once, maxSize), EdgeKey(e.id), rewritten) else once
  }

  /** The lane after indexing an edge that was stored in `l` before. */
  ghost predicate IndexTables(l: Lane, e: Edge, rewritten: Bytes, l': Lane, out: EdgeOutcome) {
    && Ready(l)
    && var r := Refusals(ListRoom(Last(l.adj), OutKey(e.from), e.id));
       && l'.maxSize == l.maxSize && l'.stopped == l.stopped && l'.log == l.log
       && l'.nodes == Rotated(l.nodes, r, l.maxSize)
       && l'.edges == (if r == 0 then l.edges else WithValue(Rotated(l.edges, 1, l.maxSize), EdgeKey(e.id), rewritten))
       && l'.adj == Listed(Rotated(l.adj, r, l.maxSize), e, OutListed(out), InListed(out))
  }

  /** The lane after writing an edge whose encoding was logged. */
  ghost predicate EdgeTables(l: Lane, e: Edge, logged: Bytes, stored: Bytes, rewritten: Bytes, now: i64, l': Lane,
                             out: EdgeOutcome)
  {
    && Ready(l)
    && var r := Refusals(Room(Last(l.edges), 5 + |e.id| + EdgeSize(e)));
       var nodes, edges := Rotated(l.nodes, r, l.maxSize), Rotated(l.edges, r, l.maxSize);
       var adj := Rotated(l.adj, r, l.maxSize);
       && l'.maxSize == l.maxSize && l'.stopped == l.stopped && l'.log == l.log + [Entry(2, e.id, logged, now)]
       && if out.EdgeRefused? then r == 1 && l'.nodes == nodes && l'.edges == edges && l'.adj == adj
          else
            var again := Refusals(ListRoom(Last(adj), OutKey(e.from), e.id));
            && l'.nodes == Rotated(nodes, again, l.maxSize)
            && l'.edges == StoredEdge(edges, e, stored, again == 1, rewritten, l.maxSize)
            && l'.adj == Listed(Rotated(adj, again, l.maxSize), e, OutListed(out), InListed(out))
  }

  lemma AddedItem(l: Lane, key: Bytes, edgeID: Bytes)
    requires EdgesHealthy(l) && key != []
    ensures var (l1, r) := AddInAdj(l, key, edgeID);
            && EdgesHealthy(l1) && (r.Stored? <==> ListRoom(Last(l.adj), key, edgeID)) && !r.Panicked?
            && l1 == l.(adj := if r.Stored? then WithItem(l.adj, key, edgeID) else l.adj)
  {
    AddSound(Last(l.adj), key, edgeID);
    PutExactly(Last(l.adj), key, ListAt(Last(l.adj), key) + Item(edgeID));
    ItemIs(l.adj, key, edgeID);
    SameLast(l.adj);
  }

  lemma PutEdge(l: Lane, e: Edge, value: Bytes)
    requires EdgesHealthy(l)
    ensures var (l1, r) := PutInEdges(l, EdgeKey(e.id), value);
            && EdgesHealthy(l1) && (r.Stored? <==> Room(Last(l.edges), 5 + |e.id| + |value|)) && !r.Panicked?
            && l1 == l.(edges := if r.Stored? then WithValue(l.edges, EdgeKey(e.id), value) else l.edges)
  {
    PutSound(Last(l.edges), EdgeKey(e.id), value);
    PutExactly(Last(l.edges), EdgeKey(e.id), value);
    SameLast(l.edges);
  }

  lemma RotatedLane(l: Lane)
    requires EdgesHealthy(l)
    ensures EdgesHealthy(Rotate(l)) && Last(Rotate(l).edges) == Last(Rotate(l).adj) == Fresh(l.maxSize)
    ensures Rotate(l) == l.(nodes := Rotated(l.nodes, 1, l.maxSize), edges := Rotated(l.edges, 1, l.maxSize),
                            adj := Rotated(l.adj, 1, l.maxSize))
  {
    RotateHealthy(l);
    OnceRotated(l.nodes, l.maxSize);
    OnceRotated(l.edges, l.maxSize);
    OnceRotated(l.adj, l.maxSize);
  }

  lemma NotOver(l: Lane)
    requires EdgesHealthy(l)
    ensures Last(l.edges).size <= l.maxSize && Last(l.adj).size <= l.maxSize
  {
  }

  lemma ListedBoth(l: Lane, e: Edge, rewritten: Bytes)
    requires EdgesHealthy(l) && ListRoom(Last(l.adj), OutKey(e.from), e.id)
    ensures var (l', out) := IndexEdge(l, e, rewritten);
            (out.EdgeWritten? || out.InRefused?) && l' == l.(adj := Listed(l.adj, e, true, out.EdgeWritten?))
  {
    hide ListRoom, WithItem, AddInAdj, EdgesHealthy, Ready;
    ReadyWhenHealthy(l);
    AddedItem(l, OutKey(e.from), e.id);
    var l1 := AddInAdj(l, OutKey(e.from), e.id).0;
    AddedItem(l1, InKey(e.to), e.id);
    NotOver(AddInAdj(l1, InKey(e.to), e.id).0);
  }

  lemma ReadyWhenHealthy(l: Lane)
    requires EdgesHealthy(l)
    ensures Ready(l) && l.nodes != [] && l.edges != [] && l.adj != []
  {
  }

  lemma RewrittenTables(l: Lane, e: Edge, rewritten: Bytes)
    requires EdgesHealthy(l) && Last(l.edges) == Fresh(l.maxSize) && 5 + |e.id| + |rewritten| <= l.maxSize
    ensures var (l', out) := RewriteEdge(l, e, rewritten);
            && (out.EdgeWritten? || out.InRefused? || out.OutRefused?)
            && l' == l.(edges := WithValue(l.edges, EdgeKey(e.id), rewritten),
                        adj := Listed(l.adj, e, OutListed(out), InListed(out)))
  {
    hide ListRoom, WithItem, WithValue, AddInAdj, PutInEdges, EdgesHealthy, Ready;
    ReadyWhenHealthy(l);
    PutEdge(l, e, rewritten);
    var l1 := PutInEdges(l, EdgeKey(e.id), rewritten).0;
    AddedItem(l1, OutKey(e.from), e.id);
    var (l2, out) := AddInAdj(l1, OutKey(e.from), e.id);
    if out.Stored? {
      AddedItem(l2, InKey(e.to), e.id);
    }
  }

  lemma IndexedTables(l: Lane, e: Edge, rewritten: Bytes)
    requires EdgesHealthy(l) && 5 + |e.id| + |rewritten| <= l.maxSize
    ensures var (l', out) := IndexEdge(l, e, rewritten);
            IndexTables(l, e, rewritten, l', out) && (out.EdgeWritten? || out.InRefused? || out.OutRefused?)
  {
    hide ListRoom, WithItem, WithValue, EdgesHealthy, Listed, RewriteEdge, ListIncoming, Rotate;
    ReadyWhenHealthy(l);
    OnceRotated(l.nodes, l.maxSize);
    OnceRotated(l.adj, l.maxSize);
    if ListRoom(Last(l.adj), OutKey(e.from), e.id) {
      ListedBoth(l, e, rewritten);
    } else {
      AddedItem(l, OutKey(e.from), e.id);
      RotatedLane(l);
      RewrittenTables(Rotate(l), e, rewritten);
    }
  }

  lemma RotatedMore(ts: seq<Table>, a: nat, b: nat, maxSize: int)
    requires ts != []
    ensures Rotated(Rotated(ts, a, maxSize), b, maxSize) == Rotated(ts, a + b, maxSize)
  {
    if b > 0 {
      RotatedMore(ts, a, b - 1, maxSize);
    }
  }

  lemma EdgeWriteTables(l: Lane, e: Edge, logged: Bytes, stored: Bytes, retried: Bytes, rewritten: Bytes, now: i64)
    requires EdgesHealthy(l) && |retried| == |stored| == |rewritten| == EdgeSize(e)
    ensures var (l', out) := WriteEdgeWith(l, e, logged, stored, retried, rewritten, now);
            || EdgeTables(l, e, logged, stored, rewritten, now, l', out)
            || EdgeTables(l, e, logged, retried, rewritten, now, l', out)
  {
    hide ListRoom, WithItem, WithValue, EdgesHealthy, Listed, IndexEdge, Rotate, PutInEdges, EdgeSize;
    var l1 := Logged(l, ENTRY_EDGE, e.id, logged, now);
    LoggedHealthy(l, ENTRY_EDGE, e.id, logged, now);
    ReadyWhenHealthy(l);
    OnceRotated(l.nodes, l.maxSize);
    OnceRotated(l.edges, l.maxSize);
    OnceRotated(l.adj, l.maxSize);
    PutEdge(l1, e, stored);
    var (l2, r) := PutInEdges(l1, EdgeKey(e.id), stored);
    if r.Stored? {
      FitsWhenRoom(l, 5 + |e.id| + |stored|);
      IndexedTables(l2, e, rewritten);
      OnceRotated(l2.edges, l.maxSize);
    } else {
      RotatedLane(l2);
      var l3 := Rotate(l2);
      PutEdge(l3, e, retried);
      var (l4, again) := PutInEdges(l3, EdgeKey(e.id), retried);
      if again.Stored? {
        FitsWhenRoom(l3, 5 + |e.id| + |retried|);
        IndexedTables(l4, e, rewritten);
        OnceRotated(l4.edges, l.maxSize);
      }
    }
  }

  lemma LoggedHealthy(l: Lane, kind: byte, key: Bytes, value: Bytes, now: i64)
    requires EdgesHealthy(l)
    ensures EdgesHealthy(Logged(l, kind, key, value, now))
  {
  }

  lemma FitsWhenRoom(l: Lane, n: nat)
    requires EdgesHealthy(l) && Room(Last(l.edges), n)
    ensures n <= l.maxSize
  {
  }

  /** Main result: the same for `WriteEdge`. It is tested first whether the lane is stopped. An edge with too
      little room rotates all tables; if it has none then, that is all. Otherwise it is stored; if its
      source's list has no room for it, all tables rotate and it is stored again, next to its list items. */
  lemma EdgeStepTables(l: Lane, e: Edge, l': Lane, out: EdgeOutcome)
    requires Healthy(l) && WriteEdgeStep(l, e, l', out)
    ensures if l.stopped then out == EdgeStopped else EdgeResult(e, l.maxSize, out)
    ensures out.EdgeStopped? || out.EdgeUnserializable? ==> l' == l
    ensures !(out.EdgeStopped? || out.EdgeUnserializable?) ==> exists logged, stored, rewritten, now ::
              && EncodesEdge(logged, e) && EncodesEdge(stored, e) && EncodesEdge(rewritten, e)
              && EdgeTables(l, e, logged, stored, rewritten, now, l', out)
  {
    hide EncodesEdge, WriteEdgeWith, EdgeTables, EdgeSize, EdgeAccepted, EdgeListed, Sound;
    if !l.stopped {
      EdgeOutcomeIs(l, e, l', out);
      if Supported(e.props) {
        var logged, stored, retried, rewritten, now :|
          EncodesEdge(logged, e) && EncodesEdge(stored, e) && EncodesEdge(retried, e) && EncodesEdge(rewritten, e)
          && (l', out) == WriteEdgeWith(l, e, logged, stored, retried, rewritten, now);
        SameEdgeLength(e, stored, retried, rewritten);
        EdgeWriteTables(l, e, logged, stored, retried, rewritten, now);
      }
    }
  }

  // ---------- what the active tables then hold ----------

  lemma StoredThere(ts: seq<Table>, key: Bytes, value: Bytes, k: Bytes)
    requires ts != [] && Sound(Last(ts)) && !Last(ts).frozen && key != [] && Room(Last(ts), |key| + |value|)
    ensures var t := Last(WithValue(ts, key, value));
            && Lookup(t, k) == (if k == key then Some(value) else Lookup(Last(ts), k))
            && Sound(t) && !t.frozen && t.maxSize == Last(ts).maxSize
  {
    hide Sound, Put;
    PutSound(Last(ts), key, value);
    PutExactly(Last(ts), key, value);
  }

  lemma StartsSound(ts: seq<Table>, room: bool, maxSize: int)
    requires ActiveTables(ts, maxSize) && Sound(Last(ts)) && 0 <= maxSize
    ensures var t := Last(Rotated(ts, Refusals(room), maxSize));
            t == (if room then Last(ts) else Fresh(maxSize)) && Sound(t) && !t.frozen && t.maxSize == maxSize
  {
    hide Sound;
    FreshSound(maxSize);
    OnceRotated(ts, maxSize);
  }

  lemma ActiveEdge(edges: seq<Table>, e: Edge, stored: Bytes, again: bool, rewritten: Bytes, maxSize: int)
    requires ActiveTables(edges, maxSize) && Sound(Last(edges)) && 0 <= maxSize && |stored| == |rewritten|
    requires Room(Last(edges), 5 + |e.id| + |stored|) && 5 + |e.id| + |stored| <= maxSize
    ensures Lookup(Last(StoredEdge(edges, e, stored, again, rewritten, maxSize)), EdgeKey(e.id))
         == Some(if again then rewritten else stored)
  {
    hide Sound, WithValue;
    StoredThere(edges, EdgeKey(e.id), stored, EdgeKey(e.id));
    if again {
      var once := WithValue(edges, EdgeKey(e.id), stored);
      FreshSound(maxSize);
      StoredThere(FreezeAndAdd(once, maxSize), EdgeKey(e.id), rewritten, EdgeKey(e.id));
    }
  }

  lemma ActiveItem(adj: seq<Table>, e: Edge, inListed: bool)
    requires adj != [] && Sound(Last(adj)) && !Last(adj).frozen && ListRoom(Last(adj), OutKey(e.from), e.id)
    requires inListed ==> ListRoom(Last(WithItem(adj, OutKey(e.from), e.id)), InKey(e.to), e.id)
    ensures ListAt(Last(Listed(adj, e, true, inListed)), OutKey(e.from))
         == ListAt(Last(adj), OutKey(e.from)) + e.id + [44]
  {
    hide Sound, WithValue;
    var once := WithItem(adj, OutKey(e.from), e.id);
    StoredThere(adj, OutKey(e.from), ListAt(Last(adj), OutKey(e.from)) + e.id + [44], OutKey(e.from));
    if inListed {
      OutIsNotIn(e.from, e.to);
      StoredThere(once, InKey(e.to), ListAt(Last(once), InKey(e.to)) + e.id + [44], OutKey(e.from));
    }
  }

  /** The adjacency table that an edge is listed in: the active one, unless that has no room for the edge or
      for its outgoing item. */
  function ListsIn(l: Lane, e: Edge, entry: nat): Table
    requires Ready(l)
  {
    var t := AdjTried(l, entry);
    if ListRoom(t, OutKey(e.from), e.id) then t else Fresh(l.maxSize)
  }

  lemma LastOfLists(l: Lane, e: Edge, entry: nat)
    requires EdgesHealthy(l)
    ensures var adj := Rotated(l.adj, Refusals(Room(Last(l.edges), entry)), l.maxSize);
            var after := Rotated(adj, Refusals(ListRoom(Last(adj), OutKey(e.from), e.id)), l.maxSize);
            && Last(adj) == AdjTried(l, entry) && Last(after) == ListsIn(l, e, entry)
            && Sound(Last(after)) && !Last(after).frozen && ActiveTables(after, l.maxSize)
  {
    hide Sound, ListRoom, Room;
    StartsSound(l.adj, Room(Last(l.edges), entry), l.maxSize);
    var adj := Rotated(l.adj, Refusals(Room(Last(l.edges), entry)), l.maxSize);
    StartsSound(adj, ListRoom(Last(adj), OutKey(e.from), e.id), l.maxSize);
  }

  lemma RoomInLists(l: Lane, e: Edge, entry: nat, out: EdgeOutcome)
    requires EdgesHealthy(l) && out == IndexOutcome(AdjTried(l, entry), e) && OutListed(out)
    ensures var t := ListsIn(l, e, entry);
            && ListRoom(t, OutKey(e.from), e.id)
            && (InListed(out) <==> ListRoom(AddToList(t, OutKey(e.from), e.id).0, InKey(e.to), e.id))
  {
    hide ListRoom, AddToList;
  }

  lemma EdgeInActive(l: Lane, e: Edge, logged: Bytes, stored: Bytes, rewritten: Bytes, now: i64, l': Lane,
                     out: EdgeOutcome)
    requires Healthy(l) && EdgeTables(l, e, logged, stored, rewritten, now, l', out) && !out.EdgeRefused?
    requires |stored| == |rewritten| == EdgeSize(e) && 5 + |e.id| + EdgeSize(e) <= l.maxSize
    ensures l'.edges != []
    ensures Lookup(Last(l'.edges), EdgeKey(e.id)) == Some(stored) ||
            Lookup(Last(l'.edges), EdgeKey(e.id)) == Some(rewritten)
  {
    hide EdgeSize, Sound, Rotated, Listed, StoredEdge, ListRoom, Put, Lookup;
    var entry := 5 + |e.id| + EdgeSize(e);
    StartsSound(l.edges, Room(Last(l.edges), entry), l.maxSize);
    var r := Refusals(Room(Last(l.edges), entry));
    var edges, adj := Rotated(l.edges, r, l.maxSize), Rotated(l.adj, r, l.maxSize);
    var again := Refusals(ListRoom(Last(adj), OutKey(e.from), e.id));
    ActiveEdge(edges, e, stored, again == 1, rewritten, l.maxSize);
  }

  lemma ItemInActive(l: Lane, e: Edge, logged: Bytes, stored: Bytes, rewritten: Bytes, now: i64, l': Lane,
                     out: EdgeOutcome)
    requires Healthy(l) && EdgeTables(l, e, logged, stored, rewritten, now, l', out) && OutListed(out)
    requires out == IndexOutcome(AdjTried(l, 5 + |e.id| + EdgeSize(e)), e)
    ensures l'.adj != [] && ListAt(Last(l'.adj), OutKey(e.from))
                         == ListAt(ListsIn(l, e, 5 + |e.id| + EdgeSize(e)), OutKey(e.from)) + e.id + [44]
  {
    hide EdgeSize, Sound, Rotated, Listed, StoredEdge, ListRoom, Put, ListsIn, WithItem, WithValue, ListAt, AddToList,
      IndexOutcome, AdjTried;
    var entry := 5 + |e.id| + EdgeSize(e);
    LastOfLists(l, e, entry);
    RoomInLists(l, e, entry, out);
    var adj := Rotated(l.adj, Refusals(Room(Last(l.edges), entry)), l.maxSize);
    var after := Rotated(adj, Refusals(ListRoom(Last(adj), OutKey(e.from), e.id)), l.maxSize);
    ItemIs(after, OutKey(e.from), e.id);
    ActiveItem(after, e, InListed(out));
  }

  /** A listed edge stands in the active tables, next to its list item: its encoding in the edge table, and
      its ID at the end of its source's list. */
  lemma ListedIsActive(l: Lane, e: Edge, l': Lane, out: EdgeOutcome)
    requires Healthy(l) && WriteEdgeStep(l, e, l', out) && OutListed(out)
    ensures l'.edges != [] && l'.adj != []
    ensures exists v :: EncodesEdge(v, e) && Lookup(Last(l'.edges), EdgeKey(e.id)) == Some(v)
    ensures ListAt(Last(l'.adj), OutKey(e.from))
         == ListAt(ListsIn(l, e, 5 + |e.id| + EdgeSize(e)), OutKey(e.from)) + e.id + [44]
  {
    hide EncodesEdge, EdgeSize, Healthy, WriteEdgeStep, ListsIn, EdgeTables, ListAt, Lookup, AdjTried, IndexOutcome;
    OutcomeOfListed(l, e, l', out);
    var logged, stored, rewritten, now := EncodingsOf(l, e, l', out);
    EdgeInActive(l, e, logged, stored, rewritten, now, l', out);
    ItemInActive(l, e, logged, stored, rewritten, now, l', out);
  }

  lemma EncodingsOf(l: Lane, e: Edge, l': Lane, out: EdgeOutcome)
    returns (logged: Bytes, stored: Bytes, rewritten: Bytes, now: i64)
    requires Healthy(l) && WriteEdgeStep(l, e, l', out) && OutListed(out)
    ensures EncodesEdge(logged, e) && EncodesEdge(stored, e) && EncodesEdge(rewritten, e)
    ensures EdgeTables(l, e, logged, stored, rewritten, now, l', out) && |stored| == |rewritten| == EdgeSize(e)
  {
    hide EncodesEdge, EdgeSize, Healthy, WriteEdgeStep, EdgeTables, EdgeResult;
    EdgeStepTables(l, e, l', out);
    logged, stored, rewritten, now :|
      && EncodesEdge(logged, e) && EncodesEdge(stored, e) && EncodesEdge(rewritten, e)
      && EdgeTables(l, e, logged, stored, rewritten, now, l', out);
    SameEdgeLength(e, logged, stored, rewritten);
  }

  lemma OutcomeOfListed(l: Lane, e: Edge, l': Lane, out: EdgeOutcome)
    requires Healthy(l) && WriteEdgeStep(l, e, l', out) && OutListed(out)
    ensures 5 + |e.id| + EdgeSize(e) <= l.maxSize && out == IndexOutcome(AdjTried(l, 5 + |e.id| + EdgeSize(e)), e)
  {
    hide EdgeSize, WriteEdgeWith, EncodesEdge, Sound, IndexOutcome, AdjTried;
    EdgeStepOutcome(l, e, l', out);
  }

  // ---------- replay ----------

  /** Replaying a node stores it, or leaves the lane as it is: nothing rotates. */
  lemma ReplayNodeTables(l: Lane, n: Node, l': Lane, r: PutResult)
    requires Healthy(l) && ReplayNodeStep(l, n, l', r)
    ensures !r.Stored? ==> l' == l
    ensures r.Stored? ==> exists stored ::
              EncodesNode(stored, n) && l' == l.(nodes := WithValue(l.nodes, NodeKey(n.id), stored))
  {
    hide EncodesNode, Sound;
    var stored :| EncodesNode(stored, n) && (l', r) == PutInNodes(l, NodeKey(n.id), stored);
    PutSound(Last(l.nodes), NodeKey(n.id), stored);
    PutExactly(Last(l.nodes), NodeKey(n.id), stored);
    SameLast(l.nodes);
  }

  /** Nor when an edge is replayed; its two list items are stored as far as they find room. */
  lemma ReplayEdgeTables(l: Lane, e: Edge, l': Lane, r: PutResult, out: bool, inc: bool)
    requires EdgesHealthy(l) && ReplayEdgeStep(l, e, l', r, out, inc)
    ensures !r.Stored? ==> l' == l && !out && !inc
    ensures r.Stored? ==> exists stored ::
              EncodesEdge(stored, e)
              && l' == l.(edges := WithValue(l.edges, EdgeKey(e.id), stored), adj := Listed(l.adj, e, out, inc))
  {
    hide EncodesEdge, EdgesHealthy, ListRoom, WithItem, WithValue, AddInAdj, PutInEdges, Ready;
    ReadyWhenHealthy(l);
    var stored :| EncodesEdge(stored, e) && (l', r, out, inc) == ReplayEdgeWith(l, e, stored);
    PutEdge(l, e, stored);
    var l1 := PutInEdges(l, EdgeKey(e.id), stored).0;
    AddedItem(l1, OutKey(e.from), e.id);
    AddedItem(AddInAdj(l1, OutKey(e.from), e.id).0, InKey(e.to), e.id);
  }

  // ---------- the order in which lists are read ----------

  /** The IDs of newer tables come before those of the older ones. */
  lemma {:induction false} NewestListFirst(ts: seq<Table>, i: nat, n: nat, key: Bytes)
    requires i <= n <= |ts|
    ensures EdgesAt(ts, n, key) == EdgesAt(ts[i..n], n - i, key) + EdgesAt(ts, i, key)
  {
    hide ParseEdgeList, ListAt;
    if i < n {
      NewestListFirst(ts, i, n - 1, key);
      ListsSame(ts[i..n - 1], ts[i..n], n - 1 - i, key);
      assert ts[i..n][n - 1 - i] == ts[n - 1];
      Concat3(ParseEdgeList(ListAt(ts[n - 1], key)), EdgesAt(ts[i..n - 1], n - 1 - i, key), EdgesAt(ts, i, key));
    }
  }

  lemma {:induction false} ListsSame(ts: seq<Table>, us: seq<Table>, n: nat, key: Bytes)
    requires n <= |ts| && n <= |us| && forall i :: 0 <= i < n ==> ts[i] == us[i]
    ensures EdgesAt(ts, n, key) == EdgesAt(us, n, key)
  {
    hide ParseEdgeList, ListAt;
    if n > 0 {
      ListsSame(ts, us, n - 1, key);
    }
  }

  /** Within a table they are in the order in which they were listed. */
  lemma OneList(t: Table, key: Bytes)
    ensures EdgesAt([t], 1, key) == ParseEdgeList(ListAt(t, key))
  {
    hide ParseEdgeList, ListAt;
    NothingAdded(ParseEdgeList(ListAt(t, key)));
    assert EdgesAt([t], 0, key) == [];
  }
}
