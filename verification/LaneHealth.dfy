/** The invariant of a lane's active tables, and when exactly a write succeeds. */
module LaneHealth {
  import opened Bytes
  import opened Graph
  import opened Serialization
  import opened EdgeList
  import opened Memtable
  import opened Wal
  import opened Lane
  import opened LaneSteps
  import opened LaneReads

  ghost predicate Sound(t: Table) {
    NoTombstones(t) && Accounted(t) && t.size <= t.maxSize
  }

  lemma FreshSound(maxSize: int)
    requires 0 <= maxSize
    ensures Sound(Fresh(maxSize))
  {
    assert Weight(map[]) == 0;
  }

  /** Whether the table still takes `n` more bytes; a replaced value is counted twice. */
  predicate Room(t: Table, n: nat) {
    t.size + n <= t.maxSize
  }

  lemma PutSound(t: Table, key: Bytes, value: Bytes)
    requires Sound(t) && !t.frozen && key != []
    ensures var (t', r) := Put(t, key, value);
            && Sound(t') && t'.frozen == t.frozen && t'.maxSize == t.maxSize
            && r == (if Room(t, |key| + |value|) then Stored else TooLarge)
  {
    PutAccounting(t, key, value);
  }

  ghost predicate Healthy(l: Lane) {
    EdgesHealthy(l) && Sound(Last(l.nodes))
  }

  /** The part that replaying a deletion cannot break. */
  ghost predicate EdgesHealthy(l: Lane) {
    Ready(l) && 0 <= l.maxSize && Sound(Last(l.edges)) && Sound(Last(l.adj))
  }

  lemma NewLaneHealthy(maxSize: int)
    requires 0 <= maxSize
    ensures Healthy(NewLane(maxSize)) && !NewLane(maxSize).stopped && NewLane(maxSize).log == []
  {
    FreshSound(maxSize);
  }

  lemma RotateHealthy(l: Lane)
    requires Ready(l) && 0 <= l.maxSize
    ensures Healthy(Rotate(l))
    ensures Last(Rotate(l).nodes) == Last(Rotate(l).edges) == Last(Rotate(l).adj) == Fresh(l.maxSize)
  {
    FreshSound(l.maxSize);
  }

  function NodeEntry(n: Node, size: nat): nat { 5 + |n.id| + size }
  function EdgeEntry(e: Edge, size: nat): nat { 5 + |e.id| + size }

  lemma NodeWriteOutcome(l: Lane, n: Node, logged: Bytes, stored: Bytes, retried: Bytes, now: i64)
    requires Healthy(l) && |retried| == |stored|
    ensures var (l', out) := WriteNodeWith(l, n, logged, stored, retried, now);
            && Healthy(l') && l'.maxSize == l.maxSize
            && out == (if NodeEntry(n, |stored|) <= l.maxSize then NodeWritten else NodeRefused)
            && |l'.nodes| == |l.nodes| + (if Room(Last(l.nodes), NodeEntry(n, |stored|)) then 0 else 1)
  {
    var l1 := Logged(l, ENTRY_NODE, n.id, logged, now);
    PutSound(Last(l1.nodes), NodeKey(n.id), stored);
    RotateHealthy(PutInNodes(l1, NodeKey(n.id), stored).0);
    PutSound(Fresh(l.maxSize), NodeKey(n.id), retried);
  }

  /** Main result: a node is accepted exactly when its own entry fits an empty table, whatever the
      lane holds; tables rotate exactly when the active one has no room for it. */
  lemma NodeStepOutcome(l: Lane, n: Node, l': Lane, out: NodeOutcome)
    requires Healthy(l) && WriteNodeStep(l, n, l', out)
    ensures Healthy(l') && l'.maxSize == l.maxSize
    ensures !l.stopped && Supported(n.props) ==>
              && out == (if NodeEntry(n, NodeSize(n)) <= l.maxSize then NodeWritten else NodeRefused)
              && |l'.nodes| == |l.nodes| + (if Room(Last(l.nodes), NodeEntry(n, NodeSize(n))) then 0 else 1)
    ensures out.NodeWritten? && l.maxSize <= U32 ==> FitsNode(n)
  {
    if !l.stopped && Supported(n.props) {
      var logged, stored, retried, now :|
        EncodesNode(logged, n) && EncodesNode(stored, n) && EncodesNode(retried, n)
        && (l', out) == WriteNodeWith(l, n, logged, stored, retried, now);
      NodeLength(stored, n);
      NodeLength(retried, n);
      NodeWriteOutcome(l, n, logged, stored, retried, now);
      if out.NodeWritten? && l.maxSize <= U32 {
        ShortNodeFits(stored, n);
      }
    }
  }

  /** What writing the node leads to in a running lane, whatever it holds. */
  ghost function NodeResult(n: Node, maxSize: int): NodeOutcome {
    if !Supported(n.props) then NodeUnserializable
    else if NodeEntry(n, NodeSize(n)) <= maxSize then NodeWritten
    else NodeRefused
  }

  lemma NodeOutcomeIs(l: Lane, n: Node, l': Lane, out: NodeOutcome)
    requires Healthy(l) && !l.stopped && WriteNodeStep(l, n, l', out)
    ensures out == NodeResult(n, l.maxSize)
  {
    NodeStepOutcome(l, n, l', out);
  }

  lemma NodeWriteOtherTables(l: Lane, n: Node, logged: Bytes, stored: Bytes, retried: Bytes, now: i64)
    requires Ready(l)
    ensures var l' := WriteNodeWith(l, n, logged, stored, retried, now).0;
            && Ready(l') && l'.maxSize == l.maxSize
            && (Last(l'.edges) == Last(l.edges) || Last(l'.edges) == Fresh(l.maxSize))
            && (Last(l'.adj) == Last(l.adj) || Last(l'.adj) == Fresh(l.maxSize))
  {
    var l1 := Logged(l, ENTRY_NODE, n.id, logged, now);
    var (l2, r) := PutInNodes(l1, NodeKey(n.id), stored);
    var l3 := Rotate(l2);
    assert Last(l3.edges) == Fresh(l.maxSize) && Last(l3.adj) == Fresh(l.maxSize);
    var l4 := PutInNodes(l3, NodeKey(n.id), retried).0;
    assert Last(Rotate(l4).edges) == Fresh(l.maxSize) && Last(Rotate(l4).adj) == Fresh(l.maxSize);
  }

  /** A lane whose node table holds tombstones keeps its edges and lists in order all the same. */
  lemma NodeStepKeepsEdges(l: Lane, n: Node, l': Lane, out: NodeOutcome)
    requires EdgesHealthy(l) && WriteNodeStep(l, n, l', out)
    ensures EdgesHealthy(l') && l'.maxSize == l.maxSize
  {
    if !l.stopped && Supported(n.props) {
      var logged, stored, retried, now :|
        EncodesNode(logged, n) && EncodesNode(stored, n) && EncodesNode(retried, n)
        && (l', out) == WriteNodeWith(l, n, logged, stored, retried, now);
      NodeWriteOtherTables(l, n, logged, stored, retried, now);
      FreshSound(l.maxSize);
    }
  }

  // ---------- edges ----------

  /** Room for one more item in the list under `key`. */
  predicate ListRoom(t: Table, key: Bytes, edgeID: Bytes) {
    Room(t, |key| + |ListAt(t, key)| + |edgeID| + 1)
  }

  lemma AddSound(t: Table, key: Bytes, edgeID: Bytes)
    requires Sound(t) && !t.frozen && key != []
    ensures var (t', r) := AddToList(t, key, edgeID);
            && Sound(t') && t'.frozen == t.frozen && t'.maxSize == t.maxSize
            && r == (if ListRoom(t, key, edgeID) then Stored else TooLarge)
            && (ListRoom(t, key, edgeID) ==> ListRoom(Fresh(t.maxSize), key, edgeID))
  {
    PutSound(t, key, ListAt(t, key) + Item(edgeID));
  }

  /** Whether both lists take the edge in adjacency table `t`. */
  predicate BothRoom(t: Table, e: Edge) {
    ListRoom(t, OutKey(e.from), e.id) && ListRoom(AddToList(t, OutKey(e.from), e.id).0, InKey(e.to), e.id)
  }

  function IndexOutcome(adj: Table, e: Edge): EdgeOutcome {
    var t := if ListRoom(adj, OutKey(e.from), e.id) then adj else Fresh(adj.maxSize);
    if !ListRoom(t, OutKey(e.from), e.id) then OutRefused
    else if BothRoom(t, e) then EdgeWritten
    else InRefused
  }

  lemma AddBothOutcome(l: Lane, e: Edge)
    requires EdgesHealthy(l) && ListRoom(Last(l.adj), OutKey(e.from), e.id)
    ensures var (l1, r1) := AddInAdj(l, OutKey(e.from), e.id);
            var (l2, r2) := AddInAdj(l1, InKey(e.to), e.id);
            && r1 == Stored && r2 == (if BothRoom(Last(l.adj), e) then Stored else TooLarge)
            && EdgesHealthy(l1) && EdgesHealthy(l2)
  {
    AddSound(Last(l.adj), OutKey(e.from), e.id);
    AddSound(AddToList(Last(l.adj), OutKey(e.from), e.id).0, InKey(e.to), e.id);
  }

  lemma RewriteOutcome(l: Lane, e: Edge, rewritten: Bytes)
    requires EdgesHealthy(l) && Last(l.edges) == Last(l.adj) == Fresh(l.maxSize)
    requires EdgeEntry(e, |rewritten|) <= l.maxSize
    ensures var (l', out) := RewriteEdge(l, e, rewritten);
            && EdgesHealthy(l') && l'.nodes == l.nodes && l'.maxSize == l.maxSize
            && out == (if !ListRoom(Fresh(l.maxSize), OutKey(e.from), e.id) then OutRefused
                       else if BothRoom(Fresh(l.maxSize), e) then EdgeWritten else InRefused)
  {
    PutSound(Last(l.edges), EdgeKey(e.id), rewritten);
    var l1 := PutInEdges(l, EdgeKey(e.id), rewritten).0;
    AddSound(Last(l1.adj), OutKey(e.from), e.id);
    if ListRoom(Last(l1.adj), OutKey(e.from), e.id) {
      AddBothOutcome(l1, e);
    }
  }

  lemma IndexOutcomeIs(l: Lane, e: Edge, rewritten: Bytes)
    requires EdgesHealthy(l) && EdgeEntry(e, |rewritten|) <= l.maxSize
    ensures var (l', out) := IndexEdge(l, e, rewritten);
            && EdgesHealthy(l') && (Healthy(l) ==> Healthy(l')) && l'.maxSize == l.maxSize
            && out == IndexOutcome(Last(l.adj), e)
  {
    AddSound(Last(l.adj), OutKey(e.from), e.id);
    if ListRoom(Last(l.adj), OutKey(e.from), e.id) {
      AddBothOutcome(l, e);
    } else {
      var l1 := AddInAdj(l, OutKey(e.from), e.id).0;
      RotateHealthy(l1);
      RewriteOutcome(Rotate(l1), e, rewritten);
    }
  }

  /** The adjacency table the outgoing update is first tried in: a refused edge put has rotated. */
  function AdjTried(l: Lane, entry: nat): Table
    requires Ready(l)
  {
    if Room(Last(l.edges), entry) then Last(l.adj) else Fresh(l.maxSize)
  }

  lemma EdgeWriteOutcome(l: Lane, e: Edge, logged: Bytes, stored: Bytes, retried: Bytes, rewritten: Bytes, now: i64)
    requires EdgesHealthy(l) && |retried| == |stored| == |rewritten|
    ensures var (l', out) := WriteEdgeWith(l, e, logged, stored, retried, rewritten, now);
            var entry := EdgeEntry(e, |stored|);
            && EdgesHealthy(l') && (Healthy(l) ==> Healthy(l')) && l'.maxSize == l.maxSize
            && out == (if entry > l.maxSize then EdgeRefused else IndexOutcome(AdjTried(l, entry), e))
  {
    var l1 := Logged(l, ENTRY_EDGE, e.id, logged, now);
    PutSound(Last(l1.edges), EdgeKey(e.id), stored);
    var (l2, r) := PutInEdges(l1, EdgeKey(e.id), stored);
    if r.Stored? {
      IndexOutcomeIs(l2, e, rewritten);
    } else {
      RotateHealthy(l2);
      PutSound(Fresh(l.maxSize), EdgeKey(e.id), retried);
      if EdgeEntry(e, |stored|) <= l.maxSize {
        IndexOutcomeIs(PutInEdges(Rotate(l2), EdgeKey(e.id), retried).0, e, rewritten);
      }
    }
  }

  /** Main result: when a running lane gets a supported edge, whether it can be read and whether
      its source lists it depend on its own sizes only. Whether its target lists it depends on the
      room left, because a refused incoming update is not retried. */
  lemma EdgeStepOutcome(l: Lane, e: Edge, l': Lane, out: EdgeOutcome)
    requires EdgesHealthy(l) && WriteEdgeStep(l, e, l', out)
    ensures EdgesHealthy(l') && (Healthy(l) ==> Healthy(l')) && l'.maxSize == l.maxSize && out != EdgeCrashed
    ensures !l.stopped && Supported(e.props) ==>
              var entry := EdgeEntry(e, EdgeSize(e));
              && (Kept(out) <==> entry <= l.maxSize)
              && (OutListed(out) <==> entry <= l.maxSize && 9 + |e.from| + |e.id| <= l.maxSize)
              && out == (if entry > l.maxSize then EdgeRefused else IndexOutcome(AdjTried(l, entry), e))
    ensures Kept(out) && l.maxSize <= U32 ==> FitsEdge(e)
  {
    hide WriteEdgeWith, AdjTried, IndexOutcome, EncodesEdge, Sound, FitsEdge;
    if !l.stopped && Supported(e.props) {
      var logged, stored, retried, rewritten, now :|
        EncodesEdge(logged, e) && EncodesEdge(stored, e) && EncodesEdge(retried, e) && EncodesEdge(rewritten, e)
        && (l', out) == WriteEdgeWith(l, e, logged, stored, retried, rewritten, now);
      SameEdgeLength(e, stored, retried, rewritten);
      EdgeWriteOutcome(l, e, logged, stored, retried, rewritten, now);
      EdgeOutcomeExact(l, e, EdgeSize(e), out);
      if |stored| < U32 {
        ShortEdgeFits(stored, e);
      }
    }
  }

  /** Whether a running lane keeps the edge, and whether it lists it at its source: that depends on its
      own sizes only. */
  ghost predicate EdgeAccepted(e: Edge, maxSize: int) {
    Supported(e.props) && EdgeEntry(e, EdgeSize(e)) <= maxSize
  }

  ghost predicate EdgeListed(e: Edge, maxSize: int) {
    EdgeAccepted(e, maxSize) && 9 + |e.from| + |e.id| <= maxSize
  }

  /** What writing the edge leads to in a running lane, but for the room at its target. */
  ghost predicate EdgeResult(e: Edge, maxSize: int, out: EdgeOutcome) {
    if !Supported(e.props) then out == EdgeUnserializable
    else if !EdgeAccepted(e, maxSize) then out == EdgeRefused
    else if !EdgeListed(e, maxSize) then out == OutRefused
    else out == EdgeWritten || out == InRefused
  }

  lemma EdgeOutcomeIs(l: Lane, e: Edge, l': Lane, out: EdgeOutcome)
    requires Healthy(l) && !l.stopped && WriteEdgeStep(l, e, l', out)
    ensures EdgeResult(e, l.maxSize, out)
  {
    hide EdgeSize, WriteEdgeWith, EncodesEdge, Sound, FitsEdge, AdjTried, ListRoom;
    EdgeStepOutcome(l, e, l', out);
  }

  lemma ResultSays(e: Edge, maxSize: int, out: EdgeOutcome)
    requires EdgeResult(e, maxSize, out)
    ensures Kept(out) <==> EdgeAccepted(e, maxSize)
    ensures OutListed(out) <==> EdgeListed(e, maxSize)
  {
  }

  lemma SameEdgeLength(e: Edge, a: Bytes, b: Bytes, c: Bytes)
    requires EncodesEdge(a, e) && EncodesEdge(b, e) && EncodesEdge(c, e)
    ensures |a| == |b| == |c| == EdgeSize(e)
  {
    EdgeLength(a, e);
    EdgeLength(b, e);
    EdgeLength(c, e);
  }

  lemma EdgeOutcomeExact(l: Lane, e: Edge, size: nat, out: EdgeOutcome)
    requires EdgesHealthy(l)
    requires var entry := EdgeEntry(e, size);
             out == if entry > l.maxSize then EdgeRefused else IndexOutcome(AdjTried(l, entry), e)
    ensures out != EdgeCrashed
    ensures Kept(out) <==> EdgeEntry(e, size) <= l.maxSize
    ensures OutListed(out) <==> EdgeEntry(e, size) <= l.maxSize && 9 + |e.from| + |e.id| <= l.maxSize
  {
    AdjTriedRoom(l, e, EdgeEntry(e, size));
  }

  lemma AdjTriedRoom(l: Lane, e: Edge, entry: nat)
    requires EdgesHealthy(l)
    ensures var out := IndexOutcome(AdjTried(l, entry), e);
            && Kept(out) && (OutListed(out) <==> 9 + |e.from| + |e.id| <= l.maxSize)
  {
    FreshSound(l.maxSize);
    AddSound(AdjTried(l, entry), OutKey(e.from), e.id);
    assert |OutKey(e.from)| == 8 + |e.from|;
    assert ListAt(Fresh(l.maxSize), OutKey(e.from)) == [];
  }

  // ---------- replay ----------

  lemma ReplayNodeHealthy(l: Lane, n: Node, l': Lane, r: PutResult)
    requires Healthy(l) && ReplayNodeStep(l, n, l', r)
    ensures Healthy(l') && r == (if Room(Last(l.nodes), NodeEntry(n, NodeSize(n))) then Stored else TooLarge)
    ensures r.Stored? && l.maxSize <= U32 ==> FitsNode(n)
  {
    var stored :| EncodesNode(stored, n) && (l', r) == PutInNodes(l, NodeKey(n.id), stored);
    NodeLength(stored, n);
    PutSound(Last(l.nodes), NodeKey(n.id), stored);
    if r.Stored? && l.maxSize <= U32 {
      ShortNodeFits(stored, n);
    }
  }

  lemma ReplayEdgeHealthy(l: Lane, e: Edge, l': Lane, r: PutResult, out: bool, inc: bool)
    requires EdgesHealthy(l) && ReplayEdgeStep(l, e, l', r, out, inc)
    ensures EdgesHealthy(l') && l'.nodes == l.nodes && l'.maxSize == l.maxSize
    ensures r == (if Room(Last(l.edges), EdgeEntry(e, EdgeSize(e))) then Stored else TooLarge)
    ensures r.Stored? ==>
              && out == ListRoom(Last(l.adj), OutKey(e.from), e.id)
              && inc == ListRoom(AddToList(Last(l.adj), OutKey(e.from), e.id).0, InKey(e.to), e.id)
    ensures !r.Stored? ==> l'.adj == l.adj && !out && !inc
    ensures r.Stored? && l.maxSize <= U32 ==> FitsEdge(e)
  {
    hide Sound, Put, EncodesEdge, AddToList, Room, ListRoom, FitsEdge;
    var stored :| EncodesEdge(stored, e) && (l', r, out, inc) == ReplayEdgeWith(l, e, stored);
    EdgeLength(stored, e);
    PutSound(Last(l.edges), EdgeKey(e.id), stored);
    AddSound(Last(l.adj), OutKey(e.from), e.id);
    AddSound(AddToList(Last(l.adj), OutKey(e.from), e.id).0, InKey(e.to), e.id);
    if r.Stored? && l.maxSize <= U32 {
      RoomIsShort(Last(l.edges), EdgeEntry(e, |stored|));
      ShortEdgeFits(stored, e);
    }
  }

  lemma RoomIsShort(t: Table, n: nat)
    requires Sound(t) && Room(t, n)
    ensures n <= t.maxSize
  {
  }
}
