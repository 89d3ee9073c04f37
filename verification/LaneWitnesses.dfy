/** Concrete runs of a write lane in which a property that the exact conditions of LaneHealth, LaneReads
    and Recovery describe does not hold. */
module LaneWitnesses {
  import opened Bytes
  import opened Graph
  import opened Serialization
  import opened EdgeList
  import opened Utf8
  import opened Memtable
  import opened Wal
  import opened Lane
  import opened LaneSteps
  import opened LaneReads
  import opened LaneHealth
  import opened LaneRuns
  import opened Recovery
  import opened RecoveryIndex

  // ---------- nodes and edges without labels and properties ----------

  function PlainNode(id: Bytes, version: u64): Node {
    Node(id, [], map[], version, Time(0, 0), Time(0, 0))
  }

  function PlainEdge(id: Bytes, from: Bytes, to: Bytes): Edge {
    Edge(id, from, to, [], map[], 1, Time(0, 0), Time(0, 0))
  }

  function Encoded(n: Node): Bytes { EncNode(n, []) }

  function EncodedEdge(e: Edge): Bytes { EncEdge(e, []) }

  lemma PlainNodeSize(id: Bytes, version: u64)
    ensures var n := PlainNode(id, version);
            EncodesNode(Encoded(n), n) && NodeSize(n) == |Encoded(n)| == 36 + |id|
  {
    var n := PlainNode(id, version);
    assert Enumerates([], n.props);
    NodeLength(Encoded(n), n);
  }

  lemma PlainEdgeSize(id: Bytes, from: Bytes, to: Bytes)
    ensures var e := PlainEdge(id, from, to);
            EncodesEdge(EncodedEdge(e), e) && EdgeSize(e) == |EncodedEdge(e)| == 44 + |id| + |from| + |to|
  {
    var e := PlainEdge(id, from, to);
    assert Enumerates([], e.props);
    EdgeLength(EncodedEdge(e), e);
  }

  /** The lane after writing a plain node, and after writing a plain edge. */
  function AfterNode(l: Lane, n: Node): (Lane, NodeOutcome)
    requires Ready(l)
  {
    WriteNodeWith(l, n, Encoded(n), Encoded(n), Encoded(n), 0)
  }

  function AfterEdge(l: Lane, e: Edge): (Lane, EdgeOutcome)
    requires Ready(l)
  {
    WriteEdgeWith(l, e, EncodedEdge(e), EncodedEdge(e), EncodedEdge(e), EncodedEdge(e), 0)
  }

  lemma NodeSteps(l: Lane, id: Bytes, version: u64)
    requires Healthy(l) && !l.stopped
    ensures var n := PlainNode(id, version);
            var (l', out) := AfterNode(l, n);
            && WriteNodeStep(l, n, l', out) && Healthy(l') && !l'.stopped && l'.maxSize == l.maxSize
            && out == (if 41 + 2 * |id| <= l.maxSize then NodeWritten else NodeRefused)
            && (41 + 2 * |id| <= l.maxSize ==>
                  l'.nodes == if Room(Last(l.nodes), 41 + 2 * |id|)
                              then SetLast(l.nodes, Put(Last(l.nodes), NodeKey(id), Encoded(n)).0)
                              else SetLast(FreezeAndAdd(l.nodes, l.maxSize),
                                           Put(Fresh(l.maxSize), NodeKey(id), Encoded(n)).0))
  {
    hide Encoded, WriteNodeWith, Sound, Put, SetLast, FreezeAndAdd, EncodesNode;
    var n := PlainNode(id, version);
    var (l', out) := AfterNode(l, n);
    PlainNodeSize(id, version);
    assert WriteNodeStep(l, n, l', out);
    NodeStepOutcome(l, n, l', out);
    NodeTables(l, n, Encoded(n));
  }

  lemma NodeTables(l: Lane, n: Node, b: Bytes)
    requires Healthy(l)
    ensures var l' := WriteNodeWith(l, n, b, b, b, 0).0;
            var entry := NodeEntry(n, |b|);
            && l'.stopped == l.stopped
            && (entry <= l.maxSize ==>
                  l'.nodes == if Room(Last(l.nodes), entry)
                              then SetLast(l.nodes, Put(Last(l.nodes), NodeKey(n.id), b).0)
                              else SetLast(FreezeAndAdd(l.nodes, l.maxSize), Put(Fresh(l.maxSize), NodeKey(n.id), b).0))
  {
    hide Put, Sound;
    var l1 := Logged(l, ENTRY_NODE, n.id, b, 0);
    NodePut(Last(l.nodes), n, b);
    var l2 := PutInNodes(l1, NodeKey(n.id), b).0;
    RotateHealthy(l2);
    FreshSound(l.maxSize);
    NodePut(Fresh(l.maxSize), n, b);
    if !Room(Last(l.nodes), NodeEntry(n, |b|)) {
      assert l2.nodes == l.nodes by { StackPut(l.nodes, NodeKey(n.id), b, []); }
    }
  }

  lemma NodePut(t: Table, n: Node, b: Bytes)
    requires Sound(t) && !t.frozen
    ensures var (t', r) := Put(t, NodeKey(n.id), b);
            && t'.size <= t'.maxSize && t'.maxSize == t.maxSize
            && r == if Room(t, NodeEntry(n, |b|)) then Stored else TooLarge
  {
    PutSound(t, NodeKey(n.id), b);
  }

  // ---------- recovery of a log whose writes all succeeded ----------

  /** Two nodes of 43 bytes in tables of 60: both are written, the second after a rotation, and no
      recovery of that log succeeds. */
  lemma WrittenButUnrecoverable() returns (evs: seq<Event>, states: seq<Lane>)
    ensures Run(60, evs, states) && AllAttempted(evs) && AllPayloadsFit(evs)
    ensures |evs| == 2 && forall k :: 0 <= k < |evs| ==> evs[k].WroteNode? && evs[k].nodeOut == NodeWritten
    ensures !FitsOneTable(evs, 60)
  {
    hide FitsOneTable, FitsNode;
    evs, states := TwoWrites();
    assert AllPayloadsFit(evs) by {
      NodesFit(evs[0].node);
      NodesFit(evs[1].node);
    }
    TwoOverflow(evs);
  }

  lemma NodesFit(n: Node)
    requires n == PlainNode(n.id, n.version) && |n.id| == 1
    ensures FitsNode(n)
  {
  }

  lemma TwoWrites() returns (evs: seq<Event>, states: seq<Lane>)
    ensures Run(60, evs, states)
    ensures evs == [WroteNode(PlainNode([97], 1), NodeWritten), WroteNode(PlainNode([98], 1), NodeWritten)]
  {
    hide AfterNode, WriteNodeStep, Sound, Put, Encoded, SetLast, FreezeAndAdd;
    var a, b := PlainNode([97], 1), PlainNode([98], 1);
    var l0 := NewLane(60);
    NewLaneHealthy(60);
    NodeSteps(l0, [97], 1);
    var l1 := AfterNode(l0, a).0;
    NodeSteps(l1, [98], 1);
    var l2 := AfterNode(l1, b).0;
    evs, states := [WroteNode(a, NodeWritten), WroteNode(b, NodeWritten)], [l0, l1, l2];
  }

  lemma TwoOverflow(evs: seq<Event>)
    requires |evs| == 2 && evs[0].WroteNode? && evs[1].WroteNode?
    requires evs[0].node == PlainNode([97], 1) && evs[1].node == PlainNode([98], 1)
    ensures !FitsOneTable(evs, 60)
  {
    hide NodeSizes, NodeSize, EdgeSizes, TotalSize;
    PlainNodeSize([97], 1);
    PlainNodeSize([98], 1);
    OneNodeSizes(evs);
    assert !FitsNext(evs, 1, 60);
  }

  lemma OneNodeSizes(evs: seq<Event>)
    requires evs != [] && HasNode(evs[0])
    ensures TotalSize(NodeSizes(evs, 1)) == NodeEntry(evs[0].node, NodeSize(evs[0].node))
  {
    assert NodeSizes(evs, 0) == map[];
    TotalSizeUpdate(map[], NodeKey(evs[0].node.id), NodeEntry(evs[0].node, NodeSize(evs[0].node)));
  }

  // ---------- a stale read ----------

  /** A node written twice, in tables that hold one node each: once the newer of the two old tables is
      removed, the first version is read again. */
  lemma StaleRead() returns (evs: seq<Event>, states: seq<Lane>)
    ensures Run(60, evs, states) && |evs| == 4 && evs[3] == RemovedOld(1)
    ensures ReadNode(states[3], [97]) == Some(PlainNode([97], 2)) &&
            ReadNode(states[4], [97]) == Some(PlainNode([97], 1))
  {
    hide AfterNode, WriteNodeStep, Sound, Put, ReadNode, GetNode, Encoded;
    var a, a2, b := PlainNode([97], 1), PlainNode([97], 2), PlainNode([98], 1);
    var l0 := NewLane(60);
    NewLaneHealthy(60);
    NodeSteps(l0, [97], 1);
    var l1 := AfterNode(l0, a).0;
    FirstNode(a);
    NodeSteps(l1, [97], 2);
    var l2 := AfterNode(l1, a2).0;
    FirstNode(a2);
    NodeSteps(l2, [98], 1);
    var l3 := AfterNode(l2, b).0;
    FirstNode(b);
    var l4 := RemoveOld(l3, 1);
    evs := [WroteNode(a, NodeWritten), WroteNode(a2, NodeWritten), WroteNode(b, NodeWritten), RemovedOld(1)];
    states := [l0, l1, l2, l3, l4];
    ThreeTables(l1.nodes[0], l2.nodes[1], l3.nodes[2], l3.nodes);
    HoldsFirst(l3, a, a2, b);
    FlushedNodeGoesStale(l3, 1, [97], a2, a);
  }

  /** What a table of 60 bytes holds after the put of one plain node. */
  lemma FirstNode(n: Node)
    requires n == PlainNode(n.id, n.version) && |n.id| == 1
    ensures var t := Put(Fresh(60), NodeKey(n.id), Encoded(n)).0;
            && !Room(t, 43) && !t.frozen && t.maxSize == 60
            && forall id :: GetNode(t, id) == if id == n.id then Some(n) else None
  {
    PlainNodeSize(n.id, n.version);
    NodeRoundTrip(Encoded(n), n);
    var t := Put(Fresh(60), NodeKey(n.id), Encoded(n)).0;
    forall id
      ensures GetNode(t, id) == if id == n.id then Some(n) else None
    {
      NodeKeysDiffer(id, n.id);
    }
  }

  /** Freezing a table does not change what it holds. */
  lemma ThreeTables(t0: Table, t1: Table, t2: Table, ts: seq<Table>)
    requires ts == [t0.(frozen := true), t1.(frozen := true), t2]
    ensures forall id :: GetNode(ts[0], id) == GetNode(t0, id) && GetNode(ts[1], id) == GetNode(t1, id)
  {
    hide DecodeNode;
  }

  lemma HoldsFirst(l: Lane, a: Node, a2: Node, b: Node)
    requires |l.nodes| == 3 && a.id == a2.id == [97]
    requires GetNode(l.nodes[0], [97]) == Some(a) && GetNode(l.nodes[1], [97]) == Some(a2) &&
             GetNode(l.nodes[2], [97]) == None
    ensures !Overridden(l.nodes, 1, 3, [97]) && NewestTo(l.nodes, 1, [97]) == Some(a)
  {
    NewestNodeStep(l.nodes, 1, [97]);
  }

  // ---------- edges ----------

  /** Both list items of the edge, added to an adjacency table. */
  function WithBoth(t: Table, e: Edge): Table {
    AddToList(AddToList(t, OutKey(e.from), e.id).0, InKey(e.to), e.id).0
  }

  /** An edge that finds room in all its tables goes into the active ones. */
  ghost predicate RoomForEdge(l: Lane, e: Edge, entry: nat) {
    Healthy(l) && Room(Last(l.edges), entry) && BothRoom(Last(l.adj), e)
  }

  lemma EdgeTables(l: Lane, e: Edge, b: Bytes)
    requires RoomForEdge(l, e, EdgeEntry(e, |b|))
    ensures var (l', out) := WriteEdgeWith(l, e, b, b, b, b, 0);
            && out == EdgeWritten && l'.stopped == l.stopped && Ready(l')
            && Last(l'.edges) == Put(Last(l.edges), EdgeKey(e.id), b).0 && Last(l'.adj) == WithBoth(Last(l.adj), e)
  {
    hide Put, Sound, AddToList, ListRoom;
    var l1 := Logged(l, ENTRY_EDGE, e.id, b, 0);
    EdgePut(Last(l.edges), e, b);
    var l2 := PutInEdges(l1, EdgeKey(e.id), b).0;
    BothAdded(Last(l.adj), e);
    assert Last(l2.adj) == Last(l.adj);
  }

  lemma EdgePut(t: Table, e: Edge, b: Bytes)
    requires Sound(t) && !t.frozen
    ensures var (t', r) := Put(t, EdgeKey(e.id), b);
            && t'.size <= t'.maxSize && t'.maxSize == t.maxSize && Sound(t') && !t'.frozen
            && r == if Room(t, EdgeEntry(e, |b|)) then Stored else TooLarge
  {
    PutSound(t, EdgeKey(e.id), b);
  }

  lemma BothAdded(t: Table, e: Edge)
    requires Sound(t) && !t.frozen && BothRoom(t, e)
    ensures var (t1, r1) := AddToList(t, OutKey(e.from), e.id);
            var (t2, r2) := AddToList(t1, InKey(e.to), e.id);
            && r1 == Stored && r2 == Stored && !t2.frozen && t2.maxSize == t.maxSize && t2.size <= t2.maxSize &&
               Sound(t2)
  {
    AddSound(t, OutKey(e.from), e.id);
    AddSound(AddToList(t, OutKey(e.from), e.id).0, InKey(e.to), e.id);
  }

  lemma EdgeSteps(l: Lane, id: Bytes, from: Bytes, to: Bytes)
    requires Healthy(l) && !l.stopped && EdgeEntry(PlainEdge(id, from, to), 44 + |id| + |from| + |to|) <= l.maxSize
    ensures var e := PlainEdge(id, from, to);
            var (l', out) := AfterEdge(l, e);
            var entry := 49 + 2 * |id| + |from| + |to|;
            && WriteEdgeStep(l, e, l', out) && Healthy(l') && !l'.stopped && l'.maxSize == l.maxSize
            && out == IndexOutcome(AdjTried(l, entry), e)
            && (Room(Last(l.edges), entry) && BothRoom(Last(l.adj), e) ==>
                  && Last(l'.edges) == Put(Last(l.edges), EdgeKey(id), EncodedEdge(e)).0
                  && Last(l'.adj) == WithBoth(Last(l.adj), e))
  {
    hide EncodedEdge, WriteEdgeWith, Sound, Put, EncodesEdge, AddToList, IndexOutcome, BothRoom, WithBoth;
    var e := PlainEdge(id, from, to);
    var (l', out) := AfterEdge(l, e);
    PlainEdgeSize(id, from, to);
    assert WriteEdgeStep(l, e, l', out);
    EdgeStepOutcome(l, e, l', out);
    EdgeStaysRunning(l, e);
    if Room(Last(l.edges), 49 + 2 * |id| + |from| + |to|) && BothRoom(Last(l.adj), e) {
      EdgeTables(l, e, EncodedEdge(e));
    }
  }

  lemma EdgeStaysRunning(l: Lane, e: Edge)
    requires Ready(l)
    ensures AfterEdge(l, e).0.stopped == l.stopped
  {
    hide Put, AddToList, EncodedEdge;
  }

  // ---------- the sizes of adjacency tables ----------

  lemma AddSizes(t: Table, key: Bytes, id: Bytes, other: Bytes)
    requires !t.frozen && key != [] && ListRoom(t, key, id) && forall k :: k in t.data ==> t.data[k].Some?
    ensures var t' := AddToList(t, key, id).0;
            && t'.size == t.size + |id| + 1 + (if key in t.data then 0 else |key|)
            && t'.maxSize == t.maxSize && !t'.frozen && (forall k :: k in t'.data ==> t'.data[k].Some?)
            && key in t'.data && |ListAt(t', key)| == |ListAt(t, key)| + |id| + 1
            && (other != key ==> ListAt(t', other) == ListAt(t, other) && (other in t'.data <==> other in t.data))
  {
  }

  /** The adjacency table after `n` writes of one edge: both its lists hold the ID `n` times. */
  predicate Repeated(t: Table, e: Edge, n: nat) {
    && !t.frozen && (forall k :: k in t.data ==> t.data[k].Some?)
    && (OutKey(e.from) in t.data <==> n > 0) && (InKey(e.to) in t.data <==> n > 0)
    && |ListAt(t, OutKey(e.from))| == |ListAt(t, InKey(e.to))| == n * (|e.id| + 1)
    && t.size == 2 * n * (|e.id| + 1) + if n > 0 then 15 + |e.from| + |e.to| else 0
  }

  lemma KeySizes(e: Edge)
    ensures |OutKey(e.from)| == 8 + |e.from| && |InKey(e.to)| == 7 + |e.to|
  {
  }

  /** The room one more write of the edge needs. */
  lemma RepeatedRoom(t: Table, e: Edge, n: nat)
    requires Repeated(t, e, n)
    ensures var item := |e.id| + 1;
            && (ListRoom(t, OutKey(e.from), e.id) <==> t.size + 8 + |e.from| + n * item + item <= t.maxSize)
            && (BothRoom(t, e) <==>
                  && t.size + 8 + |e.from| + n * item + item <= t.maxSize
                  && t.size + item + (if n > 0 then 0 else 8 + |e.from|) + 7 + |e.to| + n * item + item <= t.maxSize)
            && (BothRoom(t, e) ==> Repeated(WithBoth(t, e), e, n + 1) && WithBoth(t, e).maxSize == t.maxSize)
  {
    hide AddToList;
    OutIsNotIn(e.from, e.to);
    KeySizes(e);
    assert (n + 1) * (|e.id| + 1) == n * (|e.id| + 1) + |e.id| + 1;
    if ListRoom(t, OutKey(e.from), e.id) {
      AddSizes(t, OutKey(e.from), e.id, InKey(e.to));
      var t1 := AddToList(t, OutKey(e.from), e.id).0;
      if ListRoom(t1, InKey(e.to), e.id) {
        AddSizes(t1, InKey(e.to), e.id, OutKey(e.from));
      }
    }
  }

  // ---------- an incoming update that is refused ----------

  function Name(n: nat): Bytes { seq(n, _ => 97) }

  /** An edge with an ID of 1000 bytes fills the target's list so far that a short edge to the same
      target finds room everywhere but there: it is readable and listed by its source only. */
  lemma IncomingRefused() returns (e: Edge, states: seq<Lane>)
    ensures Run(2500, [WroteEdge(PlainEdge(Name(1000), [97], [99]), EdgeWritten), WroteEdge(e, InRefused)], states)
    ensures e == PlainEdge([98], [98], [99])
  {
    hide AfterEdge, WriteEdgeStep, Sound, Put, EncodedEdge, BothRoom, ListRoom, WithBoth, Repeated, AddToList;
    var first := PlainEdge(Name(1000), [97], [99]);
    e := PlainEdge([98], [98], [99]);
    var l0 := NewLane(2500);
    NewLaneHealthy(2500);
    FirstWrite(2500, first);
    EdgeSteps(l0, first.id, first.from, first.to);
    var l1 := AfterEdge(l0, first).0;
    LongList(first, e);
    EdgeSteps(l1, e.id, e.from, e.to);
    var l2 := AfterEdge(l1, e).0;
    states := [l0, l1, l2];
  }

  /** The first write of an edge, to empty tables. */
  lemma FirstWrite(maxSize: int, e: Edge)
    requires e == PlainEdge(e.id, e.from, e.to) && 49 + 2 * |e.id| + |e.from| + |e.to| <= maxSize
    ensures Repeated(Fresh(maxSize), e, 0) && BothRoom(Fresh(maxSize), e) && Repeated(WithBoth(Fresh(maxSize), e), e, 1)
    ensures WithBoth(Fresh(maxSize), e).maxSize == maxSize && IndexOutcome(Fresh(maxSize), e) == EdgeWritten
    ensures Room(Fresh(maxSize), 49 + 2 * |e.id| + |e.from| + |e.to|)
    ensures var t := Put(Fresh(maxSize), EdgeKey(e.id), EncodedEdge(e)).0;
            t.size == 49 + 2 * |e.id| + |e.from| + |e.to| && t.maxSize == maxSize && !t.frozen
            && t.data == map[EdgeKey(e.id) := Some(EncodedEdge(e))]
  {
    hide WithBoth, BothRoom, EncodedEdge;
    RepeatedRoom(Fresh(maxSize), e, 0);
    PlainEdgeSize(e.id, e.from, e.to);
  }

  lemma LongList(first: Edge, e: Edge)
    requires first == PlainEdge(Name(1000), [97], [99]) && e == PlainEdge([98], [98], [99])
    ensures var t := WithBoth(Fresh(2500), first);
            IndexOutcome(t, e) == InRefused && t.maxSize == 2500
  {
    hide AddToList;
    var f := Fresh(2500);
    OutIsNotIn(first.from, first.to);
    OutIsNotIn(e.from, first.to);
    NodeKeysDiffer(first.from, e.from);
    KeySizes(first);
    KeySizes(e);
    AddSizes(f, OutKey(first.from), first.id, OutKey(e.from));
    AddSizes(f, OutKey(first.from), first.id, InKey(first.to));
    var t1 := AddToList(f, OutKey(first.from), first.id).0;
    AddSizes(t1, InKey(first.to), first.id, OutKey(e.from));
    var t := AddToList(t1, InKey(first.to), first.id).0;
    AddSizes(t, OutKey(e.from), e.id, InKey(e.to));
  }

  // ---------- an index that recovery cannot restore ----------

  /** One edge with an ID of 100 bytes, written three times in tables of 600 bytes: each write succeeds,
      the third after a rotation that a long list forced; the log fits one table of each kind, and the
      lists do not. */
  lemma RecoveredWithoutIndex() returns (evs: seq<Event>, states: seq<Lane>)
    ensures Run(600, evs, states) && AllAttempted(evs) && AllPayloadsFit(evs) && AllEdgesWritten(evs) &&
            WellFormedEdges(evs)
    ensures FitsOneTable(evs, 600) && !IndexFits(evs, 600)
  {
    hide Run, FitsOneTable, IndexFits, FitsEdge, WellFormedId;
    var e := PlainEdge(Name(100), [97], [97]);
    var ev := WroteEdge(e, EdgeWritten);
    evs := [ev, ev, ev];
    states := ThreeWrites(e);
    NameIsWellFormed(100);
    assert FitsEdge(e) by { ShortFits(e); }
    ThreeFit(e, evs);
    ThreeOverflow(e, evs);
  }

  lemma ShortFits(e: Edge)
    requires e == PlainEdge(Name(100), [97], [97])
    ensures FitsEdge(e)
  {
  }

  lemma NameIsWellFormed(n: nat)
    requires n > 0
    ensures WellFormedId(Name(n))
  {
    AsciiIsValid(n, 0);
  }

  lemma {:induction false} AsciiIsValid(n: nat, i: nat)
    requires i <= n
    ensures ValidFrom(Name(n), i)
    decreases n - i
  {
    if i < n {
      AsciiIsValid(n, i + 1);
    }
  }

  lemma ThreeWrites(e: Edge) returns (states: seq<Lane>)
    requires e == PlainEdge(Name(100), [97], [97])
    ensures var ev := WroteEdge(e, EdgeWritten); Run(600, [ev, ev, ev], states)
  {
    hide AfterEdge, WriteEdgeStep, Sound, Put, EncodedEdge, BothRoom, ListRoom, WithBoth, Repeated, AddToList;
    var l0 := NewLane(600);
    NewLaneHealthy(600);
    FirstWrite(600, e);
    EdgeSteps(l0, e.id, e.from, e.to);
    var l1 := AfterEdge(l0, e).0;
    RoomForTwo(Last(l1.adj), e);
    EdgeSteps(l1, e.id, e.from, e.to);
    var l2 := AfterEdge(l1, e).0;
    SecondPut(e);
    ThirdRotates(Last(l2.adj), e);
    EdgeSteps(l2, e.id, e.from, e.to);
    var l3 := AfterEdge(l2, e).0;
    states := [l0, l1, l2, l3];
  }

  lemma RoomForTwo(t: Table, e: Edge)
    requires e == PlainEdge(Name(100), [97], [97]) && Repeated(t, e, 1) && t.maxSize == 600
    ensures BothRoom(t, e) && Repeated(WithBoth(t, e), e, 2) && WithBoth(t, e).maxSize == 600
  {
    RepeatedRoom(t, e, 1);
  }

  lemma ThirdRotates(t: Table, e: Edge)
    requires e == PlainEdge(Name(100), [97], [97]) && Repeated(t, e, 2) && t.maxSize == 600
    ensures !ListRoom(t, OutKey(e.from), e.id) && IndexOutcome(t, e) == EdgeWritten
  {
    RepeatedRoom(t, e, 2);
    RepeatedRoom(Fresh(600), e, 0);
  }

  /** A second put of the same entry replaces the first. */
  lemma SecondPut(e: Edge)
    requires e == PlainEdge(Name(100), [97], [97])
    ensures var t := Put(Put(Fresh(600), EdgeKey(e.id), EncodedEdge(e)).0, EdgeKey(e.id), EncodedEdge(e)).0;
            t.size == 251 && t.maxSize == 600
  {
    hide EncodedEdge;
    PlainEdgeSize(e.id, e.from, e.to);
  }

  lemma ThreeFit(e: Edge, evs: seq<Event>)
    requires e == PlainEdge(Name(100), [97], [97]) &&
             evs == [WroteEdge(e, EdgeWritten), WroteEdge(e, EdgeWritten), WroteEdge(e, EdgeWritten)]
    ensures FitsOneTable(evs, 600)
  {
    hide TotalSize, EdgeSizes, NodeSizes, EdgeSize, PlainEdge, Name, EdgeEntry;
    ShortEntry(e);
    forall k | 0 <= k < 3
      ensures FitsNext(evs, k, 600)
    {
      SameEntryAgain(e, evs, k);
    }
  }

  lemma ShortEntry(e: Edge)
    requires e == PlainEdge(Name(100), [97], [97])
    ensures EdgeEntry(e, EdgeSize(e)) == 251
  {
    PlainEdgeSize(e.id, e.from, e.to);
  }

  /** However often one edge was logged, its latest entry counts. */
  lemma SameEntryAgain(e: Edge, evs: seq<Event>, k: nat)
    requires k <= |evs| && forall j :: 0 <= j < k ==> evs[j] == WroteEdge(e, EdgeWritten)
    ensures TotalSize(EdgeSizes(evs, k)) == if k == 0 then 0 else EdgeEntry(e, EdgeSize(e))
  {
    hide TotalSize, EdgeSize, EdgeKey;
    NothingTotal();
    if k > 0 {
      OnlyKey(e, evs, k - 1);
      TotalSizeUpdate(EdgeSizes(evs, k - 1), EdgeKey(e.id), EdgeEntry(e, EdgeSize(e)));
      SameEntryAgain(e, evs, k - 1);
    }
  }

  lemma {:induction false} OnlyKey(e: Edge, evs: seq<Event>, k: nat)
    requires k <= |evs| && forall j :: 0 <= j < k ==> evs[j] == WroteEdge(e, EdgeWritten)
    ensures EdgeSizes(evs, k) == if k == 0 then map[] else map[EdgeKey(e.id) := EdgeEntry(e, EdgeSize(e))]
  {
    hide EdgeSize, EdgeKey;
    if k > 0 {
      OnlyKey(e, evs, k - 1);
    }
  }

  lemma NothingTotal()
    ensures TotalSize(map[]) == 0
  {
  }

  lemma ThreeOverflow(e: Edge, evs: seq<Event>)
    requires e == PlainEdge(Name(100), [97], [97]) &&
             evs == [WroteEdge(e, EdgeWritten), WroteEdge(e, EdgeWritten), WroteEdge(e, EdgeWritten)]
    ensures !IndexFits(evs, 600)
  {
    hide AddToList, Repeated, BothRoom, ListRoom;
    FirstWrite(600, e);
    var t1 := WithBoth(Fresh(600), e);
    RoomForTwo(t1, e);
    var t2 := WithBoth(t1, e);
    ThirdRotates(t2, e);
    assert AdjTable(evs, 0, 600) == Fresh(600);
    assert AdjTable(evs, 1, 600) == t1;
    assert AdjTable(evs, 2, 600) == t2;
    assert !BothRoom(AdjTable(evs, 2, 600), evs[2].edge) by { NoListRoom(t2, e); }
  }

  lemma NoListRoom(t: Table, e: Edge)
    requires !ListRoom(t, OutKey(e.from), e.id)
    ensures !BothRoom(t, e)
  {
  }
}
