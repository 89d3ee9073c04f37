/** One write lane (pkg/storage/write_lane.go) as a value and the transitions its methods make.
    Each sequence of tables runs from the oldest to the active one. */
module Lane {
  import opened Bytes
  import opened Graph
  import opened Serialization
  import opened EdgeList
  import opened Memtable
  import opened Wal

  datatype Lane = Lane(log: seq<Entry>, nodes: seq<Table>, edges: seq<Table>, adj: seq<Table>,
                       maxSize: int, stopped: bool)

  function NewLane(maxSize: int): Lane {
    Lane([], [Fresh(maxSize)], [Fresh(maxSize)], [Fresh(maxSize)], maxSize, false)
  }

  /** Every kind has an active table that accepts writes. */
  predicate Ready(l: Lane) {
    && ActiveTables(l.nodes, l.maxSize)
    && ActiveTables(l.edges, l.maxSize)
    && ActiveTables(l.adj, l.maxSize)
  }

  predicate ActiveTables(ts: seq<Table>, maxSize: int) {
    ts != [] && !Last(ts).frozen && Last(ts).maxSize == maxSize
  }

  function Last(ts: seq<Table>): Table
    requires ts != []
  {
    ts[|ts| - 1]
  }

  function SetLast(ts: seq<Table>, t: Table): (r: seq<Table>)
    requires ts != []
    ensures |r| == |ts| && Last(r) == t
  {
    ts[|ts| - 1 := t]
  }

  function FreezeAndAdd(ts: seq<Table>, maxSize: int): (r: seq<Table>)
    requires ts != []
    ensures |r| == |ts| + 1 && ActiveTables(r, maxSize)
  {
    SetLast(ts, Last(ts).(frozen := true)) + [Fresh(maxSize)]
  }

  /** `rotateMemtable`: all three kinds rotate together. */
  function Rotate(l: Lane): (r: Lane)
    requires Ready(l)
    ensures Ready(r)
  {
    l.(nodes := FreezeAndAdd(l.nodes, l.maxSize),
       edges := FreezeAndAdd(l.edges, l.maxSize),
       adj := FreezeAndAdd(l.adj, l.maxSize))
  }

  // ---------- writing ----------

  datatype NodeOutcome = NodeWritten | NodeStopped | NodeUnserializable | NodeRefused | NodeCrashed

  /** The distinct error messages of `WriteEdge`. */
  datatype EdgeOutcome =
    | EdgeWritten | EdgeStopped | EdgeUnserializable
    | EdgeRefused | RewriteRefused | OutRefused | InRefused | EdgeCrashed

  function PutInNodes(l: Lane, key: Bytes, value: Bytes): (r: (Lane, PutResult))
    requires Ready(l)
    ensures Ready(r.0)
  {
    var (t, r) := Put(Last(l.nodes), key, value);
    (l.(nodes := SetLast(l.nodes, t)), r)
  }

  function PutInEdges(l: Lane, key: Bytes, value: Bytes): (r: (Lane, PutResult))
    requires Ready(l)
    ensures Ready(r.0)
  {
    var (t, r) := Put(Last(l.edges), key, value);
    (l.(edges := SetLast(l.edges, t)), r)
  }

  function AddInAdj(l: Lane, key: Bytes, edgeID: Bytes): (r: (Lane, PutResult))
    requires Ready(l)
    ensures Ready(r.0)
  {
    var (t, r) := AddToList(Last(l.adj), key, edgeID);
    (l.(adj := SetLast(l.adj, t)), r)
  }

  function Logged(l: Lane, kind: byte, key: Bytes, value: Bytes, now: i64): Lane {
    l.(log := l.log + [Entry(kind, key, value, now)])
  }

  /** `WriteNode` after serialization. The node is serialized for the log, for the put and for the
      retried put; the three byte strings may differ in the order of the properties. */
  function WriteNodeWith(l: Lane, n: Node, logged: Bytes, stored: Bytes, retried: Bytes, now: i64): (Lane, NodeOutcome)
    requires Ready(l)
  {
    StoreNode(Logged(l, ENTRY_NODE, n.id, logged, now), n, stored, retried)
  }

  function StoreNode(l: Lane, n: Node, stored: Bytes, retried: Bytes): (Lane, NodeOutcome)
    requires Ready(l)
  {
    var (l2, r) := PutInNodes(l, NodeKey(n.id), stored);
    if r.Panicked? then (l2, NodeCrashed)
    else if r.Stored? then (RotateIfOver(l2, Last(l2.nodes).size > l2.maxSize), NodeWritten)
    else RetryNode(Rotate(l2), n, retried)
  }

  /** The put that follows a rotation. */
  function RetryNode(l: Lane, n: Node, retried: Bytes): (Lane, NodeOutcome)
    requires Ready(l)
  {
    var (l3, again) := PutInNodes(l, NodeKey(n.id), retried);
    if again.Panicked? then (l3, NodeCrashed)
    else if again.Stored? then (RotateIfOver(l3, Last(l3.nodes).size > l3.maxSize), NodeWritten)
    else (l3, NodeRefused)
  }

  function RotateIfOver(l: Lane, over: bool): (r: Lane)
    requires Ready(l)
    ensures Ready(r)
  {
    if over then Rotate(l) else l
  }

  /** `WriteEdge` after serialization. */
  function WriteEdgeWith(l: Lane, e: Edge, logged: Bytes, stored: Bytes, retried: Bytes, rewritten: Bytes, now: i64):
    (Lane, EdgeOutcome)
    requires Ready(l)
  {
    StoreEdge(Logged(l, ENTRY_EDGE, e.id, logged, now), e, stored, retried, rewritten)
  }

  function StoreEdge(l: Lane, e: Edge, stored: Bytes, retried: Bytes, rewritten: Bytes): (Lane, EdgeOutcome)
    requires Ready(l)
  {
    var (l2, r) := PutInEdges(l, EdgeKey(e.id), stored);
    if r.Panicked? then (l2, EdgeCrashed)
    else if r.Stored? then IndexEdge(l2, e, rewritten)
    else RetryEdge(Rotate(l2), e, retried, rewritten)
  }

  function RetryEdge(l: Lane, e: Edge, retried: Bytes, rewritten: Bytes): (Lane, EdgeOutcome)
    requires Ready(l)
  {
    var (l3, again) := PutInEdges(l, EdgeKey(e.id), retried);
    if again.Panicked? then (l3, EdgeCrashed)
    else if again.Stored? then IndexEdge(l3, e, rewritten)
    else (l3, EdgeRefused)
  }

  /** The adjacency part: a refused outgoing update rotates and rewrites the edge; a refused
      incoming one is reported without a retry. */
  function IndexEdge(l: Lane, e: Edge, rewritten: Bytes): (Lane, EdgeOutcome)
    requires Ready(l)
  {
    var (l1, out) := AddInAdj(l, OutKey(e.from), e.id);
    if out.Panicked? then (l1, EdgeCrashed)
    else if out.Stored? then ListIncoming(l1, e)
    else RewriteEdge(Rotate(l1), e, rewritten)
  }

  function ListIncoming(l: Lane, e: Edge): (Lane, EdgeOutcome)
    requires Ready(l)
  {
    var (l1, inc) := AddInAdj(l, InKey(e.to), e.id);
    if inc.Panicked? then (l1, EdgeCrashed)
    else if inc.Stored? then
      (RotateIfOver(l1, Last(l1.edges).size > l1.maxSize || Last(l1.adj).size > l1.maxSize), EdgeWritten)
    else (l1, InRefused)
  }

  function RewriteEdge(l: Lane, e: Edge, rewritten: Bytes): (Lane, EdgeOutcome)
    requires Ready(l)
  {
    var (l1, r) := PutInEdges(l, EdgeKey(e.id), rewritten);
    if r.Panicked? then (l1, EdgeCrashed)
    else if !r.Stored? then (l1, RewriteRefused)
    else
      var (l2, out) := AddInAdj(l1, OutKey(e.from), e.id);
      if out.Panicked? then (l2, EdgeCrashed)
      else if !out.Stored? then (l2, OutRefused)
      else
        var (l3, inc) := AddInAdj(l2, InKey(e.to), e.id);
        if inc.Panicked? then (l3, EdgeCrashed)
        else if !inc.Stored? then (l3, InRefused)
        else (l3, EdgeWritten)
  }

  ghost predicate WriteNodeStep(l: Lane, n: Node, l': Lane, out: NodeOutcome) {
    Ready(l) &&
    if l.stopped then l' == l && out == NodeStopped
    else if !Supported(n.props) then l' == l && out == NodeUnserializable
    else exists logged, stored, retried, now ::
           EncodesNode(logged, n) && EncodesNode(stored, n) && EncodesNode(retried, n)
           && (l', out) == WriteNodeWith(l, n, logged, stored, retried, now)
  }

  ghost predicate WriteEdgeStep(l: Lane, e: Edge, l': Lane, out: EdgeOutcome) {
    Ready(l) &&
    if l.stopped then l' == l && out == EdgeStopped
    else if !Supported(e.props) then l' == l && out == EdgeUnserializable
    else exists logged, stored, retried, rewritten, now ::
           EncodesEdge(logged, e) && EncodesEdge(stored, e) && EncodesEdge(retried, e) && EncodesEdge(rewritten, e)
           && (l', out) == WriteEdgeWith(l, e, logged, stored, retried, rewritten, now)
  }

  // ---------- replaying one log entry ----------

  ghost predicate ReplayNodeStep(l: Lane, n: Node, l': Lane, r: PutResult) {
    Ready(l) && exists stored :: EncodesNode(stored, n) && (l', r) == PutInNodes(l, NodeKey(n.id), stored)
  }

  /** Adjacency errors are dropped. */
  function ReplayEdgeWith(l: Lane, e: Edge, stored: Bytes): (Lane, PutResult, bool, bool)
    requires Ready(l)
  {
    var (l1, r) := PutInEdges(l, EdgeKey(e.id), stored);
    if !r.Stored? then (l1, r, false, false)
    else
      var (l2, out) := AddInAdj(l1, OutKey(e.from), e.id);
      var (l3, inc) := AddInAdj(l2, InKey(e.to), e.id);
      (l3, r, out.Stored?, inc.Stored?)
  }

  ghost predicate ReplayEdgeStep(l: Lane, e: Edge, l': Lane, r: PutResult, out: bool, inc: bool) {
    Ready(l) && exists stored :: EncodesEdge(stored, e) && (l', r, out, inc) == ReplayEdgeWith(l, e, stored)
  }

  function ReplayDelete(l: Lane, key: Bytes): Lane
    requires Ready(l)
  {
    l.(nodes := SetLast(l.nodes, Delete(Last(l.nodes), key).0))
  }

  /** `RemoveOldMemtable` of the `i`-th old node table. */
  function RemoveOld(l: Lane, i: nat): Lane
    requires i + 1 < |l.nodes|
  {
    l.(nodes := l.nodes[..i] + l.nodes[i + 1..])
  }

  // ---------- reading ----------

  /** The values stored under `key` in the `n` oldest tables, oldest first. */
  function Stack(ts: seq<Table>, n: nat, key: Bytes): seq<Bytes>
    requires n <= |ts|
  {
    if n == 0 then []
    else Stack(ts, n - 1, key) + (if Lookup(ts[n - 1], key).Some? then [Lookup(ts[n - 1], key).value] else [])
  }

  function NodeStack(l: Lane, key: Bytes): seq<Bytes> {
    Stack(l.nodes, |l.nodes|, key)
  }

  function EdgeStack(l: Lane, key: Bytes): seq<Bytes> {
    Stack(l.edges, |l.edges|, key)
  }

  /** The newest value that can be decoded: a table whose value cannot be falls through to the
      older ones, like one that has no value or a tombstone. */
  function NewestNode(stack: seq<Bytes>): Option<Node> {
    if stack == [] then None
    else if DecodeNode(stack[|stack| - 1]).Some? then DecodeNode(stack[|stack| - 1])
    else NewestNode(stack[..|stack| - 1])
  }

  function NewestEdge(stack: seq<Bytes>): Option<Edge> {
    if stack == [] then None
    else if DecodeEdge(stack[|stack| - 1]).Some? then DecodeEdge(stack[|stack| - 1])
    else NewestEdge(stack[..|stack| - 1])
  }

  function ReadNode(l: Lane, id: Bytes): Option<Node> {
    NewestNode(NodeStack(l, NodeKey(id)))
  }

  function ReadEdge(l: Lane, id: Bytes): Option<Edge> {
    NewestEdge(EdgeStack(l, EdgeKey(id)))
  }

  /** The search from the newest table to the oldest. */
  lemma NewestNodeStep(ts: seq<Table>, n: nat, id: Bytes)
    requires 0 < n <= |ts|
    ensures NewestNode(Stack(ts, n, NodeKey(id)))
         == if GetNode(ts[n - 1], id).Some? then GetNode(ts[n - 1], id)
            else NewestNode(Stack(ts, n - 1, NodeKey(id)))
  {
    hide DecodeNode;
    var rest := Stack(ts, n - 1, NodeKey(id));
    var v := Lookup(ts[n - 1], NodeKey(id));
    if v.Some? {
      SnocParts(rest, v.value);
    } else {
      NothingAdded(rest);
    }
  }

  lemma NewestEdgeStep(ts: seq<Table>, n: nat, id: Bytes)
    requires 0 < n <= |ts|
    ensures NewestEdge(Stack(ts, n, EdgeKey(id)))
         == if GetEdge(ts[n - 1], id).Some? then GetEdge(ts[n - 1], id)
            else NewestEdge(Stack(ts, n - 1, EdgeKey(id)))
  {
    hide DecodeEdge;
    var rest := Stack(ts, n - 1, EdgeKey(id));
    var v := Lookup(ts[n - 1], EdgeKey(id));
    if v.Some? {
      SnocParts(rest, v.value);
    } else {
      NothingAdded(rest);
    }
  }

  /** `GetOutgoingEdges` and `GetIncomingEdges`: the active table's list, then the older ones. */
  function EdgesAt(ts: seq<Table>, n: nat, key: Bytes): seq<Bytes>
    requires n <= |ts|
  {
    if n == 0 then [] else ParseEdgeList(ListAt(ts[n - 1], key)) + EdgesAt(ts, n - 1, key)
  }

  function Outgoing(l: Lane, node: Bytes): seq<Bytes> {
    EdgesAt(l.adj, |l.adj|, OutKey(node))
  }

  function Incoming(l: Lane, node: Bytes): seq<Bytes> {
    EdgesAt(l.adj, |l.adj|, InKey(node))
  }

  // ---------- how tables change ----------

  ghost predicate SameData(ts: seq<Table>, us: seq<Table>, n: nat) {
    n <= |ts| && n <= |us| && forall i :: 0 <= i < n ==> ts[i].data == us[i].data
  }

  lemma {:induction false} StackSame(ts: seq<Table>, us: seq<Table>, n: nat, key: Bytes)
    requires SameData(ts, us, n)
    ensures Stack(ts, n, key) == Stack(us, n, key)
  {
    if n > 0 {
      StackSame(ts, us, n - 1, key);
    }
  }

  lemma StackRotated(ts: seq<Table>, maxSize: int, key: Bytes)
    requires ts != []
    ensures Stack(FreezeAndAdd(ts, maxSize), |ts| + 1, key) == Stack(ts, |ts|, key)
  {
    var us := FreezeAndAdd(ts, maxSize);
    assert us[|ts|] == Fresh(maxSize);
    StackSame(ts, us, |ts|, key);
    NothingAdded(Stack(ts, |ts|, key));
  }

  predicate Tops(stack: seq<Bytes>, v: Bytes) {
    stack != [] && stack[|stack| - 1] == v
  }

  /** A stored put is on top for its own key and leaves every other key alone. */
  lemma StackPut(ts: seq<Table>, key: Bytes, value: Bytes, other: Bytes)
    requires ts != []
    ensures var (t, r) := Put(Last(ts), key, value);
            && (!r.Stored? && !r.Panicked? ==> SetLast(ts, t) == ts)
            && (r.Stored? ==> if other == key then Tops(Stack(SetLast(ts, t), |ts|, key), value)
                              else Stack(SetLast(ts, t), |ts|, other) == Stack(ts, |ts|, other))
  {
    var (t, r) := Put(Last(ts), key, value);
    StackSame(ts, SetLast(ts, t), |ts| - 1, other);
  }

  /** All list values stored under `key` in the `n` oldest tables, oldest first. */
  function ListTo(ts: seq<Table>, n: nat, key: Bytes): Bytes
    requires n <= |ts|
  {
    if n == 0 then [] else ListTo(ts, n - 1, key) + ListAt(ts[n - 1], key)
  }

  function ListBytes(l: Lane, key: Bytes): Bytes {
    ListTo(l.adj, |l.adj|, key)
  }

  lemma {:induction false} ListSame(ts: seq<Table>, us: seq<Table>, n: nat, key: Bytes)
    requires SameData(ts, us, n)
    ensures ListTo(ts, n, key) == ListTo(us, n, key)
  {
    if n > 0 {
      ListSame(ts, us, n - 1, key);
    }
  }

  lemma ListRotated(ts: seq<Table>, maxSize: int, key: Bytes)
    requires ts != []
    ensures ListTo(FreezeAndAdd(ts, maxSize), |ts| + 1, key) == ListTo(ts, |ts|, key)
  {
    var us := FreezeAndAdd(ts, maxSize);
    assert us[|ts|] == Fresh(maxSize);
    ListSame(ts, us, |ts|, key);
    NothingAdded(ListTo(ts, |ts|, key));
  }

  lemma ListAdd(ts: seq<Table>, key: Bytes, edgeID: Bytes, other: Bytes)
    requires ts != []
    ensures var (t, r) := AddToList(Last(ts), key, edgeID);
            && (!r.Stored? && !r.Panicked? ==> SetLast(ts, t) == ts)
            && (r.Stored? ==> ListTo(SetLast(ts, t), |ts|, other)
                              == ListTo(ts, |ts|, other) + if other == key then Item(edgeID) else [])
  {
    var (t, r) := AddToList(Last(ts), key, edgeID);
    ListSame(ts, SetLast(ts, t), |ts| - 1, other);
    Concat3(ListTo(ts, |ts| - 1, key), ListAt(Last(ts), key), Item(edgeID));
    NothingAdded(ListTo(ts, |ts|, other));
  }
}
