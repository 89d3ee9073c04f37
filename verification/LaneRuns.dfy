/** Whole runs of a write lane: writes that succeed or fail, replayed log entries and flushes, in
    any order, and what the lane then returns. */
module LaneRuns {
  import opened Bytes
  import opened Graph
  import opened Serialization
  import opened EdgeList
  import opened Memtable
  import opened Wal
  import opened Lane
  import opened LaneSteps
  import opened LaneReads
  import opened LaneHealth

  datatype Event =
    | WroteNode(node: Node, nodeOut: NodeOutcome)
    | WroteEdge(edge: Edge, edgeOut: EdgeOutcome)
    | ReplayedNode(node: Node, put: PutResult)
    | ReplayedEdge(edge: Edge, put: PutResult, outListed: bool, inListed: bool)
    | ReplayedDelete(key: Bytes)
    | RemovedOld(index: nat)

  ghost predicate Step(l: Lane, ev: Event, l': Lane) {
    match ev
    case WroteNode(n, out) => WriteNodeStep(l, n, l', out)
    case WroteEdge(e, out) => WriteEdgeStep(l, e, l', out)
    case ReplayedNode(n, r) => ReplayNodeStep(l, n, l', r)
    case ReplayedEdge(e, r, out, inc) => ReplayEdgeStep(l, e, l', r, out, inc)
    case ReplayedDelete(key) => Ready(l) && l' == ReplayDelete(l, key)
    case RemovedOld(i) => Ready(l) && i + 1 < |l.nodes| && l' == RemoveOld(l, i)
  }

  /** `states[k]` is the lane after the first `k` events. */
  ghost predicate RunFrom(start: Lane, evs: seq<Event>, states: seq<Lane>) {
    && |states| == |evs| + 1 && states[0] == start
    && forall k :: 0 <= k < |evs| ==> Step(states[k], evs[k], states[k + 1])
  }

  lemma RunSnoc(start: Lane, evs: seq<Event>, states: seq<Lane>, ev: Event, l: Lane)
    requires RunFrom(start, evs, states) && Step(states[|evs|], ev, l)
    ensures RunFrom(start, evs + [ev], states + [l])
  {
    hide Step;
  }

  ghost predicate Run(maxSize: int, evs: seq<Event>, states: seq<Lane>) {
    RunFrom(NewLane(maxSize), evs, states)
  }

  // ---------- the abstract contents ----------

  /** The node an event makes the latest one for its ID. */
  function NodeSet(ev: Event): Option<Node> {
    match ev
    case WroteNode(n, out) => if out.NodeWritten? then Some(NormNode(n)) else None
    case ReplayedNode(n, r) => if r.Stored? then Some(NormNode(n)) else None
    case _ => None
  }

  function EdgeSet(ev: Event): Option<Edge> {
    match ev
    case WroteEdge(e, out) => if Kept(out) then Some(NormEdge(e)) else None
    case ReplayedEdge(e, r, _, _) => if r.Stored? then Some(NormEdge(e)) else None
    case _ => None
  }

  /** The last node set for each ID by the first `k` events. */
  function NodeModel(evs: seq<Event>, k: nat): map<Bytes, Node>
    requires k <= |evs|
  {
    if k == 0 then map[]
    else
      var m, n := NodeModel(evs, k - 1), NodeSet(evs[k - 1]);
      if n.Some? then m[n.value.id := n.value] else m
  }

  function EdgeModel(evs: seq<Event>, k: nat): map<Bytes, Edge>
    requires k <= |evs|
  {
    if k == 0 then map[]
    else
      var m, e := EdgeModel(evs, k - 1), EdgeSet(evs[k - 1]);
      if e.Some? then m[e.value.id := e.value] else m
  }

  function Get<V>(m: map<Bytes, V>, k: Bytes): Option<V> {
    if k in m then Some(m[k]) else None
  }

  predicate ListsOut(ev: Event, node: Bytes) {
    match ev
    case WroteEdge(e, out) => OutListed(out) && e.from == node
    case ReplayedEdge(e, r, out, _) => out && e.from == node
    case _ => false
  }

  predicate ListsIn(ev: Event, node: Bytes) {
    match ev
    case WroteEdge(e, out) => InListed(out) && e.to == node
    case ReplayedEdge(e, r, _, inc) => inc && e.to == node
    case _ => false
  }

  /** The IDs of the edges the first `k` events listed under source `node`, in order. */
  function OutIds(evs: seq<Event>, k: nat, node: Bytes): seq<Bytes>
    requires k <= |evs|
  {
    if k == 0 then []
    else OutIds(evs, k - 1, node) + if ListsOut(evs[k - 1], node) then [evs[k - 1].edge.id] else []
  }

  function InIds(evs: seq<Event>, k: nat, node: Bytes): seq<Bytes>
    requires k <= |evs|
  {
    if k == 0 then []
    else InIds(evs, k - 1, node) + if ListsIn(evs[k - 1], node) then [evs[k - 1].edge.id] else []
  }

  // ---------- models of a longer list of events ----------

  lemma {:induction false} ModelPrefix(evs: seq<Event>, more: seq<Event>, k: nat)
    requires k <= |evs|
    ensures NodeModel(evs + more, k) == NodeModel(evs, k) && EdgeModel(evs + more, k) == EdgeModel(evs, k)
  {
    if k > 0 {
      ModelPrefix(evs, more, k - 1);
    }
  }

  lemma ModelSnoc(evs: seq<Event>, ev: Event)
    ensures NodeModel(evs + [ev], |evs| + 1)
         == if NodeSet(ev).Some? then NodeModel(evs, |evs|)[NodeSet(ev).value.id := NodeSet(ev).value]
            else NodeModel(evs, |evs|)
    ensures EdgeModel(evs + [ev], |evs| + 1)
         == if EdgeSet(ev).Some? then EdgeModel(evs, |evs|)[EdgeSet(ev).value.id := EdgeSet(ev).value]
            else EdgeModel(evs, |evs|)
  {
    ModelPrefix(evs, [ev], |evs|);
  }

  lemma {:induction false} IdsPrefix(evs: seq<Event>, more: seq<Event>, k: nat, node: Bytes)
    requires k <= |evs|
    ensures OutIds(evs + more, k, node) == OutIds(evs, k, node) && InIds(evs + more, k, node) == InIds(evs, k, node)
  {
    if k > 0 {
      IdsPrefix(evs, more, k - 1, node);
    }
  }

  lemma IdsSnoc(evs: seq<Event>, ev: Event, node: Bytes)
    ensures OutIds(evs + [ev], |evs| + 1, node) == OutIds(evs, |evs|, node) + if ListsOut(ev, node) then [ev.edge.id]
                                                                              else []
    ensures InIds(evs + [ev], |evs| + 1, node) == InIds(evs, |evs|, node) + if ListsIn(ev, node) then [ev.edge.id]
                                                                            else []
  {
    IdsPrefix(evs, [ev], |evs|, node);
  }

  // ---------- conditions on a run ----------

  /** The node the event stored can be read back. */
  predicate NodeFits(ev: Event) {
    match ev
    case WroteNode(n, out) => out.NodeWritten? ==> FitsNode(n)
    case ReplayedNode(n, r) => r.Stored? ==> FitsNode(n)
    case _ => true
  }

  /** The edge the event stored can be read back. */
  predicate EdgeFits(ev: Event) {
    match ev
    case WroteEdge(e, out) => Kept(out) ==> FitsEdge(e)
    case ReplayedEdge(e, r, _, _) => r.Stored? ==> FitsEdge(e)
    case _ => true
  }

  predicate AllNodesFit(evs: seq<Event>) {
    forall i :: 0 <= i < |evs| ==> NodeFits(evs[i])
  }

  predicate AllEdgesFit(evs: seq<Event>) {
    forall i :: 0 <= i < |evs| ==> EdgeFits(evs[i])
  }

  /** A process that panicked is gone: a run goes on only after events that did not. */
  predicate Alive(ev: Event) {
    !(ev.WroteNode? && ev.nodeOut == NodeCrashed) && !(ev.ReplayedNode? && ev.put.Panicked?)
  }

  predicate AllAlive(evs: seq<Event>) {
    forall i :: 0 <= i < |evs| ==> Alive(evs[i])
  }

  predicate TouchesNodesOnly(ev: Event) {
    ev.ReplayedDelete? || ev.RemovedOld?
  }

  /** No deletion was replayed: the lane itself logs none. */
  predicate Undeleted(evs: seq<Event>) {
    forall i :: 0 <= i < |evs| ==> !evs[i].ReplayedDelete?
  }

  /** Neither was a flushed table removed, which reads of nodes can notice. */
  predicate Plain(evs: seq<Event>) {
    forall i :: 0 <= i < |evs| ==> !TouchesNodesOnly(evs[i])
  }

  // ---------- the invariants hold in every reachable state ----------

  lemma StepHealth(l: Lane, ev: Event, l': Lane)
    requires EdgesHealthy(l) && Step(l, ev, l')
    ensures EdgesHealthy(l') && l'.maxSize == l.maxSize
    ensures Healthy(l) && !ev.ReplayedDelete? ==> Healthy(l')
    ensures !(ev.WroteEdge? && ev.edgeOut == EdgeCrashed) && !(ev.ReplayedEdge? && ev.put.Panicked?)
    ensures Healthy(l) ==> !(ev.WroteNode? && ev.nodeOut == NodeCrashed) && !(ev.ReplayedNode? && ev.put.Panicked?)
    ensures l.maxSize <= U32 ==> EdgeFits(ev)
    ensures l.maxSize <= U32 && Healthy(l) ==> NodeFits(ev)
  {
    match ev
    case WroteNode(n, out) =>
      NodeStepKeepsEdges(l, n, l', out);
      if Healthy(l) { NodeStepOutcome(l, n, l', out); NodeNeverCrashes(l, n, l', out); }
    case WroteEdge(e, out) => EdgeStepOutcome(l, e, l', out);
    case ReplayedNode(n, r) => if Healthy(l) { ReplayNodeHealthy(l, n, l', r); }
    case ReplayedEdge(e, r, out, inc) => ReplayEdgeHealthy(l, e, l', r, out, inc);
    case ReplayedDelete(key) =>
    case RemovedOld(i) =>
  }

  lemma NodeNeverCrashes(l: Lane, n: Node, l': Lane, out: NodeOutcome)
    requires Healthy(l) && WriteNodeStep(l, n, l', out)
    ensures out != NodeCrashed
  {
    NodeStepOutcome(l, n, l', out);
  }

  lemma {:induction false} RunHealth(maxSize: int, evs: seq<Event>, states: seq<Lane>, k: nat)
    requires 0 <= maxSize && Run(maxSize, evs, states) && k <= |evs|
    ensures EdgesHealthy(states[k]) && states[k].maxSize == maxSize && (Undeleted(evs) ==> Healthy(states[k]))
  {
    hide Step;
    if k == 0 {
      NewLaneHealthy(maxSize);
    } else {
      RunHealth(maxSize, evs, states, k - 1);
      StepHealth(states[k - 1], evs[k - 1], states[k]);
    }
  }

  lemma StepKeepsRunning(l: Lane, ev: Event, l': Lane)
    requires EdgesHealthy(l) && Step(l, ev, l')
    ensures l'.stopped == l.stopped
  {
    hide EdgesHealthy, WriteNodeWith, WriteEdgeWith, EncodesNode, EncodesEdge, Put, AddToList;
    var k := Keys([], [], []);
    match ev
    case WroteNode(n, out) =>
      if !l.stopped && Supported(n.props) {
        var logged, stored, retried, now :|
          EncodesNode(logged, n) && EncodesNode(stored, n) && EncodesNode(retried, n)
          && (l', out) == WriteNodeWith(l, n, logged, stored, retried, now);
        NodeWriteLook(l, n, logged, stored, retried, now, k);
      }
    case WroteEdge(e, out) =>
      EdgeStepOutcome(l, e, l', out);
      if !l.stopped && Supported(e.props) {
        var logged, stored, retried, rewritten, now :|
          EncodesEdge(logged, e) && EncodesEdge(stored, e) && EncodesEdge(retried, e) && EncodesEdge(rewritten, e)
          && (l', out) == WriteEdgeWith(l, e, logged, stored, retried, rewritten, now);
        EdgeWriteLook(l, e, logged, stored, retried, rewritten, now, k);
      }
    case ReplayedNode(n, r) =>
    case ReplayedEdge(e, r, out, inc) =>
    case ReplayedDelete(key) =>
    case RemovedOld(i) =>
  }

  /** Nothing in a run stops the lane. */
  lemma {:induction false} RunKeepsRunning(maxSize: int, evs: seq<Event>, states: seq<Lane>, k: nat)
    requires 0 <= maxSize && Run(maxSize, evs, states) && k <= |evs|
    ensures !states[k].stopped
  {
    hide Step;
    if k > 0 {
      RunKeepsRunning(maxSize, evs, states, k - 1);
      RunHealth(maxSize, evs, states, k - 1);
      StepKeepsRunning(states[k - 1], evs[k - 1], states[k]);
    }
  }

  /** With tables of at most 4 GiB every edge of a run can be read back; when no deletion is replayed
      so can every node, and no event panics. */
  lemma SmallTablesFit(maxSize: int, evs: seq<Event>, states: seq<Lane>)
    requires 0 <= maxSize && Run(maxSize, evs, states)
    ensures maxSize <= U32 ==> AllEdgesFit(evs)
    ensures Undeleted(evs) ==> AllAlive(evs) && (maxSize <= U32 ==> AllNodesFit(evs))
  {
    hide Step;
    forall k | 0 <= k < |evs|
      ensures maxSize <= U32 ==> EdgeFits(evs[k])
      ensures Undeleted(evs) ==> Alive(evs[k]) && (maxSize <= U32 ==> NodeFits(evs[k]))
    {
      RunHealth(maxSize, evs, states, k);
      StepHealth(states[k], evs[k], states[k + 1]);
    }
  }

  // ---------- read-latest ----------

  lemma NodeStepModel(l: Lane, ev: Event, l': Lane, id: Bytes)
    requires Healthy(l) && Step(l, ev, l') && !TouchesNodesOnly(ev) && NodeFits(ev)
    ensures ReadNode(l', id) ==
            if NodeSet(ev).Some? && NodeSet(ev).value.id == id then NodeSet(ev) else ReadNode(l, id)
  {
    StepHealth(l, ev, l');
    match ev
    case WroteNode(n, out) => NodeStepReads(l, n, l', out, id, []);
    case WroteEdge(e, out) => EdgeStepElsewhere(l, e, l', out, id);
    case ReplayedNode(n, r) => ReplayNodeReads(l, n, l', r, id, []);
    case ReplayedEdge(e, r, out, inc) => ReplayEdgeElsewhere(l, e, l', r, out, inc, id);
  }

  lemma NewLaneEmpty(maxSize: int, id: Bytes, key: Bytes)
    ensures ReadNode(NewLane(maxSize), id) == None && ReadEdge(NewLane(maxSize), id) == None
    ensures ListBytes(NewLane(maxSize), key) == []
  {
    var ts := [Fresh(maxSize)];
    assert Stack(ts, 0, NodeKey(id)) == [] && Stack(ts, 0, EdgeKey(id)) == [] && ListTo(ts, 0, key) == [];
    assert Lookup(ts[0], NodeKey(id)) == None && Lookup(ts[0], EdgeKey(id)) == None;
    assert Stack(ts, 1, NodeKey(id)) == [] && Stack(ts, 1, EdgeKey(id)) == [] && ListTo(ts, 1, key) == [];
  }

  /** Main result: after any plain run, mixing successes, refused writes, rotations and replay,
      `ReadNode` returns the last node stored for an ID, or nothing if there was none. */
  lemma {:induction false} NodesReadLatest(maxSize: int, evs: seq<Event>, states: seq<Lane>, k: nat, id: Bytes)
    requires 0 <= maxSize && Run(maxSize, evs, states) && k <= |evs| && Plain(evs) && AllNodesFit(evs)
    ensures ReadNode(states[k], id) == Get(NodeModel(evs, k), id)
  {
    hide Step, ReadNode, ReadEdge, EdgesHealthy, Healthy, ListBytes;
    if k == 0 {
      NewLaneEmpty(maxSize, id, []);
    } else {
      RunHealth(maxSize, evs, states, k - 1);
      NodesReadLatest(maxSize, evs, states, k - 1, id);
      NodeStepModel(states[k - 1], evs[k - 1], states[k], id);
    }
  }

  lemma EdgeStepModel(l: Lane, ev: Event, l': Lane, id: Bytes, key: Bytes)
    requires EdgesHealthy(l) && Step(l, ev, l') && EdgeFits(ev)
    requires ev.WroteNode? ==> ev.nodeOut != NodeCrashed
    requires ev.ReplayedNode? ==> !ev.put.Panicked?
    ensures ReadEdge(l', id) ==
            if EdgeSet(ev).Some? && EdgeSet(ev).value.id == id then EdgeSet(ev) else ReadEdge(l, id)
    ensures ListBytes(l', key) == ListBytes(l, key) +
            match ev
            case WroteEdge(e, out) => NewItems(e, OutListed(out), InListed(out), key)
            case ReplayedEdge(e, _, out, inc) => NewItems(e, out, inc, key)
            case _ => []
  {
    StepHealth(l, ev, l');
    NothingAdded(ListBytes(l, key));
    match ev
    case WroteNode(n, out) => NodeStepElsewhere(l, n, l', out, id, key);
    case WroteEdge(e, out) => EdgeStepReads(l, e, l', out, id, key);
    case ReplayedNode(n, r) => ReplayNodeElsewhere(l, n, l', r, id, key);
    case ReplayedEdge(e, r, out, inc) => ReplayEdgeReads(l, e, l', r, out, inc, id, key);
    case ReplayedDelete(_) => NodeTablesOnly(l, l', id, key);
    case RemovedOld(_) => NodeTablesOnly(l, l', id, key);
  }

  /** Main result: in every reachable state, also after failed writes, replayed deletions and
      removed tables, `ReadEdge` returns the last edge that was kept for an ID. */
  lemma {:induction false} EdgesReadLatest(maxSize: int, evs: seq<Event>, states: seq<Lane>, k: nat, id: Bytes)
    requires 0 <= maxSize && Run(maxSize, evs, states) && k <= |evs| && AllAlive(evs) && AllEdgesFit(evs)
    ensures ReadEdge(states[k], id) == Get(EdgeModel(evs, k), id)
  {
    hide Step, ReadNode, ReadEdge, EdgesHealthy, Healthy, ListBytes, EdgeFits, NodeModel;
    if k == 0 {
      NewLaneEmpty(maxSize, id, []);
    } else {
      RunHealth(maxSize, evs, states, k - 1);
      assert Alive(evs[k - 1]);
      EdgesReadLatest(maxSize, evs, states, k - 1, id);
      EdgeStepModel(states[k - 1], evs[k - 1], states[k], id, []);
    }
  }

  // ---------- the adjacency index ----------

  lemma JoinedSnoc(ids: seq<Bytes>, id: Bytes)
    ensures Joined(ids + [id]) == Joined(ids) + Item(id)
  {
    assert (ids + [id])[..|ids|] == ids;
  }

  /** The list values under a node's two keys are exactly the IDs listed for it, in order. */
  lemma {:induction false} ListsExact(maxSize: int, evs: seq<Event>, states: seq<Lane>, k: nat, node: Bytes)
    requires 0 <= maxSize && Run(maxSize, evs, states) && k <= |evs| && AllAlive(evs) && AllEdgesFit(evs)
    ensures ListBytes(states[k], OutKey(node)) == Joined(OutIds(evs, k, node))
    ensures ListBytes(states[k], InKey(node)) == Joined(InIds(evs, k, node))
  {
    hide Step, ReadNode, ReadEdge, EdgesHealthy, Healthy, ListBytes;
    if k == 0 {
      NewLaneEmpty(maxSize, [], OutKey(node));
      NewLaneEmpty(maxSize, [], InKey(node));
    } else {
      RunHealth(maxSize, evs, states, k - 1);
      ListsExact(maxSize, evs, states, k - 1, node);
      ListsStep(states[k - 1], evs[k - 1], states[k], node, OutIds(evs, k - 1, node), InIds(evs, k - 1, node));
    }
  }

  lemma ListsStep(mid: Lane, last: Event, l: Lane, node: Bytes, outs: seq<Bytes>, ins: seq<Bytes>)
    requires EdgesHealthy(mid) && Step(mid, last, l) && Alive(last) && EdgeFits(last)
    requires ListBytes(mid, OutKey(node)) == Joined(outs) && ListBytes(mid, InKey(node)) == Joined(ins)
    ensures ListBytes(l, OutKey(node)) == Joined(outs + if ListsOut(last, node) then [last.edge.id] else [])
    ensures ListBytes(l, InKey(node)) == Joined(ins + if ListsIn(last, node) then [last.edge.id] else [])
  {
    EdgeStepModel(mid, last, l, [], OutKey(node));
    EdgeStepModel(mid, last, l, [], InKey(node));
    NothingAdded(outs);
    NothingAdded(ins);
    NothingAdded(Joined(outs));
    NothingAdded(Joined(ins));
    if last.WroteEdge? || last.ReplayedEdge? {
      var e := last.edge;
      NodeKeysDiffer(node, e.from);
      NodeKeysDiffer(node, e.to);
      OutIsNotIn(node, e.to);
      OutIsNotIn(e.from, node);
      JoinedSnoc(outs, e.id);
      JoinedSnoc(ins, e.id);
    }
  }
}
