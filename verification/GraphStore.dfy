/** What the engine stores, and what its operations answer, as a state machine over two maps and the
    adjacency index. Module EngineRuns proves that the engine behaves like it. */
module GraphStore {
  import opened Bytes
  import opened Graph
  import opened EdgeList
  import opened Serialization
  import opened Lru
  import Lane
  import opened LaneSteps
  import opened LaneHealth
  import opened LaneRuns
  import opened Sharding
  import opened EngineReads
  import opened Engine
  import Recovery

  datatype Op =
    | CreateNodeOp(node: Node, now: i64)
    | UpdateNodeOp(id: Bytes, props: Properties, updates: seq<(Bytes, Value)>, clock: seq<Time>, now: i64)
    | CreateEdgeOp(edge: Edge, now: i64)
    | GetNodeOp(id: Bytes)
    | GetEdgeOp(id: Bytes)
    | GetNeighborsOp(id: Bytes, direction: Direction)

  /** Ranging over the updates lists each of them once, and reads the clock for each. */
  ghost predicate Proper(op: Op) {
    op.UpdateNodeOp? ==> Enumerates(op.updates, op.props) && |op.clock| == |op.updates|
  }

  datatype Answer =
    | CreatedNode(node: Option<Lane.NodeOutcome>)   // None when the engine is not running
    | UpdatedNode(update: UpdateOutcome)
    | CreatedEdge(edge: CreateOutcome)
    | FoundNode(found: Option<Node>)
    | FoundEdge(foundEdge: Option<Edge>)
    | FoundNeighbors(nodes: seq<Node>)

  function StoppedAnswer(op: Op): Answer {
    match op
    case CreateNodeOp(_, _) => CreatedNode(None)
    case UpdateNodeOp(_, _, _, _, _) => UpdatedNode(UpdateStopped)
    case CreateEdgeOp(_, _) => CreatedEdge(EngineStopped)
    case GetNodeOp(_) => FoundNode(None)
    case GetEdgeOp(_) => FoundEdge(None)
    case GetNeighborsOp(_, _) => FoundNeighbors([])
  }

  // ---------- the machine ----------

  /** The last versions of nodes and edges, and the index at the sources: pairs of a node and an edge ID
      that its list gives. */
  datatype Store = Store(nodes: map<Bytes, Node>, edges: map<Bytes, Edge>, sources: set<(Bytes, Bytes)>)

  const EMPTY := Store(map[], map[], {})

  /** The node that an update leads to: the new properties laid over the old ones, one version for each, and
      the time of the last. */
  function Overlaid(n: Node, op: Op): Node
    requires op.UpdateNodeOp?
  {
    Revision(n, op.props, op.clock)
  }

  /** What listing the edge at the node adds: an ID with commas is read back as several. */
  function Listing(node: Bytes, id: Bytes): set<(Bytes, Bytes)> {
    set t | t in Tokens(id) :: (node, t)
  }

  ghost predicate Accepts(g: Store, e: Edge, maxSize: int) {
    e.from in g.nodes && e.to in g.nodes && EdgeAccepted(e, maxSize)
  }

  /** One operation: it depends on nothing but its arguments, the store and the size of a memtable. */
  ghost function After(g: Store, op: Op, maxSize: int): Store {
    match op
    case CreateNodeOp(n, _) =>
      if NodeResult(n, maxSize).NodeWritten? then g.(nodes := g.nodes[n.id := NormNode(n)]) else g
    case UpdateNodeOp(id, _, _, _, _) =>
      if id in g.nodes && NodeResult(Overlaid(g.nodes[id], op), maxSize).NodeWritten?
      then g.(nodes := g.nodes[id := NormNode(Overlaid(g.nodes[id], op))])
      else g
    case CreateEdgeOp(e, _) =>
      if Accepts(g, e, maxSize)
      then g.(edges := g.edges[e.id := NormEdge(e)],
              sources := if EdgeListed(e, maxSize) then g.sources + Listing(e.from, e.id) else g.sources)
      else g
    case _ => g
  }

  /** The index at the targets, which depends on the room that was left there. */
  function TargetsWith(targets: set<(Bytes, Bytes)>, op: Op, a: Answer): set<(Bytes, Bytes)> {
    if op.CreateEdgeOp? && a == CreatedEdge(Created(Lane.EdgeWritten)) then targets + Listing(op.edge.to, op.edge.id)
    else targets
  }

  /** The other end of an edge that is stored under an ID listed at `node`. */
  ghost predicate Adjacent(g: Store, targets: set<(Bytes, Bytes)>, node: Bytes, direction: Direction, id: Bytes) {
    || (Outward(direction) && exists t :: (node, t) in g.sources && t in g.edges && g.edges[t].to == id)
    || (Inward(direction) && exists t :: (node, t) in targets && t in g.edges && g.edges[t].from == id)
  }

  /** `nodes` are the stored ones there, each once and in its last version. */
  ghost predicate NeighborsIn(g: Store, targets: set<(Bytes, Bytes)>, node: Bytes, direction: Direction,
                              nodes: seq<Node>)
  {
    && (forall i, j :: 0 <= i < j < |nodes| ==> nodes[i].id != nodes[j].id)
    && (forall i :: 0 <= i < |nodes| ==> Get(g.nodes, nodes[i].id) == Some(nodes[i]))
    && (forall id :: Includes(nodes, id) <==> id in g.nodes && Adjacent(g, targets, node, direction, id))
  }

  /** The right answer of a running engine; only the room at an edge's target is left open. */
  ghost predicate Answers(g: Store, targets: set<(Bytes, Bytes)>, op: Op, maxSize: int, a: Answer) {
    match op
    case CreateNodeOp(n, _) => a == CreatedNode(Some(NodeResult(n, maxSize)))
    case UpdateNodeOp(id, _, _, _, _) =>
      a == UpdatedNode(if id in g.nodes then Updated(NodeResult(Overlaid(g.nodes[id], op), maxSize)) else NoSuchNode)
    case CreateEdgeOp(e, _) =>
      if e.from !in g.nodes then a == CreatedEdge(NoSource)
      else if e.to !in g.nodes then a == CreatedEdge(NoTarget)
      else a.CreatedEdge? && a.edge.Created? && EdgeResult(e, maxSize, a.edge.out)
    case GetNodeOp(id) => a == FoundNode(Get(g.nodes, id))
    case GetEdgeOp(id) => a == FoundEdge(Get(g.edges, id))
    case GetNeighborsOp(id, direction) => a.FoundNeighbors? && NeighborsIn(g, targets, id, direction, a.nodes)
  }

  /** An edge that is written again under other ends is still found from its first source, but leads from
      there where it leads now. */
  lemma WrittenAgain(g: Store, targets: set<(Bytes, Bytes)>, e: Edge, f: Edge, now: i64, maxSize: int)
    requires e.id == f.id && WellFormedId(e.id) && EdgeListed(e, maxSize)
    requires Accepts(g, e, maxSize) && Accepts(g, f, maxSize)
    ensures var g' := After(After(g, CreateEdgeOp(e, now), maxSize), CreateEdgeOp(f, now), maxSize);
            && Get(g'.edges, e.id) == Some(NormEdge(f)) && Adjacent(g', targets, e.from, Out, f.to)
  {
    hide EdgeListed, EdgeAccepted, Tokens, WellFormedId;
    TokensOfId(e.id);
    var g' := After(After(g, CreateEdgeOp(e, now), maxSize), CreateEdgeOp(f, now), maxSize);
    assert e.id in Tokens(e.id);
    assert (e.from, e.id) in g'.sources;
  }

  // ---------- runs of the machine ----------

  /** The store after the first `k` operations. */
  ghost function StoreAfter(g: Store, ops: seq<Op>, k: nat, maxSize: int): Store
    requires k <= |ops|
  {
    if k == 0 then g else After(StoreAfter(g, ops, k - 1, maxSize), ops[k - 1], maxSize)
  }

  function TargetsAfter(targets: set<(Bytes, Bytes)>, ops: seq<Op>, answers: seq<Answer>, k: nat): set<(Bytes, Bytes)>
    requires k <= |ops| && k <= |answers|
  {
    if k == 0 then targets else TargetsWith(TargetsAfter(targets, ops, answers, k - 1), ops[k - 1], answers[k - 1])
  }

  lemma {:induction false} TargetsPrefix(targets: set<(Bytes, Bytes)>, ops: seq<Op>, answers: seq<Answer>,
                                         more: seq<Answer>,
                                         k: nat)
    requires k <= |ops| && k <= |answers|
    ensures TargetsAfter(targets, ops, answers + more, k) == TargetsAfter(targets, ops, answers, k)
  {
    if k > 0 {
      TargetsPrefix(targets, ops, answers, more, k - 1);
    }
  }

  // ---------- writing what is not cached ----------

  /** IDs that may be in the two caches. */
  datatype Cached = Cached(nodes: set<Bytes>, edges: set<Bytes>)

  const NOTHING := Cached({}, {})

  predicate Within(a: Cached, b: Cached) {
    a.nodes <= b.nodes && a.edges <= b.edges
  }

  function Ends(edges: map<Bytes, Edge>): set<Bytes> {
    (set x | x in edges :: edges[x].from) + (set x | x in edges :: edges[x].to)
  }

  /** An operation caches what it reads; an update drops its ID from both caches. */
  function CachedWith(k: Cached, g: Store, op: Op): Cached {
    match op
    case UpdateNodeOp(id, _, _, _, _) => if id in g.nodes then Cached(k.nodes - {id}, k.edges - {id}) else k
    case CreateEdgeOp(e, _) => k.(nodes := k.nodes + {e.from, e.to} * g.nodes.Keys)
    case GetNodeOp(id) => k.(nodes := k.nodes + {id} * g.nodes.Keys)
    case GetEdgeOp(id) => k.(edges := k.edges + {id} * g.edges.Keys)
    case GetNeighborsOp(_, _) => Cached(k.nodes + Ends(g.edges) * g.nodes.Keys, k.edges + g.edges.Keys)
    case _ => k
  }

  ghost function CachedAfter(cached: Cached, g: Store, ops: seq<Op>, k: nat, maxSize: int): Cached
    requires k <= |ops|
  {
    if k == 0 then cached
    else CachedWith(CachedAfter(cached, g, ops, k - 1, maxSize), StoreAfter(g, ops, k - 1, maxSize), ops[k - 1])
  }

  /** Nothing is written under an ID that may be cached: the caches are not told of writes. */
  ghost predicate WritesUncached(op: Op, g: Store, cached: Cached, maxSize: int) {
    && (op.CreateNodeOp? && NodeResult(op.node, maxSize).NodeWritten? ==> op.node.id !in cached.nodes)
    && (op.CreateEdgeOp? && Accepts(g, op.edge, maxSize) ==> op.edge.id !in cached.edges)
  }

  ghost predicate AllWriteUncached(ops: seq<Op>, g: Store, cached: Cached, maxSize: int) {
    forall k :: 0 <= k < |ops| ==>
      WritesUncached(ops[k], StoreAfter(g, ops, k, maxSize), CachedAfter(cached, g, ops, k, maxSize), maxSize)
  }

  lemma FewerCached(op: Op, g: Store, cached: Cached, all: Cached, maxSize: int)
    requires WritesUncached(op, g, all, maxSize) && Within(cached, all)
    ensures WritesUncached(op, g, cached, maxSize) && Within(CachedWith(cached, g, op), CachedWith(all, g, op))
  {
    hide Accepts, NodeResult, Ends;
  }

  // ---------- edges under IDs of their own ----------

  /** No edge is kept under an ID that is taken or ill-formed. */
  ghost predicate NamesNewEdge(op: Op, g: Store, maxSize: int) {
    op.CreateEdgeOp? && Accepts(g, op.edge, maxSize) ==> op.edge.id !in g.edges && WellFormedId(op.edge.id)
  }

  ghost predicate AllNameNewEdges(ops: seq<Op>, g: Store, maxSize: int) {
    forall k :: 0 <= k < |ops| ==> NamesNewEdge(ops[k], StoreAfter(g, ops, k, maxSize), maxSize)
  }

  // ---------- encodings that fit the log ----------

  /** What the write put in the log has a 32-bit length; only a write that was refused can be longer. */
  ghost predicate Storable(ev: Event) {
    && (ev.WroteNode? && Recovery.Attempted(ev) ==> NodeSize(ev.node) < U32)
    && (ev.WroteEdge? && Recovery.Attempted(ev) ==> EdgeSize(ev.edge) < U32)
  }

  ghost predicate AllStorable(evs: seq<Event>) {
    forall k :: 0 <= k < |evs| ==> Storable(evs[k])
  }

  lemma StorableMore(evs: seq<Event>, ev: Event)
    requires AllStorable(evs) && Storable(ev)
    ensures AllStorable(evs + [ev])
  {
    hide Storable;
  }

  /** The operation writes nothing that encodes to 4 GiB or more. */
  ghost predicate IsShort(op: Op, g: Store) {
    && (op.CreateNodeOp? ==> NodeSize(op.node) < U32)
    && (op.CreateEdgeOp? ==> EdgeSize(op.edge) < U32)
    && (op.UpdateNodeOp? && op.id in g.nodes ==> NodeSize(Overlaid(g.nodes[op.id], op)) < U32)
  }

  ghost predicate AllShort(ops: seq<Op>, g: Store, maxSize: int) {
    forall k :: 0 <= k < |ops| ==> IsShort(ops[k], StoreAfter(g, ops, k, maxSize))
  }

  // ---------- the store that a log amounts to ----------

  predicate AtSource(ev: Event) {
    (ev.WroteEdge? && OutListed(ev.edgeOut)) || (ev.ReplayedEdge? && ev.outListed)
  }

  predicate AtTarget(ev: Event) {
    (ev.WroteEdge? && InListed(ev.edgeOut)) || (ev.ReplayedEdge? && ev.inListed)
  }

  /** The pairs that the first `k` events listed at sources, and at targets. */
  function Sources(log: Writes, k: nat): set<(Bytes, Bytes)>
    requires k <= |log|
  {
    if k == 0 then {}
    else Sources(log, k - 1) + if AtSource(log[k - 1]) then Listing(log[k - 1].edge.from, log[k - 1].edge.id) else {}
  }

  function Targets(log: Writes, k: nat): set<(Bytes, Bytes)>
    requires k <= |log|
  {
    if k == 0 then {}
    else Targets(log, k - 1) + if AtTarget(log[k - 1]) then Listing(log[k - 1].edge.to, log[k - 1].edge.id) else {}
  }

  function StoreOf(log: Writes): Store {
    Store(NodeModel(log, |log|), EdgeModel(log, |log|), Sources(log, |log|))
  }

  function TargetsOf(log: Writes): set<(Bytes, Bytes)> {
    Targets(log, |log|)
  }

  lemma NothingStored()
    ensures StoreOf([]) == EMPTY && TargetsOf([]) == {}
  {
  }

  lemma {:induction false} ListingsPrefix(log: Writes, ev: Event, k: nat)
    requires IsWrite(ev) && k <= |log|
    ensures Sources(log + [ev], k) == Sources(log, k) && Targets(log + [ev], k) == Targets(log, k)
  {
    hide AtSource, AtTarget, IsWrite, Listing;
    if k > 0 {
      ListingsPrefix(log, ev, k - 1);
    }
  }

  lemma ListingsSnoc(log: Writes, ev: Event)
    requires IsWrite(ev)
    ensures Sources(log + [ev], |log| + 1)
         == Sources(log, |log|) + if AtSource(ev) then Listing(ev.edge.from, ev.edge.id) else {}
    ensures Targets(log + [ev], |log| + 1)
         == Targets(log, |log|) + if AtTarget(ev) then Listing(ev.edge.to, ev.edge.id) else {}
  {
    hide AtSource, AtTarget, IsWrite, Listing;
    ListingsPrefix(log, ev, |log|);
  }

  /** The pairs are what the lists give. */
  lemma {:induction false} ListingsAre(log: Writes, k: nat, node: Bytes, t: Bytes)
    requires k <= |log|
    ensures (node, t) in Sources(log, k) <==> t in AllTokens(OutIds(log, k, node))
    ensures (node, t) in Targets(log, k) <==> t in AllTokens(InIds(log, k, node))
  {
    hide Tokens, IsWrite, AllTokens, Listing, AtSource, AtTarget, ListsOut, ListsIn;
    if k == 0 {
      NoTokens();
    } else {
      ListingsAre(log, k - 1, node, t);
      var ev := log[k - 1];
      ListsWhere(ev, node);
      if ev.WroteEdge? || ev.ReplayedEdge? {
        OneListing(OutIds(log, k - 1, node), AtSource(ev), ev.edge.from, node, ev.edge.id, t);
        OneListing(InIds(log, k - 1, node), AtTarget(ev), ev.edge.to, node, ev.edge.id, t);
      } else {
        NothingAdded(OutIds(log, k - 1, node));
        NothingAdded(InIds(log, k - 1, node));
      }
    }
  }

  lemma NoTokens()
    ensures AllTokens([]) == []
  {
  }

  lemma ListsWhere(ev: Event, node: Bytes)
    ensures ListsOut(ev, node) <==> AtSource(ev) && ev.edge.from == node
    ensures ListsIn(ev, node) <==> AtTarget(ev) && ev.edge.to == node
    ensures AtSource(ev) || AtTarget(ev) ==> ev.WroteEdge? || ev.ReplayedEdge?
  {
  }

  lemma OneListing(ids: seq<Bytes>, listed: bool, at: Bytes, node: Bytes, id: Bytes, t: Bytes)
    ensures t in AllTokens(ids + if listed && at == node then [id] else []) <==>
              t in AllTokens(ids) || (node, t) in if listed then Listing(at, id) else {}
  {
    hide Tokens, AllTokens;
    NothingAdded(ids);
    TokensSnoc(ids, id);
  }

  lemma TokensSnoc(ids: seq<Bytes>, id: Bytes)
    ensures AllTokens(ids + [id]) == AllTokens(ids) + Tokens(id)
  {
    hide Tokens;
    SnocParts(ids, id);
  }

  lemma NodeStored(log: Writes, n: Node, out: Lane.NodeOutcome)
    ensures StoreOf(log + [WroteNode(n, out)])
         == if out.NodeWritten? then StoreOf(log).(nodes := StoreOf(log).nodes[n.id := NormNode(n)]) else StoreOf(log)
    ensures TargetsOf(log + [WroteNode(n, out)]) == TargetsOf(log)
  {
    hide NodeModel, EdgeModel, Sources, Targets;
    ModelSnoc(log, WroteNode(n, out));
    ListingsSnoc(log, WroteNode(n, out));
  }

  lemma EdgeStored(log: Writes, e: Edge, maxSize: int, out: Lane.EdgeOutcome)
    requires EdgeResult(e, maxSize, out)
    ensures var g := StoreOf(log);
            StoreOf(log + [WroteEdge(e, out)])
            == if EdgeAccepted(e, maxSize)
               then g.(edges := g.edges[e.id := NormEdge(e)],
                       sources := if EdgeListed(e, maxSize) then g.sources + Listing(e.from, e.id) else g.sources)
               else g
    ensures TargetsOf(log + [WroteEdge(e, out)])
         == TargetsOf(log) + if out.EdgeWritten? then Listing(e.to, e.id) else {}
  {
    hide NodeModel, EdgeModel, Sources, Targets, EdgeResult, EdgeAccepted, EdgeListed, Listing;
    ResultSays(e, maxSize, out);
    AcceptedWhenListed(e, maxSize);
    ModelSnoc(log, WroteEdge(e, out));
    ListingsSnoc(log, WroteEdge(e, out));
  }

  lemma AcceptedWhenListed(e: Edge, maxSize: int)
    ensures EdgeListed(e, maxSize) ==> EdgeAccepted(e, maxSize)
  {
  }

  lemma ReachedFrom(log: Writes, node: Bytes, id: Bytes)
    ensures (exists x :: ListedEdge(log, node, true, x) && x.to == id) <==>
            exists t :: (node, t) in StoreOf(log).sources && t in StoreOf(log).edges && StoreOf(log).edges[t].to == id
  {
    hide NodeModel, EdgeModel, Sources, Targets, IsWrite, OutIds, InIds, AllTokens;
    forall t
      ensures (node, t) in Sources(log, |log|) <==> t in IdsAt(log, node, true)
    {
      ListingsAre(log, |log|, node, t);
    }
    if x :| ListedEdge(log, node, true, x) && x.to == id {
      var t :| t in IdsAt(log, node, true) && Get(EdgeModel(log, |log|), t) == Some(x);
      assert (node, t) in StoreOf(log).sources;
    }
    if t :| (node, t) in StoreOf(log).sources && t in StoreOf(log).edges && StoreOf(log).edges[t].to == id {
      assert ListedEdge(log, node, true, StoreOf(log).edges[t]);
    }
  }

  lemma ReachedTo(log: Writes, node: Bytes, id: Bytes)
    ensures (exists x :: ListedEdge(log, node, false, x) && x.from == id) <==>
            exists t :: (node, t) in TargetsOf(log) && t in StoreOf(log).edges && StoreOf(log).edges[t].from == id
  {
    hide NodeModel, EdgeModel, Sources, Targets, IsWrite, OutIds, InIds, AllTokens;
    forall t
      ensures (node, t) in Targets(log, |log|) <==> t in IdsAt(log, node, false)
    {
      ListingsAre(log, |log|, node, t);
    }
    if x :| ListedEdge(log, node, false, x) && x.from == id {
      var t :| t in IdsAt(log, node, false) && Get(EdgeModel(log, |log|), t) == Some(x);
      assert (node, t) in TargetsOf(log);
    }
    if t :| (node, t) in TargetsOf(log) && t in StoreOf(log).edges && StoreOf(log).edges[t].from == id {
      assert ListedEdge(log, node, false, StoreOf(log).edges[t]);
    }
  }

  /** So what the lists lead to in the log is what is adjacent in the store. */
  lemma ReachedIsAdjacent(log: Writes, node: Bytes, direction: Direction, id: Bytes)
    ensures ReachesEnd(log, node, direction, id) <==> Adjacent(StoreOf(log), TargetsOf(log), node, direction, id)
  {
    hide ListedEdge, StoreOf, TargetsOf;
    ReachedFrom(log, node, id);
    ReachedTo(log, node, id);
  }
}
