/** Whole runs of engine operations, in any order and with any outcome: a running engine answers like
    the state machine of module GraphStore, as long as nothing is written under an ID that may be cached. */
module EngineRuns {
  import opened Bytes
  import opened Graph
  import opened EdgeList
  import opened Serialization
  import opened Lru
  import Lane
  import opened LaneSteps
  import opened LaneHealth
  import opened LaneRuns
  import opened Sharding
  import opened EngineReads
  import opened Engine
  import opened GraphStore
  import Wal

  /** Edges have IDs of their own and run between existing nodes. */
  ghost predicate InOrder(log: Writes) {
    Tidy(log) && Anchored(log)
  }

  function CachedIds<V>(list: seq<Entry<V>>): set<Bytes> {
    set i | 0 <= i < |list| :: list[i].key
  }

  lemma CachedIff<V>(list: seq<Entry<V>>, id: Bytes)
    ensures id in CachedIds(list) <==> Lookup(list, id).Some?
  {
    hide Position;
    if id in CachedIds(list) {
      var i :| 0 <= i < |list| && list[i].key == id;
      assert Position(list, id) <= i;
    }
  }

  /** Into a coherent cache comes nothing but what is stored. */
  lemma CachedGrows<V>(before: seq<Entry<V>>, after: seq<Entry<V>>, ids: set<Bytes>, model: map<Bytes, V>)
    requires CachesOnly(before, after, ids) && Agrees(model, after)
    ensures CachedIds(after) <= CachedIds(before) + ids * model.Keys
  {
    hide CachedIds, Lookup, Distinct;
    forall id | id in CachedIds(after)
      ensures id in CachedIds(before) + ids * model.Keys
    {
      CachedIff(after, id);
      CachedIff(before, id);
      assert Lookup(after, id) == Get(model, id);
    }
  }

  ghost function InCache(e: Engine): Cached
    reads e.hot, e.data
  {
    Cached(CachedIds(e.hot.evictList), CachedIds(e.data.evictList))
  }

  /** What a run goes by: the log of all writes, the IDs in the caches, and whether nothing stale is there. */
  datatype Seen = Seen(log: Writes, cached: Cached, coherent: bool)

  ghost function View(e: Engine): Seen
    reads e, e.hot, e.data
  {
    Seen(e.log, InCache(e), e.Coherent())
  }

  /** The event that is logged for an operation with that answer. */
  ghost predicate LoggedAs(op: Op, a: Answer, out: Option<Event>) {
    match op
    case CreateNodeOp(n, _) =>
      a.CreatedNode? && out == if a.node.Some? then Some(WroteNode(n, a.node.value)) else None
    case UpdateNodeOp(_, _, _, _, _) =>
      a.UpdatedNode? && if a.update.Updated? then out.Some? && out.value.WroteNode? && out.value.nodeOut == a.update.out
                        else out == None
    case CreateEdgeOp(e, _) =>
      a.CreatedEdge? && out == if a.edge.Created? then Some(WroteEdge(e, a.edge.out)) else None
    case GetNodeOp(_) => a.FoundNode? && out == None
    case GetEdgeOp(_) => a.FoundEdge? && out == None
    case GetNeighborsOp(_, _) => a.FoundNeighbors? && out == None
  }

  function EventOf(out: Option<Event>): seq<Event> {
    if out.Some? then [out.value] else []
  }

  /** One operation on an engine, from what was seen before to what is seen after. */
  ghost predicate Performs(maxSize: int, running: bool, op: Op, a: Answer, s: Seen, s': Seen) {
    && (exists out :: LoggedAs(op, a, out) && s'.log == s.log + EventOf(out))
    && (!running ==> a == StoppedAnswer(op) && s' == s)
    && (running && op.CreateNodeOp? ==> a == CreatedNode(Some(NodeResult(op.node, maxSize))))
    && (running && s.coherent ==>
          && Answers(StoreOf(s.log), TargetsOf(s.log), op, maxSize, a)
          && StoreOf(s'.log) == After(StoreOf(s.log), op, maxSize)
          && TargetsOf(s'.log) == TargetsWith(TargetsOf(s.log), op, a)
          && Within(s'.cached, CachedWith(s.cached, StoreOf(s.log), op)))
    && (running && s.coherent && WritesUncached(op, StoreOf(s.log), s.cached, maxSize) ==> s'.coherent)
    && (running && s.coherent && InOrder(s.log) && NamesNewEdge(op, StoreOf(s.log), maxSize) ==> InOrder(s'.log))
    && (running && s.coherent && IsShort(op, StoreOf(s.log)) && AllStorable(s.log) ==> AllStorable(s'.log))
  }

  // ---------- one operation ----------

  lemma CreateNodePerforms(maxSize: int, running: bool, n: Node, now: i64, r: Option<Lane.NodeOutcome>, s: Seen,
                           s': Seen)
    requires r == if running then Some(NodeResult(n, maxSize)) else None
    requires s'.log == (if running then s.log + [WroteNode(n, r.value)] else s.log) && s'.cached == s.cached
    requires !running ==> s'.coherent == s.coherent
    requires running && s.coherent && (r == Some(Lane.NodeWritten) ==> n.id !in s.cached.nodes) ==> s'.coherent
    requires InOrder(s.log) ==> InOrder(s'.log)
    ensures Performs(maxSize, running, CreateNodeOp(n, now), CreatedNode(r), s, s')
  {
    hide StoreOf, TargetsOf, NodeResult, NodeSize, EdgeSize, AllStorable, InOrder;
    NothingAdded(s.log);
    if running {
      NodeStored(s.log, n, r.value);
      if AllStorable(s.log) && IsShort(CreateNodeOp(n, now), StoreOf(s.log)) {
        StorableMore(s.log, WroteNode(n, r.value));
      }
      assert LoggedAs(CreateNodeOp(n, now), CreatedNode(r), Some(WroteNode(n, r.value)));
    } else {
      assert LoggedAs(CreateNodeOp(n, now), CreatedNode(r), None);
    }
  }

  method RunCreateNode(e: Engine, n: Node, now: i64) returns (a: Answer)
    requires e.Valid()
    modifies e`log, e.writeLanes, e.writeLanes.Repr
    ensures e.writeLanes.founds == old(e.writeLanes.founds)
    ensures e.Valid() && fresh(e.writeLanes.Repr - old(e.writeLanes.Repr))
    ensures Performs(e.c.memtableSize, e.running, CreateNodeOp(n, now), a, old(View(e)), View(e))
  {
    hide Sharded, WriteLanes.Valid, LRUCache.Valid, Agrees, Tidy, Anchored, NodeModel, EdgeModel, Lookup, CachedIds,
      Performs, NodeResult;
    ghost var before := View(e);
    CachedIff(e.hot.evictList, n.id);
    var r := e.CreateNode(n, now);
    a := CreatedNode(r);
    CreateNodePerforms(e.c.memtableSize, e.running, n, now, r, before, View(e));
  }

  lemma UpdateNodePerforms(maxSize: int, running: bool, op: Op, r: UpdateOutcome, s: Seen, s': Seen,
                           out: Option<Event>)
    requires op.UpdateNodeOp? && s'.log == s.log + EventOf(out) && LoggedAs(op, UpdatedNode(r), out)
    requires !running ==> r == UpdateStopped && s' == s
    requires running && s.coherent ==>
               if op.id !in StoreOf(s.log).nodes then r == NoSuchNode && out == None
               else
                 var n := Overlaid(StoreOf(s.log).nodes[op.id], op);
                 r == Updated(NodeResult(n, maxSize)) && out == Some(WroteNode(n, r.out))
    requires running && s.coherent ==> s'.coherent && Within(s'.cached, CachedWith(s.cached, StoreOf(s.log), op))
    requires InOrder(s.log) ==> InOrder(s'.log)
    ensures Performs(maxSize, running, op, UpdatedNode(r), s, s')
  {
    hide TargetsOf, NodeResult, NodeModel, EdgeModel, Sources, WritesUncached, NodeSize, EdgeSize, AllStorable, InOrder,
      Revision;
    NothingAdded(s.log);
    if running && s.coherent && op.id in StoreOf(s.log).nodes {
      var n := Overlaid(StoreOf(s.log).nodes[op.id], op);
      ModelIds(s.log, |s.log|, op.id);
      RevisionKeepsId(StoreOf(s.log).nodes[op.id], op);
      NodeStored(s.log, n, r.out);
      if AllStorable(s.log) && IsShort(op, StoreOf(s.log)) {
        StorableMore(s.log, WroteNode(n, r.out));
      }
    }
  }

  lemma RevisionKeepsId(n: Node, op: Op)
    requires op.UpdateNodeOp?
    ensures Overlaid(n, op).id == n.id
  {
  }

  method RunUpdateNode(e: Engine, op: Op) returns (a: Answer)
    requires e.Valid() && op.UpdateNodeOp? && Proper(op)
    modifies e`log, e.hot, e.data, e.writeLanes, e.writeLanes.Repr
    ensures e.writeLanes.founds == old(e.writeLanes.founds)
    ensures e.Valid() && fresh(e.writeLanes.Repr - old(e.writeLanes.Repr))
    ensures Performs(e.c.memtableSize, e.running, op, a, old(View(e)), View(e))
  {
    hide Sharded, WriteLanes.Valid, LRUCache.Valid, Agrees, Tidy, Anchored, NodeModel, EdgeModel, Lookup, CachedIds,
      Performs, NodeResult, Enumerates, CachesOnly, Revision;
    ghost var before, list, edges := View(e), e.hot.evictList, e.data.evictList;
    var r := e.UpdateNode(op.id, op.updates, op.clock, op.now, op.props);
    a := UpdatedNode(r);
    NothingAdded(before.log);
    ghost var out := if r.Updated? then Some(e.log[|before.log|]) else None;
    if before.coherent && e.running {
      CachedGrows(list, e.hot.evictList, {}, e.Nodes());
      CachedGrows(edges, e.data.evictList, {}, e.Edges());
      CachedIff(e.hot.evictList, op.id);
      CachedIff(e.data.evictList, op.id);
    }
    UpdateNodePerforms(e.c.memtableSize, e.running, op, r, before, View(e), out);
  }

  lemma CreateEdgePerforms(maxSize: int, running: bool, e: Edge, now: i64, r: CreateOutcome, s: Seen, s': Seen)
    requires s'.log == if r.Created? then s.log + [WroteEdge(e, r.out)] else s.log
    requires r.Created? ==> EdgeResult(e, maxSize, r.out)
    requires !running ==> r == EngineStopped && s' == s
    requires running && s.coherent ==>
               if e.from !in StoreOf(s.log).nodes then r == NoSource
               else if e.to !in StoreOf(s.log).nodes then r == NoTarget
               else r.Created?
    requires running && s.coherent && WritesUncached(CreateEdgeOp(e, now), StoreOf(s.log), s.cached, maxSize) ==>
               s'.coherent
    requires running && s.coherent && InOrder(s.log) && NamesNewEdge(CreateEdgeOp(e, now), StoreOf(s.log), maxSize) ==>
               InOrder(s'.log)
    requires running && s.coherent ==>
               Within(s'.cached, CachedWith(s.cached, StoreOf(s.log), CreateEdgeOp(e, now)))
    ensures Performs(maxSize, running, CreateEdgeOp(e, now), CreatedEdge(r), s, s')
  {
    hide TargetsOf, NodeModel, EdgeModel, Sources, EdgeResult, EdgeAccepted, EdgeListed, WritesUncached, NodeSize,
      EdgeSize, AllStorable, InOrder, NamesNewEdge, Listing;
    NothingAdded(s.log);
    if r.Created? {
      EdgeStored(s.log, e, maxSize, r.out);
      if AllStorable(s.log) && IsShort(CreateEdgeOp(e, now), StoreOf(s.log)) {
        StorableMore(s.log, WroteEdge(e, r.out));
      }
      assert LoggedAs(CreateEdgeOp(e, now), CreatedEdge(r), Some(WroteEdge(e, r.out)));
    } else {
      assert LoggedAs(CreateEdgeOp(e, now), CreatedEdge(r), None);
    }
  }

  method RunCreateEdge(e: Engine, edge: Edge, now: i64) returns (a: Answer)
    requires e.Valid()
    modifies e`log, e.hot, e.writeLanes, e.writeLanes.Repr
    ensures e.writeLanes.founds == old(e.writeLanes.founds)
    ensures e.Valid() && fresh(e.writeLanes.Repr - old(e.writeLanes.Repr))
    ensures Performs(e.c.memtableSize, e.running, CreateEdgeOp(edge, now), a, old(View(e)), View(e))
  {
    hide Sharded, WriteLanes.Valid, LRUCache.Valid, Agrees, Tidy, Anchored, NodeModel, EdgeModel, Lookup, CachedIds,
      Performs, EdgeResult, EdgeAccepted, WellFormedId, CachesOnly;
    ghost var before, list := View(e), e.hot.evictList;
    CachedIff(e.data.evictList, edge.id);
    var r := e.CreateEdge(edge, now);
    a := CreatedEdge(r);
    if r.Created? {
      ResultSays(edge, e.c.memtableSize, r.out);
    }
    if before.coherent {
      EndsCached(list, e.hot.evictList, edge, e.Nodes());
    }
    CreateEdgePerforms(e.c.memtableSize, e.running, edge, now, r, before, View(e));
  }

  lemma EndsCached(before: seq<Entry<Node>>, after: seq<Entry<Node>>, e: Edge, model: map<Bytes, Node>)
    requires CachesOnly(before, after, {e.from, e.to}) && Agrees(model, after)
    ensures CachedIds(after) <= CachedIds(before) + {e.from, e.to} * model.Keys
  {
    hide CachesOnly, Agrees, CachedIds;
    CachedGrows(before, after, {e.from, e.to}, model);
  }

  lemma ReadPerforms(maxSize: int, running: bool, op: Op, a: Answer, s: Seen, s': Seen)
    requires op.GetNodeOp? || op.GetEdgeOp? || op.GetNeighborsOp?
    requires LoggedAs(op, a, None) && s'.log == s.log && (!running ==> a == StoppedAnswer(op) && s' == s)
    requires running && s.coherent ==> Answers(StoreOf(s.log), TargetsOf(s.log), op, maxSize, a)
    requires running && s.coherent ==> s'.coherent && Within(s'.cached, CachedWith(s.cached, StoreOf(s.log), op))
    ensures Performs(maxSize, running, op, a, s, s')
  {
    hide TargetsOf, NodeModel, EdgeModel, Sources, Answers, WritesUncached, NamesNewEdge, AllStorable, InOrder;
    NothingAdded(s.log);
  }

  method RunGetNode(e: Engine, id: Bytes) returns (a: Answer)
    requires e.Valid()
    modifies e.hot
    ensures e.Valid() && Performs(e.c.memtableSize, e.running, GetNodeOp(id), a, old(View(e)), View(e))
  {
    hide Sharded, WriteLanes.Valid, LRUCache.Valid, Agrees, Tidy, Anchored, NodeModel, EdgeModel, Lookup, CachedIds,
      Performs, NodeThrough, CachesOnly;
    ghost var before, list := View(e), e.hot.evictList;
    var r := e.GetNode(id);
    a := FoundNode(r);
    if before.coherent {
      CachedGrows(list, e.hot.evictList, {id}, e.Nodes());
    }
    ReadPerforms(e.c.memtableSize, e.running, GetNodeOp(id), a, before, View(e));
  }

  method RunGetEdge(e: Engine, id: Bytes) returns (a: Answer)
    requires e.Valid()
    modifies e.data
    ensures e.Valid() && Performs(e.c.memtableSize, e.running, GetEdgeOp(id), a, old(View(e)), View(e))
  {
    hide Sharded, WriteLanes.Valid, LRUCache.Valid, Agrees, Tidy, Anchored, NodeModel, EdgeModel, Lookup, CachedIds,
      Performs, EdgeThrough, CachesOnly;
    ghost var before, list := View(e), e.data.evictList;
    var r := e.GetEdge(id);
    a := FoundEdge(r);
    if before.coherent {
      CachedGrows(list, e.data.evictList, {id}, e.Edges());
    }
    ReadPerforms(e.c.memtableSize, e.running, GetEdgeOp(id), a, before, View(e));
  }

  method RunGetNeighbors(e: Engine, id: Bytes, direction: Direction) returns (a: Answer)
    requires e.Valid()
    modifies e.hot, e.data
    ensures e.Valid()
    ensures Performs(e.c.memtableSize, e.running, GetNeighborsOp(id, direction), a, old(View(e)), View(e))
  {
    hide Sharded, WriteLanes.Valid, LRUCache.Valid, Agrees, Tidy, Anchored, NodeModel, EdgeModel, Lookup, CachedIds,
      Performs, NeighborsAre, NeighborsIn, NeighborsListed, NeighborsRead, ReachesEnd, Ends, CachesOnly, IdsIn;
    ghost var before, list, edges := View(e), e.hot.evictList, e.data.evictList;
    var nodes := e.GetNeighbors(id, direction);
    a := FoundNeighbors(nodes);
    if before.coherent && e.running {
      NeighborsFound(e.log, id, direction, nodes);
      OnlyEndsCached(e.log, id, direction, list, e.hot.evictList);
      CachedGrows(edges, e.data.evictList, IdsIn(e.log, id, direction), e.Edges());
    }
    ReadPerforms(e.c.memtableSize, e.running, GetNeighborsOp(id, direction), a, before, View(e));
  }

  lemma NeighborsFound(log: Writes, node: Bytes, direction: Direction, nodes: seq<Node>)
    requires NeighborsListed(log, node, direction, nodes)
    ensures NeighborsIn(StoreOf(log), TargetsOf(log), node, direction, nodes)
  {
    hide NodeModel, EdgeModel, Sources, TargetsOf, ReachesEnd, Adjacent;
    forall id
      ensures Includes(nodes, id) <==>
                id in StoreOf(log).nodes && Adjacent(StoreOf(log), TargetsOf(log), node, direction, id)
    {
      ReachedIsAdjacent(log, node, direction, id);
    }
  }

  lemma OnlyEndsCached(log: Writes, node: Bytes, direction: Direction, before: seq<Entry<Node>>,
                       after: seq<Entry<Node>>)
    requires Agrees(NodeModel(log, |log|), after)
    requires forall id :: Lookup(after, id).Some? ==> ReachesEnd(log, node, direction, id) || Lookup(before, id).Some?
    ensures CachedIds(after) <= CachedIds(before) + Ends(StoreOf(log).edges) * StoreOf(log).nodes.Keys
  {
    hide NodeModel, EdgeModel, Sources, TargetsOf, ReachesEnd, Adjacent, CachedIds, Lookup, Ends, Distinct;
    forall id | id in CachedIds(after)
      ensures id in CachedIds(before) + Ends(StoreOf(log).edges) * StoreOf(log).nodes.Keys
    {
      CachedIff(after, id);
      CachedIff(before, id);
      assert Lookup(after, id) == Get(NodeModel(log, |log|), id);
      if ReachesEnd(log, node, direction, id) {
        ReachedIsAdjacent(log, node, direction, id);
        AdjacentIsEnd(StoreOf(log), TargetsOf(log), node, direction, id);
      }
    }
  }

  lemma AdjacentIsEnd(g: Store, targets: set<(Bytes, Bytes)>, node: Bytes, direction: Direction, id: Bytes)
    requires Adjacent(g, targets, node, direction, id)
    ensures id in Ends(g.edges)
  {
  }

  // ---------- reading what was just created ----------

  /** A node that is read right after it was created: what was cached under its ID stays what is read. */
  method CreateThenGet(e: Engine, n: Node, now: i64) returns (out: Lane.NodeOutcome, r: Option<Node>)
    requires e.Valid() && e.running
    modifies e`log, e.hot, e.writeLanes, e.writeLanes.Repr
    ensures e.Valid() && e.running && fresh(e.writeLanes.Repr - old(e.writeLanes.Repr))
    ensures out == NodeResult(n, e.c.memtableSize) && e.log == old(e.log) + [WroteNode(n, out)]
    ensures e.hot.maxSize == old(e.hot.maxSize)
    ensures var was := Lookup(old(e.hot.evictList), n.id);
            if was.Some? then r == was && e.hot.evictList == old(e.hot.evictList)
            else
              && r == (if out.NodeWritten? then Some(NormNode(n)) else old(Get(e.Nodes(), n.id)))
              && e.hot.evictList == if r.None? then old(e.hot.evictList)
                                    else PutIn(old(e.hot.evictList), e.hot.maxSize, n.id, r.value,
                                               e.nodeCost(r.value)).list
  {
    hide Sharded, WriteLanes.Valid, LRUCache.Valid, Agrees, Tidy, Anchored, NodeModel, EdgeModel, Lookup, NodeThrough,
      NodeResult, CachesOnly, PutIn;
    var w := e.CreateNode(n, now);
    out := w.value;
    r := e.GetNode(n.id);
  }

  /** So after a second version has been created, the first one goes on being read, if it found room in
      the cache. */
  method CreateTwice(e: Engine, n: Node, m: Node, now: i64) returns (r: Option<Node>)
    requires e.Valid() && e.running && n.id == m.id && Lookup(e.hot.evictList, n.id).None?
    requires NodeResult(n, e.c.memtableSize).NodeWritten? && NodeResult(m, e.c.memtableSize).NodeWritten?
    requires PutIn(e.hot.evictList, e.hot.maxSize, n.id, NormNode(n), e.nodeCost(NormNode(n))).ok
    modifies e`log, e.hot, e.writeLanes, e.writeLanes.Repr
    ensures e.Valid() && Get(e.Nodes(), m.id) == Some(NormNode(m)) && r == Some(NormNode(n))
  {
    hide Sharded, WriteLanes.Valid, Agrees, Tidy, Anchored, NodeModel, EdgeModel, Lookup, NodeResult, CachesOnly, PutIn,
      Distinct, Mirrors, Recent, SizeOf;
    ghost var list := e.hot.evictList;
    var out;
    out, r := CreateThenGet(e, n, now);
    PutLookup(list, e.hot.maxSize, n.id, NormNode(n), e.nodeCost(NormNode(n)), n.id);
    out, r := CreateThenGet(e, m, now);
    NodeStored(e.log[..|e.log| - 1], m, out);
  }

  /** One operation of any kind. */
  method PerformOne(e: Engine, op: Op) returns (a: Answer)
    requires e.Valid() && Proper(op)
    modifies e`log, e.hot, e.data, e.writeLanes, e.writeLanes.Repr
    ensures e.writeLanes.founds == old(e.writeLanes.founds)
    ensures e.Valid() && fresh(e.writeLanes.Repr - old(e.writeLanes.Repr)) && e.running == old(e.running)
    ensures Performs(e.c.memtableSize, e.running, op, a, old(View(e)), View(e))
  {
    hide Sharded, WriteLanes.Valid, LRUCache.Valid, View, Performs, Proper;
    match op {
      case CreateNodeOp(n, now) => a := RunCreateNode(e, n, now);
      case UpdateNodeOp(_, _, _, _, _) => a := RunUpdateNode(e, op);
      case CreateEdgeOp(edge, now) => a := RunCreateEdge(e, edge, now);
      case GetNodeOp(id) => a := RunGetNode(e, id);
      case GetEdgeOp(id) => a := RunGetEdge(e, id);
      case GetNeighborsOp(id, direction) => a := RunGetNeighbors(e, id, direction);
    }
  }

  // ---------- runs ----------

  function Logged(outs: seq<Option<Event>>, k: nat): seq<Event>
    requires k <= |outs|
  {
    if k == 0 then [] else Logged(outs, k - 1) + EventOf(outs[k - 1])
  }

  lemma LoggedMore(start: seq<Event>, outs: seq<Option<Event>>, out: Option<Event>)
    ensures start + Logged(outs + [out], |outs| + 1) == (start + Logged(outs, |outs|)) + EventOf(out)
  {
    LoggedPrefix(outs, [out], |outs|);
    Concat3(start, Logged(outs, |outs|), EventOf(out));
  }

  lemma {:induction false} LoggedPrefix(outs: seq<Option<Event>>, more: seq<Option<Event>>, k: nat)
    requires k <= |outs|
    ensures Logged(outs + more, k) == Logged(outs, k)
  {
    if k > 0 {
      LoggedPrefix(outs, more, k - 1);
    }
  }

  /** The log has grown by one event for each operation whose answer says so, in order. */
  ghost predicate LogsRun(ops: seq<Op>, answers: seq<Answer>, before: Writes, after: Writes)
    requires |answers| <= |ops|
  {
    exists outs :: LogsAs(ops, answers, outs) && after == before + Logged(outs, |outs|)
  }

  ghost predicate LogsAs(ops: seq<Op>, answers: seq<Answer>, outs: seq<Option<Event>>)
    requires |answers| <= |ops|
  {
    |outs| == |answers| && forall k :: 0 <= k < |outs| ==> LoggedAs(ops[k], answers[k], outs[k])
  }

  lemma LogsRunMore(ops: seq<Op>, answers: seq<Answer>, a: Answer, start: Writes, before: Writes, after: Writes,
                    out: Option<Event>)
    requires |answers| < |ops| && LogsRun(ops, answers, start, before)
    requires LoggedAs(ops[|answers|], a, out) && after == before + EventOf(out)
    ensures LogsRun(ops, answers + [a], start, after)
  {
    hide LoggedAs;
    var outs :| LogsAs(ops, answers, outs) && before == start + Logged(outs, |outs|);
    LoggedMore(start, outs, out);
    assert LogsAs(ops, answers + [a], outs + [out]);
  }

  /** The `k`-th operation created `x`, and was answered that it is listed at `node`. */
  predicate AnswersEdge(ops: seq<Op>, answers: seq<Answer>, k: nat, node: Bytes, outgoing: bool, x: Edge)
    requires k < |ops| && k < |answers|
  {
    && ops[k].CreateEdgeOp? && x == NormEdge(ops[k].edge) && (node == if outgoing then x.from else x.to)
    && answers[k].CreatedEdge? && answers[k].edge.Created?
    && if outgoing then OutListed(answers[k].edge.out) else InListed(answers[k].edge.out)
  }

  /** The event is that of an edge listed at `node`. */
  predicate ListsEdge(ev: Event, node: Bytes, outgoing: bool, x: Edge) {
    EdgeSet(ev) == Some(x) && if outgoing then ListsOut(ev, node) else ListsIn(ev, node)
  }

  lemma LoggedEdge(ops: seq<Op>, answers: seq<Answer>, k: nat, out: Option<Event>, node: Bytes, outgoing: bool, x: Edge)
    requires k < |ops| && k < |answers| && LoggedAs(ops[k], answers[k], out)
    ensures AnswersEdge(ops, answers, k, node, outgoing, x) <==> out.Some? && ListsEdge(out.value, node, outgoing, x)
  {
  }

  /** Over any run, whatever the IDs: the edges of a node in the log are exactly those that its operations
      were answered to have listed there. */
  lemma EdgesInLog(ops: seq<Op>, answers: seq<Answer>, log: Writes, node: Bytes, outgoing: bool, x: Edge)
    requires |answers| == |ops| && LogsRun(ops, answers, [], log)
    ensures IsEdgeOf(log, node, outgoing, x) <==>
              exists k :: 0 <= k < |ops| && AnswersEdge(ops, answers, k, node, outgoing, x)
  {
    hide LoggedAs, AnswersEdge, ListsEdge, Logged, IsWrite, IsEdgeOf;
    var outs :| LogsAs(ops, answers, outs) && log == [] + Logged(outs, |outs|);
    NothingAdded(Logged(outs, |outs|));
    EdgeOfEvent(log, node, outgoing, x);
    if i :| 0 <= i < |log| && ListsEdge(log[i], node, outgoing, x) {
      var k := LoggedFrom(outs, |outs|, i);
      LoggedEdge(ops, answers, k, outs[k], node, outgoing, x);
    }
    if k :| 0 <= k < |ops| && AnswersEdge(ops, answers, k, node, outgoing, x) {
      LoggedEdge(ops, answers, k, outs[k], node, outgoing, x);
      var i := LoggedAt(outs, |outs|, k);
    }
  }

  lemma EdgeOfEvent(log: Writes, node: Bytes, outgoing: bool, x: Edge)
    ensures IsEdgeOf(log, node, outgoing, x) <==> exists i :: 0 <= i < |log| && ListsEdge(log[i], node, outgoing, x)
  {
    hide IsWrite, EdgeSet, ListsOut, ListsIn;
  }

  lemma {:induction false} LoggedFrom(outs: seq<Option<Event>>, n: nat, i: nat) returns (k: nat)
    requires n <= |outs| && i < |Logged(outs, n)|
    ensures k < n && outs[k] == Some(Logged(outs, n)[i])
  {
    if i < |Logged(outs, n - 1)| {
      k := LoggedFrom(outs, n - 1, i);
    } else {
      k := n - 1;
    }
  }

  lemma {:induction false} LoggedAt(outs: seq<Option<Event>>, n: nat, k: nat) returns (i: nat)
    requires k < n <= |outs| && outs[k].Some?
    ensures i < |Logged(outs, n)| && Logged(outs, n)[i] == outs[k].value
  {
    if k == n - 1 {
      i := |Logged(outs, n - 1)|;
    } else {
      i := LoggedAt(outs, n - 1, k);
    }
  }

  /** The run answers, and leaves the store, as the machine does. */
  ghost predicate Behaves(maxSize: int, ops: seq<Op>, answers: seq<Answer>, before: Writes, after: Writes)
    requires |answers| <= |ops|
  {
    var g, targets, n := StoreOf(before), TargetsOf(before), |answers|;
    && StoreOf(after) == StoreAfter(g, ops, n, maxSize) && TargetsOf(after) == TargetsAfter(targets, ops, answers, n)
    && forall k :: 0 <= k < n ==>
         Answers(StoreAfter(g, ops, k, maxSize), TargetsAfter(targets, ops, answers, k), ops[k], maxSize, answers[k])
  }

  lemma BehavesMore(maxSize: int, ops: seq<Op>, answers: seq<Answer>, a: Answer, start: Writes, before: Writes,
                    after: Writes)
    requires |answers| < |ops| && Behaves(maxSize, ops, answers, start, before)
    requires Answers(StoreOf(before), TargetsOf(before), ops[|answers|], maxSize, a)
    requires StoreOf(after) == After(StoreOf(before), ops[|answers|], maxSize)
    requires TargetsOf(after) == TargetsWith(TargetsOf(before), ops[|answers|], a)
    ensures Behaves(maxSize, ops, answers + [a], start, after)
  {
    hide StoreOf, TargetsOf, Answers, After, TargetsWith;
    forall k | 0 <= k <= |answers|
      ensures TargetsAfter(TargetsOf(start), ops, answers + [a], k) == TargetsAfter(TargetsOf(start), ops, answers, k)
    {
      TargetsPrefix(TargetsOf(start), ops, answers, [a], k);
    }
  }

  /** Main result: over any run of operations on a running engine, whatever fails, is evicted or refused
      on the way, every answer is the one that the machine gives, and the engine ends up with the
      machine's store and nothing stale cached; provided that nothing is written under an ID that may be
      cached. Edges may be written again, under new ends, and under any IDs. */
  method PerformAll(e: Engine, ops: seq<Op>) returns (answers: seq<Answer>)
    requires e.Valid() && forall k :: 0 <= k < |ops| ==> Proper(ops[k])
    modifies e`log, e.hot, e.data, e.writeLanes, e.writeLanes.Repr
    ensures e.writeLanes.founds == old(e.writeLanes.founds)
    ensures e.Valid() && fresh(e.writeLanes.Repr - old(e.writeLanes.Repr)) && e.running == old(e.running)
    ensures |answers| == |ops| && LogsRun(ops, answers, old(e.log), e.log)
    ensures !e.running ==> View(e) == old(View(e)) && forall k :: 0 <= k < |ops| ==> answers[k] == StoppedAnswer(ops[k])
    ensures e.running ==> forall k :: 0 <= k < |ops| && ops[k].CreateNodeOp? ==>
              answers[k] == CreatedNode(Some(NodeResult(ops[k].node, e.c.memtableSize)))
    ensures e.running && old(e.Coherent()) &&
            AllWriteUncached(ops, old(StoreOf(e.log)), old(InCache(e)), e.c.memtableSize) ==>
              && e.Coherent() && Behaves(e.c.memtableSize, ops, answers, old(e.log), e.log)
              && Within(InCache(e), CachedAfter(old(InCache(e)), old(StoreOf(e.log)), ops, |ops|, e.c.memtableSize))
              && (old(InOrder(e.log)) && AllNameNewEdges(ops, old(StoreOf(e.log)), e.c.memtableSize) ==> InOrder(e.log))
              && (AllShort(ops, old(StoreOf(e.log)), e.c.memtableSize) && AllStorable(old(e.log)) ==>
                    AllStorable(e.log))
  {
    hide Engine.Valid, Engine.Coherent, InOrder, StoreOf, TargetsOf, InCache, WritesUncached, NamesNewEdge, Proper,
      Answers,
      After, LoggedAs, CachedWith, LogsRun, Behaves, NodeResult, StoppedAnswer, AllStorable, IsShort;
    ghost var start, maxSize := View(e), e.c.memtableSize;
    ghost var g := StoreOf(start.log);
    ghost var good := e.running && start.coherent && AllWriteUncached(ops, g, start.cached, maxSize);
    ghost var tidy := good && InOrder(start.log) && AllNameNewEdges(ops, g, maxSize);
    ghost var short := good && AllShort(ops, g, maxSize) && AllStorable(start.log);
    answers := [];
    NothingLogged(maxSize, ops, start.log);
    while |answers| < |ops|
      invariant |answers| <= |ops| && e.running == old(e.running)
      invariant e.Valid() && fresh(e.writeLanes.Repr - old(e.writeLanes.Repr))
      invariant e.writeLanes.founds == old(e.writeLanes.founds)
      invariant LogsRun(ops, answers, start.log, e.log)
      invariant !e.running ==>
                  View(e) == start && forall k :: 0 <= k < |answers| ==> answers[k] == StoppedAnswer(ops[k])
      invariant e.running ==> forall k :: 0 <= k < |answers| && ops[k].CreateNodeOp? ==>
                  answers[k] == CreatedNode(Some(NodeResult(ops[k].node, maxSize)))
      invariant good ==>
                  && View(e).coherent && Behaves(maxSize, ops, answers, start.log, e.log)
                  && Within(View(e).cached, CachedAfter(start.cached, g, ops, |answers|, maxSize))
      invariant tidy ==> InOrder(e.log)
      invariant short ==> AllStorable(e.log)
    {
      ghost var before := View(e);
      var a := PerformOne(e, ops[|answers|]);
      RunGoesOn(maxSize, e.running, good, tidy, short, ops, answers, a, start, before, View(e));
      answers := answers + [a];
    }
  }

  lemma NothingLogged(maxSize: int, ops: seq<Op>, log: Writes)
    ensures LogsRun(ops, [], log, log) && Behaves(maxSize, ops, [], log, log)
  {
    hide StoreOf, TargetsOf;
    NothingAdded(log);
    assert LogsAs(ops, [], []);
  }

  lemma RunGoesOn(maxSize: int, running: bool, good: bool, tidy: bool, short: bool, ops: seq<Op>, answers: seq<Answer>,
                  a: Answer, start: Seen, before: Seen, after: Seen)
    requires |answers| < |ops| && Performs(maxSize, running, ops[|answers|], a, before, after)
    requires LogsRun(ops, answers, start.log, before.log)
    requires good ==> running && AllWriteUncached(ops, StoreOf(start.log), start.cached, maxSize)
    requires good ==>
               && before.coherent && Behaves(maxSize, ops, answers, start.log, before.log)
               && Within(before.cached, CachedAfter(start.cached, StoreOf(start.log), ops, |answers|, maxSize))
    requires tidy ==> good && AllNameNewEdges(ops, StoreOf(start.log), maxSize) && InOrder(before.log)
    requires short ==> good && AllShort(ops, StoreOf(start.log), maxSize) && AllStorable(before.log)
    ensures LogsRun(ops, answers + [a], start.log, after.log)
    ensures tidy ==> InOrder(after.log)
    ensures short ==> AllStorable(after.log)
    ensures good ==>
              && after.coherent && Behaves(maxSize, ops, answers + [a], start.log, after.log)
              && Within(after.cached, CachedAfter(start.cached, StoreOf(start.log), ops, |answers| + 1, maxSize))
  {
    hide StoreOf, TargetsOf, WritesUncached, NamesNewEdge, Answers, After, LoggedAs, CachedWith, LogsRun, NodeResult,
      StoppedAnswer, AllStorable, IsShort, InOrder;
    var out :| LoggedAs(ops[|answers|], a, out) && after.log == before.log + EventOf(out);
    LogsRunMore(ops, answers, a, start.log, before.log, after.log, out);
    if good {
      BehavesMore(maxSize, ops, answers, a, start.log, before.log, after.log);
      FewerCached(ops[|answers|], StoreOf(before.log), before.cached,
                  CachedAfter(start.cached, StoreOf(start.log), ops, |answers|, maxSize), maxSize);
    }
  }

  // ---------- the edges of a run, from its operations ----------

  /** The `k`-th operation creates `x` between existing nodes, and the sizes let it be listed at its source. */
  ghost predicate CreatesOut(ops: seq<Op>, k: nat, maxSize: int, x: Edge)
    requires k < |ops|
  {
    && ops[k].CreateEdgeOp? && x == NormEdge(ops[k].edge) && EdgeListed(ops[k].edge, maxSize)
    && var nodes := StoreAfter(EMPTY, ops, k, maxSize).nodes; x.from in nodes && x.to in nodes
  }

  /** The `k`-th operation creates `x` and is answered that it is written in full. */
  predicate CreatesIn(ops: seq<Op>, answers: seq<Answer>, k: nat, x: Edge)
    requires k < |ops| && k < |answers|
  {
    ops[k].CreateEdgeOp? && x == NormEdge(ops[k].edge) && answers[k] == CreatedEdge(Created(Lane.EdgeWritten))
  }

  ghost predicate AllAnswered(maxSize: int, ops: seq<Op>, answers: seq<Answer>)
    requires |answers| == |ops|
  {
    forall k :: 0 <= k < |ops| ==>
      Answers(StoreAfter(EMPTY, ops, k, maxSize), TargetsAfter({}, ops, answers, k), ops[k], maxSize, answers[k])
  }

  /** The edge is stored as `x` and listed at `node`. */
  predicate ListedAs(g: Store, listed: set<(Bytes, Bytes)>, node: Bytes, x: Edge) {
    Get(g.edges, x.id) == Some(x) && (node, x.id) in listed
  }

  /** Only stored edges are listed, and at their own ends. */
  ghost predicate ListsStored(g: Store, targets: set<(Bytes, Bytes)>, id: Bytes) {
    && (forall node :: (node, id) in g.sources ==> id in g.edges && g.edges[id].from == node)
    && (forall node :: (node, id) in targets ==> id in g.edges && g.edges[id].to == node)
  }

  lemma ListingOfWellFormed(node: Bytes, id: Bytes)
    requires WellFormedId(id)
    ensures Listing(node, id) == {(node, id)}
  {
    hide Tokens, WellFormedId;
    TokensOfId(id);
  }

  /** What one operation on a fresh ID adds. */
  lemma ListedAfter(g: Store, targets: set<(Bytes, Bytes)>, op: Op, maxSize: int, a: Answer, x: Edge)
    requires ListsStored(g, targets, x.id) && Answers(g, targets, op, maxSize, a) && NamesNewEdge(op, g, maxSize)
    ensures var g', targets' := After(g, op, maxSize), TargetsWith(targets, op, a);
            && ListsStored(g', targets', x.id)
            && (ListedAs(g', g'.sources, x.from, x) <==>
                  || ListedAs(g, g.sources, x.from, x)
                  || (op.CreateEdgeOp? && x == NormEdge(op.edge) && EdgeListed(op.edge, maxSize)
                      && x.from in g.nodes && x.to in g.nodes))
            && (ListedAs(g', targets', x.to, x) <==>
                  || ListedAs(g, targets, x.to, x)
                  || (op.CreateEdgeOp? && x == NormEdge(op.edge) && a == CreatedEdge(Created(Lane.EdgeWritten))))
  {
    hide NodeResult, EdgeListed, EdgeAccepted, Overlaid, NeighborsIn, WellFormedId, Listing;
    if op.CreateEdgeOp? {
      WrittenIsAccepted(g, targets, op, maxSize, a);
      AcceptedWhenListed(op.edge, maxSize);
      if Accepts(g, op.edge, maxSize) {
        ListingOfWellFormed(op.edge.from, op.edge.id);
        ListingOfWellFormed(op.edge.to, op.edge.id);
      }
    }
  }

  lemma {:induction false} EdgesUpTo(maxSize: int, ops: seq<Op>, answers: seq<Answer>, n: nat, x: Edge)
    requires n <= |ops| == |answers| && AllNameNewEdges(ops, EMPTY, maxSize) && AllAnswered(maxSize, ops, answers)
    ensures var g, targets := StoreAfter(EMPTY, ops, n, maxSize), TargetsAfter({}, ops, answers, n);
            && ListsStored(g, targets, x.id)
            && (ListedAs(g, g.sources, x.from, x) <==> exists k :: 0 <= k < n && CreatesOut(ops, k, maxSize, x))
            && (ListedAs(g, targets, x.to, x) <==> exists k :: 0 <= k < n && CreatesIn(ops, answers, k, x))
  {
    hide After, Answers, TargetsWith, NamesNewEdge, EdgeListed, NodeResult, ListedAs, CreatesOut, CreatesIn,
      ListsStored;
    if n == 0 {
      NothingListed(x);
    } else {
      EdgesUpTo(maxSize, ops, answers, n - 1, x);
      var g := StoreAfter(EMPTY, ops, n - 1, maxSize);
      ListedAfter(g, TargetsAfter({}, ops, answers, n - 1), ops[n - 1], maxSize, answers[n - 1], x);
      LastCreates(maxSize, ops, answers, n - 1, x);
    }
  }

  lemma NothingListed(x: Edge)
    ensures !ListedAs(EMPTY, EMPTY.sources, x.from, x) && !ListedAs(EMPTY, {}, x.to, x) && ListsStored(EMPTY, {}, x.id)
  {
  }

  lemma LastCreates(maxSize: int, ops: seq<Op>, answers: seq<Answer>, k: nat, x: Edge)
    requires k < |ops| == |answers|
    ensures CreatesOut(ops, k, maxSize, x) <==>
              && ops[k].CreateEdgeOp? && x == NormEdge(ops[k].edge) && EdgeListed(ops[k].edge, maxSize)
              && x.from in StoreAfter(EMPTY, ops, k, maxSize).nodes && x.to in StoreAfter(EMPTY, ops, k, maxSize).nodes
    ensures CreatesIn(ops, answers, k, x) <==>
              ops[k].CreateEdgeOp? && x == NormEdge(ops[k].edge) && answers[k] == CreatedEdge(Created(Lane.EdgeWritten))
  {
  }

  lemma WrittenIsAccepted(g: Store, targets: set<(Bytes, Bytes)>, op: Op, maxSize: int, a: Answer)
    requires op.CreateEdgeOp? && Answers(g, targets, op, maxSize, a)
    ensures a == CreatedEdge(Created(Lane.EdgeWritten)) ==> Accepts(g, op.edge, maxSize)
  {
    hide EdgeAccepted, EdgeListed;
    if a == CreatedEdge(Created(Lane.EdgeWritten)) {
      ResultSays(op.edge, maxSize, Lane.EdgeWritten);
    }
  }

  /** With IDs of their own, the edges listed at their source, or target, after a run on an empty store are
      exactly those that its operations created. */
  lemma EdgesOfRun(maxSize: int, ops: seq<Op>, answers: seq<Answer>, x: Edge)
    requires |answers| == |ops| && AllNameNewEdges(ops, EMPTY, maxSize) && AllAnswered(maxSize, ops, answers)
    ensures var g, targets := StoreAfter(EMPTY, ops, |ops|, maxSize), TargetsAfter({}, ops, answers, |ops|);
            && (Get(g.edges, x.id) == Some(x) && (x.from, x.id) in g.sources <==>
                  exists k :: 0 <= k < |ops| && CreatesOut(ops, k, maxSize, x))
            && (Get(g.edges, x.id) == Some(x) && (x.to, x.id) in targets <==>
                  exists k :: 0 <= k < |ops| && CreatesIn(ops, answers, k, x))
  {
    hide CreatesOut, CreatesIn, AllAnswered, AllNameNewEdges;
    EdgesUpTo(maxSize, ops, answers, |ops|, x);
  }

  /** An operation created an edge from `node` to `id`: by the sizes alone it is listed at `node`. */
  ghost predicate LeadsTo(ops: seq<Op>, maxSize: int, node: Bytes, id: Bytes) {
    exists k :: 0 <= k < |ops| && ops[k].CreateEdgeOp? && ops[k].edge.from == node && ops[k].edge.to == id
             && CreatesOut(ops, k, maxSize, NormEdge(ops[k].edge))
  }

  /** An operation created an edge from `id` to `node` and was answered that it is written in full. */
  ghost predicate ComesFrom(ops: seq<Op>, answers: seq<Answer>, node: Bytes, id: Bytes)
    requires |answers| == |ops|
  {
    exists k :: 0 <= k < |ops| && ops[k].CreateEdgeOp? && ops[k].edge.to == node && ops[k].edge.from == id
             && CreatesIn(ops, answers, k, NormEdge(ops[k].edge))
  }

  lemma {:induction false} StoredUnderOwnId(ops: seq<Op>, n: nat, maxSize: int, id: Bytes)
    requires n <= |ops| && id in StoreAfter(EMPTY, ops, n, maxSize).edges
    ensures StoreAfter(EMPTY, ops, n, maxSize).edges[id].id == id
  {
    hide NodeResult, EdgeListed, EdgeAccepted, Overlaid;
    if n > 0 && id in StoreAfter(EMPTY, ops, n - 1, maxSize).edges {
      StoredUnderOwnId(ops, n - 1, maxSize, id);
    }
  }

  /** The outgoing neighbours are settled by the operations alone, the incoming ones by their answers. */
  lemma NeighborsOfRun(maxSize: int, ops: seq<Op>, answers: seq<Answer>, node: Bytes, direction: Direction, id: Bytes)
    requires |answers| == |ops| && AllNameNewEdges(ops, EMPTY, maxSize) && AllAnswered(maxSize, ops, answers)
    ensures Adjacent(StoreAfter(EMPTY, ops, |ops|, maxSize), TargetsAfter({}, ops, answers, |ops|), node, direction, id)
       <==> || (Outward(direction) && LeadsTo(ops, maxSize, node, id))
            || (Inward(direction) && ComesFrom(ops, answers, node, id))
  {
    hide AllAnswered, AllNameNewEdges, StoreAfter, TargetsAfter, LeadsTo, ComesFrom;
    LeadsExactly(maxSize, ops, answers, node, id);
    ComesExactly(maxSize, ops, answers, node, id);
  }

  lemma LeadsExactly(maxSize: int, ops: seq<Op>, answers: seq<Answer>, node: Bytes, id: Bytes)
    requires |answers| == |ops| && AllNameNewEdges(ops, EMPTY, maxSize) && AllAnswered(maxSize, ops, answers)
    ensures Adjacent(StoreAfter(EMPTY, ops, |ops|, maxSize), TargetsAfter({}, ops, answers, |ops|), node, Out, id)
       <==> LeadsTo(ops, maxSize, node, id)
  {
    hide AllAnswered, AllNameNewEdges, StoreAfter, TargetsAfter, CreatesIn, EdgeListed;
    var g, targets := StoreAfter(EMPTY, ops, |ops|, maxSize), TargetsAfter({}, ops, answers, |ops|);
    if Adjacent(g, targets, node, Out, id) {
      var t :| (node, t) in g.sources && t in g.edges && g.edges[t].to == id;
      StoredUnderOwnId(ops, |ops|, maxSize, t);
      EdgesUpTo(maxSize, ops, answers, |ops|, g.edges[t]);
      var k :| 0 <= k < |ops| && CreatesOut(ops, k, maxSize, g.edges[t]);
      assert ops[k].edge.from == node && ops[k].edge.to == id;
    }
    if LeadsTo(ops, maxSize, node, id) {
      var k :| 0 <= k < |ops| && ops[k].CreateEdgeOp? && ops[k].edge.from == node && ops[k].edge.to == id
            && CreatesOut(ops, k, maxSize, NormEdge(ops[k].edge));
      EdgesOfRun(maxSize, ops, answers, NormEdge(ops[k].edge));
      assert (node, NormEdge(ops[k].edge).id) in g.sources;
    }
  }

  lemma ComesExactly(maxSize: int, ops: seq<Op>, answers: seq<Answer>, node: Bytes, id: Bytes)
    requires |answers| == |ops| && AllNameNewEdges(ops, EMPTY, maxSize) && AllAnswered(maxSize, ops, answers)
    ensures Adjacent(StoreAfter(EMPTY, ops, |ops|, maxSize), TargetsAfter({}, ops, answers, |ops|), node, In, id)
       <==> ComesFrom(ops, answers, node, id)
  {
    hide AllAnswered, AllNameNewEdges, StoreAfter, TargetsAfter, CreatesOut;
    var g, targets := StoreAfter(EMPTY, ops, |ops|, maxSize), TargetsAfter({}, ops, answers, |ops|);
    if Adjacent(g, targets, node, In, id) {
      var t :| (node, t) in targets && t in g.edges && g.edges[t].from == id;
      StoredUnderOwnId(ops, |ops|, maxSize, t);
      EdgesUpTo(maxSize, ops, answers, |ops|, g.edges[t]);
      var k :| 0 <= k < |ops| && CreatesIn(ops, answers, k, g.edges[t]);
      assert ops[k].edge.to == node && ops[k].edge.from == id;
    }
    if ComesFrom(ops, answers, node, id) {
      var k :| 0 <= k < |ops| && ops[k].CreateEdgeOp? && ops[k].edge.to == node && ops[k].edge.from == id
            && CreatesIn(ops, answers, k, NormEdge(ops[k].edge));
      EdgesOfRun(maxSize, ops, answers, NormEdge(ops[k].edge));
      assert (node, NormEdge(ops[k].edge).id) in targets;
    }
  }

  lemma {:induction false} NodesStay(ops: seq<Op>, k: nat, n: nat, maxSize: int, id: Bytes)
    requires k <= n <= |ops| && id in StoreAfter(EMPTY, ops, k, maxSize).nodes
    ensures id in StoreAfter(EMPTY, ops, n, maxSize).nodes
  {
    hide NodeResult, EdgeListed, EdgeAccepted, Overlaid;
    if k < n {
      NodesStay(ops, k, n - 1, maxSize, id);
    }
  }

  /** The ends that the operations name are stored. */
  lemma EndsStay(maxSize: int, ops: seq<Op>, answers: seq<Answer>, node: Bytes, id: Bytes)
    requires |answers| == |ops| && AllAnswered(maxSize, ops, answers)
    ensures LeadsTo(ops, maxSize, node, id) || ComesFrom(ops, answers, node, id) ==>
              id in StoreAfter(EMPTY, ops, |ops|, maxSize).nodes
  {
    hide EdgeListed, StoreAfter, TargetsAfter, Answers;
    if LeadsTo(ops, maxSize, node, id) {
      var k :| 0 <= k < |ops| && ops[k].CreateEdgeOp? && ops[k].edge.from == node && ops[k].edge.to == id
            && CreatesOut(ops, k, maxSize, NormEdge(ops[k].edge));
      NodesStay(ops, k, |ops|, maxSize, id);
    }
    if ComesFrom(ops, answers, node, id) {
      var k :| 0 <= k < |ops| && ops[k].CreateEdgeOp? && ops[k].edge.to == node && ops[k].edge.from == id
            && CreatesIn(ops, answers, k, NormEdge(ops[k].edge));
      WrittenIsAccepted(StoreAfter(EMPTY, ops, k, maxSize), TargetsAfter({}, ops, answers, k), ops[k], maxSize,
                        answers[k]);
      NodesStay(ops, k, |ops|, maxSize, id);
    }
  }

  // ---------- from a new engine ----------

  /** A new engine on log files that its lanes' predecessors wrote: it starts unless a lane cannot recover,
      and what it then knows is the replay of the files. */
  method StartOn(c: Config, hotSize: int, dataSize: int, nodeCost: Node -> int, edgeCost: Edge -> int,
                 crc: Wal.Crc, disks: seq<Bytes>)
    returns (e: Engine, ok: bool)
    requires Usable(c) && |disks| == c.numLanes
    requires forall i :: 0 <= i < c.numLanes ==> Owned(c, i, Wal.ReplayOf(crc, disks[i]).entries)
    ensures fresh(e) && fresh(e.hot) && fresh(e.data) && fresh(e.writeLanes) && fresh(e.writeLanes.Repr)
    ensures e.Valid() && e.c == c && e.writeLanes.crc == crc && e.running == ok
    ensures e.Coherent() && e.hot.evictList == [] && e.data.evictList == []
    ensures |e.writeLanes.views| == c.numLanes && e.writeLanes.founds == e.writeLanes.files == disks
    ensures ok ==> SharesReplay(c, e.log, crc, disks, c.numLanes)
    ensures ok ==> forall i :: 0 <= i < c.numLanes ==>
              Restored(Lane.NewLane(c.memtableSize), crc, disks[i], e.writeLanes.views[i], true)
    ensures !ok ==>
              exists i :: 0 <= i < c.numLanes
                       && Restored(Lane.NewLane(c.memtableSize), crc, disks[i], e.writeLanes.views[i], false)
                       && forall j :: i < j < c.numLanes ==> e.writeLanes.views[j] == Lane.NewLane(c.memtableSize)
    ensures (forall i :: 0 <= i < c.numLanes ==> disks[i] == []) ==> e.log == []
  {
    hide Sharded, WriteLanes.Valid, LRUCache.Valid, Agrees, NodeModel, EdgeModel, Restored, Wal.ReplayOf, Owned,
      SharesReplay, Lane.NewLane;
    e := new Engine(c, hotSize, dataSize, nodeCost, edgeCost, crc, disks);
    ok := e.Start();
    e.writeLanes.SameNumber();
    OwnerInRange(c, e.log, e.writeLanes.views, []);
  }

  /** An engine on empty log files starts. */
  method NewStarted(c: Config, hotSize: int, dataSize: int, nodeCost: Node -> int, edgeCost: Edge -> int,
                    crc: Wal.Crc)
    returns (e: Engine)
    requires Usable(c)
    ensures fresh(e) && fresh(e.hot) && fresh(e.data) && fresh(e.writeLanes) && fresh(e.writeLanes.Repr)
    ensures e.Valid() && e.running && e.c == c && View(e) == Seen([], NOTHING, true)
    ensures e.writeLanes.crc == crc && e.writeLanes.founds == seq(c.numLanes, _ => [])
  {
    hide Sharded, WriteLanes.Valid, LRUCache.Valid, Agrees, NodeModel, EdgeModel, Restored, Wal.ReplayOf, SharesReplay,
      Lane.NewLane;
    EmptyLog(crc);
    var ok;
    e, ok := StartOn(c, hotSize, dataSize, nodeCost, edgeCost, crc, seq(c.numLanes, _ => []));
    if !ok {
      ghost var i :| 0 <= i < c.numLanes
                  && Restored(Lane.NewLane(c.memtableSize), crc, [], e.writeLanes.views[i], false);
      NothingRestored(Lane.NewLane(c.memtableSize), crc, e.writeLanes.views[i], false);
    }
  }

  lemma NeighborsAnswered(maxSize: int, node: Bytes, direction: Direction, a: Answer, s: Seen, s': Seen)
    requires Performs(maxSize, true, GetNeighborsOp(node, direction), a, s, s')
    ensures a.FoundNeighbors? && s'.log == s.log
    ensures s.coherent ==> s'.coherent && NeighborsIn(StoreOf(s.log), TargetsOf(s.log), node, direction, a.nodes)
  {
    hide StoreOf, TargetsOf, NeighborsIn, CachedWith;
    NothingAdded(s.log);
  }

  /** Main result, end to end: on a new engine, after any run of operations that writes nothing under an ID
      that may be cached, the answers are those of the machine from an empty store, and `GetNeighbors`
      returns each adjacent node once, in its last version. When edges have IDs of their own, the outgoing
      ones are told from the operations alone. */
  method NeighborsAfterRun(c: Config, hotSize: int, dataSize: int, nodeCost: Node -> int, edgeCost: Edge -> int,
                           crc: Bytes -> u32, ops: seq<Op>, node: Bytes, direction: Direction)
    returns (e: Engine, answers: seq<Answer>, nodes: seq<Node>)
    requires Usable(c) && forall k :: 0 <= k < |ops| ==> Proper(ops[k])
    ensures fresh(e) && e.Valid() && e.running && e.c == c
    ensures |answers| == |ops| && LogsRun(ops, answers, [], e.log)
    ensures AllWriteUncached(ops, EMPTY, NOTHING, c.memtableSize) ==>
              && e.Coherent() && Behaves(c.memtableSize, ops, answers, [], e.log)
              && NeighborsIn(StoreAfter(EMPTY, ops, |ops|, c.memtableSize), TargetsAfter({}, ops, answers, |ops|), node,
                             direction, nodes)
    ensures AllWriteUncached(ops, EMPTY, NOTHING, c.memtableSize) && AllNameNewEdges(ops, EMPTY, c.memtableSize) ==>
              && InOrder(e.log)
              && forall id :: Includes(nodes, id) <==>
                   || (Outward(direction) && LeadsTo(ops, c.memtableSize, node, id))
                   || (Inward(direction) && ComesFrom(ops, answers, node, id))
  {
    hide Engine.Valid, Engine.Coherent, InOrder, StoreOf, TargetsOf, CachedIds, Proper, AllWriteUncached,
      AllNameNewEdges,
      Answers, LogsRun, LeadsTo, ComesFrom, Includes, StoreAfter, TargetsAfter, Adjacent, Performs;
    e := NewStarted(c, hotSize, dataSize, nodeCost, edgeCost, crc);
    NothingStored();
    NothingInOrder();
    answers := PerformAll(e, ops);
    ghost var before := View(e);
    var a := RunGetNeighbors(e, node, direction);
    NeighborsAnswered(c.memtableSize, node, direction, a, before, View(e));
    nodes := a.nodes;
    if AllWriteUncached(ops, EMPTY, NOTHING, c.memtableSize) && AllNameNewEdges(ops, EMPTY, c.memtableSize) {
      forall id
        ensures Includes(nodes, id) <==>
                  || (Outward(direction) && LeadsTo(ops, c.memtableSize, node, id))
                  || (Inward(direction) && ComesFrom(ops, answers, node, id))
      {
        EndsStay(c.memtableSize, ops, answers, node, id);
        NeighborsOfRun(c.memtableSize, ops, answers, node, direction, id);
      }
    }
  }

  lemma NothingInOrder()
    ensures InOrder([])
  {
  }
}
