/** The adjacency index of a lane against the edges written to it. */
module LaneIndex {
  import opened Bytes
  import opened Graph
  import opened Serialization
  import opened EdgeList
  import opened Memtable
  import opened Wal
  import opened Lane
  import opened LaneSteps
  import opened LaneReads
  import opened LaneHealth
  import opened LaneRuns

  // ---------- every list value ends with a comma ----------

  ghost predicate ClosedTable(t: Table) {
    forall k :: k in t.data && t.data[k].Some? ==> Closed(t.data[k].value)
  }

  ghost predicate ClosedTables(ts: seq<Table>) {
    forall i :: 0 <= i < |ts| ==> ClosedTable(ts[i])
  }

  lemma AddKeepsClosed(l: Lane, key: Bytes, edgeID: Bytes)
    requires Ready(l) && ClosedTables(l.adj)
    ensures ClosedTables(AddInAdj(l, key, edgeID).0.adj)
  {
    var value := ListAt(Last(l.adj), key) + Item(edgeID);
    assert value[|value| - 1] == COMMA;
  }

  lemma RotateKeepsClosed(l: Lane)
    requires Ready(l) && ClosedTables(l.adj)
    ensures ClosedTables(Rotate(l).adj)
  {
  }

  lemma RewriteKeepsClosed(l: Lane, e: Edge, rewritten: Bytes)
    requires Ready(l) && ClosedTables(l.adj)
    ensures ClosedTables(RewriteEdge(l, e, rewritten).0.adj)
  {
    hide ClosedTables, Put;
    var l1 := PutInEdges(l, EdgeKey(e.id), rewritten).0;
    AddKeepsClosed(l1, OutKey(e.from), e.id);
    AddKeepsClosed(AddInAdj(l1, OutKey(e.from), e.id).0, InKey(e.to), e.id);
  }

  lemma IndexKeepsClosed(l: Lane, e: Edge, rewritten: Bytes)
    requires Ready(l) && ClosedTables(l.adj)
    ensures ClosedTables(IndexEdge(l, e, rewritten).0.adj)
  {
    hide ClosedTables, Put, RewriteEdge;
    var l1 := AddInAdj(l, OutKey(e.from), e.id).0;
    AddKeepsClosed(l, OutKey(e.from), e.id);
    var l2 := AddInAdj(l1, InKey(e.to), e.id).0;
    AddKeepsClosed(l1, InKey(e.to), e.id);
    RotateKeepsClosed(l2);
    RotateKeepsClosed(l1);
    RewriteKeepsClosed(Rotate(l1), e, rewritten);
  }

  lemma EdgeWriteKeepsClosed(l: Lane, e: Edge, logged: Bytes, stored: Bytes, retried: Bytes, rewritten: Bytes, now: i64)
    requires Ready(l) && ClosedTables(l.adj)
    ensures ClosedTables(WriteEdgeWith(l, e, logged, stored, retried, rewritten, now).0.adj)
  {
    hide ClosedTables, Put, IndexEdge;
    var l2 := PutInEdges(Logged(l, ENTRY_EDGE, e.id, logged, now), EdgeKey(e.id), stored).0;
    IndexKeepsClosed(l2, e, rewritten);
    RotateKeepsClosed(l2);
    IndexKeepsClosed(PutInEdges(Rotate(l2), EdgeKey(e.id), retried).0, e, rewritten);
  }

  lemma NodeWriteKeepsClosed(l: Lane, n: Node, logged: Bytes, stored: Bytes, retried: Bytes, now: i64)
    requires Ready(l) && ClosedTables(l.adj)
    ensures ClosedTables(WriteNodeWith(l, n, logged, stored, retried, now).0.adj)
  {
    hide ClosedTables, Put;
    var l2 := PutInNodes(Logged(l, ENTRY_NODE, n.id, logged, now), NodeKey(n.id), stored).0;
    RotateKeepsClosed(l2);
    RotateKeepsClosed(PutInNodes(Rotate(l2), NodeKey(n.id), retried).0);
  }

  lemma StepKeepsClosed(l: Lane, ev: Event, l': Lane)
    requires Step(l, ev, l') && ClosedTables(l.adj)
    ensures ClosedTables(l'.adj)
  {
    hide ClosedTables, WriteNodeWith, WriteEdgeWith, AddInAdj, EncodesNode, EncodesEdge;
    match ev
    case WroteNode(n, out) =>
      if !l.stopped && Supported(n.props) {
        var logged, stored, retried, now :|
          EncodesNode(logged, n) && EncodesNode(stored, n) && EncodesNode(retried, n)
          && (l', out) == WriteNodeWith(l, n, logged, stored, retried, now);
        NodeWriteKeepsClosed(l, n, logged, stored, retried, now);
      }
    case WroteEdge(e, out) =>
      if !l.stopped && Supported(e.props) {
        var logged, stored, retried, rewritten, now :|
          EncodesEdge(logged, e) && EncodesEdge(stored, e) && EncodesEdge(retried, e) && EncodesEdge(rewritten, e)
          && (l', out) == WriteEdgeWith(l, e, logged, stored, retried, rewritten, now);
        EdgeWriteKeepsClosed(l, e, logged, stored, retried, rewritten, now);
      }
    case ReplayedNode(n, r) =>
    case ReplayedEdge(e, r, out, inc) =>
      var stored :| EncodesEdge(stored, e) && (l', r, out, inc) == ReplayEdgeWith(l, e, stored);
      var l1 := PutInEdges(l, EdgeKey(e.id), stored).0;
      AddKeepsClosed(l1, OutKey(e.from), e.id);
      AddKeepsClosed(AddInAdj(l1, OutKey(e.from), e.id).0, InKey(e.to), e.id);
    case ReplayedDelete(_) =>
    case RemovedOld(_) =>
  }

  lemma {:induction false} RunKeepsClosed(maxSize: int, evs: seq<Event>, states: seq<Lane>, k: nat)
    requires Run(maxSize, evs, states) && k <= |evs|
    ensures ClosedTables(states[k].adj)
  {
    hide Step;
    if k > 0 {
      RunKeepsClosed(maxSize, evs, states, k - 1);
      StepKeepsClosed(states[k - 1], evs[k - 1], states[k]);
    }
  }

  // ---------- reading the index ----------

  lemma {:induction false} ListToClosed(ts: seq<Table>, n: nat, key: Bytes)
    requires n <= |ts| && ClosedTables(ts)
    ensures Closed(ListTo(ts, n, key))
  {
    if n > 0 {
      ListToClosed(ts, n - 1, key);
      assert Closed(ListAt(ts[n - 1], key));
      ClosedConcat(ListTo(ts, n - 1, key), ListAt(ts[n - 1], key));
    }
  }

  lemma ClosedConcat(a: Bytes, b: Bytes)
    requires Closed(a) && Closed(b)
    ensures Closed(a + b)
  {
    NothingAdded(a);
    if b != [] {
      assert (a + b)[|a + b| - 1] == b[|b| - 1];
    }
  }

  /** Reading table by table, newest first, gives a permutation of parsing all the values at once. */
  lemma {:induction false} EdgesAtParses(ts: seq<Table>, n: nat, key: Bytes)
    requires n <= |ts| && ClosedTables(ts)
    ensures multiset(EdgesAt(ts, n, key)) == multiset(ParseEdgeList(ListTo(ts, n, key)))
  {
    hide ParseEdgeList, ClosedTables, ListAt;
    ParseEmpty();
    if n > 0 {
      EdgesAtParses(ts, n - 1, key);
      ListToClosed(ts, n - 1, key);
      ParseConcat(ListTo(ts, n - 1, key), ListAt(ts[n - 1], key));
      SwapParts(ParseEdgeList(ListAt(ts[n - 1], key)), EdgesAt(ts, n - 1, key), ParseEdgeList(ListTo(ts, n - 1, key)));
    }
  }

  lemma ParseEmpty()
    ensures ParseEdgeList([]) == []
  {
  }

  lemma SwapParts<T>(a: seq<T>, b: seq<T>, c: seq<T>)
    requires multiset(b) == multiset(c)
    ensures multiset(a + b) == multiset(c + a)
  {
  }

  /** Main result: in every reachable state, `GetOutgoingEdges(node)` returns, up to order, what the
      IDs of exactly the edges listed under source `node` parse to; dually for incoming. Rotations,
      rewritten edges, failed writes and replay neither lose nor duplicate an ID. */
  lemma IndexExact(maxSize: int, evs: seq<Event>, states: seq<Lane>, k: nat, node: Bytes)
    requires 0 <= maxSize && Run(maxSize, evs, states) && k <= |evs| && AllAlive(evs) && AllEdgesFit(evs)
    ensures multiset(Outgoing(states[k], node)) == multiset(AllTokens(OutIds(evs, k, node)))
    ensures multiset(Incoming(states[k], node)) == multiset(AllTokens(InIds(evs, k, node)))
  {
    hide Step, ClosedTables, EdgesAt;
    var l := states[k];
    RunKeepsClosed(maxSize, evs, states, k);
    ListsExact(maxSize, evs, states, k, node);
    EdgesAtParses(l.adj, |l.adj|, OutKey(node));
    EdgesAtParses(l.adj, |l.adj|, InKey(node));
    ParseJoined(OutIds(evs, k, node));
    ParseJoined(InIds(evs, k, node));
  }

  /** With well-formed IDs the index returns the IDs themselves, each as often as it was listed. */
  lemma IndexOfWellFormed(maxSize: int, evs: seq<Event>, states: seq<Lane>, k: nat, node: Bytes)
    requires 0 <= maxSize && Run(maxSize, evs, states) && k <= |evs| && AllAlive(evs) && AllEdgesFit(evs)
    requires forall id :: id in OutIds(evs, k, node) || id in InIds(evs, k, node) ==> WellFormedId(id)
    ensures multiset(Outgoing(states[k], node)) == multiset(OutIds(evs, k, node))
    ensures multiset(Incoming(states[k], node)) == multiset(InIds(evs, k, node))
  {
    hide Run;
    IndexExact(maxSize, evs, states, k, node);
    TokensOfWellFormed(OutIds(evs, k, node));
    TokensOfWellFormed(InIds(evs, k, node));
  }

  // ---------- no dangling edge ----------

  lemma {:induction false} ListedIsKept(evs: seq<Event>, k: nat, node: Bytes, id: Bytes)
    requires k <= |evs| && (id in OutIds(evs, k, node) || id in InIds(evs, k, node))
    requires forall i :: 0 <= i < |evs| && evs[i].ReplayedEdge? && !evs[i].put.Stored? ==>
               !evs[i].outListed && !evs[i].inListed
    ensures id in EdgeModel(evs, k)
  {
    var ev := evs[k - 1];
    if id in OutIds(evs, k - 1, node) || id in InIds(evs, k - 1, node) {
      ListedIsKept(evs, k - 1, node, id);
    } else {
      assert ListsOut(ev, node) || ListsIn(ev, node);
    }
  }

  lemma {:induction false} TokenSource(ids: seq<Bytes>, t: Bytes) returns (id: Bytes)
    requires t in AllTokens(ids)
    ensures id in ids && t in Tokens(id)
  {
    var last := ids[|ids| - 1];
    if t in Tokens(last) {
      id := last;
    } else {
      id := TokenSource(ids[..|ids| - 1], t);
    }
  }

  lemma UnstoredIsUnlisted(maxSize: int, evs: seq<Event>, states: seq<Lane>)
    requires 0 <= maxSize && Run(maxSize, evs, states)
    ensures forall i :: 0 <= i < |evs| && evs[i].ReplayedEdge? && !evs[i].put.Stored? ==>
              !evs[i].outListed && !evs[i].inListed
  {
    forall i | 0 <= i < |evs| && evs[i].ReplayedEdge? && !evs[i].put.Stored?
      ensures !evs[i].outListed && !evs[i].inListed
    {
      RunHealth(maxSize, evs, states, i);
      ReplayedOutcome(states[i], evs[i], states[i + 1]);
    }
  }

  lemma ReplayedOutcome(l: Lane, ev: Event, l': Lane)
    requires EdgesHealthy(l) && Step(l, ev, l') && ev.ReplayedEdge? && !ev.put.Stored?
    ensures !ev.outListed && !ev.inListed
  {
    ReplayEdgeHealthy(l, ev.edge, l', ev.put, ev.outListed, ev.inListed);
  }

  /** Main result: no entry of the index dangles. In every reachable state, also after failed writes,
      replay and removed tables, each returned ID comes from a listed edge that `ReadEdge` finds;
      when the IDs are well formed it is that edge's own ID. */
  lemma NoDanglingEdge(maxSize: int, evs: seq<Event>, states: seq<Lane>, k: nat, node: Bytes, t: Bytes)
    returns (id: Bytes)
    requires 0 <= maxSize && Run(maxSize, evs, states) && k <= |evs| && AllAlive(evs) && AllEdgesFit(evs)
    requires t in Outgoing(states[k], node) || t in Incoming(states[k], node)
    ensures t in Tokens(id) && ReadEdge(states[k], id).Some?
    ensures WellFormedId(id) ==> t == id
  {
    hide Step, EdgesAt, ReadEdge, Outgoing, Incoming;
    IndexExact(maxSize, evs, states, k, node);
    if t in Outgoing(states[k], node) {
      assert t in multiset(Outgoing(states[k], node));
      id := TokenSource(OutIds(evs, k, node), t);
    } else {
      assert t in multiset(Incoming(states[k], node));
      id := TokenSource(InIds(evs, k, node), t);
    }
    UnstoredIsUnlisted(maxSize, evs, states);
    ListedIsKept(evs, k, node, id);
    EdgesReadLatest(maxSize, evs, states, k, id);
    TokensOfId(id);
  }
}
