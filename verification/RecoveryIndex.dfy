/** The adjacency index of a recovered lane: replay drops adjacency errors, so that it can be shorter
    than the one lost. */
module RecoveryIndex {
  import opened Bytes
  import opened Graph
  import opened Serialization
  import opened EdgeList
  import opened Memtable
  import opened Wal
  import opened Lane
  import opened LaneSteps
  import opened LaneReads
  import opened LaneHealth
  import opened LaneRuns
  import opened LaneIndex
  import opened Recovery

  predicate AllListed(redo: seq<Event>) {
    forall k :: 0 <= k < |redo| && redo[k].ReplayedEdge? ==> redo[k].outListed && redo[k].inListed
  }

  /** Every edge is listed at both its ends. */
  predicate AllEdgesWritten(evs: seq<Event>) {
    forall k :: 0 <= k < |evs| ==>
      (evs[k].WroteEdge? ==> evs[k].edgeOut == EdgeWritten)
      && (evs[k].ReplayedEdge? ==> evs[k].outListed && evs[k].inListed)
  }

  lemma {:induction false} SameIds(evs: seq<Event>, redo: seq<Event>, k: nat, node: Bytes)
    requires |redo| == |evs| && k <= |evs| && AllListed(redo) && AllEdgesWritten(evs)
    requires forall j :: 0 <= j < |evs| ==> Redone(evs[j], redo[j])
    ensures OutIds(redo, k, node) == OutIds(evs, k, node) && InIds(redo, k, node) == InIds(evs, k, node)
  {
    if k > 0 {
      SameIds(evs, redo, k - 1, node);
      assert Redone(evs[k - 1], redo[k - 1]);
    }
  }

  /** A dropped adjacency error leaves a list shorter for good. */
  lemma {:induction false} FewerIds(evs: seq<Event>, redo: seq<Event>, k: nat, node: Bytes)
    requires |redo| == |evs| && k <= |evs| && AllEdgesWritten(evs)
    requires forall j :: 0 <= j < |evs| ==> Redone(evs[j], redo[j])
    ensures |OutIds(redo, k, node)| <= |OutIds(evs, k, node)| && |InIds(redo, k, node)| <= |InIds(evs, k, node)|
    ensures forall j :: 0 <= j < k && redo[j].ReplayedEdge? && !redo[j].outListed && redo[j].edge.from == node ==>
              |OutIds(redo, k, node)| < |OutIds(evs, k, node)|
    ensures forall j :: 0 <= j < k && redo[j].ReplayedEdge? && !redo[j].inListed && redo[j].edge.to == node ==>
              |InIds(redo, k, node)| < |InIds(evs, k, node)|
  {
    if k > 0 {
      FewerIds(evs, redo, k - 1, node);
      assert Redone(evs[k - 1], redo[k - 1]);
    }
  }

  /** The recovered lane lists the same edges for every node. */
  ghost predicate SameIndex(l: Lane, l': Lane) {
    forall node :: multiset(Outgoing(l', node)) == multiset(Outgoing(l, node))
                && multiset(Incoming(l', node)) == multiset(Incoming(l, node))
  }

  predicate WellFormedEdges(evs: seq<Event>) {
    forall k :: 0 <= k < |evs| && HasEdge(evs[k]) ==> WellFormedId(evs[k].edge.id)
  }

  lemma {:induction false} IdsWellFormed(evs: seq<Event>, redo: seq<Event>, k: nat, node: Bytes, id: Bytes)
    requires |redo| == |evs| && k <= |evs| && WellFormedEdges(evs)
    requires forall j :: 0 <= j < |evs| ==> Redone(evs[j], redo[j])
    requires id in OutIds(evs, k, node) || id in InIds(evs, k, node) || id in OutIds(redo, k, node) ||
             id in InIds(redo, k, node)
    ensures WellFormedId(id)
  {
    assert k > 0 ==> Redone(evs[k - 1], redo[k - 1]);
    if id in OutIds(evs, k - 1, node) || id in InIds(evs, k - 1, node)
       || id in OutIds(redo, k - 1, node) || id in InIds(redo, k - 1, node) {
      IdsWellFormed(evs, redo, k - 1, node, id);
    }
  }

  /** The adjacency table that listing the first `k` edges in a single table leads to. */
  function AdjTable(evs: seq<Event>, k: nat, maxSize: int): Table
    requires k <= |evs|
  {
    if k == 0 then Fresh(maxSize)
    else
      var t := AdjTable(evs, k - 1, maxSize);
      if HasEdge(evs[k - 1]) then
        var e := evs[k - 1].edge;
        AddToList(AddToList(t, OutKey(e.from), e.id).0, InKey(e.to), e.id).0
      else t
  }

  /** Every edge finds room for both of its list items in that table. */
  predicate IndexFits(evs: seq<Event>, maxSize: int) {
    forall k :: 0 <= k < |evs| && HasEdge(evs[k]) ==> BothRoom(AdjTable(evs, k, maxSize), evs[k].edge)
  }

  /** Whether replaying the `k`-th event lists its edge at the source, and at the target. */
  predicate RelistsOut(evs: seq<Event>, k: nat, maxSize: int)
    requires k < |evs|
  {
    HasEdge(evs[k]) && ListRoom(AdjTable(evs, k, maxSize), OutKey(evs[k].edge.from), evs[k].edge.id)
  }

  predicate RelistsIn(evs: seq<Event>, k: nat, maxSize: int)
    requires k < |evs|
  {
    HasEdge(evs[k]) &&
    var e := evs[k].edge;
    ListRoom(AddToList(AdjTable(evs, k, maxSize), OutKey(e.from), e.id).0, InKey(e.to), e.id)
  }

  /** The edge IDs that replay lists for a node: those which still find room in the single table. */
  function RelistedOut(evs: seq<Event>, k: nat, maxSize: int, node: Bytes): seq<Bytes>
    requires k <= |evs|
  {
    if k == 0 then []
    else RelistedOut(evs, k - 1, maxSize, node)
         + if RelistsOut(evs, k - 1, maxSize) && evs[k - 1].edge.from == node then [evs[k - 1].edge.id] else []
  }

  function RelistedIn(evs: seq<Event>, k: nat, maxSize: int, node: Bytes): seq<Bytes>
    requires k <= |evs|
  {
    if k == 0 then []
    else RelistedIn(evs, k - 1, maxSize, node)
         + if RelistsIn(evs, k - 1, maxSize) && evs[k - 1].edge.to == node then [evs[k - 1].edge.id] else []
  }

  lemma RedoStepAdj(l: Lane, ev: Event, again: Event, l': Lane)
    requires Healthy(l) && Step(l, again, l') && Redone(ev, again) && Applied(again)
    ensures Last(l'.adj) == if HasEdge(ev)
                            then AddToList(AddToList(Last(l.adj), OutKey(ev.edge.from), ev.edge.id).0,
                                           InKey(ev.edge.to), ev.edge.id).0
                            else Last(l.adj)
    ensures HasEdge(ev) ==>
              && again.outListed == ListRoom(Last(l.adj), OutKey(ev.edge.from), ev.edge.id)
              && again.inListed == ListRoom(AddToList(Last(l.adj), OutKey(ev.edge.from), ev.edge.id).0,
                                            InKey(ev.edge.to), ev.edge.id)
  {
    hide EncodesNode, EncodesEdge, Put, ListRoom;
    match again
    case ReplayedNode(n, r) =>
    case ReplayedEdge(e, r, out, inc) =>
      ReplayEdgeHealthy(l, e, l', r, out, inc);
      var stored :| EncodesEdge(stored, e) && (l', r, out, inc) == ReplayEdgeWith(l, e, stored);
  }

  lemma {:induction false} RecoveredAdj(maxSize: int, evs: seq<Event>, redo: seq<Event>, states: seq<Lane>, k: nat)
    requires 0 <= maxSize && Run(maxSize, redo, states) && k <= |redo| == |evs|
    requires forall j :: 0 <= j < |redo| ==> Redone(evs[j], redo[j]) && Applied(redo[j])
    ensures Healthy(states[k]) && Last(states[k].adj) == AdjTable(evs, k, maxSize)
  {
    hide Step, Redone, Applied, AddToList, Healthy;
    if k == 0 {
      NewLaneHealthy(maxSize);
    } else {
      RecoveredAdj(maxSize, evs, redo, states, k - 1);
      assert Redone(evs[k - 1], redo[k - 1]);
      RedoneIsReplay(evs[k - 1], redo[k - 1]);
      RedoKeepsHealthy(states[k - 1], redo[k - 1], states[k]);
      RedoStepAdj(states[k - 1], evs[k - 1], redo[k - 1], states[k]);
    }
  }

  lemma RedoneIsReplay(ev: Event, again: Event)
    requires Redone(ev, again)
    ensures !TouchesNodesOnly(again) && (again.ReplayedEdge? <==> HasEdge(ev))
  {
  }

  /** What replay lists is read back as what the run had listed. */
  ghost predicate ListsAgain(evs: seq<Event>, maxSize: int) {
    var w := Attempts(evs, |evs|);
    forall node ::
      && multiset(AllTokens(RelistedOut(w, |w|, maxSize, node))) == multiset(AllTokens(OutIds(evs, |evs|, node)))
      && multiset(AllTokens(RelistedIn(w, |w|, maxSize, node))) == multiset(AllTokens(InIds(evs, |evs|, node)))
  }

  /** The lane lists what the IDs that replay lists are read back as. */
  ghost predicate HoldsRelisted(l: Lane, evs: seq<Event>, maxSize: int) {
    forall node ::
      && multiset(Outgoing(l, node)) == multiset(AllTokens(RelistedOut(evs, |evs|, maxSize, node)))
      && multiset(Incoming(l, node)) == multiset(AllTokens(RelistedIn(evs, |evs|, maxSize, node)))
  }

  lemma RedoneLists(maxSize: int, evs: seq<Event>, redo: seq<Event>, states: seq<Lane>, k: nat)
    requires 0 <= maxSize && Run(maxSize, redo, states) && k < |redo| == |evs|
    requires forall j :: 0 <= j < |redo| ==> Redone(evs[j], redo[j]) && Applied(redo[j])
    ensures if HasEdge(evs[k]) then redo[k].ReplayedEdge? else redo[k].ReplayedNode?
    ensures HasEdge(evs[k]) ==>
              && redo[k].outListed == RelistsOut(evs, k, maxSize) && redo[k].inListed == RelistsIn(evs, k, maxSize)
              && redo[k].edge.id == evs[k].edge.id
              && redo[k].edge.from == evs[k].edge.from && redo[k].edge.to == evs[k].edge.to
  {
    hide Step, Applied, Healthy, AdjTable, ListRoom, AddToList;
    assert Redone(evs[k], redo[k]);
    RecoveredAdj(maxSize, evs, redo, states, k);
    RedoStepAdj(states[k], evs[k], redo[k], states[k + 1]);
  }

  lemma {:induction false} RelistedIds(maxSize: int, evs: seq<Event>, redo: seq<Event>, states: seq<Lane>, k: nat,
                                       node: Bytes)
    requires 0 <= maxSize && Run(maxSize, redo, states) && k <= |redo| == |evs|
    requires forall j :: 0 <= j < |redo| ==> Redone(evs[j], redo[j]) && Applied(redo[j])
    ensures OutIds(redo, k, node) == RelistedOut(evs, k, maxSize, node)
    ensures InIds(redo, k, node) == RelistedIn(evs, k, maxSize, node)
  {
    hide Run, Redone, Applied, RelistsOut, RelistsIn, ListsOut, ListsIn;
    if k > 0 {
      RelistedIds(maxSize, evs, redo, states, k - 1, node);
      RelistedStep(maxSize, evs, redo, states, k - 1, node);
    }
  }

  lemma RelistedStep(maxSize: int, evs: seq<Event>, redo: seq<Event>, states: seq<Lane>, k: nat, node: Bytes)
    requires 0 <= maxSize && Run(maxSize, redo, states) && k < |redo| == |evs|
    requires forall j :: 0 <= j < |redo| ==> Redone(evs[j], redo[j]) && Applied(redo[j])
    ensures ListsOut(redo[k], node) <==> RelistsOut(evs, k, maxSize) && evs[k].edge.from == node
    ensures ListsIn(redo[k], node) <==> RelistsIn(evs, k, maxSize) && evs[k].edge.to == node
    ensures ListsOut(redo[k], node) || ListsIn(redo[k], node) ==> redo[k].edge.id == evs[k].edge.id
  {
    hide Run, Redone, Applied, ListRoom, AdjTable, AddToList;
    RedoneLists(maxSize, evs, redo, states, k);
  }

  /** Main result on the recovered index: for each node it holds, each as often as listed, what the IDs
      of those edges are read back as that still find room in a single adjacency table, whatever the
      index of the lost lane was. `Recover` returns nil all the same. */
  lemma RecoveredIndexIs(maxSize: int, evs: seq<Event>, entries: seq<Entry>, redo: seq<Event>, restates: seq<Lane>)
    requires 0 <= maxSize && AllAttempted(evs) && AllPayloadsFit(evs) && Logs(entries, evs)
    requires Recovers(maxSize, entries, redo, restates, true)
    ensures HoldsRelisted(restates[|redo|], evs, maxSize)
  {
    hide Step, Outgoing, Incoming, AllAttempted, Applied, Redone, Logs, AllPayloadsFit, AllNodesFit, AllEdgesFit,
      AllAlive, OutIds, InIds, RelistedOut, RelistedIn, AllTokens, Plain;
    RecoveryRedoes(maxSize, evs, entries, redo, restates, true);
    RedoFits(entries, evs, redo);
    forall node
      ensures multiset(Outgoing(restates[|redo|], node)) == multiset(AllTokens(RelistedOut(evs, |evs|, maxSize, node)))
      ensures multiset(Incoming(restates[|redo|], node)) == multiset(AllTokens(RelistedIn(evs, |evs|, maxSize, node)))
    {
      RelistedIds(maxSize, evs, redo, restates, |evs|, node);
      IndexExact(maxSize, redo, restates, |redo|, node);
    }
  }

  /** Replay lists everything exactly when the lists fit one table. */
  lemma AllListedExactly(maxSize: int, evs: seq<Event>, redo: seq<Event>, states: seq<Lane>)
    requires 0 <= maxSize && Run(maxSize, redo, states) && |redo| == |evs|
    requires forall j :: 0 <= j < |redo| ==> Redone(evs[j], redo[j]) && Applied(redo[j])
    ensures AllListed(redo) <==> IndexFits(evs, maxSize)
  {
    hide Step, Redone, Applied, Healthy, AdjTable, ListRoom, AddToList;
    forall k | 0 <= k < |evs|
      ensures redo[k].ReplayedEdge? <==> HasEdge(evs[k])
      ensures HasEdge(evs[k]) ==>
                (redo[k].outListed && redo[k].inListed <==> BothRoom(AdjTable(evs, k, maxSize), evs[k].edge))
    {
      RedoneLists(maxSize, evs, redo, states, k);
    }
  }

  /** The recovered index agrees with the lost one exactly when replay lists what the run had listed;
      for a run that listed every edge at both ends, and well-formed IDs, exactly when all its lists fit
      a single adjacency table. */
  lemma RecoveredIndexAgrees(maxSize: int, evs: seq<Event>, states: seq<Lane>, entries: seq<Entry>,
                             redo: seq<Event>, restates: seq<Lane>)
    requires 0 <= maxSize && Run(maxSize, evs, states) && Recovers(maxSize, entries, redo, restates, true)
    requires Replayable(evs) && Logs(entries, Attempts(evs, |evs|))
    ensures SameIndex(states[|evs|], restates[|redo|]) <==> ListsAgain(evs, maxSize)
    ensures var w := Attempts(evs, |evs|);
            AllEdgesWritten(w) && WellFormedEdges(w) ==> (ListsAgain(evs, maxSize) <==> IndexFits(w, maxSize))
  {
    hide Step, Outgoing, Incoming, NodeFits, EdgeFits, Attempted, Attempts, Applied, Redone, Alive, AllListed,
      WellFormedEdges, AllEdgesWritten, IndexFits, Logs, PayloadFits, OutIds, InIds, RelistedOut, RelistedIn, AllTokens;
    var w := Attempts(evs, |evs|);
    PlainAttempts(evs);
    PayloadsFit(entries, evs);
    RecoveredIndexIs(maxSize, w, entries, redo, restates);
    forall node
      ensures multiset(Outgoing(states[|evs|], node)) == multiset(AllTokens(OutIds(evs, |evs|, node)))
      ensures multiset(Incoming(states[|evs|], node)) == multiset(AllTokens(InIds(evs, |evs|, node)))
    {
      IndexExact(maxSize, evs, states, |evs|, node);
    }
    if AllEdgesWritten(w) && WellFormedEdges(w) {
      RecoveryRedoes(maxSize, w, entries, redo, restates, true);
      ListsAgainExactly(maxSize, evs, redo, restates);
    }
  }

  lemma ListsAgainExactly(maxSize: int, evs: seq<Event>, redo: seq<Event>, restates: seq<Lane>)
    requires var w := Attempts(evs, |evs|);
             && 0 <= maxSize && Run(maxSize, redo, restates) && RedoOf(w, redo, true)
             && AllEdgesWritten(w) && WellFormedEdges(w)
    ensures ListsAgain(evs, maxSize) <==> IndexFits(Attempts(evs, |evs|), maxSize)
  {
    hide Step, Applied, Redone, Attempts, AllListed, WellFormedEdges, AllEdgesWritten, IndexFits, OutIds, InIds,
      RelistedOut, RelistedIn, AllTokens, Unlogged;
    var w := Attempts(evs, |evs|);
    AllListedExactly(maxSize, w, redo, restates);
    if AllListed(redo) {
      forall node
        ensures RelistedOut(w, |w|, maxSize, node) == OutIds(evs, |evs|, node)
        ensures RelistedIn(w, |w|, maxSize, node) == InIds(evs, |evs|, node)
      {
        AttemptsIds(evs, |evs|, node);
        RelistedIds(maxSize, w, redo, restates, |w|, node);
        SameIds(w, redo, |w|, node);
      }
    } else {
      var node := ShorterList(w, redo);
      AttemptsIds(evs, |evs|, node);
      RelistedIds(maxSize, w, redo, restates, |w|, node);
      TokensAreIds(w, redo, node);
      SameMultisetSameLength(OutIds(w, |w|, node), OutIds(redo, |redo|, node));
      SameMultisetSameLength(InIds(w, |w|, node), InIds(redo, |redo|, node));
    }
  }

  /** Well-formed IDs are read back as themselves. */
  lemma TokensAreIds(evs: seq<Event>, redo: seq<Event>, node: Bytes)
    requires |redo| == |evs| && WellFormedEdges(evs) && forall j :: 0 <= j < |evs| ==> Redone(evs[j], redo[j])
    ensures AllTokens(OutIds(evs, |evs|, node)) == OutIds(evs, |evs|, node)
    ensures AllTokens(InIds(evs, |evs|, node)) == InIds(evs, |evs|, node)
    ensures AllTokens(OutIds(redo, |redo|, node)) == OutIds(redo, |redo|, node)
    ensures AllTokens(InIds(redo, |redo|, node)) == InIds(redo, |redo|, node)
  {
    hide OutIds, InIds, Redone, AllTokens, WellFormedId, WellFormedEdges;
    forall id | id in OutIds(evs, |evs|, node) || id in InIds(evs, |evs|, node)
             || id in OutIds(redo, |redo|, node) || id in InIds(redo, |redo|, node)
      ensures WellFormedId(id)
    {
      IdsWellFormed(evs, redo, |evs|, node, id);
    }
    TokensOfWellFormed(OutIds(evs, |evs|, node));
    TokensOfWellFormed(InIds(evs, |evs|, node));
    TokensOfWellFormed(OutIds(redo, |redo|, node));
    TokensOfWellFormed(InIds(redo, |redo|, node));
  }

  lemma ShorterList(evs: seq<Event>, redo: seq<Event>) returns (node: Bytes)
    requires |redo| == |evs| && AllEdgesWritten(evs) && !AllListed(redo)
    requires forall j :: 0 <= j < |evs| ==> Redone(evs[j], redo[j])
    ensures |OutIds(redo, |redo|, node)| < |OutIds(evs, |evs|, node)| ||
            |InIds(redo, |redo|, node)| < |InIds(evs, |evs|, node)|
  {
    hide Redone, AllEdgesWritten;
    var k :| 0 <= k < |redo| && redo[k].ReplayedEdge? && !(redo[k].outListed && redo[k].inListed);
    node := if redo[k].outListed then redo[k].edge.to else redo[k].edge.from;
    FewerIds(evs, redo, |evs|, node);
  }

  lemma SameMultisetSameLength<T>(a: seq<T>, b: seq<T>)
    ensures multiset(a) == multiset(b) ==> |a| == |b|
  {
    assert |multiset(a)| == |a| && |multiset(b)| == |b|;
  }
}
