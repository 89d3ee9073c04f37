/** Many lanes behaving as one map (pkg/storage/engine.go): every node and every edge lives in the
    lane its ID hashes to, and the lanes together answer like a single log of all writes. */
module Sharding {
  import opened Bytes
  import opened Graph
  import opened EdgeList
  import Lane
  import opened LaneSteps
  import opened LaneRuns
  import opened Wal
  import opened Serialization
  import LaneHealth
  import LaneIndex
  import Recovery

  /** The number of lanes, the size of a memtable, and the FNV-1a hash as an arbitrary function. */
  datatype Config = Config(numLanes: nat, memtableSize: int, hash: Bytes -> u32)

  ghost predicate Usable(c: Config) {
    c.numLanes > 0 && 0 < c.memtableSize <= U32
  }

  /** `getWriteLaneForKey`. */
  function Owner(c: Config, id: Bytes): (i: nat)
    requires c.numLanes > 0
    ensures i < c.numLanes
  {
    c.hash(id) % c.numLanes
  }

  /** The lane is what is left of the hash when whole rounds over all lanes are taken off it. */
  lemma OwnerIs(c: Config, id: Bytes, i: nat)
    requires c.numLanes > 0
    ensures i == Owner(c, id) <==> i < c.numLanes && exists q: nat :: c.hash(id) == q * c.numLanes + i
  {
    var h, n := c.hash(id), c.numLanes;
    if i == Owner(c, id) {
      assert h == (h / n) * n + i;
    }
    if i < n && exists q: nat :: h == q * n + i {
      var q: nat :| h == q * n + i;
      QuotientIs(h, n, q, i);
      assert h == (h / n) * n + h % n;
    }
  }

  // ---------- the log of all writes, and what each lane sees of it ----------

  /** A write, or the replay of one from a log file; a replay that found no room lists nothing. */
  predicate IsWrite(ev: Event) {
    || ev.WroteNode? || ev.WroteEdge? || ev.ReplayedNode?
    || (ev.ReplayedEdge? && (ev.put.Stored? || (!ev.outListed && !ev.inListed)))
  }

  function EventId(ev: Event): Bytes
    requires IsWrite(ev)
  {
    if ev.WroteNode? || ev.ReplayedNode? then ev.node.id else ev.edge.id
  }

  type Writes = evs: seq<Event> | forall i :: 0 <= i < |evs| ==> IsWrite(evs[i])

  /** The events of the first `k` that went to lane `i`. */
  function Shard(c: Config, log: Writes, k: nat, i: nat): (r: Writes)
    requires k <= |log| && c.numLanes > 0
  {
    if k == 0 then []
    else Shard(c, log, k - 1, i) + if Owner(c, EventId(log[k - 1])) == i then [log[k - 1]] else []
  }

  lemma {:induction false} ShardPrefix(c: Config, log: Writes, ev: Event, k: nat, i: nat)
    requires k <= |log| && c.numLanes > 0 && IsWrite(ev)
    ensures Shard(c, log + [ev], k, i) == Shard(c, log, k, i)
  {
    if k > 0 {
      ShardPrefix(c, log, ev, k - 1, i);
    }
  }

  lemma ShardSnoc(c: Config, log: Writes, ev: Event, i: nat)
    requires c.numLanes > 0 && IsWrite(ev)
    ensures Shard(c, log + [ev], |log| + 1, i) == Shard(c, log, |log|, i) + if Owner(c, EventId(ev)) == i then [ev]
                                                                            else []
  {
    ShardPrefix(c, log, ev, |log|, i);
  }

  lemma {:induction false} ShardConcat(c: Config, log: Writes, more: Writes, k: nat, i: nat)
    requires c.numLanes > 0 && k <= |more|
    ensures Shard(c, log + more, |log| + k, i) == Shard(c, log, |log|, i) + Shard(c, more, k, i)
  {
    hide Owner, EventId, IsWrite;
    if k == 0 {
      NothingAdded(Shard(c, log, |log|, i));
      ShardOfPrefix(c, log, more, |log|, i);
    } else {
      ShardConcat(c, log, more, k - 1, i);
      assert (log + more)[|log| + k - 1] == more[k - 1];
      Concat3(Shard(c, log, |log|, i), Shard(c, more, k - 1, i),
              if Owner(c, EventId(more[k - 1])) == i then [more[k - 1]] else []);
    }
  }

  lemma {:induction false} ShardOfPrefix(c: Config, log: Writes, more: Writes, k: nat, i: nat)
    requires k <= |log| && c.numLanes > 0
    ensures Shard(c, log + more, k, i) == Shard(c, log, k, i)
  {
    hide Owner, EventId, IsWrite;
    if k > 0 {
      ShardOfPrefix(c, log, more, k - 1, i);
    }
  }

  /** Events of one lane are all of that lane's share and none of another's. */
  lemma {:induction false} ShardOfOne(c: Config, evs: Writes, k: nat, o: nat, i: nat)
    requires c.numLanes > 0 && k <= |evs| && forall j :: 0 <= j < |evs| ==> Owner(c, EventId(evs[j])) == o
    ensures Shard(c, evs, k, i) == if i == o then evs[..k] else []
  {
    hide Owner, EventId, IsWrite;
    if k > 0 {
      ShardOfOne(c, evs, k - 1, o, i);
      SliceSnoc(evs, k - 1);
    }
  }

  /** A lane's events after those of one lane. */
  lemma ShardAfterOne(c: Config, log: Writes, more: Writes, o: nat, i: nat)
    requires c.numLanes > 0 && forall j :: 0 <= j < |more| ==> Owner(c, EventId(more[j])) == o
    ensures Shard(c, log + more, |log + more|, i)
         == if i == o then Shard(c, log, |log|, i) + more else Shard(c, log, |log|, i)
  {
    hide Owner, EventId, IsWrite, Shard;
    ShardConcat(c, log, more, |more|, i);
    ShardOfOne(c, more, |more|, o, i);
    assert more[..|more|] == more;
    NothingAdded(Shard(c, log, |log|, i));
  }

  lemma SetsItsId(ev: Event)
    requires IsWrite(ev)
    ensures NodeSet(ev).Some? ==> NodeSet(ev).value.id == EventId(ev)
    ensures EdgeSet(ev).Some? ==> EdgeSet(ev).value.id == EventId(ev)
  {
  }

  lemma ListsItsId(ev: Event, node: Bytes)
    requires IsWrite(ev) && (ListsOut(ev, node) || ListsIn(ev, node))
    ensures (ev.WroteEdge? || ev.ReplayedEdge?) && EventId(ev) == ev.edge.id && EdgeSet(ev) == Some(NormEdge(ev.edge))
  {
  }

  /** Main result on sharding: a lane knows of an ID what the whole log says if it is the ID's own
      lane, and nothing otherwise. */
  lemma {:induction false} ShardModel(c: Config, log: Writes, k: nat, i: nat, id: Bytes)
    requires k <= |log| && c.numLanes > 0
    ensures var s := Shard(c, log, k, i);
            && Get(NodeModel(s, |s|), id) == (if Owner(c, id) == i then Get(NodeModel(log, k), id) else None)
            && Get(EdgeModel(s, |s|), id) == (if Owner(c, id) == i then Get(EdgeModel(log, k), id) else None)
  {
    hide Owner, NodeSet, EdgeSet, NodeModel, EdgeModel;
    if k == 0 {
      EmptyModels(log);
      EmptyModels([]);
    } else {
      var ev, init := log[k - 1], Shard(c, log, k - 1, i);
      ShardModel(c, log, k - 1, i, id);
      SetsItsId(ev);
      ModelStep(log, k, id);
      NothingAdded(init);
      if Owner(c, EventId(ev)) == i {
        ModelPrefix(init, [ev], |init|);
        ModelStep(init + [ev], |init| + 1, id);
      }
    }
  }

  lemma EmptyModels(evs: seq<Event>)
    ensures NodeModel(evs, 0) == map[] && EdgeModel(evs, 0) == map[]
  {
  }

  lemma ModelStep(evs: seq<Event>, k: nat, id: Bytes)
    requires 0 < k <= |evs|
    ensures var n := NodeSet(evs[k - 1]);
            Get(NodeModel(evs, k), id) == if n.Some? && n.value.id == id then n else Get(NodeModel(evs, k - 1), id)
    ensures var e := EdgeSet(evs[k - 1]);
            Get(EdgeModel(evs, k), id) == if e.Some? && e.value.id == id then e else Get(EdgeModel(evs, k - 1), id)
  {
    hide NodeSet, EdgeSet;
  }

  /** The IDs listed for a node by all lanes together are those the whole log lists. */
  lemma {:induction false} ShardIds(c: Config, log: Writes, k: nat, i: nat, node: Bytes, id: Bytes)
    requires k <= |log| && c.numLanes > 0
    ensures var s := Shard(c, log, k, i);
            && (id in OutIds(s, |s|, node) <==> Owner(c, id) == i && id in OutIds(log, k, node))
            && (id in InIds(s, |s|, node) <==> Owner(c, id) == i && id in InIds(log, k, node))
  {
    hide Owner, ListsOut, ListsIn, OutIds, InIds, IsWrite, EventId;
    if k == 0 {
      NoIds(log, node);
      NoIds([], node);
    } else {
      var ev, init := log[k - 1], Shard(c, log, k - 1, i);
      ShardIds(c, log, k - 1, i, node, id);
      IdsStep(log, k, node, id);
      NothingAdded(init);
      if ListsOut(ev, node) || ListsIn(ev, node) {
        ListsItsId(ev, node);
      }
      if Owner(c, EventId(ev)) == i {
        IdsPrefix(init, [ev], |init|, node);
        IdsStep(init + [ev], |init| + 1, node, id);
      }
    }
  }

  lemma NoIds(evs: seq<Event>, node: Bytes)
    ensures OutIds(evs, 0, node) == [] && InIds(evs, 0, node) == []
  {
  }

  /** The event lists the ID. */
  predicate ListsId(ev: Event, node: Bytes, outgoing: bool, id: Bytes) {
    (if outgoing then ListsOut(ev, node) else ListsIn(ev, node)) && ev.edge.id == id
  }

  lemma IdsStep(evs: seq<Event>, k: nat, node: Bytes, id: Bytes)
    requires 0 < k <= |evs|
    ensures id in OutIds(evs, k, node) <==> id in OutIds(evs, k - 1, node) || ListsId(evs[k - 1], node, true, id)
    ensures id in InIds(evs, k, node) <==> id in InIds(evs, k - 1, node) || ListsId(evs[k - 1], node, false, id)
  {
  }

  // ---------- the lanes ----------

  ghost predicate Reached(maxSize: int, evs: seq<Event>, l: Lane.Lane) {
    exists states :: Run(maxSize, evs, states) && states[|evs|] == l
  }

  /** Every lane is where its share of the log takes it. */
  ghost predicate Sharded(c: Config, log: Writes, lanes: seq<Lane.Lane>) {
    && Usable(c) && |lanes| == c.numLanes
    && forall i :: 0 <= i < |lanes| ==> Reached(c.memtableSize, Shard(c, log, |log|, i), lanes[i])
  }

  lemma LaneRun(c: Config, log: Writes, lanes: seq<Lane.Lane>, i: nat) returns (states: seq<Lane.Lane>)
    requires Sharded(c, log, lanes) && i < |lanes|
    ensures var evs := Shard(c, log, |log|, i);
            && Run(c.memtableSize, evs, states) && |states| == |evs| + 1 && states[|evs|] == lanes[i]
            && Plain(evs) && AllAlive(evs) && AllNodesFit(evs) && AllEdgesFit(evs)
  {
    hide Step;
    var evs := Shard(c, log, |log|, i);
    states :| Run(c.memtableSize, evs, states) && states[|evs|] == lanes[i];
    SmallTablesFit(c.memtableSize, evs, states);
  }

  /** Every lane is running and in good order. */
  lemma LaneIsRunning(c: Config, log: Writes, lanes: seq<Lane.Lane>, i: nat)
    requires Sharded(c, log, lanes) && i < |lanes|
    ensures LaneHealth.Healthy(lanes[i]) && !lanes[i].stopped && lanes[i].maxSize == c.memtableSize
  {
    hide Step, AllAlive, AllNodesFit, AllEdgesFit, LaneHealth.Healthy;
    var states := LaneRun(c, log, lanes, i);
    var evs := Shard(c, log, |log|, i);
    RunHealth(c.memtableSize, evs, states, |evs|);
    RunKeepsRunning(c.memtableSize, evs, states, |evs|);
  }

  lemma NewLanes(c: Config, lanes: seq<Lane.Lane>)
    requires Usable(c) && |lanes| == c.numLanes
    requires forall i :: 0 <= i < |lanes| ==> lanes[i] == Lane.NewLane(c.memtableSize)
    ensures Sharded(c, [], lanes)
  {
    forall i | 0 <= i < |lanes|
      ensures Reached(c.memtableSize, [], lanes[i])
    {
      assert Run(c.memtableSize, [], [lanes[i]]);
    }
  }

  /** A write in its owner's lane keeps the lanes sharded. */
  lemma WriteStaysSharded(c: Config, log: Writes, lanes: seq<Lane.Lane>, ev: Event, l: Lane.Lane)
    requires Sharded(c, log, lanes) && IsWrite(ev) && Step(lanes[Owner(c, EventId(ev))], ev, l)
    ensures Sharded(c, log + [ev], lanes[Owner(c, EventId(ev)) := l])
  {
    hide Step, Owner, Shard, Reached, EventId;
    var o := Owner(c, EventId(ev));
    var after := lanes[o := l];
    forall i | 0 <= i < |after|
      ensures Reached(c.memtableSize, Shard(c, log + [ev], |log| + 1, i), after[i])
    {
      ShardSnoc(c, log, ev, i);
      if i == o {
        ReachedMore(c.memtableSize, Shard(c, log, |log|, i), lanes[i], ev, l);
      } else {
        NothingAdded(Shard(c, log, |log|, i));
      }
    }
  }

  lemma ReachedMore(maxSize: int, evs: seq<Event>, l: Lane.Lane, ev: Event, l': Lane.Lane)
    requires Reached(maxSize, evs, l) && Step(l, ev, l')
    ensures Reached(maxSize, evs + [ev], l')
  {
    hide Step;
    var states :| Run(maxSize, evs, states) && states[|evs|] == l;
    RunSnoc(Lane.NewLane(maxSize), evs, states, ev, l');
    assert (states + [l'])[|evs + [ev]|] == l';
  }

  /** Main result: the lane an ID hashes to reads the last write of that ID, and every other lane
      reads nothing. */
  lemma OwnerReads(c: Config, log: Writes, lanes: seq<Lane.Lane>, i: nat, id: Bytes)
    requires Sharded(c, log, lanes) && i < |lanes|
    ensures Lane.ReadNode(lanes[i], id) == if Owner(c, id) == i then Get(NodeModel(log, |log|), id) else None
    ensures Lane.ReadEdge(lanes[i], id) == if Owner(c, id) == i then Get(EdgeModel(log, |log|), id) else None
  {
    hide Run, Plain, AllAlive, AllNodesFit, AllEdgesFit, NodeModel, EdgeModel, Lane.ReadNode, Lane.ReadEdge;
    var evs := Shard(c, log, |log|, i);
    var states := LaneRun(c, log, lanes, i);
    NodesReadLatest(c.memtableSize, evs, states, |evs|, id);
    EdgesReadLatest(c.memtableSize, evs, states, |evs|, id);
    ShardModel(c, log, |log|, i, id);
  }

  /** A replayed run on one lane keeps the lanes sharded, when the lane owns all its IDs. */
  lemma {:induction false} RedoStaysSharded(c: Config, log: Writes, lanes: seq<Lane.Lane>, i: nat, redo: Writes,
                                            states: seq<Lane.Lane>, k: nat)
    requires Sharded(c, log, lanes) && i < |lanes| && RunFrom(lanes[i], redo, states) && k <= |redo|
    requires forall j :: 0 <= j < |redo| ==> Owner(c, EventId(redo[j])) == i
    ensures Sharded(c, log + redo[..k], lanes[i := states[k]])
  {
    hide Step, Sharded, Owner, EventId;
    if k == 0 {
      NothingAdded(log);
      assert lanes[i := states[0]] == lanes;
    } else {
      RedoStaysSharded(c, log, lanes, i, redo, states, k - 1);
      var before := lanes[i := states[k - 1]];
      WriteStaysSharded(c, log + redo[..k - 1], before, redo[k - 1], states[k]);
      assert before[i := states[k]] == lanes[i := states[k]];
      assert (log + redo[..k - 1]) + [redo[k - 1]] == log + redo[..k];
    }
  }

  // ---------- restarting ----------

  /** The log of lane `i` was written by a lane of the same number: its entries are writes of IDs that
      belong there. */
  predicate Owned(c: Config, i: nat, entries: seq<Entry>)
    requires c.numLanes > 0
  {
    forall k :: 0 <= k < |entries| ==> OwnedEntry(c, i, entries[k])
  }

  predicate OwnedEntry(c: Config, i: nat, entry: Entry)
    requires c.numLanes > 0
  {
    && entry.kind != ENTRY_DELETE
    && (entry.kind == ENTRY_NODE && DecodeNode(entry.value).Some? ==> Owner(c, DecodeNode(entry.value).value.id) == i)
    && (entry.kind == ENTRY_EDGE && DecodeEdge(entry.value).Some? ==> Owner(c, DecodeEdge(entry.value).value.id) == i)
  }

  /** Recovering a lane in state `l` from a log file leads to `l'`. */
  ghost predicate Restored(l: Lane.Lane, crc: Crc, file: Bytes, l': Lane.Lane, ok: bool) {
    exists redo, states, applied ::
      && Recovery.RecoversFrom(l, ReplayOf(crc, file).entries, redo, states, applied)
      && l' == states[|redo|] && ok == (applied && ReplayOf(crc, file).ok)
  }

  /** The events replay all of the entries. */
  predicate ReplaysAll(entries: seq<Entry>, evs: seq<Event>) {
    |evs| == |entries| && forall k :: 0 <= k < |evs| ==>
      Recovery.Replays(entries[k], evs[k]) && Recovery.Applied(evs[k])
  }

  lemma RedoIsOwned(c: Config, i: nat, l: Lane.Lane, entries: seq<Entry>, redo: seq<Event>, states: seq<Lane.Lane>,
                    applied: bool)
    requires c.numLanes > 0 && Owned(c, i, entries) && Recovery.RecoversFrom(l, entries, redo, states, applied)
    ensures forall k :: 0 <= k < |redo| ==> IsWrite(redo[k]) && Owner(c, EventId(redo[k])) == i
  {
    hide Step, Owner, DecodeNode, DecodeEdge, IsWrite, EventId;
    forall k | 0 <= k < |redo|
      ensures IsWrite(redo[k]) && Owner(c, EventId(redo[k])) == i
    {
      ReplayIsWrite(entries[k], states[k], redo[k], states[k + 1]);
    }
  }

  /** The first `n` lanes hold the replay of their files, and the others nothing yet. */
  ghost predicate SharesReplay(c: Config, log: Writes, crc: Crc, files: seq<Bytes>, n: nat)
    requires c.numLanes > 0
  {
    |files| == c.numLanes && forall j :: 0 <= j < c.numLanes ==>
      if j < n then ReplaysAll(ReplayOf(crc, files[j]).entries, Shard(c, log, |log|, j))
      else Shard(c, log, |log|, j) == []
  }

  lemma SharesReplayMore(c: Config, log: Writes, crc: Crc, files: seq<Bytes>, n: nat, redo: Writes)
    requires c.numLanes > n && SharesReplay(c, log, crc, files, n)
    requires ReplaysAll(ReplayOf(crc, files[n]).entries, redo)
    requires forall j :: 0 <= j < |redo| ==> Owner(c, EventId(redo[j])) == n
    ensures SharesReplay(c, log + redo, crc, files, n + 1)
  {
    hide Owner, EventId, IsWrite, Shard, ReplaysAll, ReplayOf;
    NothingAdded(redo);
    forall j | 0 <= j < c.numLanes
      ensures if j < n + 1 then ReplaysAll(ReplayOf(crc, files[j]).entries, Shard(c, log + redo, |log + redo|, j))
              else Shard(c, log + redo, |log + redo|, j) == []
    {
      ShardAfterOne(c, log, redo, n, j);
    }
  }

  lemma NothingShared(c: Config, crc: Crc, files: seq<Bytes>)
    requires |files| == c.numLanes > 0
    ensures SharesReplay(c, [], crc, files, 0)
  {
    hide ReplayOf;
  }

  /** A recovery that succeeds has replayed every entry. */
  lemma AllReplayed(l: Lane.Lane, entries: seq<Entry>, redo: seq<Event>, states: seq<Lane.Lane>)
    requires Recovery.RecoversFrom(l, entries, redo, states, true)
    ensures ReplaysAll(entries, redo)
  {
    hide Step, Recovery.Replays, Recovery.Applied;
  }

  lemma ReplayIsWrite(entry: Entry, l: Lane.Lane, ev: Event, l': Lane.Lane)
    requires Step(l, ev, l') && Recovery.Replays(entry, ev) && entry.kind != ENTRY_DELETE
    ensures IsWrite(ev)
    ensures || (entry.kind == ENTRY_NODE && DecodeNode(entry.value).Some? &&
                EventId(ev) == DecodeNode(entry.value).value.id)
            || (entry.kind == ENTRY_EDGE && DecodeEdge(entry.value).Some? &&
                EventId(ev) == DecodeEdge(entry.value).value.id)
  {
    hide DecodeNode, DecodeEdge, EncodesEdge;
  }

  /** An empty log restores a lane to what it was. */
  lemma NothingRestored(l: Lane.Lane, crc: Crc, l': Lane.Lane, ok: bool)
    requires Restored(l, crc, [], l', ok)
    ensures ok && l' == l && ReplayOf(crc, []).entries == []
  {
    hide Step;
  }

  /** Recovery of one lane keeps the lanes sharded. */
  lemma RecoveryStaysSharded(c: Config, log: Writes, lanes: seq<Lane.Lane>, i: nat, entries: seq<Entry>,
                             redo: seq<Event>,
               states: seq<Lane.Lane>, applied: bool)
    requires Sharded(c, log, lanes) && i < |lanes| && Owned(c, i, entries)
    requires Recovery.RecoversFrom(lanes[i], entries, redo, states, applied)
    ensures |states| == |redo| + 1 && |redo| <= |entries| && forall k :: 0 <= k < |redo| ==> IsWrite(redo[k])
    ensures Sharded(c, log + redo, lanes[i := states[|redo|]])
  {
    hide Owned, Owner, Reached, Shard, Step;
    RedoIsOwned(c, i, lanes[i], entries, redo, states, applied);
    RedoStaysSharded(c, log, lanes, i, redo, states, |redo|);
    assert redo[..|redo|] == redo;
  }

  lemma EmptyLog(crc: Crc)
    ensures ReplayOf(crc, []) == Replayed([], true)
  {
  }

  /** A restart is not seen: when each lane's log file held all its writes and every lane recovers,
      searching the new lanes finds for each ID what was written last before. */
  lemma RestartKeepsReads(c: Config, log: Writes, lanes: seq<Lane.Lane>, log': Writes, lanes': seq<Lane.Lane>,
                          founds: seq<seq<Entry>>, id: Bytes)
    requires Sharded(c, log, lanes) && Sharded(c, log', lanes') && |founds| == c.numLanes
    requires forall i :: 0 <= i < c.numLanes ==>
               RestartsFrom(c, Shard(c, log, |log|, i), founds[i], lanes[i], lanes'[i])
    ensures Get(NodeModel(log', |log'|), id) == Get(NodeModel(log, |log|), id)
    ensures Get(EdgeModel(log', |log'|), id) == Get(EdgeModel(log, |log|), id)
  {
    hide NodeModel, EdgeModel, Lane.ReadNode, Lane.ReadEdge, Owner, Shard, Reached, RestartsFrom, Run, AllAlive,
      AllNodesFit, AllEdgesFit, Plain, IsWrite;
    var i := Owner(c, id);
    OwnerReads(c, log, lanes, i, id);
    OwnerReads(c, log', lanes', i, id);
    var states := LaneRun(c, log, lanes, i);
    LaneRestart(c, Shard(c, log, |log|, i), states, founds[i], lanes[i], lanes'[i], id);
  }

  lemma LaneRestart(c: Config, evs: seq<Event>, states: seq<Lane.Lane>, found: seq<Entry>, l: Lane.Lane, l': Lane.Lane,
                    id: Bytes)
    requires Usable(c) && Run(c.memtableSize, evs, states) && states[|evs|] == l && Plain(evs) &&
             RestartsFrom(c, evs, found, l, l')
    ensures Lane.ReadNode(l', id) == Lane.ReadNode(l, id) && Lane.ReadEdge(l', id) == Lane.ReadEdge(l, id)
  {
    hide Step, Lane.ReadNode, Lane.ReadEdge, Recovery.RecoversFrom, Recovery.AllAttempted, Recovery.AllPayloadsFit,
      Recovery.StartedOn, Recovery.Logs, Recovery.Attempts;
    var redo, restates :|
      Recovery.Recovers(c.memtableSize, found + l.log, redo, restates, true) && |restates| == |redo| + 1 &&
      restates[|redo|] == l';
    Recovery.LogIsComplete(c.memtableSize, found, evs, states);
    Recovery.RecoveredReadsAgree(c.memtableSize, evs, states, found + l.log, redo, restates, id);
  }

  /** The lane had been started on the entries `found`; a new one recovers from those and its log. */
  ghost predicate RestartsFrom(c: Config, evs: seq<Event>, found: seq<Entry>, l: Lane.Lane, l': Lane.Lane) {
    && Recovery.Replayable(evs) && Recovery.StartedOn(found, evs)
    && exists redo, restates ::
         Recovery.Recovers(c.memtableSize, found + l.log, redo, restates, true)
         && |restates| == |redo| + 1 && restates[|redo|] == l'
  }

  // ---------- the lists of all lanes ----------

  /** `t` is read back from an ID of `ids` that belongs to lane `i`. */
  ghost predicate ReadFrom(c: Config, ids: seq<Bytes>, i: nat, t: Bytes)
    requires c.numLanes > 0
  {
    exists id :: id in ids && Owner(c, id) == i && t in Tokens(id)
  }

  function Listed(log: Writes, node: Bytes, outgoing: bool): seq<Bytes> {
    if outgoing then OutIds(log, |log|, node) else InIds(log, |log|, node)
  }

  function LaneList(l: Lane.Lane, node: Bytes, outgoing: bool): seq<Bytes> {
    if outgoing then Lane.Outgoing(l, node) else Lane.Incoming(l, node)
  }

  /** Main result: each lane's lists hold exactly what the IDs that the log lists for the node, and
      that belong to the lane, are read back as. */
  lemma LaneLists(c: Config, log: Writes, lanes: seq<Lane.Lane>, i: nat, node: Bytes, outgoing: bool, t: Bytes)
    requires Sharded(c, log, lanes) && i < |lanes|
    ensures t in LaneList(lanes[i], node, outgoing) <==> ReadFrom(c, Listed(log, node, outgoing), i, t)
  {
    hide Run, Plain, AllAlive, AllNodesFit, AllEdgesFit, OutIds, InIds, Shard, Owner, Tokens, AllTokens,
      Lane.Outgoing, Lane.Incoming;
    var evs := Shard(c, log, |log|, i);
    var states := LaneRun(c, log, lanes, i);
    LaneIndex.IndexExact(c.memtableSize, evs, states, |evs|, node);
    var ids := if outgoing then OutIds(evs, |evs|, node) else InIds(evs, |evs|, node);
    SameMembers(LaneList(lanes[i], node, outgoing), AllTokens(ids), t);
    TokenSources(ids, t);
    forall id
      ensures id in ids <==> Owner(c, id) == i && id in Listed(log, node, outgoing)
    {
      ShardIds(c, log, |log|, i, node, id);
    }
  }

  lemma {:induction false} TokenSources(ids: seq<Bytes>, t: Bytes)
    ensures t in AllTokens(ids) <==> exists id :: id in ids && t in Tokens(id)
  {
    hide Tokens;
    if ids != [] {
      var n := |ids| - 1;
      TokenSources(ids[..n], t);
      assert forall id :: id in ids <==> id in ids[..n] || id == ids[n];
    }
  }

  lemma SameMembers<T>(a: seq<T>, b: seq<T>, x: T)
    requires multiset(a) == multiset(b)
    ensures x in a <==> x in b
  {
    assert x in a <==> x in multiset(a);
    assert x in b <==> x in multiset(b);
  }

  // ---------- what the model says of an ID ----------

  lemma {:induction false} ModelIds(log: Writes, k: nat, id: Bytes)
    requires k <= |log|
    ensures id in NodeModel(log, k) ==> NodeModel(log, k)[id].id == id
    ensures id in EdgeModel(log, k) ==> EdgeModel(log, k)[id].id == id
  {
    if k > 0 {
      ModelIds(log, k - 1, id);
    }
  }

  predicate KeepsEdge(ev: Event) { EdgeSet(ev).Some? }

  /** Every edge that was kept has a well-formed ID. */
  ghost predicate WellFormedWrites(log: Writes) {
    forall k :: 0 <= k < |log| && KeepsEdge(log[k]) ==> WellFormedId(log[k].edge.id)
  }

  /** Every edge that was kept has an ID of its own. */
  ghost predicate FreshEdges(log: Writes) {
    forall i, j :: 0 <= i < j < |log| && KeepsEdge(log[i]) && KeepsEdge(log[j]) ==> log[i].edge.id != log[j].edge.id
  }

  ghost predicate Tidy(log: Writes) {
    FreshEdges(log) && WellFormedWrites(log)
  }

  lemma {:induction false} KeptIsModelled(log: seq<Event>, k: nat, id: Bytes)
    requires k <= |log|
    ensures id in EdgeModel(log, k) <==> exists i :: 0 <= i < k && KeepsEdge(log[i]) && log[i].edge.id == id
  {
    if k > 0 {
      KeptIsModelled(log, k - 1, id);
    }
  }

  /** One more event keeps the log tidy exactly when the edge it keeps, if any, has a new and
      well-formed ID. */
  lemma TidySnoc(log: Writes, ev: Event)
    requires Tidy(log) && IsWrite(ev)
    ensures Tidy(log + [ev])
       <==> (KeepsEdge(ev) ==> WellFormedId(ev.edge.id) && ev.edge.id !in EdgeModel(log, |log|))
  {
    hide EdgeModel, WellFormedId;
    var longer := log + [ev];
    if KeepsEdge(ev) {
      KeptIsModelled(log, |log|, ev.edge.id);
      assert longer[|log|] == ev;
      if ev.edge.id in EdgeModel(log, |log|) {
        var i :| 0 <= i < |log| && KeepsEdge(log[i]) && log[i].edge.id == ev.edge.id;
        assert longer[i] == log[i];
      }
    }
    assert forall i :: 0 <= i < |log| ==> longer[i] == log[i];
  }

  lemma {:induction false} FreshEdgeStays(log: Writes, k: nat, i: nat)
    requires FreshEdges(log) && i < k <= |log| && KeepsEdge(log[i])
    ensures Get(EdgeModel(log, k), log[i].edge.id) == EdgeSet(log[i])
    decreases k
  {
    if i < k - 1 {
      FreshEdgeStays(log, k - 1, i);
    }
  }

  /** `x` is an edge that its writing listed at its source, or target, `node`. */
  ghost predicate IsEdgeOf(log: Writes, node: Bytes, outgoing: bool, x: Edge) {
    exists i :: 0 <= i < |log| && EdgeSet(log[i]) == Some(x)
             && if outgoing then ListsOut(log[i], node) else ListsIn(log[i], node)
  }

  lemma {:induction false} ListedIff(log: Writes, k: nat, node: Bytes, id: Bytes)
    requires k <= |log|
    ensures id in OutIds(log, k, node) <==> exists i :: 0 <= i < k && ListsId(log[i], node, true, id)
    ensures id in InIds(log, k, node) <==> exists i :: 0 <= i < k && ListsId(log[i], node, false, id)
  {
    hide ListsId, OutIds, InIds;
    if k > 0 {
      ListedIff(log, k - 1, node, id);
      IdsStep(log, k, node, id);
    } else {
      NoIds(log, node);
    }
  }

  /** With fresh IDs the listed IDs are those of exactly the edges of the node, and lead to them. */
  lemma ListedEdges(log: Writes, node: Bytes, outgoing: bool, id: Bytes)
    requires FreshEdges(log)
    ensures id in Listed(log, node, outgoing)
       <==> id in EdgeModel(log, |log|) && IsEdgeOf(log, node, outgoing, EdgeModel(log, |log|)[id])
  {
    hide NodeModel, EdgeModel, OutIds, InIds;
    ListedIff(log, |log|, node, id);
    ModelIds(log, |log|, id);
    if id in Listed(log, node, outgoing) {
      var i :| 0 <= i < |log| && ListsId(log[i], node, outgoing, id);
      ListsItsId(log[i], node);
      FreshEdgeStays(log, |log|, i);
    }
    if id in EdgeModel(log, |log|) && IsEdgeOf(log, node, outgoing, EdgeModel(log, |log|)[id]) {
      var i :| 0 <= i < |log| && EdgeSet(log[i]) == Some(EdgeModel(log, |log|)[id])
             && if outgoing then ListsOut(log[i], node) else ListsIn(log[i], node);
      ListsItsId(log[i], node);
      assert ListsId(log[i], node, outgoing, id);
    }
  }

  lemma EdgeIsStored(log: Writes, node: Bytes, outgoing: bool, x: Edge)
    requires FreshEdges(log) && IsEdgeOf(log, node, outgoing, x)
    ensures Get(EdgeModel(log, |log|), x.id) == Some(x)
  {
    hide EdgeModel, ListsOut, ListsIn, EdgeSet;
    var i :| 0 <= i < |log| && EdgeSet(log[i]) == Some(x)
           && if outgoing then ListsOut(log[i], node) else ListsIn(log[i], node);
    ListsItsId(log[i], node);
    FreshEdgeStays(log, |log|, i);
  }

  // ---------- existing ends ----------

  /** Every kept edge runs between nodes that exist. */
  ghost predicate Anchored(log: Writes) {
    forall i :: 0 <= i < |log| && KeepsEdge(log[i]) ==>
      log[i].edge.from in NodeModel(log, |log|) && log[i].edge.to in NodeModel(log, |log|)
  }

  lemma AnchoredSnoc(log: Writes, ev: Event)
    requires Anchored(log) && IsWrite(ev)
    requires KeepsEdge(ev) ==> ev.edge.from in NodeModel(log, |log|) && ev.edge.to in NodeModel(log, |log|)
    ensures Anchored(log + [ev])
  {
    hide NodeModel, EdgeModel, EdgeSet, NodeSet;
    ModelSnoc(log, ev);
    var longer := log + [ev];
    assert forall i :: 0 <= i < |log| ==> longer[i] == log[i];
  }

  lemma EndsExist(log: Writes, node: Bytes, outgoing: bool, x: Edge)
    requires Anchored(log) && IsEdgeOf(log, node, outgoing, x)
    ensures x.from in NodeModel(log, |log|) && x.to in NodeModel(log, |log|)
  {
    hide NodeModel, EdgeModel, ListsOut, ListsIn;
    var i :| 0 <= i < |log| && EdgeSet(log[i]) == Some(x)
           && if outgoing then ListsOut(log[i], node) else ListsIn(log[i], node);
    assert KeepsEdge(log[i]);
  }
}
