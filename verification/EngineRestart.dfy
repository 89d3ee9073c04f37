/** Stopping an engine and starting another one on its log files. */
module EngineRestart {
  import opened Bytes
  import opened Graph
  import opened EdgeList
  import opened Serialization
  import opened Lru
  import Lane
  import opened LaneSteps
  import opened LaneHealth
  import opened LaneRuns
  import opened Recovery
  import opened RecoveryIndex
  import opened Sharding
  import opened EngineReads
  import opened Engine
  import opened GraphStore
  import opened EngineRuns
  import Wal

  // ---------- where an engine started ----------

  /** The file of each lane held the records of `entries` when it was opened; the lane replayed them all
      and has only taken writes since. */
  ghost predicate StartedFrom(c: Config, crc: Wal.Crc, log: Writes, founds: seq<Bytes>, entries: seq<seq<Wal.Entry>>)
    requires c.numLanes > 0
  {
    |founds| == |entries| == c.numLanes && forall i :: 0 <= i < c.numLanes ==>
      && founds[i] == Wal.Log(crc, entries[i]) && Wal.AllFit(entries[i])
      && LaneStartedFrom(entries[i], Shard(c, log, |log|, i))
  }

  ghost predicate LaneStartedFrom(entries: seq<Wal.Entry>, evs: seq<Event>) {
    && |entries| <= |evs|
    && (forall k :: 0 <= k < |entries| ==> Replays(entries[k], evs[k]) && Applied(evs[k]) && !evs[k].ReplayedDelete?)
    && (forall k :: |entries| <= k < |evs| ==> evs[k].WroteNode? || evs[k].WroteEdge?)
  }

  lemma SharesAreStarted(c: Config, crc: Wal.Crc, log: Writes, files: seq<Bytes>, entries: seq<seq<Wal.Entry>>)
    requires c.numLanes > 0 && SharesReplay(c, log, crc, files, c.numLanes) && |entries| == c.numLanes
    requires forall i :: 0 <= i < c.numLanes ==> files[i] == Wal.Log(crc, entries[i]) && Wal.AllFit(entries[i])
    ensures StartedFrom(c, crc, log, files, entries)
  {
    hide Wal.Log, Wal.ReplayOf, Wal.AllFit, Shard, Replays;
    forall i | 0 <= i < c.numLanes
      ensures LaneStartedFrom(entries[i], Shard(c, log, |log|, i))
    {
      Wal.WholeLogReplays(crc, entries[i]);
      assert ReplaysAll(entries[i], Shard(c, log, |log|, i));
    }
  }

  /** A new engine on empty files has started from nothing. */
  lemma NewIsStarted(c: Config, crc: Wal.Crc, founds: seq<Bytes>, entries: seq<seq<Wal.Entry>>)
    requires c.numLanes > 0 && |founds| == |entries| == c.numLanes
    requires forall i :: 0 <= i < c.numLanes ==> founds[i] == [] && entries[i] == []
    ensures StartedFrom(c, crc, [], founds, entries) && AllStorable([])
  {
  }

  /** Writes leave that as it is. */
  lemma StartedStays(c: Config, crc: Wal.Crc, log: Writes, more: Writes, founds: seq<Bytes>,
                     entries: seq<seq<Wal.Entry>>)
    requires c.numLanes > 0 && StartedFrom(c, crc, log, founds, entries)
    requires forall k :: 0 <= k < |more| ==> more[k].WroteNode? || more[k].WroteEdge?
    ensures StartedFrom(c, crc, log + more, founds, entries)
  {
    hide Wal.Log, Wal.AllFit, Shard, Replays, Applied, IsWrite;
    forall i | 0 <= i < c.numLanes
      ensures LaneStartedFrom(entries[i], Shard(c, log + more, |log + more|, i))
    {
      ShardConcat(c, log, more, |more|, i);
      forall k | 0 <= k < |Shard(c, more, |more|, i)|
        ensures Shard(c, more, |more|, i)[k].WroteNode? || Shard(c, more, |more|, i)[k].WroteEdge?
      {
        var j := ShardFrom(c, more, |more|, i, k);
      }
    }
  }

  lemma {:induction false} ShardFrom(c: Config, log: Writes, n: nat, i: nat, k: nat) returns (j: nat)
    requires c.numLanes > 0 && n <= |log| && k < |Shard(c, log, n, i)|
    ensures j < n && Shard(c, log, n, i)[k] == log[j] && Owner(c, EventId(log[j])) == i
  {
    hide Owner, EventId, IsWrite;
    if k < |Shard(c, log, n - 1, i)| {
      j := ShardFrom(c, log, n - 1, i, k);
    } else {
      j := n - 1;
    }
  }

  /** So does any run of operations. */
  lemma RunStaysStarted(c: Config, crc: Wal.Crc, ops: seq<Op>, answers: seq<Answer>, before: Writes, after: Writes,
                        founds: seq<Bytes>, entries: seq<seq<Wal.Entry>>)
    requires c.numLanes > 0 && StartedFrom(c, crc, before, founds, entries)
    requires |answers| <= |ops| && LogsRun(ops, answers, before, after)
    ensures StartedFrom(c, crc, after, founds, entries)
  {
    hide StartedFrom, LoggedAs;
    var outs :| LogsAs(ops, answers, outs) && after == before + Logged(outs, |outs|);
    LoggedWrites(ops, answers, outs, |outs|);
    StartedStays(c, crc, before, Logged(outs, |outs|), founds, entries);
  }

  lemma {:induction false} LoggedWrites(ops: seq<Op>, answers: seq<Answer>, outs: seq<Option<Event>>, n: nat)
    requires |answers| <= |ops| && LogsAs(ops, answers, outs) && n <= |outs|
    ensures forall k :: 0 <= k < |Logged(outs, n)| ==> Logged(outs, n)[k].WroteNode? || Logged(outs, n)[k].WroteEdge?
  {
    if n > 0 {
      LoggedWrites(ops, answers, outs, n - 1);
      assert LoggedAs(ops[n - 1], answers[n - 1], outs[n - 1]);
    }
  }

  // ---------- what a lane has in its file ----------

  lemma NothingCrashed(maxSize: int, evs: seq<Event>, states: seq<Lane.Lane>, k: nat)
    requires 0 <= maxSize && Run(maxSize, evs, states) && Plain(evs) && k < |evs|
    requires evs[k].WroteNode? || evs[k].WroteEdge? || Applied(evs[k])
    ensures Unlogged(evs[k]) || Attempted(evs[k])
  {
    hide Step;
    RunHealth(maxSize, evs, states, k);
    StepHealth(states[k], evs[k], states[k + 1]);
  }

  lemma LaneAttempts(maxSize: int, entries: seq<Wal.Entry>, evs: seq<Event>, states: seq<Lane.Lane>)
    requires 0 <= maxSize && Run(maxSize, evs, states) && Plain(evs) && LaneStartedFrom(entries, evs)
    ensures AllAttempted(Attempts(evs, |evs|)) && StartedOn(entries, evs)
    ensures Logs(entries + states[|evs|].log, Attempts(evs, |evs|))
  {
    hide Step, Unlogged, Attempted, Attempts, Applied, Logs, Replays;
    forall j | 0 <= j < |Attempts(evs, |evs|)|
      ensures Attempted(Attempts(evs, |evs|)[j])
    {
      var k := AttemptFrom(evs, |evs|, j);
      NothingCrashed(maxSize, evs, states, k);
    }
    forall k | 0 <= k < |entries|
      ensures evs[k].ReplayedNode? || evs[k].ReplayedEdge?
    {
      ReplayKinds(entries[k], evs[k]);
    }
    LogIsComplete(maxSize, entries, evs, states);
  }

  lemma ReplayKinds(entry: Wal.Entry, ev: Event)
    requires Replays(entry, ev)
    ensures ev.ReplayedNode? || ev.ReplayedEdge? || ev.ReplayedDelete?
  {
  }

  /** Each entry a lane appended comes from a write of the run. */
  lemma {:induction false} OwnEntries(maxSize: int, found: seq<Wal.Entry>, evs: seq<Event>, states: seq<Lane.Lane>,
                                      n: nat, j: nat) returns (k: nat)
    requires Run(maxSize, evs, states) && n <= |evs| && StartedOn(found, evs) && j < |states[n].log|
    requires forall k :: 0 <= k < |evs| ==> Unlogged(evs[k]) || Attempted(evs[k])
    ensures k < n && !Unlogged(evs[k]) && EntryOf(states[n].log[j], evs[k])
    ensures evs[k].WroteNode? || evs[k].WroteEdge?
  {
    hide Step, Unlogged, Attempted, EntryOf, Replays;
    if n <= |found| {
      FoundAtStart(found, evs, n - 1);
      ReplayLogsNothing(states[n - 1], evs[n - 1], states[n]);
      k := OwnEntries(maxSize, found, evs, states, n - 1, j);
    } else {
      SinceStart(found, evs, n - 1);
      var entries := WriteLogStep(states[n - 1], evs[n - 1], states[n]);
      if j < |states[n - 1].log| {
        k := OwnEntries(maxSize, found, evs, states, n - 1, j);
      } else {
        k := n - 1;
        RemovalIsUnlogged(evs[k]);
      }
    }
  }

  lemma RemovalIsUnlogged(ev: Event)
    ensures ev.RemovedOld? ==> Unlogged(ev)
  {
  }

  lemma EntryFitsLog(entry: Wal.Entry, ev: Event)
    requires EntryOf(entry, ev) && (ev.WroteNode? || ev.WroteEdge?) && Attempted(ev) && Storable(ev)
    ensures Wal.FitsEntry(entry) && PayloadFits(ev)
  {
    hide EncodesNode, EncodesEdge, NodeSize, EdgeSize;
    if ev.WroteNode? {
      NodeLength(entry.value, ev.node);
      ShortNodeFits(entry.value, ev.node);
    } else {
      EdgeLength(entry.value, ev.edge);
      ShortEdgeFits(entry.value, ev.edge);
    }
  }

  /** The lane's own entries are short enough for the log, and what it logged can be decoded again. */
  lemma LaneStorable(maxSize: int, entries: seq<Wal.Entry>, evs: seq<Event>, states: seq<Lane.Lane>)
    requires 0 <= maxSize && Run(maxSize, evs, states) && Plain(evs) && LaneStartedFrom(entries, evs)
    requires AllStorable(evs)
    ensures Wal.AllFit(states[|evs|].log) && AllPayloadsFit(Attempts(evs, |evs|))
  {
    hide Step, Unlogged, Attempted, Attempts, Replays, EntryOf, Storable, PayloadFits, Wal.FitsEntry, LaneStartedFrom;
    LaneAttempts(maxSize, entries, evs, states);
    PlainAttempts(evs);
    var log, w := states[|evs|].log, Attempts(evs, |evs|);
    forall j | 0 <= j < |log|
      ensures Wal.FitsEntry(log[j])
    {
      var k := OwnEntries(maxSize, entries, evs, states, |evs|, j);
      EntryFitsLog(log[j], evs[k]);
    }
    forall j | 0 <= j < |w|
      ensures PayloadFits(w[j])
    {
      var k := AttemptFrom(evs, |evs|, j);
      LoggedFits((entries + log)[j], w[j]);
    }
  }

  lemma LoggedFits(entry: Wal.Entry, ev: Event)
    requires EntryOf(entry, ev) && Attempted(ev) && Storable(ev)
    ensures PayloadFits(ev)
  {
    hide EntryOf, Storable, FitsNode, FitsEdge;
    if ev.WroteNode? || ev.WroteEdge? {
      EntryFitsLog(entry, ev);
    }
  }

  /** Its entries are writes of IDs that belong to the lane. */
  lemma LaneOwned(c: Config, log: Writes, i: nat, entries: seq<Wal.Entry>)
    requires c.numLanes > 0 && Logs(entries, Attempts(Shard(c, log, |log|, i), |Shard(c, log, |log|, i)|))
    requires Replayable(Shard(c, log, |log|, i))
    ensures Owned(c, i, entries)
  {
    hide Unlogged, Attempted, Attempts, EntryOf, PayloadFits, Shard, Owner, EventId, IsWrite, OwnedEntry;
    var evs := Shard(c, log, |log|, i);
    var w := Attempts(evs, |evs|);
    forall k | 0 <= k < |entries|
      ensures OwnedEntry(c, i, entries[k])
    {
      var j := AttemptFrom(evs, |evs|, k);
      var n := ShardFrom(c, log, |log|, i, j);
      EntryOwned(c, i, entries[k], w[k]);
    }
  }

  lemma EntryOwned(c: Config, i: nat, entry: Wal.Entry, ev: Event)
    requires c.numLanes > 0 && EntryOf(entry, ev) && Attempted(ev) && PayloadFits(ev)
    requires IsWrite(ev) && Owner(c, EventId(ev)) == i
    ensures OwnedEntry(c, i, entry)
  {
    hide EntryOf, DecodeNode, DecodeEdge, PayloadFits, FitsNode, FitsEdge, Owner;
    EntryDecodes(entry, ev);
  }

  /** The file that a lane leaves when it stops, and what a lane opened on it needs to recover. */
  lemma LaneFile(c: Config, crc: Wal.Crc, log: Writes, lanes: seq<Lane.Lane>, founds: seq<Bytes>,
                 entries: seq<seq<Wal.Entry>>, i: nat)
    requires Sharded(c, log, lanes) && StartedFrom(c, crc, log, founds, entries) && i < c.numLanes
    requires AllStorable(log)
    ensures var evs, all := Shard(c, log, |log|, i), entries[i] + lanes[i].log;
            && Replayable(evs) && StartedOn(entries[i], evs) && Logs(all, Attempts(evs, |evs|))
            && Wal.AllFit(all) && Owned(c, i, all) && founds[i] + Wal.Log(crc, lanes[i].log) == Wal.Log(crc, all)
            && Wal.ReplayOf(crc, Wal.Log(crc, all)) == Wal.Replayed(all, true)
  {
    hide Run, Storable, LaneStartedFrom, Attempts, AllAttempted, AllPayloadsFit, Logs, Owned, Shard, Owner, EventId,
      IsWrite, Wal.Log, Wal.ReplayOf, Wal.FitsEntry, StartedOn, AllAlive, AllNodesFit, AllEdgesFit;
    var evs := Shard(c, log, |log|, i);
    var states := LaneRun(c, log, lanes, i);
    forall k | 0 <= k < |evs|
      ensures Storable(evs[k])
    {
      var j := ShardFrom(c, log, |log|, i, k);
    }
    LaneAttempts(c.memtableSize, entries[i], evs, states);
    LaneStorable(c.memtableSize, entries[i], evs, states);
    LaneOwned(c, log, i, entries[i] + lanes[i].log);
    Wal.LogAppend(crc, entries[i], lanes[i].log);
    Wal.WholeLogReplays(crc, entries[i] + lanes[i].log);
  }

  // ---------- restarting ----------

  /** Recovering a new lane from such a file succeeds exactly when all that was logged fits one table of
      each kind. */
  lemma LaneRestored(maxSize: int, evs: seq<Event>, all: seq<Wal.Entry>, crc: Wal.Crc, file: Bytes, l: Lane.Lane,
                     ok: bool)
    requires 0 <= maxSize && Replayable(evs) && Logs(all, Attempts(evs, |evs|))
    requires Wal.ReplayOf(crc, file) == Wal.Replayed(all, true) && Restored(Lane.NewLane(maxSize), crc, file, l, ok)
    ensures ok <==> FitsOneTable(Attempts(evs, |evs|), maxSize)
    ensures ok ==> exists redo, restates :: Recovers(maxSize, all, redo, restates, true)
                                         && |restates| == |redo| + 1 && restates[|redo|] == l
  {
    hide Step, Wal.ReplayOf, Logs, Attempts, FitsOneTable, AllAttempted, AllPayloadsFit, Replays, Applied, Decodable;
    var redo, states, applied :|
      && RecoversFrom(Lane.NewLane(maxSize), Wal.ReplayOf(crc, file).entries, redo, states, applied)
      && l == states[|redo|] && ok == (applied && Wal.ReplayOf(crc, file).ok);
    RecoverSucceedsExactly(maxSize, Attempts(evs, |evs|), all, redo, states, applied);
  }

  /** Everything each lane has logged fits one table of each kind. */
  ghost predicate AllSharesFit(c: Config, log: Writes)
    requires c.numLanes > 0
  {
    forall i :: 0 <= i < c.numLanes ==>
      FitsOneTable(Attempts(Shard(c, log, |log|, i), |Shard(c, log, |log|, i)|), c.memtableSize)
  }

  function EntriesNow(entries: seq<seq<Wal.Entry>>, lanes: seq<Lane.Lane>): (r: seq<seq<Wal.Entry>>)
    requires |entries| == |lanes|
    ensures |r| == |entries| && forall i :: 0 <= i < |r| ==> r[i] == entries[i] + lanes[i].log
  {
    seq(|entries|, i requires 0 <= i < |entries| => entries[i] + lanes[i].log)
  }

  /** What stopping leaves on the disk. */
  ghost predicate LeftBehind(crc: Wal.Crc, founds: seq<Bytes>, lanes: seq<Lane.Lane>, disks: seq<Bytes>) {
    |disks| == |founds| == |lanes| && forall i :: 0 <= i < |disks| ==>
      disks[i] == founds[i] + Wal.Log(crc, lanes[i].log)
  }

  lemma DisksAre(c: Config, crc: Wal.Crc, log: Writes, lanes: seq<Lane.Lane>, founds: seq<Bytes>,
                 entries: seq<seq<Wal.Entry>>, disks: seq<Bytes>)
    requires Sharded(c, log, lanes) && StartedFrom(c, crc, log, founds, entries)
    requires LeftBehind(crc, founds, lanes, disks) && AllStorable(log)
    ensures |disks| == c.numLanes == |entries| == |lanes| && forall i :: 0 <= i < c.numLanes ==>
              var all := EntriesNow(entries, lanes)[i];
              && disks[i] == Wal.Log(crc, all) && Wal.AllFit(all) && Owned(c, i, all)
              && Wal.ReplayOf(crc, disks[i]) == Wal.Replayed(all, true)
  {
    hide Reached, Storable, LaneStartedFrom, Replayable, StartedOn, Logs, Attempts, Wal.Log, Wal.ReplayOf, Wal.AllFit,
      Owned, Shard, IsWrite;
    forall i | 0 <= i < c.numLanes
      ensures var all := EntriesNow(entries, lanes)[i];
              && disks[i] == Wal.Log(crc, all) && Wal.AllFit(all) && Owned(c, i, all)
              && Wal.ReplayOf(crc, disks[i]) == Wal.Replayed(all, true)
    {
      LaneFile(c, crc, log, lanes, founds, entries, i);
    }
  }

  lemma AllRestored(c: Config, crc: Wal.Crc, log: Writes, lanes: seq<Lane.Lane>, founds: seq<Bytes>,
                    entries: seq<seq<Wal.Entry>>, disks: seq<Bytes>, i: nat, l: Lane.Lane, ok: bool)
    requires Sharded(c, log, lanes) && StartedFrom(c, crc, log, founds, entries)
    requires LeftBehind(crc, founds, lanes, disks) && AllStorable(log)
    requires i < c.numLanes && Restored(Lane.NewLane(c.memtableSize), crc, disks[i], l, ok)
    ensures ok <==> FitsOneTable(Attempts(Shard(c, log, |log|, i), |Shard(c, log, |log|, i)|), c.memtableSize)
    ensures ok ==> RestartsFrom(c, Shard(c, log, |log|, i), entries[i], lanes[i], l)
  {
    hide Reached, Storable, LaneStartedFrom, Replayable, StartedOn, Logs, Attempts, Wal.Log, Wal.ReplayOf, Wal.AllFit,
      Owned, Shard, IsWrite, Restored, FitsOneTable, RecoversFrom;
    LaneFile(c, crc, log, lanes, founds, entries, i);
    LaneRestored(c.memtableSize, Shard(c, log, |log|, i), entries[i] + lanes[i].log, crc, disks[i], l, ok);
  }

  lemma SameMap<V>(a: map<Bytes, V>, b: map<Bytes, V>)
    requires forall id :: Get(a, id) == Get(b, id)
    ensures a == b
  {
    forall id
      ensures id in a <==> id in b
      ensures id in a ==> a[id] == b[id]
    {
      assert Get(a, id) == Get(b, id);
    }
  }

  lemma SameModelsAfter(c: Config, crc: Wal.Crc, log: Writes, lanes: seq<Lane.Lane>, log': Writes,
                        lanes': seq<Lane.Lane>, entries: seq<seq<Wal.Entry>>)
    requires Sharded(c, log, lanes) && Sharded(c, log', lanes') && |entries| == c.numLanes
    requires forall i :: 0 <= i < c.numLanes ==>
               RestartsFrom(c, Shard(c, log, |log|, i), entries[i], lanes[i], lanes'[i])
    ensures NodeModel(log', |log'|) == NodeModel(log, |log|) && EdgeModel(log', |log'|) == EdgeModel(log, |log|)
  {
    hide Sharded, Shard, RestartsFrom, NodeModel, EdgeModel, IsWrite;
    forall id
      ensures Get(NodeModel(log', |log'|), id) == Get(NodeModel(log, |log|), id)
      ensures Get(EdgeModel(log', |log'|), id) == Get(EdgeModel(log, |log|), id)
    {
      RestartKeepsReads(c, log, lanes, log', lanes', entries, id);
    }
    SameMap(NodeModel(log', |log'|), NodeModel(log, |log|));
    SameMap(EdgeModel(log', |log'|), EdgeModel(log, |log|));
  }

  // ---------- fresh IDs and existing ends ----------

  /** Of the first `k` events, those that keep an edge keep it under an ID of its own. */
  ghost predicate FreshTo(evs: seq<Event>, k: nat)
    requires k <= |evs|
  {
    forall i, j :: 0 <= i < j < k && KeepsEdge(evs[i]) && KeepsEdge(evs[j]) ==> evs[i].edge.id != evs[j].edge.id
  }

  lemma FreshSnoc(evs: seq<Event>, ev: Event)
    ensures FreshTo(evs + [ev], |evs| + 1) <==>
              FreshTo(evs, |evs|) && (KeepsEdge(ev) ==> ev.edge.id !in EdgeModel(evs, |evs|))
  {
    hide EdgeModel;
    var longer := evs + [ev];
    assert forall i :: 0 <= i < |evs| ==> longer[i] == evs[i];
    assert longer[|evs|] == ev;
    if KeepsEdge(ev) {
      KeptIsModelled(evs, |evs|, ev.edge.id);
      if ev.edge.id in EdgeModel(evs, |evs|) {
        var i :| 0 <= i < |evs| && KeepsEdge(evs[i]) && evs[i].edge.id == ev.edge.id;
        assert KeepsEdge(longer[i]) && KeepsEdge(longer[|evs|]);
      }
    }
  }

  /** They do in what lane `i` has of them. */
  ghost predicate ShareIsFresh(c: Config, log: Writes, k: nat, i: nat)
    requires c.numLanes > 0 && k <= |log|
  {
    FreshTo(Shard(c, log, k, i), |Shard(c, log, k, i)|)
  }

  /** IDs are fresh in the log exactly when they are in each lane's share. */
  lemma {:induction false} FreshByShares(c: Config, log: Writes, k: nat)
    requires c.numLanes > 0 && k <= |log|
    ensures FreshTo(log[..k], k) <==> forall i :: 0 <= i < c.numLanes ==> ShareIsFresh(c, log, k, i)
  {
    hide Owner, IsWrite, EventId, FreshTo, ShareIsFresh, NewEdge;
    if k == 0 {
      NothingFresh(c, log);
    } else {
      var n := k - 1;
      FreshByShares(c, log, n);
      NextIsFresh(log, k);
      forall i | 0 <= i < c.numLanes
        ensures ShareIsFresh(c, log, k, i) <==>
                  ShareIsFresh(c, log, n, i) && (Owner(c, EventId(log[n])) == i ==> NewEdge(log, k))
      {
        NextInShare(c, log, k, i);
      }
      NextInShare(c, log, k, Owner(c, EventId(log[n])));
    }
  }

  /** The `k`-th event keeps no edge under an ID that is taken. */
  ghost predicate NewEdge(log: Writes, k: nat)
    requires 0 < k <= |log|
  {
    KeepsEdge(log[k - 1]) ==> log[k - 1].edge.id !in EdgeModel(log, k - 1)
  }

  lemma NextIsFresh(log: Writes, k: nat)
    requires 0 < k <= |log|
    ensures FreshTo(log[..k], k) <==> FreshTo(log[..k - 1], k - 1) && NewEdge(log, k)
  {
    hide EdgeModel, NodeModel, FreshTo, KeepsEdge;
    SliceSnoc(log, k - 1);
    FreshSnoc(log[..k - 1], log[k - 1]);
    SamePrefixModel(log, k - 1);
  }

  lemma SamePrefixModel(evs: seq<Event>, k: nat)
    requires k <= |evs|
    ensures EdgeModel(evs[..k], k) == EdgeModel(evs, k)
  {
    hide EdgeModel, NodeModel;
    ModelPrefix(evs[..k], evs[k..], k);
    assert evs[..k] + evs[k..] == evs;
  }

  lemma NextInShare(c: Config, log: Writes, k: nat, i: nat)
    requires c.numLanes > 0 && 0 < k <= |log|
    ensures ShareIsFresh(c, log, k, i) <==>
              ShareIsFresh(c, log, k - 1, i) && (Owner(c, EventId(log[k - 1])) == i ==> NewEdge(log, k))
  {
    hide Owner, EdgeModel, NodeModel, FreshTo, Shard;
    var s := Shard(c, log, k - 1, i);
    ShardStep(c, log, k, i);
    if Owner(c, EventId(log[k - 1])) == i {
      FreshSnoc(s, log[k - 1]);
      if KeepsEdge(log[k - 1]) {
        SetsItsId(log[k - 1]);
        ShardModel(c, log, k - 1, i, log[k - 1].edge.id);
      }
    }
  }

  lemma NothingFresh(c: Config, log: Writes)
    requires c.numLanes > 0
    ensures FreshTo(log[..0], 0) && forall i :: 0 <= i < c.numLanes ==> ShareIsFresh(c, log, 0, i)
  {
  }

  lemma ShardStep(c: Config, log: Writes, k: nat, i: nat)
    requires c.numLanes > 0 && 0 < k <= |log|
    ensures Shard(c, log, k, i) == if Owner(c, EventId(log[k - 1])) == i then Shard(c, log, k - 1, i) + [log[k - 1]]
                                   else Shard(c, log, k - 1, i)
  {
    hide Owner, IsWrite, EventId;
    NothingAdded(Shard(c, log, k - 1, i));
  }

  lemma {:induction false} FreshAttempts(evs: seq<Event>, k: nat)
    requires k <= |evs|
    ensures FreshTo(Attempts(evs, k), |Attempts(evs, k)|) <==> FreshTo(evs[..k], k)
  {
    hide KeepsEdge, FreshTo, EdgeModel, NodeModel, Attempts, Unlogged;
    if k == 0 {
      NoAttempts(evs);
    } else {
      FreshAttempts(evs, k - 1);
      AttemptsStep(evs, k);
      SliceSnoc(evs, k - 1);
      FreshSnoc(evs[..k - 1], evs[k - 1]);
      if Unlogged(evs[k - 1]) {
        UnloggedKeepsNothing(evs[k - 1]);
      } else {
        FreshSnoc(Attempts(evs, k - 1), evs[k - 1]);
        AttemptsModel(evs, k - 1);
        SamePrefixModel(evs, k - 1);
      }
    }
  }

  lemma UnloggedKeepsNothing(ev: Event)
    requires Unlogged(ev)
    ensures !KeepsEdge(ev)
  {
  }

  /** A replay keeps what was kept, in the same order. */
  lemma FreshRedo(evs: seq<Event>, redo: seq<Event>)
    requires |redo| == |evs| && FreshTo(evs, |evs|)
    requires forall j :: 0 <= j < |evs| ==> Redone(evs[j], redo[j]) && Applied(redo[j]) && Took(evs[j])
    ensures FreshTo(redo, |redo|)
  {
    hide Redone, Applied, Took, KeepsEdge;
    forall i, j | 0 <= i < j < |redo| && KeepsEdge(redo[i]) && KeepsEdge(redo[j])
      ensures redo[i].WroteEdge? || redo[i].ReplayedEdge?
      ensures redo[j].WroteEdge? || redo[j].ReplayedEdge?
      ensures redo[i].edge.id != redo[j].edge.id
    {
      KeptAgain(evs[i], redo[i]);
      KeptAgain(evs[j], redo[j]);
    }
  }

  lemma KeptAgain(ev: Event, again: Event)
    requires Redone(ev, again) && Applied(again) && Took(ev) && KeepsEdge(again)
    ensures KeepsEdge(ev) && (ev.WroteEdge? || ev.ReplayedEdge?) && again.ReplayedEdge? && again.edge.id == ev.edge.id
  {
    SameSet(ev, again);
  }

  /** The share of a lane that recovered keeps its edges under IDs of their own if the old one did. */
  lemma LaneFreshAgain(c: Config, crc: Wal.Crc, log: Writes, lanes: seq<Lane.Lane>, founds: seq<Bytes>,
                       entries: seq<seq<Wal.Entry>>, i: nat, redo: seq<Event>)
    requires Sharded(c, log, lanes) && StartedFrom(c, crc, log, founds, entries) && i < c.numLanes
    requires AllStorable(log)
    requires ReplaysAll(entries[i] + lanes[i].log, redo) && ShareIsFresh(c, log, |log|, i)
    requires FitsOneTable(Attempts(Shard(c, log, |log|, i), |Shard(c, log, |log|, i)|), c.memtableSize)
    ensures FreshTo(redo, |redo|)
  {
    hide Run, Storable, LaneStartedFrom, Attempts, AllPayloadsFit, Owned, Shard, Owner, EventId, IsWrite, Wal.Log,
      Wal.ReplayOf, Wal.AllFit, StartedOn, AllAlive, AllNodesFit, AllEdgesFit, FitsOneTable, Replays, Applied,
      EntryOf, Redone, Took, FreshTo, Attempted, PayloadFits;
    var evs, all := Shard(c, log, |log|, i), entries[i] + lanes[i].log;
    var w := Attempts(evs, |evs|);
    LaneFile(c, crc, log, lanes, founds, entries, i);
    var states := LaneRun(c, log, lanes, i);
    forall j | 0 <= j < |w|
      ensures Redone(w[j], redo[j]) && Applied(redo[j]) && Took(w[j])
    {
      PayloadOf(w, j);
      EntryRedone(all[j], w[j], redo[j]);
      var k := AttemptFrom(evs, |evs|, j);
      FittingWritesSucceeded(c.memtableSize, evs, states, k);
    }
    FreshAttempts(evs, |evs|);
    assert evs[..|evs|] == evs;
    FreshRedo(w, redo);
  }

  lemma PayloadOf(evs: seq<Event>, j: nat)
    requires AllAttempted(evs) && AllPayloadsFit(evs) && j < |evs|
    ensures Attempted(evs[j]) && PayloadFits(evs[j])
  {
  }

  lemma FreshAgain(c: Config, crc: Wal.Crc, log: Writes, lanes: seq<Lane.Lane>, founds: seq<Bytes>,
                   entries: seq<seq<Wal.Entry>>, disks: seq<Bytes>, log': Writes)
    requires Sharded(c, log, lanes) && StartedFrom(c, crc, log, founds, entries)
    requires LeftBehind(crc, founds, lanes, disks) && AllStorable(log)
    requires SharesReplay(c, log', crc, disks, c.numLanes) && AllSharesFit(c, log) && FreshEdges(log)
    ensures FreshEdges(log')
  {
    hide Reached, StartedFrom, Storable, LeftBehind, Wal.ReplayOf, Wal.Log, Wal.AllFit, Owned, Shard, IsWrite,
      FitsOneTable, Attempts, ReplaysAll, KeepsEdge;
    DisksAre(c, crc, log, lanes, founds, entries, disks);
    assert log[..|log|] == log && log'[..|log'|] == log';
    FreshByShares(c, log, |log|);
    forall i | 0 <= i < c.numLanes
      ensures ShareIsFresh(c, log', |log'|, i)
    {
      LaneFreshAgain(c, crc, log, lanes, founds, entries, i, Shard(c, log', |log'|, i));
    }
    FreshByShares(c, log', |log'|);
  }

  /** Fresh IDs settle the rest: each edge that was replayed is the one that was kept. */
  lemma OrderAgain(log: Writes, log': Writes)
    requires NodeModel(log', |log'|) == NodeModel(log, |log|) && EdgeModel(log', |log'|) == EdgeModel(log, |log|)
    requires FreshEdges(log') && Tidy(log) && Anchored(log)
    ensures Tidy(log') && Anchored(log')
  {
    hide NodeModel, EdgeModel, FreshEdges, WellFormedId;
    forall i | 0 <= i < |log'| && KeepsEdge(log'[i])
      ensures WellFormedId(log'[i].edge.id)
      ensures log'[i].edge.from in NodeModel(log', |log'|) && log'[i].edge.to in NodeModel(log', |log'|)
    {
      var id := log'[i].edge.id;
      FreshEdgeStays(log', |log'|, i);
      KeptIsModelled(log, |log|, id);
      var j :| 0 <= j < |log| && KeepsEdge(log[j]) && log[j].edge.id == id;
      FreshEdgeStays(log, |log|, j);
      assert NormEdge(log[j].edge) == NormEdge(log'[i].edge);
    }
  }

  // ---------- the index ----------

  lemma {:induction false} ShardAt(c: Config, log: Writes, n: nat, j: nat) returns (k: nat)
    requires c.numLanes > 0 && j < n <= |log|
    ensures var s := Shard(c, log, n, Owner(c, EventId(log[j]))); k < |s| && s[k] == log[j]
  {
    hide Owner, EventId, IsWrite;
    if j == n - 1 {
      k := |Shard(c, log, n - 1, Owner(c, EventId(log[j])))|;
    } else {
      k := ShardAt(c, log, n - 1, j);
    }
  }

  /** In some lane, replaying what was logged lists an edge at `node` again, under an ID read back as `t`. */
  ghost predicate ListedAgain(c: Config, log: Writes, node: Bytes, t: Bytes, outgoing: bool)
    requires c.numLanes > 0
  {
    exists i, k :: 0 <= i < c.numLanes && ListsAt(c, log, i, k, node, t, outgoing)
  }

  ghost predicate ListsAt(c: Config, log: Writes, i: nat, k: nat, node: Bytes, t: Bytes, outgoing: bool)
    requires c.numLanes > 0
  {
    var w := Attempts(Shard(c, log, |log|, i), |Shard(c, log, |log|, i)|);
    && k < |w| && HasEdge(w[k]) && t in Tokens(w[k].edge.id)
    && if outgoing then w[k].edge.from == node && RelistsOut(w, k, c.memtableSize)
       else w[k].edge.to == node && RelistsIn(w, k, c.memtableSize)
  }

  /** The event lists an edge at `node`, under an ID read back as `t`. */
  predicate ListsHere(ev: Event, node: Bytes, t: Bytes, outgoing: bool) {
    if outgoing then AtSource(ev) && ev.edge.from == node && t in Tokens(ev.edge.id)
    else AtTarget(ev) && ev.edge.to == node && t in Tokens(ev.edge.id)
  }

  /** The `k`-th event of lane `i` does. */
  ghost predicate SharesList(c: Config, log: Writes, i: nat, k: nat, node: Bytes, t: Bytes, outgoing: bool)
    requires c.numLanes > 0
  {
    var s := Shard(c, log, |log|, i);
    k < |s| && ListsHere(s[k], node, t, outgoing)
  }

  lemma {:induction false} ListedFrom(log: Writes, n: nat, node: Bytes, t: Bytes, outgoing: bool)
    requires n <= |log|
    ensures (node, t) in (if outgoing then Sources(log, n) else Targets(log, n)) <==>
              exists j :: 0 <= j < n && ListsHere(log[j], node, t, outgoing)
  {
    hide Tokens, AtSource, AtTarget;
    if n > 0 {
      ListedFrom(log, n - 1, node, t, outgoing);
    }
  }

  lemma IdsByShares(c: Config, log: Writes, node: Bytes, t: Bytes, outgoing: bool)
    requires c.numLanes > 0
    ensures (node, t) in (if outgoing then Sources(log, |log|) else Targets(log, |log|)) <==>
              exists i, k :: 0 <= i < c.numLanes && SharesList(c, log, i, k, node, t, outgoing)
  {
    hide Shard, Owner, EventId, IsWrite, ListsHere, Sources, Targets;
    ListedFrom(log, |log|, node, t, outgoing);
    if j :| 0 <= j < |log| && ListsHere(log[j], node, t, outgoing) {
      var k := ShardAt(c, log, |log|, j);
      assert SharesList(c, log, Owner(c, EventId(log[j])), k, node, t, outgoing);
    }
    if i, k :| 0 <= i < c.numLanes && SharesList(c, log, i, k, node, t, outgoing) {
      var j := ShardFrom(c, log, |log|, i, k);
    }
  }

  lemma LaneRelists(c: Config, crc: Wal.Crc, log: Writes, lanes: seq<Lane.Lane>, founds: seq<Bytes>,
                    entries: seq<seq<Wal.Entry>>, log': Writes, lanes': seq<Lane.Lane>, i: nat, k: nat, node: Bytes,
                    t: Bytes, outgoing: bool)
    requires Sharded(c, log, lanes) && StartedFrom(c, crc, log, founds, entries) && Sharded(c, log', lanes')
    requires i < c.numLanes && AllStorable(log)
    requires ReplaysAll(entries[i] + lanes[i].log, Shard(c, log', |log'|, i))
    ensures SharesList(c, log', i, k, node, t, outgoing) <==> ListsAt(c, log, i, k, node, t, outgoing)
  {
    hide Run, Storable, LaneStartedFrom, Attempts, AllPayloadsFit, Owned, Shard, Owner, EventId, IsWrite, Wal.Log,
      Wal.ReplayOf, Wal.AllFit, StartedOn, AllAlive, AllNodesFit, AllEdgesFit, Replays, Applied, EntryOf, Redone,
      Attempted, PayloadFits, RelistsOut, RelistsIn, Tokens;
    var w, redo := Attempts(Shard(c, log, |log|, i), |Shard(c, log, |log|, i)|), Shard(c, log', |log'|, i);
    LaneFile(c, crc, log, lanes, founds, entries, i);
    var states := LaneRun(c, log', lanes', i);
    forall j | 0 <= j < |w|
      ensures Redone(w[j], redo[j]) && Applied(redo[j])
    {
      PayloadOf(w, j);
      EntryRedone((entries[i] + lanes[i].log)[j], w[j], redo[j]);
    }
    if k < |w| {
      RedoneLists(c.memtableSize, w, redo, states, k);
      RedoneEdge(w[k], redo[k]);
    }
  }

  lemma RedoneEdge(ev: Event, again: Event)
    requires Redone(ev, again)
    ensures HasEdge(ev) <==> again.ReplayedEdge?
    ensures HasEdge(ev) ==>
              again.edge.id == ev.edge.id && again.edge.from == ev.edge.from && again.edge.to == ev.edge.to
  {
  }

  /** The index of the new engine: at each node the edges that still find room in the one table of their
      lane. */
  lemma IndexAgain(c: Config, crc: Wal.Crc, log: Writes, lanes: seq<Lane.Lane>, founds: seq<Bytes>,
                   entries: seq<seq<Wal.Entry>>, disks: seq<Bytes>, log': Writes, lanes': seq<Lane.Lane>, node: Bytes,
                   t: Bytes)
    requires Sharded(c, log, lanes) && StartedFrom(c, crc, log, founds, entries) && Sharded(c, log', lanes')
    requires LeftBehind(crc, founds, lanes, disks) && AllStorable(log)
    requires SharesReplay(c, log', crc, disks, c.numLanes)
    ensures (node, t) in StoreOf(log').sources <==> ListedAgain(c, log, node, t, true)
    ensures (node, t) in TargetsOf(log') <==> ListedAgain(c, log, node, t, false)
  {
    hide Reached, StartedFrom, Storable, LeftBehind, Wal.ReplayOf, Wal.Log, Wal.AllFit, Owned, Shard, IsWrite, Attempts,
      ReplaysAll, Owner, EventId, ListsAt, SharesList, Sources, Targets, NodeModel, EdgeModel;
    DisksAre(c, crc, log, lanes, founds, entries, disks);
    forall i: nat, k: nat, outgoing: bool | i < c.numLanes
      ensures SharesList(c, log', i, k, node, t, outgoing) <==> ListsAt(c, log, i, k, node, t, outgoing)
    {
      LaneRelists(c, crc, log, lanes, founds, entries, log', lanes', i, k, node, t, outgoing);
    }
    IdsByShares(c, log', node, t, true);
    IdsByShares(c, log', node, t, false);
  }

  /** What the new engine's log then says, and where it stands. */
  lemma Restarted(c: Config, crc: Wal.Crc, log: Writes, lanes: seq<Lane.Lane>, founds: seq<Bytes>,
                  entries: seq<seq<Wal.Entry>>, disks: seq<Bytes>, log': Writes, lanes': seq<Lane.Lane>)
    requires Sharded(c, log, lanes) && StartedFrom(c, crc, log, founds, entries) && Sharded(c, log', lanes')
    requires LeftBehind(crc, founds, lanes, disks) && AllStorable(log)
    requires SharesReplay(c, log', crc, disks, c.numLanes)
    requires forall i :: 0 <= i < c.numLanes ==>
               Restored(Lane.NewLane(c.memtableSize), crc, disks[i], lanes'[i], true)
    ensures |entries| == |lanes| && AllSharesFit(c, log)
    ensures NodeModel(log', |log'|) == NodeModel(log, |log|) && EdgeModel(log', |log'|) == EdgeModel(log, |log|)
    ensures StartedFrom(c, crc, log', disks, EntriesNow(entries, lanes))
  {
    hide Reached, StartedFrom, Storable, LeftBehind, Restored, RestartsFrom, SharesReplay, Wal.ReplayOf, Wal.Log,
      Wal.AllFit, Owned, Shard, IsWrite, FitsOneTable, Attempts, Lane.NewLane, NodeModel, EdgeModel;
    DisksAre(c, crc, log, lanes, founds, entries, disks);
    forall i | 0 <= i < c.numLanes
      ensures RestartsFrom(c, Shard(c, log, |log|, i), entries[i], lanes[i], lanes'[i])
      ensures FitsOneTable(Attempts(Shard(c, log, |log|, i), |Shard(c, log, |log|, i)|), c.memtableSize)
    {
      AllRestored(c, crc, log, lanes, founds, entries, disks, i, lanes'[i], true);
    }
    SameModelsAfter(c, crc, log, lanes, log', lanes', entries);
    SharesAreStarted(c, crc, log', disks, EntriesNow(entries, lanes));
  }

  lemma NotRestarted(c: Config, crc: Wal.Crc, log: Writes, lanes: seq<Lane.Lane>, founds: seq<Bytes>,
                     entries: seq<seq<Wal.Entry>>, disks: seq<Bytes>, i: nat, l: Lane.Lane)
    requires Sharded(c, log, lanes) && StartedFrom(c, crc, log, founds, entries)
    requires LeftBehind(crc, founds, lanes, disks) && AllStorable(log)
    requires i < c.numLanes == |disks| && Restored(Lane.NewLane(c.memtableSize), crc, disks[i], l, false)
    ensures !AllSharesFit(c, log)
  {
    hide Reached, StartedFrom, Storable, LeftBehind, Restored, RestartsFrom, Shard, IsWrite, FitsOneTable, Attempts;
    AllRestored(c, crc, log, lanes, founds, entries, disks, i, l, false);
  }

  /** Stops an engine and says what it leaves. */
  method StopAndLeave(e: Engine) returns (disks: seq<Bytes>)
    requires e.Valid() && e.running
    modifies e`running, e.writeLanes, e.writeLanes.Repr
    ensures LeftBehind(e.writeLanes.crc, old(e.writeLanes.founds), old(e.writeLanes.views), disks)
    ensures |disks| == e.c.numLanes
  {
    hide Sharded, WriteLanes.Valid, LRUCache.Valid, Wal.Log;
    OwnerInRange(e.c, e.log, e.writeLanes.views, []);
    e.writeLanes.SameNumber();
    var stopped := e.Stop();
    disks := e.writeLanes.Files();
  }

  /** Main result: a running engine is stopped, and a new one started on its files. It starts exactly when
      everything each lane has logged fits one table of each kind; then it holds the same nodes and the
      same edges, lists at each node those that find room again, has nothing stale cached, and stands where
      this one did, so that the result applies to it in turn. */
  method Restart(e: Engine, hotSize: int, dataSize: int, ghost entries: seq<seq<Wal.Entry>>)
    returns (e': Engine, ok: bool, ghost now: seq<seq<Wal.Entry>>)
    requires e.Valid() && e.running && AllStorable(e.log)
    requires StartedFrom(e.c, e.writeLanes.crc, e.log, e.writeLanes.founds, entries)
    modifies e`running, e.writeLanes, e.writeLanes.Repr
    ensures fresh(e') && e'.Valid() && e'.c == e.c && e'.writeLanes.crc == e.writeLanes.crc && ok == e'.running
    ensures ok <==> AllSharesFit(e.c, old(e.log))
    ensures ok ==> e'.Nodes() == old(e.Nodes()) && e'.Edges() == old(e.Edges()) && e'.Coherent()
    ensures ok ==> StartedFrom(e'.c, e'.writeLanes.crc, e'.log, e'.writeLanes.founds, now)
    ensures ok && old(InOrder(e.log)) ==> InOrder(e'.log)
    ensures ok ==> forall node, t ::
              && ((node, t) in StoreOf(e'.log).sources <==> ListedAgain(e.c, old(e.log), node, t, true))
              && ((node, t) in TargetsOf(e'.log) <==> ListedAgain(e.c, old(e.log), node, t, false))
  {
    hide Sharded, WriteLanes.Valid, LRUCache.Valid, Agrees, NodeModel, EdgeModel, StartedFrom, Storable, Restored,
      Wal.ReplayOf, Wal.Log, Wal.AllFit, Owned, AllSharesFit, SharesReplay, Lane.NewLane, LeftBehind, FreshEdges,
      WellFormedWrites, Anchored, StoreOf, TargetsOf, ListedAgain;
    OwnerInRange(e.c, e.log, e.writeLanes.views, []);
    ghost var inOrder := InOrder(e.log);
    ghost var c, crc, log, lanes, founds := e.c, e.writeLanes.crc, e.log, e.writeLanes.views, e.writeLanes.founds;
    var disks := StopAndLeave(e);
    DisksAre(c, crc, log, lanes, founds, entries, disks);
    now := EntriesNow(entries, lanes);
    e', ok := StartOn(e.c, hotSize, dataSize, e.nodeCost, e.edgeCost, e.writeLanes.crc, disks);
    if ok {
      Restarted(c, crc, log, lanes, founds, entries, disks, e'.log, e'.writeLanes.views);
      forall node, t
        ensures (node, t) in StoreOf(e'.log).sources <==> ListedAgain(c, log, node, t, true)
        ensures (node, t) in TargetsOf(e'.log) <==> ListedAgain(c, log, node, t, false)
      {
        IndexAgain(c, crc, log, lanes, founds, entries, disks, e'.log, e'.writeLanes.views, node, t);
      }
      if inOrder {
        FreshAgain(c, crc, log, lanes, founds, entries, disks, e'.log);
        OrderAgain(log, e'.log);
      }
    } else {
      ghost var i :| 0 <= i < c.numLanes
                  && Restored(Lane.NewLane(c.memtableSize), crc, disks[i], e'.writeLanes.views[i], false);
      NotRestarted(c, crc, log, lanes, founds, entries, disks, i, e'.writeLanes.views[i]);
    }
  }

  /** Main result, end to end: a new engine performs any run of operations that writes nothing under an ID
      that may be cached, is stopped, and a new engine is started on its files. It starts exactly when the
      log of each lane fits one table of each kind; then it holds exactly the nodes and edges that the
      operations, told from themselves alone, leave in an empty store. */
  method RunAndRestart(c: Config, hotSize: int, dataSize: int, nodeCost: Node -> int, edgeCost: Edge -> int,
                       crc: Wal.Crc, ops: seq<Op>)
    returns (e: Engine, answers: seq<Answer>, ok: bool, ghost log: Writes)
    requires Usable(c) && forall k :: 0 <= k < |ops| ==> Proper(ops[k])
    requires AllWriteUncached(ops, EMPTY, NOTHING, c.memtableSize) && AllShort(ops, EMPTY, c.memtableSize)
    ensures fresh(e) && e.Valid() && e.c == c && ok == e.running && |answers| == |ops|
    ensures LogsRun(ops, answers, [], log) && Behaves(c.memtableSize, ops, answers, [], log)
    ensures ok <==> AllSharesFit(c, log)
    ensures ok ==> e.Coherent() && e.Nodes() == StoreAfter(EMPTY, ops, |ops|, c.memtableSize).nodes
                   && e.Edges() == StoreAfter(EMPTY, ops, |ops|, c.memtableSize).edges
    ensures ok && AllNameNewEdges(ops, EMPTY, c.memtableSize) ==> InOrder(e.log)
  {
    hide Engine.Valid, Engine.Coherent, InOrder, StartedFrom, AllStorable, AllWriteUncached, AllNameNewEdges, AllShort,
      Behaves, LogsRun, Proper, CachedIds, AllSharesFit, StoreAfter, NodeModel, EdgeModel, ListedAgain, Performs,
      Sources, TargetsOf;
    var first := NewStarted(c, hotSize, dataSize, nodeCost, edgeCost, crc);
    NothingStored();
    NothingInOrder();
    ghost var founds := first.writeLanes.founds;
    ghost var none: seq<seq<Wal.Entry>> := seq(c.numLanes, _ => []);
    NewIsStarted(c, crc, founds, none);
    answers := PerformAll(first, ops);
    log := first.log;
    StoreBehaved(c.memtableSize, ops, answers, log);
    RunStaysStarted(c, crc, ops, answers, [], log, founds, none);
    ghost var now;
    e, ok, now := Restart(first, hotSize, dataSize, none);
  }

  lemma StoreBehaved(maxSize: int, ops: seq<Op>, answers: seq<Answer>, log: Writes)
    requires |answers| == |ops| && Behaves(maxSize, ops, answers, [], log)
    ensures StoreOf(log) == StoreAfter(EMPTY, ops, |ops|, maxSize)
  {
    hide StoreAfter, TargetsAfter, Answers, StoreOf, TargetsOf;
    NothingStored();
  }
}
