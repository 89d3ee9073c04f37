/** The storage engine (pkg/storage/engine.go) as an object over its lanes and its two caches. */
module Engine {
  import opened Bytes
  import opened Graph
  import opened EdgeList
  import opened Lru
  import Lane
  import opened LaneSteps
  import opened LaneHealth
  import opened LaneRuns
  import W = WriteLane
  import opened Sharding
  import opened EngineReads
  import Wal
  import Recovery

  /** A lane in good order that lies within `R`. */
  ghost predicate InFootprint(l: W.WriteLane, R: set<object>)
    reads R
  {
    && l in R && l.wal in R && l.nodes in R && l.edges in R && l.adj in R
    && l.Repr() <= R && l.Valid()
    && l.nodes.active in R && l.edges.active in R && l.adj.active in R
  }

  lemma FootprintGrows(l: W.WriteLane, R: set<object>, S: set<object>)
    requires InFootprint(l, R) && R <= S
    ensures InFootprint(l, S)
  {
  }

  lemma FootprintHolds(l: W.WriteLane, R: set<object>)
    requires InFootprint(l, R)
    ensures l.Repr() <= R && l.Valid()
  {
  }

  lemma OwnFootprint(l: W.WriteLane)
    requires l.Valid()
    ensures InFootprint(l, l.Repr())
  {
  }

  /** The `writeLanes` slice; the lanes share no state. */
  class WriteLanes {
    var lanes: seq<W.WriteLane>
    ghost var views: seq<Lane.Lane>
    const crc: Wal.Crc
    ghost var files: seq<Bytes>    // the log file of each lane
    ghost var founds: seq<Bytes>   // what it held when the lane was opened
    ghost var Repr: set<object>   // of the lanes together

    ghost predicate Valid()
      reads this, Repr
    {
      && this !in Repr && |views| == |files| == |founds| == |lanes|
      && (forall i :: 0 <= i < |lanes| ==>
            InFootprint(lanes[i], Repr) && Shows(lanes[i], views[i], files[i], founds[i]))
      && (forall i, j :: 0 <= i < j < |lanes| ==> lanes[i].Repr() !! lanes[j].Repr())
    }

    lemma SameNumber()
      requires Valid()
      ensures |views| == |files| == |founds| == |lanes|
    {
    }

    ghost predicate Shows(l: W.WriteLane, view: Lane.Lane, file: Bytes, found: Bytes)
      reads l, l.wal, l.nodes, l.edges, l.adj, l.nodes.active, l.edges.active, l.adj.active
    {
      l.View() == view && l.wal.file == file && l.wal.found == found && l.wal.crc == crc
    }

    /** All lanes but the `i`-th are as recorded, and apart from it. */
    ghost predicate OthersHeld(i: nat)
      requires i < |lanes|
      reads this, Repr, lanes[i], lanes[i].wal, lanes[i].nodes, lanes[i].edges, lanes[i].adj
    {
      && this !in Repr && |views| == |files| == |founds| == |lanes|
      && lanes[i].wal.crc == crc && lanes[i].wal.found == founds[i]
      && (forall j :: 0 <= j < |lanes| && j != i ==>
            InFootprint(lanes[j], Repr) && Shows(lanes[j], views[j], files[j], founds[j]))
      && (forall j, k :: 0 <= j < k < |lanes| && j != i && k != i ==> lanes[j].Repr() !! lanes[k].Repr())
      && (forall j :: 0 <= j < |lanes| && j != i ==> lanes[j].Repr() !! lanes[i].Repr())
    }

    /** What happens outside a lane's footprint leaves it as it is: here lane `p.1`, when lane `p.0`
        has changed itself. */
    twostate lemma Stands(p: (nat, nat))
      requires old(Valid()) && p.0 < |lanes| && p.1 < |lanes| && p.1 != p.0 && unchanged(this)
      requires forall o: object :: o in old(Repr) && o !in old(lanes[p.0].Repr()) ==> unchanged(o)
      ensures InFootprint(lanes[p.1], Repr) && Shows(lanes[p.1], views[p.1], files[p.1], founds[p.1])
      ensures lanes[p.1].Repr() == old(lanes[p.1].Repr())
    {
      assert old(lanes[p.1].Repr()) !! old(lanes[p.0].Repr());
      assert old(InFootprint(lanes[p.1], Repr));
    }

    /** After a lane has changed itself, the others stand as they did. */
    twostate lemma Written(i: nat)
      requires old(Valid()) && i < |lanes| && unchanged(this)
      requires lanes[i].Keeps()
      requires forall o: object :: o in old(Repr) && o !in old(lanes[i].Repr()) ==> unchanged(o)
      ensures OthersHeld(i)
      ensures lanes[i].Valid() && fresh(lanes[i].Repr() - old(Repr)) && this !in lanes[i].Repr()
    {
      hide W.WriteLane.View, W.WriteLane.Repr, W.WriteLane.Valid;
      assert old(InFootprint(lanes[i], Repr));
      forall j | 0 <= j < |lanes| && j != i
        ensures InFootprint(lanes[j], Repr) && Shows(lanes[j], views[j], files[j], founds[j])
        ensures lanes[j].Repr() == old(lanes[j].Repr())
        ensures lanes[j].Repr() !! lanes[i].Repr()
      {
        Stands((i, j));
        assert old(InFootprint(lanes[j], Repr));
        assert old(lanes[i].Repr()) !! old(lanes[j].Repr());
      }
    }

    /** Takes over what the `i`-th lane has become. */
    ghost method Adopt(i: nat)
      requires i < |lanes| && OthersHeld(i) && lanes[i].Valid() && this !in lanes[i].Repr()
      modifies `views, `files, `Repr
      ensures Valid() && Repr == old(Repr) + lanes[i].Repr()
      ensures views == old(views)[i := lanes[i].View()] && files == old(files)[i := lanes[i].wal.file]
      ensures lanes == old(lanes) && founds == old(founds)
    {
      hide W.WriteLane.Valid, W.WriteLane.View, W.WriteLane.Repr, InFootprint;
      ghost var R := Repr + lanes[i].Repr();
      AllHeld(i, R);
      Repr := R;
      views, files := views[i := lanes[i].View()], files[i := lanes[i].wal.file];
    }

    lemma AllHeld(i: nat, R: set<object>)
      requires i < |lanes| && OthersHeld(i) && lanes[i].Valid() && R == Repr + lanes[i].Repr()
      ensures forall j :: 0 <= j < |lanes| ==> InFootprint(lanes[j], R)
    {
      hide W.WriteLane.Valid, W.WriteLane.View, W.WriteLane.Repr, InFootprint;
      OwnFootprint(lanes[i]);
      forall j | 0 <= j < |lanes|
        ensures InFootprint(lanes[j], R)
      {
        FootprintGrows(lanes[j], if j == i then lanes[i].Repr() else Repr, R);
      }
    }

    method WriteNode(i: nat, n: Node, now: i64) returns (out: Lane.NodeOutcome)
      requires Valid() && i < |views|
      modifies this, Repr
      ensures Valid() && fresh(Repr - old(Repr)) && lanes == old(lanes) && founds == old(founds)
      ensures |views| == |old(views)| && views == old(views)[i := views[i]]
      ensures Lane.WriteNodeStep(old(views)[i], n, views[i], out)
    {
      hide Lane.WriteNodeStep, W.WriteLane.Valid, W.WriteLane.View, W.WriteLane.Repr, OthersHeld;
      assert InFootprint(lanes[i], Repr);
      label before:
      out := lanes[i].WriteNode(n, now);
      Written@before(i);
      Adopt(i);
    }

    method WriteEdge(i: nat, e: Edge, now: i64) returns (out: Lane.EdgeOutcome)
      requires Valid() && i < |views|
      modifies this, Repr
      ensures Valid() && fresh(Repr - old(Repr)) && lanes == old(lanes) && founds == old(founds)
      ensures |views| == |old(views)| && views == old(views)[i := views[i]]
      ensures Lane.WriteEdgeStep(old(views)[i], e, views[i], out)
    {
      hide Lane.WriteEdgeStep, W.WriteLane.Valid, W.WriteLane.View, W.WriteLane.Repr, OthersHeld;
      assert InFootprint(lanes[i], Repr);
      label before:
      out := lanes[i].WriteEdge(e, now);
      Written@before(i);
      Adopt(i);
    }

    method Recover(i: nat) returns (ok: bool, ghost redo: seq<Event>, ghost states: seq<Lane.Lane>, ghost applied: bool)
      requires Valid() && i < |views|
      modifies this, Repr
      ensures Valid() && fresh(Repr - old(Repr)) && lanes == old(lanes) && files == old(files) && founds == old(founds)
      ensures Recovery.RecoversFrom(old(views)[i], Wal.ReplayOf(crc, files[i]).entries, redo, states, applied)
      ensures |views| == |old(views)| && views == old(views)[i := states[|redo|]]
      ensures ok == (applied && Wal.ReplayOf(crc, files[i]).ok)
    {
      hide Recovery.RecoversFrom, Wal.ReplayOf, W.WriteLane.Valid, W.WriteLane.View, W.WriteLane.Repr, OthersHeld;
      assert InFootprint(lanes[i], Repr);
      label before:
      ok, redo, states, applied := lanes[i].Recover();
      Written@before(i);
      Adopt(i);
    }

    /** Stops one lane. */
    method StopLane(i: nat)
      requires Valid() && i < |views|
      modifies this, Repr
      ensures Valid() && fresh(Repr - old(Repr)) && lanes == old(lanes) && founds == old(founds)
      ensures views == old(views)[i := old(views)[i].(stopped := true)]
      ensures files == old(files)[i := if old(views)[i].stopped then old(files)[i]
                                       else founds[i] + Wal.Log(crc, old(views)[i].log)]
    {
      hide W.WriteLane.Valid, OthersHeld;
      assert InFootprint(lanes[i], Repr);
      label before:
      lanes[i].Stop();
      Written@before(i);
      Adopt(i);
    }

    /** Stops every lane: what each has logged is then in its file. */
    method Stop()
      requires Valid() && forall i :: 0 <= i < |views| ==> !views[i].stopped
      modifies this, Repr
      ensures Valid() && fresh(Repr - old(Repr)) && founds == old(founds) && |views| == |old(views)|
      ensures forall i :: 0 <= i < |views| ==> files[i] == founds[i] + Wal.Log(crc, old(views)[i].log)
    {
      hide Valid, Wal.Log;
      SameNumber();
      var i := 0;
      while i < |lanes|
        invariant Valid() && fresh(Repr - old(Repr)) && lanes == old(lanes) && founds == old(founds) && i <= |lanes|
        invariant |views| == |files| == |founds| == |lanes|
        invariant forall j :: 0 <= j < i ==> files[j] == founds[j] + Wal.Log(crc, old(views)[j].log)
        invariant forall j :: i <= j < |lanes| ==> views[j] == old(views)[j]
      {
        StopLane(i);
        SameNumber();
        i := i + 1;
      }
    }

    /** What is left on the disk. */
    method Files() returns (disks: seq<Bytes>)
      requires Valid()
      ensures disks == files
    {
      hide InFootprint;
      disks := [];
      while |disks| < |lanes|
        invariant |disks| <= |lanes| && disks == files[..|disks|]
      {
        disks := disks + [lanes[|disks|].wal.file];
      }
    }

    method ReadNode(i: nat, id: Bytes) returns (n: Option<Node>)
      requires Valid() && i < |views|
      ensures n == Lane.ReadNode(views[i], id)
    {
      hide W.WriteLane.View, W.WriteLane.Repr, Lane.ReadNode;
      assert InFootprint(lanes[i], Repr);
      n := lanes[i].ReadNode(id);
    }

    method ReadEdge(i: nat, id: Bytes) returns (e: Option<Edge>)
      requires Valid() && i < |views|
      ensures e == Lane.ReadEdge(views[i], id)
    {
      hide W.WriteLane.View, W.WriteLane.Repr, Lane.ReadEdge;
      assert InFootprint(lanes[i], Repr);
      e := lanes[i].ReadEdge(id);
    }

    method ListedAt(i: nat, node: Bytes, outgoing: bool) returns (ids: seq<Bytes>)
      requires Valid() && i < |views|
      ensures ids == LaneList(views[i], node, outgoing)
    {
      hide W.WriteLane.View, W.WriteLane.Repr, Lane.Outgoing, Lane.Incoming;
      assert InFootprint(lanes[i], Repr);
      if outgoing {
        ids := lanes[i].GetOutgoingEdges(node);
      } else {
        ids := lanes[i].GetIncomingEdges(node);
      }
    }

    constructor (memtableSize: int, crc: Wal.Crc, disks: seq<Bytes>)
      ensures Valid() && fresh(Repr) && this !in Repr && this.crc == crc && files == founds == disks &&
              |views| == |disks|
      ensures forall i :: 0 <= i < |views| ==> views[i] == Lane.NewLane(memtableSize)
    {
      this.crc := crc;
      lanes, views, files, founds, Repr := [], [], [], [], {};
      new;
      hide W.WriteLane.Valid, W.WriteLane.View, W.WriteLane.Repr;
      while |lanes| < |disks|
        modifies this
        invariant Valid() && fresh(Repr) && |lanes| <= |disks| && files == founds == disks[..|lanes|]
        invariant forall i :: 0 <= i < |views| ==> views[i] == Lane.NewLane(memtableSize)
      {
        var lane := new W.WriteLane(memtableSize, crc, disks[|lanes|]);
        AddLane(lane);
      }
    }

    method AddLane(lane: W.WriteLane)
      requires Valid() && lane.Valid() && lane.Repr() !! Repr && this !in lane.Repr() && lane.wal.crc == crc
      modifies this
      ensures Valid() && Repr == old(Repr) + lane.Repr() && |lanes| == |old(lanes)| + 1
      ensures views == old(views) + [lane.View()] && files == old(files) + [lane.wal.file]
      ensures founds == old(founds) + [lane.wal.found]
    {
      hide W.WriteLane.Valid, W.WriteLane.View, InFootprint, W.WriteLane.Repr;
      ghost var R := Repr + lane.Repr();
      AllInFootprint(R, lane);
      forall i | 0 <= i < |lanes|
        ensures lanes[i].Repr() <= Repr
      {
        FootprintHolds(lanes[i], Repr);
      }
      lanes, views, Repr := lanes + [lane], views + [lane.View()], R;
      files, founds := files + [lane.wal.file], founds + [lane.wal.found];
    }

    lemma AllInFootprint(R: set<object>, lane: W.WriteLane)
      requires Valid() && Repr <= R && lane.Valid() && lane.Repr() <= R
      ensures forall i :: 0 <= i < |lanes| ==> InFootprint(lanes[i], R)
      ensures InFootprint(lane, R)
    {
      hide W.WriteLane.Valid, W.WriteLane.View, W.WriteLane.Repr;
      forall i | 0 <= i < |lanes|
        ensures InFootprint(lanes[i], R)
      {
        FootprintGrows(lanes[i], Repr, R);
      }
      OwnFootprint(lane);
      FootprintGrows(lane, lane.Repr(), R);
    }
  }

  // ---------- neighbours, told from the log ----------

  /** The IDs of the nodes at the other end of the edges of `node`. */
  ghost predicate IsNeighbor(log: Writes, node: Bytes, direction: Direction, id: Bytes) {
    || (Outward(direction) && exists x :: IsEdgeOf(log, node, true, x) && x.to == id)
    || (Inward(direction) && exists x :: IsEdgeOf(log, node, false, x) && x.from == id)
  }

  ghost predicate Includes(nodes: seq<Node>, id: Bytes) {
    exists i :: 0 <= i < |nodes| && nodes[i].id == id
  }

  /** `nodes` are the node's neighbours in that direction, each once and as it was written last. */
  ghost predicate NeighborsAre(log: Writes, node: Bytes, direction: Direction, nodes: seq<Node>) {
    && (forall i, j :: 0 <= i < j < |nodes| ==> nodes[i].id != nodes[j].id)
    && (forall i :: 0 <= i < |nodes| ==> Get(NodeModel(log, |log|), nodes[i].id) == Some(nodes[i]))
    && (forall id :: Includes(nodes, id) <==> IsNeighbor(log, node, direction, id))
  }

  /** Lane `i` did not recover: those before it did, and those after it were not touched. */
  ghost predicate FailedAt(before: seq<Lane.Lane>, crc: Wal.Crc, files: seq<Bytes>, after: seq<Lane.Lane>, i: nat) {
    && i < |before| == |files| == |after| && Restored(before[i], crc, files[i], after[i], false)
    && (forall j :: 0 <= j < i ==> Restored(before[j], crc, files[j], after[j], true))
    && (forall j :: i < j < |before| ==> after[j] == before[j])
  }

  datatype UpdateOutcome = UpdateStopped | NoSuchNode | Updated(out: Lane.NodeOutcome)

  datatype CreateOutcome = EngineStopped | NoSource | NoTarget | Created(out: Lane.EdgeOutcome)

  class Engine {
    const c: Config
    const nodeCost: Node -> int
    const edgeCost: Edge -> int
    const writeLanes: WriteLanes
    const hot: LRUCache<Node>
    const data: LRUCache<Edge>
    var running: bool
    ghost var log: Writes   // all writes that reached a lane

    ghost predicate Valid()
      reads this, hot, data, writeLanes, writeLanes.Repr
    {
      && {this as object, hot, data, writeLanes} !! writeLanes.Repr && hot as object != data as object
      && writeLanes.Valid() && hot.Valid() && data.Valid()
      && Sharded(c, log, writeLanes.views)
    }

    ghost function Nodes(): map<Bytes, Node>
      reads this
    {
      NodeModel(log, |log|)
    }

    ghost function Edges(): map<Bytes, Edge>
      reads this
    {
      EdgeModel(log, |log|)
    }

    /** Nothing stale is cached. */
    ghost predicate Coherent()
      reads this, hot, data
    {
      Agrees(Nodes(), hot.evictList) && Agrees(Edges(), data.evictList)
    }

    /** `NewEngine`; the lanes' log files may already hold entries. */
    constructor (c: Config, hotSize: int, dataSize: int, nodeCost: Node -> int, edgeCost: Edge -> int, crc: Wal.Crc,
                 disks: seq<Bytes>)
      requires Usable(c) && |disks| == c.numLanes
      ensures Valid() && Coherent() && log == [] && !running && this.c == c
      ensures fresh(hot) && fresh(data) && fresh(writeLanes) && fresh(writeLanes.Repr)
      ensures writeLanes.crc == crc && writeLanes.files == writeLanes.founds == disks
      ensures |writeLanes.views| == c.numLanes
      ensures forall i :: 0 <= i < c.numLanes ==> writeLanes.views[i] == Lane.NewLane(c.memtableSize)
      ensures hot.evictList == [] && data.evictList == []
    {
      hide Sharded, WriteLanes.Valid, LRUCache.Valid, Agrees, NodeModel, EdgeModel, Lane.NewLane, Usable;
      this.c, this.nodeCost, this.edgeCost := c, nodeCost, edgeCost;
      hot := new LRUCache(hotSize);
      data := new LRUCache(dataSize);
      writeLanes := new WriteLanes(c.memtableSize, crc, disks);
      running, log := false, [];
      new;
      NewLanes(c, writeLanes.views);
      EmptyAgrees(Nodes());
      EmptyAgrees(Edges());
    }

    /** `Start`: every lane recovers from its log in turn, until one fails. */
    method Start() returns (ok: bool)
      requires Valid()
      requires forall i :: 0 <= i < c.numLanes ==>
                 Owned(c, i, Wal.ReplayOf(writeLanes.crc, writeLanes.files[i]).entries)
      modifies `running, `log, writeLanes, writeLanes.Repr
      ensures Valid() && fresh(writeLanes.Repr - old(writeLanes.Repr))
      ensures writeLanes.files == old(writeLanes.files) && writeLanes.founds == old(writeLanes.founds)
      ensures old(running) ==> !ok && running && log == old(log)
      ensures !old(running) ==> ok == running
      ensures ok ==> forall i :: 0 <= i < c.numLanes ==>
                Restored(old(writeLanes.views)[i], writeLanes.crc, writeLanes.files[i], writeLanes.views[i], true)
      ensures !ok && !old(running) ==>
                exists i :: 0 <= i < c.numLanes
                         && FailedAt(old(writeLanes.views), writeLanes.crc, writeLanes.files, writeLanes.views, i)
      ensures hot.evictList == [] && data.evictList == [] ==> Coherent()
      ensures old(forall i :: 0 <= i < c.numLanes ==> writeLanes.files[i] == []) ==> log == old(log)
      ensures ok && old(log) == [] ==> SharesReplay(c, log, writeLanes.crc, writeLanes.files, c.numLanes)
    {
      hide Owned, Owner, EventId, IsWrite, Shard, Sharded, Restored, Wal.ReplayOf, WriteLanes.Valid, LRUCache.Valid,
        Agrees, NodeModel, EdgeModel, SharesReplay, ReplaysAll;
      OwnerInRange(c, log, writeLanes.views, []);
      writeLanes.SameNumber();
      if running {
        EmptyAgreesBoth();
        return false;
      }
      running := true;
      ghost var views, files, start := writeLanes.views, writeLanes.files, log;
      NothingShared(c, writeLanes.crc, files);
      var i := 0;
      while i < c.numLanes
        invariant 0 <= i <= c.numLanes && Valid() && running && fresh(writeLanes.Repr - old(writeLanes.Repr))
        invariant writeLanes.files == files && |writeLanes.views| == |files| == c.numLanes
        invariant writeLanes.founds == old(writeLanes.founds)
        invariant forall j :: 0 <= j < i ==> Restored(views[j], writeLanes.crc, files[j], writeLanes.views[j], true)
        invariant forall j :: i <= j < c.numLanes ==> writeLanes.views[j] == views[j]
        invariant start == [] ==> SharesReplay(c, log, writeLanes.crc, files, i)
        invariant (forall j :: 0 <= j < c.numLanes ==> files[j] == []) ==> log == start
      {
        ghost var before := log;
        var recovered;
        ghost var redo;
        recovered, redo := RecoverLane(i);
        if recovered && start == [] {
          SharesReplayMore(c, before, writeLanes.crc, files, i, redo);
        }
        if !recovered {
          assert FailedAt(views, writeLanes.crc, files, writeLanes.views, i);
          running := false;
          EmptyAgreesBoth();
          return false;
        }
        i := i + 1;
      }
      EmptyAgreesBoth();
      return true;
    }

    lemma EmptyAgreesBoth()
      ensures hot.evictList == [] && data.evictList == [] ==> Coherent()
    {
      EmptyAgrees(Nodes());
      EmptyAgrees(Edges());
    }

    method RecoverLane(i: nat) returns (ok: bool, ghost redo: Writes)
      requires Valid() && i < c.numLanes
      requires Owned(c, i, Wal.ReplayOf(writeLanes.crc, writeLanes.files[i]).entries)
      modifies `log, writeLanes, writeLanes.Repr
      ensures Valid() && fresh(writeLanes.Repr - old(writeLanes.Repr))
      ensures writeLanes.files == old(writeLanes.files) && writeLanes.founds == old(writeLanes.founds)
      ensures |writeLanes.views| == c.numLanes && forall j :: 0 <= j < c.numLanes && j != i ==>
                writeLanes.views[j] == old(writeLanes.views)[j]
      ensures Restored(old(writeLanes.views)[i], writeLanes.crc, writeLanes.files[i], writeLanes.views[i], ok)
      ensures writeLanes.files[i] == [] ==> log == old(log)
      ensures log == old(log) + redo && forall j :: 0 <= j < |redo| ==> Owner(c, EventId(redo[j])) == i
      ensures ok ==> ReplaysAll(Wal.ReplayOf(writeLanes.crc, writeLanes.files[i]).entries, redo)
    {
      hide Owned, Owner, EventId, IsWrite, Shard, Sharded, Wal.ReplayOf, WriteLanes.Valid, LRUCache.Valid,
        Recovery.RecoversFrom;
      OwnerInRange(c, log, writeLanes.views, []);
      writeLanes.SameNumber();
      ghost var views := writeLanes.views;
      ghost var events, states, applied;
      ok, events, states, applied := writeLanes.Recover(i);
      ghost var entries := Wal.ReplayOf(writeLanes.crc, writeLanes.files[i]).entries;
      RedoIsOwned(c, i, views[i], entries, events, states, applied);
      RecoveryStaysSharded(c, log, views, i, entries, events, states, applied);
      if ok {
        AllReplayed(views[i], entries, events, states);
      }
      if writeLanes.files[i] == [] {
        EmptyLog(writeLanes.crc);
        NothingAdded(log);
      }
      redo := events;
      log := log + redo;
    }

    /** `Stop`: every lane stops and leaves all it has logged in its file. The engine is then done with:
        what follows is a new one on the same files. */
    method Stop() returns (ok: bool)
      requires Valid()
      modifies `running, writeLanes, writeLanes.Repr
      ensures ok == old(running) && !running && fresh(writeLanes.Repr - old(writeLanes.Repr))
      ensures !ok ==> Valid() && writeLanes.files == old(writeLanes.files)
      ensures ok ==> writeLanes.Valid() && |writeLanes.files| == c.numLanes && forall i :: 0 <= i < c.numLanes ==>
                writeLanes.files[i]
                == old(writeLanes.founds)[i] + Wal.Log(writeLanes.crc, old(writeLanes.views)[i].log)
    {
      hide Owner, Shard, Sharded, WriteLanes.Valid, LRUCache.Valid, Wal.Log, Healthy;
      if !running {
        return false;
      }
      running := false;
      OwnerInRange(c, log, writeLanes.views, []);
      writeLanes.SameNumber();
      forall i | 0 <= i < |writeLanes.views|
        ensures !writeLanes.views[i].stopped
      {
        LaneIsRunning(c, log, writeLanes.views, i);
      }
      writeLanes.Stop();
      writeLanes.SameNumber();
      return true;
    }

    method SearchNodes(id: Bytes) returns (r: Option<Node>)
      requires Valid()
      ensures r == SearchNode(c, writeLanes.views, id)
    {
      hide Owner, Shard, Reached, Lane.ReadNode, WriteLanes.Valid;
      var primary := Owner(c, id);
      r := writeLanes.ReadNode(primary, id);
      if r.Some? {
        return;
      }
      var i := 0;
      while i < c.numLanes
        invariant i <= c.numLanes
        invariant FirstNode(writeLanes.views, 0, primary, id) == FirstNode(writeLanes.views, i, primary, id)
      {
        if i != primary {
          r := writeLanes.ReadNode(i, id);
          if r.Some? {
            return;
          }
        }
        i := i + 1;
      }
      return None;
    }

    method SearchEdges(id: Bytes) returns (r: Option<Edge>)
      requires Valid()
      ensures r == SearchEdge(c, writeLanes.views, id)
    {
      hide Owner, Shard, Reached, Lane.ReadEdge, WriteLanes.Valid;
      var primary := Owner(c, id);
      r := writeLanes.ReadEdge(primary, id);
      if r.Some? {
        return;
      }
      var i := 0;
      while i < c.numLanes
        invariant i <= c.numLanes
        invariant FirstEdge(writeLanes.views, 0, primary, id) == FirstEdge(writeLanes.views, i, primary, id)
      {
        if i != primary {
          r := writeLanes.ReadEdge(i, id);
          if r.Some? {
            return;
          }
        }
        i := i + 1;
      }
      return None;
    }

    /** A cached node is returned as it is; otherwise this is one lookup in the map of all nodes, and so it
        is in any case while nothing stale is cached. */
    method GetNode(id: Bytes) returns (r: Option<Node>)
      requires Valid()
      modifies hot
      ensures Valid() && hot.maxSize == old(hot.maxSize)
      ensures !running ==> r == None && hot.evictList == old(hot.evictList)
      ensures running ==>
                (r, hot.evictList) == NodeThrough(c, writeLanes.views, nodeCost, old(hot.evictList), hot.maxSize, id)
      ensures running && Lookup(old(hot.evictList), id).Some? ==>
                r == Lookup(old(hot.evictList), id) && hot.evictList == old(hot.evictList)
      ensures running && Lookup(old(hot.evictList), id).None? ==> r == Get(Nodes(), id)
      ensures running ==> (r, hot.evictList) == ReadOne(old(hot.evictList), hot.maxSize, Nodes(), nodeCost, id)
      ensures old(Coherent()) ==> Coherent() && (running ==> r == Get(Nodes(), id))
      ensures old(Coherent()) ==> CachesOnly(old(hot.evictList), hot.evictList, {id})
    {
      hide Reached, Agrees, SearchNode, WriteLanes.Valid, Lookup, NodeModel, EdgeModel, PutIn;
      if Coherent() {
        NodeThroughAgrees(c, log, writeLanes.views, nodeCost, hot.evictList, hot.maxSize, id);
      }
      NodeThroughIs(c, log, writeLanes.views, nodeCost, hot.evictList, hot.maxSize, id);
      if !running {
        return None;
      }
      r := hot.Get(id);
      if r.Some? {
        return;
      }
      r := SearchNodes(id);
      if r.Some? {
        var cached := hot.Put(r.value.id, r.value, nodeCost(r.value));
      }
    }

    method GetEdge(id: Bytes) returns (r: Option<Edge>)
      requires Valid()
      modifies data
      ensures Valid() && data.maxSize == old(data.maxSize)
      ensures !running ==> r == None && data.evictList == old(data.evictList)
      ensures running ==>
                (r, data.evictList) == EdgeThrough(c, writeLanes.views, edgeCost, old(data.evictList), data.maxSize, id)
      ensures running && Lookup(old(data.evictList), id).Some? ==>
                r == Lookup(old(data.evictList), id) && data.evictList == old(data.evictList)
      ensures running && Lookup(old(data.evictList), id).None? ==> r == Get(Edges(), id)
      ensures running ==> (r, data.evictList) == ReadOne(old(data.evictList), data.maxSize, Edges(), edgeCost, id)
      ensures old(Coherent()) ==> Coherent() && (running ==> r == Get(Edges(), id))
      ensures old(Coherent()) ==> CachesOnly(old(data.evictList), data.evictList, {id})
    {
      hide Owner, Reached, Agrees, SearchEdge, WriteLanes.Valid, Lookup, NodeModel, EdgeModel, PutIn;
      if Coherent() {
        EdgeThroughAgrees(c, log, writeLanes.views, edgeCost, data.evictList, data.maxSize, id);
      }
      EdgeThroughIs(c, log, writeLanes.views, edgeCost, data.evictList, data.maxSize, id);
      if !running {
        return None;
      }
      r := data.Get(id);
      if r.Some? {
        return;
      }
      r := SearchEdges(id);
      if r.Some? {
        var cached := data.Put(r.value.id, r.value, edgeCost(r.value));
      }
    }

    // ---------- writing ----------

    /** A write goes to the lane its ID hashes to. */
    method StoreNode(n: Node, now: i64) returns (out: Lane.NodeOutcome)
      requires Valid()
      modifies `log, writeLanes, writeLanes.Repr
      ensures writeLanes.founds == old(writeLanes.founds)
      ensures Valid() && fresh(writeLanes.Repr - old(writeLanes.Repr)) && log == old(log) + [WroteNode(n, out)]
      ensures out == NodeResult(n, c.memtableSize)
      ensures Nodes() == (if out.NodeWritten? then old(Nodes())[n.id := NormNode(n)] else old(Nodes())) &&
              Edges() == old(Edges())
      ensures old(Tidy(log)) ==> Tidy(log)
      ensures old(Anchored(log)) ==> Anchored(log)
    {
      hide Tidy, Anchored, Owner, Shard, Sharded, WriteLanes.Valid, Lane.WriteNodeStep, NodeModel, EdgeModel, Healthy,
        NodeResult;
      OwnerInRange(c, log, writeLanes.views, n.id);
      ghost var views := writeLanes.views;
      var o := Owner(c, n.id);
      LaneIsRunning(c, log, views, o);
      out := writeLanes.WriteNode(o, n, now);
      NodeOutcomeIs(views[o], n, writeLanes.views[o], out);
      ghost var ev := WroteNode(n, out);
      WriteStaysSharded(c, log, views, ev, writeLanes.views[o]);
      ModelSnoc(log, ev);
      KeepsGraph(log, ev);
      log := log + [ev];
    }

    method StoreEdge(e: Edge, now: i64) returns (out: Lane.EdgeOutcome)
      requires Valid()
      modifies `log, writeLanes, writeLanes.Repr
      ensures writeLanes.founds == old(writeLanes.founds)
      ensures Valid() && fresh(writeLanes.Repr - old(writeLanes.Repr)) && log == old(log) + [WroteEdge(e, out)]
      ensures EdgeResult(e, c.memtableSize, out)
      ensures Edges() == (if Kept(out) then old(Edges())[e.id := NormEdge(e)] else old(Edges())) &&
              Nodes() == old(Nodes())
      ensures old(Tidy(log)) ==> (Tidy(log) <==> (Kept(out) ==> WellFormedId(e.id) && e.id !in old(Edges())))
      ensures old(Anchored(log)) && e.from in Nodes() && e.to in Nodes() ==> Anchored(log)
    {
      hide Tidy, Anchored, Owner, Shard, Sharded, WriteLanes.Valid, Lane.WriteEdgeStep, NodeModel, EdgeModel, Healthy,
        EdgeResult;
      OwnerInRange(c, log, writeLanes.views, e.id);
      ghost var views := writeLanes.views;
      var o := Owner(c, e.id);
      LaneIsRunning(c, log, views, o);
      out := writeLanes.WriteEdge(o, e, now);
      EdgeOutcomeIs(views[o], e, writeLanes.views[o], out);
      ghost var ev := WroteEdge(e, out);
      WriteStaysSharded(c, log, views, ev, writeLanes.views[o]);
      ModelSnoc(log, ev);
      KeepsGraph(log, ev);
      log := log + [ev];
    }

    /** None when the engine is not running; otherwise the outcome depends on the node's own size. The
        cache is not told of the write, which keeps it coherent exactly when it does not hold another
        node of that ID. */
    method CreateNode(n: Node, now: i64) returns (out: Option<Lane.NodeOutcome>)
      requires Valid()
      modifies `log, writeLanes, writeLanes.Repr
      ensures writeLanes.founds == old(writeLanes.founds)
      ensures Valid() && fresh(writeLanes.Repr - old(writeLanes.Repr))
      ensures out == if running then Some(NodeResult(n, c.memtableSize)) else None
      ensures log == if running then old(log) + [WroteNode(n, out.value)] else old(log)
      ensures Nodes() == if out == Some(Lane.NodeWritten) then old(Nodes())[n.id := NormNode(n)] else old(Nodes())
      ensures Edges() == old(Edges())
      ensures old(Tidy(log)) ==> Tidy(log)
      ensures old(Anchored(log)) ==> Anchored(log)
      ensures old(Coherent()) ==> (Coherent() <==>
                out != Some(Lane.NodeWritten) || Lookup(hot.evictList, n.id) in {None, Some(NormNode(n))})
    {
      hide Agrees, Sharded, WriteLanes.Valid, LRUCache.Valid, Lookup, NodeModel, EdgeModel, Tidy, Anchored, NodeResult;
      if !running {
        return None;
      }
      if Coherent() {
        WriteBehindCache(Nodes(), hot.evictList, n.id, NormNode(n));
      }
      var w := StoreNode(n, now);
      return Some(w);
    }

    /** The cached entries of the ID are dropped before the write, so nothing stale remains. A
        successful update leaves the old node overlaid with the new properties. */
    method UpdateNode(id: Bytes, updates: seq<(Bytes, Value)>, clock: seq<Time>, now: i64, ghost props: Properties)
      returns (out: UpdateOutcome)
      requires Valid() && Enumerates(updates, props) && |clock| == |updates|
      modifies `log, hot, data, writeLanes, writeLanes.Repr
      ensures writeLanes.founds == old(writeLanes.founds)
      ensures Valid() && fresh(writeLanes.Repr - old(writeLanes.Repr))
      ensures out == UpdateStopped <==> !running
      ensures !running ==>
                log == old(log) && hot.evictList == old(hot.evictList) && data.evictList == old(data.evictList)
      ensures running ==>
                var (r, list) := ReadOne(old(hot.evictList), old(hot.maxSize), old(Nodes()), nodeCost, id);
                if r.None? then
                  out == NoSuchNode && log == old(log) && hot.evictList == list && data.evictList == old(data.evictList)
                else
                  var n := Revision(r.value, props, clock);
                  && out == Updated(NodeResult(n, c.memtableSize)) && log == old(log) + [WroteNode(n, out.out)]
                  && hot.evictList == Invalidated(list, id) && data.evictList == Invalidated(old(data.evictList), id)
      ensures old(Tidy(log)) ==> Tidy(log)
      ensures old(Anchored(log)) ==> Anchored(log)
      ensures old(Coherent()) ==> Coherent() && Edges() == old(Edges())
      ensures old(Coherent()) && running ==>
                if id !in old(Nodes()) then out == NoSuchNode && Nodes() == old(Nodes())
                else
                  var n := Revision(old(Nodes())[id], props, clock);
                  && out == Updated(NodeResult(n, c.memtableSize)) && log == old(log) + [WroteNode(n, out.out)]
                  && Nodes() == if out.out.NodeWritten? then old(Nodes())[id := NormNode(n)] else old(Nodes())
      ensures old(Coherent()) ==> CachesOnly(old(hot.evictList), hot.evictList, {})
      ensures old(Coherent()) ==> CachesOnly(old(data.evictList), data.evictList, {})
      ensures old(Coherent()) && running ==> Lookup(hot.evictList, id) == None
      ensures old(Coherent()) && out.Updated? ==> Lookup(data.evictList, id) == None
    {
      hide Agrees, Sharded, WriteLanes.Valid, Lookup, NodeModel, EdgeModel, Overlay, Enumerates, NodeThrough,
        Distinct, Mirrors, Recent, SizeOf, Tidy, Anchored, NodeResult, CachesOnly;
      CachesSame(hot.evictList, {});
      CachesSame(data.evictList, {});
      if !running {
        return UpdateStopped;
      }
      ghost var coherent, cached := Coherent(), hot.evictList;
      ModelIds(log, |log|, id);
      var r := GetNode(id);
      if r.None? {
        if coherent {
          UncachedWhenAbsent(Nodes(), hot.evictList, id);
          CachesNothing(cached, hot.evictList, id);
        }
        return NoSuchNode;
      }
      var n := ApplyUpdates(r.value, updates, clock);
      OverlayIs(r.value, props, updates, clock);
      ghost var read := hot.evictList;
      InvalidateNode(id);
      if coherent {
        CachesBoth(cached, read, hot.evictList, {id}, {});
        CachesMore(cached, hot.evictList, {id} + {}, {id});
        CachesNothing(cached, hot.evictList, id);
        WriteBehindCache(Nodes(), hot.evictList, id, NormNode(n));
      }
      var w := StoreNode(n, now);
      return Updated(w);
    }

    /** `Invalidate` of the cache: all its tiers drop the entry of that ID. */
    method InvalidateNode(id: Bytes)
      requires Valid()
      modifies hot, data
      ensures Valid()
      ensures hot.evictList == Invalidated(old(hot.evictList), id)
      ensures data.evictList == Invalidated(old(data.evictList), id)
      ensures hot.maxSize == old(hot.maxSize) && data.maxSize == old(data.maxSize)
      ensures old(Coherent()) ==>
                Coherent() && Lookup(hot.evictList, id) == None && Lookup(data.evictList, id) == None
      ensures old(Coherent()) ==>
                && CachesOnly(old(hot.evictList), hot.evictList, {})
                && CachesOnly(old(data.evictList), data.evictList, {})
    {
      hide Agrees, Sharded, WriteLanes.Valid, Lookup, NodeModel, EdgeModel, Distinct, Mirrors, Recent, SizeOf,
        CachesOnly;
      if Coherent() {
        InvalidateAgrees(Nodes(), hot.evictList, id);
        InvalidateAgrees(Edges(), data.evictList, id);
      }
      hot.Invalidate(id);
      data.Invalidate(id);
    }

    method ApplyUpdates(n: Node, updates: seq<(Bytes, Value)>, clock: seq<Time>) returns (r: Node)
      requires |clock| == |updates|
      ensures r == Overlay(n, updates, clock, |updates|)
    {
      r := n;
      var i := 0;
      while i < |updates|
        invariant i <= |updates| && r == Overlay(n, updates, clock, i)
      {
        r := SetProperty(r, updates[i].0, updates[i].1, clock[i]);
        i := i + 1;
      }
    }

    /** An edge is only written between nodes that can be read. */
    method CreateEdge(e: Edge, now: i64) returns (out: CreateOutcome)
      requires Valid()
      modifies `log, hot, writeLanes, writeLanes.Repr
      ensures writeLanes.founds == old(writeLanes.founds)
      ensures Valid() && fresh(writeLanes.Repr - old(writeLanes.Repr))
      ensures out == EngineStopped <==> !running
      ensures !running ==> hot.evictList == old(hot.evictList)
      ensures running ==>
                var (from, l) := ReadOne(old(hot.evictList), old(hot.maxSize), old(Nodes()), nodeCost, e.from);
                var (to, list) := ReadOne(l, old(hot.maxSize), old(Nodes()), nodeCost, e.to);
                if from.None? then out == NoSource && hot.evictList == l
                else if to.None? then out == NoTarget && hot.evictList == list
                else out.Created? && hot.evictList == list
      ensures log == if out.Created? then old(log) + [WroteEdge(e, out.out)] else old(log)
      ensures out.Created? ==> EdgeResult(e, c.memtableSize, out.out)
      ensures old(Coherent()) ==> Nodes() == old(Nodes()) && Agrees(Nodes(), hot.evictList)
      ensures old(Coherent()) && running ==> (out == NoSource <==> e.from !in Nodes())
      ensures old(Coherent()) && running ==> (out == NoTarget <==> e.from in Nodes() && e.to !in Nodes())
      ensures old(Coherent()) ==>
                Edges() == if out.Created? && Kept(out.out) then old(Edges())[e.id := NormEdge(e)] else old(Edges())
      ensures old(Coherent()) ==> (Coherent() <==>
                !(out.Created? && Kept(out.out)) || Lookup(data.evictList, e.id) in {None, Some(NormEdge(e))})
      ensures old(Tidy(log)) && old(Coherent()) ==>
                (Tidy(log) <==> !(out.Created? && Kept(out.out)) || (WellFormedId(e.id) && e.id !in old(Edges())))
      ensures old(Anchored(log)) && old(Coherent()) ==> Anchored(log)
      ensures old(Coherent()) ==> CachesOnly(old(hot.evictList), hot.evictList, {e.from, e.to})
    {
      hide Agrees, Sharded, WriteLanes.Valid, LRUCache.Valid, Lookup, NodeModel, EdgeModel, NodeThrough, Anchored, Tidy,
        EdgeResult, CachesOnly;
      if !running {
        CachesSame(hot.evictList, {e.from, e.to});
        return EngineStopped;
      }
      ghost var coherent, cached := Coherent(), hot.evictList;
      var from := GetNode(e.from);
      if from.None? {
        if coherent {
          CachesMore(cached, hot.evictList, {e.from}, {e.from, e.to});
        }
        return NoSource;
      }
      ghost var read := hot.evictList;
      var to := GetNode(e.to);
      if coherent {
        CachesBoth(cached, read, hot.evictList, {e.from}, {e.to});
        CachesMore(cached, hot.evictList, {e.from} + {e.to}, {e.from, e.to});
      }
      if to.None? {
        return NoTarget;
      }
      if coherent {
        WriteBehindCache(Edges(), data.evictList, e.id, NormEdge(e));
      }
      var w := StoreEdge(e, now);
      return Created(w);
    }

    // ---------- neighbours ----------

    /** The edge IDs every lane lists for the node: what the listed IDs are read back as. */
    method ListedIds(node: Bytes, outgoing: bool) returns (ids: set<Bytes>)
      requires Valid()
      ensures forall t :: t in ids <==> t in AllTokens(Listed(log, node, outgoing))
    {
      hide Sharded, WriteLanes.Valid, LRUCache.Valid, Listed, LaneList, AllTokens;
      OwnerInRange(c, log, writeLanes.views, node);
      ghost var lanes := writeLanes.views;
      ids := {};
      var i := 0;
      while i < c.numLanes
        invariant i <= c.numLanes
        invariant forall t :: t in ids <==> ListedBelow(lanes, i, node, outgoing, t)
      {
        var found := writeLanes.ListedAt(i, node, outgoing);
        ids := ids + set id | id in found;
        i := i + 1;
      }
      forall t
        ensures t in ids <==> t in AllTokens(Listed(log, node, outgoing))
      {
        AllLanesList(c, log, lanes, node, outgoing, t);
      }
    }

    method FetchEdges(ids: set<Bytes>) returns (edges: seq<Edge>, ghost order: seq<Bytes>)
      requires Valid() && running
      modifies data
      ensures Valid() && data.maxSize == old(data.maxSize) && EachOnce(order, ids)
      ensures var (pairs, after) := ReadAll(old(data.evictList), data.maxSize, Edges(), edgeCost, order);
              edges == ValuesFound(pairs) && data.evictList == after
    {
      hide Agrees, Sharded, WriteLanes.Valid, LRUCache.Valid, NodeModel, EdgeModel, EdgeThrough, ReadOne, CachesOnly;
      ghost var pairs: seq<(Bytes, Edge)> := [];
      edges, order := [], [];
      var rest := ids;
      while rest != {}
        invariant Valid() && rest <= ids && data.maxSize == old(data.maxSize)
        invariant EachOnce(order, ids - rest) && edges == ValuesFound(pairs)
        invariant (pairs, data.evictList) == ReadAll(old(data.evictList), data.maxSize, Edges(), edgeCost, order)
        decreases |rest|
      {
        var id :| id in rest;
        var r := GetEdge(id);
        TakeOut(ids, rest, id);
        OneMore(order, ids - rest, id);
        ReadAllMore(old(data.evictList), data.maxSize, Edges(), edgeCost, order, id);
        if r.Some? {
          ValuesSnoc(pairs, (id, r.value));
          edges, pairs := edges + [r.value], pairs + [(id, r.value)];
        }
        order := order + [id];
        rest := rest - {id};
      }
      AllTaken(ids, rest);
    }

    method FetchNodes(ids: set<Bytes>) returns (nodes: seq<Node>, ghost order: seq<Bytes>)
      requires Valid() && running
      modifies hot
      ensures Valid() && hot.maxSize == old(hot.maxSize) && EachOnce(order, ids)
      ensures var (pairs, after) := ReadAll(old(hot.evictList), hot.maxSize, Nodes(), nodeCost, order);
              nodes == ValuesFound(pairs) && hot.evictList == after
    {
      hide Agrees, Sharded, WriteLanes.Valid, LRUCache.Valid, NodeModel, EdgeModel, NodeThrough, ReadOne, CachesOnly;
      ghost var pairs: seq<(Bytes, Node)> := [];
      nodes, order := [], [];
      var rest := ids;
      while rest != {}
        invariant Valid() && rest <= ids && hot.maxSize == old(hot.maxSize)
        invariant EachOnce(order, ids - rest) && nodes == ValuesFound(pairs)
        invariant (pairs, hot.evictList) == ReadAll(old(hot.evictList), hot.maxSize, Nodes(), nodeCost, order)
        decreases |rest|
      {
        var id :| id in rest;
        var r := GetNode(id);
        TakeOut(ids, rest, id);
        OneMore(order, ids - rest, id);
        ReadAllMore(old(hot.evictList), hot.maxSize, Nodes(), nodeCost, order, id);
        if r.Some? {
          ValuesSnoc(pairs, (id, r.value));
          nodes, pairs := nodes + [r.value], pairs + [(id, r.value)];
        }
        order := order + [id];
        rest := rest - {id};
      }
      AllTaken(ids, rest);
    }

    /** The stored edges whose IDs the node's lists give, each once; with fresh, well-formed IDs exactly the
        edges created with this source. */
    method GetOutgoingEdges(node: Bytes) returns (edges: seq<Edge>)
      requires Valid()
      modifies data
      ensures Valid() && data.maxSize == old(data.maxSize)
      ensures !running ==> edges == [] && data.evictList == old(data.evictList)
      ensures running ==> ReadsAll(old(data.evictList), data.maxSize, Edges(), edgeCost, IdsAt(log, node, true), edges,
                                   data.evictList)
      ensures old(Coherent()) ==> Coherent() && CachesOnly(old(data.evictList), data.evictList, IdsAt(log, node, true))
      ensures running && old(Coherent()) ==> EdgesListed(edges, log, node, true)
      ensures running && old(Coherent()) && Tidy(log) ==> ExactEdges(edges, log, node, true)
    {
      edges := CollectEdges(node, true);
    }

    /** Dually for the edges that the node is listed as the target of. */
    method GetIncomingEdges(node: Bytes) returns (edges: seq<Edge>)
      requires Valid()
      modifies data
      ensures Valid() && data.maxSize == old(data.maxSize)
      ensures !running ==> edges == [] && data.evictList == old(data.evictList)
      ensures running ==> ReadsAll(old(data.evictList), data.maxSize, Edges(), edgeCost, IdsAt(log, node, false), edges,
                                   data.evictList)
      ensures old(Coherent()) ==> Coherent() && CachesOnly(old(data.evictList), data.evictList, IdsAt(log, node, false))
      ensures running && old(Coherent()) ==> EdgesListed(edges, log, node, false)
      ensures running && old(Coherent()) && Tidy(log) ==> ExactEdges(edges, log, node, false)
    {
      edges := CollectEdges(node, false);
    }

    /** The common body of the two. */
    method CollectEdges(node: Bytes, outgoing: bool) returns (edges: seq<Edge>)
      requires Valid()
      modifies data
      ensures Valid() && data.maxSize == old(data.maxSize)
      ensures !running ==> edges == [] && data.evictList == old(data.evictList)
      ensures running ==>
                ReadsAll(old(data.evictList), data.maxSize, Edges(), edgeCost, IdsAt(log, node, outgoing), edges,
                                   data.evictList)
      ensures old(Coherent()) ==>
                Coherent() && CachesOnly(old(data.evictList), data.evictList, IdsAt(log, node, outgoing))
      ensures running && old(Coherent()) ==> EdgesListed(edges, log, node, outgoing)
      ensures running && old(Coherent()) && Tidy(log) ==> ExactEdges(edges, log, node, outgoing)
    {
      hide Agrees, Sharded, WriteLanes.Valid, LRUCache.Valid, NodeModel, EdgeModel, Selects, IdsAt, EdgesListed,
        ExactEdges, Tidy, AllTokens, ReadAll, CachesOnly, EachOnce;
      if !running {
        CachesSame(data.evictList, IdsAt(log, node, outgoing));
        return [];
      }
      ghost var coherent, list := Coherent(), data.evictList;
      var ids := ListedIds(node, outgoing);
      IdsAre(log, node, outgoing, ids);
      ghost var order;
      edges, order := FetchEdges(ids);
      assert ReadsAll(list, data.maxSize, Edges(), edgeCost, ids, edges, data.evictList);
      if coherent {
        ReadsAllAgrees(list, data.maxSize, Edges(), edgeCost, ids, order);
        ListedEdgesRead(log, node, outgoing, edges, KeysFound(ReadAll(list, data.maxSize, Edges(), edgeCost, order).0));
        if Tidy(log) {
          TidyEdges(log, node, outgoing, edges);
        }
      }
    }

    /** The stored nodes at the other end of those edges, each once, in the chosen direction; for edges
        created with fresh, well-formed IDs these are exactly the node's neighbours. */
    method GetNeighbors(node: Bytes, direction: Direction) returns (nodes: seq<Node>)
      requires Valid()
      modifies hot, data
      ensures Valid()
      ensures !running ==>
                nodes == [] && hot.evictList == old(hot.evictList) && data.evictList == old(data.evictList)
      ensures running ==>
                NeighborsRead(log, node, direction, old(hot.maxSize), nodeCost, old(hot.evictList), hot.evictList,
                              old(data.maxSize), edgeCost, old(data.evictList), data.evictList, nodes)
      ensures old(Coherent()) ==> Coherent()
      ensures running && old(Coherent()) ==>
                && NeighborsListed(log, node, direction, nodes)
                && (forall id :: Lookup(hot.evictList, id).Some? ==>
                      ReachesEnd(log, node, direction, id) || Lookup(old(hot.evictList), id).Some?)
                && CachesOnly(old(data.evictList), data.evictList, IdsIn(log, node, direction))
      ensures running && old(Coherent()) && Tidy(log) && Anchored(log) ==> NeighborsAre(log, node, direction, nodes)
    {
      hide Agrees, Sharded, WriteLanes.Valid, LRUCache.Valid, NodeModel, EdgeModel, Selects, Lookup, IdsAt, EdgesListed,
        ExactEdges, Tidy, Anchored, IsNeighbor, NeighborsAre, NeighborsListed, ReadAll, ReachesEnd, CachesOnly,
        EachOnce;
      if !running {
        return [];
      }
      ghost var coherent, list, start := Coherent(), hot.evictList, data.evictList;
      var ids: set<Bytes> := {};
      var outgoing, incoming := [], [];
      CachesSame(start, {});
      if direction == Out || direction == Both {
        outgoing := GetOutgoingEdges(node);
        ids := ids + set x | x in outgoing :: x.to;
      }
      ghost var mid := data.evictList;
      if direction == In || direction == Both {
        incoming := GetIncomingEdges(node);
        ids := ids + set x | x in incoming :: x.from;
      }
      assert ids == FarEnds(outgoing, incoming);
      assert EdgesRead(Outward(direction), start, old(data.maxSize), Edges(), edgeCost,
                       IdsAt(log, node, true), outgoing, mid);
      assert EdgesRead(Inward(direction), mid, old(data.maxSize), Edges(), edgeCost, IdsAt(log, node, false), incoming,
                       data.evictList);
      ghost var order;
      nodes, order := FetchNodes(ids);
      assert ReadsAll(list, hot.maxSize, Nodes(), nodeCost, ids, nodes, hot.evictList);
      if coherent {
        EndsReached(log, node, direction, outgoing, incoming);
        ReadsAllAgrees(list, hot.maxSize, Nodes(), nodeCost, ids, order);
        EndsRead(log, node, direction, ids, nodes, KeysFound(ReadAll(list, hot.maxSize, Nodes(), nodeCost, order).0));
        OnlyReached(log, node, direction, ids, list, hot.evictList);
        BothCached(log, node, direction, start, mid, data.evictList);
        if Tidy(log) && Anchored(log) {
          TidyNeighbors(log, node, direction, nodes);
        }
      }
    }
  }

  /** What a search for neighbours does in any state: it reads the edges of the wanted directions and then
      the nodes at their other ends, through the two caches. */
  ghost predicate NeighborsRead(log: Writes, node: Bytes, direction: Direction, hotSize: int, nodeCost: Node -> int,
                                hot: seq<Entry<Node>>, hot': seq<Entry<Node>>, dataSize: int, edgeCost: Edge -> int,
                                data: seq<Entry<Edge>>, data': seq<Entry<Edge>>, nodes: seq<Node>)
  {
    var edges := EdgeModel(log, |log|);
    exists outgoing, incoming, mid ::
      && EdgesRead(Outward(direction), data, dataSize, edges, edgeCost, IdsAt(log, node, true), outgoing, mid)
      && EdgesRead(Inward(direction), mid, dataSize, edges, edgeCost, IdsAt(log, node, false), incoming, data')
      && ReadsAll(hot, hotSize, NodeModel(log, |log|), nodeCost, FarEnds(outgoing, incoming), nodes, hot')
  }

  /** What the IDs listed at the node are read back as. */
  function IdsAt(log: Writes, node: Bytes, outgoing: bool): set<Bytes> {
    set t | t in AllTokens(Listed(log, node, outgoing))
  }

  lemma IdsAre(log: Writes, node: Bytes, outgoing: bool, ids: set<Bytes>)
    requires forall t :: t in ids <==> t in AllTokens(Listed(log, node, outgoing))
    ensures ids == IdsAt(log, node, outgoing)
  {
    hide Listed, AllTokens;
  }

  function IdsIn(log: Writes, node: Bytes, direction: Direction): set<Bytes> {
    (if Outward(direction) then IdsAt(log, node, true) else {}) +
    (if Inward(direction) then IdsAt(log, node, false) else {})
  }

  function FarEnds(outgoing: seq<Edge>, incoming: seq<Edge>): set<Bytes> {
    (set x | x in outgoing :: x.to) + (set x | x in incoming :: x.from)
  }

  predicate Outward(direction: Direction) { direction.Out? || direction.Both? }

  predicate Inward(direction: Direction) { direction.In? || direction.Both? }

  /** The edges of one direction are read, if they are wanted. */
  ghost predicate EdgesRead(wanted: bool, list: seq<Entry<Edge>>, maxSize: int, model: map<Bytes, Edge>,
                            cost: Edge -> int, ids: set<Bytes>, found: seq<Edge>, after: seq<Entry<Edge>>)
  {
    if wanted then ReadsAll(list, maxSize, model, cost, ids, found, after) else found == [] && after == list
  }

  /** `x` is stored under an ID that is listed at the node. After a second write of its ID it need not
      run from, or to, the node. */
  ghost predicate ListedEdge(log: Writes, node: Bytes, outgoing: bool, x: Edge) {
    exists t :: t in IdsAt(log, node, outgoing) && Get(EdgeModel(log, |log|), t) == Some(x)
  }

  /** Exactly those edges, each once. */
  ghost predicate EdgesListed(edges: seq<Edge>, log: Writes, node: Bytes, outgoing: bool) {
    && (forall x :: x in edges <==> ListedEdge(log, node, outgoing, x))
    && (forall i, j :: 0 <= i < j < |edges| ==> edges[i].id != edges[j].id)
  }

  /** `id` is at the other end of such an edge. */
  ghost predicate ReachesEnd(log: Writes, node: Bytes, direction: Direction, id: Bytes) {
    || (Outward(direction) && exists x :: ListedEdge(log, node, true, x) && x.to == id)
    || (Inward(direction) && exists x :: ListedEdge(log, node, false, x) && x.from == id)
  }

  /** Exactly the stored nodes there, each once and as it was written last. */
  ghost predicate NeighborsListed(log: Writes, node: Bytes, direction: Direction, nodes: seq<Node>) {
    && (forall i, j :: 0 <= i < j < |nodes| ==> nodes[i].id != nodes[j].id)
    && (forall i :: 0 <= i < |nodes| ==> Get(NodeModel(log, |log|), nodes[i].id) == Some(nodes[i]))
    && (forall id :: Includes(nodes, id) <==> id in NodeModel(log, |log|) && ReachesEnd(log, node, direction, id))
  }

  ghost predicate ExactEdges(edges: seq<Edge>, log: Writes, node: Bytes, outgoing: bool) {
    && (forall x :: x in edges <==> IsEdgeOf(log, node, outgoing, x))
    && (forall i, j :: 0 <= i < j < |edges| ==> edges[i].id != edges[j].id)
  }

  lemma ListedEdgesRead(log: Writes, node: Bytes, outgoing: bool, edges: seq<Edge>, keys: seq<Bytes>)
    requires Selects(edges, keys, EdgeModel(log, |log|), IdsAt(log, node, outgoing))
    ensures EdgesListed(edges, log, node, outgoing)
  {
    hide EdgeModel, NodeModel, IdsAt;
    forall i | 0 <= i < |edges|
      ensures edges[i].id == keys[i] && ListedEdge(log, node, outgoing, edges[i])
    {
      ModelIds(log, |log|, keys[i]);
    }
    forall x | ListedEdge(log, node, outgoing, x)
      ensures x in edges
    {
      var t :| t in IdsAt(log, node, outgoing) && Get(EdgeModel(log, |log|), t) == Some(x);
      var i :| 0 <= i < |keys| && keys[i] == t;
      assert edges[i] == x;
    }
  }

  /** With fresh, well-formed IDs the edges stored under the listed IDs are the node's own. */
  lemma ListedIsEdge(log: Writes, node: Bytes, outgoing: bool, x: Edge)
    requires Tidy(log)
    ensures ListedEdge(log, node, outgoing, x) <==> IsEdgeOf(log, node, outgoing, x)
  {
    hide EdgeModel, NodeModel, FreshEdges, WellFormedWrites, Listed, IsEdgeOf, AllTokens;
    ListedTokens(log, node, outgoing);
    if ListedEdge(log, node, outgoing, x) {
      var t :| t in IdsAt(log, node, outgoing) && Get(EdgeModel(log, |log|), t) == Some(x);
      ListedEdges(log, node, outgoing, t);
    }
    if IsEdgeOf(log, node, outgoing, x) {
      EdgeIsStored(log, node, outgoing, x);
      ListedEdges(log, node, outgoing, x.id);
      assert x.id in IdsAt(log, node, outgoing);
    }
  }

  lemma TidyEdges(log: Writes, node: Bytes, outgoing: bool, edges: seq<Edge>)
    requires Tidy(log) && EdgesListed(edges, log, node, outgoing)
    ensures ExactEdges(edges, log, node, outgoing)
  {
    hide Tidy, ListedEdge, IsEdgeOf;
    forall x
      ensures x in edges <==> IsEdgeOf(log, node, outgoing, x)
    {
      ListedIsEdge(log, node, outgoing, x);
    }
  }

  lemma EndsReached(log: Writes, node: Bytes, direction: Direction, outgoing: seq<Edge>, incoming: seq<Edge>)
    requires if Outward(direction) then EdgesListed(outgoing, log, node, true) else outgoing == []
    requires if Inward(direction) then EdgesListed(incoming, log, node, false) else incoming == []
    ensures forall id :: id in FarEnds(outgoing, incoming) <==> ReachesEnd(log, node, direction, id)
  {
    hide ListedEdge;
    forall id
      ensures id in FarEnds(outgoing, incoming) <==> ReachesEnd(log, node, direction, id)
    {
      assert id in FarEnds(outgoing, incoming) <==>
             (exists x :: x in outgoing && x.to == id) || (exists x :: x in incoming && x.from == id);
    }
  }

  lemma EndsRead(log: Writes, node: Bytes, direction: Direction, ids: set<Bytes>, nodes: seq<Node>, keys: seq<Bytes>)
    requires Selects(nodes, keys, NodeModel(log, |log|), ids)
    requires forall id :: id in ids <==> ReachesEnd(log, node, direction, id)
    ensures NeighborsListed(log, node, direction, nodes)
  {
    hide EdgeModel, NodeModel, ReachesEnd;
    forall i | 0 <= i < |keys|
      ensures nodes[i].id == keys[i]
    {
      ModelIds(log, |log|, keys[i]);
    }
    forall id
      ensures Includes(nodes, id) <==> id in NodeModel(log, |log|) && ReachesEnd(log, node, direction, id)
    {
      if id in NodeModel(log, |log|) && ReachesEnd(log, node, direction, id) {
        var i :| 0 <= i < |keys| && keys[i] == id;
        assert nodes[i].id == id;
      }
    }
  }

  lemma OnlyReached(log: Writes, node: Bytes, direction: Direction, ids: set<Bytes>, before: seq<Entry<Node>>,
                    after: seq<Entry<Node>>)
    requires CachesOnly(before, after, ids) && forall id :: id in ids <==> ReachesEnd(log, node, direction, id)
    ensures forall id :: Lookup(after, id).Some? ==>
              ReachesEnd(log, node, direction, id) || Lookup(before, id).Some?
  {
    hide Lookup, ReachesEnd;
  }

  lemma BothCached(log: Writes, node: Bytes, direction: Direction, start: seq<Entry<Edge>>, mid: seq<Entry<Edge>>,
                   end: seq<Entry<Edge>>)
    requires if Outward(direction) then CachesOnly(start, mid, IdsAt(log, node, true)) else mid == start
    requires if Inward(direction) then CachesOnly(mid, end, IdsAt(log, node, false)) else end == mid
    ensures CachesOnly(start, end, IdsIn(log, node, direction))
  {
    hide Lookup, IdsAt;
  }

  lemma TidyNeighbors(log: Writes, node: Bytes, direction: Direction, nodes: seq<Node>)
    requires Tidy(log) && Anchored(log) && NeighborsListed(log, node, direction, nodes)
    ensures NeighborsAre(log, node, direction, nodes)
  {
    hide Tidy, Anchored, ListedEdge, IsEdgeOf, NodeModel, Includes;
    forall x, outgoing: bool
      ensures ListedEdge(log, node, outgoing, x) <==> IsEdgeOf(log, node, outgoing, x)
    {
      ListedIsEdge(log, node, outgoing, x);
    }
    forall id
      ensures Includes(nodes, id) <==> IsNeighbor(log, node, direction, id)
    {
      assert ReachesEnd(log, node, direction, id) <==> IsNeighbor(log, node, direction, id);
      if IsNeighbor(log, node, direction, id) {
        NeighborExists(log, node, direction, id);
      }
    }
  }

  /** Reading through an agreeing cache selects what the map has for the IDs. */
  lemma ReadsAllAgrees<V>(list: seq<Entry<V>>, maxSize: int, model: map<Bytes, V>, cost: V -> int, ids: set<Bytes>,
                          order: seq<Bytes>)
    requires Agrees(model, list) && EachOnce(order, ids)
    ensures var (pairs, after) := ReadAll(list, maxSize, model, cost, order);
            && Selects(ValuesFound(pairs), KeysFound(pairs), model, ids)
            && Agrees(model, after) && CachesOnly(list, after, ids)
  {
    hide Agrees, Selects, ReadAll, CachesOnly;
    ReadAllAgrees(list, maxSize, model, cost, order);
    assert Members(order) == ids;
  }

  lemma OneMore<T(!new)>(order: seq<T>, ids: set<T>, id: T)
    requires EachOnce(order, ids) && id !in ids
    ensures EachOnce(order + [id], ids + {id})
  {
    forall x
      ensures x in order + [id] <==> x in ids + {id}
    {
    }
  }

  lemma ReadAllMore<V>(list: seq<Entry<V>>, maxSize: int, model: map<Bytes, V>, cost: V -> int, order: seq<Bytes>,
                       id: Bytes)
    ensures var (found, l) := ReadAll(list, maxSize, model, cost, order);
            var (r, after) := ReadOne(l, maxSize, model, cost, id);
            ReadAll(list, maxSize, model, cost, order + [id])
            == (if r.Some? then found + [(id, r.value)] else found, after)
  {
    hide ReadOne;
    SnocParts(order, id);
  }

  lemma NeighborExists(log: Writes, node: Bytes, direction: Direction, id: Bytes)
    requires Anchored(log) && IsNeighbor(log, node, direction, id)
    ensures id in NodeModel(log, |log|)
  {
    hide NodeModel, EdgeModel;
    hide IsEdgeOf, Anchored;
    var outgoing, x :| IsEdgeOf(log, node, outgoing, x) && id == if outgoing then x.to else x.from;
    EndsExist(log, node, outgoing, x);
  }

  lemma EmptyAgrees<V>(model: map<Bytes, V>)
    ensures Agrees(model, [])
  {
  }

  lemma TakeOut<T>(ids: set<T>, rest: set<T>, id: T)
    requires id in rest && rest <= ids
    ensures id !in ids - rest && (ids - rest) + {id} == ids - (rest - {id})
  {
  }

  lemma AllTaken<T>(ids: set<T>, rest: set<T>)
    requires rest == {}
    ensures ids - rest == ids
  {
  }

  ghost predicate ListedBelow(lanes: seq<Lane.Lane>, n: nat, node: Bytes, outgoing: bool, t: Bytes) {
    exists i :: 0 <= i < n && i < |lanes| && t in LaneList(lanes[i], node, outgoing)
  }

  /** Together the lanes list what the log's IDs are read back as. */
  lemma AllLanesList(c: Config, log: Writes, lanes: seq<Lane.Lane>, node: Bytes, outgoing: bool, t: Bytes)
    requires Sharded(c, log, lanes)
    ensures ListedBelow(lanes, c.numLanes, node, outgoing, t) <==> t in AllTokens(Listed(log, node, outgoing))
  {
    hide Owner, Shard, Reached, Listed, LaneList, AllTokens, Tokens;
    var ids := Listed(log, node, outgoing);
    TokenSources(ids, t);
    if ListedBelow(lanes, c.numLanes, node, outgoing, t) {
      var i :| 0 <= i < |lanes| && t in LaneList(lanes[i], node, outgoing);
      LaneLists(c, log, lanes, i, node, outgoing, t);
    }
    if t in AllTokens(ids) {
      var id :| id in ids && t in Tokens(id);
      LaneLists(c, log, lanes, Owner(c, id), node, outgoing, t);
    }
  }

  /** With well-formed IDs that is the IDs themselves. */
  lemma ListedTokens(log: Writes, node: Bytes, outgoing: bool)
    requires WellFormedWrites(log)
    ensures AllTokens(Listed(log, node, outgoing)) == Listed(log, node, outgoing)
  {
    hide AllTokens, WellFormedId, OutIds, InIds;
    var ids := Listed(log, node, outgoing);
    forall id | id in ids
      ensures WellFormedId(id)
    {
      ListedIff(log, |log|, node, id);
      var i :| 0 <= i < |log| && ListsId(log[i], node, outgoing, id);
      ListsItsId(log[i], node);
    }
    TokensOfWellFormed(ids);
  }

  /** What one more event does to tidiness and anchoring. */
  lemma KeepsGraph(log: Writes, ev: Event)
    requires IsWrite(ev)
    ensures Tidy(log) ==>
              (Tidy(log + [ev]) <==>
                 (KeepsEdge(ev) ==> WellFormedId(ev.edge.id) && ev.edge.id !in EdgeModel(log, |log|)))
    ensures Anchored(log) &&
            (KeepsEdge(ev) ==> ev.edge.from in NodeModel(log, |log|) && ev.edge.to in NodeModel(log, |log|)) ==>
              Anchored(log + [ev])
  {
    hide Tidy, Anchored, EdgeModel, NodeModel;
    if Tidy(log) {
      TidySnoc(log, ev);
    }
    if Anchored(log)
       && (KeepsEdge(ev) ==> ev.edge.from in NodeModel(log, |log|) && ev.edge.to in NodeModel(log, |log|)) {
      AnchoredSnoc(log, ev);
    }
  }

  lemma OwnerInRange(c: Config, log: Writes, lanes: seq<Lane.Lane>, id: Bytes)
    requires Sharded(c, log, lanes)
    ensures Usable(c) && Owner(c, id) < |lanes| == c.numLanes
  {
  }
}
