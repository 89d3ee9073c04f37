/** The write lane object (pkg/storage/write_lane.go). Its methods make the transitions of module
    Lane; what they mean for readers is proved in LaneReads, LaneRuns, LaneIndex and Recovery. */
module WriteLane {
  import opened Bytes
  import opened Graph
  import opened Serialization
  import Serializer
  import opened EdgeList
  import M = Memtable
  import opened Wal
  import L = Lane
  import LaneRuns
  import Recovery
  import RecoveryIndex

  lemma RotatedTables(ts: seq<M.Table>, t: M.Table, maxSize: int)
    ensures L.FreezeAndAdd(ts + [t], maxSize) == (ts + [t.(frozen := true)]) + [M.Fresh(maxSize)]
  {
  }

  lemma ActiveIsLast(ts: seq<M.Table>, t: M.Table, u: M.Table)
    ensures L.Last(ts + [t]) == t && L.SetLast(ts + [t], u) == ts + [u]
  {
  }

  /** The tables of one kind: the active one and the old ones. The source keeps three such pairs in
      the lane itself (`active` and `old`, `activeEdges` and `oldEdges`, `activeAdj` and `oldAdj`). */
  class Tables {
    const maxSize: int
    var active: M.Memtable
    var old_: seq<M.Memtable>
    ghost var contents: seq<M.Table>  // what the old tables hold; they no longer change
    ghost var Repr: set<object>

    ghost predicate Valid()
      reads this, Repr
      ensures Valid() ==> this in Repr && active in Repr
    {
      && this in Repr && active in Repr && !active.frozen && active.maxSize == maxSize
      && |old_| == |contents|
      && forall i :: 0 <= i < |old_| ==> old_[i] in Repr && old_[i] != active && old_[i].View() == contents[i]
    }

    /** Oldest first, the active table last. */
    ghost function View(): seq<M.Table>
      reads this, active
    {
      contents + [active.View()]
    }

    constructor (maxSize: int)
      ensures Valid() && fresh(Repr) && View() == [M.Fresh(maxSize)] && this.maxSize == maxSize
    {
      this.maxSize := maxSize;
      var t := new M.Memtable(maxSize);
      active, old_, contents, Repr := t, [], [], {this, t};
    }

    lemma ViewIsActive()
      requires Valid()
      ensures L.ActiveTables(View(), maxSize) && L.Last(View()) == active.View()
    {
    }

    method Rotate()
      requires Valid()
      modifies Repr
      ensures Valid() && fresh(Repr - old(Repr))
      ensures L.ActiveTables(old(View()), maxSize) && View() == L.FreezeAndAdd(old(View()), maxSize)
    {
      hide L.FreezeAndAdd;
      ViewIsActive();
      RotatedTables(contents, active.View(), maxSize);
      active.Freeze();
      old_ := old_ + [active];
      contents := contents + [active.View()];
      active := new M.Memtable(maxSize);
      Repr := Repr + {active};
    }

    method PutNode(n: Node) returns (r: M.PutResult, ghost stored: Bytes)
      requires Valid() && Supported(n.props)
      modifies Repr
      ensures Valid() && Repr == old(Repr) && EncodesNode(stored, n)
      ensures L.ActiveTables(old(View()), maxSize)
      ensures var (t, done) := M.Put(L.Last(old(View())), M.NodeKey(n.id), stored);
              View() == L.SetLast(old(View()), t) && r == done
    {
      hide M.Put, EncodesNode;
      ViewIsActive();
      var done;
      done, stored := active.PutNode(n);
      r := done.value;
      ActiveIsLast(contents, old(active.View()), active.View());
      PutKeeps(old(active.View()), M.NodeKey(n.id), stored);
    }

    method PutEdge(e: Edge) returns (r: M.PutResult, ghost stored: Bytes)
      requires Valid() && Supported(e.props)
      modifies Repr
      ensures Valid() && Repr == old(Repr) && EncodesEdge(stored, e)
      ensures L.ActiveTables(old(View()), maxSize)
      ensures var (t, done) := M.Put(L.Last(old(View())), M.EdgeKey(e.id), stored);
              View() == L.SetLast(old(View()), t) && r == done
    {
      hide M.Put, EncodesEdge;
      ViewIsActive();
      var done;
      done, stored := active.PutEdge(e);
      r := done.value;
      ActiveIsLast(contents, old(active.View()), active.View());
      PutKeeps(old(active.View()), M.EdgeKey(e.id), stored);
    }

    method AddEdgeTo(key: Bytes, edgeID: Bytes) returns (r: M.PutResult)
      requires Valid()
      modifies Repr
      ensures Valid() && Repr == old(Repr)
      ensures L.ActiveTables(old(View()), maxSize)
      ensures var (t, done) := M.AddToList(L.Last(old(View())), key, edgeID);
              View() == L.SetLast(old(View()), t) && r == done
    {
      hide M.Put;
      ViewIsActive();
      r := active.AddEdgeTo(key, edgeID);
      ActiveIsLast(contents, old(active.View()), active.View());
      PutKeeps(old(active.View()), key, M.ListAt(old(active.View()), key) + Item(edgeID));
    }

    method DeleteKey(key: Bytes)
      requires Valid()
      modifies Repr
      ensures Valid() && Repr == old(Repr)
      ensures L.ActiveTables(old(View()), maxSize)
      ensures View() == L.SetLast(old(View()), M.Delete(L.Last(old(View())), key).0)
    {
      ViewIsActive();
      var r := active.DeleteKey(key);
      ActiveIsLast(contents, old(active.View()), active.View());
    }

    lemma PutKeeps(t: M.Table, key: Bytes, value: Bytes)
      ensures M.Put(t, key, value).0.frozen == t.frozen && M.Put(t, key, value).0.maxSize == t.maxSize
    {
    }

    /** The active table first, then the old ones from the newest to the oldest. */
    method ReadNode(id: Bytes) returns (n: Option<Node>)
      requires Valid()
      ensures n == L.NewestNode(L.Stack(View(), |View()|, M.NodeKey(id)))
    {
      hide L.Stack, L.NewestNode, M.GetNode;
      n := active.ReadNode(id);
      ghost var newest := L.NewestNode(L.Stack(View(), |View()|, M.NodeKey(id)));
      L.NewestNodeStep(View(), |View()|, id);
      var i := |old_|;
      while n.None? && i > 0
        invariant 0 <= i <= |old_|
        invariant if n.Some? then n == newest else newest == L.NewestNode(L.Stack(View(), i, M.NodeKey(id)))
      {
        i := i - 1;
        n := old_[i].ReadNode(id);
        assert View()[i] == old_[i].View();
        L.NewestNodeStep(View(), i + 1, id);
      }
      if n.None? {
        NothingStacked(View(), M.NodeKey(id));
      }
    }

    method ReadEdge(id: Bytes) returns (e: Option<Edge>)
      requires Valid()
      ensures e == L.NewestEdge(L.Stack(View(), |View()|, M.EdgeKey(id)))
    {
      hide L.Stack, L.NewestEdge, M.GetEdge;
      e := active.ReadEdge(id);
      ghost var newest := L.NewestEdge(L.Stack(View(), |View()|, M.EdgeKey(id)));
      L.NewestEdgeStep(View(), |View()|, id);
      var i := |old_|;
      while e.None? && i > 0
        invariant 0 <= i <= |old_|
        invariant if e.Some? then e == newest else newest == L.NewestEdge(L.Stack(View(), i, M.EdgeKey(id)))
      {
        i := i - 1;
        e := old_[i].ReadEdge(id);
        assert View()[i] == old_[i].View();
        L.NewestEdgeStep(View(), i + 1, id);
      }
      if e.None? {
        NothingStacked(View(), M.EdgeKey(id));
      }
    }

    lemma NothingStacked(ts: seq<M.Table>, key: Bytes)
      ensures L.NewestNode(L.Stack(ts, 0, key)) == None && L.NewestEdge(L.Stack(ts, 0, key)) == None
    {
    }

    method EdgesAt(key: Bytes) returns (edges: seq<Bytes>)
      requires Valid()
      ensures edges == L.EdgesAt(View(), |View()|, key)
    {
      hide ParseEdgeList;
      edges := active.EdgesAt(key);
      var i := |old_|;
      while i > 0
        invariant 0 <= i <= |old_|
        invariant L.EdgesAt(View(), |View()|, key) == edges + L.EdgesAt(View(), i, key)
      {
        i := i - 1;
        var older := old_[i].EdgesAt(key);
        assert View()[i] == old_[i].View();
        Concat3(edges, older, L.EdgesAt(View(), i, key));
        edges := edges + older;
      }
      NothingAdded(edges);
    }

    /** `RemoveOldMemtable`: the first old table that is the same object. */
    method Remove(t: M.Memtable) returns (found: Option<nat>)
      requires Valid()
      modifies `old_, `contents
      ensures Valid() && Repr == old(Repr)
      ensures found.None? ==> t !in old_ && View() == old(View())
      ensures found.Some? ==> found.value + 1 < |old(View())|
                              && View() == old(View())[..found.value] + old(View())[found.value + 1..]
    {
      var i := 0;
      while i < |old_|
        invariant i <= |old_| && t !in old_[..i]
      {
        if old_[i] == t {
          ghost var was := View();
          RemoveFromPrefix(contents, active.View(), i);
          old_ := old_[..i] + old_[i + 1..];
          contents := contents[..i] + contents[i + 1..];
          return Some(i);
        }
        i := i + 1;
      }
      return None;
    }
  }

  lemma RemoveFromPrefix(ts: seq<M.Table>, t: M.Table, i: nat)
    requires i < |ts|
    ensures (ts[..i] + ts[i + 1..]) + [t] == (ts + [t])[..i] + (ts + [t])[i + 1..]
  {
  }

  class WriteLane {
    const wal: WAL
    const nodes: Tables
    const edges: Tables
    const adj: Tables
    const memtableSize: int
    var stopped: bool

    ghost function Repr(): set<object>
      reads this, nodes, edges, adj
    {
      {this, wal} + nodes.Repr + edges.Repr + adj.Repr
    }

    ghost predicate Valid()
      reads this, wal, nodes, edges, adj, nodes.Repr, edges.Repr, adj.Repr
    {
      && nodes.Valid() && edges.Valid() && adj.Valid()
      && nodes.Repr !! edges.Repr !! adj.Repr !! {this as object, wal}
      && nodes.maxSize == edges.maxSize == adj.maxSize == memtableSize
      && wal.Valid() && wal.closed == stopped
    }

    ghost function View(): L.Lane
      reads this, wal, nodes, edges, adj, nodes.active, edges.active, adj.active
    {
      L.Lane(wal.appended, nodes.View(), edges.View(), adj.View(), memtableSize, stopped)
    }

    lemma ViewIsReady()
      requires Valid()
      ensures L.Ready(View())
    {
      nodes.ViewIsActive();
      edges.ViewIsActive();
      adj.ViewIsActive();
    }

    /** `NewWriteLane`; the log file may already hold entries. */
    constructor (memtableSize: int, crc: Crc, disk: Bytes)
      ensures Valid() && fresh(Repr()) && View() == L.NewLane(memtableSize)
      ensures wal.crc == crc && wal.file == disk && wal.found == disk
    {
      hide Tables.Valid, WAL.Valid, M.Fresh;
      this.memtableSize, stopped := memtableSize, false;
      wal := new WAL(crc, disk);
      var a, b, c := NewTables(memtableSize);
      nodes, edges, adj := a, b, c;
    }

    static method NewTables(maxSize: int) returns (a: Tables, b: Tables, c: Tables)
      ensures a.Valid() && b.Valid() && c.Valid() && a.maxSize == b.maxSize == c.maxSize == maxSize
      ensures fresh(a.Repr) && fresh(b.Repr) && fresh(c.Repr) && a.Repr !! b.Repr !! c.Repr
      ensures a.View() == b.View() == c.View() == [M.Fresh(maxSize)]
    {
      hide Tables.Valid, M.Fresh;
      a := new Tables(maxSize);
      b := new Tables(maxSize);
      c := new Tables(maxSize);
    }

    /** What every method keeps: the lane stays well formed and its log file only grows. */
    twostate predicate Keeps()
      reads this, wal, nodes, edges, adj, nodes.Repr, edges.Repr, adj.Repr
    {
      Valid() && fresh(Repr() - old(Repr())) && wal.found == old(wal.found)
    }

    method RotateMemtable()
      requires Valid()
      modifies nodes.Repr, edges.Repr, adj.Repr
      ensures Keeps() && L.Ready(old(View())) && View() == L.Rotate(old(View()))
    {
      hide L.FreezeAndAdd;
      ViewIsReady();
      nodes.Rotate();
      edges.Rotate();
      adj.Rotate();
    }

    method PutNodeActive(n: Node) returns (r: M.PutResult, ghost stored: Bytes)
      requires Valid() && Supported(n.props)
      modifies nodes.Repr
      ensures Keeps() && EncodesNode(stored, n) && L.Ready(old(View()))
      ensures (View(), r) == L.PutInNodes(old(View()), M.NodeKey(n.id), stored)
    {
      hide M.Put, EncodesNode;
      ViewIsReady();
      r, stored := nodes.PutNode(n);
    }

    method PutEdgeActive(e: Edge) returns (r: M.PutResult, ghost stored: Bytes)
      requires Valid() && Supported(e.props)
      modifies edges.Repr
      ensures Keeps() && EncodesEdge(stored, e) && L.Ready(old(View()))
      ensures (View(), r) == L.PutInEdges(old(View()), M.EdgeKey(e.id), stored)
    {
      hide M.Put, EncodesEdge;
      ViewIsReady();
      r, stored := edges.PutEdge(e);
    }

    method AddActive(key: Bytes, edgeID: Bytes) returns (r: M.PutResult)
      requires Valid()
      modifies adj.Repr
      ensures Keeps() && L.Ready(old(View()))
      ensures (View(), r) == L.AddInAdj(old(View()), key, edgeID)
    {
      hide M.Put, M.AddToList;
      ViewIsReady();
      r := adj.AddEdgeTo(key, edgeID);
    }

    method AppendLog(kind: byte, key: Bytes, value: Bytes, now: i64)
      requires Valid() && !stopped
      modifies wal
      ensures Keeps() && L.Ready(old(View())) && View() == L.Logged(old(View()), kind, key, value, now)
      ensures old(wal.file) <= wal.file
    {
      hide Log;
      ViewIsReady();
      var ok := wal.Append(kind, key, value, now);
    }

    method RotateIfNodesOver()
      requires Valid()
      modifies Repr()
      ensures Keeps() && L.Ready(old(View()))
      ensures View() == L.RotateIfOver(old(View()), L.Last(old(View()).nodes).size > memtableSize)
    {
      hide L.Rotate;
      ViewIsReady();
      nodes.ViewIsActive();
      if nodes.active.size > memtableSize {
        RotateMemtable();
      }
    }

    method RetryNode(n: Node) returns (out: L.NodeOutcome, ghost retried: Bytes)
      requires Valid() && Supported(n.props)
      modifies Repr()
      ensures Keeps() && EncodesNode(retried, n) && L.Ready(old(View()))
      ensures (View(), out) == L.RetryNode(old(View()), n, retried)
    {
      hide L.PutInNodes, L.RotateIfOver, EncodesNode;
      ViewIsReady();
      var r;
      r, retried := PutNodeActive(n);
      if r.Stored? {
        RotateIfNodesOver();
        return L.NodeWritten, retried;
      }
      return if r.Panicked? then L.NodeCrashed else L.NodeRefused, retried;
    }

    method StoreNode(n: Node) returns (out: L.NodeOutcome, ghost stored: Bytes, ghost retried: Bytes)
      requires Valid() && Supported(n.props)
      modifies Repr()
      ensures Keeps() && EncodesNode(stored, n) && EncodesNode(retried, n) && L.Ready(old(View()))
      ensures (View(), out) == L.StoreNode(old(View()), n, stored, retried)
    {
      hide L.PutInNodes, L.Rotate, L.RetryNode, L.RotateIfOver, EncodesNode, L.Ready, Valid, M.NodeKey;
      ViewIsReady();
      var r;
      r, stored := PutNodeActive(n);
      retried := stored;
      if r.Stored? {
        RotateIfNodesOver();
        out := L.NodeWritten;
      } else if r.Panicked? {
        out := L.NodeCrashed;
      } else {
        RotateMemtable();
        out, retried := RetryNode(n);
      }
    }

    /** `WriteNode`, the clock being a parameter. */
    method WriteNode(n: Node, now: i64) returns (out: L.NodeOutcome)
      requires Valid()
      modifies Repr()
      ensures Keeps() && L.WriteNodeStep(old(View()), n, View(), out)
    {
      hide L.StoreNode, L.Logged, EncodesNode;
      ViewIsReady();
      if stopped {
        return L.NodeStopped;
      }
      var logged := Serializer.SerializeNode(n);
      if logged.None? {
        return L.NodeUnserializable;
      }
      AppendLog(ENTRY_NODE, n.id, logged.value, now);
      ghost var stored, retried;
      out, stored, retried := StoreNode(n);
      assert (View(), out) == L.WriteNodeWith(old(View()), n, logged.value, stored, retried, now);
    }

    // ---------- edges ----------

    method RotateIfEdgesOver()
      requires Valid()
      modifies Repr()
      ensures Keeps() && L.Ready(old(View()))
      ensures View() == L.RotateIfOver(old(View()), L.Last(old(View()).edges).size > memtableSize
                                                    || L.Last(old(View()).adj).size > memtableSize)
    {
      hide L.Rotate;
      ViewIsReady();
      edges.ViewIsActive();
      adj.ViewIsActive();
      if edges.active.size > memtableSize || adj.active.size > memtableSize {
        RotateMemtable();
      }
    }

    method RewriteEdge(e: Edge) returns (out: L.EdgeOutcome, ghost rewritten: Bytes)
      requires Valid() && Supported(e.props)
      modifies Repr()
      ensures Keeps() && EncodesEdge(rewritten, e) && L.Ready(old(View()))
      ensures (View(), out) == L.RewriteEdge(old(View()), e, rewritten)
    {
      hide L.PutInEdges, L.AddInAdj, EncodesEdge;
      ViewIsReady();
      var r;
      r, rewritten := PutEdgeActive(e);
      if !r.Stored? {
        return if r.Panicked? then L.EdgeCrashed else L.RewriteRefused, rewritten;
      }
      r := AddActive(M.OutKey(e.from), e.id);
      if !r.Stored? {
        return if r.Panicked? then L.EdgeCrashed else L.OutRefused, rewritten;
      }
      r := AddActive(M.InKey(e.to), e.id);
      return if r.Stored? then L.EdgeWritten else if r.Panicked? then L.EdgeCrashed else L.InRefused, rewritten;
    }

    method ListIncoming(e: Edge) returns (out: L.EdgeOutcome)
      requires Valid()
      modifies Repr()
      ensures Keeps() && L.Ready(old(View()))
      ensures (View(), out) == L.ListIncoming(old(View()), e)
    {
      hide L.AddInAdj, L.Rotate, L.RotateIfOver, L.Ready, Valid, M.InKey;
      ViewIsReady();
      var r := AddActive(M.InKey(e.to), e.id);
      if r.Stored? {
        RotateIfEdgesOver();
        out := L.EdgeWritten;
      } else {
        out := if r.Panicked? then L.EdgeCrashed else L.InRefused;
      }
    }

    method IndexEdge(e: Edge) returns (out: L.EdgeOutcome, ghost rewritten: Bytes)
      requires Valid() && Supported(e.props)
      modifies Repr()
      ensures Keeps() && EncodesEdge(rewritten, e) && L.Ready(old(View()))
      ensures (View(), out) == L.IndexEdge(old(View()), e, rewritten)
    {
      hide L.AddInAdj, L.Rotate, L.RewriteEdge, L.ListIncoming, L.Ready, EncodesEdge, Valid, M.OutKey, EncEdge;
      ViewIsReady();
      rewritten := EncEdge(e, AnyOrder(e.props));
      assert EncodesEdge(rewritten, e) by { SomeEncoding(e); }
      var r := AddActive(M.OutKey(e.from), e.id);
      if r.Panicked? {
        out := L.EdgeCrashed;
      } else if r.Stored? {
        out := ListIncoming(e);
      } else {
        RotateMemtable();
        out, rewritten := RewriteEdge(e);
      }
    }

    static lemma SomeEncoding(e: Edge)
      requires Supported(e.props)
      ensures EncodesEdge(EncEdge(e, AnyOrder(e.props)), e)
    {
    }

    method RetryEdge(e: Edge) returns (out: L.EdgeOutcome, ghost retried: Bytes, ghost rewritten: Bytes)
      requires Valid() && Supported(e.props)
      modifies Repr()
      ensures Keeps() && EncodesEdge(retried, e) && EncodesEdge(rewritten, e) && L.Ready(old(View()))
      ensures (View(), out) == L.RetryEdge(old(View()), e, retried, rewritten)
    {
      hide L.PutInEdges, L.IndexEdge, EncodesEdge;
      ViewIsReady();
      var r;
      r, retried := PutEdgeActive(e);
      rewritten := retried;
      if r.Stored? {
        out, rewritten := IndexEdge(e);
      } else {
        out := if r.Panicked? then L.EdgeCrashed else L.EdgeRefused;
      }
    }

    method StoreEdge(e: Edge)
      returns (out: L.EdgeOutcome, ghost stored: Bytes, ghost retried: Bytes, ghost rewritten: Bytes)
      requires Valid() && Supported(e.props)
      modifies Repr()
      ensures Keeps() && EncodesEdge(stored, e) && EncodesEdge(retried, e) && EncodesEdge(rewritten, e)
      ensures L.Ready(old(View())) && (View(), out) == L.StoreEdge(old(View()), e, stored, retried, rewritten)
    {
      hide L.PutInEdges, L.Rotate, L.RetryEdge, L.IndexEdge, EncodesEdge, L.Ready, Valid, M.EdgeKey;
      ViewIsReady();
      var r;
      r, stored := PutEdgeActive(e);
      retried, rewritten := stored, stored;
      if r.Stored? {
        out, rewritten := IndexEdge(e);
      } else if r.Panicked? {
        out := L.EdgeCrashed;
      } else {
        RotateMemtable();
        out, retried, rewritten := RetryEdge(e);
      }
    }

    /** `WriteEdge`, the clock being a parameter. */
    method WriteEdge(e: Edge, now: i64) returns (out: L.EdgeOutcome)
      requires Valid()
      modifies Repr()
      ensures Keeps() && L.WriteEdgeStep(old(View()), e, View(), out)
    {
      hide L.StoreEdge, L.Logged, EncodesEdge;
      ViewIsReady();
      if stopped {
        return L.EdgeStopped;
      }
      var logged := Serializer.SerializeEdge(e);
      if logged.None? {
        return L.EdgeUnserializable;
      }
      AppendLog(ENTRY_EDGE, e.id, logged.value, now);
      ghost var stored, retried, rewritten;
      out, stored, retried, rewritten := StoreEdge(e);
      assert (View(), out) == L.WriteEdgeWith(old(View()), e, logged.value, stored, retried, rewritten, now);
    }

    // ---------- reading ----------

    method ReadNode(id: Bytes) returns (n: Option<Node>)
      requires Valid()
      ensures n == L.ReadNode(View(), id)
    {
      hide L.Stack, L.NewestNode;
      n := nodes.ReadNode(id);
    }

    method ReadEdge(id: Bytes) returns (e: Option<Edge>)
      requires Valid()
      ensures e == L.ReadEdge(View(), id)
    {
      hide L.Stack, L.NewestEdge;
      e := edges.ReadEdge(id);
    }

    method GetOutgoingEdges(node: Bytes) returns (ids: seq<Bytes>)
      requires Valid()
      ensures ids == L.Outgoing(View(), node)
    {
      hide L.EdgesAt;
      ids := adj.EdgesAt(M.OutKey(node));
    }

    method GetIncomingEdges(node: Bytes) returns (ids: seq<Bytes>)
      requires Valid()
      ensures ids == L.Incoming(View(), node)
    {
      hide L.EdgesAt;
      ids := adj.EdgesAt(M.InKey(node));
    }

    // ---------- flushing, stopping, recovery ----------

    method RemoveOldMemtable(t: M.Memtable) returns (found: Option<nat>)
      requires Valid()
      modifies nodes
      ensures Keeps()
      ensures found.None? ==> View() == old(View())
      ensures found.Some? ==> found.value + 1 < |old(View()).nodes| && View() == L.RemoveOld(old(View()), found.value)
    {
      found := nodes.Remove(t);
    }

    method Stop()
      requires Valid()
      modifies this, wal
      ensures Keeps() && View() == old(View()).(stopped := true)
      ensures wal.file == if old(stopped) then old(wal.file) else wal.found + Log(wal.crc, wal.appended)
    {
      if !stopped {
        stopped := true;
        wal.Close();
      }
    }

    /** The callback of `Recover` for one entry; None when the entry cannot be applied at all. */
    method ReplayEntry(entry: Entry) returns (ok: bool, ghost ev: Option<LaneRuns.Event>)
      requires Valid()
      modifies Repr()
      ensures Keeps() && wal.appended == old(wal.appended) && wal.file == old(wal.file)
      ensures ev.None? ==> !ok && !Recovery.Decodable(entry) && View() == old(View())
      ensures ev.Some? ==> LaneRuns.Step(old(View()), ev.value, View()) && Recovery.Replays(entry, ev.value)
                           && ok == Recovery.Applied(ev.value)
    {
      hide DecodeNode, DecodeEdge, EncodesNode, EncodesEdge, L.PutInNodes, L.PutInEdges, L.AddInAdj, M.Put, M.Delete;
      ViewIsReady();
      ok, ev := false, None;
      if entry.kind == ENTRY_NODE {
        var n := Serializer.DeserializeNode(entry.value);
        if n.Some? {
          assert Supported(n.value.props) by { DecodedNodeFits(entry.value); }
          ok, ev := ReplayNode(n.value);
        }
      } else if entry.kind == ENTRY_EDGE {
        var e := Serializer.DeserializeEdge(entry.value);
        if e.Some? {
          assert Supported(e.value.props) by { DecodedEdgeFits(entry.value); }
          ok, ev := ReplayEdge(e.value);
        }
      } else if entry.kind == ENTRY_DELETE {
        nodes.DeleteKey(entry.key);
        ok, ev := true, Some(LaneRuns.ReplayedDelete(entry.key));
      }
    }

    method ReplayNode(n: Node) returns (ok: bool, ghost ev: Option<LaneRuns.Event>)
      requires Valid() && Supported(n.props)
      modifies nodes.Repr
      ensures Keeps() && wal.appended == old(wal.appended) && wal.file == old(wal.file)
      ensures ev.Some? && ev.value.ReplayedNode? && ev.value.node == n && ok == ev.value.put.Stored?
      ensures LaneRuns.Step(old(View()), ev.value, View())
    {
      hide EncodesNode, L.PutInNodes, M.NodeKey, WAL.Valid;
      ViewIsReady();
      var r;
      ghost var stored;
      r, stored := PutNodeActive(n);
      ok, ev := r.Stored?, Some(LaneRuns.ReplayedNode(n, r));
    }

    method ReplayEdge(e: Edge) returns (ok: bool, ghost ev: Option<LaneRuns.Event>)
      requires Valid() && Supported(e.props)
      modifies Repr()
      ensures Keeps() && wal.appended == old(wal.appended) && wal.file == old(wal.file)
      ensures ev.Some? && ev.value.ReplayedEdge? && ev.value.edge == e && ok == ev.value.put.Stored?
      ensures LaneRuns.Step(old(View()), ev.value, View())
    {
      hide EncodesEdge, L.PutInEdges, L.AddInAdj, M.EdgeKey, M.OutKey, M.InKey, WAL.Valid, Tables.Valid;
      ViewIsReady();
      var r, out, inc;
      ghost var stored;
      r, stored := PutEdgeActive(e);
      if !r.Stored? {
        ev := Some(LaneRuns.ReplayedEdge(e, r, false, false));
        assert (View(), r, false, false) == L.ReplayEdgeWith(old(View()), e, stored);
        return false, ev;
      }
      out := AddActive(M.OutKey(e.from), e.id);
      inc := AddActive(M.InKey(e.to), e.id);
      ev := Some(LaneRuns.ReplayedEdge(e, r, out.Stored?, inc.Stored?));
      assert (View(), r, out.Stored?, inc.Stored?) == L.ReplayEdgeWith(old(View()), e, stored);
      return true, ev;
    }

    /** `Recover`. `applied` says whether every entry handed over by `Replay` was applied. */
    method Recover() returns (ok: bool, ghost redo: seq<LaneRuns.Event>, ghost states: seq<L.Lane>, ghost applied: bool)
      requires Valid()
      modifies Repr()
      ensures Keeps() && wal.file == old(wal.file) && wal.appended == old(wal.appended)
      ensures Recovery.RecoversFrom(old(View()), ReplayOf(wal.crc, wal.file).entries, redo, states, applied)
      ensures View() == states[|redo|] && ok == (applied && ReplayOf(wal.crc, wal.file).ok)
      ensures ok <==> applied && CutAtField(Wal.Tail(wal.crc, wal.file))
    {
      hide CutAtField, Wal.Tail, LaneRuns.Step, Recovery.Replays, Recovery.Applied, Recovery.Decodable, ReplayOf,
        WAL.Valid;
      NilExactly(wal.crc, wal.file);
      redo, states, applied := [], [View()], true;
      var entries, readable := wal.Replay();
      var i := 0;
      while i < |entries|
        invariant 0 <= i <= |entries| && i == |redo|
        invariant Keeps() && wal.file == old(wal.file) && wal.appended == old(wal.appended)
        invariant LaneRuns.RunFrom(old(View()), redo, states) && states[|redo|] == View()
        invariant forall k :: 0 <= k < |redo| ==> Recovery.Replays(entries[k], redo[k]) && Recovery.Applied(redo[k])
      {
        ghost var before := View();
        ghost var ev;
        ok, ev := ReplayEntry(entries[i]);
        if ev.Some? {
          LaneRuns.RunSnoc(old(View()), redo, states, ev.value, View());
          redo, states := redo + [ev.value], states + [View()];
        }
        if !ok {
          applied := false;
          return;
        }
        i := i + 1;
      }
      ok := readable;
    }

    method SyncWAL()
      requires Valid() && !stopped
      modifies wal
      ensures Valid() && View() == old(View()) && wal.found == old(wal.found)
      ensures wal.file == wal.found + Log(wal.crc, wal.appended)
    {
      var ok := wal.Sync();
    }

    method TruncateWAL() returns (ok: bool)
      requires Valid()
      modifies wal
      ensures Valid() && ok == !stopped
      ensures View() == if ok then old(View()).(log := []) else old(View())
    {
      ok := wal.Truncate();
    }
  }

  /** Main result, end to end: a lane that was started on a log of the entries `found`, recovered them,
      took writes and removed flushed tables, is synced and lost; a new lane opened on its log file
      recovers. `Recover` returns nil exactly when everything logged fits one table of each kind. Then
      every edge reads as before the crash and every node as it was written last; the index holds the
      edges that still find room in one table, which are those the lost one held exactly under
      `ListsAgain`. The recovered lane stands where this one did, so that the result applies in turn. */
  method CrashAndRecover(lane: WriteLane, ghost found: seq<Entry>, ghost evs: seq<LaneRuns.Event>,
                         ghost states: seq<L.Lane>)
    returns (recovered: WriteLane, ok: bool, ghost redo: seq<LaneRuns.Event>, ghost restates: seq<L.Lane>)
    requires lane.Valid() && !lane.stopped && 0 <= lane.memtableSize
    requires lane.wal.found == Log(lane.wal.crc, found) && AllFit(found + lane.wal.appended)
    requires LaneRuns.Run(lane.memtableSize, evs, states) && states[|evs|] == lane.View()
    requires Recovery.Replayable(evs) && Recovery.StartedOn(found, evs)
    modifies lane.Repr()
    ensures lane.Valid() && lane.View() == old(lane.View())
    ensures fresh(recovered) && recovered.Valid() && !recovered.stopped && recovered.memtableSize == lane.memtableSize
    ensures ok <==> Recovery.FitsOneTable(Recovery.Attempts(evs, |evs|), lane.memtableSize)
    ensures ok ==> ReadsAgain(evs, lane.View(), recovered.View())
    ensures ok ==> IndexedAgain(evs, lane.View(), recovered.View(), lane.memtableSize)
    ensures recovered.wal.crc == lane.wal.crc && recovered.wal.appended == []
    ensures recovered.wal.found == Log(lane.wal.crc, found + old(lane.wal.appended))
    ensures LaneRuns.Run(lane.memtableSize, redo, restates) && restates[|redo|] == recovered.View()
    ensures ok ==> Recovery.Replayable(redo) && Recovery.StartedOn(found + old(lane.wal.appended), redo)
  {
    hide LaneRuns.Run, Recovery.FitsOneTable, Recovery.Replayable, ReadsAgain, IndexedAgain, Recovery.StartedOn,
      L.ReadNode, L.ReadEdge, ReplayOf, AllFit, Log, Recovery.RecoversFrom, L.NewLane, WAL.Valid;
    recovered := SyncAndReopen(lane, found);
    ghost var applied;
    ok, redo, restates, applied := recovered.Recover();
    RecoveredLane(lane.memtableSize, found, evs, states, redo, restates, ok);
  }

  /** All that is left of a synced lane is its log file. */
  method SyncAndReopen(lane: WriteLane, ghost found: seq<Entry>) returns (reopened: WriteLane)
    requires lane.Valid() && !lane.stopped
    requires lane.wal.found == Log(lane.wal.crc, found) && AllFit(found + lane.wal.appended)
    modifies lane.wal
    ensures lane.Valid() && lane.View() == old(lane.View())
    ensures fresh(reopened.Repr()) && reopened.Valid() && reopened.View() == L.NewLane(lane.memtableSize)
    ensures reopened.memtableSize == lane.memtableSize && reopened.wal.appended == []
    ensures reopened.wal.crc == lane.wal.crc
    ensures reopened.wal.found == reopened.wal.file == Log(lane.wal.crc, found + lane.View().log)
    ensures ReplayOf(lane.wal.crc, reopened.wal.file) == Replayed(found + lane.View().log, true)
  {
    hide ReplayOf, Log, AllFit;
    lane.SyncWAL();
    LogAppend(lane.wal.crc, found, lane.wal.appended);
    WholeLogReplays(lane.wal.crc, found + lane.wal.appended);
    reopened := new WriteLane(lane.memtableSize, lane.wal.crc, lane.wal.file);
  }

  /** The recovered lane `l'` reads every edge as `l` does and every node as it was written last, which
      is as `l` does if no flushed table was removed. */
  ghost predicate ReadsAgain(evs: seq<LaneRuns.Event>, l: L.Lane, l': L.Lane) {
    forall id ::
      && L.ReadEdge(l', id) == L.ReadEdge(l, id)
      && L.ReadNode(l', id) == LaneRuns.Get(LaneRuns.NodeModel(evs, |evs|), id)
      && (LaneRuns.Plain(evs) ==> L.ReadNode(l', id) == L.ReadNode(l, id))
  }

  /** The recovered index: for each node the edges that find room in one table; and when that is what
      `l` listed. */
  ghost predicate IndexedAgain(evs: seq<LaneRuns.Event>, l: L.Lane, l': L.Lane, maxSize: int) {
    var w := Recovery.Attempts(evs, |evs|);
    && RecoveryIndex.HoldsRelisted(l', w, maxSize)
    && (RecoveryIndex.SameIndex(l, l') <==> RecoveryIndex.ListsAgain(evs, maxSize))
    && (RecoveryIndex.AllEdgesWritten(w) && RecoveryIndex.WellFormedEdges(w) ==>
          (RecoveryIndex.ListsAgain(evs, maxSize) <==> RecoveryIndex.IndexFits(w, maxSize)))
  }

  lemma RecoveredLane(maxSize: int, found: seq<Entry>, evs: seq<LaneRuns.Event>, states: seq<L.Lane>,
                      redo: seq<LaneRuns.Event>, restates: seq<L.Lane>, ok: bool)
    requires 0 <= maxSize && LaneRuns.Run(maxSize, evs, states)
    requires Recovery.Replayable(evs) && Recovery.StartedOn(found, evs)
    requires Recovery.RecoversFrom(L.NewLane(maxSize), found + states[|evs|].log, redo, restates, ok)
    ensures ok <==> Recovery.FitsOneTable(Recovery.Attempts(evs, |evs|), maxSize)
    ensures ok ==> ReadsAgain(evs, states[|evs|], restates[|redo|])
    ensures ok ==> IndexedAgain(evs, states[|evs|], restates[|redo|], maxSize)
    ensures LaneRuns.Run(maxSize, redo, restates) && !restates[|redo|].stopped
    ensures ok ==> Recovery.Replayable(redo) && Recovery.StartedOn(found + states[|evs|].log, redo)
  {
    hide LaneRuns.Step, Recovery.FitsOneTable, ReadsAgain, IndexedAgain, Recovery.StartedOn, Recovery.Logs,
      Recovery.Attempts, Recovery.AllAttempted, Recovery.AllPayloadsFit;
    var w := Recovery.Attempts(evs, |evs|);
    var entries := found + states[|evs|].log;
    Recovery.RecoveryKeeps(L.NewLane(maxSize), entries, redo, restates, ok, |redo|);
    Recovery.LogIsComplete(maxSize, found, evs, states);
    Recovery.RecoverSucceedsExactly(maxSize, w, entries, redo, restates, ok);
    if ok {
      RecoveredReads(maxSize, evs, states, entries, redo, restates);
      RecoveredIndex(maxSize, evs, states, entries, redo, restates);
      Recovery.RedoneStart(maxSize, evs, entries, redo, restates);
    }
  }

  lemma RecoveredReads(maxSize: int, evs: seq<LaneRuns.Event>, states: seq<L.Lane>, entries: seq<Entry>,
                       redo: seq<LaneRuns.Event>, restates: seq<L.Lane>)
    requires 0 <= maxSize && LaneRuns.Run(maxSize, evs, states)
    requires Recovery.Replayable(evs) && Recovery.Logs(entries, Recovery.Attempts(evs, |evs|))
    requires Recovery.Recovers(maxSize, entries, redo, restates, true)
    ensures ReadsAgain(evs, states[|evs|], restates[|redo|])
  {
    hide LaneRuns.Step, L.ReadNode, L.ReadEdge, LaneRuns.NodeModel, Recovery.Logs, Recovery.Replayable, LaneRuns.Plain,
      Recovery.Attempts;
    forall id
      ensures L.ReadEdge(restates[|redo|], id) == L.ReadEdge(states[|evs|], id)
      ensures L.ReadNode(restates[|redo|], id) == LaneRuns.Get(LaneRuns.NodeModel(evs, |evs|), id)
      ensures LaneRuns.Plain(evs) ==> L.ReadNode(restates[|redo|], id) == L.ReadNode(states[|evs|], id)
    {
      Recovery.RecoveredReadsAgree(maxSize, evs, states, entries, redo, restates, id);
    }
  }

  lemma RecoveredIndex(maxSize: int, evs: seq<LaneRuns.Event>, states: seq<L.Lane>, entries: seq<Entry>,
                       redo: seq<LaneRuns.Event>, restates: seq<L.Lane>)
    requires 0 <= maxSize && LaneRuns.Run(maxSize, evs, states)
    requires Recovery.Replayable(evs) && Recovery.Logs(entries, Recovery.Attempts(evs, |evs|))
    requires Recovery.Recovers(maxSize, entries, redo, restates, true)
    ensures IndexedAgain(evs, states[|evs|], restates[|redo|], maxSize)
  {
    hide LaneRuns.Step, Recovery.Logs, Recovery.Attempts, RecoveryIndex.ListsAgain, RecoveryIndex.HoldsRelisted,
      RecoveryIndex.AllEdgesWritten, RecoveryIndex.WellFormedEdges, RecoveryIndex.IndexFits, RecoveryIndex.SameIndex;
    var w := Recovery.Attempts(evs, |evs|);
    RecoveryIndex.RecoveredIndexIs(maxSize, w, entries, redo, restates);
    RecoveryIndex.RecoveredIndexAgrees(maxSize, evs, states, entries, redo, restates);
  }
}
