/** Crash recovery: replaying a lane's log into a new lane, against the lane that wrote it. */
module Recovery {
  import opened Bytes
  import opened Graph
  import opened Serialization
  import opened EdgeList
  import opened Memtable
  import opened Wal
  import opened Lane
  import opened LaneSteps
  import opened LaneReads
  import opened LaneHealth
  import opened LaneRuns

  // ---------- what a lane has logged ----------

  predicate HasNode(ev: Event) { ev.WroteNode? || ev.ReplayedNode? }

  predicate HasEdge(ev: Event) { ev.WroteEdge? || ev.ReplayedEdge? }

  /** A write that got as far as the log, or an entry of an earlier log that was applied again. */
  predicate Attempted(ev: Event) {
    match ev
    case WroteNode(_, out) => out.NodeWritten? || out.NodeRefused?
    case WroteEdge(_, out) => Kept(out) || out.EdgeRefused?
    case ReplayedNode(_, r) => r.Stored?
    case ReplayedEdge(_, r, _, _) => r.Stored?
    case _ => false
  }

  predicate AllAttempted(evs: seq<Event>) {
    forall k :: 0 <= k < |evs| ==> Attempted(evs[k])
  }

  /** It left no entry in the log: a write turned away before that, or the removal of a flushed table. */
  predicate Unlogged(ev: Event) {
    match ev
    case WroteNode(_, out) => out.NodeStopped? || out.NodeUnserializable?
    case WroteEdge(_, out) => out.EdgeStopped? || out.EdgeUnserializable?
    case RemovedOld(_) => true
    case _ => false
  }

  /** Those of the first `k` events that the log file has an entry for. */
  function Attempts(evs: seq<Event>, k: nat): seq<Event>
    requires k <= |evs|
  {
    if k == 0 then [] else Attempts(evs, k - 1) + if Unlogged(evs[k - 1]) then [] else [evs[k - 1]]
  }

  lemma {:induction false} AttemptAt(evs: seq<Event>, n: nat, k: nat) returns (j: nat)
    requires k < n <= |evs| && !Unlogged(evs[k])
    ensures j < |Attempts(evs, n)| && Attempts(evs, n)[j] == evs[k]
  {
    hide Unlogged;
    if k == n - 1 {
      j := |Attempts(evs, n - 1)|;
    } else {
      j := AttemptAt(evs, n - 1, k);
    }
  }

  lemma {:induction false} AttemptFrom(evs: seq<Event>, n: nat, j: nat) returns (k: nat)
    requires n <= |evs| && j < |Attempts(evs, n)|
    ensures k < n && Attempts(evs, n)[j] == evs[k] && !Unlogged(evs[k])
  {
    hide Unlogged;
    if j < |Attempts(evs, n - 1)| {
      k := AttemptFrom(evs, n - 1, j);
    } else {
      k := n - 1;
    }
  }

  /** Where everything reached the log, nothing is left out. */
  lemma {:induction false} AttemptsOfAll(evs: seq<Event>, k: nat)
    requires AllAttempted(evs) && k <= |evs|
    ensures Attempts(evs, k) == evs[..k]
  {
    if k > 0 {
      AttemptsOfAll(evs, k - 1);
      assert Attempted(evs[k - 1]);
      SliceSnoc(evs, k - 1);
    }
  }

  lemma AttemptsStep(evs: seq<Event>, k: nat)
    requires 0 < k <= |evs|
    ensures Attempts(evs, k) == if Unlogged(evs[k - 1]) then Attempts(evs, k - 1)
                                else Attempts(evs, k - 1) + [evs[k - 1]]
  {
    NothingAdded(Attempts(evs, k - 1));
  }

  lemma UnloggedSets(ev: Event, node: Bytes)
    requires Unlogged(ev)
    ensures NodeSet(ev).None? && EdgeSet(ev).None? && !ListsOut(ev, node) && !ListsIn(ev, node)
  {
  }

  /** What left no entry changed nothing that was written. */
  lemma {:induction false} AttemptsModel(evs: seq<Event>, k: nat)
    requires k <= |evs|
    ensures var w := Attempts(evs, k); NodeModel(w, |w|) == NodeModel(evs, k) && EdgeModel(w, |w|) == EdgeModel(evs, k)
  {
    hide Unlogged, NodeSet, EdgeSet, Attempts;
    if k == 0 {
      assert Attempts(evs, 0) == [] by { NoAttempts(evs); }
    } else {
      AttemptsStep(evs, k);
      AttemptsModel(evs, k - 1);
      if Unlogged(evs[k - 1]) {
        UnloggedSets(evs[k - 1], []);
      } else {
        ModelSnoc(Attempts(evs, k - 1), evs[k - 1]);
      }
    }
  }

  lemma NoAttempts(evs: seq<Event>)
    ensures Attempts(evs, 0) == []
  {
  }

  lemma {:induction false} AttemptsIds(evs: seq<Event>, k: nat, node: Bytes)
    requires k <= |evs|
    ensures var w := Attempts(evs, k);
            OutIds(w, |w|, node) == OutIds(evs, k, node) && InIds(w, |w|, node) == InIds(evs, k, node)
  {
    hide Unlogged, ListsOut, ListsIn, Attempts;
    if k == 0 {
      assert Attempts(evs, 0) == [] by { NoAttempts(evs); }
    } else {
      AttemptsStep(evs, k);
      AttemptsIds(evs, k - 1, node);
      if Unlogged(evs[k - 1]) {
        UnloggedSets(evs[k - 1], node);
        NothingAdded(OutIds(evs, k - 1, node));
        NothingAdded(InIds(evs, k - 1, node));
      } else {
        IdsSnoc(Attempts(evs, k - 1), evs[k - 1], node);
      }
    }
  }

  /** The entry an event stands for: what a write logged, or what a replayed event came from. */
  ghost predicate EntryOf(entry: Entry, ev: Event) {
    match ev
    case WroteNode(n, _) => entry.kind == ENTRY_NODE && entry.key == n.id && EncodesNode(entry.value, n)
    case WroteEdge(e, _) => entry.kind == ENTRY_EDGE && entry.key == e.id && EncodesEdge(entry.value, e)
    case _ => Replays(entry, ev)
  }

  /** The log file holds one entry for each event, in order. */
  ghost predicate Logs(entries: seq<Entry>, evs: seq<Event>) {
    |entries| == |evs| && forall k :: 0 <= k < |evs| ==> EntryOf(entries[k], evs[k])
  }

  /** The lane was started on a log of the entries `found`, recovered, and was then used. */
  predicate StartedOn(found: seq<Entry>, evs: seq<Event>) {
    && |found| <= |evs|
    && (forall k :: 0 <= k < |found| ==> (evs[k].ReplayedNode? || evs[k].ReplayedEdge?) && Replays(found[k], evs[k]))
    && (forall k :: |found| <= k < |evs| ==> evs[k].WroteNode? || evs[k].WroteEdge? || evs[k].RemovedOld?)
  }

  lemma NodeLogStep(l: Lane, n: Node, l': Lane, out: NodeOutcome) returns (entry: Entry)
    requires WriteNodeStep(l, n, l', out) && Attempted(WroteNode(n, out))
    ensures l'.log == l.log + [entry] && EntryOf(entry, WroteNode(n, out))
  {
    hide WriteNodeWith, EncodesNode;
    var logged, stored, retried, now :|
      EncodesNode(logged, n) && EncodesNode(stored, n) && EncodesNode(retried, n)
      && (l', out) == WriteNodeWith(l, n, logged, stored, retried, now);
    NodeWriteLook(l, n, logged, stored, retried, now, Keys([], [], []));
    entry := Entry(ENTRY_NODE, n.id, logged, now);
  }

  lemma EdgeLogStep(l: Lane, e: Edge, l': Lane, out: EdgeOutcome) returns (entry: Entry)
    requires WriteEdgeStep(l, e, l', out) && Attempted(WroteEdge(e, out))
    ensures l'.log == l.log + [entry] && EntryOf(entry, WroteEdge(e, out))
  {
    hide WriteEdgeWith, EncodesEdge;
    var logged, stored, retried, rewritten, now :|
      EncodesEdge(logged, e) && EncodesEdge(stored, e) && EncodesEdge(retried, e) && EncodesEdge(rewritten, e)
      && (l', out) == WriteEdgeWith(l, e, logged, stored, retried, rewritten, now);
    EdgeWriteLook(l, e, logged, stored, retried, rewritten, now, Keys([], [], []));
    entry := Entry(ENTRY_EDGE, e.id, logged, now);
  }

  /** The log holds one entry for each of these events, in order: those found at the start, and one for
      each write that was attempted since, whether or not it succeeded. */
  lemma LogIsComplete(maxSize: int, found: seq<Entry>, evs: seq<Event>, states: seq<Lane>)
    requires Run(maxSize, evs, states) && AllAttempted(Attempts(evs, |evs|)) && StartedOn(found, evs)
    ensures Logs(found + states[|evs|].log, Attempts(evs, |evs|))
  {
    hide Logs, Step, Attempts, AllAttempted;
    LogSince(maxSize, found, evs, states, |evs|);
    SliceWhole(found);
  }

  lemma ReplayIsEntry(entry: Entry, ev: Event)
    requires Replays(entry, ev) && (ev.ReplayedNode? || ev.ReplayedEdge?)
    ensures EntryOf(entry, ev)
  {
  }

  lemma {:induction false} LogSince(maxSize: int, found: seq<Entry>, evs: seq<Event>, states: seq<Lane>, k: nat)
    requires Run(maxSize, evs, states) && k <= |evs| && AllAttempted(Attempts(evs, k)) && StartedOn(found, evs)
    ensures k <= |found| ==> states[k].log == []
    ensures Logs((if k <= |found| then found[..k] else found) + states[k].log, Attempts(evs, k))
  {
    hide EntryOf, Step, Replays, Attempted, Logs, Unlogged, Attempts, AllAttempted, StartedOn;
    if k == 0 {
      NoAttempts(evs);
      NoEntries(found);
    } else {
      AttemptsBefore(evs, k);
      AttemptsStep(evs, k);
      LogSince(maxSize, found, evs, states, k - 1);
      if k <= |found| {
        FoundAtStart(found, evs, k - 1);
        ReplayLogsNothing(states[k - 1], evs[k - 1], states[k]);
        FoundMore(found, Attempts(evs, k - 1), k, evs[k - 1]);
      } else {
        SinceStart(found, evs, k - 1);
        SliceWhole(found);
        var entries := WriteLogStep(states[k - 1], evs[k - 1], states[k]);
        WrittenMore(found, states[k - 1].log, Attempts(evs, k - 1), entries, evs[k - 1]);
      }
    }
  }

  lemma SliceWhole<T>(s: seq<T>)
    ensures s[..|s|] == s
  {
  }

  lemma FoundMore(found: seq<Entry>, evs: seq<Event>, k: nat, ev: Event)
    requires 0 < k <= |found| && Logs(found[..k - 1] + [], evs) && Replays(found[k - 1], ev) && !ev.ReplayedDelete?
    ensures Logs(found[..k] + [], evs + [ev])
  {
    hide Logs;
    NothingAdded(found[..k - 1]);
    NothingAdded(found[..k]);
    SliceSnoc(found, k - 1);
    ReplayIsEntry(found[k - 1], ev);
    LogsMore(found[..k - 1], evs, found[k - 1], ev);
  }

  lemma WrittenMore(found: seq<Entry>, log: seq<Entry>, evs: seq<Event>, entries: seq<Entry>, ev: Event)
    requires Logs(found + log, evs) && |entries| == (if Unlogged(ev) then 0 else 1)
    requires !Unlogged(ev) ==> EntryOf(entries[0], ev)
    ensures Logs(found + (log + entries), if Unlogged(ev) then evs else evs + [ev])
  {
    hide Logs, EntryOf, Unlogged;
    Concat3(found, log, entries);
    if Unlogged(ev) {
      NothingAdded(found + log);
    } else {
      assert entries == [entries[0]];
      LogsMore(found + log, evs, entries[0], ev);
    }
  }

  /** A write appends its entry, if it gets that far; removing a table appends none. */
  lemma WriteLogStep(l: Lane, ev: Event, l': Lane) returns (entries: seq<Entry>)
    requires Step(l, ev, l') && (Unlogged(ev) || Attempted(ev)) && !ev.ReplayedNode? && !ev.ReplayedEdge?
    ensures l'.log == l.log + entries && |entries| == (if Unlogged(ev) then 0 else 1)
    ensures !Unlogged(ev) ==> EntryOf(entries[0], ev)
  {
    hide WriteNodeStep, WriteEdgeStep, EntryOf;
    entries := [];
    NothingAdded(l.log);
    if Unlogged(ev) {
      UnloggedStep(l, ev, l');
    } else {
      var entry;
      match ev {
        case WroteNode(n, out) => entry := NodeLogStep(l, n, l', out);
        case WroteEdge(e, out) => entry := EdgeLogStep(l, e, l', out);
      }
      entries := [entry];
    }
  }

  lemma UnloggedStep(l: Lane, ev: Event, l': Lane)
    requires Step(l, ev, l') && Unlogged(ev)
    ensures l'.log == l.log
  {
    hide EncodesNode, EncodesEdge, WriteNodeWith, WriteEdgeWith;
    match ev
    case WroteNode(n, out) =>
      if !l.stopped && Supported(n.props) {
        var logged, stored, retried, now :|
          EncodesNode(logged, n) && EncodesNode(stored, n) && EncodesNode(retried, n)
          && (l', out) == WriteNodeWith(l, n, logged, stored, retried, now);
        NodeGetsToLog(l, n, logged, stored, retried, now);
      }
    case WroteEdge(e, out) =>
      if !l.stopped && Supported(e.props) {
        var logged, stored, retried, rewritten, now :|
          EncodesEdge(logged, e) && EncodesEdge(stored, e) && EncodesEdge(retried, e) && EncodesEdge(rewritten, e)
          && (l', out) == WriteEdgeWith(l, e, logged, stored, retried, rewritten, now);
        EdgeGetsToLog(l, e, logged, stored, retried, rewritten, now);
      }
    case RemovedOld(i) =>
  }

  /** A write that gets to the log is not turned away before it. */
  lemma NodeGetsToLog(l: Lane, n: Node, logged: Bytes, stored: Bytes, retried: Bytes, now: i64)
    requires Ready(l)
    ensures !Unlogged(WroteNode(n, WriteNodeWith(l, n, logged, stored, retried, now).1))
  {
    hide Put;
  }

  lemma EdgeGetsToLog(l: Lane, e: Edge, logged: Bytes, stored: Bytes, retried: Bytes, rewritten: Bytes, now: i64)
    requires Ready(l)
    ensures !Unlogged(WroteEdge(e, WriteEdgeWith(l, e, logged, stored, retried, rewritten, now).1))
  {
    hide Put, AddInAdj, Rotate, PutInEdges;
  }

  lemma NoEntries(found: seq<Entry>)
    ensures Logs(found[..0] + [], [])
  {
  }

  lemma AttemptsBefore(evs: seq<Event>, k: nat)
    requires 0 < k <= |evs| && AllAttempted(Attempts(evs, k))
    ensures AllAttempted(Attempts(evs, k - 1)) && (Unlogged(evs[k - 1]) || Attempted(evs[k - 1]))
  {
    hide Attempted, Unlogged;
    var before := Attempts(evs, k - 1);
    if !Unlogged(evs[k - 1]) {
      SnocParts(before, evs[k - 1]);
      assert forall j :: 0 <= j < |before| ==> before[j] == (before + [evs[k - 1]])[j];
    } else {
      NothingAdded(before);
    }
  }

  lemma LogsMore(entries: seq<Entry>, evs: seq<Event>, entry: Entry, ev: Event)
    requires Logs(entries, evs) && EntryOf(entry, ev)
    ensures Logs(entries + [entry], evs + [ev])
  {
    hide EntryOf;
  }

  lemma SinceStart(found: seq<Entry>, evs: seq<Event>, k: nat)
    requires StartedOn(found, evs) && |found| <= k < |evs|
    ensures !evs[k].ReplayedNode? && !evs[k].ReplayedEdge?
  {
  }

  lemma FoundAtStart(found: seq<Entry>, evs: seq<Event>, k: nat)
    requires StartedOn(found, evs) && k < |found|
    ensures (evs[k].ReplayedNode? || evs[k].ReplayedEdge?) && Replays(found[k], evs[k]) && !Unlogged(evs[k])
  {
  }

  lemma ReplayLogsNothing(l: Lane, ev: Event, l': Lane)
    requires Step(l, ev, l') && (ev.ReplayedNode? || ev.ReplayedEdge? || ev.ReplayedDelete?)
    ensures l'.log == l.log && l'.stopped == l.stopped
  {
    hide EncodesNode, EncodesEdge, Put;
  }

  // ---------- recovering ----------

  /** The event that replaying an entry leads to. An entry of another kind, or one that cannot be
      decoded, leads to none: `Recover` stops with an error. */
  predicate Replays(entry: Entry, ev: Event) {
    match ev
    case ReplayedNode(n, _) => entry.kind == ENTRY_NODE && DecodeNode(entry.value) == Some(n)
    case ReplayedEdge(e, _, _, _) => entry.kind == ENTRY_EDGE && DecodeEdge(entry.value) == Some(e)
    case ReplayedDelete(key) => entry.kind == ENTRY_DELETE && entry.key == key
    case _ => false
  }

  predicate Decodable(entry: Entry) {
    || (entry.kind == ENTRY_NODE && DecodeNode(entry.value).Some?)
    || (entry.kind == ENTRY_EDGE && DecodeEdge(entry.value).Some?)
    || entry.kind == ENTRY_DELETE
  }

  /** Whether the callback of `Recover` returned nil. Dropped adjacency errors do not show. */
  predicate Applied(ev: Event) {
    match ev
    case ReplayedNode(_, r) => r.Stored?
    case ReplayedEdge(_, r, _, _) => r.Stored?
    case _ => true
  }

  /** `Recover`: it applies the entries in order up to the first error. */
  ghost predicate RecoversFrom(start: Lane, entries: seq<Entry>, redo: seq<Event>, states: seq<Lane>, ok: bool) {
    && RunFrom(start, redo, states) && |redo| <= |entries|
    && (forall k :: 0 <= k < |redo| ==> Replays(entries[k], redo[k]))
    && (forall k :: 0 <= k < |redo| - 1 ==> Applied(redo[k]))
    && var lastApplied := redo != [] ==> Applied(redo[|redo| - 1]);
       if ok then |redo| == |entries| && lastApplied
       else !lastApplied || (|redo| < |entries| && !Decodable(entries[|redo|]))
  }

  ghost predicate Recovers(maxSize: int, entries: seq<Entry>, redo: seq<Event>, states: seq<Lane>, ok: bool) {
    RecoversFrom(NewLane(maxSize), entries, redo, states, ok)
  }

  /** Recovery neither logs nor stops the lane. */
  lemma {:induction false} RecoveryKeeps(start: Lane, entries: seq<Entry>, redo: seq<Event>, states: seq<Lane>,
                                         ok: bool, k: nat)
    requires RecoversFrom(start, entries, redo, states, ok) && k <= |redo|
    ensures states[k].log == start.log && states[k].stopped == start.stopped
  {
    hide Step, Applied, Decodable;
    if k > 0 {
      RecoveryKeeps(start, entries, redo, states, ok, k - 1);
      assert Replays(entries[k - 1], redo[k - 1]);
      ReplayLogsNothing(states[k - 1], redo[k - 1], states[k]);
    }
  }

  /** The replayed event carries what the logged one wrote. */
  predicate Redone(ev: Event, again: Event) {
    || (HasNode(ev) && again.ReplayedNode? && again.node == NormNode(ev.node))
    || (HasEdge(ev) && again.ReplayedEdge? && again.edge == NormEdge(ev.edge))
  }

  /** What the entry of an event decodes to. */
  lemma EntryDecodes(entry: Entry, ev: Event)
    requires EntryOf(entry, ev) && PayloadFits(ev) && (HasNode(ev) || HasEdge(ev))
    ensures HasNode(ev) ==>
              entry.kind == ENTRY_NODE && DecodeNode(entry.value) == Some(NormNode(ev.node)) && FitsNode(ev.node)
    ensures HasEdge(ev) ==>
              entry.kind == ENTRY_EDGE && DecodeEdge(entry.value) == Some(NormEdge(ev.edge)) && FitsEdge(ev.edge)
  {
    hide DecodeNode, DecodeEdge, EncodesNode, EncodesEdge;
    match ev
    case WroteNode(n, _) => NodeRoundTrip(entry.value, n);
    case WroteEdge(e, _) => EdgeRoundTrip(entry.value, e);
    case ReplayedNode(n, _) => DecodedNodeFits(entry.value);
    case ReplayedEdge(e, _, _, _) => DecodedEdgeFits(entry.value);
  }

  lemma EntryRedone(entry: Entry, ev: Event, again: Event)
    requires EntryOf(entry, ev) && Replays(entry, again) && PayloadFits(ev) && Attempted(ev)
    ensures Redone(ev, again)
  {
    hide DecodeNode, DecodeEdge, EntryOf;
    EntryDecodes(entry, ev);
  }

  lemma EntryDecodable(entry: Entry, ev: Event)
    requires EntryOf(entry, ev) && PayloadFits(ev) && Attempted(ev)
    ensures Decodable(entry)
  {
    hide DecodeNode, DecodeEdge, EntryOf;
    EntryDecodes(entry, ev);
  }

  predicate PayloadFits(ev: Event) {
    (ev.WroteNode? ==> FitsNode(ev.node)) && (ev.WroteEdge? ==> FitsEdge(ev.edge))
  }

  /** Everything logged can be decoded again. */
  predicate AllPayloadsFit(evs: seq<Event>) {
    forall k :: 0 <= k < |evs| ==> PayloadFits(evs[k])
  }

  /** Nothing panicked, and what reached the log can be decoded again. */
  predicate Replayable(evs: seq<Event>) {
    AllAttempted(Attempts(evs, |evs|)) && AllPayloadsFit(Attempts(evs, |evs|))
  }

  /** `redo` replays the log of `evs`, up to the first error if there is one. */
  ghost predicate RedoOf(evs: seq<Event>, redo: seq<Event>, ok: bool) {
    && |redo| <= |evs|
    && (forall k :: 0 <= k < |redo| ==> Redone(evs[k], redo[k]))
    && (forall k :: 0 <= k < |redo| - 1 ==> Applied(redo[k]))
    && (if ok then |redo| == |evs| && (redo != [] ==> Applied(redo[|redo| - 1]))
        else redo != [] && !Applied(redo[|redo| - 1]))
  }

  lemma RecoveryRedoes(maxSize: int, evs: seq<Event>, entries: seq<Entry>, redo: seq<Event>, restates: seq<Lane>,
                       ok: bool)
    requires AllAttempted(evs) && AllPayloadsFit(evs) && Logs(entries, evs)
    requires Recovers(maxSize, entries, redo, restates, ok)
    ensures RedoOf(evs, redo, ok)
  {
    hide Step, EntryOf, Replays, Decodable, Redone, PayloadFits, Attempted;
    forall k | 0 <= k < |redo|
      ensures Redone(evs[k], redo[k])
    {
      EntryRedone(entries[k], evs[k], redo[k]);
    }
    if !ok && |redo| < |entries| {
      EntryDecodable(entries[|redo|], evs[|redo|]);
    }
  }

  // ---------- the exact condition for Recover to return nil ----------

  ghost function TotalSize(m: map<Bytes, nat>): nat {
    if m == map[] then 0
    else
      var k :| k in m;
      m[k] + TotalSize(m - {k})
  }

  lemma {:induction false} TotalSizeWithout(m: map<Bytes, nat>, k: Bytes)
    requires k in m
    ensures TotalSize(m) == m[k] + TotalSize(m - {k})
  {
    var j :| j in m && TotalSize(m) == m[j] + TotalSize(m - {j});
    if j != k {
      TotalSizeWithout(m - {j}, k);
      TotalSizeWithout(m - {k}, j);
      assert m - {j} - {k} == m - {k} - {j};
    }
  }

  lemma TotalSizeUpdate(m: map<Bytes, nat>, k: Bytes, v: nat)
    ensures TotalSize(m[k := v]) == v + TotalSize(m) - if k in m then m[k] else 0
  {
    TotalSizeWithout(m[k := v], k);
    assert m[k := v] - {k} == m - {k};
    if k in m {
      TotalSizeWithout(m, k);
    } else {
      assert m - {k} == m;
    }
  }

  /** The sizes of the latest entries under each node key among the first `k` events. */
  ghost function NodeSizes(evs: seq<Event>, k: nat): map<Bytes, nat>
    requires k <= |evs|
  {
    if k == 0 then map[]
    else if HasNode(evs[k - 1]) then
      var n := evs[k - 1].node;
      NodeSizes(evs, k - 1)[NodeKey(n.id) := NodeEntry(n, NodeSize(n))]
    else NodeSizes(evs, k - 1)
  }

  ghost function EdgeSizes(evs: seq<Event>, k: nat): map<Bytes, nat>
    requires k <= |evs|
  {
    if k == 0 then map[]
    else if HasEdge(evs[k - 1]) then
      var e := evs[k - 1].edge;
      EdgeSizes(evs, k - 1)[EdgeKey(e.id) := EdgeEntry(e, EdgeSize(e))]
    else EdgeSizes(evs, k - 1)
  }

  /** The `k`-th logged write finds room beside the latest versions of everything before it. */
  ghost predicate FitsNext(evs: seq<Event>, k: nat, maxSize: int)
    requires k < |evs|
  {
    var ev := evs[k];
    && (HasNode(ev) ==> TotalSize(NodeSizes(evs, k)) + NodeEntry(ev.node, NodeSize(ev.node)) <= maxSize)
    && (HasEdge(ev) ==> TotalSize(EdgeSizes(evs, k)) + EdgeEntry(ev.edge, EdgeSize(ev.edge)) <= maxSize)
  }

  ghost predicate FitsOneTable(evs: seq<Event>, maxSize: int) {
    forall k :: 0 <= k < |evs| ==> FitsNext(evs, k, maxSize)
  }

  /** The table binds exactly these keys, with entries of these sizes. */
  ghost predicate Mirrors(t: Table, sizes: map<Bytes, nat>) {
    && t.size == TotalSize(sizes) && t.data.Keys == sizes.Keys
    && forall k :: k in sizes ==> t.data[k].Some? && sizes[k] == EntrySize(k, t.data[k])
  }

  lemma PutMirrors(t: Table, key: Bytes, value: Bytes, sizes: map<Bytes, nat>)
    requires Mirrors(t, sizes) && Put(t, key, value).1.Stored?
    ensures Mirrors(Put(t, key, value).0, sizes[key := |key| + |value|])
  {
    TotalSizeUpdate(sizes, key, |key| + |value|);
  }

  /** One healthy table of each kind, mirroring the sizes. */
  ghost predicate OneTableEach(l: Lane, maxSize: int, nodes: map<Bytes, nat>, edges: map<Bytes, nat>) {
    && Healthy(l) && l.maxSize == maxSize && |l.nodes| == |l.edges| == |l.adj| == 1
    && Mirrors(Last(l.nodes), nodes) && Mirrors(Last(l.edges), edges)
  }

  lemma {:induction false} RecoveredSizes(maxSize: int, evs: seq<Event>, redo: seq<Event>, states: seq<Lane>, k: nat)
    requires 0 <= maxSize && Run(maxSize, redo, states) && k <= |redo| <= |evs|
    requires forall j :: 0 <= j < |redo| ==> Redone(evs[j], redo[j])
    requires forall j :: 0 <= j < k ==> Applied(redo[j])
    ensures OneTableEach(states[k], maxSize, NodeSizes(evs, k), EdgeSizes(evs, k))
  {
    hide Step, OneTableEach, Redone, Applied;
    if k == 0 {
      NewLaneMirrors(maxSize);
    } else {
      RecoveredSizes(maxSize, evs, redo, states, k - 1);
      RedoStepSizes(states[k - 1], evs[k - 1], redo[k - 1], states[k], maxSize, NodeSizes(evs, k - 1),
                    EdgeSizes(evs, k - 1));
    }
  }

  lemma NewLaneMirrors(maxSize: int)
    requires 0 <= maxSize
    ensures OneTableEach(NewLane(maxSize), maxSize, map[], map[])
  {
    NewLaneHealthy(maxSize);
  }

  lemma RedoStepSizes(l: Lane, ev: Event, again: Event, l': Lane, maxSize: int, nodes: map<Bytes, nat>,
                      edges: map<Bytes, nat>)
    requires Step(l, again, l') && Redone(ev, again) && Applied(again) && OneTableEach(l, maxSize, nodes, edges)
    ensures OneTableEach(l', maxSize,
              if HasNode(ev) then nodes[NodeKey(ev.node.id) := NodeEntry(ev.node, NodeSize(ev.node))] else nodes,
              if HasEdge(ev) then edges[EdgeKey(ev.edge.id) := EdgeEntry(ev.edge, EdgeSize(ev.edge))] else edges)
  {
    hide Mirrors, EncodesNode, EncodesEdge, Put, NodeSize, EdgeSize, Healthy;
    RedoKeepsHealthy(l, again, l');
    match again
    case ReplayedNode(n, r) =>
      var stored :| EncodesNode(stored, n) && (l', r) == PutInNodes(l, NodeKey(n.id), stored);
      NodeLength(stored, n);
      NormNodeSize(ev.node);
      PutMirrors(Last(l.nodes), NodeKey(n.id), stored, nodes);
    case ReplayedEdge(e, r, out, inc) =>
      var stored :| EncodesEdge(stored, e) && (l', r, out, inc) == ReplayEdgeWith(l, e, stored);
      EdgeLength(stored, e);
      NormEdgeSize(ev.edge);
      PutMirrors(Last(l.edges), EdgeKey(e.id), stored, edges);
  }

  lemma RedoKeepsHealthy(l: Lane, again: Event, l': Lane)
    requires Healthy(l) && Step(l, again, l') && !TouchesNodesOnly(again)
    ensures Healthy(l') && l'.maxSize == l.maxSize && Ready(l) && Ready(l')
  {
    StepHealth(l, again, l');
  }

  /** One replayed write succeeds exactly when it fits next. */
  lemma RedoOutcome(maxSize: int, evs: seq<Event>, redo: seq<Event>, states: seq<Lane>, k: nat)
    requires 0 <= maxSize && Run(maxSize, redo, states) && k < |redo| <= |evs|
    requires forall j :: 0 <= j < |redo| ==> Redone(evs[j], redo[j])
    requires forall j :: 0 <= j < k ==> Applied(redo[j])
    ensures Applied(redo[k]) <==> FitsNext(evs, k, maxSize)
  {
    hide Step, Redone, Applied, FitsNext;
    RecoveredSizes(maxSize, evs, redo, states, k);
    assert Redone(evs[k], redo[k]);
    NextFits(maxSize, evs, k, states[k], redo[k], states[k + 1]);
  }

  lemma NextFits(maxSize: int, evs: seq<Event>, k: nat, l: Lane, again: Event, l': Lane)
    requires k < |evs| && Redone(evs[k], again) && Step(l, again, l')
    requires OneTableEach(l, maxSize, NodeSizes(evs, k), EdgeSizes(evs, k))
    ensures Applied(again) <==> FitsNext(evs, k, maxSize)
  {
    hide Step, TotalSize, NodeSizes, EdgeSizes, NodeSize, EdgeSize, Sound;
    RedoRoom(l, again, l');
    if HasNode(evs[k]) {
      NormNodeSize(evs[k].node);
    } else {
      NormEdgeSize(evs[k].edge);
    }
  }

  lemma RedoRoom(l: Lane, again: Event, l': Lane)
    requires Healthy(l) && Step(l, again, l') && (again.ReplayedNode? || again.ReplayedEdge?)
    ensures Applied(again) <==>
              if again.ReplayedNode? then Room(Last(l.nodes), NodeEntry(again.node, NodeSize(again.node)))
              else Room(Last(l.edges), EdgeEntry(again.edge, EdgeSize(again.edge)))
  {
    match again
    case ReplayedNode(n, r) => ReplayNodeHealthy(l, n, l', r);
    case ReplayedEdge(e, r, out, inc) => ReplayEdgeHealthy(l, e, l', r, out, inc);
  }

  /** Main result: `Recover` returns nil exactly when each logged write, also a refused one, fits
      beside the latest versions of those before it in a single table of its kind. */
  lemma RecoverSucceedsExactly(maxSize: int, evs: seq<Event>, entries: seq<Entry>,
                               redo: seq<Event>, restates: seq<Lane>, ok: bool)
    requires 0 <= maxSize && AllAttempted(evs) && AllPayloadsFit(evs) && Logs(entries, evs)
    requires Recovers(maxSize, entries, redo, restates, ok)
    ensures ok <==> FitsOneTable(evs, maxSize)
  {
    hide FitsNext, Applied, Redone, Step, Logs;
    RecoveryRedoes(maxSize, evs, entries, redo, restates, ok);
    if ok {
      forall k | 0 <= k < |evs|
        ensures FitsNext(evs, k, maxSize)
      {
        RedoOutcome(maxSize, evs, redo, restates, k);
      }
    } else {
      RedoOutcome(maxSize, evs, redo, restates, |redo| - 1);
    }
  }

  // ---------- the recovered lane reads the same ----------

  /** The event changed what is read. */
  predicate Took(ev: Event) {
    match ev
    case WroteNode(_, out) => out == NodeWritten
    case WroteEdge(_, out) => Kept(out)
    case ReplayedNode(_, r) => r.Stored?
    case ReplayedEdge(_, r, _, _) => r.Stored?
    case _ => false
  }

  /** When everything logged fits one table, every original write that was logged had succeeded too. */
  lemma FittingWritesSucceeded(maxSize: int, evs: seq<Event>, states: seq<Lane>, k: nat)
    requires 0 <= maxSize && Run(maxSize, evs, states) && k < |evs|
    requires AllAttempted(Attempts(evs, |evs|)) && FitsOneTable(Attempts(evs, |evs|), maxSize)
    ensures Unlogged(evs[k]) || Took(evs[k])
  {
    hide FitsNext, Step, Took, Unlogged, Attempted, Attempts;
    if !Unlogged(evs[k]) {
      PlainAttempts(evs);
      RunHealth(maxSize, evs, states, k);
      var j := AttemptAt(evs, |evs|, k);
      FitsAlone(Attempts(evs, |evs|), j, maxSize);
      AttemptOutcome(states[k], evs[k], states[k + 1]);
    }
  }

  lemma FitsAlone(evs: seq<Event>, k: nat, maxSize: int)
    requires k < |evs| && FitsNext(evs, k, maxSize) && Attempted(evs[k])
    ensures HasNode(evs[k]) ==> NodeEntry(evs[k].node, NodeSize(evs[k].node)) <= maxSize
    ensures HasEdge(evs[k]) ==> EdgeEntry(evs[k].edge, EdgeSize(evs[k].edge)) <= maxSize
    ensures HasNode(evs[k]) || HasEdge(evs[k])
  {
  }

  /** Every event of such a run either reached the log or left no trace, and none panicked. */
  lemma PlainAttempts(evs: seq<Event>)
    requires AllAttempted(Attempts(evs, |evs|))
    ensures Undeleted(evs) && AllAlive(evs) && forall k :: 0 <= k < |evs| ==> Unlogged(evs[k]) || Attempted(evs[k])
  {
    hide Unlogged, Attempted, Attempts, Alive;
    forall k | 0 <= k < |evs|
      ensures (Unlogged(evs[k]) || Attempted(evs[k])) && !evs[k].ReplayedDelete? && Alive(evs[k])
    {
      if !Unlogged(evs[k]) {
        var j := AttemptAt(evs, |evs|, k);
      }
      PlainAttempt(evs[k]);
    }
  }

  lemma PlainAttempt(ev: Event)
    requires Unlogged(ev) || Attempted(ev)
    ensures !ev.ReplayedDelete? && Alive(ev)
  {
  }

  /** Everything the run stored can be read back. */
  lemma PayloadsFit(entries: seq<Entry>, evs: seq<Event>)
    requires Replayable(evs) && Logs(entries, Attempts(evs, |evs|))
    ensures AllNodesFit(evs) && AllEdgesFit(evs)
  {
    hide EntryOf, PayloadFits, NodeFits, EdgeFits, Unlogged, Attempts, Attempted;
    forall k | 0 <= k < |evs|
      ensures NodeFits(evs[k]) && EdgeFits(evs[k])
    {
      if Unlogged(evs[k]) {
        UnloggedFits(evs[k]);
      } else {
        var j := AttemptAt(evs, |evs|, k);
        EntryFits(entries[j], evs[k]);
      }
    }
  }

  lemma UnloggedFits(ev: Event)
    requires Unlogged(ev)
    ensures NodeFits(ev) && EdgeFits(ev)
  {
  }

  lemma EntryFits(entry: Entry, ev: Event)
    requires EntryOf(entry, ev) && PayloadFits(ev) && Attempted(ev)
    ensures NodeFits(ev) && EdgeFits(ev)
  {
    hide EntryOf, FitsNode, FitsEdge;
    EntryDecodes(entry, ev);
  }

  lemma AttemptOutcome(l: Lane, ev: Event, l': Lane)
    requires Healthy(l) && Step(l, ev, l') && Attempted(ev)
    ensures HasNode(ev) && NodeEntry(ev.node, NodeSize(ev.node)) <= l.maxSize ==> Took(ev)
    ensures HasEdge(ev) && EdgeEntry(ev.edge, EdgeSize(ev.edge)) <= l.maxSize ==> Took(ev)
  {
    match ev
    case WroteNode(n, out) => NodeStepOutcome(l, n, l', out);
    case WroteEdge(e, out) => EdgeStepOutcome(l, e, l', out);
    case ReplayedNode(_, _) =>
    case ReplayedEdge(_, _, _, _) =>
  }

  lemma {:induction false} SameModels(evs: seq<Event>, redo: seq<Event>, k: nat)
    requires |redo| == |evs| && k <= |evs|
    requires forall j :: 0 <= j < |evs| ==> Redone(evs[j], redo[j]) && Applied(redo[j]) && Took(evs[j])
    ensures NodeModel(redo, k) == NodeModel(evs, k) && EdgeModel(redo, k) == EdgeModel(evs, k)
  {
    if k > 0 {
      SameModels(evs, redo, k - 1);
      SameSet(evs[k - 1], redo[k - 1]);
    }
  }

  lemma SameSet(ev: Event, again: Event)
    requires Redone(ev, again) && Applied(again) && Took(ev)
    ensures NodeSet(again) == NodeSet(ev) && EdgeSet(again) == EdgeSet(ev)
  {
    if HasNode(ev) {
      NormIdempotent(ev.node.props);
    } else {
      NormIdempotent(ev.edge.props);
    }
  }

  lemma RedoFits(entries: seq<Entry>, evs: seq<Event>, redo: seq<Event>)
    requires RedoOf(evs, redo, true) && AllAttempted(evs) && AllPayloadsFit(evs) && Logs(entries, evs)
    ensures AllNodesFit(redo) && AllEdgesFit(redo) && Plain(redo) && AllAlive(redo) && AllAttempted(redo)
  {
    hide Redone, Applied, PayloadFits, NodeFits, EdgeFits, TouchesNodesOnly, Alive, EntryOf, Attempted;
    forall k | 0 <= k < |redo|
      ensures NodeFits(redo[k]) && EdgeFits(redo[k]) && !TouchesNodesOnly(redo[k]) && Alive(redo[k]) &&
              Attempted(redo[k])
    {
      RedoneFits(entries[k], evs[k], redo[k]);
    }
  }

  lemma RedoneFits(entry: Entry, ev: Event, again: Event)
    requires Redone(ev, again) && Applied(again) && EntryOf(entry, ev) && PayloadFits(ev)
    ensures NodeFits(again) && EdgeFits(again) && !TouchesNodesOnly(again) && Alive(again) && Attempted(again)
  {
    hide EntryOf, FitsNode, FitsEdge;
    EntryDecodes(entry, ev);
    if HasNode(ev) {
      FitsIsNormal(ev.node);
    } else {
      EdgeFitsIsNormal(ev.edge);
    }
  }

  /** A lane that has recovered is one started on that log. */
  lemma RedoneStart(maxSize: int, evs: seq<Event>, entries: seq<Entry>, redo: seq<Event>, restates: seq<Lane>)
    requires Replayable(evs) && Logs(entries, Attempts(evs, |evs|))
    requires Recovers(maxSize, entries, redo, restates, true)
    ensures Replayable(redo) && StartedOn(entries, redo)
  {
    hide Step, Redone, Replays, Logs, PayloadFits, Attempted, Unlogged, Attempts;
    var w := Attempts(evs, |evs|);
    RecoveryRedoes(maxSize, w, entries, redo, restates, true);
    RedoFits(entries, w, redo);
    forall k | 0 <= k < |redo|
      ensures PayloadFits(redo[k]) && (redo[k].ReplayedNode? || redo[k].ReplayedEdge?)
    {
      RedoneHasPayload(w[k], redo[k]);
    }
    AttemptsOfAll(redo, |redo|);
    SliceWhole(redo);
  }

  lemma RedoneHasPayload(ev: Event, again: Event)
    requires Redone(ev, again)
    ensures PayloadFits(again) && (again.ReplayedNode? || again.ReplayedEdge?)
  {
  }

  /** Main result: a lane recovered without an error agrees with the lane that crashed on every edge,
      and reads of every node what was written last, although that lane may have rotated any number of
      times, removed flushed tables, and enumerated each property map differently each time. If it
      removed none, the two agree on every node as well. */
  lemma RecoveredReadsAgree(maxSize: int, evs: seq<Event>, states: seq<Lane>, entries: seq<Entry>,
                            redo: seq<Event>, restates: seq<Lane>, id: Bytes)
    requires 0 <= maxSize && Run(maxSize, evs, states) && Recovers(maxSize, entries, redo, restates, true)
    requires Replayable(evs) && Logs(entries, Attempts(evs, |evs|))
    ensures ReadEdge(restates[|redo|], id) == ReadEdge(states[|evs|], id)
    ensures ReadNode(restates[|redo|], id) == Get(NodeModel(evs, |evs|), id)
    ensures Plain(evs) ==> ReadNode(restates[|redo|], id) == ReadNode(states[|evs|], id)
  {
    hide Step, ReadNode, ReadEdge, NodeFits, EdgeFits, Attempted, Attempts, Logs, PayloadFits, NodeModel, EdgeModel,
      RedoOf;
    var w := Attempts(evs, |evs|);
    RecoveryRedoes(maxSize, w, entries, redo, restates, true);
    RecoveredModels(maxSize, evs, states, entries, redo, restates);
    PlainAttempts(evs);
    PayloadsFit(entries, evs);
    RedoFits(entries, w, redo);
    NodesReadLatest(maxSize, redo, restates, |redo|, id);
    EdgesReadLatest(maxSize, evs, states, |evs|, id);
    EdgesReadLatest(maxSize, redo, restates, |redo|, id);
    if Plain(evs) {
      NodesReadLatest(maxSize, evs, states, |evs|, id);
    }
  }

  /** The replayed log says of every node and edge what the run said. */
  lemma RecoveredModels(maxSize: int, evs: seq<Event>, states: seq<Lane>, entries: seq<Entry>, redo: seq<Event>,
                        restates: seq<Lane>)
    requires 0 <= maxSize && Run(maxSize, evs, states) && Recovers(maxSize, entries, redo, restates, true)
    requires Replayable(evs) && Logs(entries, Attempts(evs, |evs|))
    ensures NodeModel(redo, |redo|) == NodeModel(evs, |evs|) && EdgeModel(redo, |redo|) == EdgeModel(evs, |evs|)
  {
    hide Step, FitsNext, Redone, Applied, Attempted, Attempts, Took, Logs, PayloadFits, Unlogged, NodeModel, EdgeModel;
    var w := Attempts(evs, |evs|);
    RecoverSucceedsExactly(maxSize, w, entries, redo, restates, true);
    RecoveryRedoes(maxSize, w, entries, redo, restates, true);
    forall j | 0 <= j < |w|
      ensures Took(w[j])
    {
      var k := AttemptFrom(evs, |evs|, j);
      FittingWritesSucceeded(maxSize, evs, states, k);
    }
    SameModels(w, redo, |w|);
    AttemptsModel(evs, |evs|);
  }
}
