/** What one call on a write lane does to everything that can be read from the lane. */
module LaneSteps {
  import opened Bytes
  import opened Graph
  import opened Serialization
  import opened EdgeList
  import opened Memtable
  import opened Wal
  import opened Lane

  // ---------- which of its three effects an edge write had ----------

  predicate Kept(out: EdgeOutcome) {
    out.EdgeWritten? || out.RewriteRefused? || out.OutRefused? || out.InRefused?
  }

  predicate OutListed(out: EdgeOutcome) {
    out.EdgeWritten? || out.InRefused?
  }

  predicate InListed(out: EdgeOutcome) {
    out.EdgeWritten?
  }

  function Appended(listed: bool, edgeID: Bytes): Bytes {
    if listed then Item(edgeID) else []
  }

  // ---------- what a reader can find out, before decoding ----------

  /** Three keys to look at, one for each kind of table. */
  datatype Keys = Keys(node: Bytes, edge: Bytes, list: Bytes)

  predicate SameShape(l: Lane, l': Lane) {
    Ready(l') && l'.maxSize == l.maxSize && l'.stopped == l.stopped && l'.log == l.log
  }

  lemma RotationIsInvisible(l: Lane, k: Keys)
    requires Ready(l)
    ensures SameShape(l, Rotate(l)) && ListBytes(Rotate(l), k.list) == ListBytes(l, k.list)
    ensures NodeStack(Rotate(l), k.node) == NodeStack(l, k.node) && EdgeStack(Rotate(l), k.edge) == EdgeStack(l, k.edge)
  {
    StackRotated(l.nodes, l.maxSize, k.node);
    StackRotated(l.edges, l.maxSize, k.edge);
    ListRotated(l.adj, l.maxSize, k.list);
  }

  lemma PutInNodesLook(l: Lane, key: Bytes, value: Bytes, k: Keys)
    requires Ready(l)
    ensures var (l', r) := PutInNodes(l, key, value);
            && SameShape(l, l')
            && (!r.Stored? && !r.Panicked? ==> l' == l)
            && EdgeStack(l', k.edge) == EdgeStack(l, k.edge) && ListBytes(l', k.list) == ListBytes(l, k.list)
            && (r.Stored? && k.node != key ==> NodeStack(l', k.node) == NodeStack(l, k.node))
            && (r.Stored? && k.node == key ==> Tops(NodeStack(l', k.node), value))
  {
    StackPut(l.nodes, key, value, k.node);
  }

  lemma PutInEdgesLook(l: Lane, key: Bytes, value: Bytes, k: Keys)
    requires Ready(l)
    ensures var (l', r) := PutInEdges(l, key, value);
            && SameShape(l, l')
            && (!r.Stored? && !r.Panicked? ==> l' == l)
            && NodeStack(l', k.node) == NodeStack(l, k.node) && ListBytes(l', k.list) == ListBytes(l, k.list)
            && (r.Stored? && k.edge != key ==> EdgeStack(l', k.edge) == EdgeStack(l, k.edge))
            && (r.Stored? && k.edge == key ==> Tops(EdgeStack(l', k.edge), value))
  {
    StackPut(l.edges, key, value, k.edge);
  }

  lemma AddInAdjLook(l: Lane, key: Bytes, edgeID: Bytes, k: Keys)
    requires Ready(l)
    ensures var (l', r) := AddInAdj(l, key, edgeID);
            && SameShape(l, l')
            && (!r.Stored? && !r.Panicked? ==> l' == l)
            && NodeStack(l', k.node) == NodeStack(l, k.node) && EdgeStack(l', k.edge) == EdgeStack(l, k.edge)
            && (r.Stored? ==>
                  ListBytes(l', k.list) == ListBytes(l, k.list) + if k.list == key then Item(edgeID) else [])
  {
    ListAdd(l.adj, key, edgeID, k.list);
  }

  // ---------- nodes ----------

  lemma NodeWriteLook(l: Lane, n: Node, logged: Bytes, stored: Bytes, retried: Bytes, now: i64, k: Keys)
    requires Ready(l)
    ensures var (l', out) := WriteNodeWith(l, n, logged, stored, retried, now);
            && SameShape(Logged(l, ENTRY_NODE, n.id, logged, now), l')
            && EdgeStack(l', k.edge) == EdgeStack(l, k.edge) && ListBytes(l', k.list) == ListBytes(l, k.list)
            && (out.NodeCrashed? ||
                if out.NodeWritten? && k.node == NodeKey(n.id)
                then var s := NodeStack(l', k.node); Tops(s, stored) || Tops(s, retried)
                else NodeStack(l', k.node) == NodeStack(l, k.node))
  {
    var key := NodeKey(n.id);
    var l1 := Logged(l, ENTRY_NODE, n.id, logged, now);
    PutInNodesLook(l1, key, stored, k);
    var (l2, r) := PutInNodes(l1, key, stored);
    RotationIsInvisible(l2, k);
    PutInNodesLook(Rotate(l2), key, retried, k);
    RotationIsInvisible(PutInNodes(Rotate(l2), key, retried).0, k);
  }

  // ---------- edges ----------

  /** What indexing an edge adds to the list under `key`. */
  function NewItems(e: Edge, outListed: bool, inListed: bool, key: Bytes): Bytes {
    if key == OutKey(e.from) then Appended(outListed, e.id)
    else if key == InKey(e.to) then Appended(inListed, e.id)
    else []
  }

  /** `l'` shows at `k` what `l` did, except for the new list items and, if the edge was written
      again, for its own value. */
  ghost predicate Indexed(l: Lane, l': Lane, e: Edge, rewritten: Bytes, out: EdgeOutcome, k: Keys) {
    && SameShape(l, l')
    && NodeStack(l', k.node) == NodeStack(l, k.node)
    && (EdgeStack(l', k.edge) == EdgeStack(l, k.edge) ||
        (k.edge == EdgeKey(e.id) && Tops(EdgeStack(l', k.edge), rewritten)))
    && ListBytes(l', k.list) == ListBytes(l, k.list) + NewItems(e, OutListed(out), InListed(out), k.list)
  }

  lemma AddBothLook(l: Lane, e: Edge, rewritten: Bytes, out: EdgeOutcome, k: Keys)
    requires Ready(l) && AddInAdj(l, OutKey(e.from), e.id).1.Stored?
    requires var inc := AddInAdj(AddInAdj(l, OutKey(e.from), e.id).0, InKey(e.to), e.id).1;
             (inc.Stored? && out.EdgeWritten?) || (!inc.Stored? && !inc.Panicked? && out.InRefused?)
    ensures Indexed(l, AddInAdj(AddInAdj(l, OutKey(e.from), e.id).0, InKey(e.to), e.id).0, e, rewritten, out, k)
  {
    OutIsNotIn(e.from, e.to);
    AddInAdjLook(l, OutKey(e.from), e.id, k);
    AddInAdjLook(AddInAdj(l, OutKey(e.from), e.id).0, InKey(e.to), e.id, k);
    NothingAdded(ListBytes(l, k.list));
    NothingAdded(ListBytes(l, k.list) + Item(e.id));
  }

  lemma RewriteEdgeLook(l: Lane, e: Edge, rewritten: Bytes, k: Keys)
    requires Ready(l) && RewriteEdge(l, e, rewritten).1 != EdgeCrashed
    ensures var (l', out) := RewriteEdge(l, e, rewritten); Indexed(l, l', e, rewritten, out, k) && Kept(out)
  {
    PutInEdgesLook(l, EdgeKey(e.id), rewritten, k);
    var (l1, r) := PutInEdges(l, EdgeKey(e.id), rewritten);
    var (l', out) := RewriteEdge(l, e, rewritten);
    if r.Stored? {
      AddInAdjLook(l1, OutKey(e.from), e.id, k);
      if AddInAdj(l1, OutKey(e.from), e.id).1.Stored? {
        AddBothLook(l1, e, rewritten, out, k);
      }
    }
    NothingAdded(ListBytes(l, k.list));
  }

  lemma IndexEdgeLook(l: Lane, e: Edge, rewritten: Bytes, k: Keys)
    requires Ready(l) && IndexEdge(l, e, rewritten).1 != EdgeCrashed
    ensures var (l', out) := IndexEdge(l, e, rewritten); Indexed(l, l', e, rewritten, out, k) && Kept(out)
  {
    var (l1, r) := AddInAdj(l, OutKey(e.from), e.id);
    var (l', out) := IndexEdge(l, e, rewritten);
    if r.Stored? {
      AddBothLook(l, e, rewritten, out, k);
      RotationIsInvisible(AddInAdj(l1, InKey(e.to), e.id).0, k);
    } else {
      AddInAdjLook(l, OutKey(e.from), e.id, k);
      RotationIsInvisible(l1, k);
      RewriteEdgeLook(Rotate(l1), e, rewritten, k);
    }
  }

  lemma EdgeWriteLook(l: Lane, e: Edge, logged: Bytes, stored: Bytes, retried: Bytes, rewritten: Bytes, now: i64,
                      k: Keys)
    requires Ready(l) && WriteEdgeWith(l, e, logged, stored, retried, rewritten, now).1 != EdgeCrashed
    ensures var (l', out) := WriteEdgeWith(l, e, logged, stored, retried, rewritten, now);
            && SameShape(Logged(l, ENTRY_EDGE, e.id, logged, now), l')
            && NodeStack(l', k.node) == NodeStack(l, k.node)
            && ListBytes(l', k.list) == ListBytes(l, k.list) + NewItems(e, OutListed(out), InListed(out), k.list)
            && (if Kept(out) && k.edge == EdgeKey(e.id)
                then var s := EdgeStack(l', k.edge); Tops(s, stored) || Tops(s, retried) || Tops(s, rewritten)
                else EdgeStack(l', k.edge) == EdgeStack(l, k.edge))
  {
    var key := EdgeKey(e.id);
    var l1 := Logged(l, ENTRY_EDGE, e.id, logged, now);
    PutInEdgesLook(l1, key, stored, k);
    var (l2, r) := PutInEdges(l1, key, stored);
    if r.Stored? {
      IndexEdgeLook(l2, e, rewritten, k);
    } else {
      RotationIsInvisible(l2, k);
      PutInEdgesLook(Rotate(l2), key, retried, k);
      var (l3, again) := PutInEdges(Rotate(l2), key, retried);
      if again.Stored? {
        IndexEdgeLook(l3, e, rewritten, k);
      } else {
        NothingAdded(ListBytes(l, k.list));
      }
    }
  }
}
