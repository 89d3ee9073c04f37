/** The in-memory tables (pkg/memtable/memtable.go): a value per table state, and the class whose
    methods change it. Sizes are unbounded integers. */
module Memtable {
  import opened Bytes
  import opened Graph
  import Serialization
  import Serializer
  import opened EdgeList

  /** `data` maps a key to its value, or to None for a tombstone (a stored nil). */
  datatype Table = Table(data: map<Bytes, Option<Bytes>>, size: int, count: int, maxSize: int, frozen: bool)

  /** `Panicked` is the failing type assertion on a tombstone. */
  datatype PutResult = Stored | IsFrozen | EmptyKey | TooLarge | Panicked

  function Fresh(maxSize: int): Table {
    Table(map[], 0, 0, maxSize, false)
  }

  function EntrySize(key: Bytes, value: Option<Bytes>): nat {
    |key| + if value.Some? then |value.value| else 0
  }

  function Put(t: Table, key: Bytes, value: Bytes): (Table, PutResult) {
    if t.frozen then (t, IsFrozen)
    else if key == [] then (t, EmptyKey)
    else if t.size + |key| + |value| > t.maxSize then (t, TooLarge)
    else
      var stored := t.(data := t.data[key := Some(value)]);
      if key !in t.data then
        (stored.(size := t.size + |key| + |value|, count := t.count + 1), Stored)
      else if t.data[key].Some? then
        (stored.(size := t.size + |value| - |t.data[key].value|), Stored)
      else (stored, Panicked)
  }

  function Delete(t: Table, key: Bytes): (Table, PutResult) {
    if t.frozen then (t, IsFrozen)
    else
      var stored := t.(data := t.data[key := None]);
      if key !in t.data then (stored.(size := t.size + |key|, count := t.count + 1), Stored)
      else if t.data[key].Some? then (stored.(size := t.size - |t.data[key].value|), Stored)
      else (stored, Stored)
  }

  /** The bytes stored under `key`; none when it is absent or a tombstone. */
  function Lookup(t: Table, key: Bytes): Option<Bytes> {
    if key in t.data then t.data[key] else None
  }

  // ---------- keys ----------

  const NODE_PREFIX: Bytes := [110, 111, 100, 101, 58]            // "node:"
  const EDGE_PREFIX: Bytes := [101, 100, 103, 101, 58]            // "edge:"
  const OUT_PREFIX: Bytes := [97, 100, 106, 58, 111, 117, 116, 58] // "adj:out:"
  const IN_PREFIX: Bytes := [97, 100, 106, 58, 105, 110, 58]       // "adj:in:"

  function NodeKey(id: Bytes): Bytes { NODE_PREFIX + id }
  function EdgeKey(id: Bytes): Bytes { EDGE_PREFIX + id }
  function OutKey(id: Bytes): Bytes { OUT_PREFIX + id }
  function InKey(id: Bytes): Bytes { IN_PREFIX + id }

  /** The bytes of an ASCII string. */
  ghost predicate Spells(b: Bytes, s: string) {
    |b| == |s| && forall i :: 0 <= i < |s| ==> b[i] == s[i] as int
  }

  /** How the four kinds of keys are spelled. */
  lemma KeysSpelled(id: Bytes)
    ensures Spells(NodeKey(id)[..5], "node:") && NodeKey(id)[5..] == id
    ensures Spells(EdgeKey(id)[..5], "edge:") && EdgeKey(id)[5..] == id
    ensures Spells(OutKey(id)[..8], "adj:out:") && OutKey(id)[8..] == id
    ensures Spells(InKey(id)[..7], "adj:in:") && InKey(id)[7..] == id
  {
  }

  lemma PrefixInjective(p: Bytes, a: Bytes, b: Bytes)
    requires p + a == p + b
    ensures a == b
  {
    assert (p + a)[|p|..] == a && (p + b)[|p|..] == b;
  }

  lemma OutIsNotIn(a: Bytes, b: Bytes)
    ensures OutKey(a) != InKey(b)
  {
    assert OutKey(a)[4] == 111 && InKey(b)[4] == 105;
  }

  // ---------- nodes, edges and adjacency lists in a table ----------

  function GetNode(t: Table, id: Bytes): Option<Node> {
    var b := Lookup(t, NodeKey(id));
    if b.None? then None else Serialization.DecodeNode(b.value)
  }

  function GetEdge(t: Table, id: Bytes): Option<Edge> {
    var b := Lookup(t, EdgeKey(id));
    if b.None? then None else Serialization.DecodeEdge(b.value)
  }

  function ListAt(t: Table, key: Bytes): Bytes {
    if Lookup(t, key).Some? then Lookup(t, key).value else []
  }

  /** `AddOutgoingEdge` and `AddIncomingEdge`, which differ in the key. */
  function AddToList(t: Table, key: Bytes, edgeID: Bytes): (Table, PutResult) {
    Put(t, key, ListAt(t, key) + Item(edgeID))
  }

  // ---------- accounting ----------

  ghost function Weight(m: map<Bytes, Option<Bytes>>): nat {
    if m == map[] then 0
    else
      var k :| k in m;
      EntrySize(k, m[k]) + Weight(m - {k})
  }

  lemma {:induction false} WeightWithout(m: map<Bytes, Option<Bytes>>, k: Bytes)
    requires k in m
    ensures Weight(m) == EntrySize(k, m[k]) + Weight(m - {k})
  {
    var j :| j in m && Weight(m) == EntrySize(j, m[j]) + Weight(m - {j});
    if j != k {
      WeightWithout(m - {j}, k);
      WeightWithout(m - {k}, j);
      assert m - {j} - {k} == m - {k} - {j};
    }
  }

  lemma WeightUpdate(m: map<Bytes, Option<Bytes>>, k: Bytes, v: Option<Bytes>)
    ensures Weight(m[k := v]) == EntrySize(k, v) + Weight(m - {k})
  {
    WeightWithout(m[k := v], k);
    assert m[k := v] - {k} == m - {k};
  }

  lemma AbsentKey(m: map<Bytes, Option<Bytes>>, k: Bytes)
    requires k !in m
    ensures m - {k} == m
  {
  }

  lemma CountUpdate(m: map<Bytes, Option<Bytes>>, k: Bytes, v: Option<Bytes>)
    ensures |m[k := v]| == if k in m then |m| else |m| + 1
  {
    var m' := m[k := v];
    assert m'.Keys == m.Keys + {k};
    assert |m'| == |m'.Keys| && |m| == |m.Keys|;
  }

  /** `size` is the sum of key and value lengths, `count` the number of keys. */
  ghost predicate Accounted(t: Table) {
    t.size == Weight(t.data) && t.count == |t.data|
  }

  /** Which error a `Put` returns, in the order of its tests, and what is in the table afterwards: nothing
      new after an error, and otherwise the value under its key, whatever was there, with the size and the
      count moved by what came in and went out. */
  lemma PutExactly(t: Table, key: Bytes, value: Bytes)
    ensures var (t', r) := Put(t, key, value);
            var roomy := t.size + |key| + |value| <= t.maxSize;
            && (r == IsFrozen <==> t.frozen)
            && (r == EmptyKey <==> !t.frozen && key == [])
            && (r == TooLarge <==> !t.frozen && key != [] && !roomy)
            && (r == Panicked <==> !t.frozen && key != [] && roomy && key in t.data && Lookup(t, key) == None)
            && (r.Stored? || r.Panicked? || t' == t)
            && (r.Stored? || r.Panicked? ==>
                  && t'.frozen == t.frozen && t'.maxSize == t.maxSize
                  && t'.data.Keys == t.data.Keys + {key}
                  && forall k :: Lookup(t', k) == if k == key then Some(value) else Lookup(t, k))
            && (r.Stored? ==>
                  && t'.count - t.count == (if key in t.data then 0 else 1)
                  && t'.size - t.size == |value| + (if key in t.data then -|t.data[key].value| else |key|))
            && (r.Panicked? ==> t'.count == t.count && t'.size == t.size)
  {
  }

  /** A deletion leaves a tombstone, also for a key that was not there; a frozen table stays as it is. */
  lemma DeleteExactly(t: Table, key: Bytes)
    ensures var (t', r) := Delete(t, key);
            && r == (if t.frozen then IsFrozen else Stored)
            && (t.frozen ==> t' == t)
            && (!t.frozen ==>
                  && t'.frozen == t.frozen && t'.maxSize == t.maxSize
                  && t'.data.Keys == t.data.Keys + {key} && t'.data[key] == None
                  && (forall k :: k in t.data && k != key ==> t'.data[k] == t.data[k])
                  && t'.count - t.count == (if key in t.data then 0 else 1)
                  && t'.size - t.size == if key !in t.data then |key|
                                         else if t.data[key].Some? then -|t.data[key].value| else 0)
  {
  }

  /** Main result: a `Put` keeps the books exactly when it does not hit a tombstone, and a stored
      entry leaves the table within its limit. */
  lemma PutAccounting(t: Table, key: Bytes, value: Bytes)
    requires Accounted(t)
    ensures var (t', r) := Put(t, key, value);
            && (!r.Panicked? ==> Accounted(t'))
            && (r.Panicked? ==> t'.size == Weight(t'.data) - |value| && t'.count == |t'.data|)
            && (r.Stored? ==> t'.size <= t'.maxSize)
            && (r.Panicked? ==> Lookup(t', key) == Some(value))
            && (r.Panicked? <==> !t.frozen && key != [] && key in t.data && t.data[key].None?
                                 && t.size + |key| + |value| <= t.maxSize)
  {
    WeightUpdate(t.data, key, Some(value));
    CountUpdate(t.data, key, Some(value));
    if key in t.data {
      WeightWithout(t.data, key);
    } else {
      AbsentKey(t.data, key);
    }
  }

  lemma DeleteAccounting(t: Table, key: Bytes)
    requires Accounted(t)
    ensures Accounted(Delete(t, key).0)
  {
    WeightUpdate(t.data, key, None);
    CountUpdate(t.data, key, None);
    if key in t.data {
      WeightWithout(t.data, key);
    } else {
      AbsentKey(t.data, key);
    }
  }

  datatype Op = OpPut(key: Bytes, value: Bytes) | OpDelete(key: Bytes) | OpFreeze

  function Apply(t: Table, op: Op): (Table, PutResult) {
    match op
    case OpPut(k, v) => Put(t, k, v)
    case OpDelete(k) => Delete(t, k)
    case OpFreeze => (t.(frozen := true), Stored)
  }

  function Perform(t: Table, ops: seq<Op>): (Table, seq<PutResult>) {
    if ops == [] then (t, [])
    else
      var (t1, rs) := Perform(t, ops[..|ops| - 1]);
      var (t2, r) := Apply(t1, ops[|ops| - 1]);
      (t2, rs + [r])
  }

  /** Over whole runs that never put onto a tombstone, the books are right. */
  lemma {:induction false} RunAccounting(maxSize: int, ops: seq<Op>)
    requires Panicked !in Perform(Fresh(maxSize), ops).1
    ensures Accounted(Perform(Fresh(maxSize), ops).0)
    ensures Perform(Fresh(maxSize), ops).0.maxSize == maxSize
  {
    if ops != [] {
      var init, last := ops[..|ops| - 1], ops[|ops| - 1];
      var (t1, rs) := Perform(Fresh(maxSize), init);
      var r := Apply(t1, last).1;
      assert Perform(Fresh(maxSize), ops).1 == rs + [r];
      assert (rs + [r])[|rs|] == r;
      RunAccounting(maxSize, init);
      match last
      case OpPut(k, v) => PutAccounting(t1, k, v);
      case OpDelete(k) => DeleteAccounting(t1, k);
      case OpFreeze =>
    }
  }

  // ---------- the table object ----------

  class Memtable {
    var data: map<Bytes, Option<Bytes>>
    var size: int
    var count: int
    const maxSize: int
    var frozen: bool

    function View(): Table
      reads this
    {
      Table(data, size, count, maxSize, frozen)
    }

    constructor (maxSize: int)
      ensures View() == Fresh(maxSize)
    {
      data, size, count, frozen := map[], 0, 0, false;
      this.maxSize := maxSize;
    }

    method PutBytes(key: Bytes, value: Bytes) returns (r: PutResult)
      modifies this
      ensures (View(), r) == Put(old(View()), key, value)
    {
      if frozen {
        return IsFrozen;
      }
      if key == [] {
        return EmptyKey;
      }
      var entrySize := |key| + |value|;
      if size + entrySize > maxSize {
        return TooLarge;
      }
      if key in data {
        var oldValue := data[key];
        data := data[key := Some(value)];
        if oldValue.None? {
          return Panicked;
        }
        size := size + (entrySize - (|key| + |oldValue.value|));
      } else {
        data := data[key := Some(value)];
        size := size + entrySize;
        count := count + 1;
      }
      return Stored;
    }

    method DeleteKey(key: Bytes) returns (r: PutResult)
      modifies this
      ensures (View(), r) == Delete(old(View()), key)
    {
      if frozen {
        return IsFrozen;
      }
      if key !in data {
        data := data[key := None];
        count := count + 1;
        size := size + |key|;
        return Stored;
      }
      var oldValue := data[key];
      data := data[key := None];
      if oldValue.Some? {
        size := size - |oldValue.value|;
      }
      return Stored;
    }

    method Freeze()
      modifies `frozen
      ensures View() == old(View()).(frozen := true)
    {
      frozen := true;
    }

    method Clear()
      modifies this
      ensures View() == Fresh(maxSize)
    {
      data, size, count, frozen := map[], 0, 0, false;
    }

    /** `Entries` ranges over the map: every binding once, in no particular order. */
    method Entries() returns (entries: seq<(Bytes, Option<Bytes>)>)
      ensures Enumerates(entries, data)
    {
      entries := [];
      var todo := data.Keys;
      while todo != {}
        invariant todo <= data.Keys && DistinctKeys(entries)
        invariant forall i :: 0 <= i < |entries| ==>
                    entries[i].0 in data && entries[i].0 !in todo && entries[i].1 == data[entries[i].0]
        invariant forall k :: k in data && k !in todo ==> exists i :: 0 <= i < |entries| && entries[i].0 == k
      {
        var k :| k in todo;
        ghost var before := entries;
        entries := entries + [(k, data[k])];
        todo := todo - {k};
        assert forall i :: 0 <= i < |before| ==> entries[i] == before[i];
        assert entries[|before|].0 == k;
      }
    }

    /** `PutNode`: None when the node cannot be serialized. */
    method PutNode(n: Node) returns (r: Option<PutResult>, ghost stored: Bytes)
      modifies this
      ensures r.Some? <==> Serialization.Supported(n.props)
      ensures r.None? ==> View() == old(View())
      ensures r.Some? ==> Serialization.EncodesNode(stored, n)
                          && (View(), r.value) == Put(old(View()), NodeKey(n.id), stored)
    {
      stored := [];
      var bytes := Serializer.SerializeNode(n);
      if bytes.None? {
        return None, stored;
      }
      stored := bytes.value;
      var done := PutBytes(NodeKey(n.id), bytes.value);
      r := Some(done);
    }

    method PutEdge(e: Edge) returns (r: Option<PutResult>, ghost stored: Bytes)
      modifies this
      ensures r.Some? <==> Serialization.Supported(e.props)
      ensures r.None? ==> View() == old(View())
      ensures r.Some? ==> Serialization.EncodesEdge(stored, e)
                          && (View(), r.value) == Put(old(View()), EdgeKey(e.id), stored)
    {
      stored := [];
      var bytes := Serializer.SerializeEdge(e);
      if bytes.None? {
        return None, stored;
      }
      stored := bytes.value;
      var done := PutBytes(EdgeKey(e.id), bytes.value);
      r := Some(done);
    }

    method ReadNode(id: Bytes) returns (n: Option<Node>)
      ensures n == GetNode(View(), id)
    {
      var key := NodeKey(id);
      if key !in data || data[key].None? {
        return None;
      }
      n := Serializer.DeserializeNode(data[key].value);
    }

    method ReadEdge(id: Bytes) returns (e: Option<Edge>)
      ensures e == GetEdge(View(), id)
    {
      var key := EdgeKey(id);
      if key !in data || data[key].None? {
        return None;
      }
      e := Serializer.DeserializeEdge(data[key].value);
    }

    method AddEdgeTo(key: Bytes, edgeID: Bytes) returns (r: PutResult)
      modifies this
      ensures (View(), r) == AddToList(old(View()), key, edgeID)
    {
      var existing := if key in data && data[key].Some? then data[key].value else [];
      r := PutBytes(key, existing + Item(edgeID));
    }

    method EdgesAt(key: Bytes) returns (edges: seq<Bytes>)
      ensures edges == ParseEdgeList(ListAt(View(), key))
    {
      if key !in data || data[key].None? {
        return [];
      }
      edges := Parse(data[key].value);
    }
  }
}
