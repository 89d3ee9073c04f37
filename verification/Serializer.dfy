/** `graph.Serializer` step by step: an output buffer that grows, a reader that advances. Each
    method is proved against the functions of module Serialization. */
module Serializer {
  import opened Bytes
  import opened Graph
  import opened Serialization

  lemma {:induction false} EncStringsSnoc(ss: seq<Bytes>, s: Bytes)
    ensures EncStrings(ss + [s]) == EncStrings(ss) + EncString(s)
  {
    if ss == [] {
      assert ss + [s] == [s];
      assert [s][1..] == [];
      assert EncStrings([s]) == EncString(s) + EncStrings([]);
    } else {
      assert (ss + [s])[1..] == ss[1..] + [s];
      EncStringsSnoc(ss[1..], s);
      Concat3(EncString(ss[0]), EncStrings(ss[1..]), EncString(s));
    }
  }

  lemma {:induction false} EncPropsSnoc(order: PropOrder, k: Bytes, v: Value)
    ensures EncProps(order + [(k, v)]) == EncProps(order) + (EncString(k) + EncValue(v))
  {
    var longer := order + [(k, v)];
    EncPropsStep(longer);
    if order == [] {
      assert longer[1..] == [];
    } else {
      assert longer[1..] == order[1..] + [(k, v)];
      EncPropsSnoc(order[1..], k, v);
      EncPropsStep(order);
      var a, b, c := EncString(order[0].0), EncValue(order[0].1), EncProps(order[1..]);
      Concat3(b, c, EncString(k) + EncValue(v));
      Concat3(a, b + c, EncString(k) + EncValue(v));
    }
  }

  /** `order` lists the bindings of `m` that are not in `todo`, all of them supported. */
  ghost predicate Listed(order: PropOrder, m: Properties, todo: set<Bytes>) {
    && DistinctKeys(order)
    && (forall k :: k in m && k !in todo ==> exists i :: 0 <= i < |order| && order[i].0 == k)
    && (forall i :: 0 <= i < |order| ==>
          order[i].0 in m && order[i].0 !in todo && order[i].1 == m[order[i].0] && !order[i].1.Other?)
  }

  lemma ListedMore(order: PropOrder, m: Properties, todo: set<Bytes>, k: Bytes)
    requires Listed(order, m, todo) && todo <= m.Keys && k in todo && !m[k].Other?
    ensures Listed(order + [(k, m[k])], m, todo - {k})
  {
    var longer := order + [(k, m[k])];
    assert forall i :: 0 <= i < |order| ==> longer[i] == order[i];
    assert longer[|order|].0 == k;
  }

  lemma ListedAll(order: PropOrder, m: Properties)
    requires Listed(order, m, {})
    ensures Enumerates(order, m) && Supported(m)
  {
    forall k | k in m
      ensures !m[k].Other?
    {
      var i :| 0 <= i < |order| && order[i].0 == k;
    }
  }

  /** The loop over a property map. Which key comes next is not determined. */
  method WriteProps(m: Properties) returns (r: Option<Bytes>)
    ensures r.Some? <==> Supported(m)
    ensures r.Some? ==> exists order :: Enumerates(order, m) && r.value == EncProps(order)
  {
    hide Listed, Enumerates, EncString, EncValue;
    var buf, todo := [], m.Keys;
    ghost var order: PropOrder := [];
    assert Listed(order, m, todo) by { ListedNone(m); }
    while todo != {}
      invariant todo <= m.Keys && Listed(order, m, todo) && buf == EncProps(order)
    {
      var k :| k in todo;
      if m[k].Other? {
        return None;
      }
      EncPropsSnoc(order, k, m[k]);
      ListedMore(order, m, todo, k);
      buf := buf + (EncString(k) + EncValue(m[k]));
      order := order + [(k, m[k])];
      todo := todo - {k};
    }
    ListedAll(order, m);
    return Some(buf);
  }

  lemma ListedNone(m: Properties)
    ensures Listed([], m, m.Keys)
  {
  }

  method SerializeNode(n: Node) returns (r: Option<Bytes>)
    ensures r.Some? <==> Supported(n.props)
    ensures r.Some? ==> EncodesNode(r.value, n)
  {
    var labels := [];
    for i := 0 to |n.labels|
      invariant labels == EncStrings(n.labels[..i])
    {
      EncStringsSnoc(n.labels[..i], n.labels[i]);
      assert n.labels[..i + 1] == n.labels[..i] + [n.labels[i]];
      labels := labels + EncString(n.labels[i]);
    }
    assert n.labels[..|n.labels|] == n.labels;
    var props := WriteProps(n.props);
    if props.None? {
      return None;
    }
    ghost var order :| Enumerates(order, n.props) && props.value == EncProps(order);
    EnumerationLength(order, n.props);
    r := Some(EncString(n.id) + (BE(|n.labels|, 4) + (labels
         + (BE(|n.props|, 4) + (props.value + EncStamp(n.version, n.created, n.updated))))));
    assert r.value == EncNode(n, order);
  }

  method SerializeEdge(e: Edge) returns (r: Option<Bytes>)
    ensures r.Some? <==> Supported(e.props)
    ensures r.Some? ==> EncodesEdge(r.value, e)
  {
    var props := WriteProps(e.props);
    if props.None? {
      return None;
    }
    ghost var order :| Enumerates(order, e.props) && props.value == EncProps(order);
    EnumerationLength(order, e.props);
    r := Some(EncString(e.id) + (EncString(e.from) + (EncString(e.to) + (EncString(e.kind)
         + (BE(|e.props|, 4) + (props.value + EncStamp(e.version, e.created, e.updated)))))));
    assert r.value == EncEdge(e, order);
  }

  /** `bytes.Reader`. After a failed read its position no longer matters. */
  class ByteReader {
    const data: Bytes
    var pos: nat

    ghost predicate Valid()
      reads this
    {
      pos <= |data|
    }

    function Rest(): Bytes
      requires Valid()
      reads this
    {
      data[pos..]
    }

    constructor (data: Bytes)
      ensures Valid() && Rest() == data
    {
      this.data, this.pos := data, 0;
    }

    /** The method's result and the reader's new rest are those of the function `p`. */
    ghost predicate Follows<T>(r: Option<T>, p: Parse<T>)
      reads this
    {
      Valid() && match p case Ok(v, rest) => r == Some(v) && Rest() == rest case Fail => r == None
    }

    method ReadFixedField(w: nat) returns (r: Option<nat>)
      requires Valid()
      modifies `pos
      ensures Follows(r, ReadFixed(old(Rest()), w))
    {
      if |data| - pos < w {
        pos := |data|;
        return None;
      }
      r := Some(FromBE(data[pos..pos + w]));
      assert data[pos..][..w] == data[pos..pos + w];
      pos := pos + w;
    }

    method ReadU64Field() returns (r: Option<u64>)
      requires Valid()
      modifies `pos
      ensures Follows(r, ReadU64(old(Rest())))
    {
      var n := ReadFixedField(8);
      if n.Some? {
        assert n.value == ReadU64(old(Rest())).value;
        r := Some(n.value);
      } else {
        r := None;
      }
    }

    method ReadStringField() returns (r: Option<Bytes>)
      requires Valid()
      modifies `pos
      ensures Follows(r, ReadString(old(Rest())))
    {
      var n := ReadFixedField(4);
      if n.None? || pos == |data| {
        return None;
      }
      if n.value <= |data| - pos {
        r := Some(data[pos..pos + n.value]);
        assert data[pos..][..n.value] == data[pos..pos + n.value];
        pos := pos + n.value;
      } else {
        r := Some(data[pos..] + Zeros(n.value - (|data| - pos)));
        pos := |data|;
      }
    }

    method ReadValueField() returns (r: Option<Value>)
      requires Valid()
      modifies `pos
      ensures Follows(r, ReadValue(old(Rest())))
    {
      if pos == |data| {
        return None;
      }
      var tag := data[pos];
      pos := pos + 1;
      assert Rest() == old(Rest())[1..];
      if tag == TYPE_STRING || tag == TYPE_BYTES {
        var s := ReadStringField();
        r := if s.None? then None else if tag == TYPE_STRING then Some(Text(s.value)) else Some(Blob(s.value));
      } else if tag == TYPE_INT64 || tag == TYPE_FLOAT64 {
        var x := ReadU64Field();
        r := if x.None? then None else if tag == TYPE_INT64 then Some(Int64(Signed(x.value)))
                                       else Some(Float64(x.value));
      } else if tag == TYPE_BOOL && pos < |data| {
        r := Some(Bool(data[pos] == 1));
        pos := pos + 1;
        assert Rest() == old(Rest())[2..];
      } else {
        r := None;
      }
    }

    method ReadLabels() returns (r: Option<seq<Bytes>>)
      requires Valid()
      modifies `pos
      ensures match ReadFixed(old(Rest()), 4)
              case Ok(count, b) => Follows(r, ReadStrings(b, count, []))
              case Fail => Valid() && r == None
    {
      var count := ReadFixedField(4);
      if count.None? {
        return None;
      }
      hide ReadString;
      ghost var target := ReadStrings(Rest(), count.value, []);
      var labels := [];
      for i := 0 to count.value
        invariant Valid() && ReadStrings(Rest(), count.value - i, labels) == target
      {
        var text := ReadStringField();
        if text.None? {
          return None;
        }
        labels := labels + [text.value];
      }
      return Some(labels);
    }

    method ReadPropsFields(count: nat) returns (r: Option<Properties>)
      requires Valid()
      modifies `pos
      ensures Follows(r, ReadProps(old(Rest()), count, map[]))
    {
      ghost var target := ReadProps(Rest(), count, map[]);
      var props := map[];
      for i := 0 to count
        invariant Valid() && ReadProps(Rest(), count - i, props) == target
      {
        var k := ReadStringField();
        if k.None? {
          return None;
        }
        var v := ReadValueField();
        if v.None? {
          return None;
        }
        props := props[k.value := v.value];
      }
      return Some(props);
    }

    method ReadTailFields() returns (r: Option<Tail>)
      requires Valid()
      modifies `pos
      ensures Follows(r, ReadTail(old(Rest())))
    {
      var count := ReadFixedField(4);
      if count.None? {
        return None;
      }
      var props := ReadPropsFields(count.value);
      if props.None? {
        return None;
      }
      var version := ReadU64Field();
      if version.None? {
        return None;
      }
      var created := ReadU64Field();
      if created.None? {
        return None;
      }
      var updated := ReadU64Field();
      if updated.None? {
        return None;
      }
      return Some(Tail(props.value, version.value, Time(Signed(created.value), 0), Time(Signed(updated.value), 0)));
    }
  }

  method DeserializeNode(data: Bytes) returns (r: Option<Node>)
    ensures r == DecodeNode(data)
  {
    var buf := new ByteReader(data);
    var id := buf.ReadStringField();
    if id.None? {
      return None;
    }
    var labels := buf.ReadLabels();
    if labels.None? {
      return None;
    }
    var t := buf.ReadTailFields();
    if t.None? {
      return None;
    }
    return Some(Node(id.value, labels.value, t.value.props, t.value.version, t.value.created, t.value.updated));
  }

  method DeserializeEdge(data: Bytes) returns (r: Option<Edge>)
    ensures r == DecodeEdge(data)
  {
    var buf := new ByteReader(data);
    var id := buf.ReadStringField();
    if id.None? {
      return None;
    }
    var from := buf.ReadStringField();
    if from.None? {
      return None;
    }
    var to := buf.ReadStringField();
    if to.None? {
      return None;
    }
    var kind := buf.ReadStringField();
    if kind.None? {
      return None;
    }
    var t := buf.ReadTailFields();
    if t.None? {
      return None;
    }
    return Some(Edge(id.value, from.value, to.value, kind.value, t.value.props,
                     t.value.version, t.value.created, t.value.updated));
  }
}
