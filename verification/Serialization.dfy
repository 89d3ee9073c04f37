/** The binary form of nodes and edges (pkg/graph/serialization.go), as functions. A property map
    is written in the order Go happens to enumerate it, so an encoding depends on an enumeration. */
module Serialization {
  import opened Bytes
  import opened Graph

  const TYPE_STRING: byte := 1
  const TYPE_INT64: byte := 2
  const TYPE_FLOAT64: byte := 3
  const TYPE_BOOL: byte := 4
  const TYPE_BYTES: byte := 5

  type PropOrder = seq<(Bytes, Value)>

  // ---------- writing ----------

  predicate Supported(m: Properties) {
    forall k :: k in m ==> !m[k].Other?
  }

  function EncString(s: Bytes): Bytes {
    BE(|s|, 4) + s
  }

  function EncStrings(ss: seq<Bytes>): Bytes {
    if ss == [] then [] else EncString(ss[0]) + EncStrings(ss[1..])
  }

  function EncValue(v: Value): Bytes {
    match v
    case Text(s) => [TYPE_STRING] + EncString(s)
    case Int(i) => [TYPE_INT64] + BE(Bits(i), 8)
    case Int64(i) => [TYPE_INT64] + BE(Bits(i), 8)
    case Float64(bits) => [TYPE_FLOAT64] + BE(bits, 8)
    case Bool(b) => [TYPE_BOOL, if b then 1 else 0]
    case Blob(d) => [TYPE_BYTES] + EncString(d)
    case Other => []
  }

  function EncProps(order: PropOrder): Bytes {
    if order == [] then [] else EncString(order[0].0) + EncValue(order[0].1) + EncProps(order[1..])
  }

  function EncStamp(version: u64, created: Time, updated: Time): Bytes {
    BE(version, 8) + (BE(Bits(created.sec), 8) + BE(Bits(updated.sec), 8))
  }

  /** What follows a node's labels and an edge's strings. */
  function EncTail(order: PropOrder, version: u64, created: Time, updated: Time): Bytes {
    BE(|order|, 4) + (EncProps(order) + EncStamp(version, created, updated))
  }

  function EncNode(n: Node, order: PropOrder): Bytes {
    EncString(n.id) + (BE(|n.labels|, 4) + (EncStrings(n.labels) + EncTail(order, n.version, n.created, n.updated)))
  }

  function EncEdge(e: Edge, order: PropOrder): Bytes {
    EncString(e.id) + (EncString(e.from) + (EncString(e.to) + (EncString(e.kind)
    + EncTail(order, e.version, e.created, e.updated))))
  }

  /** `b` is one of the byte strings `SerializeNode(n)` may return. */
  ghost predicate EncodesNode(b: Bytes, n: Node) {
    Supported(n.props) && exists order :: Enumerates(order, n.props) && b == EncNode(n, order)
  }

  ghost predicate EncodesEdge(b: Bytes, e: Edge) {
    Supported(e.props) && exists order :: Enumerates(order, e.props) && b == EncEdge(e, order)
  }

  // ---------- reading ----------

  /** The outcome of reading from the bytes that remain. */
  datatype Parse<+T> = Ok(value: T, rest: Bytes) | Fail {
    predicate IsFailure() { Fail? }
    function PropagateFailure<U>(): Parse<U> requires Fail? { Fail }
    function Extract(): (T, Bytes) requires Ok? { (value, rest) }
  }

  /** `binary.Read` of a `w`-byte unsigned integer. */
  function ReadFixed(b: Bytes, w: nat): Parse<nat> {
    if |b| < w then Fail else Ok(FromBE(b[..w]), b[w..])
  }

  function Zeros(n: nat): (r: Bytes)
    ensures |r| == n
  {
    if n == 0 then [] else [0] + Zeros(n - 1)
  }

  /** `bytes.Reader.Read` into a buffer of `n` zero bytes: an exhausted reader is an error even
      for n == 0, and a short read is not an error but leaves the zeros in place. */
  function ReadShort(b: Bytes, n: nat): Parse<Bytes> {
    if b == [] then Fail
    else if n <= |b| then Ok(b[..n], b[n..])
    else Ok(b + Zeros(n - |b|), [])
  }

  function ReadString(b: Bytes): Parse<Bytes> {
    var (n, b) :- ReadFixed(b, 4);
    ReadShort(b, n)
  }

  function ReadU64(b: Bytes): Parse<u64> {
    var (n, rest) :- ReadFixed(b, 8);
    assert n < U64 by { FromBEBound(b[..8]); Pow256Values(); }
    Ok(n, rest)
  }

  function ReadI64(b: Bytes): Parse<i64> {
    var (n, rest) :- ReadU64(b);
    Ok(Signed(n), rest)
  }

  function ReadValue(b: Bytes): Parse<Value> {
    if b == [] then Fail
    else if b[0] == TYPE_STRING then var (s, rest) :- ReadString(b[1..]); Ok(Text(s), rest)
    else if b[0] == TYPE_INT64 then var (i, rest) :- ReadI64(b[1..]); Ok(Int64(i), rest)
    else if b[0] == TYPE_FLOAT64 then var (x, rest) :- ReadU64(b[1..]); Ok(Float64(x), rest)
    else if b[0] == TYPE_BOOL then if |b| == 1 then Fail else Ok(Bool(b[1] == 1), b[2..])
    else if b[0] == TYPE_BYTES then var (d, rest) :- ReadString(b[1..]); Ok(Blob(d), rest)
    else Fail
  }

  function ReadStrings(b: Bytes, n: nat, acc: seq<Bytes>): Parse<seq<Bytes>>
    decreases n
  {
    if n == 0 then Ok(acc, b)
    else
      var (s, b) :- ReadString(b);
      ReadStrings(b, n - 1, acc + [s])
  }

  function ReadProps(b: Bytes, n: nat, acc: Properties): Parse<Properties>
    decreases n
  {
    if n == 0 then Ok(acc, b)
    else
      var (k, b) :- ReadString(b);
      var (v, b) :- ReadValue(b);
      ReadProps(b, n - 1, acc[k := v])
  }

  datatype Tail = Tail(props: Properties, version: u64, created: Time, updated: Time)

  function ReadTail(b: Bytes): Parse<Tail> {
    var (count, b) :- ReadFixed(b, 4);
    var (props, b) :- ReadProps(b, count, map[]);
    var (version, b) :- ReadU64(b);
    var (created, b) :- ReadI64(b);
    var (updated, b) :- ReadI64(b);
    Ok(Tail(props, version, Time(created, 0), Time(updated, 0)), b)
  }

  /** `DeserializeNode`; bytes after the last field are ignored, as in the source. */
  function DecodeNode(b: Bytes): Option<Node> {
    match ParseNode(b) case Ok(n, _) => Some(n) case Fail => None
  }

  function ParseNode(b: Bytes): Parse<Node> {
    var (id, b) :- ReadString(b);
    var (count, b) :- ReadFixed(b, 4);
    var (labels, b) :- ReadStrings(b, count, []);
    var (t, b) :- ReadTail(b);
    Ok(Node(id, labels, t.props, t.version, t.created, t.updated), b)
  }

  function DecodeEdge(b: Bytes): Option<Edge> {
    match ParseEdge(b) case Ok(e, _) => Some(e) case Fail => None
  }

  function ParseEdge(b: Bytes): Parse<Edge> {
    var (id, b) :- ReadString(b);
    var (from, b) :- ReadString(b);
    var (to, b) :- ReadString(b);
    var (kind, b) :- ReadString(b);
    var (t, b) :- ReadTail(b);
    Ok(Edge(id, from, to, kind, t.props, t.version, t.created, t.updated), b)
  }

  // ---------- what a 32-bit length can carry ----------

  predicate FitsValue(v: Value) {
    match v
    case Text(s) => |s| < U32
    case Blob(d) => |d| < U32
    case _ => true
  }

  predicate FitsProps(m: Properties) {
    |m| < U32 && forall k :: k in m ==> |k| < U32 && FitsValue(m[k])
  }

  predicate FitsStrings(ss: seq<Bytes>) {
    forall s :: s in ss ==> |s| < U32
  }

  /** Every length the encoding stores in 32 bits fits there. */
  predicate FitsNode(n: Node) {
    |n.id| < U32 && |n.labels| < U32 && FitsStrings(n.labels) && FitsProps(n.props)
  }

  predicate FitsEdge(e: Edge) {
    |e.id| < U32 && |e.from| < U32 && |e.to| < U32 && |e.kind| < U32 && FitsProps(e.props)
  }

  predicate FitsOrder(order: PropOrder) {
    |order| < U32 && forall i :: 0 <= i < |order| ==> |order[i].0| < U32 && FitsValue(order[i].1) && !order[i].1.Other?
  }

  // ---------- reading back a whole field ----------

  lemma FixedRoundTrip(n: nat, w: nat, rest: Bytes)
    requires n < Pow256(w)
    ensures ReadFixed(BE(n, w) + rest, w) == Ok(n, rest)
  {
    BEInverse(n, w);
    var b := BE(n, w) + rest;
    assert b[..w] == BE(n, w) && b[w..] == rest;
  }

  lemma U32RoundTrip(n: u32, rest: Bytes)
    ensures ReadFixed(BE(n, 4) + rest, 4) == Ok(n, rest)
  {
    Pow256Values();
    FixedRoundTrip(n, 4, rest);
  }

  lemma U64RoundTrip(n: u64, rest: Bytes)
    ensures ReadU64(BE(n, 8) + rest) == Ok(n, rest)
  {
    Pow256Values();
    FixedRoundTrip(n, 8, rest);
  }

  lemma I64RoundTrip(i: i64, rest: Bytes)
    ensures ReadI64(BE(Bits(i), 8) + rest) == Ok(i, rest)
  {
    U64RoundTrip(Bits(i), rest);
  }

  lemma StringRoundTrip(s: Bytes, rest: Bytes)
    requires |s| < U32 && (rest != [] || s != [])
    ensures ReadString(EncString(s) + rest) == Ok(s, rest)
  {
    U32RoundTrip(|s|, s + rest);
    assert EncString(s) + rest == BE(|s|, 4) + (s + rest);
    assert (s + rest)[..|s|] == s && (s + rest)[|s|..] == rest;
  }

  lemma TagFirst(tag: byte, body: Bytes, rest: Bytes)
    ensures var b := ([tag] + body) + rest; b[0] == tag && b[1..] == body + rest
  {
  }

  lemma NumberRoundTrip(tag: byte, x: u64, rest: Bytes)
    requires tag == TYPE_INT64 || tag == TYPE_FLOAT64
    ensures ReadValue([tag] + BE(x, 8) + rest) == Ok(if tag == TYPE_INT64 then Int64(Signed(x)) else Float64(x), rest)
  {
    TagFirst(tag, BE(x, 8), rest);
    U64RoundTrip(x, rest);
  }

  lemma DataRoundTrip(tag: byte, s: Bytes, rest: Bytes)
    requires (tag == TYPE_STRING || tag == TYPE_BYTES) && |s| < U32 && rest != []
    ensures ReadValue([tag] + EncString(s) + rest) == Ok(if tag == TYPE_STRING then Text(s) else Blob(s), rest)
  {
    TagFirst(tag, EncString(s), rest);
    StringRoundTrip(s, rest);
  }

  lemma FlagRoundTrip(b: bool, rest: Bytes)
    ensures ReadValue(EncValue(Bool(b)) + rest) == Ok(Bool(b), rest)
  {
    assert (EncValue(Bool(b)) + rest)[2..] == rest;
  }

  lemma ValueRoundTrip(v: Value, rest: Bytes)
    requires !v.Other? && FitsValue(v) && rest != []
    ensures ReadValue(EncValue(v) + rest) == Ok(NormValue(v), rest)
  {
    match v
    case Text(s) => DataRoundTrip(TYPE_STRING, s, rest);
    case Int(i) => NumberRoundTrip(TYPE_INT64, Bits(i), rest);
    case Int64(i) => NumberRoundTrip(TYPE_INT64, Bits(i), rest);
    case Float64(x) => NumberRoundTrip(TYPE_FLOAT64, x, rest);
    case Bool(b) => FlagRoundTrip(b, rest);
    case Blob(d) => DataRoundTrip(TYPE_BYTES, d, rest);
  }

  lemma MoveHead<T>(a: seq<T>, b: seq<T>)
    requires b != []
    ensures (a + [b[0]]) + b[1..] == a + b
  {
  }

  lemma {:induction false} StringsRoundTrip(ss: seq<Bytes>, acc: seq<Bytes>, rest: Bytes)
    requires FitsStrings(ss) && rest != []
    ensures ReadStrings(EncStrings(ss) + rest, |ss|, acc) == Ok(acc + ss, rest)
  {
    hide EncString, ReadString;
    if ss == [] {
      assert EncStrings(ss) + rest == rest && acc + ss == acc;
    } else {
      var more := EncStrings(ss[1..]) + rest;
      Concat3(EncString(ss[0]), EncStrings(ss[1..]), rest);
      StringRoundTrip(ss[0], more);
      StringsRoundTrip(ss[1..], acc + [ss[0]], rest);
      MoveHead(acc, ss);
    }
  }

  /** What the property loop builds when it reads the bindings of `order` one after another. */
  function Build(acc: Properties, order: PropOrder): Properties
    decreases |order|
  {
    if order == [] then acc else Build(acc[order[0].0 := NormValue(order[0].1)], order[1..])
  }

  lemma EncPropsStep(order: PropOrder)
    requires order != []
    ensures EncProps(order) == EncString(order[0].0) + (EncValue(order[0].1) + EncProps(order[1..]))
  {
    Concat3(EncString(order[0].0), EncValue(order[0].1), EncProps(order[1..]));
  }

  lemma {:induction false} PropsRoundTrip(order: PropOrder, acc: Properties, rest: Bytes)
    requires FitsOrder(order) && rest != []
    ensures ReadProps(EncProps(order) + rest, |order|, acc) == Ok(Build(acc, order), rest)
  {
    if order == [] {
      assert EncProps(order) + rest == rest;
    } else {
      var (k, v) := order[0];
      var more := EncProps(order[1..]) + rest;
      EncPropsStep(order);
      Concat3(EncString(k), EncValue(v) + EncProps(order[1..]), rest);
      Concat3(EncValue(v), EncProps(order[1..]), rest);
      StringRoundTrip(k, EncValue(v) + more);
      ValueRoundTrip(v, more);
      PropsRoundTrip(order[1..], acc[k := NormValue(v)], rest);
    }
  }

  lemma {:induction false} BuildDefines(acc: Properties, order: PropOrder)
    requires DistinctKeys(order)
    ensures forall i :: 0 <= i < |order| ==>
              order[i].0 in Build(acc, order) && Build(acc, order)[order[i].0] == NormValue(order[i].1)
    ensures forall k :: k in acc && (forall i :: 0 <= i < |order| ==> order[i].0 != k) ==>
              k in Build(acc, order) && Build(acc, order)[k] == acc[k]
    ensures forall k :: k in Build(acc, order) ==> k in acc || exists i :: 0 <= i < |order| && order[i].0 == k
    decreases |order|
  {
    if order != [] {
      var acc' := acc[order[0].0 := NormValue(order[0].1)];
      BuildDefines(acc', order[1..]);
      var r := Build(acc', order[1..]);
      forall i | 0 <= i < |order|
        ensures order[i].0 in r && r[order[i].0] == NormValue(order[i].1)
      {
        if i > 0 {
          assert order[1..][i - 1] == order[i];
        } else {
          assert forall j :: 0 <= j < |order[1..]| ==> order[1..][j].0 == order[j + 1].0;
        }
      }
      forall k | k in r
        ensures k in acc || exists i :: 0 <= i < |order| && order[i].0 == k
      {
        if k !in acc && k != order[0].0 {
          var j :| 0 <= j < |order[1..]| && order[1..][j].0 == k;
          assert order[j + 1].0 == k;
        }
      }
    }
  }

  lemma BuildOfEnumeration(order: PropOrder, m: Properties)
    requires Enumerates(order, m)
    ensures Build(map[], order) == NormProps(m)
  {
    BuildDefines(map[], order);
    var r := Build(map[], order);
    forall k | k in m
      ensures k in r && r[k] == NormValue(m[k])
    {
      var i :| 0 <= i < |order| && order[i].0 == k;
    }
  }

  lemma OrderFits(order: PropOrder, m: Properties)
    requires Enumerates(order, m) && Supported(m) && FitsProps(m)
    ensures FitsOrder(order)
  {
    EnumerationLength(order, m);
  }

  lemma StampRoundTrip(version: u64, created: Time, updated: Time, rest: Bytes)
    ensures var b := EncStamp(version, created, updated) + rest;
            && ReadU64(b).Ok? && ReadU64(b).value == version
            && var b1 := ReadU64(b).rest;
            && ReadI64(b1).Ok? && ReadI64(b1).value == created.sec
            && var b2 := ReadI64(b1).rest;
            && ReadI64(b2) == Ok(updated.sec, rest)
  {
    var u := BE(Bits(updated.sec), 8) + rest;
    var c := BE(Bits(created.sec), 8) + u;
    assert EncStamp(version, created, updated) + rest == BE(version, 8) + c;
    U64RoundTrip(version, c);
    I64RoundTrip(created.sec, u);
    I64RoundTrip(updated.sec, rest);
  }

  lemma TailRoundTrip(order: PropOrder, m: Properties, version: u64, created: Time, updated: Time, rest: Bytes)
    requires Enumerates(order, m) && Supported(m) && FitsProps(m)
    ensures ReadTail(EncTail(order, version, created, updated) + rest)
         == Ok(Tail(NormProps(m), version, NormTime(created), NormTime(updated)), rest)
  {
    hide EncStamp, EncProps, ReadProps, Build, BE, Enumerates, FitsOrder, FitsProps, Supported, ReadFixed, ReadU64,
      ReadI64, NormProps;
    OrderFits(order, m);
    var stamp := EncStamp(version, created, updated) + rest;
    ConcatTail(BE(|order|, 4), EncProps(order), EncStamp(version, created, updated), rest);
    OrderLength(order, m);
    assert |EncStamp(version, created, updated)| == 24 by { StampLength(version, created, updated); }
    U32RoundTrip(|order|, EncProps(order) + stamp);
    PropsRoundTrip(order, map[], stamp);
    BuildOfEnumeration(order, m);
    StampRoundTrip(version, created, updated, rest);
  }

  lemma StampLength(version: u64, created: Time, updated: Time)
    ensures |EncStamp(version, created, updated)| == 24
  {
  }

  lemma OrderLength(order: PropOrder, m: Properties)
    requires Enumerates(order, m) && FitsProps(m)
    ensures |order| < U32
  {
    EnumerationLength(order, m);
  }

  lemma ConcatTail(a: Bytes, b: Bytes, c: Bytes, rest: Bytes)
    ensures (a + (b + c)) + rest == a + (b + (c + rest))
  {
  }

  lemma ConcatNode(a: Bytes, b: Bytes, c: Bytes, d: Bytes, rest: Bytes)
    ensures (a + (b + (c + d))) + rest == a + (b + (c + (d + rest)))
  {
    Concat3(a, b + (c + d), rest);
    Concat3(b, c + d, rest);
    Concat3(c, d, rest);
  }

  lemma NodeParses(n: Node, order: PropOrder, rest: Bytes)
    requires Enumerates(order, n.props) && Supported(n.props) && FitsNode(n)
    ensures ParseNode(EncNode(n, order) + rest) == Ok(NormNode(n), rest)
  {
    var tail := EncTail(order, n.version, n.created, n.updated) + rest;
    var labels := EncStrings(n.labels) + tail;
    var count := BE(|n.labels|, 4) + labels;
    ConcatNode(EncString(n.id), BE(|n.labels|, 4), EncStrings(n.labels),
               EncTail(order, n.version, n.created, n.updated), rest);
    StringRoundTrip(n.id, count);
    U32RoundTrip(|n.labels|, labels);
    StringsRoundTrip(n.labels, [], tail);
    assert [] + n.labels == n.labels;
    TailRoundTrip(order, n.props, n.version, n.created, n.updated, rest);
  }

  lemma EdgeParses(e: Edge, order: PropOrder, rest: Bytes)
    requires Enumerates(order, e.props) && Supported(e.props) && FitsEdge(e)
    ensures ParseEdge(EncEdge(e, order) + rest) == Ok(NormEdge(e), rest)
  {
    var tail := EncTail(order, e.version, e.created, e.updated) + rest;
    var kind := EncString(e.kind) + tail;
    var to := EncString(e.to) + kind;
    var from := EncString(e.from) + to;
    var t := EncTail(order, e.version, e.created, e.updated);
    ConcatNode(EncString(e.id), EncString(e.from), EncString(e.to), EncString(e.kind) + t, rest);
    Concat3(EncString(e.kind), t, rest);
    StringRoundTrip(e.id, from);
    StringRoundTrip(e.from, to);
    StringRoundTrip(e.to, kind);
    StringRoundTrip(e.kind, tail);
    TailRoundTrip(order, e.props, e.version, e.created, e.updated, rest);
  }

  // ---------- whatever is read fits ----------

  lemma StringFits(b: Bytes)
    ensures ReadString(b).Ok? ==> |ReadString(b).value| < U32
  {
    if |b| >= 4 {
      FromBEBound(b[..4]);
      Pow256Values();
    }
  }

  lemma ValueFits(b: Bytes)
    ensures ReadValue(b).Ok? ==>
              var v := ReadValue(b).value; FitsValue(v) && !v.Other? && NormValue(v) == v
  {
    if b != [] {
      StringFits(b[1..]);
    }
  }

  lemma {:induction false} StringsFit(b: Bytes, n: nat, acc: seq<Bytes>)
    requires FitsStrings(acc)
    ensures ReadStrings(b, n, acc).Ok? ==>
              FitsStrings(ReadStrings(b, n, acc).value) && |ReadStrings(b, n, acc).value| == |acc| + n
    decreases n
  {
    StringFits(b);
    if n > 0 && ReadString(b).Ok? {
      StringsFit(ReadString(b).rest, n - 1, acc + [ReadString(b).value]);
    }
  }

  /** A binding a property map can have once it has been read. */
  predicate ReadBackBinding(k: Bytes, v: Value) {
    |k| < U32 && FitsValue(v) && !v.Other? && NormValue(v) == v
  }

  ghost predicate ReadBack(m: Properties) {
    forall k :: k in m ==> ReadBackBinding(k, m[k])
  }

  lemma OneMoreBinding(m: Properties, k: Bytes, v: Value)
    requires ReadBack(m) && ReadBackBinding(k, v)
    ensures |m[k := v]| <= |m| + 1 && ReadBack(m[k := v])
  {
    assert m[k := v].Keys == m.Keys + {k};
    assert |m[k := v]| == |m[k := v].Keys| && |m| == |m.Keys|;
  }

  lemma ReadPropsStep(b: Bytes, n: nat, acc: Properties)
    requires n > 0 && ReadProps(b, n, acc).Ok?
    ensures ReadString(b).Ok? && ReadValue(ReadString(b).rest).Ok?
    ensures var k, v := ReadString(b).value, ReadValue(ReadString(b).rest);
            && ReadBackBinding(k, v.value)
            && ReadProps(b, n, acc) == ReadProps(v.rest, n - 1, acc[k := v.value])
  {
    StringFits(b);
    ValueFits(ReadString(b).rest);
  }

  lemma {:induction false} PropsFit(b: Bytes, n: nat, acc: Properties, r: Parse<Properties>)
    requires ReadBack(acc) && r == ReadProps(b, n, acc) && r.Ok?
    ensures |r.value| <= |acc| + n && ReadBack(r.value)
    decreases n
  {
    if n > 0 {
      ReadPropsStep(b, n, acc);
      var k, v := ReadString(b).value, ReadValue(ReadString(b).rest);
      OneMoreBinding(acc, k, v.value);
      PropsFit(v.rest, n - 1, acc[k := v.value], r);
    }
  }

  ghost predicate NormalProps(m: Properties) {
    Supported(m) && FitsProps(m) && NormProps(m) == m
  }

  lemma TailFits(b: Bytes)
    ensures ReadTail(b).Ok? ==> NormalProps(ReadTail(b).value.props)
  {
    if ReadTail(b).Ok? {
      FromBEBound(b[..4]);
      Pow256Values();
      var n := FromBE(b[..4]);
      var r := ReadProps(b[4..], n, map[]);
      PropsFit(b[4..], n, map[], r);
      assert forall k :: k in r.value ==> ReadBackBinding(k, r.value[k]);
    }
  }

  /** A decoded node is supported, fits, and is unchanged by another round through the serializer. */
  lemma DecodedNodeFits(b: Bytes)
    ensures DecodeNode(b).Some? ==>
              var n := DecodeNode(b).value; FitsNode(n) && Supported(n.props) && NormNode(n) == n
  {
    if DecodeNode(b).Some? {
      StringFits(b);
      var b1 := ReadString(b).rest;
      FromBEBound(b1[..4]);
      Pow256Values();
      StringsFit(b1[4..], FromBE(b1[..4]), []);
      TailFits(ReadStrings(b1[4..], FromBE(b1[..4]), []).rest);
    }
  }

  lemma DecodedEdgeFits(b: Bytes)
    ensures DecodeEdge(b).Some? ==>
              var e := DecodeEdge(b).value; FitsEdge(e) && Supported(e.props) && NormEdge(e) == e
  {
    if DecodeEdge(b).Some? {
      StringFits(b);
      var b1 := ReadString(b).rest;
      StringFits(b1);
      var b2 := ReadString(b1).rest;
      StringFits(b2);
      var b3 := ReadString(b2).rest;
      StringFits(b3);
      TailFits(ReadString(b3).rest);
    }
  }

  // ---------- the round trip, exactly ----------

  lemma FitsIsNormal(n: Node)
    ensures FitsNode(NormNode(n)) <==> FitsNode(n)
  {
    NormFits(n.props);
  }

  lemma EdgeFitsIsNormal(e: Edge)
    ensures FitsEdge(NormEdge(e)) <==> FitsEdge(e)
  {
    NormFits(e.props);
  }

  lemma NormFits(m: Properties)
    ensures FitsProps(NormProps(m)) <==> FitsProps(m)
    ensures Supported(NormProps(m)) <==> Supported(m)
  {
    assert NormProps(m).Keys == m.Keys;
    assert |NormProps(m)| == |NormProps(m).Keys| == |m.Keys| == |m|;
    assert forall k :: k in m ==>
             NormProps(m)[k] == NormValue(m[k]) && (FitsValue(NormProps(m)[k]) <==> FitsValue(m[k]));
  }

  /** Main result: whichever order the property map is enumerated in, reading a serialized node
      gives it back up to `NormNode` exactly when every stored length fits in 32 bits. */
  lemma NodeRoundTrip(b: Bytes, n: Node)
    requires EncodesNode(b, n)
    ensures DecodeNode(b) == Some(NormNode(n)) <==> FitsNode(n)
  {
    if FitsNode(n) {
      var order :| Enumerates(order, n.props) && b == EncNode(n, order);
      NodeParses(n, order, []);
      assert b + [] == b;
    }
    DecodedNodeFits(b);
    FitsIsNormal(n);
  }

  lemma EdgeRoundTrip(b: Bytes, e: Edge)
    requires EncodesEdge(b, e)
    ensures DecodeEdge(b) == Some(NormEdge(e)) <==> FitsEdge(e)
  {
    if FitsEdge(e) {
      var order :| Enumerates(order, e.props) && b == EncEdge(e, order);
      EdgeParses(e, order, []);
      assert b + [] == b;
    }
    DecodedEdgeFits(b);
    EdgeFitsIsNormal(e);
  }

  // ---------- every strict prefix is rejected ----------

  /** Reading an encoding that was cut short either fails or uses up all that is left. */
  predicate Exhausts<T>(r: Parse<T>) {
    r.Fail? || r.rest == []
  }

  lemma FixedCut(n: nat, w: nat, p: Bytes)
    requires n < Pow256(w) && p <= BE(n, w)
    ensures if |p| < w then ReadFixed(p, w).Fail? else ReadFixed(p, w) == Ok(n, [])
  {
    if |p| == w {
      FixedRoundTrip(n, w, []);
      assert p == BE(n, w) + [];
    }
  }

  lemma StringCut(s: Bytes, p: Bytes)
    requires |s| < U32 && p <= EncString(s)
    ensures Exhausts(ReadString(p))
  {
    if |p| >= 4 {
      assert p[..4] == EncString(s)[..4] == BE(|s|, 4);
      BE4(|s|);
    }
  }

  lemma ValueCut(v: Value, p: Bytes)
    requires FitsValue(v) && p <= EncValue(v)
    ensures Exhausts(ReadValue(p))
  {
    Pow256Values();
    if p != [] {
      var q := p[1..];
      assert q <= EncValue(v)[1..];
      match v
      case Text(s) => assert EncValue(v)[1..] == EncString(s); StringCut(s, q);
      case Blob(d) => assert EncValue(v)[1..] == EncString(d); StringCut(d, q);
      case Int(i) => assert EncValue(v)[1..] == BE(Bits(i), 8); FixedCut(Bits(i), 8, q);
      case Int64(i) => assert EncValue(v)[1..] == BE(Bits(i), 8); FixedCut(Bits(i), 8, q);
      case Float64(x) => assert EncValue(v)[1..] == BE(x, 8); FixedCut(x, 8, q);
      case Bool(_) =>
    }
  }

  /** A prefix of `a + b` ends inside `a` or runs into `b`. */
  lemma PrefixSplit(p: Bytes, a: Bytes, b: Bytes)
    requires p <= a + b
    ensures |p| <= |a| ==> p <= a
    ensures |p| > |a| ==> p == a + p[|a|..] && p[|a|..] <= b && p[|a|..] != []
  {
    if |p| > |a| {
      assert p[..|a|] == (a + b)[..|a|] == a;
      assert forall i :: |a| <= i < |p| ==> p[i] == (a + b)[i] == b[i - |a|];
    }
  }

  lemma {:induction false} StringsCut(ss: seq<Bytes>, acc: seq<Bytes>, p: Bytes)
    requires FitsStrings(ss) && p <= EncStrings(ss)
    ensures Exhausts(ReadStrings(p, |ss|, acc))
  {
    if ss != [] {
      var more := EncStrings(ss[1..]);
      PrefixSplit(p, EncString(ss[0]), more);
      if |p| <= |EncString(ss[0])| {
        StringCut(ss[0], p);
        if ReadString(p).Ok? {
          assert ReadStrings(p, |ss|, acc) == ReadStrings([], |ss| - 1, acc + [ReadString(p).value]);
        }
      } else {
        var q := p[|EncString(ss[0])|..];
        StringRoundTrip(ss[0], q);
        StringsCut(ss[1..], acc + [ss[0]], q);
      }
    }
  }

  /** One binding read off a cut encoding: it and something of what follows, or all there is. */
  lemma BindingCut(k: Bytes, v: Value, more: Bytes, p: Bytes, n: nat, acc: Properties) returns (rest: Option<Bytes>)
    requires |k| < U32 && FitsValue(v) && !v.Other? && p <= EncString(k) + (EncValue(v) + more)
    ensures rest.None? ==> Exhausts(ReadProps(p, n + 1, acc))
    ensures rest.Some? ==>
              rest.value <= more && ReadProps(p, n + 1, acc) == ReadProps(rest.value, n, acc[k := NormValue(v)])
  {
    rest := None;
    PrefixSplit(p, EncString(k), EncValue(v) + more);
    if |p| <= |EncString(k)| {
      StringCut(k, p);
    } else {
      var q := p[|EncString(k)|..];
      StringRoundTrip(k, q);
      PrefixSplit(q, EncValue(v), more);
      if |q| <= |EncValue(v)| {
        ValueCut(v, q);
        if ReadValue(q).Ok? {
          assert ReadProps(p, n + 1, acc) == ReadProps([], n, acc[k := ReadValue(q).value]);
        }
      } else {
        rest := Some(q[|EncValue(v)|..]);
        ValueRoundTrip(v, rest.value);
      }
    }
  }

  lemma {:induction false} PropsCut(order: PropOrder, acc: Properties, p: Bytes, r: Parse<Properties>)
    requires FitsOrder(order) && p <= EncProps(order) && r == ReadProps(p, |order|, acc)
    ensures Exhausts(r)
    decreases |order|
  {
    hide EncString, EncValue, ReadString, ReadValue;
    if order != [] {
      var k, v, others := order[0].0, order[0].1, order[1..];
      EncPropsStep(order);
      assert FitsOrder(others);
      var q := BindingCut(k, v, EncProps(others), p, |others|, acc);
      if q.Some? {
        PropsCut(others, acc[k := NormValue(v)], q.value, r);
      }
    }
  }

  lemma TailCut(order: PropOrder, version: u64, created: Time, updated: Time, p: Bytes)
    requires FitsOrder(order)
    requires p <= EncTail(order, version, created, updated) && p != EncTail(order, version, created, updated)
    ensures ReadTail(p).Fail?
  {
    var stamp := EncStamp(version, created, updated);
    PrefixSplit(p, BE(|order|, 4), EncProps(order) + stamp);
    if |p| > 4 {
      var q := p[4..];
      U32RoundTrip(|order|, q);
      PrefixSplit(q, EncProps(order), stamp);
      if |q| <= |EncProps(order)| {
        PropsCut(order, map[], q, ReadProps(q, |order|, map[]));
      } else {
        var r := q[|EncProps(order)|..];
        PropsRoundTrip(order, map[], r);
        assert |r| < 24;
      }
    } else if |p| == 4 {
      U32RoundTrip(|order|, []);
      assert p == BE(|order|, 4) + [];
      PropsCut(order, map[], [], ReadProps([], |order|, map[]));
    }
  }

  /** Main result: although a short read is silently accepted inside a string, no strict prefix
      of a serialized node is accepted. */
  lemma NodePrefixRejected(b: Bytes, n: Node, cut: nat)
    requires EncodesNode(b, n) && FitsNode(n) && cut < |b|
    ensures DecodeNode(b[..cut]) == None
  {
    hide EncString, EncStrings, EncTail, ReadString, ReadStrings, Enumerates, FitsOrder;
    var order :| Enumerates(order, n.props) && b == EncNode(n, order);
    OrderFits(order, n.props);
    var tail := EncTail(order, n.version, n.created, n.updated);
    var p := b[..cut];
    PrefixSplit(p, EncString(n.id), BE(|n.labels|, 4) + (EncStrings(n.labels) + tail));
    if |p| <= |EncString(n.id)| {
      StringCut(n.id, p);
    } else {
      var q := p[|EncString(n.id)|..];
      StringRoundTrip(n.id, q);
      PrefixSplit(q, BE(|n.labels|, 4), EncStrings(n.labels) + tail);
      if |q| >= 4 {
        var r := q[4..];
        assert q == BE(|n.labels|, 4) + r;
        U32RoundTrip(|n.labels|, r);
        assert r <= EncStrings(n.labels) + tail;
        PrefixSplit(r, EncStrings(n.labels), tail);
        if |r| <= |EncStrings(n.labels)| {
          StringsCut(n.labels, [], r);
          assert ReadTail([]).Fail?;
        } else {
          var t := r[|EncStrings(n.labels)|..];
          StringsRoundTrip(n.labels, [], t);
          TailCut(order, n.version, n.created, n.updated, t);
        }
      }
    }
  }

  lemma EdgePrefixRejected(b: Bytes, e: Edge, cut: nat)
    requires EncodesEdge(b, e) && FitsEdge(e) && cut < |b|
    ensures DecodeEdge(b[..cut]) == None
  {
    var order :| Enumerates(order, e.props) && b == EncEdge(e, order);
    OrderFits(order, e.props);
    var tail := EncTail(order, e.version, e.created, e.updated);
    var kind := EncString(e.kind) + tail;
    var to := EncString(e.to) + kind;
    var from := EncString(e.from) + to;
    var p := b[..cut];
    var q := NextString(e.id, from, p);
    if q.Some? {
      var r := NextString(e.from, to, q.value);
      if r.Some? {
        var s := NextString(e.to, kind, r.value);
        if s.Some? {
          var t := NextString(e.kind, tail, s.value);
          if t.Some? {
            TailCut(order, e.version, e.created, e.updated, t.value);
          }
        }
      }
    }
  }

  /** One string read off a strict prefix of `EncString(s) + more`: a strict prefix of `more`
      remains, or nothing does. */
  lemma NextString(s: Bytes, more: Bytes, p: Bytes) returns (q: Option<Bytes>)
    requires |s| < U32 && p <= EncString(s) + more && p != EncString(s) + more
    ensures q.None? ==> Exhausts(ReadString(p))
    ensures q.Some? ==> ReadString(p) == Ok(s, q.value) && q.value <= more && q.value != more
  {
    PrefixSplit(p, EncString(s), more);
    if |p| <= |EncString(s)| {
      StringCut(s, p);
      q := None;
    } else {
      q := Some(p[|EncString(s)|..]);
      StringRoundTrip(s, q.value);
    }
  }

  // ---------- the length does not depend on the enumeration ----------

  lemma {:induction false} EncPropsWithout(order: PropOrder, j: nat)
    requires j < |order|
    ensures |EncProps(order)|
         == |EncString(order[j].0)| + |EncValue(order[j].1)| + |EncProps(order[..j] + order[j + 1..])|
  {
    hide EncString, EncValue;
    if j == 0 {
      assert order[..0] + order[1..] == order[1..];
    } else {
      EncPropsWithout(order[1..], j - 1);
      TailWithout(order, j);
    }
  }

  lemma TailWithout<T>(s: seq<T>, j: nat)
    requires 0 < j < |s|
    ensures var less := s[..j] + s[j + 1..];
            less[0] == s[0] && less[1..] == s[1..][..j - 1] + s[1..][j..]
  {
  }

  lemma {:induction false} SameLength(a: PropOrder, b: PropOrder, m: Properties)
    requires Enumerates(a, m) && Enumerates(b, m)
    ensures |EncProps(a)| == |EncProps(b)|
    decreases |a|
  {
    hide EncString, EncValue, Enumerates;
    EnumerationLength(a, m);
    EnumerationLength(b, m);
    if a != [] {
      var j := SameBinding(a, b, m);
      EncPropsWithout(b, j);
      EnumerationWithout(a, 0, m);
      EnumerationWithout(b, j, m);
      assert a[..0] + a[1..] == a[1..];
      SameLength(a[1..], b[..j] + b[j + 1..], m - {a[0].0});
    }
  }

  lemma SameBinding(a: PropOrder, b: PropOrder, m: Properties) returns (j: nat)
    requires Enumerates(a, m) && Enumerates(b, m) && a != []
    ensures j < |b| && b[j] == a[0]
  {
    assert a[0].0 in m;
    j :| 0 <= j < |b| && b[j].0 == a[0].0;
  }

  lemma EnumerationWithout<V>(order: seq<(Bytes, V)>, j: nat, m: map<Bytes, V>)
    requires Enumerates(order, m) && j < |order|
    ensures Enumerates(order[..j] + order[j + 1..], m - {order[j].0})
  {
    var less, k := order[..j] + order[j + 1..], order[j].0;
    assert forall i :: 0 <= i < |less| ==> less[i] == order[if i < j then i else i + 1];
    forall x | x in m - {k}
      ensures exists i :: 0 <= i < |less| && less[i].0 == x
    {
      var i :| 0 <= i < |order| && order[i].0 == x;
      assert less[if i < j then i else i - 1].0 == x;
    }
  }

  /** Some enumeration; every map has one. */
  ghost function AnyOrder<V>(m: map<Bytes, V>): (order: seq<(Bytes, V)>)
    ensures Enumerates(order, m)
  {
    if m == map[] then []
    else
      var k :| k in m;
      var others := AnyOrder(m - {k});
      EnumerationCons(k, m, others);
      [(k, m[k])] + others
  }

  lemma EnumerationCons<V>(k: Bytes, m: map<Bytes, V>, others: seq<(Bytes, V)>)
    requires k in m && Enumerates(others, m - {k})
    ensures Enumerates([(k, m[k])] + others, m)
  {
    var order := [(k, m[k])] + others;
    assert forall i :: 0 < i < |order| ==> order[i] == others[i - 1];
    forall x | x in m
      ensures exists i :: 0 <= i < |order| && order[i].0 == x
    {
      if x == k {
        assert order[0].0 == x;
      } else {
        assert x in m - {k};
        var i :| 0 <= i < |others| && others[i].0 == x;
        assert order[i + 1].0 == x;
      }
    }
  }

  ghost function NodeSize(n: Node): nat {
    |EncNode(n, AnyOrder(n.props))|
  }

  ghost function EdgeSize(e: Edge): nat {
    |EncEdge(e, AnyOrder(e.props))|
  }

  lemma NodeLength(b: Bytes, n: Node)
    requires EncodesNode(b, n)
    ensures |b| == NodeSize(n) && b != []
  {
    var order :| Enumerates(order, n.props) && b == EncNode(n, order);
    SameLength(order, AnyOrder(n.props), n.props);
    EnumerationLength(order, n.props);
    EnumerationLength(AnyOrder(n.props), n.props);
  }

  lemma EdgeLength(b: Bytes, e: Edge)
    requires EncodesEdge(b, e)
    ensures |b| == EdgeSize(e) && b != []
  {
    var order :| Enumerates(order, e.props) && b == EncEdge(e, order);
    SameLength(order, AnyOrder(e.props), e.props);
    EnumerationLength(order, e.props);
    EnumerationLength(AnyOrder(e.props), e.props);
  }

  lemma {:induction false} EncStringsLength(ss: seq<Bytes>)
    ensures |EncStrings(ss)| >= 4 * |ss|
    ensures forall i :: 0 <= i < |ss| ==> |ss[i]| <= |EncStrings(ss)|
  {
    if ss != [] {
      EncStringsLength(ss[1..]);
      assert forall i :: 0 < i < |ss| ==> ss[i] == ss[1..][i - 1];
    }
  }

  lemma {:induction false} EncPropsLength(order: PropOrder)
    ensures |EncProps(order)| >= 4 * |order|
    ensures forall i :: 0 <= i < |order| ==>
              |order[i].0| <= |EncProps(order)| && (|EncProps(order)| < U32 ==> FitsValue(order[i].1))
  {
    if order != [] {
      EncPropsLength(order[1..]);
      assert forall i :: 0 < i < |order| ==> order[i] == order[1..][i - 1];
    }
  }

  lemma ShortPropsFit(order: PropOrder, m: Properties)
    requires Enumerates(order, m) && |EncProps(order)| < U32
    ensures FitsProps(m)
  {
    EncPropsLength(order);
    EnumerationLength(order, m);
    forall k | k in m
      ensures |k| < U32 && FitsValue(m[k])
    {
      var i :| 0 <= i < |order| && order[i].0 == k;
    }
  }

  /** An encoding shorter than 4 GiB cannot hold a length that does not fit. */
  lemma ShortNodeFits(b: Bytes, n: Node)
    requires EncodesNode(b, n) && |b| < U32
    ensures FitsNode(n)
  {
    var order :| Enumerates(order, n.props) && b == EncNode(n, order);
    EncStringsLength(n.labels);
    ShortPropsFit(order, n.props);
  }

  lemma ShortEdgeFits(b: Bytes, e: Edge)
    requires EncodesEdge(b, e) && |b| < U32
    ensures FitsEdge(e)
  {
    var order :| Enumerates(order, e.props) && b == EncEdge(e, order);
    ShortPropsFit(order, e.props);
  }

  lemma {:induction false} NormLength(order: PropOrder)
    ensures |EncProps(NormOrder(order))| == |EncProps(order)|
  {
    if order != [] {
      NormLength(order[1..]);
      assert NormOrder(order)[1..] == NormOrder(order[1..]);
    }
  }

  function NormOrder(order: PropOrder): (r: PropOrder)
    ensures |r| == |order|
    ensures forall i :: 0 <= i < |order| ==> r[i] == (order[i].0, NormValue(order[i].1))
  {
    if order == [] then [] else [(order[0].0, NormValue(order[0].1))] + NormOrder(order[1..])
  }

  lemma NormEnumerates(order: PropOrder, m: Properties)
    requires Enumerates(order, m)
    ensures Enumerates(NormOrder(order), NormProps(m))
  {
    forall k | k in NormProps(m)
      ensures exists i :: 0 <= i < |NormOrder(order)| && NormOrder(order)[i].0 == k
    {
      var i :| 0 <= i < |order| && order[i].0 == k;
      assert NormOrder(order)[i].0 == k;
    }
  }

  lemma NormNodeSize(n: Node)
    ensures NodeSize(NormNode(n)) == NodeSize(n)
  {
    var order := AnyOrder(n.props);
    var again := AnyOrder(NormProps(n.props));
    NormLength(order);
    NormEnumerates(order, n.props);
    SameLength(again, NormOrder(order), NormProps(n.props));
    EnumerationLength(again, NormProps(n.props));
    EnumerationLength(NormOrder(order), NormProps(n.props));
  }

  lemma NormEdgeSize(e: Edge)
    ensures EdgeSize(NormEdge(e)) == EdgeSize(e)
  {
    var order := AnyOrder(e.props);
    var again := AnyOrder(NormProps(e.props));
    NormLength(order);
    NormEnumerates(order, e.props);
    SameLength(again, NormOrder(order), NormProps(e.props));
    EnumerationLength(again, NormProps(e.props));
    EnumerationLength(NormOrder(order), NormProps(e.props));
  }

  /** Main result: what is read back, written again in any order, has the same length and reads
      back as the same node. */
  lemma NodeReencodes(b: Bytes, n: Node, again: Bytes)
    requires EncodesNode(b, n) && FitsNode(n) && EncodesNode(again, NormNode(n))
    ensures DecodeNode(again) == DecodeNode(b) == Some(NormNode(n)) && |again| == |b|
  {
    NodeRoundTrip(b, n);
    FitsIsNormal(n);
    NodeRoundTrip(again, NormNode(n));
    NormIdempotent(n.props);
    NodeLength(b, n);
    NodeLength(again, NormNode(n));
    NormNodeSize(n);
  }

  lemma EdgeReencodes(b: Bytes, e: Edge, again: Bytes)
    requires EncodesEdge(b, e) && FitsEdge(e) && EncodesEdge(again, NormEdge(e))
    ensures DecodeEdge(again) == DecodeEdge(b) == Some(NormEdge(e)) && |again| == |b|
  {
    EdgeRoundTrip(b, e);
    EdgeFitsIsNormal(e);
    EdgeRoundTrip(again, NormEdge(e));
    NormIdempotent(e.props);
    EdgeLength(b, e);
    EdgeLength(again, NormEdge(e));
    NormEdgeSize(e);
  }

  lemma NormIdempotent(m: Properties)
    ensures NormProps(NormProps(m)) == NormProps(m)
  {
    assert NormProps(NormProps(m)).Keys == NormProps(m).Keys;
    assert forall k :: k in m ==> NormValue(NormValue(m[k])) == NormValue(m[k]);
  }
}
