/** The serialized form byte by byte: where each field of a node or an edge stands, and what each reading
    function makes of any bytes, short or damaged ones included. */
module SerializationBytes {
  import opened Bytes
  import opened Graph
  import opened Serialization

  // ---------- the layout ----------

  /** A length of four bytes, high byte first, and then the string. */
  ghost predicate StringAt(b: Bytes, at: nat, s: Bytes) {
    HighFirst(b, at, 4, |s|) && at + 4 + |s| <= |b| && b[at + 4..at + 4 + |s|] == s
  }

  /** A tag byte and then the value. */
  ghost predicate ValueAt(b: Bytes, at: nat, v: Value) {
    && at + ValueSize(v) <= |b|
    && match v
       case Text(s) => b[at] == 1 && StringAt(b, at + 1, s)
       case Int(i) => b[at] == 2 && HighFirst(b, at + 1, 8, Bits(i))
       case Int64(i) => b[at] == 2 && HighFirst(b, at + 1, 8, Bits(i))
       case Float64(bits) => b[at] == 3 && HighFirst(b, at + 1, 8, bits)
       case Bool(x) => b[at] == 4 && b[at + 1] == (if x then 1 else 0)
       case Blob(d) => b[at] == 5 && StringAt(b, at + 1, d)
       case Other => true
  }

  function ValueSize(v: Value): nat {
    match v
    case Text(s) => 5 + |s|
    case Bool(_) => 2
    case Blob(d) => 5 + |d|
    case Other => 0
    case _ => 9
  }

  function StringStart(ss: seq<Bytes>, i: nat): nat
    requires i <= |ss|
  {
    if i == 0 then 0 else StringStart(ss, i - 1) + 4 + |ss[i - 1]|
  }

  function PropStart(order: PropOrder, i: nat): nat
    requires i <= |order|
  {
    if i == 0 then 0 else PropStart(order, i - 1) + 4 + |order[i - 1].0| + ValueSize(order[i - 1].1)
  }

  lemma StringStands(b: Bytes, at: nat, s: Bytes)
    requires Holds(b, at, EncString(s)) && at + 4 + |s| <= |b|
    ensures StringAt(b, at, s)
  {
    hide BE, HighFirst, Holds;
    HoldsConcat(b, at, BE(|s|, 4), s);
    BEIsHighFirst(b, at, 4, |s|);
    HoldsSlice(b, at + 4, s);
  }

  lemma TagStands(b: Bytes, at: nat, tag: byte, rest: Bytes)
    requires Holds(b, at, [tag] + rest) && at < |b|
    ensures b[at] == tag && Holds(b, at + 1, rest)
  {
    HoldsConcat(b, at, [tag], rest);
    assert b[at + 0] == [tag][0];
  }

  lemma ValueStands(b: Bytes, at: nat, v: Value)
    requires Holds(b, at, EncValue(v)) && at + ValueSize(v) <= |b|
    ensures ValueAt(b, at, v) && |EncValue(v)| == ValueSize(v)
  {
    hide BE, HighFirst, Holds, EncString, Bits, StringAt;
    match v
    case Text(s) =>
      TagStands(b, at, TYPE_STRING, EncString(s));
      StringStands(b, at + 1, s);
      StringSize(s);
    case Int(i) =>
      TagStands(b, at, TYPE_INT64, BE(Bits(i), 8));
      BEIsHighFirst(b, at + 1, 8, Bits(i));
    case Int64(i) =>
      TagStands(b, at, TYPE_INT64, BE(Bits(i), 8));
      BEIsHighFirst(b, at + 1, 8, Bits(i));
    case Float64(bits) =>
      TagStands(b, at, TYPE_FLOAT64, BE(bits, 8));
      BEIsHighFirst(b, at + 1, 8, bits);
    case Bool(x) => FlagStands(b, at, x);
    case Blob(d) =>
      TagStands(b, at, TYPE_BYTES, EncString(d));
      StringStands(b, at + 1, d);
      StringSize(d);
    case Other =>
  }

  lemma FlagStands(b: Bytes, at: nat, x: bool)
    requires Holds(b, at, EncValue(Bool(x))) && at + 2 <= |b|
    ensures b[at] == 4 && b[at + 1] == if x then 1 else 0
  {
    assert b[at + 0] == EncValue(Bool(x))[0] && b[at + 1] == EncValue(Bool(x))[1];
  }

  lemma StringSize(s: Bytes)
    ensures |EncString(s)| == 4 + |s|
  {
  }

  lemma EncValueSize(v: Value)
    ensures |EncValue(v)| == ValueSize(v)
  {
  }

  lemma {:induction false} StringsStand(b: Bytes, at: nat, ss: seq<Bytes>, i: nat)
    requires i < |ss| && Holds(b, at, EncStrings(ss)) && at + |EncStrings(ss)| <= |b|
    ensures StringAt(b, at + StringStart(ss, i), ss[i])
    decreases |ss|
  {
    hide EncString, Holds, StringAt;
    HoldsConcat(b, at, EncString(ss[0]), EncStrings(ss[1..]));
    StringSize(ss[0]);
    if i == 0 {
      StringStands(b, at, ss[0]);
    } else {
      StringsStand(b, at + 4 + |ss[0]|, ss[1..], i - 1);
      StartAfterFirst(ss, i);
    }
  }

  lemma {:induction false} StartAfterFirst(ss: seq<Bytes>, i: nat)
    requires 0 < i <= |ss|
    ensures StringStart(ss, i) == 4 + |ss[0]| + StringStart(ss[1..], i - 1)
  {
    if i > 1 {
      StartAfterFirst(ss, i - 1);
    } else {
      assert StringStart(ss, 0) == 0;
    }
  }

  lemma {:induction false} StringsSize(ss: seq<Bytes>)
    ensures |EncStrings(ss)| == StringStart(ss, |ss|)
  {
    hide EncString;
    if ss != [] {
      StringsSize(ss[1..]);
      StringSize(ss[0]);
      StartAfterFirst(ss, |ss|);
    }
  }

  ghost predicate PropAt(b: Bytes, at: nat, p: (Bytes, Value)) {
    StringAt(b, at, p.0) && ValueAt(b, at + 4 + |p.0|, p.1)
  }

  lemma {:induction false} PropsStand(b: Bytes, at: nat, order: PropOrder, i: nat)
    requires i < |order| && Holds(b, at, EncProps(order)) && at + |EncProps(order)| <= |b|
    ensures PropAt(b, at + PropStart(order, i), order[i])
    decreases |order|
  {
    hide EncString, EncValue, Holds, StringAt, ValueAt, ValueSize;
    var (k, v) := order[0];
    EncPropsStep(order);
    HoldsConcat(b, at, EncString(k), EncValue(v) + EncProps(order[1..]));
    StringSize(k);
    HoldsConcat(b, at + 4 + |k|, EncValue(v), EncProps(order[1..]));
    EncValueSize(v);
    if i == 0 {
      StringStands(b, at, k);
      ValueStands(b, at + 4 + |k|, v);
    } else {
      PropsStand(b, at + 4 + |k| + ValueSize(v), order[1..], i - 1);
      PropAfterFirst(order, i);
    }
  }

  lemma {:induction false} PropAfterFirst(order: PropOrder, i: nat)
    requires 0 < i <= |order|
    ensures PropStart(order, i) == 4 + |order[0].0| + ValueSize(order[0].1) + PropStart(order[1..], i - 1)
  {
    hide ValueSize;
    if i > 1 {
      PropAfterFirst(order, i - 1);
    } else {
      assert PropStart(order, 0) == 0;
    }
  }

  lemma {:induction false} PropsSize(order: PropOrder)
    ensures |EncProps(order)| == PropStart(order, |order|)
    decreases |order|
  {
    hide EncString, EncValue, ValueSize;
    if order != [] {
      PropsSize(order[1..]);
      StringSize(order[0].0);
      EncValueSize(order[0].1);
      PropAfterFirst(order, |order|);
    }
  }

  /** The properties, each where the one before it ends, and then version and times in whole seconds. */
  ghost predicate TailAt(b: Bytes, at: nat, order: PropOrder, version: u64, created: Time, updated: Time) {
    var v := at + 4 + PropStart(order, |order|);
    && HighFirst(b, at, 4, |order|)
    && (forall i :: 0 <= i < |order| ==> PropAt(b, at + 4 + PropStart(order, i), order[i]))
    && HighFirst(b, v, 8, version) && HighFirst(b, v + 8, 8, Bits(created.sec))
    && HighFirst(b, v + 16, 8, Bits(updated.sec)) && |b| == v + 24
  }

  lemma TailStands(b: Bytes, at: nat, order: PropOrder, version: u64, created: Time, updated: Time)
    requires Holds(b, at, EncTail(order, version, created, updated))
    requires |b| == at + |EncTail(order, version, created, updated)|
    ensures TailAt(b, at, order, version, created, updated)
  {
    hide BE, HighFirst, Holds, EncProps, PropAt, Bits, PropStart;
    var stamp := EncStamp(version, created, updated);
    var v := at + 4 + |EncProps(order)|;
    PropsSize(order);
    HoldsConcat(b, at, BE(|order|, 4), EncProps(order) + stamp);
    HoldsConcat(b, at + 4, EncProps(order), stamp);
    HoldsConcat(b, v, BE(version, 8), BE(Bits(created.sec), 8) + BE(Bits(updated.sec), 8));
    HoldsConcat(b, v + 8, BE(Bits(created.sec), 8), BE(Bits(updated.sec), 8));
    BEIsHighFirst(b, at, 4, |order|);
    BEIsHighFirst(b, v, 8, version);
    BEIsHighFirst(b, v + 8, 8, Bits(created.sec));
    BEIsHighFirst(b, v + 16, 8, Bits(updated.sec));
    AllPropsStand(b, at + 4, order);
  }

  lemma AllPropsStand(b: Bytes, at: nat, order: PropOrder)
    requires Holds(b, at, EncProps(order)) && at + |EncProps(order)| <= |b|
    ensures forall i :: 0 <= i < |order| ==> PropAt(b, at + PropStart(order, i), order[i])
  {
    hide PropAt, Holds, EncProps, PropStart;
    forall i | 0 <= i < |order|
      ensures PropAt(b, at + PropStart(order, i), order[i])
    {
      PropsStand(b, at, order, i);
    }
  }

  lemma HoldsItself(b: Bytes)
    ensures Holds(b, 0, b)
  {
  }

  /** Where everything stands in a serialized node. */
  lemma NodeLayout(n: Node, order: PropOrder)
    ensures var b, l := EncNode(n, order), 8 + |n.id|;
            && StringAt(b, 0, n.id) && HighFirst(b, 4 + |n.id|, 4, |n.labels|)
            && (forall i :: 0 <= i < |n.labels| ==> StringAt(b, l + StringStart(n.labels, i), n.labels[i]))
            && TailAt(b, l + StringStart(n.labels, |n.labels|), order, n.version, n.created, n.updated)
  {
    hide BE, HighFirst, Holds, EncString, EncStrings, EncTail, StringAt, TailAt, StringStart;
    var b, l := EncNode(n, order), 8 + |n.id|;
    var tail := EncTail(order, n.version, n.created, n.updated);
    HoldsItself(b);
    StringSize(n.id);
    StringsSize(n.labels);
    HoldsConcat(b, 0, EncString(n.id), BE(|n.labels|, 4) + (EncStrings(n.labels) + tail));
    HoldsConcat(b, 4 + |n.id|, BE(|n.labels|, 4), EncStrings(n.labels) + tail);
    HoldsConcat(b, l, EncStrings(n.labels), tail);
    StringStands(b, 0, n.id);
    BEIsHighFirst(b, 4 + |n.id|, 4, |n.labels|);
    TailStands(b, l + StringStart(n.labels, |n.labels|), order, n.version, n.created, n.updated);
    AllStringsStand(b, l, n.labels);
  }

  lemma AllStringsStand(b: Bytes, at: nat, ss: seq<Bytes>)
    requires Holds(b, at, EncStrings(ss)) && at + |EncStrings(ss)| <= |b|
    ensures forall i :: 0 <= i < |ss| ==> StringAt(b, at + StringStart(ss, i), ss[i])
  {
    hide StringAt, Holds, EncStrings, StringStart;
    forall i | 0 <= i < |ss|
      ensures StringAt(b, at + StringStart(ss, i), ss[i])
    {
      StringsStand(b, at, ss, i);
    }
  }

  /** Where everything stands in a serialized edge. */
  lemma EdgeLayout(e: Edge, order: PropOrder)
    ensures var b, from, to := EncEdge(e, order), 4 + |e.id|, 8 + |e.id| + |e.from|;
            && StringAt(b, 0, e.id) && StringAt(b, from, e.from) && StringAt(b, to, e.to)
            && StringAt(b, to + 4 + |e.to|, e.kind)
            && TailAt(b, to + 8 + |e.to| + |e.kind|, order, e.version, e.created, e.updated)
  {
    hide BE, HighFirst, Holds, EncString, EncTail, StringAt, TailAt;
    var b, from, to := EncEdge(e, order), 4 + |e.id|, 8 + |e.id| + |e.from|;
    var tail := EncTail(order, e.version, e.created, e.updated);
    HoldsItself(b);
    StringSize(e.id);
    StringSize(e.from);
    StringSize(e.to);
    StringSize(e.kind);
    HoldsConcat(b, 0, EncString(e.id), EncString(e.from) + (EncString(e.to) + (EncString(e.kind) + tail)));
    HoldsConcat(b, from, EncString(e.from), EncString(e.to) + (EncString(e.kind) + tail));
    HoldsConcat(b, to, EncString(e.to), EncString(e.kind) + tail);
    HoldsConcat(b, to + 4 + |e.to|, EncString(e.kind), tail);
    StringStands(b, 0, e.id);
    StringStands(b, from, e.from);
    StringStands(b, to, e.to);
    StringStands(b, to + 4 + |e.to|, e.kind);
    TailStands(b, to + 8 + |e.to| + |e.kind|, order, e.version, e.created, e.updated);
  }

  // ---------- reading any bytes ----------

  lemma {:induction false} OfBE(b: Bytes, i: nat)
    requires i <= |b|
    ensures BE(BEUpTo(b, i), i) == b[..i]
  {
    if i > 0 {
      OfBE(b, i - 1);
      SliceSnoc(b, i - 1);
    }
  }

  /** A number is read exactly where all its bytes are there. */
  lemma FixedExactly(b: Bytes, w: nat, n: nat, rest: Bytes)
    ensures ReadFixed(b, w) == Ok(n, rest) <==> n < Pow256(w) && b == BE(n, w) + rest
  {
    hide Pow256;
    if ReadFixed(b, w) == Ok(n, rest) {
      OfBE(b[..w], w);
      FromBEBound(b[..w]);
    }
    if n < Pow256(w) && b == BE(n, w) + rest {
      FixedRoundTrip(n, w, rest);
    }
  }

  /** A string is refused when nothing follows its length, also if that is 0; when fewer bytes follow than the
      length says, they are taken, and zeros for the missing ones. */
  lemma StringExactly(b: Bytes, n: u32, rest: Bytes)
    requires b == BE(n, 4) + rest
    ensures var r := ReadString(b);
            && (r == Fail <==> rest == [])
            && (0 < n <= |rest| ==> r == Ok(rest[..n], rest[n..]))
            && (n == 0 < |rest| ==> r == Ok([], rest))
            && (0 < |rest| < n ==> r.Ok? && r.rest == [] && |r.value| == n && r.value[..|rest|] == rest
                                   && forall i :: |rest| <= i < n ==> r.value[i] == 0)
  {
    U32RoundTrip(n, rest);
    if 0 < |rest| < n {
      ZerosOnly(n - |rest|);
    }
  }

  lemma {:induction false} ZerosOnly(n: nat)
    ensures forall i :: 0 <= i < n ==> Zeros(n)[i] == 0
  {
    if n > 0 {
      ZerosOnly(n - 1);
    }
  }

  lemma LengthMissing(b: Bytes)
    requires |b| < 4
    ensures ReadString(b) == Fail
  {
  }

  /** What a value is read as is told by its tag; a flag is set by the byte 1 only, and other tags are
      refused. */
  lemma ValueExactly(b: Bytes)
    ensures b == [] || b[0] == 0 || b[0] > 5 ==> ReadValue(b) == Fail
    ensures b != [] && (b[0] == 1 || b[0] == 5) ==>
              var s := ReadString(b[1..]);
              ReadValue(b) == if s.Ok? then Ok(if b[0] == 1 then Text(s.value) else Blob(s.value), s.rest) else Fail
    ensures b != [] && (b[0] == 2 || b[0] == 3) ==>
              var x := ReadFixed(b[1..], 8);
              && (x == Fail <==> ReadValue(b) == Fail)
              && (x.Ok? ==> x.value < U64)
              && (x.Ok? && b[0] == 2 ==> ReadValue(b) == Ok(Int64(Signed(x.value)), x.rest))
              && (x.Ok? && b[0] == 3 ==> ReadValue(b) == Ok(Float64(x.value), x.rest))
    ensures b != [] && b[0] == 4 ==> ReadValue(b) == if |b| == 1 then Fail else Ok(Bool(b[1] == 1), b[2..])
  {
    hide ReadString;
    if |b| > 8 {
      FromBEBound(b[1..][..8]);
      Pow256Values();
    }
  }

  /** When a key comes twice among the properties that are read, the later value stays. */
  lemma {:induction false} LaterWins(acc: Properties, order: PropOrder, i: nat)
    requires i < |order| && forall j :: i < j < |order| ==> order[j].0 != order[i].0
    ensures order[i].0 in Build(acc, order) && Build(acc, order)[order[i].0] == NormValue(order[i].1)
    decreases |order|
  {
    if i > 0 {
      LaterWins(acc[order[0].0 := NormValue(order[0].1)], order[1..], i - 1);
    } else {
      Untouched(acc[order[0].0 := NormValue(order[0].1)], order[1..], order[0].0);
    }
  }

  lemma {:induction false} Untouched(acc: Properties, order: PropOrder, k: Bytes)
    requires k in acc && forall j :: 0 <= j < |order| ==> order[j].0 != k
    ensures k in Build(acc, order) && Build(acc, order)[k] == acc[k]
    decreases |order|
  {
    if order != [] {
      Untouched(acc[order[0].0 := NormValue(order[0].1)], order[1..], k);
    }
  }

  /** Bytes after the last field are ignored. */
  lemma TrailingIgnored(n: Node, norder: PropOrder, e: Edge, eorder: PropOrder, rest: Bytes)
    ensures Enumerates(norder, n.props) && Supported(n.props) && FitsNode(n) ==>
              DecodeNode(EncNode(n, norder) + rest) == Some(NormNode(n))
    ensures Enumerates(eorder, e.props) && Supported(e.props) && FitsEdge(e) ==>
              DecodeEdge(EncEdge(e, eorder) + rest) == Some(NormEdge(e))
  {
    hide EncNode, EncEdge, ParseNode, ParseEdge, NormNode, NormEdge;
    if Enumerates(norder, n.props) && Supported(n.props) && FitsNode(n) {
      NodeParses(n, norder, rest);
    }
    if Enumerates(eorder, e.props) && Supported(e.props) && FitsEdge(e) {
      EdgeParses(e, eorder, rest);
    }
  }
}
