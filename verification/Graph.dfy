/** The graph's value types. A Go `*Node` that is cloned before it is shared behaves as a value,
    so `Clone` is the identity here; a nil property map and an empty one are not told apart. */
module Graph {
  import opened Bytes

  /** A property value; `Other` stands for every dynamic type the serializer refuses.
      A float64 is its bit pattern. */
  datatype Value =
    | Text(text: Bytes)
    | Int(i: i64)
    | Int64(i: i64)
    | Float64(bits: u64)
    | Bool(b: bool)
    | Blob(data: Bytes)
    | Other

  type Properties = map<Bytes, Value>

  datatype Time = Time(sec: i64, nsec: nat)

  datatype Node = Node(id: Bytes, labels: seq<Bytes>, props: Properties, version: u64, created: Time, updated: Time)

  datatype Edge = Edge(id: Bytes, from: Bytes, to: Bytes, kind: Bytes, props: Properties,
                       version: u64, created: Time, updated: Time)

  datatype Direction = Out | In | Both | UnknownDirection

  /** `Node.SetProperty`, the clock being a parameter. */
  function SetProperty(n: Node, key: Bytes, value: Value, now: Time): Node {
    n.(props := n.props[key := value], version := (n.version + 1) % U64, updated := now)
  }

  /** Serializing widens `int` to int64 and drops the sub-second part of a time. */
  function NormValue(v: Value): Value {
    match v
    case Int(i) => Int64(i)
    case _ => v
  }

  function NormProps(m: Properties): Properties {
    map k | k in m :: NormValue(m[k])
  }

  function NormTime(t: Time): Time {
    Time(t.sec, 0)
  }

  function NormNode(n: Node): Node {
    n.(props := NormProps(n.props), created := NormTime(n.created), updated := NormTime(n.updated))
  }

  function NormEdge(e: Edge): Edge {
    e.(props := NormProps(e.props), created := NormTime(e.created), updated := NormTime(e.updated))
  }

  /** What is lost in a stored value: of a time what is below the second, of an `int` that it was one. */
  lemma NormIs(n: Node, e: Edge)
    ensures var r := NormNode(n);
            && r.id == n.id && r.labels == n.labels && r.version == n.version && NormOf(n.props, r.props)
            && r.created == Time(n.created.sec, 0) && r.updated == Time(n.updated.sec, 0)
    ensures var r := NormEdge(e);
            && r.id == e.id && r.from == e.from && r.to == e.to && r.kind == e.kind && r.version == e.version
            && NormOf(e.props, r.props)
            && r.created == Time(e.created.sec, 0) && r.updated == Time(e.updated.sec, 0)
  {
  }

  ghost predicate NormOf(m: Properties, r: Properties) {
    && r.Keys == m.Keys
    && forall k :: k in m ==> r[k] == if m[k].Int? then Int64(m[k].i) else m[k]
  }
}
