/** The engine's caches in front of its lanes (pkg/storage/engine.go, pkg/cache/multilevel.go) on
    values: when cached reads agree with the lanes, and what an update means. */
module EngineReads {
  import opened Bytes
  import opened Graph
  import opened Lru
  import Lane
  import opened LaneRuns
  import opened Sharding

  // ---------- searching the lanes ----------

  /** The fallback over all lanes but the primary one. */
  function FirstNode(lanes: seq<Lane.Lane>, i: nat, primary: nat, id: Bytes): Option<Node>
    requires i <= |lanes|
    decreases |lanes| - i
  {
    if i == |lanes| then None
    else if i != primary && Lane.ReadNode(lanes[i], id).Some? then Lane.ReadNode(lanes[i], id)
    else FirstNode(lanes, i + 1, primary, id)
  }

  function FirstEdge(lanes: seq<Lane.Lane>, i: nat, primary: nat, id: Bytes): Option<Edge>
    requires i <= |lanes|
    decreases |lanes| - i
  {
    if i == |lanes| then None
    else if i != primary && Lane.ReadEdge(lanes[i], id).Some? then Lane.ReadEdge(lanes[i], id)
    else FirstEdge(lanes, i + 1, primary, id)
  }

  function SearchNode(c: Config, lanes: seq<Lane.Lane>, id: Bytes): Option<Node>
    requires |lanes| == c.numLanes > 0
  {
    var n := Lane.ReadNode(lanes[Owner(c, id)], id);
    if n.Some? then n else FirstNode(lanes, 0, Owner(c, id), id)
  }

  function SearchEdge(c: Config, lanes: seq<Lane.Lane>, id: Bytes): Option<Edge>
    requires |lanes| == c.numLanes > 0
  {
    var e := Lane.ReadEdge(lanes[Owner(c, id)], id);
    if e.Some? then e else FirstEdge(lanes, 0, Owner(c, id), id)
  }

  /** What the search answers, whatever is in which lane: what the own one has, and otherwise the first that
      has anything. */
  lemma SearchExactly(c: Config, lanes: seq<Lane.Lane>, id: Bytes, i: nat)
    requires i < |lanes| == c.numLanes
    ensures SearchNode(c, lanes, id) == None <==> forall j :: 0 <= j < |lanes| ==> Lane.ReadNode(lanes[j], id).None?
    ensures SearchEdge(c, lanes, id) == None <==> forall j :: 0 <= j < |lanes| ==> Lane.ReadEdge(lanes[j], id).None?
    ensures Lane.ReadNode(lanes[i], id).Some?
            && (i == Owner(c, id) || (Lane.ReadNode(lanes[Owner(c, id)], id).None?
                                      && forall j :: 0 <= j < i ==> Lane.ReadNode(lanes[j], id).None?)) ==>
              SearchNode(c, lanes, id) == Lane.ReadNode(lanes[i], id)
    ensures Lane.ReadEdge(lanes[i], id).Some?
            && (i == Owner(c, id) || (Lane.ReadEdge(lanes[Owner(c, id)], id).None?
                                      && forall j :: 0 <= j < i ==> Lane.ReadEdge(lanes[j], id).None?)) ==>
              SearchEdge(c, lanes, id) == Lane.ReadEdge(lanes[i], id)
  {
    hide Owner, Lane.ReadNode, Lane.ReadEdge, FirstNode, FirstEdge;
    FirstExactly(lanes, 0, Owner(c, id), id);
  }

  lemma {:induction false} FirstExactly(lanes: seq<Lane.Lane>, i: nat, primary: nat, id: Bytes)
    requires i <= |lanes|
    ensures FirstNode(lanes, i, primary, id) == None <==>
              forall j :: i <= j < |lanes| && j != primary ==> Lane.ReadNode(lanes[j], id).None?
    ensures forall k :: i <= k < |lanes| && k != primary && Lane.ReadNode(lanes[k], id).Some?
                        && (forall j :: i <= j < k && j != primary ==> Lane.ReadNode(lanes[j], id).None?) ==>
                          FirstNode(lanes, i, primary, id) == Lane.ReadNode(lanes[k], id)
    ensures FirstEdge(lanes, i, primary, id) == None <==>
              forall j :: i <= j < |lanes| && j != primary ==> Lane.ReadEdge(lanes[j], id).None?
    ensures forall k :: i <= k < |lanes| && k != primary && Lane.ReadEdge(lanes[k], id).Some?
                        && (forall j :: i <= j < k && j != primary ==> Lane.ReadEdge(lanes[j], id).None?) ==>
                          FirstEdge(lanes, i, primary, id) == Lane.ReadEdge(lanes[k], id)
    decreases |lanes| - i
  {
    hide Lane.ReadNode, Lane.ReadEdge;
    if i < |lanes| {
      FirstExactly(lanes, i + 1, primary, id);
    }
  }

  lemma {:induction false} NothingElsewhere(c: Config, log: Writes, lanes: seq<Lane.Lane>, i: nat, id: Bytes)
    requires Sharded(c, log, lanes) && i <= |lanes|
    ensures FirstNode(lanes, i, Owner(c, id), id) == None && FirstEdge(lanes, i, Owner(c, id), id) == None
    decreases |lanes| - i
  {
    hide Sharded, Lane.ReadNode, Lane.ReadEdge, NodeModel, EdgeModel;
    if i < |lanes| {
      OwnerReads(c, log, lanes, i, id);
      NothingElsewhere(c, log, lanes, i + 1, id);
    }
  }

  /** Searching the lanes is one lookup in the model of all writes. */
  lemma SearchIsLookup(c: Config, log: Writes, lanes: seq<Lane.Lane>, id: Bytes)
    requires Sharded(c, log, lanes)
    ensures SearchNode(c, lanes, id) == Get(NodeModel(log, |log|), id)
    ensures SearchEdge(c, lanes, id) == Get(EdgeModel(log, |log|), id)
  {
    hide Lane.ReadNode, Lane.ReadEdge, NodeModel, EdgeModel, Reached;
    OwnerReads(c, log, lanes, Owner(c, id), id);
    NothingElsewhere(c, log, lanes, 0, id);
  }

  // ---------- a cache in front of a map ----------

  /** Every cached value is the current one. */
  ghost predicate Agrees<V>(model: map<Bytes, V>, list: seq<Entry<V>>) {
    Distinct(list) && forall id :: Lookup(list, id).Some? ==> Lookup(list, id) == Get(model, id)
  }

  /** Nothing but the given IDs has come into the cache. */
  ghost predicate CachesOnly<V>(before: seq<Entry<V>>, after: seq<Entry<V>>, ids: set<Bytes>) {
    forall id :: Lookup(after, id).Some? ==> id in ids || Lookup(before, id).Some?
  }

  lemma CachesBoth<V>(a: seq<Entry<V>>, b: seq<Entry<V>>, c: seq<Entry<V>>, ids: set<Bytes>, more: set<Bytes>)
    requires CachesOnly(a, b, ids) && CachesOnly(b, c, more)
    ensures CachesOnly(a, c, ids + more)
  {
    hide Lookup;
  }

  lemma CachesSame<V>(list: seq<Entry<V>>, ids: set<Bytes>)
    ensures CachesOnly(list, list, ids)
  {
    hide Lookup;
  }

  lemma CachesMore<V>(before: seq<Entry<V>>, after: seq<Entry<V>>, ids: set<Bytes>, more: set<Bytes>)
    requires CachesOnly(before, after, ids) && ids <= more
    ensures CachesOnly(before, after, more)
  {
    hide Lookup;
  }

  /** What came into the cache and is out of it again. */
  lemma CachesNothing<V>(before: seq<Entry<V>>, after: seq<Entry<V>>, id: Bytes)
    requires CachesOnly(before, after, {id}) && Lookup(after, id) == None
    ensures CachesOnly(before, after, {})
  {
    hide Lookup;
  }

  lemma UncachedWhenAbsent<V>(model: map<Bytes, V>, list: seq<Entry<V>>, id: Bytes)
    requires Agrees(model, list) && id !in model
    ensures Lookup(list, id) == None
  {
    hide Lookup;
  }

  /** A read through the cache: the value and the cache afterwards. A refused insertion is ignored. */
  function ReadThrough<V>(list: seq<Entry<V>>, maxSize: int, id: Bytes, found: Option<V>, key: Bytes, cost: int):
    (Option<V>, seq<Entry<V>>)
  {
    if Lookup(list, id).Some? then (Lookup(list, id), list)
    else if found.Some? then (found, PutIn(list, maxSize, key, found.value, cost).list)
    else (None, list)
  }

  /** Cached read agreement: under any costs and evictions, a read through an agreeing cache is a
      lookup in the map, and the cache goes on agreeing. */
  lemma ReadThroughAgrees<V>(model: map<Bytes, V>, list: seq<Entry<V>>, maxSize: int, id: Bytes, found: Option<V>,
                             key: Bytes, cost: int)
    requires Agrees(model, list) && found == Get(model, id) && (found.Some? ==> key == id)
    ensures var (r, list') := ReadThrough(list, maxSize, id, found, key, cost);
            r == Get(model, id) && Agrees(model, list') && CachesOnly(list, list', {id})
  {
    hide PutIn, Lookup, Distinct;
    if !Lookup(list, id).Some? && found.Some? {
      var list' := PutIn(list, maxSize, key, found.value, cost).list;
      PutLookup(list, maxSize, key, found.value, cost, key);
      forall k | Lookup(list', k).Some?
        ensures Lookup(list', k) == Get(model, k) && (k == id || Lookup(list, k).Some?)
      {
        PutLookup(list, maxSize, key, found.value, cost, k);
      }
    }
  }

  function NodeThrough(c: Config, lanes: seq<Lane.Lane>, cost: Node -> int, list: seq<Entry<Node>>, maxSize: int,
                       id: Bytes):
    (Option<Node>, seq<Entry<Node>>)
    requires |lanes| == c.numLanes > 0
  {
    var n := SearchNode(c, lanes, id);
    if n.Some? then ReadThrough(list, maxSize, id, n, n.value.id, cost(n.value))
    else ReadThrough(list, maxSize, id, None, id, 0)
  }

  function EdgeThrough(c: Config, lanes: seq<Lane.Lane>, cost: Edge -> int, list: seq<Entry<Edge>>, maxSize: int,
                       id: Bytes):
    (Option<Edge>, seq<Entry<Edge>>)
    requires |lanes| == c.numLanes > 0
  {
    var e := SearchEdge(c, lanes, id);
    if e.Some? then ReadThrough(list, maxSize, id, e, e.value.id, cost(e.value))
    else ReadThrough(list, maxSize, id, None, id, 0)
  }

  /** What a read gives in any state, also when the cache is stale: what is cached, and else what the map
      of the last writes has, which is then cached if it finds room. */
  lemma NodeThroughIs(c: Config, log: Writes, lanes: seq<Lane.Lane>, cost: Node -> int, list: seq<Entry<Node>>,
                      maxSize: int, id: Bytes)
    requires Sharded(c, log, lanes)
    ensures var (r, list') := NodeThrough(c, lanes, cost, list, maxSize, id);
            if Lookup(list, id).Some? then r == Lookup(list, id) && list' == list
            else
              && r == Get(NodeModel(log, |log|), id)
              && list' == if r.Some? then PutIn(list, maxSize, id, r.value, cost(r.value)).list else list
  {
    hide Reached, Lookup, SearchNode, NodeModel, EdgeModel, PutIn;
    SearchIsLookup(c, log, lanes, id);
    ModelIds(log, |log|, id);
  }

  lemma EdgeThroughIs(c: Config, log: Writes, lanes: seq<Lane.Lane>, cost: Edge -> int, list: seq<Entry<Edge>>,
                      maxSize: int, id: Bytes)
    requires Sharded(c, log, lanes)
    ensures var (r, list') := EdgeThrough(c, lanes, cost, list, maxSize, id);
            if Lookup(list, id).Some? then r == Lookup(list, id) && list' == list
            else
              && r == Get(EdgeModel(log, |log|), id)
              && list' == if r.Some? then PutIn(list, maxSize, id, r.value, cost(r.value)).list else list
  {
    hide Reached, Lookup, SearchEdge, NodeModel, EdgeModel, PutIn;
    SearchIsLookup(c, log, lanes, id);
    ModelIds(log, |log|, id);
  }

  /** Main result: reading a node through an agreeing cache, whatever it evicts, is a lookup in the
      map of the last writes, and the cache goes on agreeing. */
  lemma NodeThroughAgrees(c: Config, log: Writes, lanes: seq<Lane.Lane>, cost: Node -> int,
                          list: seq<Entry<Node>>, maxSize: int, id: Bytes)
    requires Sharded(c, log, lanes) && Agrees(NodeModel(log, |log|), list)
    ensures var (r, list') := NodeThrough(c, lanes, cost, list, maxSize, id);
            r == Get(NodeModel(log, |log|), id) && Agrees(NodeModel(log, |log|), list') && CachesOnly(list, list', {id})
  {
    hide Reached, ReadThrough, Agrees, CachesOnly, SearchNode, NodeModel, EdgeModel;
    SearchIsLookup(c, log, lanes, id);
    ModelIds(log, |log|, id);
    var n := SearchNode(c, lanes, id);
    ReadThroughAgrees(NodeModel(log, |log|), list, maxSize, id, n, if n.Some? then n.value.id else id,
                      if n.Some? then cost(n.value) else 0);
  }

  lemma EdgeThroughAgrees(c: Config, log: Writes, lanes: seq<Lane.Lane>, cost: Edge -> int,
                          list: seq<Entry<Edge>>, maxSize: int, id: Bytes)
    requires Sharded(c, log, lanes) && Agrees(EdgeModel(log, |log|), list)
    ensures var (r, list') := EdgeThrough(c, lanes, cost, list, maxSize, id);
            r == Get(EdgeModel(log, |log|), id) && Agrees(EdgeModel(log, |log|), list') && CachesOnly(list, list', {id})
  {
    hide Reached, ReadThrough, Agrees, CachesOnly, SearchEdge, NodeModel, EdgeModel;
    SearchIsLookup(c, log, lanes, id);
    ModelIds(log, |log|, id);
    var e := SearchEdge(c, lanes, id);
    ReadThroughAgrees(EdgeModel(log, |log|), list, maxSize, id, e, if e.Some? then e.value.id else id,
                      if e.Some? then cost(e.value) else 0);
  }

  /** A write that leaves the cache alone keeps it agreeing exactly when the key is not cached, or
      is cached with the very value written. */
  lemma WriteBehindCache<V>(model: map<Bytes, V>, list: seq<Entry<V>>, id: Bytes, v: V)
    requires Agrees(model, list)
    ensures Agrees(model[id := v], list) <==> Lookup(list, id) == None || Lookup(list, id) == Some(v)
  {
    hide Lookup, Distinct;
    if Lookup(list, id).Some? && Lookup(list, id) != Some(v) {
      assert Get(model[id := v], id) == Some(v);
    }
  }

  function Invalidated<V>(list: seq<Entry<V>>, id: Bytes): seq<Entry<V>> {
    var i := Position(list, id);
    if i < |list| then Without(list, i) else list
  }

  /** The entry of the ID is gone, and every other one stays, whether or not it is stale. */
  lemma InvalidatedLookup<V>(list: seq<Entry<V>>, id: Bytes, k: Bytes)
    requires Distinct(list)
    ensures Distinct(Invalidated(list, id))
    ensures Lookup(Invalidated(list, id), k) == if k == id then None else Lookup(list, k)
  {
    var i := Position(list, id);
    if i < |list| {
      WithoutLookup(list, i, k);
    }
  }

  lemma InvalidateAgrees<V>(model: map<Bytes, V>, list: seq<Entry<V>>, id: Bytes)
    requires Agrees(model, list)
    ensures Agrees(model, Invalidated(list, id)) && Lookup(Invalidated(list, id), id) == None
    ensures CachesOnly(list, Invalidated(list, id), {})
  {
    hide Lookup, Invalidated, Distinct;
    forall k
      ensures Distinct(Invalidated(list, id))
      ensures Lookup(Invalidated(list, id), k) == if k == id then None else Lookup(list, k)
    {
      InvalidatedLookup(list, id, k);
    }
    InvalidatedLookup(list, id, id);
  }

  // ---------- reading many through the cache ----------

  ghost predicate EachOnce<T(!new)>(order: seq<T>, ids: set<T>) {
    && (forall i, j :: 0 <= i < j < |order| ==> order[i] != order[j])
    && (forall x :: x in order <==> x in ids)
  }

  /** Reading the IDs one after the other: what is found, with its ID, and the cache afterwards. */
  function ReadAll<V>(list: seq<Entry<V>>, maxSize: int, model: map<Bytes, V>, cost: V -> int, order: seq<Bytes>):
    (seq<(Bytes, V)>, seq<Entry<V>>)
  {
    if order == [] then ([], list)
    else
      var n := |order| - 1;
      var (found, l) := ReadAll(list, maxSize, model, cost, order[..n]);
      var (r, after) := ReadOne(l, maxSize, model, cost, order[n]);
      (if r.Some? then found + [(order[n], r.value)] else found, after)
  }

  /** Reading one ID, when searching the lanes is a lookup in `model`. */
  function ReadOne<V>(list: seq<Entry<V>>, maxSize: int, model: map<Bytes, V>, cost: V -> int, id: Bytes):
    (Option<V>, seq<Entry<V>>)
  {
    if Lookup(list, id).Some? then (Lookup(list, id), list)
    else if id in model then (Some(model[id]), PutIn(list, maxSize, id, model[id], cost(model[id])).list)
    else (None, list)
  }

  function KeysFound<V>(pairs: seq<(Bytes, V)>): (r: seq<Bytes>)
    ensures |r| == |pairs| && forall i :: 0 <= i < |pairs| ==> r[i] == pairs[i].0
  {
    seq(|pairs|, i requires 0 <= i < |pairs| => pairs[i].0)
  }

  function ValuesFound<V>(pairs: seq<(Bytes, V)>): (r: seq<V>)
    ensures |r| == |pairs| && forall i :: 0 <= i < |pairs| ==> r[i] == pairs[i].1
  {
    seq(|pairs|, i requires 0 <= i < |pairs| => pairs[i].1)
  }

  lemma ValuesSnoc<V>(pairs: seq<(Bytes, V)>, p: (Bytes, V))
    ensures ValuesFound(pairs + [p]) == ValuesFound(pairs) + [p.1] && KeysFound(pairs + [p]) == KeysFound(pairs) + [p.0]
  {
  }

  /** The IDs are read in some order, which ranging over a Go map leaves open. */
  ghost predicate ReadsAll<V>(list: seq<Entry<V>>, maxSize: int, model: map<Bytes, V>, cost: V -> int,
                              ids: set<Bytes>, found: seq<V>, after: seq<Entry<V>>)
  {
    exists order :: EachOnce(order, ids)
                 && found == ValuesFound(ReadAll(list, maxSize, model, cost, order).0)
                 && after == ReadAll(list, maxSize, model, cost, order).1
  }

  /** `found` are the values `model` has for the IDs of `ids`, each once; `keys` says which is whose. */
  ghost predicate Selects<V>(found: seq<V>, keys: seq<Bytes>, model: map<Bytes, V>, ids: set<Bytes>) {
    && |keys| == |found|
    && (forall i, j :: 0 <= i < j < |keys| ==> keys[i] != keys[j])
    && (forall i :: 0 <= i < |keys| ==> keys[i] in ids && keys[i] in model && found[i] == model[keys[i]])
    && (forall id :: id in ids && id in model ==> id in keys)
  }

  lemma SelectsMore<V>(found: seq<V>, keys: seq<Bytes>, model: map<Bytes, V>, ids: set<Bytes>, id: Bytes)
    requires Selects(found, keys, model, ids) && id !in ids
    ensures id in model ==> Selects(found + [model[id]], keys + [id], model, ids + {id})
    ensures id !in model ==> Selects(found, keys, model, ids + {id})
  {
  }

  function Members(order: seq<Bytes>): set<Bytes> {
    set x | x in order
  }

  lemma MembersSnoc(order: seq<Bytes>, n: nat)
    requires |order| == n + 1 && forall i, j :: 0 <= i < j < |order| ==> order[i] != order[j]
    ensures Members(order) == Members(order[..n]) + {order[n]} && order[n] !in Members(order[..n])
  {
    assert order == order[..n] + [order[n]];
  }

  /** Through an agreeing cache that gives exactly what the map has for the IDs. */
  lemma {:induction false} ReadAllAgrees<V>(list: seq<Entry<V>>, maxSize: int, model: map<Bytes, V>, cost: V -> int,
                                            order: seq<Bytes>)
    requires Agrees(model, list) && forall i, j :: 0 <= i < j < |order| ==> order[i] != order[j]
    ensures var (pairs, after) := ReadAll(list, maxSize, model, cost, order);
            && Selects(ValuesFound(pairs), KeysFound(pairs), model, Members(order))
            && Agrees(model, after) && CachesOnly(list, after, Members(order))
    decreases |order|
  {
    hide Agrees, Selects, Lookup, PutIn, CachesOnly, Members;
    if order == [] {
      NothingRead(list, model);
    } else {
      var n := |order| - 1;
      ReadAllAgrees(list, maxSize, model, cost, order[..n]);
      var (found, l) := ReadAll(list, maxSize, model, cost, order[..n]);
      MembersSnoc(order, n);
      ReadOneAgrees(l, maxSize, model, cost, order[n]);
      SelectsMore(ValuesFound(found), KeysFound(found), model, Members(order[..n]), order[n]);
      CachesBoth(list, l, ReadOne(l, maxSize, model, cost, order[n]).1, Members(order[..n]), {order[n]});
      if order[n] in model {
        ValuesSnoc(found, (order[n], model[order[n]]));
      }
    }
  }

  lemma ReadOneAgrees<V>(list: seq<Entry<V>>, maxSize: int, model: map<Bytes, V>, cost: V -> int, id: Bytes)
    requires Agrees(model, list)
    ensures var (r, after) := ReadOne(list, maxSize, model, cost, id);
            r == Get(model, id) && Agrees(model, after) && CachesOnly(list, after, {id})
  {
    hide Agrees, Lookup, PutIn, CachesOnly;
    ReadThroughAgrees(model, list, maxSize, id, Get(model, id), id, if id in model then cost(model[id]) else 0);
  }

  lemma NothingRead<V>(list: seq<Entry<V>>, model: map<Bytes, V>)
    ensures Selects(ValuesFound([]), KeysFound<V>([]), model, Members([])) && CachesOnly(list, list, Members([]))
  {
  }

  /** And in any state: each value is what the cache held or what the map has, whatever the map has is
      found, and IDs that are all cached give just what is cached. */
  lemma {:induction false} ReadAllSeen<V>(list: seq<Entry<V>>, maxSize: int, model: map<Bytes, V>, cost: V -> int,
                                          order: seq<Bytes>)
    requires Distinct(list)
    ensures var (pairs, after) := ReadAll(list, maxSize, model, cost, order);
            && Distinct(after)
            && (forall id :: SeenAs(Lookup(after, id), list, model, id))
            && (forall i :: 0 <= i < |pairs| ==>
                  pairs[i].0 in order && SeenAs(Some(pairs[i].1), list, model, pairs[i].0))
            && (forall id :: id in order && id in model ==> id in KeysFound(pairs))
    decreases |order|
  {
    hide Distinct, SeenAs, Lookup, PutIn;
    if order == [] {
      forall id
        ensures SeenAs(Lookup(list, id), list, model, id)
      {
        SeenInList(list, model, id);
      }
    } else {
      var n := |order| - 1;
      ReadAllSeen(list, maxSize, model, cost, order[..n]);
      var (found, l) := ReadAll(list, maxSize, model, cost, order[..n]);
      assert order == order[..n] + [order[n]];
      ReadOneSeen(list, l, maxSize, model, cost, order[n]);
      var r := ReadOne(l, maxSize, model, cost, order[n]).0;
      if r.Some? {
        ValuesSnoc(found, (order[n], r.value));
      }
    }
  }

  /** Nothing, what the cache held at first, or what the map has. */
  predicate SeenAs<V(==)>(v: Option<V>, list: seq<Entry<V>>, model: map<Bytes, V>, id: Bytes) {
    v.None? || v == Lookup(list, id) || v == Get(model, id)
  }

  lemma SeenInList<V>(list: seq<Entry<V>>, model: map<Bytes, V>, id: Bytes)
    ensures SeenAs(Lookup(list, id), list, model, id)
  {
  }

  lemma ReadOneSeen<V>(list: seq<Entry<V>>, l: seq<Entry<V>>, maxSize: int, model: map<Bytes, V>, cost: V -> int,
                       id: Bytes)
    requires Distinct(l) && forall k :: SeenAs(Lookup(l, k), list, model, k)
    ensures var (r, after) := ReadOne(l, maxSize, model, cost, id);
            && Distinct(after) && (forall k :: SeenAs(Lookup(after, k), list, model, k))
            && SeenAs(r, list, model, id) && (id in model ==> r.Some?)
  {
    hide Distinct, Lookup, PutIn;
    if Lookup(l, id).None? && id in model {
      PutLookup(l, maxSize, id, model[id], cost(model[id]), id);
      forall k
        ensures SeenAs(Lookup(PutIn(l, maxSize, id, model[id], cost(model[id])).list, k), list, model, k)
      {
        PutLookup(l, maxSize, id, model[id], cost(model[id]), k);
      }
    }
  }

  /** IDs that are all cached give just what is cached. */
  lemma {:induction false} ReadAllCached<V>(list: seq<Entry<V>>, maxSize: int, model: map<Bytes, V>, cost: V -> int,
                                            order: seq<Bytes>)
    requires forall id :: id in order ==> Lookup(list, id).Some?
    ensures var (pairs, after) := ReadAll(list, maxSize, model, cost, order);
            && after == list && |pairs| == |order|
            && forall i :: 0 <= i < |order| ==> pairs[i] == (order[i], Lookup(list, order[i]).value)
    decreases |order|
  {
    hide Lookup, PutIn;
    if order != [] {
      ReadAllCached(list, maxSize, model, cost, order[..|order| - 1]);
    }
  }

  // ---------- updating a node ----------

  /** `SetProperty` for each update in turn, with the clock's readings. */
  function Overlay(n: Node, updates: seq<(Bytes, Value)>, clock: seq<Time>, k: nat): Node
    requires k <= |updates| == |clock|
  {
    if k == 0 then n
    else SetProperty(Overlay(n, updates, clock, k - 1), updates[k - 1].0, updates[k - 1].1, clock[k - 1])
  }

  /** A version counter after `k` updates; Go's uint64 wraps around. */
  function Bumped(version: u64, k: nat): u64 {
    (version + k) % U64
  }

  /** The node with the properties `props` laid over its own, at the last reading of the clock. */
  function Revision(n: Node, props: Properties, clock: seq<Time>): Node {
    if clock == [] then n
    else Node(n.id, n.labels, n.props + props, Bumped(n.version, |props|), n.created, clock[|clock| - 1])
  }

  /** In whatever order the updates are enumerated, the properties end up overlaid with them, the
      version counts them, the update time is that of the last one, and nothing else changes. */
  lemma OverlayIs(n: Node, props: Properties, updates: seq<(Bytes, Value)>, clock: seq<Time>)
    requires Enumerates(updates, props) && |clock| == |updates|
    ensures var r := Overlay(n, updates, clock, |updates|);
            && r.props == n.props + props && r.version == Bumped(n.version, |props|)
            && r.id == n.id && r.labels == n.labels && r.created == n.created
            && r.updated == (if updates == [] then n.updated else clock[|clock| - 1])
            && (props == map[] ==> r == n)
    ensures Overlay(n, updates, clock, |updates|) == Revision(n, props, clock)
  {
    hide Overlay, Enumerates, Revision, Bumped;
    NoUpdates(updates, props);
    if updates == [] {
      OverlayNothing(n, updates, clock);
      RevisionOfNothing(n);
    } else {
      OverlayIsRevision(n, props, updates, clock);
      RevisionParts(n, props, clock);
    }
  }

  lemma RevisionOfNothing(n: Node)
    ensures Revision(n, map[], []) == n && n.props + map[] == n.props && Bumped(n.version, 0) == n.version
  {
  }

  lemma RevisionParts(n: Node, props: Properties, clock: seq<Time>)
    requires clock != []
    ensures var r := Revision(n, props, clock);
            && r.props == n.props + props && r.version == Bumped(n.version, |props|) && r.updated == clock[|clock| - 1]
            && r.id == n.id && r.labels == n.labels && r.created == n.created
  {
  }

  lemma OverlayIsRevision(n: Node, props: Properties, updates: seq<(Bytes, Value)>, clock: seq<Time>)
    requires Enumerates(updates, props) && |clock| == |updates| > 0
    ensures Overlay(n, updates, clock, |updates|) == Revision(n, props, clock)
  {
    hide Overlay, Enumerates, Bumped;
    EnumerationLength(updates, props);
    OverlayParts(n, updates, clock, |updates|);
    OverlayProps(n, props, updates, clock);
    SameNode(Overlay(n, updates, clock, |updates|), Revision(n, props, clock));
  }

  lemma NoUpdates(updates: seq<(Bytes, Value)>, props: Properties)
    requires Enumerates(updates, props)
    ensures updates == [] <==> props == map[]
    ensures props == map[] ==> |props| == 0
  {
    if updates != [] {
      assert updates[0].0 in props;
    }
  }

  lemma SameNode(a: Node, b: Node)
    requires a.id == b.id && a.labels == b.labels && a.props == b.props && a.version == b.version
    requires a.created == b.created && a.updated == b.updated
    ensures a == b
  {
  }

  /** The counter is exact until it wraps around at 2^64. */
  lemma BumpedIs(version: u64, k: nat)
    ensures version + k < U64 ==> Bumped(version, k) == version + k
    ensures U64 <= version + k < 2 * U64 ==> Bumped(version, k) == version + k - U64
  {
    if U64 <= version + k < 2 * U64 {
      assert version + k == U64 * 1 + (version + k - U64);
    }
  }

  lemma OverlayProps(n: Node, props: Properties, updates: seq<(Bytes, Value)>, clock: seq<Time>)
    requires Enumerates(updates, props) && |clock| == |updates|
    ensures Overlay(n, updates, clock, |updates|).props == n.props + props
  {
    hide Overlay, Enumerates;
    var m := Overlay(n, updates, clock, |updates|).props;
    forall key
      ensures key in m <==> key in n.props || key in props
      ensures key in m ==> m[key] == if key in props then props[key] else n.props[key]
    {
      OverlayKey(n, props, updates, clock, key);
    }
    MergedMap(n.props, props, m);
  }

  lemma MergedMap<K, V>(a: map<K, V>, b: map<K, V>, m: map<K, V>)
    requires forall k :: k in m <==> k in a || k in b
    requires forall k :: k in m ==> m[k] == if k in b then b[k] else a[k]
    ensures m == a + b
  {
  }

  lemma OverlayKey(n: Node, props: Properties, updates: seq<(Bytes, Value)>, clock: seq<Time>, key: Bytes)
    requires Enumerates(updates, props) && |clock| == |updates|
    ensures var r := Overlay(n, updates, clock, |updates|);
            && (key in r.props <==> key in n.props || key in props)
            && (key in r.props ==> r.props[key] == if key in props then props[key] else n.props[key])
  {
    hide Overlay;
    if key in props {
      var i :| 0 <= i < |updates| && updates[i].0 == key;
      OverlaySets(n, updates, clock, |updates|, i);
    } else {
      OverlayKeeps(n, updates, clock, |updates|, key);
    }
  }

  lemma OverlayNothing(n: Node, updates: seq<(Bytes, Value)>, clock: seq<Time>)
    requires |updates| == |clock|
    ensures Overlay(n, updates, clock, 0) == n
  {
  }

  lemma {:induction false} OverlayParts(n: Node, updates: seq<(Bytes, Value)>, clock: seq<Time>, k: nat)
    requires k <= |updates| == |clock|
    ensures var r := Overlay(n, updates, clock, k);
            && r.version == Bumped(n.version, k) && r.id == n.id && r.labels == n.labels && r.created == n.created
            && r.updated == if k == 0 then n.updated else clock[k - 1]
  {
    hide Bumped;
    if k > 0 {
      OverlayParts(n, updates, clock, k - 1);
      BumpedOnce(n.version, k - 1);
    } else {
      NotBumped(n.version);
    }
  }

  lemma BumpedOnce(version: u64, k: nat)
    ensures (Bumped(version, k) + 1) % U64 == Bumped(version, k + 1)
  {
  }

  lemma NotBumped(version: u64)
    ensures Bumped(version, 0) == version
  {
  }

  lemma {:induction false} OverlaySets(n: Node, updates: seq<(Bytes, Value)>, clock: seq<Time>, k: nat, i: nat)
    requires DistinctKeys(updates) && i < k <= |updates| == |clock|
    ensures var r := Overlay(n, updates, clock, k); updates[i].0 in r.props && r.props[updates[i].0] == updates[i].1
    decreases k
  {
    if i < k - 1 {
      OverlaySets(n, updates, clock, k - 1, i);
      assert updates[i].0 != updates[k - 1].0;
    }
  }

  lemma {:induction false} OverlayKeeps(n: Node, updates: seq<(Bytes, Value)>, clock: seq<Time>, k: nat, key: Bytes)
    requires k <= |updates| == |clock| && forall i :: 0 <= i < |updates| ==> updates[i].0 != key
    ensures var r := Overlay(n, updates, clock, k);
            (key in r.props <==> key in n.props) && (key in r.props ==> r.props[key] == n.props[key])
  {
    if k > 0 {
      OverlayKeeps(n, updates, clock, k - 1, key);
    }
  }
}
