/** The size-bounded cache (pkg/cache/lru.go): recency is the order of the last `Put`, for reads do
    not touch it. */
module Lru {
  import opened Bytes

  datatype Entry<V> = Entry(key: Bytes, value: V, size: int, version: nat)

  // ---------- the list, most recent first ----------

  function SizeOf<V>(list: seq<Entry<V>>): int {
    if list == [] then 0 else SizeOf(list[..|list| - 1]) + list[|list| - 1].size
  }

  ghost predicate Distinct<V>(list: seq<Entry<V>>) {
    forall i, j :: 0 <= i < j < |list| ==> list[i].key != list[j].key
  }

  /** Evicting from the back until what is left fits in `room`. */
  function Trim<V>(list: seq<Entry<V>>, room: int): seq<Entry<V>> {
    if list == [] || SizeOf(list) <= room then list else Trim(list[..|list| - 1], room)
  }

  /** Eviction keeps the longest most recent part of the list that fits, and nothing when none does. */
  lemma {:induction false} TrimIsLongestFit<V>(list: seq<Entry<V>>, room: int)
    ensures var n := |Trim(list, room)|;
            && n <= |list| && Trim(list, room) == list[..n]
            && (n == 0 || SizeOf(list[..n]) <= room)
            && forall m :: n < m <= |list| ==> SizeOf(list[..m]) > room
  {
    if list == [] || SizeOf(list) <= room {
      assert list[..|list|] == list;
    } else {
      var init := list[..|list| - 1];
      TrimIsLongestFit(init, room);
      var n := |Trim(init, room)|;
      PrefixOfInit(list, n);
      forall m | n < m <= |list|
        ensures SizeOf(list[..m]) > room
      {
        if m < |list| {
          PrefixOfInit(list, m);
        } else {
          assert list[..m] == list;
        }
      }
    }
  }

  lemma PrefixOfInit<T>(list: seq<T>, n: nat)
    requires n < |list|
    ensures list[..|list| - 1][..n] == list[..n]
  {
  }

  /** Without negative sizes, a longer part of the list is no smaller. */
  lemma {:induction false} SizeGrows<V>(list: seq<Entry<V>>, n: nat)
    requires n <= |list| && forall i :: 0 <= i < |list| ==> list[i].size >= 0
    ensures 0 <= SizeOf(list[..n]) <= SizeOf(list)
    decreases |list|
  {
    if n == |list| {
      assert list[..n] == list;
      if n > 0 {
        SizeGrows(list[..n - 1], n - 1);
        assert list[..n - 1][..n - 1] == list[..n - 1];
      }
    } else {
      PrefixOfInit(list, n);
      SizeGrows(list[..|list| - 1], n);
    }
  }

  function Position<V>(list: seq<Entry<V>>, key: Bytes): (i: nat)
    ensures i <= |list|
    ensures i < |list| ==> list[i].key == key
    ensures forall j :: 0 <= j < i ==> list[j].key != key
  {
    if list == [] || list[0].key == key then 0 else 1 + Position(list[1..], key)
  }

  function Lookup<V>(list: seq<Entry<V>>, key: Bytes): Option<V> {
    var i := Position(list, key);
    if i < |list| then Some(list[i].value) else None
  }

  function Without<V>(list: seq<Entry<V>>, i: nat): seq<Entry<V>>
    requires i < |list|
  {
    list[..i] + list[i + 1..]
  }

  lemma {:induction false} SizeConcat<V>(a: seq<Entry<V>>, b: seq<Entry<V>>)
    ensures SizeOf(a + b) == SizeOf(a) + SizeOf(b)
  {
    if b == [] {
      assert a + b == a;
    } else {
      assert (a + b)[..|a + b| - 1] == a + b[..|b| - 1];
      SizeConcat(a, b[..|b| - 1]);
    }
  }

  lemma SizeWithout<V>(list: seq<Entry<V>>, i: nat)
    requires i < |list|
    ensures SizeOf(Without(list, i)) == SizeOf(list) - list[i].size
  {
    hide SizeOf;
    SplitAt(list, i);
    SizeConcat(list[..i], [list[i]] + list[i + 1..]);
    SizeCons(list[i], list[i + 1..]);
    SizeConcat(list[..i], list[i + 1..]);
  }

  lemma SplitAt<T>(s: seq<T>, i: nat)
    requires i < |s|
    ensures s == s[..i] + ([s[i]] + s[i + 1..])
  {
  }

  lemma SizeCons<V>(e: Entry<V>, list: seq<Entry<V>>)
    ensures SizeOf([e] + list) == e.size + SizeOf(list)
  {
    SizeConcat([e], list);
    assert [e][..0] == [];
  }

  // ---------- operations on values ----------

  datatype PutResult<V> = PutResult(list: seq<Entry<V>>, ok: bool)

  /** `Put`: a known key is updated and moved to the front without any eviction; for a new key room
      is made first, even when the entry is then refused for its size. */
  function PutIn<V>(list: seq<Entry<V>>, maxSize: int, key: Bytes, value: V, size: int): PutResult<V> {
    var i := Position(list, key);
    if i < |list| then
      PutResult([Entry(key, value, size, list[i].version + 1)] + Without(list, i), true)
    else if size > maxSize then
      PutResult(Trim(list, maxSize - size), false)
    else
      PutResult([Entry(key, value, size, 1)] + Trim(list, maxSize - size), true)
  }

  /** What a `Put` means for readers: the new value is found, other keys keep their value or are
      evicted, and room is made only from the back. */
  lemma PutLookup<V>(list: seq<Entry<V>>, maxSize: int, key: Bytes, value: V, size: int, k: Bytes)
    requires Distinct(list)
    ensures var r := PutIn(list, maxSize, key, value, size);
            && Distinct(r.list)
            && (k == key ==> Lookup(r.list, k) == if r.ok then Some(value) else None)
            && (k != key ==> Lookup(r.list, k) == Lookup(list, k) || Lookup(r.list, k) == None)
            && (k != key && Lookup(list, key).Some? ==> Lookup(r.list, k) == Lookup(list, k))
  {
    hide Trim, Distinct, Position, Without;
    var i := Position(list, key);
    if i < |list| {
      WithoutLookup(list, i, k);
      WithoutLookup(list, i, key);
      ConsLookup(Entry(key, value, size, list[i].version + 1), Without(list, i), k);
    } else {
      TrimIsLongestFit(list, maxSize - size);
      PrefixLookup(list, |Trim(list, maxSize - size)|, k);
      PrefixLookup(list, |Trim(list, maxSize - size)|, key);
      ConsLookup(Entry(key, value, size, 1), Trim(list, maxSize - size), k);
    }
  }

  lemma PositionIs<V>(list: seq<Entry<V>>, key: Bytes, i: nat)
    requires Distinct(list) && i < |list| && list[i].key == key
    ensures Position(list, key) == i
  {
  }

  lemma ConsLookup<V>(e: Entry<V>, list: seq<Entry<V>>, k: Bytes)
    requires Distinct(list) && Lookup(list, e.key) == None
    ensures Distinct([e] + list)
    ensures Lookup([e] + list, k) == if k == e.key then Some(e.value) else Lookup(list, k)
  {
    assert ([e] + list)[1..] == list;
    forall j | 0 <= j < |list|
      ensures list[j].key != e.key
    {
      if list[j].key == e.key {
        PositionIs(list, e.key, j);
      }
    }
  }

  lemma PrefixLookup<V>(list: seq<Entry<V>>, n: nat, k: Bytes)
    requires Distinct(list) && n <= |list|
    ensures Distinct(list[..n])
    ensures Lookup(list[..n], k) == if Position(list, k) < n then Lookup(list, k) else None
  {
    var i := Position(list, k);
    if i < n {
      PositionIs(list[..n], k, i);
    }
  }

  lemma WithoutLookup<V>(list: seq<Entry<V>>, i: nat, k: Bytes)
    requires Distinct(list) && i < |list|
    ensures Distinct(Without(list, i))
    ensures Lookup(Without(list, i), k) == if k == list[i].key then None else Lookup(list, k)
  {
    var w := Without(list, i);
    var p := Position(list, k);
    if p < |list| && p != i {
      var q := if p < i then p else p - 1;
      assert w[q] == list[p];
      PositionIs(w, k, q);
    } else {
      forall q | 0 <= q < |w|
        ensures w[q].key != k
      {
        var o := if q < i then q else q + 1;
        assert w[q] == list[o];
      }
    }
  }

  /** A new key that fits: it is in front of exactly the longest most recent part of the old list
      that fits beside it, and the whole stays within the limit. */
  lemma PutNewKey<V>(list: seq<Entry<V>>, maxSize: int, key: Bytes, value: V, size: int)
    requires Position(list, key) == |list| && size <= maxSize
    ensures var r := PutIn(list, maxSize, key, value, size);
            && r.ok && r.list != [] && r.list[0] == Entry(key, value, size, 1) && SizeOf(r.list) <= maxSize
            && |r.list| - 1 <= |list| && r.list[1..] == list[..|r.list| - 1]
            && forall m :: |r.list| - 1 < m <= |list| ==> SizeOf(list[..m]) + size > maxSize
  {
    var kept := Trim(list, maxSize - size);
    TrimIsLongestFit(list, maxSize - size);
    SizeCons(Entry(key, value, size, 1), kept);
    assert ([Entry(key, value, size, 1)] + kept)[1..] == kept;
  }

  /** A known key: its entry goes to the front with the new value and size and the next version, and the
      others stand as before, in their order; nothing is evicted, even when the limit is exceeded. */
  lemma PutKnownKey<V>(list: seq<Entry<V>>, maxSize: int, key: Bytes, value: V, size: int)
    requires Position(list, key) < |list|
    ensures var r, i := PutIn(list, maxSize, key, value, size), Position(list, key);
            && r.ok && |r.list| == |list| && r.list[0] == Entry(key, value, size, list[i].version + 1)
            && (forall j :: 0 <= j < i ==> r.list[j + 1] == list[j])
            && (forall j :: i < j < |list| ==> r.list[j] == list[j])
            && SizeOf(r.list) == SizeOf(list) - list[i].size + size
  {
    hide SizeOf;
    var i := Position(list, key);
    SizeWithout(list, i);
    SizeCons(Entry(key, value, size, list[i].version + 1), Without(list, i));
  }

  /** A refused entry is not stored, but room has been made for it: what stays is the longest most recent
      part beside which it would fit, were it not too large, and nothing when there is none. */
  lemma PutRefused<V>(list: seq<Entry<V>>, maxSize: int, key: Bytes, value: V, size: int)
    requires !PutIn(list, maxSize, key, value, size).ok
    ensures var r := PutIn(list, maxSize, key, value, size);
            && |r.list| <= |list| && r.list == list[..|r.list|]
            && (r.list == [] || SizeOf(r.list) + size <= maxSize)
            && forall m :: |r.list| < m <= |list| ==> SizeOf(list[..m]) + size > maxSize
  {
    TrimIsLongestFit(list, maxSize - size);
  }

  /** An entry larger than the cache is refused, but only after it has emptied the cache. */
  lemma RefusedPutEmpties<V>(list: seq<Entry<V>>, maxSize: int, key: Bytes, value: V, size: int)
    requires forall i :: 0 <= i < |list| ==> list[i].size >= 0
    ensures !PutIn(list, maxSize, key, value, size).ok <==> Position(list, key) == |list| && size > maxSize
    ensures !PutIn(list, maxSize, key, value, size).ok ==> PutIn(list, maxSize, key, value, size).list == []
  {
    if Position(list, key) == |list| && size > maxSize {
      var n := |Trim(list, maxSize - size)|;
      TrimIsLongestFit(list, maxSize - size);
      SizeGrows(list, n);
    }
  }

  // ---------- the cache ----------

  class LRUCache<V(==)> {
    var maxSize: int
    var currentSize: int
    var items: map<Bytes, Entry<V>>
    var evictList: seq<Entry<V>>
    ghost var clock: nat
    ghost var lastPut: map<Bytes, nat>   // when each key was last put

    /** Map and list hold the same entries, `currentSize` is their size, and the list is in the
        order of the last `Put`. */
    ghost predicate Valid()
      reads this
    {
      && Distinct(evictList) && Mirrors(items, evictList)
      && currentSize == SizeOf(evictList)
      && Recent(evictList, lastPut, clock)
    }

    constructor (maxSize: int)
      ensures Valid() && evictList == [] && this.maxSize == maxSize
    {
      this.maxSize := maxSize;
      currentSize, items, evictList := 0, map[], [];
      clock, lastPut := 0, map[];
    }

    /** Reads leave everything as it is, the order included. */
    method Get(key: Bytes) returns (value: Option<V>)
      requires Valid()
      ensures value == Lookup(evictList, key)
    {
      MirrorLookup(items, evictList, key);
      if key !in items {
        return None;
      }
      return Some(items[key].value);
    }

    method Put(key: Bytes, value: V, size: int) returns (ok: bool)
      requires Valid()
      modifies this
      ensures Valid() && maxSize == old(maxSize)
      ensures PutResult(evictList, ok) == PutIn(old(evictList), maxSize, key, value, size)
      ensures ok ==> lastPut == old(lastPut)[key := clock] && old(clock) < clock
    {
      hide Distinct, Mirrors, Recent, SizeOf;
      MirrorLookup(items, evictList, key);
      if key in items {
        Update(key, value, size);
        return true;
      }
      EvictUntil(maxSize - size);
      if size > maxSize {
        return false;
      }
      PushFront(Entry(key, value, size, 1));
      return true;
    }

    method Update(key: Bytes, value: V, size: int)
      requires Valid() && key in items
      modifies this
      ensures Valid() && maxSize == old(maxSize) && Position(old(evictList), key) < |old(evictList)|
      ensures PutResult(evictList, true) == PutIn(old(evictList), maxSize, key, value, size)
      ensures lastPut == old(lastPut)[key := clock] && old(clock) < clock
    {
      hide Distinct, Mirrors, Recent, SizeOf;
      MirrorLookup(items, evictList, key);
      var entry := Entry(key, value, size, items[key].version + 1);
      ghost var i := Position(evictList, key);
      RemoveElement(key);
      PushFront(entry);
    }

    method PushFront(e: Entry<V>)
      requires Valid() && e.key !in items
      modifies this
      ensures Valid() && maxSize == old(maxSize)
      ensures evictList == [e] + old(evictList)
      ensures lastPut == old(lastPut)[e.key := clock] && old(clock) < clock
    {
      hide Mirrors, Recent, Distinct, SizeOf;
      MirrorLookup(items, evictList, e.key);
      ConsLookup(e, evictList, e.key);
      SizeCons(e, evictList);
      ConsMirrors(items, evictList, e);
      ConsRecent(evictList, lastPut, clock, e);
      evictList := [e] + evictList;
      items := items[e.key := e];
      currentSize := currentSize + e.size;
      clock := clock + 1;
      lastPut := lastPut[e.key := clock];
    }

    /** Unlinks the entry of a key that is present. */
    method RemoveElement(key: Bytes)
      requires Valid() && key in items
      modifies `evictList, `items, `currentSize
      ensures Valid() && Position(old(evictList), key) < |old(evictList)|
      ensures evictList == Without(old(evictList), Position(old(evictList), key))
      ensures items == old(items) - {key}
    {
      hide Mirrors, Recent, Distinct, SizeOf;
      MirrorLookup(items, evictList, key);
      var i := Position(evictList, key);
      SizeWithout(evictList, i);
      WithoutLookup(evictList, i, key);
      WithoutMirrors(items, evictList, i);
      WithoutRecent(evictList, lastPut, clock, i);
      currentSize := currentSize - items[key].size;
      evictList := evictList[..i] + evictList[i + 1..];
      items := items - {key};
    }

    method EvictOldest()
      requires Valid() && evictList != []
      modifies `evictList, `items, `currentSize
      ensures Valid() && evictList == old(evictList)[..|old(evictList)| - 1]
      ensures items.Keys <= old(items).Keys
    {
      hide Mirrors, Recent, SizeOf;
      var n := |evictList| - 1;
      var elem := evictList[n];
      PositionIs(evictList, elem.key, n);
      MirrorLookup(items, evictList, elem.key);
      DropLast(evictList);
      RemoveElement(elem.key);
    }

    method EvictUntil(room: int)
      requires Valid()
      modifies `evictList, `items, `currentSize
      ensures Valid() && evictList == Trim(old(evictList), room) && items.Keys <= old(items).Keys
    {
      hide Mirrors, Recent, SizeOf, Distinct;
      while currentSize > room && |evictList| > 0
        invariant Valid() && Trim(evictList, room) == Trim(old(evictList), room) && items.Keys <= old(items).Keys
        decreases |evictList|
      {
        EvictOldest();
      }
    }

    method Invalidate(key: Bytes)
      requires Valid()
      modifies `evictList, `items, `currentSize
      ensures Valid()
      ensures var i := Position(old(evictList), key);
              evictList == if i < |old(evictList)| then Without(old(evictList), i) else old(evictList)
    {
      hide Mirrors, Recent, SizeOf, Distinct;
      MirrorLookup(items, evictList, key);
      if key in items {
        RemoveElement(key);
      }
    }

    method Clear()
      requires Valid()
      modifies `evictList, `items, `currentSize
      ensures Valid() && evictList == []
    {
      items, evictList, currentSize := map[], [], 0;
    }

    method Resize(newSize: int)
      requires Valid()
      modifies `maxSize, `evictList, `items, `currentSize
      ensures Valid() && maxSize == newSize && evictList == Trim(old(evictList), newSize)
    {
      maxSize := newSize;
      EvictUntil(newSize);
    }
  }

  // ---------- the invariants ----------

  ghost predicate Mirrors<V>(items: map<Bytes, Entry<V>>, list: seq<Entry<V>>) {
    && (forall i :: 0 <= i < |list| ==> list[i].key in items && items[list[i].key] == list[i])
    && (forall k :: k in items ==> Position(list, k) < |list|)
  }

  ghost predicate Recent<V>(list: seq<Entry<V>>, lastPut: map<Bytes, nat>, clock: nat) {
    && (forall i :: 0 <= i < |list| ==> list[i].key in lastPut)
    && (forall k :: k in lastPut ==> lastPut[k] <= clock)
    && (forall i, j :: 0 <= i < j < |list| ==> lastPut[list[j].key] < lastPut[list[i].key])
  }

  lemma MirrorLookup<V>(items: map<Bytes, Entry<V>>, list: seq<Entry<V>>, key: Bytes)
    requires Mirrors(items, list)
    ensures key in items <==> Position(list, key) < |list|
    ensures key in items ==> items[key] == list[Position(list, key)]
  {
  }

  lemma ConsMirrors<V>(items: map<Bytes, Entry<V>>, list: seq<Entry<V>>, e: Entry<V>)
    requires Mirrors(items, list) && e.key !in items
    ensures Mirrors(items[e.key := e], [e] + list)
  {
    assert ([e] + list)[1..] == list;
  }

  lemma ConsRecent<V>(list: seq<Entry<V>>, lastPut: map<Bytes, nat>, clock: nat, e: Entry<V>)
    requires Recent(list, lastPut, clock) && forall i :: 0 <= i < |list| ==> list[i].key != e.key
    ensures Recent([e] + list, lastPut[e.key := clock + 1], clock + 1)
  {
    var l := [e] + list;
    assert forall i :: 0 < i < |l| ==> l[i] == list[i - 1];
  }

  lemma WithoutMirrors<V>(items: map<Bytes, Entry<V>>, list: seq<Entry<V>>, i: nat)
    requires Mirrors(items, list) && Distinct(list) && i < |list|
    ensures Mirrors(items - {list[i].key}, Without(list, i))
  {
    var w := Without(list, i);
    forall k | k in items && k != list[i].key
      ensures Position(w, k) < |w|
    {
      WithoutLookup(list, i, k);
    }
  }

  lemma WithoutRecent<V>(list: seq<Entry<V>>, lastPut: map<Bytes, nat>, clock: nat, i: nat)
    requires Recent(list, lastPut, clock) && i < |list|
    ensures Recent(Without(list, i), lastPut, clock)
  {
  }

  lemma DropLast<V>(list: seq<Entry<V>>)
    requires list != []
    ensures Without(list, |list| - 1) == list[..|list| - 1]
  {
  }
}
