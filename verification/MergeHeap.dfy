/** The heap of the k-way merge (mergeHeap of pkg/compaction/merger.go under Go's container/heap):
    a binary heap in a slice, ordered by key only. Which of several equal keys comes out first is decided
    by the swaps, which are told here exactly. */
module MergeHeap {
  import opened Bytes
  import opened Sstable

  datatype HeapEntry = HeapEntry(key: Bytes, value: Bytes, idx: nat) {
    function Head(): Pair { Pair(key, value) }
  }

  /** `a <= b` for keys. */
  predicate Le(a: Bytes, b: Bytes) { !Less(b, a) }

  lemma LeTransitive(a: Bytes, b: Bytes, c: Bytes)
    requires Le(a, b) && Le(b, c)
    ensures Le(a, c)
  {
    if Less(c, a) {
      LessTotal(b, c);
      if Less(b, c) {
        LessTransitive(b, c, a);
      }
    }
  }

  lemma LessLe(a: Bytes, b: Bytes)
    requires Less(a, b)
    ensures Le(a, b)
  {
    LessAsymmetric(a, b);
  }

  function Parent(k: nat): nat
    requires k > 0
  {
    (k - 1) / 2
  }

  ghost predicate HeapOrdered(h: seq<HeapEntry>) {
    forall k :: 0 < k < |h| ==> Le(h[Parent(k)].key, h[k].key)
  }

  /** `h` holds one entry for each scanner in `content`, in any order. */
  ghost predicate Lists(h: seq<HeapEntry>, content: map<nat, Pair>) {
    && (forall k, l :: 0 <= k < l < |h| ==> h[k].idx != h[l].idx)
    && (forall k :: 0 <= k < |h| ==> h[k].idx in content && content[h[k].idx] == h[k].Head())
    && (forall i :: i in content ==> exists k :: 0 <= k < |h| && h[k].idx == i)
  }

  function Swapped(h: seq<HeapEntry>, i: nat, j: nat): seq<HeapEntry>
    requires i < |h| && j < |h|
  {
    h[i := h[j]][j := h[i]]
  }

  lemma SwapLists(h: seq<HeapEntry>, i: nat, j: nat, content: map<nat, Pair>)
    requires Lists(h, content) && i < |h| && j < |h|
    ensures Lists(Swapped(h, i, j), content)
  {
    var g := Swapped(h, i, j);
    forall x | x in content
      ensures exists k :: 0 <= k < |g| && g[k].idx == x
    {
      var k :| 0 <= k < |h| && h[k].idx == x;
      assert g[if k == i then j else if k == j then i else k].idx == x;
    }
  }

  lemma {:induction false} RootIsLeast(h: seq<HeapEntry>, k: nat)
    requires HeapOrdered(h) && k < |h|
    ensures Le(h[0].key, h[k].key)
  {
    if k > 0 {
      RootIsLeast(h, Parent(k));
      LeTransitive(h[0].key, h[Parent(k)].key, h[k].key);
    } else {
      LessIrreflexive(h[0].key);
    }
  }

  // ---------- sifting ----------

  /** Ordered but for the entry at `j`, which may be smaller than its parent. */
  ghost predicate OrderedAbove(h: seq<HeapEntry>, j: nat) {
    && (forall k :: 0 < k < |h| && k != j ==> Le(h[Parent(k)].key, h[k].key))
    && (forall k :: 0 < k < |h| && j > 0 && Parent(k) == j < |h| ==> Le(h[Parent(j)].key, h[k].key))
  }

  lemma SiftUpStep(h: seq<HeapEntry>, j: nat)
    requires 0 < j < |h| && OrderedAbove(h, j) && Less(h[j].key, h[Parent(j)].key)
    ensures OrderedAbove(Swapped(h, Parent(j), j), Parent(j))
  {
    hide Less;
    var i := Parent(j);
    var g := Swapped(h, i, j);
    LessLe(h[j].key, h[i].key);
    forall k | 0 < k < |g| && k != i
      ensures Le(g[Parent(k)].key, g[k].key)
    {
      if k != j && Parent(k) == i {
        assert Le(h[i].key, h[k].key);
        LeTransitive(h[j].key, h[i].key, h[k].key);
      }
    }
    forall k | 0 < k < |g| && i > 0 && Parent(k) == i
      ensures Le(g[Parent(i)].key, g[k].key)
    {
      assert Le(h[Parent(i)].key, h[i].key);
      if k != j {
        LeTransitive(h[Parent(i)].key, h[i].key, h[k].key);
      }
    }
  }

  /** The first `n` entries are ordered, but the one at `i` may be larger than its children. */
  ghost predicate OrderedBelow(h: seq<HeapEntry>, i: nat, n: nat)
    requires n <= |h|
  {
    && (forall k :: 0 < k < n && Parent(k) != i ==> Le(h[Parent(k)].key, h[k].key))
    && (forall k :: 0 < k < n && i > 0 && Parent(k) == i ==> Le(h[Parent(i)].key, h[k].key))
  }

  lemma SiftDownStep(h: seq<HeapEntry>, i: nat, j: nat, n: nat)
    requires 0 < j < n <= |h| && Parent(j) == i && OrderedBelow(h, i, n) && Less(h[j].key, h[i].key)
    requires forall k :: 0 < k < n && Parent(k) == i ==> Le(h[j].key, h[k].key)
    ensures OrderedBelow(Swapped(h, i, j), j, n)
  {
    hide Less;
    var g := Swapped(h, i, j);
    LessLe(h[j].key, h[i].key);
    forall k | 0 < k < n && Parent(k) != j
      ensures Le(g[Parent(k)].key, g[k].key)
    {
      if k != i && Parent(k) == i {
        assert Le(h[j].key, h[k].key);
      } else if k == i {
        assert Le(h[Parent(i)].key, h[j].key);
      }
    }
    forall k | 0 < k < n && Parent(k) == j
      ensures Le(g[Parent(j)].key, g[k].key)
    {
      assert Le(h[Parent(k)].key, h[k].key);
    }
  }

  // ---------- where an entry ends up ----------

  /** `up`: an entry rises while it is smaller than its parent. */
  function SiftUp(h: seq<HeapEntry>, j: nat): (r: seq<HeapEntry>)
    requires j < |h|
    ensures |r| == |h|
    decreases j
  {
    if j > 0 && Less(h[j].key, h[Parent(j)].key) then SiftUp(Swapped(h, Parent(j), j), Parent(j)) else h
  }

  /** The child that an entry is compared with on its way down: the left one, unless the right one is smaller. */
  function Child(h: seq<HeapEntry>, i: nat, n: nat): (j: nat)
    requires 2 * i + 1 < n <= |h|
    ensures i < j < n
  {
    if 2 * i + 2 < n && Less(h[2 * i + 2].key, h[2 * i + 1].key) then 2 * i + 2 else 2 * i + 1
  }

  /** `down`: an entry sinks while that child is smaller. */
  function SiftDown(h: seq<HeapEntry>, i: nat, n: nat): (r: seq<HeapEntry>)
    requires n <= |h|
    ensures |r| == |h| && forall k :: n <= k < |h| ==> r[k] == h[k]
    decreases n - i
  {
    if 2 * i + 1 < n && Less(h[Child(h, i, n)].key, h[i].key)
    then SiftDown(Swapped(h, i, Child(h, i, n)), Child(h, i, n), n)
    else h
  }

  function Pushed(h: seq<HeapEntry>, x: HeapEntry): (r: seq<HeapEntry>)
    ensures |r| == |h| + 1
  {
    SiftUp(h + [x], |h|)
  }

  /** What is left when the root has been swapped with the last entry and taken off. */
  function Popped(h: seq<HeapEntry>): (r: seq<HeapEntry>)
    requires h != []
    ensures |r| == |h| - 1
  {
    var n := |h| - 1;
    SiftDown(Swapped(h, 0, n), 0, n)[..n]
  }

  lemma {:induction false} AncestorsOrdered(h: seq<HeapEntry>, j: nat, k: nat)
    requires OrderedAbove(h, j) && k < j < |h|
    ensures Le(h[0].key, h[k].key)
  {
    hide Less;
    if k > 0 {
      AncestorsOrdered(h, j, Parent(k));
      LeTransitive(h[0].key, h[Parent(k)].key, h[k].key);
    } else {
      LessIrreflexive(h[0].key);
    }
  }

  lemma {:induction false} SiftUpRoot(h: seq<HeapEntry>, j: nat)
    requires j < |h| && OrderedAbove(h, j)
    ensures SiftUp(h, j)[0] == if j > 0 && Less(h[j].key, h[0].key) then h[j] else h[0]
    decreases j
  {
    hide Less, Le, OrderedAbove;
    if j > 0 {
      var i := Parent(j);
      AncestorsOrdered(h, j, i);
      BelowLess(h[j].key, h[0].key, h[i].key);
      if Less(h[j].key, h[i].key) {
        SiftUpStep(h, j);
        SiftUpRoot(Swapped(h, i, j), i);
      }
    }
  }

  lemma BelowLess(a: Bytes, b: Bytes, c: Bytes)
    requires Le(b, c)
    ensures Less(a, b) ==> Less(a, c)
  {
    hide Less;
    if Less(a, b) {
      LessTotal(b, c);
      if Less(b, c) {
        LessTransitive(a, b, c);
      }
    }
  }

  /** An entry comes to the root when it is pushed only if it is smaller: of equal keys the one that was there
      stays in front. */
  lemma PushedRoot(h: seq<HeapEntry>, x: HeapEntry)
    requires HeapOrdered(h)
    ensures Pushed(h, x)[0] == if h == [] || Less(x.key, h[0].key) then x else h[0]
  {
    hide Less, Le;
    SiftUpRoot(h + [x], |h|);
  }

  lemma {:induction false} SiftUpOrdered(h: seq<HeapEntry>, j: nat)
    requires j < |h| && OrderedAbove(h, j)
    ensures HeapOrdered(SiftUp(h, j))
    decreases j
  {
    hide Less, OrderedAbove;
    if j > 0 && Less(h[j].key, h[Parent(j)].key) {
      SiftUpStep(h, j);
      SiftUpOrdered(Swapped(h, Parent(j), j), Parent(j));
    } else {
      AboveNothing(h, j);
    }
  }

  lemma PushedOrdered(h: seq<HeapEntry>, x: HeapEntry)
    requires HeapOrdered(h)
    ensures HeapOrdered(Pushed(h, x))
  {
    hide Less;
    SiftUpOrdered(h + [x], |h|);
  }

  lemma {:induction false} SiftDownKeeps(h: seq<HeapEntry>, i: nat, n: nat, k: nat)
    requires n <= |h| && k < i && k < |h|
    ensures SiftDown(h, i, n)[k] == h[k]
    decreases n - i
  {
    hide Less;
    if 2 * i + 1 < n && Less(h[Child(h, i, n)].key, h[i].key) {
      SiftDownKeeps(Swapped(h, i, Child(h, i, n)), Child(h, i, n), n, k);
    }
  }

  /** After a pop the last entry stands at the root, unless a child of the root is smaller; of its children
      the right one only when it is smaller than the left one. */
  lemma PoppedRoot(h: seq<HeapEntry>)
    requires |h| >= 2
    ensures var n := |h| - 1;
            var c := if 2 < n && Less(h[2].key, h[1].key) then h[2] else h[1];
            Popped(h)[0] == if 1 < n && Less(c.key, h[n].key) then c else h[n]
  {
    hide Less;
    var n := |h| - 1;
    var g := Swapped(h, 0, n);
    if 1 < n && Less(g[Child(g, 0, n)].key, g[0].key) {
      SiftDownKeeps(Swapped(g, 0, Child(g, 0, n)), Child(g, 0, n), n, 0);
    }
  }

  // ---------- the heap ----------

  class Heap {
    var items: seq<HeapEntry>
    ghost var content: map<nat, Pair>

    ghost predicate Valid()
      reads this
    {
      HeapOrdered(items) && Lists(items, content)
    }

    constructor ()
      ensures Valid() && items == [] && content == map[]
    {
      items, content := [], map[];
    }

    method Push(x: HeapEntry)
      requires Valid() && x.idx !in content
      modifies this
      ensures Valid() && content == old(content)[x.idx := x.Head()]
      ensures items == Pushed(old(items), x)
    {
      hide Less, Le;
      ghost var before := items;
      content := content[x.idx := x.Head()];
      items := items + [x];
      assert Lists(items, content) by { PushLists(before, x, old(content)); }
      Up(|items| - 1);
    }

    method Up(start: nat)
      requires start < |items| && OrderedAbove(items, start) && Lists(items, content)
      modifies `items
      ensures Valid() && items == SiftUp(old(items), start)
    {
      hide Less, Lists, OrderedAbove;
      var j: nat := start;
      while j > 0 && Less(items[j].key, items[Parent(j)].key)
        invariant j < |items| && OrderedAbove(items, j) && Lists(items, content)
        invariant SiftUp(items, j) == SiftUp(old(items), start)
      {
        var i := Parent(j);
        SiftUpStep(items, j);
        SwapLists(items, i, j, content);
        items := Swapped(items, i, j);
        j := i;
      }
      assert HeapOrdered(items) by { AboveNothing(items, j); }
    }

    /** Takes out an entry with a least key. */
    method Pop() returns (e: HeapEntry)
      requires Valid() && items != []
      modifies this
      ensures Valid() && e == old(items[0]) && items == Popped(old(items))
      ensures e.idx in old(content) && e.Head() == old(content)[e.idx]
      ensures content == old(content) - {e.idx}
      ensures forall i :: i in old(content) ==> Le(e.key, old(content)[i].key)
    {
      hide Less, Le, HeapOrdered, OrderedBelow, Lists;
      var n := |items| - 1;
      LeastOfAll(items, content);
      SwapLists(items, 0, n, content);
      SwapRoot(items);
      items := Swapped(items, 0, n);
      Down(0, n);
      e := items[n];
      PopLists(items, content);
      content := content - {e.idx};
      items := items[..n];
    }

    method Down(start: nat, n: nat)
      requires n < |items| && OrderedBelow(items, start, n) && Lists(items, content) && start == 0
      modifies `items
      ensures |items| == old(|items|) && items[n] == old(items[n]) && Lists(items, content)
      ensures HeapOrdered(items[..n]) && items == SiftDown(old(items), start, n)
    {
      hide Less, Lists, OrderedBelow;
      var i: nat := start;
      while true
        invariant |items| == old(|items|) && items[n] == old(items[n]) && Lists(items, content)
        invariant OrderedBelow(items, i, n) && SiftDown(items, i, n) == SiftDown(old(items), start, n)
        decreases n - i
      {
        var j := 2 * i + 1;
        if j >= n {
          break;
        }
        if j + 1 < n && Less(items[j + 1].key, items[j].key) {
          j := j + 1;
        }
        LeastChild(items, i, j, n);
        if !Less(items[j].key, items[i].key) {
          assert OrderedBelow(items, n, n) by { BelowDone(items, i, j, n); }
          i := n;
          break;
        }
        SiftDownStep(items, i, j, n);
        SwapLists(items, i, j, content);
        items := Swapped(items, i, j);
        i := j;
      }
      BelowNothing(items, i, n);
    }
  }

  lemma PushLists(h: seq<HeapEntry>, x: HeapEntry, content: map<nat, Pair>)
    requires Lists(h, content) && x.idx !in content
    ensures Lists(h + [x], content[x.idx := x.Head()])
  {
    var g := h + [x];
    assert g[|h|] == x;
    forall i | i in content
      ensures exists k :: 0 <= k < |g| && g[k].idx == i
    {
      var k :| 0 <= k < |h| && h[k].idx == i;
      assert g[k].idx == i;
    }
  }

  lemma PopLists(h: seq<HeapEntry>, content: map<nat, Pair>)
    requires Lists(h, content) && h != []
    ensures h[|h| - 1].idx in content && content[h[|h| - 1].idx] == h[|h| - 1].Head()
    ensures Lists(h[..|h| - 1], content - {h[|h| - 1].idx})
  {
    var n := |h| - 1;
    forall i | i in content && i != h[n].idx
      ensures exists k :: 0 <= k < n && h[..n][k].idx == i
    {
      var k :| 0 <= k < |h| && h[k].idx == i;
      assert h[..n][k].idx == i;
    }
  }

  lemma LeastOfAll(h: seq<HeapEntry>, content: map<nat, Pair>)
    requires HeapOrdered(h) && Lists(h, content) && h != []
    ensures forall i :: i in content ==> Le(h[0].key, content[i].key)
  {
    forall i | i in content
      ensures Le(h[0].key, content[i].key)
    {
      var k :| 0 <= k < |h| && h[k].idx == i;
      RootIsLeast(h, k);
    }
  }

  lemma SwapRoot(h: seq<HeapEntry>)
    requires HeapOrdered(h) && h != []
    ensures OrderedBelow(Swapped(h, 0, |h| - 1), 0, |h| - 1)
    ensures Swapped(h, 0, |h| - 1)[|h| - 1] == h[0]
  {
  }

  lemma AboveNothing(h: seq<HeapEntry>, j: nat)
    requires OrderedAbove(h, j) && j < |h| && (j > 0 ==> Le(h[Parent(j)].key, h[j].key))
    ensures HeapOrdered(h)
  {
  }

  lemma LeastChild(h: seq<HeapEntry>, i: nat, j: nat, n: nat)
    requires 2 * i + 1 < n <= |h|
    requires j == if 2 * i + 2 < n && Less(h[2 * i + 2].key, h[2 * i + 1].key) then 2 * i + 2 else 2 * i + 1
    ensures Parent(j) == i && forall k :: 0 < k < n && Parent(k) == i ==> Le(h[j].key, h[k].key)
  {
    hide Less;
    LessIrreflexive(h[j].key);
    forall k | 0 < k < n && Parent(k) == i
      ensures Le(h[j].key, h[k].key)
    {
      assert k == 2 * i + 1 || k == 2 * i + 2;
      if j == 2 * i + 2 {
        LessLe(h[j].key, h[2 * i + 1].key);
      }
    }
  }

  lemma BelowDone(h: seq<HeapEntry>, i: nat, j: nat, n: nat)
    requires n <= |h| && OrderedBelow(h, i, n) && i < n && 0 < j < n && Le(h[i].key, h[j].key)
    requires forall k :: 0 < k < n && Parent(k) == i ==> Le(h[j].key, h[k].key)
    ensures OrderedBelow(h, n, n)
  {
    hide Less, Le;
    forall k | 0 < k < n && Parent(k) == i
      ensures Le(h[i].key, h[k].key)
    {
      LeTransitive(h[i].key, h[j].key, h[k].key);
    }
  }

  lemma BelowNothing(h: seq<HeapEntry>, i: nat, n: nat)
    requires n <= |h| && OrderedBelow(h, i, n) && 2 * i + 1 >= n
    ensures HeapOrdered(h[..n])
  {
  }
}
