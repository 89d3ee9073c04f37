/** Which tables a compaction picks, and when there is nothing left to pick
    (the policy of pkg/compaction/compaction.go). */
module Compaction {
  import opened Bytes

  /** A path names a file; a size is what `Stat` or the registering caller says. */
  datatype TableInfo = TableInfo(path: string, size: int, level: nat, numEntries: nat)

  datatype Strategy = SizeTiered | Leveled | UnknownStrategy

  ghost predicate DistinctPaths(ts: seq<TableInfo>) {
    forall i, j :: 0 <= i < j < |ts| ==> ts[i].path != ts[j].path
  }

  function Paths(ts: seq<TableInfo>): set<string> {
    set t | t in ts :: t.path
  }

  function Level0(ts: seq<TableInfo>): seq<TableInfo> {
    if ts == [] then []
    else Level0(ts[..|ts| - 1]) + if ts[|ts| - 1].level == 0 then [ts[|ts| - 1]] else []
  }

  // ---------- sorting by size ----------

  ghost predicate BySize(ts: seq<TableInfo>) {
    forall i, j :: 0 <= i < j < |ts| ==> ts[i].size <= ts[j].size
  }

  /** What `sort.Slice` promises; the order of equal sizes stays open. */
  ghost predicate SortedFrom(order: seq<TableInfo>, ts: seq<TableInfo>) {
    BySize(order) && multiset(order) == multiset(ts)
  }

  /** Stands for `sort.Slice`: callers rely on its contract only. */
  method SortBySize(ts: seq<TableInfo>) returns (order: seq<TableInfo>)
    ensures SortedFrom(order, ts)
  {
    hide SortedFrom;
    order := [];
    var n := 0;
    assert SortedFrom(order, ts[..n]) by { NoneSorted(ts); }
    while n < |ts|
      invariant n <= |ts| && SortedFrom(order, ts[..n])
    {
      var i := 0;
      while i < |order| && order[i].size <= ts[n].size
        invariant i <= |order|
        invariant forall k :: 0 <= k < i ==> order[k].size <= ts[n].size
      {
        i := i + 1;
      }
      InsertBySize(order, ts, n, i);
      order := order[..i] + [ts[n]] + order[i..];
      n := n + 1;
    }
    assert ts[..n] == ts;
  }

  lemma NoneSorted(ts: seq<TableInfo>)
    ensures SortedFrom([], ts[..0])
  {
  }

  lemma InsertBySize(order: seq<TableInfo>, ts: seq<TableInfo>, n: nat, i: nat)
    requires n < |ts| && i <= |order| && SortedFrom(order, ts[..n])
    requires forall k :: 0 <= k < i ==> order[k].size <= ts[n].size
    requires i < |order| ==> ts[n].size < order[i].size
    ensures SortedFrom(order[..i] + [ts[n]] + order[i..], ts[..n + 1])
  {
    InsertedMultiset(order, ts[n], i);
    assert ts[..n + 1] == ts[..n] + [ts[n]];
    var longer := order[..i] + [ts[n]] + order[i..];
    assert forall k :: 0 <= k < |longer| ==>
             longer[k] == if k < i then order[k] else if k == i then ts[n] else order[k - 1];
  }

  lemma InsertedMultiset<T>(s: seq<T>, x: T, i: nat)
    requires i <= |s|
    ensures multiset(s[..i] + [x] + s[i..]) == multiset(s) + multiset{x}
  {
    assert s == s[..i] + s[i..];
  }

  /** A reordering of tables with distinct paths has them too, and holds the same tables. */
  lemma Reordered(order: seq<TableInfo>, ts: seq<TableInfo>)
    requires DistinctPaths(ts) && multiset(order) == multiset(ts)
    ensures DistinctPaths(order) && |order| == |ts| && forall t :: t in order <==> t in ts
  {
    SameTables(order, ts);
    forall i, j | 0 <= i < j < |order|
      ensures order[i].path != order[j].path
    {
      ApartInOrder(order, ts, i, j);
    }
  }

  lemma SameTables(order: seq<TableInfo>, ts: seq<TableInfo>)
    requires multiset(order) == multiset(ts)
    ensures |order| == |ts| && forall t :: t in order <==> t in ts
  {
    assert |order| == |multiset(order)| == |ts|;
    forall t
      ensures t in order <==> t in ts
    {
      assert t in order <==> t in multiset(order);
      assert t in ts <==> t in multiset(ts);
    }
  }

  lemma ApartInOrder(order: seq<TableInfo>, ts: seq<TableInfo>, i: nat, j: nat)
    requires DistinctPaths(ts) && multiset(order) == multiset(ts) && i < j < |order|
    ensures order[i].path != order[j].path
  {
    SameTables(order, ts);
    Twice(order, i, j);
    assert order[i] in order && order[j] in order;
    var x :| 0 <= x < |ts| && ts[x] == order[i];
    OnlyOnce(ts, x);
  }

  lemma Twice(s: seq<TableInfo>, i: nat, j: nat)
    requires i < j < |s|
    ensures s[i] == s[j] ==> multiset(s)[s[i]] >= 2
  {
    assert s == s[..j] + s[j..];
    assert s[j] in s[j..] && s[..j][i] == s[i];
  }

  lemma OnlyOnce(ts: seq<TableInfo>, x: nat)
    requires DistinctPaths(ts) && x < |ts|
    ensures multiset(ts)[ts[x]] == 1
  {
    assert ts == ts[..x] + ([ts[x]] + ts[x + 1..]);
    assert ts[x] !in ts[..x] && ts[x] !in ts[x + 1..];
  }

  // ---------- the selections ----------

  /** Each table more than twice the size of the one before: no two are of similar size. */
  ghost predicate Doubling(order: seq<TableInfo>) {
    forall k :: 0 <= k < |order| - 1 ==> 2 * order[k].size < order[k + 1].size
  }

  /** `group` is the longest run of up to four tables within twice the size of its first, and that
      first is the smallest table with another one so close. */
  ghost predicate GroupAt(order: seq<TableInfo>, at: nat, group: seq<TableInfo>) {
    && 2 <= |group| <= 4 && at + |group| <= |order| && group == order[at..at + |group|]
    && (forall k :: 0 <= k < at ==> 2 * order[k].size < order[k + 1].size)
    && (forall k :: at <= k < at + |group| ==> order[k].size <= 2 * order[at].size || k == at)
    && (|group| < 4 && at + |group| < |order| ==> 2 * order[at].size < order[at + |group|].size)
  }

  method SelectSizeTiered(ts: seq<TableInfo>) returns (group: seq<TableInfo>)
    ensures group == [] ==> exists order :: SortedFrom(order, ts) && Doubling(order)
    ensures group != [] ==> exists order, at :: SortedFrom(order, ts) && GroupAt(order, at, group)
  {
    var sorted := SortBySize(ts);
    assert |sorted| == |multiset(sorted)| == |ts|;
    if |ts| < 2 {
      return [];
    }
    var i := 0;
    while i < |sorted| - 1
      invariant i <= |sorted| - 1
      invariant forall k :: 0 <= k < i ==> 2 * sorted[k].size < sorted[k + 1].size
    {
      group := CloseTo(sorted, i);
      if |group| >= 2 {
        assert GroupAt(sorted, i, group);
        return;
      }
      i := i + 1;
    }
    group := [];
    assert Doubling(sorted);
  }

  /** No sorted order of the same tables is doubling when another one has a group. */
  lemma GroupOrDoubling(ts: seq<TableInfo>, order: seq<TableInfo>, at: nat, group: seq<TableInfo>,
                        other: seq<TableInfo>)
    requires SortedFrom(order, ts) && GroupAt(order, at, group) && SortedFrom(other, ts)
    ensures !Doubling(other)
  {
    SameSizes(order, other, at);
    SameSizes(order, other, at + 1);
  }

  /** Two sorted orders of the same tables have the same sizes place by place. */
  lemma SameSizes(a: seq<TableInfo>, b: seq<TableInfo>, i: nat)
    requires BySize(a) && BySize(b) && multiset(a) == multiset(b) && i < |a|
    ensures |a| == |b| && a[i].size == b[i].size
  {
    assert |a| == |multiset(a)| == |multiset(b)| == |b|;
    NotSmaller(a, b, i);
    NotSmaller(b, a, i);
  }

  /** The first i + 1 tables of `b` are no larger than b[i]; were a[i] larger, they would all have to
      stand among the first i of `a`. */
  lemma NotSmaller(a: seq<TableInfo>, b: seq<TableInfo>, i: nat)
    requires BySize(a) && BySize(b) && multiset(a) == multiset(b) && i < |a| == |b|
    ensures a[i].size <= b[i].size
  {
    if a[i].size > b[i].size {
      assert a == a[..i] + a[i..] && b == b[..i + 1] + b[i + 1..];
      var low, rest := multiset(b[..i + 1]), multiset(a[i..]);
      forall t
        ensures low[t] <= multiset(a[..i])[t]
      {
        if t in low {
          assert t in b[..i + 1];
          assert t !in a[i..];
          assert t !in rest;
        }
        assert multiset(a)[t] == multiset(a[..i])[t] + rest[t];
      }
      assert low <= multiset(a[..i]);
      SubsetCount(low, multiset(a[..i]));
      assert false;
    }
  }

  lemma SubsetCount<T>(a: multiset<T>, b: multiset<T>)
    requires a <= b
    ensures |a| <= |b|
  {
    assert b == a + (b - a);
  }

  /** The inner loop: from the i-th table on, up to four tables within twice its size. */
  method CloseTo(sorted: seq<TableInfo>, i: nat) returns (group: seq<TableInfo>)
    requires BySize(sorted) && i < |sorted|
    ensures 1 <= |group| <= 4 && i + |group| <= |sorted| && group == sorted[i..i + |group|]
    ensures forall k :: i < k < i + |group| ==> sorted[k].size <= 2 * sorted[i].size
    ensures |group| < 4 && i + |group| < |sorted| ==> 2 * sorted[i].size < sorted[i + |group|].size
  {
    group := [sorted[i]];
    OneSlice(sorted, i);
    var j := i + 1;
    while j < |sorted| && |group| < 4
      invariant i < j <= |sorted| && 1 <= |group| <= 4 && i + |group| <= j
      invariant group == sorted[i..i + |group|]
      invariant forall k :: i < k < i + |group| ==> sorted[k].size <= 2 * sorted[i].size
      invariant i + |group| < j ==> 2 * sorted[i].size < sorted[i + |group|].size
    {
      if sorted[j].size <= 2 * sorted[i].size {
        SliceGrows(sorted, i, j);
        group := group + [sorted[j]];
      }
      j := j + 1;
    }
  }

  lemma SliceGrows<T>(s: seq<T>, i: nat, j: nat)
    requires i <= j < |s|
    ensures s[i..j] + [s[j]] == s[i..j + 1]
  {
  }

  method CountLevel0(ts: seq<TableInfo>) returns (count: nat)
    ensures count == |Level0(ts)|
  {
    count := 0;
    var i := 0;
    while i < |ts|
      invariant i <= |ts| && count == |Level0(ts[..i])|
    {
      assert ts[..i + 1][..i] == ts[..i];
      if ts[i].level == 0 {
        count := count + 1;
      }
      i := i + 1;
    }
    assert ts[..i] == ts;
  }

  method SelectLeveled(ts: seq<TableInfo>) returns (group: seq<TableInfo>)
    ensures group == if |Level0(ts)| >= 4 then Level0(ts)[..4] else []
  {
    var level0 := [];
    var i := 0;
    while i < |ts|
      invariant i <= |ts| && level0 == Level0(ts[..i])
    {
      assert ts[..i + 1][..i] == ts[..i];
      if ts[i].level == 0 {
        level0 := level0 + [ts[i]];
      }
      i := i + 1;
    }
    assert ts[..i] == ts;
    return if |level0| >= 4 then level0[..4] else [];
  }

  /** Whoever is picked is picked in order: what comes of two lists joined is what comes of each. */
  lemma {:induction false} PicksInOrder(a: seq<TableInfo>, b: seq<TableInfo>, gone: set<string>)
    ensures Level0(a + b) == Level0(a) + Level0(b) && Remaining(a + b, gone) == Remaining(a, gone) + Remaining(b, gone)
  {
    if b == [] {
      assert a + b == a;
    } else {
      var init, t := b[..|b| - 1], b[|b| - 1];
      PicksInOrder(a, init, gone);
      assert (a + b)[..|a + b| - 1] == a + init;
      Concat3(Level0(a), Level0(init), if t.level == 0 then [t] else []);
      Concat3(Remaining(a, gone), Remaining(init, gone), if t.path in gone then [] else [t]);
    }
  }

  /** The tables at level 0 are exactly those, and so distinct. */
  lemma {:induction false} Level0IsSub(ts: seq<TableInfo>)
    requires DistinctPaths(ts)
    ensures DistinctPaths(Level0(ts))
    ensures forall t :: t in Level0(ts) <==> t in ts && t.level == 0
  {
    if ts != [] {
      Level0IsSub(ts[..|ts| - 1]);
      var init := Level0(ts[..|ts| - 1]);
      forall i | 0 <= i < |init|
        ensures init[i].path != ts[|ts| - 1].path
      {
        assert init[i] in init && init[i] in ts[..|ts| - 1];
      }
    }
  }

  /** One above the highest level of the group. */
  ghost predicate NextLevel(ts: seq<TableInfo>, level: nat) {
    && level >= 1 && (forall t :: t in ts ==> t.level < level)
    && (level > 1 ==> exists t :: t in ts && t.level == level - 1)
  }

  method CalculateNewLevel(ts: seq<TableInfo>) returns (level: nat)
    ensures NextLevel(ts, level)
  {
    var maxLevel := 0;
    var i := 0;
    while i < |ts|
      invariant i <= |ts|
      invariant forall k :: 0 <= k < i ==> ts[k].level <= maxLevel
      invariant maxLevel > 0 ==> exists t :: t in ts && t.level == maxLevel
    {
      if ts[i].level > maxLevel {
        maxLevel := ts[i].level;
      }
      i := i + 1;
    }
    return maxLevel + 1;
  }

  /** The tables whose path is not in `gone`. */
  function Remaining(ts: seq<TableInfo>, gone: set<string>): seq<TableInfo> {
    if ts == [] then []
    else Remaining(ts[..|ts| - 1], gone) + if ts[|ts| - 1].path in gone then [] else [ts[|ts| - 1]]
  }

  /** The last of the tables adds one path. */
  lemma LastPath(ts: seq<TableInfo>)
    requires DistinctPaths(ts) && ts != []
    ensures var init, last := ts[..|ts| - 1], ts[|ts| - 1];
            && DistinctPaths(init) && (forall t :: t in init ==> t.path != last.path)
            && Paths(ts) == Paths(init) + {last.path} && last.path !in Paths(init)
            && (forall t :: t in ts <==> t in init || t == last)
  {
    assert ts == ts[..|ts| - 1] + [ts[|ts| - 1]];
  }

  lemma DistinctSnoc(ts: seq<TableInfo>, t: TableInfo)
    requires DistinctPaths(ts) && forall u :: u in ts ==> u.path != t.path
    ensures DistinctPaths(ts + [t])
  {
    forall i | 0 <= i < |ts|
      ensures (ts + [t])[i].path != t.path
    {
      assert ts[i] in ts;
    }
  }

  lemma {:induction false} RemainingIs(ts: seq<TableInfo>, gone: set<string>)
    requires DistinctPaths(ts)
    ensures DistinctPaths(Remaining(ts, gone))
    ensures forall t :: t in Remaining(ts, gone) <==> t in ts && t.path !in gone
  {
    if ts != [] {
      hide DistinctPaths, Paths;
      LastPath(ts);
      RemainingIs(ts[..|ts| - 1], gone);
      DistinctSnoc(Remaining(ts[..|ts| - 1], gone), ts[|ts| - 1]);
    }
  }

  lemma {:induction false} RemainingCount(ts: seq<TableInfo>, gone: set<string>)
    requires DistinctPaths(ts)
    ensures |Remaining(ts, gone)| + |Paths(ts) * gone| == |ts|
  {
    if ts == [] {
      assert Paths(ts) * gone == {};
    } else {
      hide DistinctPaths, Paths;
      LastPath(ts);
      RemainingCount(ts[..|ts| - 1], gone);
      CommonSnoc(Paths(ts[..|ts| - 1]), ts[|ts| - 1].path, gone);
    }
  }

  lemma CommonSnoc<T>(a: set<T>, x: T, b: set<T>)
    requires x !in a
    ensures |(a + {x}) * b| == |a * b| + if x in b then 1 else 0
  {
    if x in b {
      assert (a + {x}) * b == a * b + {x};
    } else {
      assert (a + {x}) * b == a * b;
    }
  }

  lemma {:induction false} PathsCount(ts: seq<TableInfo>)
    requires DistinctPaths(ts)
    ensures |Paths(ts)| == |ts|
  {
    if ts != [] {
      hide DistinctPaths, Paths;
      LastPath(ts);
      PathsCount(ts[..|ts| - 1]);
    }
  }

  /** A round that replaces a group by one table leaves fewer tables, one for each missing. */
  lemma RoundCount(ts: seq<TableInfo>, group: seq<TableInfo>)
    requires DistinctPaths(ts) && DistinctPaths(group) && forall t :: t in group ==> t in ts
    ensures |Remaining(ts, Paths(group))| + |group| == |ts|
  {
    RemainingCount(ts, Paths(group));
    PathsCount(group);
    assert Paths(ts) * Paths(group) == Paths(group);
  }

  // ---------- the bound ----------

  function Pow2(n: nat): (r: nat)
    ensures r >= 1
  {
    if n == 0 then 1 else 2 * Pow2(n - 1)
  }

  /** When no two sizes are similar, the sizes grow faster than the powers of two. */
  lemma {:induction false} DoublingGrows(order: seq<TableInfo>, k: nat)
    requires Doubling(order) && 0 < k < |order|
    ensures order[k].size > Pow2(k) * order[0].size
  {
    if k > 1 {
      DoublingGrows(order, k - 1);
      assert Pow2(k) * order[0].size == 2 * (Pow2(k - 1) * order[0].size);
    } else {
      assert Pow2(1) == 2;
    }
  }

  lemma {:induction false} Pow2Monotone(a: nat, b: nat)
    requires a <= b
    ensures Pow2(a) <= Pow2(b)
  {
    if a < b {
      Pow2Monotone(a, b - 1);
    }
  }

  /** So at most 63 tables of positive 64-bit sizes can stand side by side uncompacted. */
  lemma QuietBound(order: seq<TableInfo>)
    requires Doubling(order) && |order| >= 2 && order[0].size > 0
    ensures order[|order| - 1].size > Pow2(|order| - 1) * order[0].size
    ensures order[|order| - 1].size < I63 ==> |order| <= 63
  {
    var n := |order| - 1;
    DoublingGrows(order, n);
    assert Pow2(n) * order[0].size >= Pow2(n) by { Times(Pow2(n), order[0].size); }
    if n >= 63 {
      Pow2Monotone(63, n);
      PowerOf63();
    }
  }

  lemma Times(a: nat, b: nat)
    requires b >= 1
    ensures a * b >= a
  {
  }

  lemma PowerOf63()
    ensures Pow2(63) == I63
  {
    assert Pow2(8) == 0x100;
    assert Pow2(16) == 0x1_0000;
    assert Pow2(24) == 0x100_0000;
    assert Pow2(32) == U32;
    assert Pow2(40) == 0x100 * U32;
    assert Pow2(48) == 0x1_0000 * U32;
    assert Pow2(56) == 0x100_0000 * U32;
  }
}
