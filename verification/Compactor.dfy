/** The compactor at work on a disk (pkg/compaction/compaction.go): what one round does to the tables,
    and what repeated rounds keep and where they end. */
module Compactor {
  import opened Bytes
  import opened Sstable
  import opened SstableReads
  import opened SstableFile
  import opened SstableWriter
  import opened MergeHeap
  import opened Merger
  import opened Compaction

  type Disk = map<string, Bytes>

  datatype World = World(disk: Disk, tables: seq<TableInfo>)

  function FileAt(disk: Disk, path: string): Option<Bytes> {
    if path in disk then Some(disk[path]) else None
  }

  /** The pairs a merge gets from a file: none when it is missing or does not read. */
  function ContentOf(lib: Library, disk: Disk, path: string): seq<Pair> {
    InputOf(FoundIn(lib, FileAt(disk, path)))
  }

  function Files(disk: Disk, ts: seq<TableInfo>): (r: seq<Option<Bytes>>)
    ensures |r| == |ts|
  {
    seq(|ts|, i requires 0 <= i < |ts| => FileAt(disk, ts[i].path))
  }

  function Founds(lib: Library, disk: Disk, ts: seq<TableInfo>): (r: seq<Option<seq<Pair>>>)
    ensures |r| == |ts|
  {
    FoundsIn(lib, Files(disk, ts))
  }

  /** `p` stands in one of the tables. */
  ghost predicate Stands(lib: Library, w: World, p: Pair) {
    exists t :: t in w.tables && p in ContentOf(lib, w.disk, t.path)
  }

  /** No key stands in two tables. */
  ghost predicate DisjointTables(lib: Library, w: World) {
    forall t, u, p, q | t in w.tables && u in w.tables && t.path != u.path
                        && p in ContentOf(lib, w.disk, t.path) && q in ContentOf(lib, w.disk, u.path) :: p.key != q.key
  }

  /** Every sorted list of the tables' pairs is small enough for one file. */
  ghost predicate FitTogether(lib: Library, w: World) {
    forall ps :: Sorted(ps) && (forall n :: 0 <= n < |ps| ==> Stands(lib, w, ps[n])) ==> FileFits(lib, ps)
  }

  /** Tables with distinct paths, each of them sorted, and small enough together for one file. */
  ghost predicate Sound(lib: Library, w: World) {
    && GobRoundTrips(lib) && DistinctPaths(w.tables) && FitTogether(lib, w)
    && (forall t :: t in w.tables ==> t.path in w.disk && Sorted(ContentOf(lib, w.disk, t.path)))
  }

  lemma NoTablesAreSound(lib: Library, disk: Disk)
    requires GobRoundTrips(lib) && FileFits(lib, [])
    ensures Sound(lib, World(disk, []))
  {
    hide FileFits;
    forall ps: seq<Pair> | Sorted(ps) && (forall n :: 0 <= n < |ps| ==> Stands(lib, World(disk, []), ps[n]))
      ensures FileFits(lib, ps)
    {
      assert ps != [] ==> Stands(lib, World(disk, []), ps[0]);
    }
  }

  /** What registering a table must be given to keep the tables sound, exactly. */
  lemma RegisteringKeepsSound(lib: Library, w: World, t: TableInfo)
    requires Sound(lib, w)
    ensures var w' := w.(tables := w.tables + [t]);
            Sound(lib, w') <==>
              && (forall u :: u in w.tables ==> u.path != t.path)
              && t.path in w.disk && Sorted(ContentOf(lib, w.disk, t.path)) && FitTogether(lib, w')
  {
    hide FitTogether, Sorted, ContentOf;
    var w' := w.(tables := w.tables + [t]);
    assert w'.tables[|w.tables|] == t;
    if DistinctPaths(w'.tables) {
      forall u | u in w.tables
        ensures u.path != t.path
      {
        var i :| 0 <= i < |w.tables| && w.tables[i] == u;
        assert w'.tables[i] == u;
      }
    }
    if forall u :: u in w.tables ==> u.path != t.path {
      DistinctSnoc(w.tables, t);
    }
  }

  /** A disk with one table of one pair, for instance, is sound. */
  lemma OneTableIsSound(lib: Library, path: string, p: Pair)
    requires GobRoundTrips(lib) && p.value != [] && FileFits(lib, []) && FileFits(lib, [p])
    ensures Sound(lib, World(map[path := FileBytes(lib, [p])], [TableInfo(path, |FileBytes(lib, [p])|, 0, 1)]))
  {
    hide FileFits, FileBytes, ContentOf;
    var w := World(map[path := FileBytes(lib, [p])], [TableInfo(path, |FileBytes(lib, [p])|, 0, 1)]);
    WrittenContent(lib, w.disk, path, [p]);
    forall ps: seq<Pair> | Sorted(ps) && (forall n :: 0 <= n < |ps| ==> Stands(lib, w, ps[n]))
      ensures FileFits(lib, ps)
    {
      forall n | 0 <= n < |ps|
        ensures ps[n] == p
      {
        assert Stands(lib, w, ps[n]);
      }
      LessIrreflexive(p.key);
      assert |ps| > 1 ==> Less(ps[0].key, ps[1].key);
      assert ps == [] || ps == [p];
    }
  }

  // ---------- one table ----------

  ghost predicate AllLive(ps: seq<Pair>) {
    forall n :: 0 <= n < |ps| ==> ps[n].value != []
  }

  lemma {:induction false} ScanBlockIsLive(b: Bytes, at: nat)
    requires at <= |b|
    ensures AllLive(ScanBlock(b, at))
    decreases |b| - at
  {
    hide ReadPair;
    var p := ReadPair(b, at);
    if p.Some? {
      ScanBlockIsLive(b, p.value.next);
    }
  }

  lemma {:induction false} ScanIsLive(lib: Library, file: Bytes, index: seq<IndexEntry>, n: nat)
    requires n <= |index| && Scan(lib, file, index, n).Ok?
    ensures AllLive(Scan(lib, file, index, n).value)
  {
    hide ReadBlock, ScanBlock;
    if n > 0 {
      ScanIsLive(lib, file, index, n - 1);
      ScanBlockIsLive(ReadBlock(lib, file, index[n - 1]).value, 0);
    }
  }

  /** A scan never delivers a tombstone, whatever the file. */
  lemma ContentIsLive(lib: Library, disk: Disk, path: string)
    ensures AllLive(ContentOf(lib, disk, path))
  {
    hide Open, Scan;
    if path in disk && Open(lib, disk[path]).Ok? {
      var o := Open(lib, disk[path]).value;
      if Scan(lib, disk[path], o.index, |o.index|).Ok? {
        ScanIsLive(lib, disk[path], o.index, |o.index|);
      }
    }
  }

  lemma {:induction false} LiveOfLive(ps: seq<Pair>)
    requires AllLive(ps)
    ensures Live(ps) == ps
  {
    if ps != [] {
      LiveOfLive(ps[..|ps| - 1]);
    }
  }

  /** A written table without tombstones reads back whole. */
  lemma WrittenContent(lib: Library, disk: Disk, path: string, ps: seq<Pair>)
    requires GobRoundTrips(lib) && FileFits(lib, ps) && AllLive(ps)
    requires path in disk && disk[path] == FileBytes(lib, ps)
    ensures ContentOf(lib, disk, path) == ps
  {
    hide Open, Scan, Live, FileBytes;
    ScanCorrect(lib, ps);
    LiveOfLive(ps);
  }

  // ---------- one round on values ----------

  lemma GroupInputs(lib: Library, w: World, group: seq<TableInfo>)
    requires Sound(lib, w) && DistinctPaths(group) && forall t :: t in group ==> t in w.tables
    ensures var inputs := InputsOf(Founds(lib, w.disk, group));
            && |inputs| == |group|
            && (forall i :: 0 <= i < |group| ==> inputs[i] == ContentOf(lib, w.disk, group[i].path))
            && AllSorted(inputs)
            && (DisjointTables(lib, w) ==> Disjoint(inputs))
  {
    hide LivePairs, Sorted;
    var inputs := InputsOf(Founds(lib, w.disk, group));
    forall i | 0 <= i < |group|
      ensures inputs[i] == ContentOf(lib, w.disk, group[i].path) && Sorted(inputs[i])
    {
      assert group[i] in w.tables;
    }
    if DisjointTables(lib, w) {
      forall i, j, k, l | 0 <= i < k < |inputs| && 0 <= j < |inputs[i]| && 0 <= l < |inputs[k]|
        ensures inputs[i][j].key != inputs[k][l].key
      {
        assert group[i] in w.tables && group[k] in w.tables;
        assert inputs[i][j] in ContentOf(lib, w.disk, group[i].path);
        assert inputs[k][l] in ContentOf(lib, w.disk, group[k].path);
      }
    }
  }

  /** A pair of the merged inputs stands in a table of the group. */
  lemma MergedHolds(lib: Library, w: World, group: seq<TableInfo>, merged: seq<Pair>, n: nat)
    requires Sound(lib, w) && DistinctPaths(group) && forall t :: t in group ==> t in w.tables
    requires MergedFrom(InputsOf(Founds(lib, w.disk, group)), merged) && n < |merged|
    ensures merged[n].value != [] && Stands(lib, w, merged[n])
    ensures exists t :: t in group && merged[n] in ContentOf(lib, w.disk, t.path)
  {
    hide Sorted, Disjoint, LivePairs, ContentOf;
    GroupInputs(lib, w, group);
    var inputs := InputsOf(Founds(lib, w.disk, group));
    assert InSome(inputs, merged[n]);
    var i, j :| 0 <= i < |inputs| && 0 <= j < |inputs[i]| && inputs[i][j] == merged[n];
    ContentIsLive(lib, w.disk, group[i].path);
    assert group[i] in group && merged[n] in ContentOf(lib, w.disk, group[i].path);
  }

  lemma MergedFits(lib: Library, w: World, group: seq<TableInfo>, merged: seq<Pair>)
    requires Sound(lib, w) && DistinctPaths(group) && forall t :: t in group ==> t in w.tables
    requires MergedFrom(InputsOf(Founds(lib, w.disk, group)), merged)
    ensures AllLive(merged) && FileFits(lib, merged)
  {
    hide Sorted, Disjoint, Stands, FileFits, InputsOf;
    forall n | 0 <= n < |merged|
      ensures merged[n].value != [] && Stands(lib, w, merged[n])
    {
      MergedHolds(lib, w, group, merged, n);
    }
  }

  /** The tables and the disk after a round that merged `group` into `merged`. */
  ghost predicate Round(lib: Library, w: World, group: seq<TableInfo>, merged: seq<Pair>, table: TableInfo, w': World) {
    && DistinctPaths(group) && |group| >= 2 && (forall t :: t in group ==> t in w.tables)
    && MergedFrom(InputsOf(Founds(lib, w.disk, group)), merged) &&
       Delivers(InputsOf(Founds(lib, w.disk, group)), merged)
    && table.path !in w.disk && table.size == |FileBytes(lib, merged)| && table.numEntries == |merged|
    && NextLevel(group, table.level)
    && w'.tables == Remaining(w.tables, Paths(group)) + [table]
    && w'.disk == w.disk[table.path := FileBytes(lib, merged)] - Paths(group)
  }

  /** The new table holds what was merged, and the tables kept hold what they held. */
  lemma RoundContents(lib: Library, w: World, group: seq<TableInfo>, merged: seq<Pair>, table: TableInfo, w': World)
    requires Sound(lib, w) && Round(lib, w, group, merged, table, w')
    ensures DistinctPaths(w'.tables) && |w'.tables| == |w.tables| + 1 - |group|
    ensures table in w'.tables && forall t :: t in w'.tables <==> t == table || (t in w.tables && t !in group)
    ensures ContentOf(lib, w'.disk, table.path) == merged
    ensures forall t :: t in w.tables && t !in group ==>
              t.path in w'.disk && t.path != table.path &&
              ContentOf(lib, w'.disk, t.path) == ContentOf(lib, w.disk, t.path)
  {
    hide Sorted, MergedFrom, LivePairs, FileBytes, FileFits, InputsOf, Stands, FitTogether, Remaining, DistinctPaths,
      Paths;
    var gone := Paths(group);
    RemainingIs(w.tables, gone);
    RoundCount(w.tables, group);
    DistinctSnoc(Remaining(w.tables, gone), table);
    MergedFits(lib, w, group, merged);
    assert table.path !in gone by { NewPathIsKept(lib, w, group, table.path); }
    WrittenContent(lib, w'.disk, table.path, merged);
    forall t | t in w.tables
      ensures t.path in gone <==> t in group
      ensures t.path in w.disk
    {
      SamePathSameTable(w.tables, group, t);
    }
  }

  lemma NewPathIsKept(lib: Library, w: World, group: seq<TableInfo>, path: string)
    requires Sound(lib, w) && path !in w.disk && forall t :: t in group ==> t in w.tables
    ensures path !in Paths(group)
  {
    hide FitTogether, Sorted, ContentOf;
    forall t | t in group
      ensures t.path != path
    {
      assert t in w.tables;
    }
  }

  lemma SamePathSameTable(ts: seq<TableInfo>, group: seq<TableInfo>, t: TableInfo)
    requires DistinctPaths(ts) && t in ts && forall u :: u in group ==> u in ts
    ensures t.path in Paths(group) <==> t in group
  {
    if t.path in Paths(group) {
      var u :| u in group && u.path == t.path;
      assert u in ts;
    }
  }

  /** No round makes a pair up. */
  lemma RoundInventsNothing(lib: Library, w: World, group: seq<TableInfo>, merged: seq<Pair>, table: TableInfo,
                            w': World, p: Pair)
    requires Sound(lib, w) && Round(lib, w, group, merged, table, w')
    requires Stands(lib, w', p)
    ensures Stands(lib, w, p)
  {
    hide Sorted, MergedFrom, ContentOf, FileBytes, FileFits, InputsOf, Sound, Remaining;
    RoundContents(lib, w, group, merged, table, w');
    var t :| t in w'.tables && p in ContentOf(lib, w'.disk, t.path);
    if t == table {
      var n :| 0 <= n < |merged| && merged[n] == p;
      MergedHolds(lib, w, group, merged, n);
    }
  }

  /** What a round can lose: a pair `p` of a table of the group that stands at or after a pair `r` of the
      same table whose key another table of the group has, and delivered, in `q`. */
  lemma RoundLosesAfterTies(lib: Library, w: World, group: seq<TableInfo>, merged: seq<Pair>, table: TableInfo,
                            w': World, t: TableInfo, p: Pair) returns (u: TableInfo, q: Pair, r: Pair)
    requires Sound(lib, w) && Round(lib, w, group, merged, table, w')
    requires t in w.tables && p in ContentOf(lib, w.disk, t.path) && !Stands(lib, w', p)
    ensures t in group && u in group && u.path != t.path
    ensures r in ContentOf(lib, w.disk, t.path) && Le(r.key, p.key)
    ensures q in ContentOf(lib, w.disk, u.path) && q.key == r.key && q in merged
  {
    hide Sorted, ContentOf, FileBytes, FileFits, InputsOf, Sound, Remaining, DisjointTables, MergedFrom, Less;
    RoundContents(lib, w, group, merged, table, w');
    assert t in group by {
      assert t !in group ==> t in w'.tables;
    }
    GroupInputs(lib, w, group);
    var inputs := InputsOf(Founds(lib, w.disk, group));
    var i :| 0 <= i < |group| && group[i] == t;
    var j :| 0 <= j < |inputs[i]| && inputs[i][j] == p;
    assert p !in merged;
    LostAfterTie(inputs, merged, i, j);
    var s, k, l :| 0 <= s <= j && 0 <= k < |inputs| && k != i && 0 <= l < |inputs[k]|
                && inputs[k][l].key == inputs[i][s].key && inputs[k][l] in merged;
    SortedLe(inputs[i], s, j);
    u, q, r := group[k], inputs[k][l], inputs[i][s];
  }

  lemma SortedLe(ps: seq<Pair>, i: nat, j: nat)
    requires Sorted(ps) && i <= j < |ps|
    ensures Le(ps[i].key, ps[j].key)
  {
    hide Less;
    LessIrreflexive(ps[j].key);
    if i < j {
      LessLe(ps[i].key, ps[j].key);
    }
  }

  /** The pair stands below every key that stands in two tables. */
  ghost predicate BelowShared(lib: Library, w: World, p: Pair) {
    forall t, u, q, r | t in w.tables && u in w.tables && t.path != u.path && q in ContentOf(lib, w.disk, t.path)
                        && r in ContentOf(lib, w.disk, u.path) && q.key == r.key :: Less(p.key, q.key)
  }

  lemma LostIsNotBelow(lib: Library, w: World, group: seq<TableInfo>, merged: seq<Pair>, table: TableInfo,
                       w': World, p: Pair)
    requires Sound(lib, w) && Round(lib, w, group, merged, table, w') && Stands(lib, w, p) && !Stands(lib, w', p)
    ensures !BelowShared(lib, w, p)
  {
    hide Sorted, ContentOf, FileBytes, FileFits, InputsOf, Sound, Remaining, MergedFrom, Less;
    var t :| t in w.tables && p in ContentOf(lib, w.disk, t.path);
    var u, q, r := RoundLosesAfterTies(lib, w, group, merged, table, w', t, p);
    assert !Less(p.key, r.key);
    assert t in w.tables && u in w.tables && t.path != u.path;
  }

  lemma StaysBelowShared(lib: Library, w: World, group: seq<TableInfo>, merged: seq<Pair>, table: TableInfo,
                         w': World, p: Pair)
    requires Sound(lib, w) && Round(lib, w, group, merged, table, w') && BelowShared(lib, w, p)
    ensures BelowShared(lib, w', p)
  {
    hide ContentOf, Sound, Less, Round;
    forall t, u, q, r | t in w'.tables && u in w'.tables && t.path != u.path && q in ContentOf(lib, w'.disk, t.path)
                        && r in ContentOf(lib, w'.disk, u.path) && q.key == r.key
      ensures Less(p.key, q.key)
    {
      SharedBefore(lib, w, group, merged, table, w', p, t, u, q, r);
    }
  }

  lemma SharedBefore(lib: Library, w: World, group: seq<TableInfo>, merged: seq<Pair>, table: TableInfo,
                     w': World, p: Pair, t: TableInfo, u: TableInfo, q: Pair, r: Pair)
    requires Sound(lib, w) && Round(lib, w, group, merged, table, w') && BelowShared(lib, w, p)
    requires t in w'.tables && u in w'.tables && t.path != u.path && q in ContentOf(lib, w'.disk, t.path)
    requires r in ContentOf(lib, w'.disk, u.path) && q.key == r.key
    ensures Less(p.key, q.key)
  {
    hide ContentOf, Sound, Less, Round, BelowShared;
    var a := CameFrom(lib, w, group, merged, table, w', t, q);
    var b := CameFrom(lib, w, group, merged, table, w', u, r);
    FromDistinct(group, table, t, u, a, b);
    BelowThis(lib, w, p, a, b, q, r);
  }

  lemma BelowThis(lib: Library, w: World, p: Pair, t: TableInfo, u: TableInfo, q: Pair, r: Pair)
    requires BelowShared(lib, w, p) && t in w.tables && u in w.tables && t.path != u.path && q.key == r.key
    requires q in ContentOf(lib, w.disk, t.path) && r in ContentOf(lib, w.disk, u.path)
    ensures Less(p.key, q.key)
  {
    hide ContentOf, Less;
  }

  /** Pairs of two tables came from two tables. */
  lemma FromDistinct(group: seq<TableInfo>, table: TableInfo, t: TableInfo, u: TableInfo, a: TableInfo, b: TableInfo)
    requires t.path != u.path
    requires if t == table then a in group else a == t && (forall g :: g in group ==> g.path != a.path)
    requires if u == table then b in group else b == u && (forall g :: g in group ==> g.path != b.path)
    ensures a.path != b.path
  {
  }

  /** Main result on what survives: a pair below every key that stands in two tables is still in a table
      after a round, and still below every such key, since a round makes no new one. */
  lemma RoundKeepsBelowShared(lib: Library, w: World, group: seq<TableInfo>, merged: seq<Pair>, table: TableInfo,
                              w': World, p: Pair)
    requires Sound(lib, w) && Round(lib, w, group, merged, table, w') && BelowShared(lib, w, p)
    ensures Stands(lib, w, p) ==> Stands(lib, w', p)
    ensures BelowShared(lib, w', p)
  {
    hide Round, Sound, BelowShared, Stands;
    if Stands(lib, w, p) && !Stands(lib, w', p) {
      LostIsNotBelow(lib, w, group, merged, table, w', p);
    }
    StaysBelowShared(lib, w, group, merged, table, w', p);
  }

  /** When no key stands in two tables, a round loses no pair at all, and that stays so. */
  lemma RoundLosesNothing(lib: Library, w: World, group: seq<TableInfo>, merged: seq<Pair>, table: TableInfo,
                          w': World, p: Pair)
    requires Sound(lib, w) && Round(lib, w, group, merged, table, w') && DisjointTables(lib, w)
    requires Stands(lib, w, p)
    ensures Stands(lib, w', p)
  {
    hide Sorted, ContentOf, FileBytes, FileFits, InputsOf, Sound, Remaining, MergedFrom, Round, Stands;
    RoundKeepsBelowShared(lib, w, group, merged, table, w', p);
  }

  lemma RoundStaysDisjoint(lib: Library, w: World, group: seq<TableInfo>, merged: seq<Pair>, table: TableInfo,
                           w': World)
    requires Sound(lib, w) && Round(lib, w, group, merged, table, w') && DisjointTables(lib, w)
    ensures DisjointTables(lib, w')
  {
    hide Sorted, ContentOf, FileBytes, FileFits, InputsOf, Sound, Remaining, MergedFrom;
    RoundContents(lib, w, group, merged, table, w');
    forall t, u, p, q | t in w'.tables && u in w'.tables && t.path != u.path
                        && p in ContentOf(lib, w'.disk, t.path) && q in ContentOf(lib, w'.disk, u.path)
      ensures p.key != q.key
    {
      var a := CameFrom(lib, w, group, merged, table, w', t, p);
      var b := CameFrom(lib, w, group, merged, table, w', u, q);
      assert a.path != b.path;
    }
  }

  /** The table a pair of a table stood in before the round. */
  lemma CameFrom(lib: Library, w: World, group: seq<TableInfo>, merged: seq<Pair>, table: TableInfo, w': World,
                 t: TableInfo, p: Pair) returns (a: TableInfo)
    requires Sound(lib, w) && Round(lib, w, group, merged, table, w')
    requires t in w'.tables && p in ContentOf(lib, w'.disk, t.path)
    ensures a in w.tables && p in ContentOf(lib, w.disk, a.path)
    ensures if t == table then a in group else a == t && a !in group && (forall g :: g in group ==> g.path != a.path)
  {
    hide Sorted, ContentOf, FileBytes, FileFits, InputsOf, Remaining, MergedFrom, Stands;
    RoundContents(lib, w, group, merged, table, w');
    if t == table {
      var n :| 0 <= n < |merged| && merged[n] == p;
      MergedHolds(lib, w, group, merged, n);
      a :| a in group && p in ContentOf(lib, w.disk, a.path);
    } else {
      a := t;
      SamePathSameTable(w.tables, group, t);
    }
  }

  lemma RoundStaysSound(lib: Library, w: World, group: seq<TableInfo>, merged: seq<Pair>, table: TableInfo, w': World)
    requires Sound(lib, w) && Round(lib, w, group, merged, table, w')
    ensures Sound(lib, w')
  {
    hide Sorted, ContentOf, FileBytes, FileFits, InputsOf, Remaining, Stands;
    RoundContents(lib, w, group, merged, table, w');
    assert table.path in w'.disk by { NewPathStays(lib, w, group, merged, table, w'); }
    forall ps: seq<Pair> | Sorted(ps) && (forall n :: 0 <= n < |ps| ==> Stands(lib, w', ps[n]))
      ensures FileFits(lib, ps)
    {
      forall n | 0 <= n < |ps|
        ensures Stands(lib, w, ps[n])
      {
        RoundInventsNothing(lib, w, group, merged, table, w', ps[n]);
      }
    }
  }

  lemma NewPathStays(lib: Library, w: World, group: seq<TableInfo>, merged: seq<Pair>, table: TableInfo, w': World)
    requires Sound(lib, w) && Round(lib, w, group, merged, table, w')
    ensures table.path in w'.disk
  {
    hide FileFits, MergedFrom, FileBytes, Remaining;
    forall t | t in group
      ensures t.path != table.path
    {
      assert t in w.tables;
    }
  }

  // ---------- the compactor ----------

  /** The heaps seen so far, down to the one at hand. */
  ghost predicate Traces(inputs: Inputs, m: Merge, h: seq<HeapEntry>, hs: seq<seq<HeapEntry>>, ds: seq<seq<nat>>) {
    && |hs| == |ds| == |m.output| + 1 && Heaps(inputs, m.output, hs, ds)
    && hs[|m.output|] == h && ds[|m.output|] == m.delivered
  }

  lemma HeapsStart(inputs: Inputs, m: Merge, h: seq<HeapEntry>)
    requires StartedUpTo(inputs, m, |inputs|) && h == StartHeap(inputs, |inputs|) && m.output == []
    ensures Traces(inputs, m, h, [h], [m.delivered])
  {
    hide StartHeap;
  }

  lemma AllDelivered(inputs: Inputs, m: Merge, hs: seq<seq<HeapEntry>>, ds: seq<seq<nat>>)
    requires Traces(inputs, m, [], hs, ds)
    ensures Delivers(inputs, m.output)
  {
    hide Heaps;
  }

  /** One `Next`, and what it says of the heaps. */
  method NextOf(merger: Merger, ghost hs: seq<seq<HeapEntry>>, ghost ds: seq<seq<nat>>)
    returns (next: Option<Pair>, ghost hs': seq<seq<HeapEntry>>, ghost ds': seq<seq<nat>>)
    requires merger.Valid() && Traces(merger.inputs, merger.m, merger.heap.items, hs, ds)
    modifies merger`m, merger.heap, merger.scanners
    ensures merger.Valid() && merger.inputs == old(merger.inputs)
    ensures Traces(merger.inputs, merger.m, merger.heap.items, hs', ds')
    ensures |merger.m.output| <= Total(merger.inputs) && Sorted(merger.m.output)
    ensures merger.m.output == old(merger.m.output) + if next.Some? then [next.value] else []
    ensures next == None ==> merger.m.heads == map[] && merger.heap.items == []
    ensures merger.scanners == old(merger.scanners)
  {
    hide Heaps, HeapStep, StepOf, Total, Sorted, Merging, Merger.Holding, AllSorted;
    ghost var out := merger.m.output;
    next := merger.Next();
    MergeFacts(merger.inputs, merger.m);
    hs', ds' := hs, ds;
    if next.Some? {
      HeapsMore(merger.inputs, out, hs, ds, next.value, merger.heap.items, merger.m.delivered);
      hs', ds' := hs + [merger.heap.items], ds + [merger.m.delivered];
    }
  }

  lemma MergeFacts(inputs: Inputs, m: Merge)
    requires Merging(inputs, m)
    ensures Sorted(m.output) && |m.output| <= Total(inputs)
  {
    TotalIsSum(inputs, m.delivered);
  }

  lemma OutputFits(lib: Library, w: World, group: seq<TableInfo>, m: Merge)
    requires Sound(lib, w) && DistinctPaths(group) && forall t :: t in group ==> t in w.tables
    requires Merging(InputsOf(Founds(lib, w.disk, group)), m)
    ensures forall n :: 0 <= n < |m.output| ==> PairSize(m.output[n]) < U32
  {
    hide InputsOf, Founds, ContentOf, Sound, PairSize, Ascending, Settled;
    GroupInputs(lib, w, group);
    var inputs := InputsOf(Founds(lib, w.disk, group));
    forall n | 0 <= n < |m.output|
      ensures PairSize(m.output[n]) < U32
    {
      var i, j := OutputFrom(inputs, m, m.output[n]);
      assert group[i] in w.tables;
      OneFits(lib, w, m.output[n]);
    }
  }

  lemma OneFits(lib: Library, w: World, p: Pair)
    requires Sound(lib, w) && Stands(lib, w, p)
    ensures PairSize(p) < U32
  {
    hide Stands, ContentOf, FileBytes, Pack;
    var one := [p];
    assert FileFits(lib, one);
    assert FitsPair(one[0]);
  }

  lemma SoundPaths(lib: Library, w: World)
    requires Sound(lib, w)
    ensures DistinctPaths(w.tables)
  {
  }

  lemma SortedFollows(ps: seq<Pair>, p: Pair, all: seq<Pair>)
    requires all == ps + [p] && Sorted(all)
    ensures Follows(LastKey(ps), p.key) && all[|ps|] == p
  {
    assert all[|ps|] == p;
    if ps != [] {
      assert all[|ps| - 1] == ps[|ps| - 1];
      assert Less(all[|ps| - 1].key, all[|ps|].key);
    }
  }

  lemma GroupIsSub(ts: seq<TableInfo>, order: seq<TableInfo>, at: nat, group: seq<TableInfo>)
    requires DistinctPaths(ts) && SortedFrom(order, ts) && GroupAt(order, at, group)
    ensures DistinctPaths(group) && (forall t :: t in group ==> t in ts) && |group| >= 2
  {
    Reordered(order, ts);
  }

  lemma Level0Group(ts: seq<TableInfo>, group: seq<TableInfo>)
    requires DistinctPaths(ts) && |Level0(ts)| >= 4 && group == Level0(ts)[..4]
    ensures DistinctPaths(group) && |group| == 4 && forall t :: t in group ==> t in ts
  {
    Level0IsSub(ts);
    forall t | t in group
      ensures t in ts
    {
      assert t in Level0(ts);
    }
  }

  lemma RemoveOne(ts: seq<TableInfo>, i: nat, gone: set<string>, disk: Disk)
    requires i < |ts|
    ensures Remaining(ts[..i + 1], gone) == Remaining(ts[..i], gone) + if ts[i].path in gone then [] else [ts[i]]
    ensures disk - (Paths(ts[..i + 1]) * gone)
         == if ts[i].path in gone then (disk - (Paths(ts[..i]) * gone)) - {ts[i].path}
            else disk - (Paths(ts[..i]) * gone)
  {
    hide Remaining;
    SliceSnoc(ts, i);
    RemainingSnoc(ts[..i], ts[i], gone);
    PathsSnoc(ts[..i], ts[i]);
    RemoveSnoc(disk, Paths(ts[..i]), ts[i].path, gone);
  }

  lemma RemainingSnoc(ts: seq<TableInfo>, t: TableInfo, gone: set<string>)
    ensures Remaining(ts + [t], gone) == Remaining(ts, gone) + if t.path in gone then [] else [t]
  {
    assert (ts + [t])[..|ts|] == ts;
  }

  lemma PathsSnoc(ts: seq<TableInfo>, t: TableInfo)
    ensures Paths(ts + [t]) == Paths(ts) + {t.path}
  {
  }

  lemma RemoveSnoc(disk: Disk, paths: set<string>, path: string, gone: set<string>)
    ensures disk - ((paths + {path}) * gone)
         == if path in gone then (disk - (paths * gone)) - {path} else disk - (paths * gone)
  {
    if path !in gone {
      assert (paths + {path}) * gone == paths * gone;
    }
  }

  datatype Outcome = Idle | Compacted | Failed

  /** Nothing left to do: few enough tables at level 0, or, for the size-tiered strategy, no two
      tables of similar size. */
  ghost predicate Quiet(strategy: Strategy, ts: seq<TableInfo>) {
    || |Level0(ts)| <= 4
    || (strategy == SizeTiered && exists order :: SortedFrom(order, ts) && Doubling(order))
  }

  lemma NotQuiet(ts: seq<TableInfo>, order: seq<TableInfo>, at: nat, group: seq<TableInfo>)
    requires |Level0(ts)| > 4 && SortedFrom(order, ts) && GroupAt(order, at, group)
    ensures !Quiet(SizeTiered, ts)
  {
    hide SortedFrom, GroupAt, Doubling, Level0;
    forall other | SortedFrom(other, ts)
      ensures !Doubling(other)
    {
      GroupOrDoubling(ts, order, at, group, other);
    }
  }

  class Compactor {
    const lib: Library
    const strategy: Strategy
    var disk: Disk
    var tables: seq<TableInfo>
    var totalCompactions: nat

    ghost function View(): World
      reads this
    {
      World(disk, tables)
    }

    constructor (lib: Library, strategy: Strategy, disk: Disk)
      ensures this.lib == lib && this.strategy == strategy && this.disk == disk && tables == [] && totalCompactions == 0
      ensures GobRoundTrips(lib) && FileFits(lib, []) ==> Sound(lib, View())
    {
      hide Sound, FileFits, GobRoundTrips;
      if GobRoundTrips(lib) && FileFits(lib, []) {
        NoTablesAreSound(lib, disk);
      }
      this.lib, this.strategy, this.disk := lib, strategy, disk;
      tables, totalCompactions := [], 0;
    }

    method RegisterTable(path: string, size: int, numEntries: nat)
      modifies `tables
      ensures tables == old(tables) + [TableInfo(path, size, 0, numEntries)]
      ensures old(Sound(lib, View())) ==>
                (Sound(lib, View()) <==>
                   && (forall t :: t in old(tables) ==> t.path != path)
                   && path in disk && Sorted(ContentOf(lib, disk, path)) && FitTogether(lib, View()))
    {
      hide Sound, FitTogether, Sorted, ContentOf;
      if Sound(lib, View()) {
        RegisteringKeepsSound(lib, View(), TableInfo(path, size, 0, numEntries));
      }
      tables := tables + [TableInfo(path, size, 0, numEntries)];
    }

    /** Merges the tables of a group into a new file. Keys come out of the merge in strictly
        increasing order, so the writer refuses none. */
    method CompactTables(group: seq<TableInfo>, outputPath: string) returns (table: TableInfo, ghost merged: seq<Pair>)
      requires Sound(lib, View()) && DistinctPaths(group) && forall t :: t in group ==> t in tables
      requires outputPath !in disk
      modifies `disk
      ensures MergedFrom(InputsOf(Founds(lib, old(disk), group)), merged)
      ensures Delivers(InputsOf(Founds(lib, old(disk), group)), merged)
      ensures disk == old(disk)[outputPath := FileBytes(lib, merged)]
      ensures table.path == outputPath && table.size == |FileBytes(lib, merged)| && table.numEntries == |merged|
      ensures NextLevel(group, table.level)
    {
      hide FileBytes, LivePairs, MergedFrom, Sound, Delivers;
      assert AllSorted(InputsOf(Founds(lib, disk, group))) by { GroupInputs(lib, View(), group); }
      var writer, all := MergeInto(group);
      merged := all;
      writer.Close();
      disk := disk[outputPath := writer.out];
      var level := CalculateNewLevel(group);
      table := TableInfo(outputPath, |writer.out|, level, writer.EntriesCount());
    }

    /** The merge loop. */
    method MergeInto(group: seq<TableInfo>) returns (writer: Writer, ghost merged: seq<Pair>)
      requires Sound(lib, View()) && DistinctPaths(group) && forall t :: t in group ==> t in tables
      requires AllSorted(InputsOf(Founds(lib, disk, group)))
      ensures fresh(writer) && writer.Valid() && !writer.closed && !writer.mangled
      ensures writer.lib == lib && writer.pairs == merged
      ensures MergedFrom(InputsOf(Founds(lib, disk, group)), merged)
      ensures Delivers(InputsOf(Founds(lib, disk, group)), merged)
    {
      hide Traces, Delivers, StartHeap;
      hide Sound, AllSorted, Merging, MergedFrom, Writer.Valid, Merger.Holding, InputsOf, FoundsIn, FitsPair,
        LivePairs, Sorted, Follows, LastKey, PairSize, Total, StepOf, StartedUpTo;
      ghost var inputs := InputsOf(Founds(lib, disk, group));
      writer := new Writer(lib);
      var merger := new Merger(lib, Files(disk, group));
      merger.Start();
      ghost var hs, ds := [merger.heap.items], [merger.m.delivered];
      HeapsStart(inputs, merger.m, merger.heap.items);
      var next;
      next, hs, ds := NextOf(merger, hs, ds);
      while next.Some?
        invariant fresh(writer) && writer.Valid() && !writer.closed && !writer.mangled && writer.lib == lib
        invariant fresh(merger) && fresh(merger.heap) && fresh(merger.scanners)
        invariant merger.Valid() && merger.inputs == inputs && Traces(inputs, merger.m, merger.heap.items, hs, ds)
        invariant |merger.m.output| <= Total(inputs) && Sorted(merger.m.output)
        invariant merger.m.output == if next.Some? then writer.pairs + [next.value] else writer.pairs
        invariant next == None ==> merger.m.heads == map[] && merger.heap.items == []
        decreases Total(inputs) - |merger.m.output|, next.Some?
      {
        OutputFits(lib, View(), group, merger.m);
        SortedFollows(writer.pairs, next.value, merger.m.output);
        ShortIsStored(next.value.key, next.value.value);
        var added := writer.Add(next.value.key, next.value.value);
        assert added == AddOk;
        next, hs, ds := NextOf(merger, hs, ds);
      }
      merged := writer.pairs;
      MergeEnds(inputs, merger.m);
      AllDelivered(inputs, merger.m, hs, ds);
    }

    /** One round. It fails only for an unknown strategy; otherwise it is idle exactly when the tables
        are quiet, and else replaces a group of at least two tables by their merge. */
    method RunCompaction(outputPath: string)
      returns (outcome: Outcome, ghost group: seq<TableInfo>, ghost merged: seq<Pair>,
               ghost table: TableInfo)
      requires Sound(lib, View()) && outputPath !in disk
      modifies this
      ensures outcome != Compacted ==> View() == old(View()) && totalCompactions == old(totalCompactions)
      ensures outcome == Failed <==> strategy == UnknownStrategy && |Level0(old(tables))| > 4
      ensures outcome == Idle <==> Quiet(strategy, old(tables))
      ensures outcome == Compacted ==> |Level0(old(tables))| > 4 && strategy != UnknownStrategy
      ensures outcome == Compacted ==> table.path == outputPath && Round(lib, old(View()), group, merged, table, View())
      ensures outcome == Compacted ==> totalCompactions == old(totalCompactions) + 1
      ensures outcome == Compacted && strategy == Leveled ==> group == Level0(old(tables))[..4]
      ensures outcome == Compacted && strategy == SizeTiered ==>
                exists order, at :: SortedFrom(order, old(tables)) && GroupAt(order, at, group)
    {
      hide Sound, DistinctPaths, SortedFrom, GroupAt, MergedFrom, FileBytes, Remaining, Doubling, Level0, InputsOf,
        Founds, Delivers, NextLevel;
      SoundPaths(lib, View());
      group, merged, table := [], [], TableInfo("", 0, 0, 0);
      var count := CountLevel0(tables);
      if count <= 4 {
        return Idle, group, merged, table;
      }
      var tablesToCompact;
      match strategy {
        case SizeTiered =>
          tablesToCompact := SelectSizeTiered(tables);
          if tablesToCompact != [] {
            ghost var order, at :| SortedFrom(order, tables) && GroupAt(order, at, tablesToCompact);
            GroupIsSub(tables, order, at, tablesToCompact);
            NotQuiet(tables, order, at, tablesToCompact);
          }
        case Leveled =>
          tablesToCompact := SelectLeveled(tables);
          Level0Group(tables, tablesToCompact);
        case UnknownStrategy =>
          return Failed, group, merged, table;
      }
      if |tablesToCompact| < 2 {
        return Idle, group, merged, table;
      }
      group := tablesToCompact;
      var newTable, all := CompactTables(tablesToCompact, outputPath);
      merged, table := all, newTable;
      RemoveTables(tablesToCompact);
      tables := tables + [newTable];
      totalCompactions := totalCompactions + 1;
      return Compacted, group, merged, table;
    }

    method RemoveTables(toRemove: seq<TableInfo>)
      modifies `tables, `disk
      ensures tables == Remaining(old(tables), Paths(toRemove))
      ensures disk == old(disk) - (Paths(old(tables)) * Paths(toRemove))
    {
      var newTables := [];
      var i := 0;
      ghost var removed: set<string> := {};
      var removeSet := set t | t in toRemove :: t.path;
      while i < |tables|
        invariant i <= |tables| && tables == old(tables)
        invariant newTables == Remaining(tables[..i], removeSet)
        invariant disk == old(disk) - (Paths(tables[..i]) * removeSet)
      {
        RemoveOne(tables, i, removeSet, old(disk));
        if tables[i].path !in removeSet {
          newTables := newTables + [tables[i]];
        } else {
          disk := disk - {tables[i].path};
        }
        i := i + 1;
      }
      assert tables[..i] == tables;
      tables := newTables;
    }
  }

  /** From the smallest to the largest table the size grows faster than one doubling a table. */
  ghost predicate SpansPowers(ts: seq<TableInfo>, least: TableInfo, most: TableInfo)
    requires ts != []
  {
    && least in ts && most in ts && most.size > Pow2(|ts| - 1) * least.size
    && forall t :: t in ts ==> least.size <= t.size <= most.size
  }

  /** What quiet tables are like: at most four at level 0, or one of each power of two, so that with
      positive 64-bit sizes there are at most 63. */
  lemma QuietTables(strategy: Strategy, ts: seq<TableInfo>)
    requires Quiet(strategy, ts) && |Level0(ts)| > 4 && forall t :: t in ts ==> 0 < t.size < I63
    ensures 5 <= |ts| <= 63
    ensures exists least, most :: SpansPowers(ts, least, most)
  {
    hide Level0, Doubling, BySize, SpansPowers;
    Level0Length(ts);
    var order :| SortedFrom(order, ts) && Doubling(order);
    SameTables(order, ts);
    assert order[0] in order && order[|order| - 1] in order;
    QuietBound(order);
    QuietSpans(ts, order);
  }

  lemma QuietSpans(ts: seq<TableInfo>, order: seq<TableInfo>)
    requires SortedFrom(order, ts) && Doubling(order) && |ts| >= 2
    requires forall t :: t in ts ==> t.size > 0
    ensures |order| == |ts| && SpansPowers(ts, order[0], order[|order| - 1])
  {
    hide Doubling, BySize, Pow2;
    SameTables(order, ts);
    Extremes(order);
    assert order[0] in order && order[|order| - 1] in order;
    QuietBound(order);
  }

  lemma Extremes(order: seq<TableInfo>)
    requires BySize(order) && order != []
    ensures forall t :: t in order ==> order[0].size <= t.size <= order[|order| - 1].size
  {
  }

  lemma {:induction false} Level0Length(ts: seq<TableInfo>)
    ensures |Level0(ts)| <= |ts|
  {
    if ts != [] {
      Level0Length(ts[..|ts| - 1]);
    }
  }

  /** The background loop without new registrations: it comes to rest after fewer rounds than there
      are tables and makes no pair up. It loses no pair below all keys that stand in two tables, and so
      none at all if no key does. */
  method CompactUntilQuiet(c: Compactor, names: seq<string>) returns (rounds: nat)
    requires Sound(c.lib, c.View()) && c.strategy != UnknownStrategy
    requires |names| > |c.tables| && (forall i, j :: 0 <= i < j < |names| ==> names[i] != names[j])
    requires forall i :: 0 <= i < |names| ==> names[i] !in c.disk
    modifies c
    ensures Sound(c.lib, c.View()) && Quiet(c.strategy, c.tables)
    ensures rounds > 0 ==> rounds < |old(c.tables)|
    ensures |c.tables| + rounds <= |old(c.tables)| && c.totalCompactions == old(c.totalCompactions) + rounds
    ensures forall p :: Stands(c.lib, c.View(), p) ==> Stands(c.lib, old(c.View()), p)
    ensures forall p :: Stands(c.lib, old(c.View()), p) && BelowShared(c.lib, old(c.View()), p) ==>
              Stands(c.lib, c.View(), p)
    ensures DisjointTables(c.lib, old(c.View())) ==>
              DisjointTables(c.lib, c.View()) && forall p :: Stands(c.lib, old(c.View()), p) ==>
                Stands(c.lib, c.View(), p)
  {
    hide Sound, Quiet, DisjointTables, Stands, BelowShared;
    ghost var start := c.View();
    rounds := 0;
    while true
      invariant Sound(c.lib, c.View())
      invariant |c.tables| + rounds <= |start.tables| && (rounds > 0 ==> |c.tables| >= 1)
      invariant c.totalCompactions == old(c.totalCompactions) + rounds
      invariant forall i :: rounds <= i < |names| ==> names[i] !in c.disk
      invariant forall p :: Stands(c.lib, c.View(), p) ==> Stands(c.lib, start, p)
      invariant forall p :: BelowShared(c.lib, start, p) ==>
                  BelowShared(c.lib, c.View(), p) && (Stands(c.lib, start, p) ==> Stands(c.lib, c.View(), p))
      invariant DisjointTables(c.lib, start) ==>
                  DisjointTables(c.lib, c.View()) && forall p :: Stands(c.lib, start, p) ==> Stands(c.lib, c.View(), p)
      decreases |c.tables|
    {
      ghost var before := c.View();
      var outcome, group, merged, table := c.RunCompaction(names[rounds]);
      if outcome != Compacted {
        return;
      }
      RoundKeeps(c.lib, before, group, merged, table, c.View());
      rounds := rounds + 1;
    }
  }

  /** What one round keeps. */
  lemma RoundKeeps(lib: Library, w: World, group: seq<TableInfo>, merged: seq<Pair>, table: TableInfo, w': World)
    requires Sound(lib, w) && Round(lib, w, group, merged, table, w')
    ensures Sound(lib, w') && 1 <= |w'.tables| < |w.tables|
    ensures forall path :: path in w'.disk ==> path in w.disk || path == table.path
    ensures forall p :: Stands(lib, w', p) ==> Stands(lib, w, p)
    ensures forall p :: BelowShared(lib, w, p) ==>
              BelowShared(lib, w', p) && (Stands(lib, w, p) ==> Stands(lib, w', p))
    ensures DisjointTables(lib, w) ==> DisjointTables(lib, w') && forall p :: Stands(lib, w, p) ==> Stands(lib, w', p)
  {
    hide Sound, DisjointTables, Stands, BelowShared, MergedFrom, InputsOf, Founds, FileBytes, ContentOf;
    RoundStaysSound(lib, w, group, merged, table, w');
    RoundContents(lib, w, group, merged, table, w');
    forall p | Stands(lib, w', p)
      ensures Stands(lib, w, p)
    {
      RoundInventsNothing(lib, w, group, merged, table, w', p);
    }
    forall p | BelowShared(lib, w, p)
      ensures BelowShared(lib, w', p) && (Stands(lib, w, p) ==> Stands(lib, w', p))
    {
      RoundKeepsBelowShared(lib, w, group, merged, table, w', p);
    }
    if DisjointTables(lib, w) {
      RoundStaysDisjoint(lib, w, group, merged, table, w');
      forall p | Stands(lib, w, p)
        ensures Stands(lib, w', p)
      {
        RoundLosesNothing(lib, w, group, merged, table, w', p);
      }
    }
  }
}
