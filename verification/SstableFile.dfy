/** A whole file a writer produced, read back: it opens, every `Get` answers like the list of pairs
    that was written, and `Scan` yields the live pairs in order. */
module SstableFile {
  import opened Bytes
  import opened Sstable
  import opened SstableReads

  // ---------- the pairs of a file, block by block ----------

  function Flatten(bs: Blocks): seq<Pair> {
    if bs == [] then [] else Flatten(bs[..|bs| - 1]) + bs[|bs| - 1]
  }

  /** Packing neither loses, reorders nor repeats a pair. */
  lemma {:induction false} PackKeepsPairs(ps: seq<Pair>)
    ensures Flatten(Pack(ps).blocks) + Pack(ps).current == ps
    ensures Flatten(Flushed(Pack(ps))) == ps
  {
    hide EncPairs, PairSize;
    if ps != [] {
      var n := |ps| - 1;
      var pk := Pack(ps[..n]);
      PackKeepsPairs(ps[..n]);
      FlattenSnoc(pk.blocks, pk.current);
      FlattenSnoc(Pack(ps).blocks, Pack(ps).current);
      AppendLast(Flatten(pk.blocks), pk.current, ps);
      NothingAdded(Flatten(Pack(ps).blocks));
    }
  }

  lemma FlattenSnoc(bs: Blocks, b: seq<Pair>)
    ensures Flatten(bs + [b]) == Flatten(bs) + b
  {
    assert (bs + [b])[..|bs|] == bs;
  }

  lemma AppendLast<T>(a: seq<T>, b: seq<T>, s: seq<T>)
    requires s != [] && a + b == s[..|s| - 1]
    ensures a + (b + [s[|s| - 1]]) == s && (a + b) + [s[|s| - 1]] == s
  {
  }

  function Before(bs: Blocks, i: nat): nat
    requires i <= |bs|
  {
    if i == 0 then 0 else Before(bs, i - 1) + |bs[i - 1]|
  }

  lemma {:induction false} BeforePrefix(bs: Blocks, cs: Blocks, i: nat)
    requires i <= |bs| && i <= |cs| && forall j :: 0 <= j < i ==> bs[j] == cs[j]
    ensures Before(bs, i) == Before(cs, i)
  {
    if i > 0 {
      BeforePrefix(bs, cs, i - 1);
    }
  }

  lemma {:induction false} BeforeMonotone(bs: Blocks, i: nat, j: nat)
    requires i <= j <= |bs|
    ensures Before(bs, i) <= Before(bs, j)
  {
    if i < j {
      BeforeMonotone(bs, i, j - 1);
    }
  }

  lemma {:induction false} FlattenLength(bs: Blocks)
    ensures |Flatten(bs)| == Before(bs, |bs|)
  {
    if bs != [] {
      FlattenLength(bs[..|bs| - 1]);
      BeforePrefix(bs[..|bs| - 1], bs, |bs| - 1);
    }
  }

  lemma {:induction false} FlattenAt(bs: Blocks, i: nat, j: nat)
    requires i < |bs| && j < |bs[i]|
    ensures Before(bs, i) + j < |Flatten(bs)| && Flatten(bs)[Before(bs, i) + j] == bs[i][j]
  {
    var n := |bs| - 1;
    var init := bs[..n];
    BeforePrefix(init, bs, i);
    FlattenLength(init);
    if i < n {
      FlattenAt(init, i, j);
    }
  }

  lemma {:induction false} Locate(bs: Blocks, m: nat) returns (i: nat, j: nat)
    requires m < |Flatten(bs)|
    ensures i < |bs| && j < |bs[i]| && bs[i][j] == Flatten(bs)[m]
  {
    var n := |bs| - 1;
    var before := |Flatten(bs[..n])|;
    if m < before {
      i, j := Locate(bs[..n], m);
    } else {
      i, j := n, m - before;
    }
  }

  /** What a sorted list looks like once packed: sorted blocks, in order. */
  ghost predicate SortedBlocks(bs: Blocks) {
    && (forall i :: 0 <= i < |bs| ==> Sorted(bs[i]))
    && (forall i, k, j, l :: 0 <= i < k < |bs| && 0 <= j < |bs[i]| && 0 <= l < |bs[k]|
                          ==> Less(bs[i][j].key, bs[k][l].key))
  }

  lemma SortedPacks(bs: Blocks)
    requires Sorted(Flatten(bs))
    ensures SortedBlocks(bs)
  {
    forall i | 0 <= i < |bs|
      ensures Sorted(bs[i])
    {
      forall j, l | 0 <= j < l < |bs[i]|
        ensures Less(bs[i][j].key, bs[i][l].key)
      {
        FlattenAt(bs, i, j);
        FlattenAt(bs, i, l);
      }
    }
    forall i, k, j, l | 0 <= i < k < |bs| && 0 <= j < |bs[i]| && 0 <= l < |bs[k]|
      ensures Less(bs[i][j].key, bs[k][l].key)
    {
      FlattenAt(bs, i, j);
      FlattenAt(bs, k, l);
      BeforeMonotone(bs, i + 1, k);
    }
  }

  lemma FitsPacks(bs: Blocks)
    requires AllPairsFit(Flatten(bs))
    ensures forall i :: 0 <= i < |bs| ==> AllPairsFit(bs[i])
  {
    forall i, j | 0 <= i < |bs| && 0 <= j < |bs[i]|
      ensures FitsPair(bs[i][j])
    {
      FlattenAt(bs, i, j);
    }
  }

  // ---------- the partition into blocks ----------

  /** At every point of a writer's run: each block, the open one included, is at most 64 KB of
      pairs or a single pair, and no flushed block could have taken the pair that followed it. */
  lemma {:induction false} BlocksAreBounded(ps: seq<Pair>)
    ensures var pk := Pack(ps);
            && (forall i :: 0 <= i < |pk.blocks| ==> |EncPairs(pk.blocks[i])| <= BLOCK_SIZE || |pk.blocks[i]| == 1)
            && (|EncPairs(pk.current)| <= BLOCK_SIZE || |pk.current| == 1)
            && (ps != [] ==> pk.current != [])
  {
    if ps != [] {
      var pk := Pack(ps[..|ps| - 1]);
      var p := ps[|ps| - 1];
      BlocksAreBounded(ps[..|ps| - 1]);
      PairsSnoc(pk.current, p);
    }
  }

  lemma PairsSnoc(ps: seq<Pair>, p: Pair)
    ensures EncPairs(ps + [p]) == EncPairs(ps) + EncPair(p)
  {
    assert (ps + [p])[..|ps|] == ps;
  }

  /** Packing is greedy: a block is closed only when its successor's first pair would not fit. */
  lemma {:induction false} PackingIsGreedy(ps: seq<Pair>, i: nat)
    requires i + 1 < |Flushed(Pack(ps))|
    ensures var bs := Flushed(Pack(ps));
            && bs[i] != [] && bs[i + 1] != []
            && |EncPairs(bs[i])| + PairSize(bs[i + 1][0]) > BLOCK_SIZE
  {
    hide EncPairs, PairSize;
    var init := ps[..|ps| - 1];
    PackNoEmpty(ps);
    if i + 1 < |Flushed(Pack(init))| {
      PackNoEmpty(init);
      PackingIsGreedy(init, i);
    }
  }

  // ---------- blocks of the file ----------

  lemma DiskBlockParts(data: Bytes, crc: u32)
    ensures var b := data + ([0] + LE(crc, 4));
            |b| == |data| + 5 && b[..|data|] == data && b[|data|] == 0 && U32LE(b, |data| + 1) == crc
  {
    hide U32LE;
    var b := data + ([0] + LE(crc, 4));
    assert Holds(b, |data| + 1, LE(crc, 4)) by {
      HoldsSelf(b);
      HoldsConcat(b, 0, data, [0] + LE(crc, 4));
      HoldsConcat(b, |data|, [0], LE(crc, 4));
    }
    HoldsU32(b, |data| + 1, crc);
  }

  /** The index entry of a block leads back to its pairs. */
  lemma BlockRead(lib: Library, file: Bytes, bs: Blocks, i: nat)
    requires i < |bs| && bs[i] != []
    requires Holds(file, 0, DataBlocks(lib, bs)) && |DataBlocks(lib, bs)| <= |file| < U64
    ensures ReadBlock(lib, file, EntryFor(bs[i], BlockStart(lib, bs, i))) == Ok(EncPairs(bs[i]))
  {
    hide Holds, EncPairs, LE, U32LE, DataBlocks, DiskBlock, ReadBlock;
    BlocksLength(lib, bs);
    BlockStartMonotone(lib, bs, i + 1, |bs|);
    BlocksHold(lib, file, bs, i);
    OneBlockRead(lib, file, bs[i], BlockStart(lib, bs, i));
  }

  lemma OneBlockRead(lib: Library, file: Bytes, ps: seq<Pair>, start: nat)
    requires ps != [] && Holds(file, start, DiskBlock(lib, ps)) && start + |EncPairs(ps)| + 5 <= |file| < U64
    ensures ReadBlock(lib, file, EntryFor(ps, start)) == Ok(EncPairs(ps))
  {
    hide Holds, EncPairs, LE, U32LE;
    DiskBlockParts(EncPairs(ps), lib.crc(EncPairs(ps)));
    HoldsSlice(file, start, DiskBlock(lib, ps));
  }

  lemma {:induction false} FilterHasAll(lib: Library, ps: seq<Pair>, i: nat)
    requires i < |ps|
    ensures lib.bits(ps[i].key) <= FilterOf(lib, ps)
  {
    if i < |ps| - 1 {
      FilterHasAll(lib, ps[..|ps| - 1], i);
    }
  }

  // ---------- the search over blocks ----------

  /** The binary search splits any index whose keys never go down. */
  lemma {:induction false} BinarySearchSplits(index: seq<IndexEntry>, key: Bytes, left: nat, right: nat)
    requires left <= right <= |index|
    requires forall i, j :: 0 <= i < j < |index| ==> Less(index[i].key, index[j].key)
    requires forall i :: 0 <= i < left ==> Less(index[i].key, key)
    requires forall i :: right <= i < |index| ==> !Less(index[i].key, key)
    ensures var r := BinarySearch(index, key, left, right);
            && (forall i :: 0 <= i < r ==> Less(index[i].key, key))
            && (forall i :: r <= i < |index| ==> !Less(index[i].key, key))
    decreases right - left
  {
    hide Less;
    if left < right {
      var mid := (left + right - 1) / 2;
      if Less(index[mid].key, key) {
        forall i | 0 <= i < mid + 1
          ensures Less(index[i].key, key)
        {
          if i < mid {
            LessTransitive(index[i].key, index[mid].key, key);
          }
        }
        BinarySearchSplits(index, key, mid + 1, right);
      } else {
        forall i | mid <= i < |index|
          ensures !Less(index[i].key, key)
        {
          if mid < i && Less(index[i].key, key) {
            LessTransitive(index[mid].key, index[i].key, key);
          }
        }
        BinarySearchSplits(index, key, left, mid);
      }
    }
  }

  /** The blocks the search leaves out hold no pair with the key. */
  lemma OtherBlocksLackKey(bs: Blocks, key: Bytes, r: nat, i: nat, j: nat)
    requires SortedBlocks(bs) && NoEmptyBlock(bs) && r <= |bs| && i < |bs| && j < |bs[i]| && i != r
    requires forall k :: 0 <= k < r ==> Less(bs[k][|bs[k]| - 1].key, key)
    requires r < |bs| ==> !Less(bs[r][|bs[r]| - 1].key, key)
    ensures bs[i][j].key != key
  {
    hide Less;
    var last := |bs[i]| - 1;
    if i < r {
      assert Less(bs[i][last].key, key);
      if j < last {
        LessTransitive(bs[i][j].key, bs[i][last].key, key);
      }
      LessIrreflexive(key);
    } else {
      assert Less(bs[r][|bs[r]| - 1].key, bs[i][j].key);
    }
  }

  lemma BlockAnswers(ps: seq<Pair>, bs: Blocks, key: Bytes, r: nat, a: Answer)
    requires Flatten(bs) == ps && SortedBlocks(bs) && NoEmptyBlock(bs) && r <= |bs|
    requires forall k :: 0 <= k < r ==> Less(bs[k][|bs[k]| - 1].key, key)
    requires r < |bs| ==> !Less(bs[r][|bs[r]| - 1].key, key)
    requires if r == |bs| then a == NotFound else Answers(bs[r], key, a)
    ensures Answers(ps, key, a)
  {
    hide SortedBlocks, Flatten;
    if a == NotFound {
      forall m | 0 <= m < |ps|
        ensures ps[m].key != key
      {
        var i, j := Locate(bs, m);
        if i != r {
          OtherBlocksLackKey(bs, key, r, i, j);
        }
      }
    } else {
      var v := if a.Found? then a.value else [];
      var j :| 0 <= j < |bs[r]| && bs[r][j] == Pair(key, v);
      FlattenAt(bs, r, j);
    }
  }

  // ---------- whole files ----------

  /** What a written file needs to be readable: it stays below 2^64 bytes and 2^32 blocks. */
  predicate FileFits(lib: Library, ps: seq<Pair>) {
    AllPairsFit(ps) && |FileBytes(lib, ps)| < U64 && |Flushed(Pack(ps))| < U32
  }

  lemma FileParts(lib: Library, ps: seq<Pair>)
    ensures var bs := Flushed(Pack(ps));
            && NoEmptyBlock(bs) && Flatten(bs) == ps
            && FileBytes(lib, ps) == FileOf(lib, bs, FilterOf(lib, ps))
            && Holds(FileBytes(lib, ps), 0, DataBlocks(lib, bs))
            && |DataBlocks(lib, bs)| <= |FileBytes(lib, ps)|
  {
    hide Flatten, Pack, DataBlocks, BlockIndex, EncIndex, FilterOf, EncFooter, Flushed;
    var bs := Flushed(Pack(ps));
    PackNoEmpty(ps);
    PackKeepsPairs(ps);
    var index, bloom := EncIndex(BlockIndex(lib, bs)), lib.gobEncode(FilterOf(lib, ps));
    Sections(DataBlocks(lib, bs), index, bloom, EncFooter(FooterFor(lib, |DataBlocks(lib, bs)|, index, bloom)));
  }

  lemma IndexFits(lib: Library, bs: Blocks, i: nat)
    requires NoEmptyBlock(bs) && i < |bs| && AllPairsFit(bs[i]) && |DataBlocks(lib, bs)| < U64
    ensures |BlockIndex(lib, bs)| == |bs| && FitsEntry(BlockIndex(lib, bs)[i])
  {
    hide DataBlocks, EncPairs, BlockIndex;
    IndexIs(lib, bs, i);
    BlocksLength(lib, bs);
    BlockStartMonotone(lib, bs, i + 1, |bs|);
    assert FitsPair(bs[i][|bs[i]| - 1]);
  }

  /** A written file opens, and its index lists where each block of the packing stands. */
  lemma WrittenOpens(lib: Library, ps: seq<Pair>)
    requires GobRoundTrips(lib) && FileFits(lib, ps)
    ensures var bs := Flushed(Pack(ps));
            var r := Open(lib, FileBytes(lib, ps));
            && r.Ok? && r.value.filter == FilterOf(lib, ps) && |r.value.index| == |bs|
            && forall i :: 0 <= i < |bs| ==>
                 && bs[i] != []
                 && r.value.index[i] == EntryFor(bs[i], BlockStart(lib, bs, i))
                 && ReadBlock(lib, FileBytes(lib, ps), r.value.index[i]) == Ok(EncPairs(bs[i]))
  {
    hide Pack, DataBlocks, BlockIndex, EncIndex, FilterOf, Open, Assemble, ReadBlock, EntryFor, Flatten, Flushed,
      FileBytes, Holds, FitsEntry, EncPairs;
    var bs := Flushed(Pack(ps));
    FileParts(lib, ps);
    FitsPacks(bs);
    forall i | 0 <= i < |bs|
      ensures |BlockIndex(lib, bs)| == |bs| && FitsEntry(BlockIndex(lib, bs)[i])
      ensures BlockIndex(lib, bs)[i] == EntryFor(bs[i], BlockStart(lib, bs, i))
      ensures ReadBlock(lib, FileBytes(lib, ps), BlockIndex(lib, bs)[i]) == Ok(EncPairs(bs[i]))
    {
      IndexFits(lib, bs, i);
      IndexIs(lib, bs, i);
      BlockRead(lib, FileBytes(lib, ps), bs, i);
    }
    IndexLength(lib, bs);
    AssembledOpens(lib, DataBlocks(lib, bs), BlockIndex(lib, bs), FilterOf(lib, ps));
  }

  /** `Get` on a written file answers exactly for the pairs that were added. */
  lemma GetCorrect(lib: Library, ps: seq<Pair>, key: Bytes)
    requires GobRoundTrips(lib) && FileFits(lib, ps) && Sorted(ps)
    ensures var r := Open(lib, FileBytes(lib, ps));
            r.Ok? && Answers(ps, key, Get(lib, FileBytes(lib, ps), r.value, key))
  {
    hide Pack, Open, ReadBlock, Flushed, FileBytes, BinarySearch, Search, SortedBlocks, Flatten, FilterOf, EncPairs,
      Less, BlockStart;
    var bs := Flushed(Pack(ps));
    WrittenOpens(lib, ps);
    FileParts(lib, ps);
    SortedPacks(bs);
    FitsPacks(bs);
    var o := Open(lib, FileBytes(lib, ps)).value;
    if lib.bits(key) <= o.filter {
      LastKeysIncrease(bs, o.index);
      BinarySearchSplits(o.index, key, 0, |o.index|);
      var r := BinarySearch(o.index, key, 0, |o.index|);
      if r < |bs| {
        assert Sorted(bs[r]) by { OneBlockSorted(bs, r); }
        SearchCorrect(bs[r], key, 0);
        assert PairStart(bs[r], 0) == 0;
      }
      forall k | 0 <= k < |bs|
        ensures o.index[k].key == bs[k][|bs[k]| - 1].key
      {
      }
      BlockAnswers(ps, bs, key, r, Get(lib, FileBytes(lib, ps), o, key));
    } else {
      forall i | 0 <= i < |ps|
        ensures ps[i].key != key
      {
        FilterHasAll(lib, ps, i);
      }
    }
  }

  lemma OneBlockSorted(bs: Blocks, r: nat)
    requires SortedBlocks(bs) && r < |bs|
    ensures Sorted(bs[r])
  {
  }

  /** Index keys are each block's last key, and strictly increase. */
  lemma LastKeysIncrease(bs: Blocks, index: seq<IndexEntry>)
    requires SortedBlocks(bs) && NoEmptyBlock(bs) && |index| == |bs|
    requires forall i :: 0 <= i < |bs| ==> index[i].key == bs[i][|bs[i]| - 1].key
    ensures forall i, j :: 0 <= i < j < |index| ==> Less(index[i].key, index[j].key)
  {
    hide Less;
  }

  /** `Scan` of a written file yields the live pairs, each once and in order. */
  lemma ScanCorrect(lib: Library, ps: seq<Pair>)
    requires GobRoundTrips(lib) && FileFits(lib, ps)
    ensures var r := Open(lib, FileBytes(lib, ps));
            r.Ok? && Scan(lib, FileBytes(lib, ps), r.value.index, |r.value.index|) == Ok(Live(ps))
  {
    hide Pack, Open, ReadBlock, Flushed, FileBytes, Flatten, FilterOf, EncPairs, BlockStart, Live, Scan, EntryFor;
    var bs := Flushed(Pack(ps));
    WrittenOpens(lib, ps);
    FileParts(lib, ps);
    FitsPacks(bs);
    ScanBlocks(lib, FileBytes(lib, ps), Open(lib, FileBytes(lib, ps)).value.index, bs, |bs|);
    assert bs[..|bs|] == bs;
  }

  lemma {:induction false} ScanBlocks(lib: Library, file: Bytes, index: seq<IndexEntry>, bs: Blocks, n: nat)
    requires n <= |index| == |bs|
    requires forall i :: 0 <= i < |bs| ==> AllPairsFit(bs[i]) && ReadBlock(lib, file, index[i]) == Ok(EncPairs(bs[i]))
    ensures Scan(lib, file, index, n) == Ok(Live(Flatten(bs[..n])))
  {
    hide ReadBlock, EncPairs, AllPairsFit, ScanBlock, Live, Flatten;
    if n == 0 {
      assert bs[..0] == [];
      assert Flatten([]) == [] by { FlattenNone(); }
      LiveNone();
    } else {
      ScanBlocks(lib, file, index, bs, n - 1);
      ScanWholeBlock(bs[n - 1]);
      SliceSnoc(bs, n - 1);
      FlattenSnoc(bs[..n - 1], bs[n - 1]);
      LiveConcat(Flatten(bs[..n - 1]), bs[n - 1]);
    }
  }

  lemma FlattenNone()
    ensures Flatten([]) == []
  {
  }
}
