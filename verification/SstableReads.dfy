/** Reading back a file a writer produced: it opens, every `Get` answers like the list of pairs that
    was written, and `Scan` yields the live pairs in order. */
module SstableReads {
  import opened Bytes
  import opened Sstable

  // ---------- conditions and the reference answer ----------

  /** The lengths fit the 32-bit sums of the format. */
  predicate FitsPair(p: Pair) {
    PairSize(p) < U32 && |p.key| + 20 < U32
  }

  predicate AllPairsFit(ps: seq<Pair>) {
    forall i :: 0 <= i < |ps| ==> FitsPair(ps[i])
  }

  ghost predicate Sorted(ps: seq<Pair>) {
    forall i, j :: 0 <= i < j < |ps| ==> Less(ps[i].key, ps[j].key)
  }

  /** What `Get(key)` has to answer for the pairs `ps`. */
  ghost predicate Answers(ps: seq<Pair>, key: Bytes, a: Answer) {
    match a
    case Found(v) => v != [] && Pair(key, v) in ps
    case Deleted => Pair(key, []) in ps
    case NotFound => forall i :: 0 <= i < |ps| ==> ps[i].key != key
    case _ => false
  }

  lemma AnswerIsUnique(ps: seq<Pair>, key: Bytes, a: Answer, b: Answer)
    requires Sorted(ps) && Answers(ps, key, a) && Answers(ps, key, b)
    ensures a == b
  {
    if !a.NotFound? && !b.NotFound? {
      var v, w := if a.Found? then a.value else [], if b.Found? then b.value else [];
      var i :| 0 <= i < |ps| && ps[i] == Pair(key, v);
      var j :| 0 <= j < |ps| && ps[j] == Pair(key, w);
      LessIrreflexive(key);
    }
  }

  // ---------- pairs in a block ----------

  function PairStart(ps: seq<Pair>, i: nat): nat
    requires i <= |ps|
  {
    if i == 0 then 0 else PairStart(ps, i - 1) + PairSize(ps[i - 1])
  }

  lemma {:induction false} PairStartPrefix(ps: seq<Pair>, qs: seq<Pair>, i: nat)
    requires i <= |ps| && i <= |qs| && forall j :: 0 <= j < i ==> ps[j] == qs[j]
    ensures PairStart(ps, i) == PairStart(qs, i)
  {
    if i > 0 {
      PairStartPrefix(ps, qs, i - 1);
    }
  }

  lemma {:induction false} PairsLength(ps: seq<Pair>)
    ensures |EncPairs(ps)| == PairStart(ps, |ps|)
  {
    if ps != [] {
      PairsLength(ps[..|ps| - 1]);
      PairStartPrefix(ps[..|ps| - 1], ps, |ps| - 1);
    }
  }

  lemma {:induction false} PairsHold(b: Bytes, at: nat, ps: seq<Pair>, i: nat)
    requires i < |ps| && Holds(b, at, EncPairs(ps))
    ensures Holds(b, at + PairStart(ps, i), EncPair(ps[i]))
  {
    hide EncPair, Holds;
    var n := |ps| - 1;
    var init := ps[..n];
    HoldsConcat(b, at, EncPairs(init), EncPair(ps[n]));
    PairStartPrefix(init, ps, i);
    if i < n {
      PairsHold(b, at, init, i);
    } else {
      PairsLength(init);
    }
  }

  lemma PairRead(p: Pair, b: Bytes, at: nat)
    requires FitsPair(p) && Holds(b, at, EncPair(p)) && at + PairSize(p) <= |b|
    ensures ReadPair(b, at) == Some(At(p, at + PairSize(p)))
  {
    hide Holds, U32LE, LE;
    var k := at + 4 + |p.key|;
    HoldsConcat(b, at, LE(|p.key|, 4), p.key + (LE(|p.value|, 4) + p.value));
    HoldsConcat(b, at + 4, p.key, LE(|p.value|, 4) + p.value);
    HoldsConcat(b, k, LE(|p.value|, 4), p.value);
    HoldsU32(b, at, |p.key|);
    HoldsU32(b, k, |p.value|);
    HoldsSlice(b, at + 4, p.key);
    HoldsSlice(b, k + 4, p.value);
  }

  lemma BlockPairRead(ps: seq<Pair>, i: nat)
    requires i < |ps| && AllPairsFit(ps)
    ensures var b := EncPairs(ps);
            && PairStart(ps, i) <= |b| && PairStart(ps, i + 1) <= |b|
            && ReadPair(b, PairStart(ps, i)) == Some(At(ps[i], PairStart(ps, i + 1)))
  {
    hide ReadPair;
    var b := EncPairs(ps);
    PairsLength(ps);
    PairStartMonotone(ps, i + 1, |ps|);
    PairsHold(b, 0, ps, i);
    PairRead(ps[i], b, PairStart(ps, i));
  }

  lemma {:induction false} PairStartMonotone(ps: seq<Pair>, i: nat, j: nat)
    requires i <= j <= |ps|
    ensures PairStart(ps, i) <= PairStart(ps, j)
  {
    if i < j {
      PairStartMonotone(ps, i, j - 1);
    }
  }

  // ---------- searching and scanning a block ----------

  /** The early-stopping search of a sorted block answers for the whole block. */
  lemma {:induction false} SearchCorrect(ps: seq<Pair>, key: Bytes, i: nat)
    requires Sorted(ps) && AllPairsFit(ps) && i <= |ps|
    requires forall j :: 0 <= j < i ==> ps[j].key != key
    ensures PairStart(ps, i) <= |EncPairs(ps)|
    ensures Answers(ps, key, Search(EncPairs(ps), key, PairStart(ps, i)))
    decreases |ps| - i
  {
    hide ReadPair, EncPairs, PairStart;
    PairsLength(ps);
    PairStartMonotone(ps, i, |ps|);
    if i == |ps| {
      NothingLeft(EncPairs(ps));
    } else {
      BlockPairRead(ps, i);
      if ps[i].key == key {
        assert ps[i] == Pair(key, ps[i].value);
      } else if Less(key, ps[i].key) {
        forall j | 0 <= j < |ps|
          ensures ps[j].key != key
        {
          if j > i {
            LessTransitive(key, ps[i].key, ps[j].key);
            LessIrreflexive(key);
          }
        }
      } else {
        SearchCorrect(ps, key, i + 1);
      }
    }
  }

  lemma NothingLeft(b: Bytes)
    ensures ReadPair(b, |b|) == None
  {
  }

  /** The pairs that are not tombstones. */
  function Live(ps: seq<Pair>): seq<Pair> {
    if ps == [] then [] else Live(ps[..|ps| - 1]) + if ps[|ps| - 1].value == [] then [] else [ps[|ps| - 1]]
  }

  lemma {:induction false} LiveConcat(a: seq<Pair>, b: seq<Pair>)
    ensures Live(a + b) == Live(a) + Live(b)
  {
    if b == [] {
      assert a + b == a;
    } else {
      var init := b[..|b| - 1];
      assert (a + b)[..|a + b| - 1] == a + init;
      LiveConcat(a, init);
      Concat3(Live(a), Live(init), if b[|b| - 1].value == [] then [] else [b[|b| - 1]]);
    }
  }

  lemma LiveOne(p: Pair)
    ensures Live([p]) == if p.value == [] then [] else [p]
  {
    assert [p][..0] == [];
  }

  lemma {:induction false} ScanBlockCorrect(ps: seq<Pair>, i: nat)
    requires AllPairsFit(ps) && i <= |ps|
    ensures PairStart(ps, i) <= |EncPairs(ps)|
    ensures ScanBlock(EncPairs(ps), PairStart(ps, i)) == Live(ps[i..])
    decreases |ps| - i
  {
    hide ReadPair, EncPairs, PairStart, Live;
    PairsLength(ps);
    PairStartMonotone(ps, i, |ps|);
    if i == |ps| {
      NothingLeft(EncPairs(ps));
      assert ps[i..] == [];
      LiveNone();
    } else {
      BlockPairRead(ps, i);
      ScanBlockCorrect(ps, i + 1);
      DropCons(ps, i);
      LiveConcat([ps[i]], ps[i + 1..]);
      LiveOne(ps[i]);
      assert ScanBlock(EncPairs(ps), PairStart(ps, i))
          == (if ps[i].value == [] then [] else [ps[i]]) + ScanBlock(EncPairs(ps), PairStart(ps, i + 1));
    }
  }

  lemma DropCons<T>(s: seq<T>, i: nat)
    requires i < |s|
    ensures s[i..] == [s[i]] + s[i + 1..]
  {
  }

  lemma LiveNone()
    ensures Live([]) == []
  {
  }

  lemma ScanWholeBlock(ps: seq<Pair>)
    requires AllPairsFit(ps)
    ensures ScanBlock(EncPairs(ps), 0) == Live(ps)
  {
    hide ScanBlock, EncPairs, Live;
    ScanBlockCorrect(ps, 0);
    assert PairStart(ps, 0) == 0;
    assert ps[0..] == ps;
  }

  // ---------- where things stand in the file ----------

  function BlockStart(lib: Library, bs: Blocks, i: nat): nat
    requires i <= |bs|
  {
    if i == 0 then 0 else BlockStart(lib, bs, i - 1) + |EncPairs(bs[i - 1])| + 5
  }

  lemma {:induction false} BlockStartPrefix(lib: Library, bs: Blocks, cs: Blocks, i: nat)
    requires i <= |bs| && i <= |cs| && forall j :: 0 <= j < i ==> bs[j] == cs[j]
    ensures BlockStart(lib, bs, i) == BlockStart(lib, cs, i)
  {
    if i > 0 {
      BlockStartPrefix(lib, bs, cs, i - 1);
    }
  }

  lemma {:induction false} BlocksLength(lib: Library, bs: Blocks)
    ensures |DataBlocks(lib, bs)| == BlockStart(lib, bs, |bs|)
  {
    hide EncPairs;
    if bs != [] {
      BlocksLength(lib, bs[..|bs| - 1]);
      BlockStartPrefix(lib, bs[..|bs| - 1], bs, |bs| - 1);
    }
  }

  lemma {:induction false} BlocksHold(lib: Library, b: Bytes, bs: Blocks, i: nat)
    requires i < |bs| && Holds(b, 0, DataBlocks(lib, bs))
    ensures Holds(b, BlockStart(lib, bs, i), DiskBlock(lib, bs[i]))
  {
    hide DiskBlock, Holds;
    var n := |bs| - 1;
    var init := bs[..n];
    HoldsConcat(b, 0, DataBlocks(lib, init), DiskBlock(lib, bs[n]));
    BlockStartPrefix(lib, init, bs, i);
    if i < n {
      BlocksHold(lib, b, init, i);
    } else {
      BlocksLength(lib, init);
    }
  }

  lemma {:induction false} BlockStartMonotone(lib: Library, bs: Blocks, i: nat, j: nat)
    requires i <= j <= |bs|
    ensures BlockStart(lib, bs, i) <= BlockStart(lib, bs, j)
  {
    if i < j {
      BlockStartMonotone(lib, bs, i, j - 1);
    }
  }

  /** The flushed blocks tile the file from offset 0 without gaps, and the index says where. */
  lemma {:induction false} IndexIs(lib: Library, bs: Blocks, i: nat)
    requires NoEmptyBlock(bs) && i < |bs|
    ensures |BlockIndex(lib, bs)| == |bs|
    ensures BlockIndex(lib, bs)[i] == EntryFor(bs[i], BlockStart(lib, bs, i))
  {
    hide DataBlocks, EntryFor;
    var n := |bs| - 1;
    var init := bs[..n];
    BlockStartPrefix(lib, init, bs, i);
    IndexLength(lib, init);
    if i < n {
      IndexIs(lib, init, i);
    } else {
      BlocksLength(lib, init);
    }
  }

  lemma {:induction false} IndexLength(lib: Library, bs: Blocks)
    requires NoEmptyBlock(bs)
    ensures |BlockIndex(lib, bs)| == |bs|
  {
    hide DataBlocks, EntryFor;
    if bs != [] {
      IndexLength(lib, bs[..|bs| - 1]);
    }
  }

  // ---------- the index block ----------

  function EntryStart(es: seq<IndexEntry>, i: nat): nat
    requires i <= |es|
  {
    if i == 0 then 4 else EntryStart(es, i - 1) + 20 + |es[i - 1].key|
  }

  lemma {:induction false} EntryStartPrefix(es: seq<IndexEntry>, fs: seq<IndexEntry>, i: nat)
    requires i <= |es| && i <= |fs| && forall j :: 0 <= j < i ==> es[j] == fs[j]
    ensures EntryStart(es, i) == EntryStart(fs, i)
  {
    if i > 0 {
      EntryStartPrefix(es, fs, i - 1);
    }
  }

  lemma {:induction false} EntriesLength(es: seq<IndexEntry>)
    ensures |EncIndexEntries(es)| + 4 == EntryStart(es, |es|)
  {
    if es != [] {
      EntriesLength(es[..|es| - 1]);
      EntryStartPrefix(es[..|es| - 1], es, |es| - 1);
    }
  }

  lemma {:induction false} EntriesHold(b: Bytes, es: seq<IndexEntry>, i: nat)
    requires i < |es| && Holds(b, 4, EncIndexEntries(es))
    ensures Holds(b, EntryStart(es, i), EncIndexEntry(es[i]))
  {
    hide EncIndexEntry, Holds;
    var n := |es| - 1;
    var init := es[..n];
    HoldsConcat(b, 4, EncIndexEntries(init), EncIndexEntry(es[n]));
    EntryStartPrefix(init, es, i);
    if i < n {
      EntriesHold(b, init, i);
    } else {
      EntriesLength(init);
    }
  }

  predicate FitsEntry(e: IndexEntry) {
    |e.key| + 20 < U32 && e.offset < U64 && e.size < U64
  }

  lemma EntryRead(e: IndexEntry, b: Bytes, at: nat)
    requires FitsEntry(e) && Holds(b, at, EncIndexEntry(e)) && at + 20 + |e.key| <= |b|
    ensures ReadIndexEntry(b, at) == Ok(At(e, at + 20 + |e.key|))
  {
    hide Holds, U32LE, U64LE, LE;
    var k := at + 4 + |e.key|;
    HoldsConcat(b, at, LE(|e.key|, 4), e.key + (LE(e.offset, 8) + LE(e.size, 8)));
    HoldsConcat(b, at + 4, e.key, LE(e.offset, 8) + LE(e.size, 8));
    HoldsConcat(b, k, LE(e.offset, 8), LE(e.size, 8));
    HoldsU32(b, at, |e.key|);
    HoldsSlice(b, at + 4, e.key);
    HoldsU64(b, k, e.offset);
    HoldsU64(b, k + 8, e.size);
  }

  lemma {:induction false} EntryStartMonotone(es: seq<IndexEntry>, i: nat, j: nat)
    requires i <= j <= |es|
    ensures EntryStart(es, i) <= EntryStart(es, j)
  {
    if i < j {
      EntryStartMonotone(es, i, j - 1);
    }
  }

  lemma {:induction false} EntriesRead(b: Bytes, es: seq<IndexEntry>, i: nat, acc: seq<IndexEntry>)
    requires i <= |es| && Holds(b, 4, EncIndexEntries(es)) && |b| == EntryStart(es, |es|)
    requires forall j :: 0 <= j < |es| ==> FitsEntry(es[j])
    requires EntryStart(es, i) <= |b| && acc == es[..i]
    ensures ReadIndexEntries(b, EntryStart(es, i), |es| - i, acc) == Ok(es)
    decreases |es| - i
  {
    hide ReadIndexEntry, EncIndexEntries, Holds, FitsEntry;
    if i == |es| {
      assert es[..i] == es;
    } else {
      EntriesHold(b, es, i);
      EntryStartMonotone(es, i + 1, |es|);
      EntryRead(es[i], b, EntryStart(es, i));
      SliceSnoc(es, i);
      EntriesRead(b, es, i + 1, acc + [es[i]]);
    }
  }

  /** The index block decodes to the entries it was made from. */
  lemma IndexRoundTrip(es: seq<IndexEntry>)
    requires |es| < U32 && forall j :: 0 <= j < |es| ==> FitsEntry(es[j])
    ensures var b := EncIndex(es);
            |b| >= 4 && ReadIndexEntries(b, 4, U32LE(b, 0), []) == Ok(es)
  {
    hide Holds, ReadIndexEntries, FitsEntry, LE, U32LE;
    var b := EncIndex(es);
    assert Holds(b, 0, b) by { HoldsSelf(b); }
    HoldsConcat(b, 0, LE(|es|, 4), EncIndexEntries(es));
    HoldsU32(b, 0, |es|);
    EntriesLength(es);
    assert EntryStart(es, 0) == 4;
    EntriesRead(b, es, 0, []);
  }

  lemma HoldsSelf(b: Bytes)
    ensures Holds(b, 0, b)
  {
  }

  // ---------- the footer and the sections ----------

  lemma Sections(data: Bytes, index: Bytes, bloom: Bytes, footer: Bytes)
    ensures var file := data + (index + (bloom + footer));
            && file[|data|..|data| + |index|] == index
            && file[|data| + |index|..|data| + |index| + |bloom|] == bloom
            && file[|file| - |footer|..] == footer
            && Holds(file, 0, data)
  {
  }

  lemma FooterRead(lib: Library, file: Bytes, f: Footer)
    requires |file| >= FOOTER_SIZE && file[|file| - FOOTER_SIZE..] == EncFooter(f)
    requires f.indexOffset < U64 && f.indexSize < U64 && f.bloomOffset < U64 && f.bloomSize < U64
    requires f.magic == MAGIC && f.version == VERSION && f.checksum == lib.crc(EncFooterFields(f))
    ensures ReadFooter(lib, file) == Ok(f)
  {
    hide Holds, LE, U32LE, U64LE;
    var b := EncFooter(f);
    HoldsSelf(b);
    var rest := LE(f.magic, 8) + LE(f.version, 4);
    HoldsConcat(b, 0, EncFooterFields(f), LE(f.checksum, 4));
    HoldsConcat(b, 0, LE(f.indexOffset, 8), LE(f.indexSize, 8) + (LE(f.bloomOffset, 8) + (LE(f.bloomSize, 8) + rest)));
    HoldsConcat(b, 8, LE(f.indexSize, 8), LE(f.bloomOffset, 8) + (LE(f.bloomSize, 8) + rest));
    HoldsConcat(b, 16, LE(f.bloomOffset, 8), LE(f.bloomSize, 8) + rest);
    HoldsConcat(b, 24, LE(f.bloomSize, 8), rest);
    HoldsConcat(b, 32, LE(f.magic, 8), LE(f.version, 4));
    HoldsU64(b, 0, f.indexOffset);
    HoldsU64(b, 8, f.indexSize);
    HoldsU64(b, 16, f.bloomOffset);
    HoldsU64(b, 24, f.bloomSize);
    HoldsU64(b, 32, f.magic);
    HoldsU32(b, 40, f.version);
    HoldsU32(b, 44, f.checksum);
    assert b[..44] == EncFooterFields(f);
  }

  /** A file put together by `Close` opens to its index and filter. */
  lemma AssembledOpens(lib: Library, data: Bytes, es: seq<IndexEntry>, filter: Filter)
    requires GobRoundTrips(lib) && |es| < U32 && forall j :: 0 <= j < |es| ==> FitsEntry(es[j])
    requires |Assemble(lib, data, EncIndex(es), lib.gobEncode(filter))| < U64
    ensures var file := Assemble(lib, data, EncIndex(es), lib.gobEncode(filter));
            var r := Open(lib, file);
            r.Ok? && r.value.index == es && r.value.filter == filter
  {
    hide EncIndex, EncFooterFields, ReadIndexEntries, FitsEntry, ReadFooter;
    var index, bloom := EncIndex(es), lib.gobEncode(filter);
    var f := FooterFor(lib, |data|, index, bloom);
    var file := Assemble(lib, data, index, bloom);
    Sections(data, index, bloom, EncFooter(f));
    assert f.checksum == lib.crc(EncFooterFields(f)) by { ChecksumOutside(f, f.(checksum := 0)); }
    FooterRead(lib, file, f);
    IndexRoundTrip(es);
  }

  lemma ChecksumOutside(f: Footer, g: Footer)
    requires f.(checksum := 0) == g.(checksum := 0)
    ensures EncFooterFields(f) == EncFooterFields(g)
  {
  }
}
