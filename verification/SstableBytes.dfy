/** Which bytes a reader of SSTables accepts, and where the numbers of the format stand: each reading function
    is undone by the writing one, so that nothing damaged is taken for good but by its checksum. */
module SstableBytes {
  import opened Bytes
  import opened Sstable
  import opened SstableReads
  import opened SstableFile

  // ---------- sections of the file ----------

  /** A section is read exactly when it lies in the file; when its 64-bit end wraps around to a place in the
      file, slicing panics. */
  lemma SectionExactly(file: Bytes, offset: u64, size: u64)
    ensures var r := Section(file, offset, size);
            && (r.Ok? <==> offset + size < U64 && offset + size <= |file|)
            && (r.Ok? ==> r.value == file[offset..offset + size])
            && (r.Crash? <==> U64 <= offset + size <= U64 + |file|)
  {
  }

  // ---------- pairs and blocks ----------

  lemma PairLayout(p: Pair)
    ensures var r, k := EncPair(p), 4 + |p.key|;
            && |r| == k + 4 + |p.value| && LowFirst(r, 0, 4, |p.key|) && r[4..k] == p.key
            && LowFirst(r, k, 4, |p.value|) && r[k + 4..] == p.value
  {
    hide LE, Pow256, LowFirst, Holds;
    var r, k := EncPair(p), 4 + |p.key|;
    HoldsSelf(r);
    HoldsConcat(r, 0, LE(|p.key|, 4), p.key + (LE(|p.value|, 4) + p.value));
    HoldsConcat(r, 4, p.key, LE(|p.value|, 4) + p.value);
    HoldsConcat(r, k, LE(|p.value|, 4), p.value);
    HoldsSlice(r, 4, p.key);
    HoldsSlice(r, k + 4, p.value);
    LEIsLowFirst(r, 0, 4, |p.key|);
    LEIsLowFirst(r, k, 4, |p.value|);
  }

  lemma HoldsHere(b: Bytes, at: nat, next: nat, r: Bytes)
    requires at <= next <= |b| && b[at..next] == r
    ensures Holds(b, at, r) && |r| == next - at
  {
  }

  lemma FourParts(b: Bytes, p0: nat, p1: nat, p2: nat, p3: nat, p4: nat)
    requires p0 <= p1 <= p2 <= p3 <= p4 <= |b|
    ensures b[p0..p4] == b[p0..p1] + (b[p1..p2] + (b[p2..p3] + b[p3..p4]))
  {
    SliceJoin(b, p2, p3, p4);
    SliceJoin(b, p1, p2, p4);
    SliceJoin(b, p0, p1, p4);
  }

  lemma U32Inverse(b: Bytes, at: nat)
    requires at + 4 <= |b|
    ensures LE(U32LE(b, at), 4) == b[at..at + 4]
  {
    LEInverse(b, at, 4);
  }

  lemma U64Inverse(b: Bytes, at: nat)
    requires at + 8 <= |b|
    ensures LE(U64LE(b, at), 8) == b[at..at + 8]
  {
    LEInverse(b, at, 8);
  }

  /** A pair is read exactly where the bytes are those of a pair, whole. */
  lemma PairExactly(b: Bytes, at: nat, p: Pair, next: nat)
    requires at <= |b|
    ensures ReadPair(b, at) == Some(At(p, next)) <==>
              && |p.key| < U32 && |p.value| < U32 && next == at + 8 + |p.key| + |p.value| <= |b|
              && b[at..next] == EncPair(p)
  {
    hide LE, U32LE, Holds;
    if ReadPair(b, at) == Some(At(p, next)) {
      var k := at + 4 + |p.key|;
      U32Inverse(b, at);
      U32Inverse(b, k);
      FourParts(b, at, at + 4, k, k + 4, next);
    }
    if |p.key| < U32 && |p.value| < U32 && next == at + 8 + |p.key| + |p.value| <= |b| && b[at..next] == EncPair(p) {
      HoldsHere(b, at, next, EncPair(p));
      ShortPairRead(p, b, at);
    }
  }

  lemma ShortPairRead(p: Pair, b: Bytes, at: nat)
    requires |p.key| < U32 && |p.value| < U32 && Holds(b, at, EncPair(p)) && at + PairSize(p) <= |b|
    ensures ReadPair(b, at) == Some(At(p, at + PairSize(p)))
  {
    hide Holds, U32LE, LE;
    var k := at + 4 + |p.key|;
    HoldsConcat(b, at, LE(|p.key|, 4), p.key + (LE(|p.value|, 4) + p.value));
    HoldsConcat(b, at + 4, p.key, LE(|p.value|, 4) + p.value);
    HoldsConcat(b, k, LE(|p.value|, 4), p.value);
    HoldsU32(b, at, |p.key|);
    HoldsU32(b, k, |p.value|);
    HoldsSlice(b, at + 4, p.key);
    HoldsSlice(b, k + 4, p.value);
  }

  /** A block is taken for good exactly when its section lies in the file and ends with compression type 0
      and the checksum of what comes before; it panics exactly when its section does. */
  lemma BlockExactly(lib: Library, file: Bytes, e: IndexEntry, data: Bytes)
    requires e.offset < U64 && e.size < U64
    ensures ReadBlock(lib, file, e) == Ok(data) <==>
              && e.offset + e.size < U64 && e.offset + e.size <= |file|
              && file[e.offset..e.offset + e.size] == data + ([0] + LE(lib.crc(data), 4))
    ensures ReadBlock(lib, file, e).Crash? <==> U64 <= e.offset + e.size <= U64 + |file|
  {
    hide LE, U32LE, Section;
    SectionExactly(file, e.offset, e.size);
    if Section(file, e.offset, e.size).Ok? {
      TrailerExactly(lib, Section(file, e.offset, e.size).value, data);
    }
  }

  lemma TrailerExactly(lib: Library, b: Bytes, data: Bytes)
    ensures b == data + ([0] + LE(lib.crc(data), 4)) <==>
              && |b| >= 5 && data == b[..|b| - 5] && b[|b| - 5] == 0 && U32LE(b, |b| - 4) == lib.crc(data)
  {
    hide LE, U32LE;
    if b == data + ([0] + LE(lib.crc(data), 4)) {
      assert b[|data| + 1..|data| + 5] == LE(lib.crc(data), 4);
      HoldsHere(b, |data| + 1, |data| + 5, LE(lib.crc(data), 4));
      HoldsU32(b, |data| + 1, lib.crc(data));
    }
    if |b| >= 5 && data == b[..|b| - 5] && b[|b| - 5] == 0 && U32LE(b, |b| - 4) == lib.crc(data) {
      U32Inverse(b, |b| - 4);
    }
  }

  // ---------- the index ----------

  lemma EntryLayout(e: IndexEntry)
    ensures var r, k := EncIndexEntry(e), 4 + |e.key|;
            && |r| == k + 16 && LowFirst(r, 0, 4, |e.key|) && r[4..k] == e.key
            && LowFirst(r, k, 8, e.offset) && LowFirst(r, k + 8, 8, e.size)
  {
    hide LE, Pow256, LowFirst, Holds;
    var r, k := EncIndexEntry(e), 4 + |e.key|;
    HoldsSelf(r);
    HoldsConcat(r, 0, LE(|e.key|, 4), e.key + (LE(e.offset, 8) + LE(e.size, 8)));
    HoldsConcat(r, 4, e.key, LE(e.offset, 8) + LE(e.size, 8));
    HoldsConcat(r, k, LE(e.offset, 8), LE(e.size, 8));
    HoldsSlice(r, 4, e.key);
    LEIsLowFirst(r, 0, 4, |e.key|);
    LEIsLowFirst(r, k, 8, e.offset);
    LEIsLowFirst(r, k + 8, 8, e.size);
  }

  /** In an index block below 4 GiB an entry is read exactly where the bytes are those of an entry, whole. A
      key length so large that the 32-bit size of the entry wraps around to one that fits lets slicing
      panic. */
  lemma EntryExactly(b: Bytes, at: nat, e: IndexEntry, next: nat)
    requires at <= |b| && |b| - at + 16 < U32
    ensures ReadIndexEntry(b, at) == Ok(At(e, next)) <==>
              e.offset < U64 && e.size < U64 && next == at + 20 + |e.key| <= |b| && b[at..next] == EncIndexEntry(e)
    ensures ReadIndexEntry(b, at).Crash? <==>
              at + 4 <= |b| && U32 <= U32LE(b, at) + 20 <= U32 + |b| - at
  {
    hide LE, U32LE, U64LE, Holds, EncIndexEntry, ReadIndexEntry;
    EntryPanics(b, at);
    if ReadIndexEntry(b, at) == Ok(At(e, next)) {
      EntryIsThere(b, at, e, next);
    }
    if e.offset < U64 && e.size < U64 && next == at + 20 + |e.key| <= |b| && b[at..next] == EncIndexEntry(e) {
      HoldsHere(b, at, next, EncIndexEntry(e));
      EntryRead(e, b, at);
    }
  }

  lemma EntryPanics(b: Bytes, at: nat)
    requires at <= |b| && |b| - at + 16 < U32
    ensures ReadIndexEntry(b, at).Crash? <==>
              at + 4 <= |b| && U32 <= U32LE(b, at) + 20 <= U32 + |b| - at
  {
    hide U32LE, U64LE;
  }

  lemma EntryIsThere(b: Bytes, at: nat, e: IndexEntry, next: nat)
    requires at <= |b| && |b| - at + 16 < U32 && ReadIndexEntry(b, at) == Ok(At(e, next))
    ensures e.offset < U64 && e.size < U64 && next == at + 20 + |e.key| <= |b| && b[at..next] == EncIndexEntry(e)
  {
    hide LE, U32LE, U64LE;
    var k := at + 4 + |e.key|;
    U32Inverse(b, at);
    U64Inverse(b, k);
    U64Inverse(b, k + 8);
    FourParts(b, at, at + 4, k, k + 8, next);
  }

  /** An index is read whole or not at all: as many entries as its count says, each where the one before it
      ended. */
  lemma {:induction false} IndexIsWhole(b: Bytes, at: nat, n: nat, acc: seq<IndexEntry>)
    requires at <= |b|
    ensures var r := ReadIndexEntries(b, at, n, acc);
            && (r.Ok? ==> |r.value| == |acc| + n && r.value[..|acc|] == acc)
            && (r.Ok? && n > 0 ==>
                  var e := ReadIndexEntry(b, at);
                  && e.Ok? && r.value[|acc|] == e.value.item
                  && ReadIndexEntries(b, e.value.next, n - 1, acc + [e.value.item]) == r)
    decreases n
  {
    hide ReadIndexEntry;
    var e := ReadIndexEntry(b, at);
    if n > 0 && e.Ok? {
      IndexIsWhole(b, e.value.next, n - 1, acc + [e.value.item]);
      var r := ReadIndexEntries(b, e.value.next, n - 1, acc + [e.value.item]);
      if r.Ok? {
        assert r.value[..|acc| + 1][..|acc|] == acc;
        assert r.value[..|acc| + 1][|acc|] == r.value[|acc|];
      }
    }
  }

  // ---------- the footer ----------

  /** The numbers of a footer, the low byte of each first. */
  lemma FooterLayout(f: Footer)
    ensures var b := EncFooter(f);
            && LowFirst(b, 0, 8, f.indexOffset) && LowFirst(b, 8, 8, f.indexSize) && LowFirst(b, 16, 8, f.bloomOffset)
            && LowFirst(b, 24, 8, f.bloomSize) && LowFirst(b, 32, 8, f.magic) && LowFirst(b, 40, 4, f.version)
            && LowFirst(b, 44, 4, f.checksum)
  {
    hide LE, Pow256, LowFirst, Holds;
    var b := EncFooter(f);
    HoldsSelf(b);
    var rest := LE(f.magic, 8) + LE(f.version, 4);
    HoldsConcat(b, 0, EncFooterFields(f), LE(f.checksum, 4));
    HoldsConcat(b, 0, LE(f.indexOffset, 8), LE(f.indexSize, 8) + (LE(f.bloomOffset, 8) + (LE(f.bloomSize, 8) + rest)));
    HoldsConcat(b, 8, LE(f.indexSize, 8), LE(f.bloomOffset, 8) + (LE(f.bloomSize, 8) + rest));
    HoldsConcat(b, 16, LE(f.bloomOffset, 8), LE(f.bloomSize, 8) + rest);
    HoldsConcat(b, 24, LE(f.bloomSize, 8), rest);
    HoldsConcat(b, 32, LE(f.magic, 8), LE(f.version, 4));
    LEIsLowFirst(b, 0, 8, f.indexOffset);
    LEIsLowFirst(b, 8, 8, f.indexSize);
    LEIsLowFirst(b, 16, 8, f.bloomOffset);
    LEIsLowFirst(b, 24, 8, f.bloomSize);
    LEIsLowFirst(b, 32, 8, f.magic);
    LEIsLowFirst(b, 40, 4, f.version);
    LEIsLowFirst(b, 44, 4, f.checksum);
  }

  /** A footer is taken for good exactly when the file ends with its 48 bytes, among them the magic number,
      version 1 and the checksum of the 44 bytes before it. */
  lemma FooterExactly(lib: Library, file: Bytes, f: Footer)
    ensures ReadFooter(lib, file) == Ok(f) <==>
              && f.indexOffset < U64 && f.indexSize < U64 && f.bloomOffset < U64 && f.bloomSize < U64
              && f.magic == 0x5353544142314556 && f.version == 1 && |file| >= 48
              && file[|file| - 48..] == EncFooter(f) && f.checksum == lib.crc(file[|file| - 48..][..44])
    ensures !ReadFooter(lib, file).Crash?
  {
    hide LE, U32LE, U64LE, EncFooterFields;
    if ReadFooter(lib, file) == Ok(f) {
      FooterInverse(file[|file| - 48..], f);
    }
    if |file| >= 48 && file[|file| - 48..] == EncFooter(f) && f.checksum == lib.crc(file[|file| - 48..][..44])
       && f.indexOffset < U64 && f.indexSize < U64 && f.bloomOffset < U64 && f.bloomSize < U64
       && f.magic == 0x5353544142314556 && f.version == 1 {
      assert EncFooter(f)[..44] == EncFooterFields(f);
      FooterRead(lib, file, f);
    }
  }

  lemma FooterInverse(b: Bytes, f: Footer)
    requires |b| == 48
    requires f == Footer(U64LE(b, 0), U64LE(b, 8), U64LE(b, 16), U64LE(b, 24), U64LE(b, 32), U32LE(b, 40), U32LE(b, 44))
    ensures b == EncFooter(f)
  {
    hide LE, U32LE, U64LE;
    U64Inverse(b, 0);
    U64Inverse(b, 8);
    U64Inverse(b, 16);
    U64Inverse(b, 24);
    U64Inverse(b, 32);
    U32Inverse(b, 40);
    U32Inverse(b, 44);
    SliceJoin(b, 32, 40, 44);
    SliceJoin(b, 24, 32, 44);
    SliceJoin(b, 16, 24, 44);
    SliceJoin(b, 8, 16, 44);
    SliceJoin(b, 0, 8, 44);
    SliceJoin(b, 0, 44, 48);
    assert b[0..48] == b;
  }

  // ---------- the whole file ----------

  /** A file opens exactly when its footer, then its index and then its filter do; it panics where one of the
      two sections, or an entry of the index, does. */
  lemma OpenExactly(lib: Library, file: Bytes)
    ensures var r, f := Open(lib, file), ReadFooter(lib, file);
            && (r.Ok? <==> f.Ok? && ReadIndex(file, f.value).Ok? && ReadBloom(lib, file, f.value).Ok?)
            && (r.Ok? ==>
                  r.value == Opened(f.value, ReadIndex(file, f.value).value, ReadBloom(lib, file, f.value).value))
            && (r.Crash? <==> f.Ok? && (ReadIndex(file, f.value).Crash? ||
                                        (ReadIndex(file, f.value).Ok? && ReadBloom(lib, file, f.value).Crash?)))
  {
    hide ReadIndex, ReadBloom;
    if ReadFooter(lib, file).Ok? {
      FooterExactly(lib, file, ReadFooter(lib, file).value);
    }
    FooterExactly(lib, file, Footer(0, 0, 0, 0, 0, 0, 0));
  }

  /** What a writer puts down, in this order: the blocks, the index, the filter and the footer, which says where
      the two before it stand. */
  lemma FileLayout(lib: Library, bs: Blocks, filter: Filter)
    requires NoEmptyBlock(bs)
    ensures var file, data := FileOf(lib, bs, filter), DataBlocks(lib, bs);
            var index, bloom := EncIndex(BlockIndex(lib, bs)), lib.gobEncode(filter);
            var at, end := |data| + |index|, |data| + |index| + |bloom|;
            && file[..|data|] == data && file[|data|..at] == index && file[at..end] == bloom
            && |file| == end + 48 && exists f ::
                 && file[end..] == EncFooter(f)
                 && f.indexOffset == |data| && f.indexSize == |index| && f.bloomOffset == at && f.bloomSize == |bloom|
                 && f.magic == 0x5353544142314556 && f.version == 1 && f.checksum == lib.crc(EncFooter(f)[..44])
  {
    hide DataBlocks, EncIndex, BlockIndex, EncFooterFields;
    var file, data := FileOf(lib, bs, filter), DataBlocks(lib, bs);
    var index, bloom := EncIndex(BlockIndex(lib, bs)), lib.gobEncode(filter);
    var f := FooterFor(lib, |data|, index, bloom);
    Sections(data, index, bloom, EncFooter(f));
    StartsWith(data, index + (bloom + EncFooter(f)));
    ChecksumOutside(f, f.(checksum := 0));
    assert EncFooter(f)[..44] == EncFooterFields(f);
  }

  lemma StartsWith(a: Bytes, b: Bytes)
    ensures (a + b)[..|a|] == a
  {
  }

  /** The filter has the bits of the keys, and no others. */
  lemma {:induction false} FilterExactly(lib: Library, ps: seq<Pair>, bit: nat)
    ensures bit in FilterOf(lib, ps) <==> exists i :: 0 <= i < |ps| && bit in lib.bits(ps[i].key)
  {
    if ps != [] {
      var n := |ps| - 1;
      FilterExactly(lib, ps[..n], bit);
      assert forall i :: 0 <= i < n ==> ps[..n][i] == ps[i];
    }
  }

  // ---------- damaged blocks ----------

  /** A scan reads every block or fails: nothing is delivered around a damaged one. */
  lemma {:induction false} ScanIsWhole(lib: Library, file: Bytes, index: seq<IndexEntry>, n: nat)
    requires n <= |index|
    ensures Scan(lib, file, index, n).Ok? <==> forall i :: 0 <= i < n ==> ReadBlock(lib, file, index[i]).Ok?
  {
    hide ReadBlock, ScanBlock;
    if n > 0 {
      ScanIsWhole(lib, file, index, n - 1);
    }
  }

  /** A key that may be in the file is looked for in the first block whose last key is no smaller; when that
      block is damaged the answer says so. */
  lemma DamageIsReported(lib: Library, file: Bytes, r: Opened, key: Bytes, i: nat)
    requires lib.bits(key) <= r.filter && i < |r.index| && ReadBlock(lib, file, r.index[i]).Err?
    requires forall j, k :: 0 <= j < k < |r.index| ==> Less(r.index[j].key, r.index[k].key)
    requires !Less(r.index[i].key, key) && forall j :: 0 <= j < i ==> Less(r.index[j].key, key)
    ensures Get(lib, file, r, key) == Unreadable
  {
    hide Less, ReadBlock, BinarySearch;
    BinarySearchSplits(r.index, key, 0, |r.index|);
  }
}
