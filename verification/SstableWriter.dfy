/** The SSTable writer and reader as objects (pkg/sstable/writer.go, reader.go). Each method is tied
    to the functions of Sstable, and what those mean is proved in SstableReads and SstableFile. */
module SstableWriter {
  import opened Bytes
  import opened Sstable
  import opened SstableReads
  import opened SstableFile

  // ---------- what Add accepts ----------

  /** Go's `lastKey != "" && key <= lastKey` is the refusal. */
  predicate Follows(lastKey: Bytes, key: Bytes) {
    lastKey == [] || Less(lastKey, key)
  }

  function LastKey(ps: seq<Pair>): Bytes {
    if ps == [] then [] else ps[|ps| - 1].key
  }

  ghost predicate Accepted(ps: seq<Pair>) {
    forall i :: 0 < i < |ps| ==> Follows(ps[i - 1].key, ps[i].key)
  }

  /** The order test of `Add` enforces strictly increasing keys, but for the empty key, which it
      takes for "nothing added yet" and so lets in again and again at the front. */
  lemma AcceptedIsSorted(ps: seq<Pair>)
    ensures Sorted(ps) <==> Accepted(ps) && (|ps| < 2 || ps[1].key != [])
  {
    if Sorted(ps) && |ps| >= 2 {
      assert Less(ps[0].key, ps[1].key);
    }
    if Accepted(ps) && |ps| >= 2 && ps[1].key != [] {
      forall i | 0 < i < |ps|
        ensures Less(ps[i - 1].key, ps[i].key)
      {
        AcceptedStep(ps, i);
      }
      forall i, j | 0 <= i < j < |ps|
        ensures Less(ps[i].key, ps[j].key)
      {
        SortedChain(ps, i, j);
      }
    }
  }

  lemma {:induction false} AcceptedStep(ps: seq<Pair>, i: nat)
    requires Accepted(ps) && 0 < i < |ps| && ps[1].key != []
    ensures Less(ps[i - 1].key, ps[i].key) && ps[i].key != []
  {
    if i > 1 {
      AcceptedStep(ps, i - 1);
    }
  }

  lemma {:induction false} SortedChain(ps: seq<Pair>, i: nat, j: nat)
    requires forall k :: 0 < k < |ps| ==> Less(ps[k - 1].key, ps[k].key)
    requires i < j < |ps|
    ensures Less(ps[i].key, ps[j].key)
    decreases j
  {
    hide Less;
    assert Less(ps[j - 1].key, ps[j].key);
    if i < j - 1 {
      SortedChain(ps, i, j - 1);
      LessTransitive(ps[i].key, ps[j - 1].key, ps[j].key);
    }
  }

  lemma AcceptedSnoc(ps: seq<Pair>, p: Pair)
    requires Accepted(ps)
    ensures Accepted(ps + [p]) <==> Follows(LastKey(ps), p.key)
  {
    hide Less;
    var all := ps + [p];
    if ps != [] {
      assert all[|ps| - 1] == ps[|ps| - 1] && all[|ps|] == p;
    }
  }

  lemma PackSnoc(ps: seq<Pair>, p: Pair)
    ensures Pack(ps + [p]) == AddPair(Pack(ps), p)
  {
    SnocParts(ps, p);
  }

  lemma FilterSnoc(lib: Library, ps: seq<Pair>, p: Pair)
    ensures FilterOf(lib, ps + [p]) == FilterOf(lib, ps) + lib.bits(p.key)
  {
    SnocParts(ps, p);
  }

  lemma AcceptedPrefix(ps: seq<Pair>, n: nat)
    requires Accepted(ps) && n <= |ps|
    ensures Accepted(ps[..n])
  {
  }

  // ---------- lengths that do not fit 32 bits ----------

  /** What is stored of a pair: both lengths are cut to 32 bits, and the bytes with them. */
  function Stored(key: Bytes, value: Bytes): Pair {
    Pair(key[..|key| % U32], value[..|value| % U32])
  }

  /** The 32-bit size of the entry wraps around, and its buffer is too short for what is copied in. */
  predicate Wraps(key: Bytes, value: Bytes) {
    PairSize(Stored(key, value)) >= U32
  }

  predicate Writable(ps: seq<Pair>) {
    forall i :: 0 <= i < |ps| ==> PairSize(ps[i]) < U32
  }

  lemma ShortIsStored(key: Bytes, value: Bytes)
    ensures |key| < U32 ==> Stored(key, value).key == key
    ensures PairSize(Pair(key, value)) < U32 ==>
              |key| < U32 && !Wraps(key, value) && Stored(key, value) == Pair(key, value)
  {
  }

  datatype AddResult = AddOk | AddRefused | AddPanics

  // ---------- the writer ----------

  class Writer {
    const lib: Library
    var out: Bytes
    var currentBlock: Bytes
    var currentOffset: nat
    var indexEntries: seq<IndexEntry>
    var filter: Filter
    var lastKey: Bytes
    var entriesCount: nat
    var closed: bool
    ghost var pairs: seq<Pair>   // what has been added
    ghost var packing: Packing   // how it is spread over blocks so far
    ghost var mangled: bool      // a key of 4 GiB was cut, or an Add panicked half way: all bets are off

    /** The fields hold what the packing says: the flushed blocks tile the file from offset 0. */
    ghost predicate Laid()
      reads this
    {
      && NoEmptyBlock(packing.blocks)
      && out == DataBlocks(lib, packing.blocks)
      && currentBlock == EncPairs(packing.current)
      && currentOffset == |out|
      && indexEntries == BlockIndex(lib, packing.blocks)
      && (packing.current != [] ==> lastKey == LastKey(packing.current))
    }

    ghost predicate Valid()
      reads this
    {
      && entriesCount == |pairs|
      && (!mangled ==> Accepted(pairs))
      && (!mangled && closed ==> out == FileBytes(lib, pairs) && currentOffset + FOOTER_SIZE == |out|)
      && (!mangled && !closed ==>
            Laid() && packing == Pack(pairs) && filter == FilterOf(lib, pairs) && lastKey == LastKey(pairs))
    }

    constructor (lib: Library)
      ensures Valid() && !closed && !mangled && pairs == [] && this.lib == lib
    {
      this.lib := lib;
      out, currentBlock, currentOffset, indexEntries := [], [], 0, [];
      filter, lastKey, entriesCount, closed := {}, [], 0, false;
      pairs, packing, mangled := [], Packing([], []), false;
    }

    /** A refused pair leaves no trace; an accepted one is appended. */
    method Add(key: Bytes, value: Bytes) returns (r: AddResult)
      requires Valid()
      modifies this
      ensures Valid() && closed == old(closed)
      ensures !old(mangled) ==>
                r == (if closed || !Follows(LastKey(old(pairs)), key) then AddRefused
                      else if Wraps(key, value) then AddPanics else AddOk)
      ensures r == AddOk ==> pairs == old(pairs) + [Stored(key, value)] && (mangled <==> old(mangled) || |key| >= U32)
      ensures r == AddRefused ==>
                pairs == old(pairs) && out == old(out) && filter == old(filter) && mangled == old(mangled)
    {
      hide EncPair, EncPairs, DataBlocks, BlockIndex, Less, Accepted, FilterOf, Pack, Stored, PairSize;
      if closed || (lastKey != [] && !Less(lastKey, key)) {
        return AddRefused;
      }
      ghost var p := Stored(key, value);
      var keyLen, valueLen := |key| % U32, |value| % U32;
      var entrySize := (4 + keyLen + 4 + valueLen) % U32;
      SizeOfEntry(key, value);
      filter := filter + lib.bits(key);
      PairsEmpty(packing.current);
      if |currentBlock| + entrySize > BLOCK_SIZE {
        FlushBlock();
      }
      if entrySize < 4 + keyLen + 4 + valueLen {
        mangled := true;
        return AddPanics;
      }
      AppendEntry(key, value);
      return AddOk;
    }

    /** The end of `Add`: the entry goes into the open block. */
    method AppendEntry(key: Bytes, value: Bytes)
      requires !closed && entriesCount == |pairs|
      requires !mangled ==> Laid() && Accepted(pairs) && Follows(LastKey(pairs), key)
      requires !mangled ==>
                 packing.(current := packing.current + [Stored(key, value)]) == AddPair(Pack(pairs), Stored(key, value))
      requires !mangled ==> filter == FilterOf(lib, pairs) + lib.bits(key)
      modifies this
      ensures Valid() && closed == old(closed)
      ensures pairs == old(pairs) + [Stored(key, value)] && (mangled <==> old(mangled) || |key| >= U32)
    {
      hide EncPair, EncPairs, DataBlocks, BlockIndex, Less, Accepted, FilterOf, Pack, Stored, PairSize, AddPair;
      ghost var p := Stored(key, value);
      currentBlock := currentBlock + EncPair(Stored(key, value));
      PairsSnoc(packing.current, p);
      lastKey := key;
      entriesCount := entriesCount + 1;
      packing := packing.(current := packing.current + [p]);
      PackSnoc(pairs, p);
      FilterSnoc(lib, pairs, p);
      ShortIsStored(key, value);
      if !mangled && |key| < U32 {
        AcceptedSnoc(pairs, p);
      }
      pairs, mangled := pairs + [p], mangled || |key| >= U32;
    }

    /** The last key stands in the index entry of the block it ends. */
    method FlushBlock()
      modifies `out, `indexEntries, `currentOffset, `currentBlock, `packing
      ensures old(Laid()) ==> Laid() && packing == Packing(Flushed(old(packing)), [])
    {
      hide Less;
      PairsEmpty(packing.current);
      if |currentBlock| == 0 {
        return;
      }
      var checksum := lib.crc(currentBlock);
      var blockOffset := currentOffset;
      var blockSize := |currentBlock| + 1 + 4;
      SnocParts(packing.blocks, packing.current);
      Concat3(out, currentBlock, [0] + LE(checksum, 4));
      out := out + currentBlock;
      out := out + ([0] + LE(checksum, 4));
      indexEntries := indexEntries + [IndexEntry(lastKey, blockOffset, blockSize)];
      currentOffset := currentOffset + blockSize;
      currentBlock := [];
      packing := Packing(packing.blocks + [packing.current], []);
    }

    /** Leaves the file of the accepted pairs; what `FileSize` reports then leaves out the footer. */
    method Close()
      requires Valid()
      modifies this
      ensures Valid() && closed && pairs == old(pairs) && mangled == old(mangled)
      ensures !mangled ==> out == (if old(closed) then old(out) else FileBytes(lib, pairs))
      ensures !mangled ==> FileSize() + FOOTER_SIZE == |out|
    {
      hide EncPairs, DataBlocks, BlockIndex, FilterOf, Pack, FileBytes, Accepted;
      if closed {
        return;
      }
      FlushBlock();
      WriteTail();
      closed := true;
    }

    /** The end of `Close`: index, filter and footer. */
    method WriteTail()
      requires !mangled ==> Laid() && packing.blocks == Flushed(Pack(pairs)) && filter == FilterOf(lib, pairs)
      modifies `out, `currentOffset
      ensures !mangled ==> out == FileBytes(lib, pairs) && currentOffset + FOOTER_SIZE == |out|
    {
      hide EncPairs, DataBlocks, BlockIndex, EncIndexEntries, FilterOf, Pack, EncFooterFields, FileBytes, EncFooter;
      ghost var data := out;
      var indexOffset := currentOffset;
      var indexData := EncodeIndexBlock();
      out := out + indexData;
      currentOffset := currentOffset + |indexData|;
      var bloomOffset := currentOffset;
      var bloomData := lib.gobEncode(filter);
      out := out + bloomData;
      currentOffset := currentOffset + |bloomData|;
      var footer := Footer(indexOffset, |indexData|, bloomOffset, |bloomData|, MAGIC, VERSION, 0);
      footer := footer.(checksum := lib.crc(EncFooterFields(footer)));
      out := out + EncFooter(footer);
      Sections4(data, indexData, bloomData, EncFooter(footer));
      FileBytesIs(lib, pairs);
    }

    method EncodeIndexBlock() returns (data: Bytes)
      ensures data == EncIndex(indexEntries)
    {
      hide EncIndexEntry;
      data := LE(|indexEntries|, 4);
      var i := 0;
      while i < |indexEntries|
        invariant i <= |indexEntries|
        invariant data == LE(|indexEntries|, 4) + EncIndexEntries(indexEntries[..i])
      {
        ghost var prev := indexEntries[..i];
        SliceSnoc(indexEntries, i);
        SnocParts(prev, indexEntries[i]);
        Concat3(LE(|indexEntries|, 4), EncIndexEntries(prev), EncIndexEntry(indexEntries[i]));
        data := data + EncIndexEntry(indexEntries[i]);
        i := i + 1;
      }
      assert indexEntries[..i] == indexEntries;
    }

    function EntriesCount(): (n: nat)
      reads this
      requires Valid()
      ensures n == |pairs|
    {
      entriesCount
    }

    function FileSize(): nat
      reads this
    {
      currentOffset
    }
  }

  /** The size in 32 bits is the entry's size exactly when it does not wrap around. */
  lemma SizeOfEntry(key: Bytes, value: Bytes)
    ensures PairSize(Stored(key, value)) == 8 + |key| % U32 + |value| % U32
    ensures (8 + |key| % U32 + |value| % U32) % U32 == PairSize(Stored(key, value)) <==> !Wraps(key, value)
  {
  }

  lemma PairsEmpty(ps: seq<Pair>)
    ensures |EncPairs(ps)| == 0 <==> ps == []
  {
  }

  lemma Sections4(a: Bytes, b: Bytes, c: Bytes, d: Bytes)
    ensures ((a + b) + c) + d == a + (b + (c + d))
  {
  }

  lemma FileBytesIs(lib: Library, ps: seq<Pair>)
    ensures NoEmptyBlock(Flushed(Pack(ps)))
    ensures FileBytes(lib, ps) == FileOf(lib, Flushed(Pack(ps)), FilterOf(lib, ps))
  {
    PackNoEmpty(ps);
  }

  /** Adds pairs until one is refused, then closes: what a flush and a compaction do with a writer.
      The file holds the longest prefix the writer accepts. */
  method WriteTable(lib: Library, ps: seq<Pair>) returns (w: Writer, r: AddResult)
    ensures fresh(w) && w.Valid() && w.lib == lib
    ensures Writable(ps) ==> r != AddPanics && !w.mangled && w.closed && (r == AddOk <==> Accepted(ps))
    ensures Writable(ps) ==> w.pairs <= ps && w.out == FileBytes(lib, w.pairs) && (r == AddOk ==> w.pairs == ps)
    ensures Writable(ps) && r == AddRefused ==> |w.pairs| < |ps| && !Accepted(ps[..|w.pairs| + 1])
  {
    hide FileBytes, Less, PairSize, Accepted, Writer.Laid, Pack, FilterOf, Stored;
    w := new Writer(lib);
    r := AddOk;
    var i := 0;
    while i < |ps| && r == AddOk
      invariant i <= |ps| && fresh(w) && w.Valid() && !w.closed && w.lib == lib
      invariant Writable(ps) ==> r != AddPanics && !w.mangled
      invariant Writable(ps) ==> |w.pairs| <= |ps| && w.pairs == ps[..|w.pairs|]
      invariant Writable(ps) && r == AddOk ==> |w.pairs| == i
      invariant Writable(ps) && r == AddRefused ==> |w.pairs| < |ps| && !Accepted(ps[..|w.pairs| + 1])
      decreases |ps| - i, r == AddOk
    {
      SliceSnoc(ps, i);
      if Writable(ps) {
        AcceptedSnoc(w.pairs, ps[i]);
      }
      ShortIsStored(ps[i].key, ps[i].value);
      r := w.Add(ps[i].key, ps[i].value);
      if r == AddOk {
        i := i + 1;
      }
    }
    if r == AddPanics {
      return;
    }
    if r == AddOk {
      assert ps[..|ps|] == ps;
    } else if Accepted(ps) && Writable(ps) {
      AcceptedPrefix(ps, |w.pairs| + 1);
    }
    w.Close();
  }

  // ---------- the reader ----------

  class Reader {
    const lib: Library
    const mmap: Bytes
    var footer: Footer
    var indexCache: seq<IndexEntry>
    var bloomFilter: Filter
    var closed: bool

    /** The fields are what `Open` finds in the file. */
    ghost predicate Valid()
      reads this
    {
      Open(lib, mmap) == Ok(Opened(footer, indexCache, bloomFilter))
    }

    constructor (lib: Library, mmap: Bytes)
      ensures this.lib == lib && this.mmap == mmap && !closed
    {
      this.lib, this.mmap := lib, mmap;
      footer, indexCache, bloomFilter := Footer(0, 0, 0, 0, 0, 0, 0), [], {};
      closed := false;
    }

    /** The three steps of `NewReader`; the reader is usable when the result is Ok. */
    method Load() returns (r: Result<()>)
      modifies `footer, `indexCache, `bloomFilter
      ensures r == (match Open(lib, mmap) case Ok(_) => Ok(()) case Err => Err case Crash => Crash)
      ensures r.Ok? ==> Valid()
    {
      hide ReadIndex, ReadBloom, ReadFooter;
      var f := ReadFooter(lib, mmap);
      match f {
        case Err => return Err;
        case Crash => return Crash;
        case Ok(value) => footer := value;
      }
      r := LoadIndex();
      if !r.Ok? {
        return;
      }
      var b := ReadBloom(lib, mmap, footer);
      match b {
        case Err => return Err;
        case Crash => return Crash;
        case Ok(value) => bloomFilter := value;
      }
    }

    method LoadIndex() returns (r: Result<()>)
      modifies `indexCache
      ensures r == (match ReadIndex(mmap, footer) case Ok(_) => Ok(()) case Err => Err case Crash => Crash)
      ensures r.Ok? ==> ReadIndex(mmap, footer) == Ok(indexCache)
    {
      hide ReadIndexEntry, U32LE;
      var section := Section(mmap, footer.indexOffset, footer.indexSize);
      match section {
        case Err => return Err;
        case Crash => return Crash;
        case Ok(data) =>
          if |data| < 4 {
            return Err;
          }
          var entryCount := U32LE(data, 0);
          indexCache := [];
          var dataOffset: nat := 4;
          var i := 0;
          while i < entryCount
            invariant i <= entryCount && dataOffset <= |data|
            invariant ReadIndexEntries(data, 4, entryCount, [])
                   == ReadIndexEntries(data, dataOffset, entryCount - i, indexCache)
          {
            var entry := ReadIndexEntry(data, dataOffset);
            match entry {
              case Err => return Err;
              case Crash => return Crash;
              case Ok(e) =>
                indexCache := indexCache + [e.item];
                dataOffset := e.next;
            }
            i := i + 1;
          }
          return Ok(());
      }
    }

    /** The position of the first block whose last key is not below `key`. */
    method FindBlock(key: Bytes) returns (i: nat)
      ensures i == BinarySearch(indexCache, key, 0, |indexCache|) && i <= |indexCache|
    {
      var left, right := 0, |indexCache| - 1;
      while left <= right
        invariant 0 <= left <= right + 1 <= |indexCache|
        invariant BinarySearch(indexCache, key, 0, |indexCache|) == BinarySearch(indexCache, key, left, right + 1)
        decreases right - left + 1
      {
        var mid := (left + right) / 2;
        if !Less(indexCache[mid].key, key) {
          right := mid - 1;
        } else {
          left := mid + 1;
        }
      }
      return left;
    }

    method SearchBlock(b: Bytes, key: Bytes) returns (a: Answer)
      ensures a == Search(b, key, 0)
    {
      hide ReadPair, Less;
      var offset := 0;
      while offset < |b|
        invariant offset <= |b|
        invariant Search(b, key, 0) == Search(b, key, offset)
      {
        var p := ReadPair(b, offset);
        match p {
          case None => return NotFound;
          case Some(At(pair, next)) =>
            if pair.key == key {
              return if |pair.value| == 0 then Deleted else Found(pair.value);
            }
            if Less(key, pair.key) {
              return NotFound;
            }
            offset := next;
        }
      }
      NothingLeft(b);
      return NotFound;
    }

    /** None once the reader is closed. */
    method GetKey(key: Bytes) returns (a: Option<Answer>)
      requires Valid()
      ensures a == if closed then None else Some(Get(lib, mmap, Opened(footer, indexCache, bloomFilter), key))
    {
      hide BinarySearch, Search, ReadBlock, Open;
      if closed {
        return None;
      }
      if !(lib.bits(key) <= bloomFilter) {
        return Some(NotFound);
      }
      var i := FindBlock(key);
      if i >= |indexCache| {
        return Some(NotFound);
      }
      var b := ReadBlock(lib, mmap, indexCache[i]);
      match b {
        case Err => return Some(Unreadable);
        case Crash => return Some(Panics);
        case Ok(data) =>
          var found := SearchBlock(data, key);
          return Some(found);
      }
    }

    method ScanBlockPairs(b: Bytes) returns (ps: seq<Pair>)
      ensures ps == ScanBlock(b, 0)
    {
      hide ReadPair;
      var offset := 0;
      ps := [];
      while offset < |b|
        invariant offset <= |b|
        invariant ScanBlock(b, 0) == ps + ScanBlock(b, offset)
      {
        var p := ReadPair(b, offset);
        match p {
          case None => 
            NothingAdded(ps);
            return;
          case Some(At(pair, next)) =>
            Concat3(ps, if pair.value == [] then [] else [pair], ScanBlock(b, next));
            if |pair.value| > 0 {
              ps := ps + [pair];
            } else {
              NothingAdded(ps);
            }
            offset := next;
        }
      }
      NothingLeft(b);
      NothingAdded(ps);
    }

    method ScanPairs() returns (r: Option<Result<seq<Pair>>>)
      requires Valid()
      ensures r == if closed then None else Some(Scan(lib, mmap, indexCache, |indexCache|))
    {
      hide ScanBlock, ReadBlock, Open;
      if closed {
        return None;
      }
      var ps := [];
      var i := 0;
      while i < |indexCache|
        invariant i <= |indexCache|
        invariant Scan(lib, mmap, indexCache, i) == Ok(ps)
      {
        var b := ReadBlock(lib, mmap, indexCache[i]);
        match b {
          case Err =>
            ScanStops(lib, mmap, indexCache, i + 1, |indexCache|);
            return Some(Err);
          case Crash =>
            ScanStops(lib, mmap, indexCache, i + 1, |indexCache|);
            return Some(Crash);
          case Ok(data) =>
            var more := ScanBlockPairs(data);
            ps := ps + more;
        }
        i := i + 1;
      }
      return Some(Ok(ps));
    }
  }

  lemma {:induction false} ScanStops(lib: Library, file: Bytes, index: seq<IndexEntry>, i: nat, n: nat)
    requires i <= n <= |index| && !Scan(lib, file, index, i).Ok?
    ensures Scan(lib, file, index, n) == Scan(lib, file, index, i)
    decreases n
  {
    hide ReadBlock, ScanBlock;
    if i < n {
      ScanStops(lib, file, index, i, n - 1);
    }
  }

  /** A table from first `Add` to lookup: for strictly increasing keys every pair is accepted, the
      closed file opens, and the reader answers exactly for the pairs that were added. */
  method WriteThenRead(lib: Library, ps: seq<Pair>, key: Bytes) returns (a: Answer, live: seq<Pair>)
    requires GobRoundTrips(lib) && Sorted(ps) && FileFits(lib, ps)
    ensures Answers(ps, key, a) && live == Live(ps)
  {
    hide FileBytes, Open, Get, Scan, Live, Less, Pack, Flushed;
    assert Writable(ps) by {
      forall i | 0 <= i < |ps|
        ensures PairSize(ps[i]) < U32
      {
        assert FitsPair(ps[i]);
      }
    }
    var w, added := WriteTable(lib, ps);
    AcceptedIsSorted(ps);
    GetCorrect(lib, ps, key);
    ScanCorrect(lib, ps);
    var r := new Reader(lib, w.out);
    var loaded := r.Load();
    var got := r.GetKey(key);
    a := got.value;
    var scanned := r.ScanPairs();
    live := scanned.value.value;
  }
}
