/** The SSTable file (pkg/sstable/format.go, writer.go, reader.go) as functions: what a writer puts
    down for a list of pairs, and what a reader finds in any byte string. */
module Sstable {
  import opened Bytes

  const BLOCK_SIZE := 64 * 1024
  const FOOTER_SIZE := 48
  const MAGIC := 0x5353544142314556
  const VERSION := 1

  /** A pair as it is added; an empty value is a tombstone. */
  datatype Pair = Pair(key: Bytes, value: Bytes)

  datatype IndexEntry = IndexEntry(key: Bytes, offset: nat, size: nat)

  datatype Footer = Footer(indexOffset: nat, indexSize: nat, bloomOffset: nat, bloomSize: nat,
                           magic: nat, version: nat, checksum: nat)

  type Filter = set<nat>

  /** The library code the format relies on: the checksum, the bits a key sets in the bloom filter,
      and the gob form of a filter. */
  datatype Library = Library(crc: Bytes -> u32, bits: Bytes -> Filter,
                             gobEncode: Filter -> Bytes, gobDecode: Bytes -> Option<Filter>)

  ghost predicate GobRoundTrips(lib: Library) {
    forall f: Filter :: lib.gobDecode(lib.gobEncode(f)) == Some(f)
  }

  // ---------- writing ----------

  function EncPair(p: Pair): (r: Bytes)
    ensures |r| == PairSize(p)
  {
    LE(|p.key|, 4) + (p.key + (LE(|p.value|, 4) + p.value))
  }

  function PairSize(p: Pair): nat { 8 + |p.key| + |p.value| }

  function EncPairs(ps: seq<Pair>): Bytes {
    if ps == [] then [] else EncPairs(ps[..|ps| - 1]) + EncPair(ps[|ps| - 1])
  }

  /** A block on disk: data, compression type 0, checksum. */
  function DiskBlock(lib: Library, ps: seq<Pair>): Bytes {
    EncPairs(ps) + ([0] + LE(lib.crc(EncPairs(ps)), 4))
  }

  type Blocks = seq<seq<Pair>>

  function DataBlocks(lib: Library, bs: Blocks): Bytes {
    if bs == [] then [] else DataBlocks(lib, bs[..|bs| - 1]) + DiskBlock(lib, bs[|bs| - 1])
  }

  function EncIndexEntry(e: IndexEntry): (r: Bytes)
    ensures |r| == 20 + |e.key|
  {
    LE(|e.key|, 4) + (e.key + (LE(e.offset, 8) + LE(e.size, 8)))
  }

  function EncIndexEntries(es: seq<IndexEntry>): Bytes {
    if es == [] then [] else EncIndexEntries(es[..|es| - 1]) + EncIndexEntry(es[|es| - 1])
  }

  function EncIndex(es: seq<IndexEntry>): Bytes {
    LE(|es|, 4) + EncIndexEntries(es)
  }

  function EncFooterFields(f: Footer): (r: Bytes)
    ensures |r| == 44
  {
    LE(f.indexOffset, 8) + (LE(f.indexSize, 8) + (LE(f.bloomOffset, 8) + (LE(f.bloomSize, 8)
    + (LE(f.magic, 8) + LE(f.version, 4)))))
  }

  function EncFooter(f: Footer): (r: Bytes)
    ensures |r| == 48
  {
    EncFooterFields(f) + LE(f.checksum, 4)
  }

  /** The index entry of a block, whose last key it carries. */
  function EntryFor(ps: seq<Pair>, offset: nat): IndexEntry
    requires ps != []
  {
    IndexEntry(ps[|ps| - 1].key, offset, |EncPairs(ps)| + 5)
  }

  predicate NoEmptyBlock(bs: Blocks) {
    forall i :: 0 <= i < |bs| ==> bs[i] != []
  }

  function BlockIndex(lib: Library, bs: Blocks): seq<IndexEntry>
    requires NoEmptyBlock(bs)
  {
    if bs == [] then []
    else
      var init := bs[..|bs| - 1];
      BlockIndex(lib, init) + [EntryFor(bs[|bs| - 1], |DataBlocks(lib, init)|)]
  }

  function FilterOf(lib: Library, ps: seq<Pair>): Filter {
    if ps == [] then {} else FilterOf(lib, ps[..|ps| - 1]) + lib.bits(ps[|ps| - 1].key)
  }

  /** `Close`: what follows the data blocks. */
  function FooterFor(lib: Library, dataSize: nat, index: Bytes, bloom: Bytes): Footer {
    var f := Footer(dataSize, |index|, dataSize + |index|, |bloom|, MAGIC, VERSION, 0);
    f.(checksum := lib.crc(EncFooterFields(f)))
  }

  function Assemble(lib: Library, data: Bytes, index: Bytes, bloom: Bytes): Bytes {
    data + (index + (bloom + EncFooter(FooterFor(lib, |data|, index, bloom))))
  }

  function FileOf(lib: Library, bs: Blocks, filter: Filter): Bytes
    requires NoEmptyBlock(bs)
  {
    Assemble(lib, DataBlocks(lib, bs), EncIndex(BlockIndex(lib, bs)), lib.gobEncode(filter))
  }

  /** How `Add` packs pairs: the blocks already flushed and the one being filled. */
  datatype Packing = Packing(blocks: Blocks, current: seq<Pair>)

  function AddPair(pk: Packing, p: Pair): Packing {
    if pk.current != [] && |EncPairs(pk.current)| + PairSize(p) > BLOCK_SIZE
    then Packing(pk.blocks + [pk.current], [p])
    else Packing(pk.blocks, pk.current + [p])
  }

  function Pack(ps: seq<Pair>): Packing {
    if ps == [] then Packing([], []) else AddPair(Pack(ps[..|ps| - 1]), ps[|ps| - 1])
  }

  function Flushed(pk: Packing): Blocks {
    if pk.current == [] then pk.blocks else pk.blocks + [pk.current]
  }

  lemma {:induction false} PackNoEmpty(ps: seq<Pair>)
    ensures NoEmptyBlock(Pack(ps).blocks) && NoEmptyBlock(Flushed(Pack(ps)))
  {
    if ps != [] {
      PackNoEmpty(ps[..|ps| - 1]);
    }
  }

  /** The file a writer leaves for the pairs `ps`. */
  function FileBytes(lib: Library, ps: seq<Pair>): Bytes {
    PackNoEmpty(ps);
    FileOf(lib, Flushed(Pack(ps)), FilterOf(lib, ps))
  }

  // ---------- reading ----------

  datatype Result<+T> = Ok(value: T) | Err | Crash {
    predicate IsFailure() { !Ok? }
    function PropagateFailure<U>(): Result<U> requires !Ok? { if Err? then Err else Crash }
    function Extract(): T requires Ok? { value }
  }

  /** `file[offset : offset+size]` after the bounds test of the source, whose 64-bit sum may wrap. */
  function Section(file: Bytes, offset: nat, size: nat): Result<Bytes> {
    var end := (offset + size) % U64;
    if end > |file| then Err
    else if offset > end then Crash
    else Ok(file[offset..end])
  }

  /** `Footer.Decode` and the checksum test. */
  function ReadFooter(lib: Library, file: Bytes): Result<Footer> {
    if |file| < FOOTER_SIZE then Err
    else
      var b := file[|file| - FOOTER_SIZE..];
      var f := Footer(U64LE(b, 0), U64LE(b, 8), U64LE(b, 16), U64LE(b, 24), U64LE(b, 32), U32LE(b, 40), U32LE(b, 44));
      if f.magic != MAGIC || f.version != VERSION || f.checksum != lib.crc(b[..44]) then Err else Ok(f)
  }

  datatype At<T> = At(item: T, next: nat)

  /** `DecodeIndexEntry(b[at:])`, with the 32-bit sums of the source. */
  function ReadIndexEntry(b: Bytes, at: nat): (r: Result<At<IndexEntry>>)
    requires at <= |b|
    ensures r.Ok? ==> r.value.next <= |b|
  {
    var len := |b| - at;
    if len < 4 then Err
    else
      var keyLen := U32LE(b, at);
      var keyEnd := (4 + keyLen) % U32;
      if len < (4 + keyLen + 16) % U32 then Err
      else if keyEnd < 4 || keyEnd > len then Crash
      else if len - keyEnd < 16 then Err
      else Ok(At(IndexEntry(b[at + 4..at + keyEnd], U64LE(b, at + keyEnd), U64LE(b, at + keyEnd + 8)),
                 at + (4 + keyLen + 16) % U32))
  }

  function ReadIndexEntries(b: Bytes, at: nat, n: nat, acc: seq<IndexEntry>): Result<seq<IndexEntry>>
    requires at <= |b|
    decreases n
  {
    if n == 0 then Ok(acc)
    else
      var e :- ReadIndexEntry(b, at);
      ReadIndexEntries(b, e.next, n - 1, acc + [e.item])
  }

  function ReadIndex(file: Bytes, f: Footer): Result<seq<IndexEntry>> {
    var b :- Section(file, f.indexOffset, f.indexSize);
    if |b| < 4 then Err else ReadIndexEntries(b, 4, U32LE(b, 0), [])
  }

  function ReadBloom(lib: Library, file: Bytes, f: Footer): Result<Filter> {
    var b :- Section(file, f.bloomOffset, f.bloomSize);
    match lib.gobDecode(b) case Some(filter) => Ok(filter) case None => Err
  }

  datatype Opened = Opened(footer: Footer, index: seq<IndexEntry>, filter: Filter)

  /** `NewReader`. */
  function Open(lib: Library, file: Bytes): Result<Opened> {
    var f :- ReadFooter(lib, file);
    var index :- ReadIndex(file, f);
    var filter :- ReadBloom(lib, file, f);
    Ok(Opened(f, index, filter))
  }

  /** The search loop of `findBlock` on the interval [left, right). */
  function BinarySearch(index: seq<IndexEntry>, key: Bytes, left: nat, right: nat): (r: nat)
    requires left <= right <= |index|
    ensures left <= r <= right
    decreases right - left
  {
    if left == right then left
    else
      var mid := (left + right - 1) / 2;
      if Less(index[mid].key, key) then BinarySearch(index, key, mid + 1, right)
      else BinarySearch(index, key, left, mid)
  }

  /** `readBlock`. */
  function ReadBlock(lib: Library, file: Bytes, e: IndexEntry): Result<Bytes> {
    var b :- Section(file, e.offset, e.size);
    if |b| < 5 then Err
    else
      var n := |b| - 5;
      if U32LE(b, n + 1) != lib.crc(b[..n]) || b[n] != 0 then Err else Ok(b[..n])
  }

  /** One pair of a block; None when the bytes from `at` on do not hold a whole one. */
  function ReadPair(b: Bytes, at: nat): (r: Option<At<Pair>>)
    requires at <= |b|
    ensures r.Some? ==> at < r.value.next <= |b|
  {
    if at + 4 > |b| then None
    else
      var k := at + 4 + U32LE(b, at);
      if k > |b| || k + 4 > |b| then None
      else
        var v := k + 4 + U32LE(b, k);
        if v > |b| then None else Some(At(Pair(b[at + 4..k], b[k + 4..v]), v))
  }

  datatype Answer = Found(value: Bytes) | Deleted | NotFound | Unreadable | Panics

  /** `searchBlock` from position `at` on, with its early stop. */
  function Search(b: Bytes, key: Bytes, at: nat): Answer
    requires at <= |b|
    decreases |b| - at
  {
    match ReadPair(b, at)
    case None => NotFound
    case Some(At(p, next)) =>
      if p.key == key then (if p.value == [] then Deleted else Found(p.value))
      else if Less(key, p.key) then NotFound
      else Search(b, key, next)
  }

  /** `Reader.Get`. */
  function Get(lib: Library, file: Bytes, r: Opened, key: Bytes): Answer {
    if !(lib.bits(key) <= r.filter) then NotFound
    else
      var i := BinarySearch(r.index, key, 0, |r.index|);
      if i == |r.index| then NotFound
      else
        match ReadBlock(lib, file, r.index[i])
        case Ok(b) => Search(b, key, 0)
        case Err => Unreadable
        case Crash => Panics
  }

  /** `scanBlock`: the pairs from `at` on, tombstones skipped. */
  function ScanBlock(b: Bytes, at: nat): seq<Pair>
    requires at <= |b|
    decreases |b| - at
  {
    match ReadPair(b, at)
    case None => []
    case Some(At(p, next)) => (if p.value == [] then [] else [p]) + ScanBlock(b, next)
  }

  /** `Reader.Scan` of the first `n` blocks, for a callback that never fails. */
  function Scan(lib: Library, file: Bytes, index: seq<IndexEntry>, n: nat): Result<seq<Pair>>
    requires n <= |index|
  {
    if n == 0 then Ok([])
    else
      var ps :- Scan(lib, file, index, n - 1);
      var b :- ReadBlock(lib, file, index[n - 1]);
      Ok(ps + ScanBlock(b, 0))
  }
}
