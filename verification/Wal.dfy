/** The write-ahead log of one lane (pkg/wal/wal.go) in its standard, buffered mode.
    The checksum is an arbitrary function of the bytes it covers. */
module Wal {
  import opened Bytes

  type Crc = Bytes -> u32

  const ENTRY_NODE: byte := 1
  const ENTRY_EDGE: byte := 2
  const ENTRY_DELETE: byte := 3

  datatype Entry = Entry(kind: byte, key: Bytes, value: Bytes, stamp: i64)

  // ---------- the format ----------

  /** All of a record but its checksum. */
  function Body(e: Entry): (r: Bytes)
    ensures |r| == 17 + |e.key| + |e.value|
  {
    [e.kind] + (LE(|e.key|, 4) + (e.key + (LE(|e.value|, 4) + (e.value + LE(Bits(e.stamp), 8)))))
  }

  function Size(e: Entry): nat {
    21 + |e.key| + |e.value|
  }

  function Record(crc: Crc, e: Entry): (r: Bytes)
    ensures |r| == Size(e)
  {
    Body(e) + LE(crc(Body(e)), 4)
  }

  function Log(crc: Crc, es: seq<Entry>): Bytes {
    if es == [] then [] else Record(crc, es[0]) + Log(crc, es[1..])
  }

  predicate FitsEntry(e: Entry) {
    |e.key| < U32 && |e.value| < U32
  }

  predicate AllFit(es: seq<Entry>) {
    forall i :: 0 <= i < |es| ==> FitsEntry(es[i])
  }

  /** What reading one record from a log gives: the entry and the position after it, io.EOF, or
      any other error. */
  datatype Read = Got(entry: Entry, next: nat) | End | Bad

  /** `io.ReadFull` when the bytes from `at` on do not suffice: EOF only when there are none. */
  function ShortRead(b: Bytes, at: nat): Read {
    if at == |b| then End else Bad
  }

  /** `deserializeEntry`. The source recomputes the checksum over the fields just read: over the
      same bytes, as RecomputedBody shows. */
  function ReadRecord(crc: Crc, b: Bytes, at: nat): (r: Read)
    requires at <= |b|
    ensures r.Got? ==> at < r.next <= |b|
  {
    if at + 1 > |b| then ShortRead(b, at)
    else if at + 5 > |b| then ShortRead(b, at + 1)
    else
      var k := at + 5 + U32LE(b, at + 1);
      if k > |b| then ShortRead(b, at + 5)
      else if k + 4 > |b| then ShortRead(b, k)
      else
        var v := k + 4 + U32LE(b, k);
        if v > |b| then ShortRead(b, k + 4)
        else if v + 8 > |b| then ShortRead(b, v)
        else if v + 12 > |b| then ShortRead(b, v + 8)
        else if U32LE(b, v + 8) == crc(b[at..v + 8])
        then Got(Entry(b[at], b[at + 5..k], b[k + 4..v], Signed(U64LE(b, v))), v + 12)
        else Bad
  }

  lemma RecomputedBody(crc: Crc, b: Bytes, at: nat)
    requires at <= |b| && ReadRecord(crc, b, at).Got?
    ensures var r := ReadRecord(crc, b, at); Body(r.entry) == b[at..r.next - 4]
  {
    hide Body, U32LE, U64LE, Signed;
    var k := at + 5 + U32LE(b, at + 1);
    BodyAt(b, at, k, k + 4 + U32LE(b, k));
  }

  lemma BodyAt(b: Bytes, at: nat, k: nat, v: nat)
    requires at + 5 <= k && k + 4 <= v && v + 8 <= |b|
    requires U32LE(b, at + 1) == k - at - 5 && U32LE(b, k) == v - k - 4
    ensures Body(Entry(b[at], b[at + 5..k], b[k + 4..v], Signed(U64LE(b, v)))) == b[at..v + 8]
  {
    hide LE, LEAt, U32LE, U64LE, Bits, Signed;
    U32Inverse(b, at + 1);
    U32Inverse(b, k);
    U64Inverse(b, v);
    BitsOfSigned(U64LE(b, v));
    SixParts(b, at, at + 1, at + 5, k, k + 4, v, v + 8);
    OneSlice(b, at);
  }

  lemma U32Inverse(b: Bytes, at: nat)
    requires at + 4 <= |b|
    ensures LE(U32LE(b, at), 4) == b[at..at + 4]
  {
    LEInverse(b, at, 4);
  }

  lemma U64Inverse(b: Bytes, at: nat)
    requires at + 8 <= |b|
    ensures LE(U64LE(b, at), 8) == b[at..at + 8]
  {
    LEInverse(b, at, 8);
  }

  lemma BitsOfSigned(n: u64)
    ensures Bits(Signed(n)) == n
  {
  }

  lemma SixParts(b: Bytes, p0: nat, p1: nat, p2: nat, p3: nat, p4: nat, p5: nat, p6: nat)
    requires p0 <= p1 <= p2 <= p3 <= p4 <= p5 <= p6 <= |b|
    ensures b[p0..p6] == b[p0..p1] + (b[p1..p2] + (b[p2..p3] + (b[p3..p4] + (b[p4..p5] + b[p5..p6]))))
  {
    SliceJoin(b, p4, p5, p6);
    SliceJoin(b, p3, p4, p6);
    SliceJoin(b, p2, p3, p6);
    SliceJoin(b, p1, p2, p6);
    SliceJoin(b, p0, p1, p6);
  }

  /** The entries `Replay` hands over, in order, and whether it then returns nil. */
  datatype Replayed = Replayed(entries: seq<Entry>, ok: bool)

  function ReplayFrom(read: nat -> Read, size: nat, at: nat): Replayed
    decreases size - at
  {
    match read(at)
    case Got(e, next) =>
      if at < next <= size then var r := ReplayFrom(read, size, next); Replayed([e] + r.entries, r.ok)
      else Replayed([], false)
    case End => Replayed([], true)
    case Bad => Replayed([], false)
  }

  /** The reader of one log file. It always moves forward, so the test above never fails for it. */
  function Reader(crc: Crc, b: Bytes): nat -> Read {
    (at: nat) => if at <= |b| then ReadRecord(crc, b, at) else Bad
  }

  function ReplayOf(crc: Crc, b: Bytes): Replayed {
    ReplayFrom(Reader(crc, b), |b|, 0)
  }

  // ---------- reading a log that was cut ----------

  /** The parts of a record, where they stand in a file that may end inside it. */
  lemma RecordParts(crc: Crc, e: Entry, b: Bytes, at: nat)
    requires Holds(b, at, Record(crc, e))
    ensures Holds(b, at, Body(e)) && Holds(b, at, [e.kind]) && Holds(b, at + 1, LE(|e.key|, 4))
    ensures Holds(b, at + 5, e.key) && Holds(b, at + 5 + |e.key|, LE(|e.value|, 4))
    ensures var v := at + 9 + |e.key|;
            && Holds(b, v, e.value)
            && Holds(b, v + |e.value|, LE(Bits(e.stamp), 8))
            && Holds(b, v + |e.value| + 8, LE(crc(Body(e)), 4))
  {
    var sum, stamp := LE(crc(Body(e)), 4), LE(Bits(e.stamp), 8);
    HoldsConcat(b, at, Body(e), sum);
    HoldsConcat(b, at, [e.kind], LE(|e.key|, 4) + (e.key + (LE(|e.value|, 4) + (e.value + stamp))));
    HoldsConcat(b, at + 1, LE(|e.key|, 4), e.key + (LE(|e.value|, 4) + (e.value + stamp)));
    HoldsConcat(b, at + 5, e.key, LE(|e.value|, 4) + (e.value + stamp));
    HoldsConcat(b, at + 5 + |e.key|, LE(|e.value|, 4), e.value + stamp);
    HoldsConcat(b, at + 9 + |e.key|, e.value, stamp);
  }

  /** Where everything stands in a record: type, key length, key, value length, value, time and checksum of
      all that, the numbers with their low byte first. */
  lemma RecordLayout(crc: Crc, e: Entry)
    ensures var r, k, v := Record(crc, e), 5 + |e.key|, 9 + |e.key| + |e.value|;
            && |r| == v + 12 && r[0] == e.kind && LowFirst(r, 1, 4, |e.key|) && r[5..k] == e.key
            && LowFirst(r, k, 4, |e.value|) && r[k + 4..v] == e.value && LowFirst(r, v, 8, Bits(e.stamp))
            && LowFirst(r, v + 8, 4, crc(r[..v + 8]))
  {
    hide Record, Body, LE, Pow256, LowFirst, Bits, Holds;
    var r, k, v := Record(crc, e), 5 + |e.key|, 9 + |e.key| + |e.value|;
    RecordStands(crc, e);
    RecordParts(crc, e, r, 0);
    HoldsSlice(r, 0, [e.kind]);
    assert r[0..1][0] == r[0];
    HoldsSlice(r, 5, e.key);
    HoldsSlice(r, k + 4, e.value);
    HoldsSlice(r, 0, Body(e));
    assert r[0..v + 8] == r[..v + 8];
    LEIsLowFirst(r, 1, 4, |e.key|);
    LEIsLowFirst(r, k, 4, |e.value|);
    LEIsLowFirst(r, v, 8, Bits(e.stamp));
    LEIsLowFirst(r, v + 8, 4, crc(Body(e)));
  }

  lemma RecordStands(crc: Crc, e: Entry)
    ensures Holds(Record(crc, e), 0, Record(crc, e))
  {
  }

  lemma RecordFields(crc: Crc, e: Entry, b: Bytes, at: nat)
    requires FitsEntry(e) && at <= |b| && Holds(b, at, Record(crc, e))
    ensures at < |b| ==> b[at] == e.kind
    ensures at + 5 <= |b| ==> U32LE(b, at + 1) == |e.key|
    ensures var k := at + 5 + |e.key|;
            && (k <= |b| ==> b[at + 5..k] == e.key)
            && (k + 4 <= |b| ==> U32LE(b, k) == |e.value|)
    ensures var v := at + 9 + |e.key| + |e.value|;
            && (v <= |b| ==> b[v - |e.value|..v] == e.value)
            && (v + 8 <= |b| ==> U64LE(b, v) == Bits(e.stamp))
            && (v + 12 <= |b| ==> U32LE(b, v + 8) == crc(Body(e)) && b[at..v + 8] == Body(e))
  {
    hide Record, Body, LE, U32LE, U64LE, Bits;
    RecordParts(crc, e, b, at);
    var k := at + 5 + |e.key|;
    var v := k + 4 + |e.value|;
    assert at < |b| ==> b[at + 0] == [e.kind][0];
    if at + 5 <= |b| {
      HoldsU32(b, at + 1, |e.key|);
      if k + 4 <= |b| {
        HoldsU32(b, k, |e.value|);
        if v + 8 <= |b| {
          HoldsU64(b, v, Bits(e.stamp));
          if v + 12 <= |b| {
            HoldsU32(b, v + 8, crc(Body(e)));
            HoldsSlice(b, at, Body(e));
          }
        }
      }
    }
  }

  /** The offsets inside a record at which a field starts. */
  predicate FieldStart(e: Entry, at: int) {
    var k, v := |e.key|, |e.value|;
    at == 0 || at == 1 || at == 5 || at == 5 + k || at == 9 + k || at == 9 + k + v || at == 17 + k + v
  }

  lemma RecordRead(crc: Crc, e: Entry, b: Bytes, at: nat)
    requires FitsEntry(e) && at <= |b| && Holds(b, at, Record(crc, e))
    ensures ReadRecord(crc, b, at) ==
            if at + Size(e) <= |b| then Got(e, at + Size(e))
            else if FieldStart(e, |b| - at) then End
            else Bad
  {
    hide Holds, Record, Body, LE, U32LE, U64LE, Bits, Signed;
    RecordFields(crc, e, b, at);
    SignedOfBits(e.stamp);
  }

  lemma SignedOfBits(x: i64)
    ensures Signed(Bits(x)) == x
  {
  }

  /** Where the `k`-th record of a log starts. */
  function Offset(es: seq<Entry>, k: nat): nat
    requires k <= |es|
  {
    if k == 0 then 0 else Offset(es, k - 1) + Size(es[k - 1])
  }

  lemma {:induction false} OffsetTail(es: seq<Entry>, others: seq<Entry>, k: nat)
    requires es != [] && others == es[1..] && 0 < k <= |es|
    ensures Offset(es, k) == Size(es[0]) + Offset(others, k - 1)
  {
    if k > 1 {
      OffsetTail(es, others, k - 1);
    } else {
      assert Offset(es, 0) == 0;
    }
  }

  lemma {:induction false} LogLength(crc: Crc, es: seq<Entry>)
    ensures |Log(crc, es)| == Offset(es, |es|)
  {
    if es != [] {
      LogLength(crc, es[1..]);
      OffsetTail(es, es[1..], |es|);
    }
  }

  lemma OffsetStep(es: seq<Entry>, j: nat)
    requires j < |es|
    ensures Offset(es, j) < Offset(es, j + 1)
  {
  }

  lemma {:induction false} OffsetMonotone(es: seq<Entry>, j: nat, k: nat)
    requires j <= k <= |es|
    ensures Offset(es, j) <= Offset(es, k)
  {
    if j < k {
      OffsetMonotone(es, j, k - 1);
    }
  }

  /** The `j`-th record stands at its offset in the log and in every file that starts like it. */
  lemma {:induction false} LogHolds(crc: Crc, es: seq<Entry>, b: Bytes, at: nat, j: nat)
    requires j < |es| && Holds(b, at, Log(crc, es))
    ensures Holds(b, at + Offset(es, j), Record(crc, es[j]))
  {
    HoldsConcat(b, at, Record(crc, es[0]), Log(crc, es[1..]));
    if j > 0 {
      LogHolds(crc, es[1..], b, at + Size(es[0]), j - 1);
      OffsetTail(es, es[1..], j);
    }
  }

  /** Reading at the start of the `j`-th record of a log of which `size` bytes survive. */
  function Expected(es: seq<Entry>, size: nat, j: nat): Read
    requires j <= |es|
  {
    if j == |es| then End
    else if Offset(es, j + 1) <= size then Got(es[j], Offset(es, j + 1))
    else if FieldStart(es[j], size - Offset(es, j)) then End
    else Bad
  }

  /** Main result: whatever prefix of a log survives, `Replay` applies exactly the `k` entries that
      lie wholly inside it, in order and once each, and returns nil exactly when the cut falls
      where a record or one of its fields starts. */
  lemma PrefixReplay(crc: Crc, es: seq<Entry>, cut: nat, k: nat)
    requires AllFit(es) && cut <= |Log(crc, es)|
    requires k <= |es| && Offset(es, k) <= cut && (k < |es| ==> cut < Offset(es, k + 1))
    ensures var replayed := ReplayOf(crc, Log(crc, es)[..cut]);
            && replayed.entries == es[..k]
            && (replayed.ok <==> k == |es| || FieldStart(es[k], cut - Offset(es, k)))
  {
    hide Log, Offset, FieldStart, ReadRecord, Reader, Holds, Expected, ReplayFrom;
    var b := Log(crc, es)[..cut];
    LogLength(crc, es);
    LogStarts(crc, es, cut);
    OffsetZero(es);
    forall j | 0 <= j <= k
      ensures Reader(crc, b)(Offset(es, j)) == Expected(es, cut, j)
    {
      OffsetMonotone(es, j, k);
      OffsetMonotone(es, k, |es|);
      ReadIsExpected(crc, es, b, j);
    }
    ReplaySuffix(Reader(crc, b), es, cut, k, 0);
    assert es[0..k] == es[..k];
  }

  lemma LogStarts(crc: Crc, es: seq<Entry>, cut: nat)
    requires cut <= |Log(crc, es)|
    ensures Holds(Log(crc, es)[..cut], 0, Log(crc, es))
  {
  }

  lemma OffsetZero(es: seq<Entry>)
    ensures Offset(es, 0) == 0
  {
  }

  lemma ReadIsExpected(crc: Crc, es: seq<Entry>, b: Bytes, j: nat)
    requires AllFit(es) && j <= |es| && Offset(es, j) <= |b| <= Offset(es, |es|) && Holds(b, 0, Log(crc, es))
    ensures Reader(crc, b)(Offset(es, j)) == Expected(es, |b|, j)
  {
    hide Log, FieldStart, Holds;
    if j < |es| {
      LogHolds(crc, es, b, 0, j);
      RecordRead(crc, es[j], b, Offset(es, j));
    }
  }

  lemma {:induction false} ReplaySuffix(read: nat -> Read, es: seq<Entry>, size: nat, k: nat, j: nat)
    requires j <= k <= |es| && Offset(es, k) <= size && (k < |es| ==> size < Offset(es, k + 1))
    requires forall i :: 0 <= i <= k ==> read(Offset(es, i)) == Expected(es, size, i)
    ensures var replayed := ReplayFrom(read, size, Offset(es, j));
            && replayed.entries == es[j..k]
            && (replayed.ok <==> k == |es| || FieldStart(es[k], size - Offset(es, k)))
    decreases k - j
  {
    hide Offset, FieldStart, ReplayFrom;
    var at := Offset(es, j);
    OffsetMonotone(es, j, k);
    assert read(at) == Expected(es, size, j);
    if j < k {
      OffsetStep(es, j);
      OffsetMonotone(es, j + 1, k);
      ReplayGoes(read, size, at, es[j], Offset(es, j + 1));
      ReplaySuffix(read, es, size, k, j + 1);
      SliceCons(es, j, k);
    } else {
      ReplayStops(read, size, at);
      assert es[k..k] == [];
    }
  }

  lemma ReplayGoes(read: nat -> Read, size: nat, at: nat, e: Entry, next: nat)
    requires read(at) == Got(e, next) && at < next <= size
    ensures var r := ReplayFrom(read, size, next); ReplayFrom(read, size, at) == Replayed([e] + r.entries, r.ok)
  {
  }

  lemma ReplayStops(read: nat -> Read, size: nat, at: nat)
    requires !read(at).Got?
    ensures ReplayFrom(read, size, at) == Replayed([], read(at).End?)
  {
  }

  lemma WholeLogReplays(crc: Crc, es: seq<Entry>)
    requires AllFit(es)
    ensures ReplayOf(crc, Log(crc, es)) == Replayed(es, true)
  {
    LogLength(crc, es);
    PrefixReplay(crc, es, |Log(crc, es)|, |es|);
    assert Log(crc, es)[..|Log(crc, es)|] == Log(crc, es);
    assert es[..|es|] == es;
  }

  lemma {:induction false} LogAppend(crc: Crc, es: seq<Entry>, more: seq<Entry>)
    ensures Log(crc, es + more) == Log(crc, es) + Log(crc, more)
  {
    if es == [] {
      assert es + more == more;
    } else {
      assert (es + more)[1..] == es[1..] + more;
      LogAppend(crc, es[1..], more);
      Concat3(Record(crc, es[0]), Log(crc, es[1..]), Log(crc, more));
    }
  }

  lemma LogSnoc(crc: Crc, es: seq<Entry>, e: Entry)
    ensures Log(crc, es + [e]) == Log(crc, es) + Record(crc, e)
  {
    LogAppend(crc, es, [e]);
    assert [e][1..] == [];
    assert Log(crc, [e]) == Record(crc, e) + [];
  }

  /** Where a cut falls among the records. */
  lemma {:induction false} CutPoint(es: seq<Entry>, cut: nat, m: nat) returns (k: nat)
    requires m <= |es| && Offset(es, m) <= cut <= Offset(es, |es|)
    ensures m <= k <= |es| && Offset(es, k) <= cut && (k < |es| ==> cut < Offset(es, k + 1))
    decreases |es| - m
  {
    if m == |es| || cut < Offset(es, m + 1) {
      k := m;
    } else {
      k := CutPoint(es, cut, m + 1);
    }
  }

  /** Durability: when the first `m` entries had been synced, every crash image still replays them
      and nothing but a prefix of what was appended. */
  lemma SyncedSurvives(crc: Crc, es: seq<Entry>, m: nat, cut: nat)
    requires AllFit(es) && m <= |es| && Offset(es, m) <= cut <= |Log(crc, es)|
    ensures var replayed := ReplayOf(crc, Log(crc, es)[..cut]).entries; |replayed| >= m && replayed <= es
  {
    LogLength(crc, es);
    var k := CutPoint(es, cut, m);
    PrefixReplay(crc, es, cut, k);
  }

  // ---------- appending to a log that was found ----------

  /** A record is read exactly where its bytes stand. */
  lemma RecordReadIff(crc: Crc, b: Bytes, at: nat, e: Entry)
    requires FitsEntry(e) && at <= |b|
    ensures ReadRecord(crc, b, at) == Got(e, at + Size(e)) <==> Record(crc, e) <= b[at..]
  {
    hide ReadRecord, Record;
    if Record(crc, e) <= b[at..] {
      assert Holds(b, at, Record(crc, e)) by { PrefixHolds(b, at, Record(crc, e)); }
      RecordRead(crc, e, b, at);
    }
    if ReadRecord(crc, b, at) == Got(e, at + Size(e)) {
      RecordBack(crc, b, at);
    }
  }

  lemma PrefixHolds(b: Bytes, at: nat, r: Bytes)
    requires at <= |b| && r <= b[at..]
    ensures Holds(b, at, r) && at + |r| <= |b|
  {
    forall i | 0 <= i < |r|
      ensures b[at + i] == r[i]
    {
      assert b[at..][i] == r[i];
    }
  }

  /** Whatever is read as a record is the record of what was read. */
  lemma RecordBack(crc: Crc, b: Bytes, at: nat)
    requires at <= |b| && ReadRecord(crc, b, at).Got?
    ensures var r := ReadRecord(crc, b, at);
            FitsEntry(r.entry) && r.next == at + Size(r.entry) && b[at..r.next] == Record(crc, r.entry)
  {
    hide Body, U32LE, U64LE, Signed, LE;
    var r := ReadRecord(crc, b, at);
    RecomputedBody(crc, b, at);
    U32Inverse(b, r.next - 4);
    SliceJoin(b, at, r.next - 4, r.next);
  }

  lemma SplitPrefix(x: Bytes, y: Bytes, s: Bytes)
    ensures x + y <= s <==> x <= s && y <= s[|x|..]
  {
    if x + y <= s {
      assert s[..|x|] == (x + y)[..|x|] == x;
      assert s[|x|..|x| + |y|] == (x + y)[|x|..] == y;
      assert s[|x|..][..|y|] == s[|x|..|x| + |y|];
    }
    if x <= s && y <= s[|x|..] {
      assert s == x + s[|x|..] && s[|x|..] == y + s[|x|..][|y|..];
      assert s[..|x + y|] == x + y;
    }
  }

  /** The entries a file replays begin with `es` exactly when its bytes begin with the log of `es`. */
  lemma {:induction false} ReplayStarts(crc: Crc, b: Bytes, at: nat, es: seq<Entry>)
    requires AllFit(es) && at <= |b|
    ensures es <= ReplayFrom(Reader(crc, b), |b|, at).entries <==> Log(crc, es) <= b[at..]
    decreases |es|
  {
    hide Record, ReadRecord, Size;
    if es != [] {
      var e, next := es[0], at + Size(es[0]);
      var entries := ReplayFrom(Reader(crc, b), |b|, at).entries;
      RecordReadIff(crc, b, at, e);
      SplitPrefix(Record(crc, e), Log(crc, es[1..]), b[at..]);
      if ReadRecord(crc, b, at) == Got(e, next) {
        RecordBack(crc, b, at);
        ReplayStarts(crc, b, next, es[1..]);
        ReplayGoes(Reader(crc, b), |b|, at, e, next);
        ConsPrefix(es, ReplayFrom(Reader(crc, b), |b|, next).entries);
        assert b[at..][|Record(crc, e)|..] == b[next..];
      } else if es <= entries {
        assert entries[0] == e;
        ReplayHead(crc, b, at);
      }
    }
  }

  lemma ConsPrefix<T>(s: seq<T>, t: seq<T>)
    requires s != []
    ensures s <= [s[0]] + t <==> s[1..] <= t
  {
    if s <= [s[0]] + t {
      assert forall i :: 0 <= i < |s| - 1 ==> s[1..][i] == ([s[0]] + t)[i + 1];
    }
  }

  /** The first entry replayed is the first record read. */
  lemma ReplayHead(crc: Crc, b: Bytes, at: nat)
    requires at <= |b| && ReplayFrom(Reader(crc, b), |b|, at).entries != []
    ensures var e := ReplayFrom(Reader(crc, b), |b|, at).entries[0]; ReadRecord(crc, b, at) == Got(e, at + Size(e))
  {
    RecordBack(crc, b, at);
  }

  /** Every entry that replays can be written again. */
  lemma {:induction false} ReplayedFit(crc: Crc, b: Bytes, at: nat)
    requires at <= |b|
    ensures AllFit(ReplayFrom(Reader(crc, b), |b|, at).entries)
    decreases |b| - at
  {
    hide ReadRecord, FitsEntry;
    var r := ReadRecord(crc, b, at);
    if r.Got? {
      RecordBack(crc, b, at);
      ReplayedFit(crc, b, r.next);
      ReplayGoes(Reader(crc, b), |b|, at, r.entry, r.next);
    }
  }

  /** What a log file holds beyond the entries it replays. */
  function Tail(crc: Crc, found: Bytes): Bytes {
    var n := |Log(crc, ReplayOf(crc, found).entries)|;
    if n <= |found| then found[n..] else []
  }

  lemma FoundSplits(crc: Crc, found: Bytes)
    ensures AllFit(ReplayOf(crc, found).entries)
    ensures found == Log(crc, ReplayOf(crc, found).entries) + Tail(crc, found)
  {
    hide ReplayFrom, Log, Reader;
    ReplayedFit(crc, found, 0);
    ReplayStarts(crc, found, 0, ReplayOf(crc, found).entries);
    assert found[0..] == found;
  }

  /** `t` is the beginning of a record, cut where a field starts. */
  ghost predicate CutAtField(t: Bytes) {
    exists e :: FitsEntry(e) && t <= Body(e) && FieldStart(e, |t|)
  }

  function Padding(n: nat): (r: Bytes)
    ensures |r| == n
  {
    seq(n, _ => 0)
  }

  /** Some entry whose record begins with the fields that `b` has in full. */
  lemma FieldsOf(t: Bytes) returns (e: Entry)
    ensures FitsEntry(e)
    ensures |t| >= 5 ==> |e.key| == U32LE(t, 1)
    ensures |t| >= 9 + |e.key| ==> |e.value| == U32LE(t, 5 + |e.key|)
    ensures |t| <= 17 + |e.key| + |e.value| ==> t <= Body(e)
  {
    hide Body, LE, U32LE, U64LE, Signed;
    var p := t + Padding(0x2_0000_0011);
    var k := 5 + U32LE(p, 1);
    var v := k + 4 + U32LE(p, k);
    e := Entry(p[0], p[5..k], p[k + 4..v], Signed(U64LE(p, v)));
    BodyAt(p, 0, k, v);
    if |t| >= 5 {
      SameU32(t, p, 1);
      if |t| >= k + 4 {
        SameU32(t, p, k);
      }
    }
    assert |t| <= v + 8 ==> p[0..v + 8][..|t|] == t;
  }

  lemma SameU32(t: Bytes, p: Bytes, at: nat)
    requires at + 4 <= |t| && t <= p
    ensures U32LE(p, at) == U32LE(t, at)
  {
    assert forall i :: at <= i < at + 4 ==> p[i] == t[i];
    SameLE(t, p, at, 4);
  }

  lemma {:induction false} SameLE(t: Bytes, p: Bytes, at: nat, w: nat)
    requires at + w <= |t| && at + w <= |p| && forall i :: at <= i < at + w ==> p[i] == t[i]
    ensures LEAt(p, at, w) == LEAt(t, at, w)
    decreases w
  {
    if w > 0 {
      SameLE(t, p, at + 1, w - 1);
    }
  }

  /** Reading ends without an error exactly where the file was cut at the start of a field: a file that
      ends elsewhere, or goes on with a record whose checksum does not match, is an error. */
  lemma EndExactly(crc: Crc, b: Bytes, at: nat)
    requires at <= |b|
    ensures ReadRecord(crc, b, at) == End <==> CutAtField(b[at..])
  {
    hide Record, Body, ReadRecord, U32LE;
    var t := b[at..];
    if CutAtField(t) {
      var e :| FitsEntry(e) && t <= Body(e) && FieldStart(e, |t|);
      TailHolds(crc, e, b, at);
      RecordRead(crc, e, b, at);
    }
    if ReadRecord(crc, b, at) == End {
      var e := FieldsOf(t);
      EndAtField(crc, b, at, e);
      assert t <= Body(e) && FieldStart(e, |t|);
    }
  }

  lemma TailHolds(crc: Crc, e: Entry, b: Bytes, at: nat)
    requires at <= |b| && b[at..] <= Body(e)
    ensures Holds(b, at, Record(crc, e)) && |b| - at < Size(e)
  {
    hide Body;
    forall i | 0 <= i < |Record(crc, e)| && at + i < |b|
      ensures b[at + i] == Record(crc, e)[i]
    {
      assert b[at + i] == b[at..][i] == Body(e)[i];
    }
  }

  lemma EndAtField(crc: Crc, b: Bytes, at: nat, e: Entry)
    requires at <= |b| && ReadRecord(crc, b, at) == End
    requires |b| - at >= 5 ==> |e.key| == U32LE(b[at..], 1)
    requires |b| - at >= 9 + |e.key| ==> |e.value| == U32LE(b[at..], 5 + |e.key|)
    ensures FieldStart(e, |b| - at) && |b| - at <= 17 + |e.key| + |e.value|
  {
    hide U32LE, U64LE;
    if |b| - at >= 5 {
      TailU32(b, at, 1);
      if |b| - at >= 9 + |e.key| {
        TailU32(b, at, 5 + |e.key|);
      }
    }
  }

  lemma TailU32(b: Bytes, at: nat, i: nat)
    requires at + i + 4 <= |b|
    ensures U32LE(b[at..], i) == U32LE(b, at + i)
  {
    TailLE(b, at, i, 4);
  }

  lemma {:induction false} TailLE(b: Bytes, at: nat, i: nat, w: nat)
    requires at + i + w <= |b|
    ensures LEAt(b[at..], i, w) == LEAt(b, at + i, w)
    decreases w
  {
    if w > 0 {
      TailLE(b, at, i + 1, w - 1);
    }
  }

  /** `Replay` returns nil when what follows the entries ends at the start of a field, and only then. */
  lemma {:induction false} ReplayEnds(crc: Crc, b: Bytes, at: nat)
    requires at <= |b|
    ensures var r := ReplayFrom(Reader(crc, b), |b|, at);
            at + |Log(crc, r.entries)| <= |b| && (r.ok <==> CutAtField(b[at + |Log(crc, r.entries)|..]))
    decreases |b| - at
  {
    hide ReadRecord, Record, CutAtField, Size;
    var r := ReadRecord(crc, b, at);
    EndExactly(crc, b, at);
    if r.Got? {
      RecordBack(crc, b, at);
      ReplayEnds(crc, b, r.next);
      ReplayGoes(Reader(crc, b), |b|, at, r.entry, r.next);
      assert ([r.entry] + ReplayFrom(Reader(crc, b), |b|, r.next).entries)[1..]
          == ReplayFrom(Reader(crc, b), |b|, r.next).entries;
    }
  }

  /** Main result on the nil result, for every file: nil exactly when what the file holds beyond its
      entries is the beginning of a record, cut at the start of a field. */
  lemma NilExactly(crc: Crc, b: Bytes)
    ensures ReplayOf(crc, b).ok <==> CutAtField(Tail(crc, b))
  {
    hide ReplayFrom, Log, Reader, CutAtField;
    ReplayEnds(crc, b, 0);
  }

  /** Replay reads through the records at the beginning. */
  lemma {:induction false} ReplayThrough(crc: Crc, b: Bytes, at: nat, es: seq<Entry>)
    requires AllFit(es) && at <= |b| && Log(crc, es) <= b[at..]
    ensures var r := ReplayFrom(Reader(crc, b), |b|, at + |Log(crc, es)|);
            ReplayFrom(Reader(crc, b), |b|, at) == Replayed(es + r.entries, r.ok)
    decreases |es|
  {
    hide ReadRecord, Record, Size;
    var r := ReplayFrom(Reader(crc, b), |b|, at + |Log(crc, es)|);
    NothingAdded(r.entries);
    if es != [] {
      var next := at + |Record(crc, es[0])|;
      SplitPrefix(Record(crc, es[0]), Log(crc, es[1..]), b[at..]);
      assert b[at..][|Record(crc, es[0])|..] == b[next..];
      RecordReadIff(crc, b, at, es[0]);
      ReplayThrough(crc, b, next, es[1..]);
      ReplayGoes(Reader(crc, b), |b|, at, es[0], next);
      Concat3([es[0]], es[1..], r.entries);
      assert [es[0]] + es[1..] == es;
    }
  }

  lemma MismatchRead(crc: Crc, sum: u32, e: Entry, b: Bytes, at: nat)
    requires FitsEntry(e) && at + Size(e) <= |b| && Holds(b, at, Record(_ => sum, e)) && sum != crc(Body(e))
    ensures ReadRecord(crc, b, at) == Bad
  {
    hide Holds, Record, Body, LE, U32LE, U64LE, Bits, Signed;
    RecordFields(_ => sum, e, b, at);
  }

  /** A record whose stored checksum is not that of its fields is an error, whatever follows it: the
      entries before it are applied, and nothing after. */
  lemma MismatchIsRefused(crc: Crc, es: seq<Entry>, e: Entry, sum: u32, rest: Bytes)
    requires AllFit(es) && FitsEntry(e) && sum != crc(Body(e))
    ensures ReplayOf(crc, Log(crc, es) + (Record(_ => sum, e) + rest)) == Replayed(es, false)
  {
    hide Log, ReadRecord, Record, ReplayFrom;
    var bad := Record(_ => sum, e) + rest;
    var b := Log(crc, es) + bad;
    AfterPrefix(Log(crc, es), bad);
    assert b[0..] == b;
    ReplayThrough(crc, b, 0, es);
    AfterPrefix(Record(_ => sum, e), rest);
    PrefixHolds(b, |Log(crc, es)|, Record(_ => sum, e));
    MismatchRead(crc, sum, e, b, |Log(crc, es)|);
    ReplayStops(Reader(crc, b), |b|, |Log(crc, es)|);
    NothingAdded(es);
  }

  /** Main result: entries appended to any log file that was found replay after the ones it held if
      and only if their records still stand at the head of what follows those: a torn tail must not
      shift them. */
  lemma AppendedReplay(crc: Crc, found: Bytes, more: seq<Entry>)
    requires AllFit(more)
    ensures var held := ReplayOf(crc, found).entries;
            held + more <= ReplayOf(crc, found + Log(crc, more)).entries
            <==> Log(crc, more) <= Tail(crc, found) + Log(crc, more)
    ensures ReplayOf(crc, found + Log(crc, more)).ok <==> CutAtField(Tail(crc, found + Log(crc, more)))
  {
    hide ReplayFrom, Log, Reader, Tail, CutAtField;
    NilExactly(crc, found + Log(crc, more));
    var held := ReplayOf(crc, found).entries;
    var b := found + Log(crc, more);
    FoundSplits(crc, found);
    ReplayStarts(crc, b, 0, held + more);
    assert b[0..] == b;
    LogAppend(crc, held, more);
    Concat3(Log(crc, held), Tail(crc, found), Log(crc, more));
    SplitPrefix(Log(crc, held), Log(crc, more), b);
    AfterPrefix(Log(crc, held), Tail(crc, found) + Log(crc, more));
  }

  lemma AfterPrefix(x: Bytes, y: Bytes)
    ensures x <= x + y && (x + y)[|x|..] == y
  {
  }

  /** Main result: the same for a log that was cut anywhere. The condition looks at the torn record
      and the appended ones only. */
  lemma TornTailReplay(crc: Crc, es: seq<Entry>, cut: nat, k: nat, more: seq<Entry>)
    requires AllFit(es) && AllFit(more) && cut <= |Log(crc, es)|
    requires k <= |es| && Offset(es, k) <= cut && (k < |es| ==> cut < Offset(es, k + 1))
    ensures es[..k] + more <= ReplayOf(crc, Log(crc, es)[..cut] + Log(crc, more)).entries
       <==> Log(crc, more) <= Log(crc, es)[Offset(es, k)..cut] + Log(crc, more)
  {
    hide ReplayFrom, Log, Reader, ReplayOf, Offset;
    var found := Log(crc, es)[..cut];
    PrefixReplay(crc, es, cut, k);
    AppendedReplay(crc, found, more);
    LogOfFirst(crc, es, k);
    assert Tail(crc, found) == Log(crc, es)[Offset(es, k)..cut];
  }

  lemma LogOfFirst(crc: Crc, es: seq<Entry>, k: nat)
    requires k <= |es|
    ensures |Log(crc, es[..k])| == Offset(es, k) && Log(crc, es[..k]) <= Log(crc, es)
  {
    hide Log;
    assert es == es[..k] + es[k..];
    LogAppend(crc, es[..k], es[k..]);
    LogLength(crc, es[..k]);
    OffsetPrefix(es[..k], es, k);
  }

  lemma {:induction false} OffsetPrefix(es: seq<Entry>, fs: seq<Entry>, k: nat)
    requires k <= |es| && k <= |fs| && forall j :: 0 <= j < k ==> es[j] == fs[j]
    ensures Offset(es, k) == Offset(fs, k)
  {
    if k > 0 {
      OffsetPrefix(es, fs, k - 1);
    }
  }

  /** A log cut between two records takes further entries without a loss. */
  lemma CleanCutReplays(crc: Crc, es: seq<Entry>, k: nat, more: seq<Entry>)
    requires AllFit(es) && AllFit(more) && k <= |es|
    ensures Offset(es, k) <= |Log(crc, es)|
    ensures ReplayOf(crc, Log(crc, es)[..Offset(es, k)] + Log(crc, more)) == Replayed(es[..k] + more, true)
  {
    hide Log, ReplayOf, Offset;
    LogOfFirst(crc, es, k);
    LogAppend(crc, es[..k], more);
    assert Log(crc, es)[..Offset(es, k)] == Log(crc, es[..k]);
    WholeLogReplays(crc, es[..k] + more);
  }

  /** A tail torn at a field boundary replays without an error and is left in place; a record
      appended and synced after it is lost: `Replay` reads it as the rest of the torn one. */
  lemma TornTailHidesLaterEntry(crc: Crc)
    ensures var e := Entry(ENTRY_NODE, [1], [2], 0);
            var torn := Record(crc, e)[..1];
            && ReplayOf(crc, torn) == Replayed([], true)
            && ReplayOf(crc, torn + Record(crc, e)) == Replayed([], false)
  {
    hide Record, Body, ReadRecord;
    var e := Entry(ENTRY_NODE, [1], [2], 0);
    var r := Record(crc, e);
    var torn := r[..1];
    RecordRead(crc, e, torn, 0);
    KindThenLength(crc, e);
    ShiftedLength(r, torn + r);
    TooLong(crc, torn + r);
  }

  lemma KindThenLength(crc: Crc, e: Entry)
    requires e.kind == 1 && |e.key| == 1
    ensures var r := Record(crc, e); r[0] == r[1] == 1 && r[2] == r[3] == 0
  {
    hide LE, Body, Record;
    RecordParts(crc, e, Record(crc, e), 0);
    LEOne();
    var r := Record(crc, e);
    assert r[0 + 0] == [e.kind][0] && r[1 + 0] == LE(1, 4)[0] && r[1 + 1] == LE(1, 4)[1] && r[1 + 2] == LE(1, 4)[2];
  }

  lemma ShiftedLength(r: Bytes, b: Bytes)
    requires |r| > 4 && b == r[..1] + r && r[0] == r[1] == 1 && r[2] == r[3] == 0
    ensures U32LE(b, 1) == 257
  {
    hide U32LE;
    assert b[1] == r[0] && b[2] == r[1] && b[3] == r[2] && b[4] == r[3];
    LengthIs257(b);
  }

  lemma TooLong(crc: Crc, b: Bytes)
    requires 5 < |b| < 262 && U32LE(b, 1) == 257
    ensures ReadRecord(crc, b, 0) == Bad
  {
    hide U32LE, U64LE;
  }

  lemma LEOne()
    ensures LE(1, 4) == [1, 0, 0, 0]
  {
    assert LE(0, 1) == [0];
    assert LE(0, 2) == [0, 0];
    assert LE(0, 3) == [0, 0, 0];
  }

  lemma LengthIs257(b: Bytes)
    requires |b| > 4 && b[1] == b[2] == 1 && b[3] == b[4] == 0
    ensures U32LE(b, 1) == 257
  {
    assert LEAt(b, 4, 1) == 0;
    assert LEAt(b, 3, 2) == 0;
    assert LEAt(b, 2, 3) == 1;
    assert LEAt(b, 1, 4) == 257;
  }

  // ---------- the log object ----------

  class WAL {
    const crc: Crc
    var file: Bytes       // what has reached the file
    var buffer: Bytes     // what bufio still holds
    var offset: nat
    var closed: bool
    ghost var found: Bytes         // what the file held when it was opened or last truncated
    ghost var appended: seq<Entry> // everything appended since then

    ghost predicate Valid()
      reads this
    {
      && file + buffer == found + Log(crc, appended)
      && offset == |file| + |buffer|
    }

    constructor (crc: Crc, disk: Bytes)
      ensures Valid() && this.crc == crc && file == disk && found == disk && appended == [] && !closed
    {
      this.crc := crc;
      file, buffer, offset, closed := disk, [], |disk|, false;
      found, appended := disk, [];
    }

    /** `Append`, the clock being a parameter. bufio may pass on any part of its buffer. */
    method Append(kind: byte, key: Bytes, value: Bytes, now: i64) returns (ok: bool)
      requires Valid()
      modifies this
      ensures Valid() && found == old(found) && closed == old(closed)
      ensures ok == !closed && old(file) <= file
      ensures appended == if ok then old(appended) + [Entry(kind, key, value, now)] else old(appended)
    {
      if closed {
        return false;
      }
      var e := Entry(kind, key, value, now);
      var data := Record(crc, e);
      LogSnoc(crc, appended, e);
      Concat3(found, Log(crc, appended), data);
      Concat3(file, buffer, data);
      var pending := buffer + data;
      var spill :| 0 <= spill <= |pending|;
      Concat3(file, pending[..spill], pending[spill..]);
      assert pending[..spill] + pending[spill..] == pending;
      file, buffer := file + pending[..spill], pending[spill..];
      offset := offset + |data|;
      appended := appended + [e];
      return true;
    }

    /** After a `Sync`, everything appended is in the file. */
    method Sync() returns (ok: bool)
      requires Valid()
      modifies `file, `buffer
      ensures Valid() && ok == !closed
      ensures ok ==> buffer == [] && file == found + Log(crc, appended)
      ensures !ok ==> file == old(file) && buffer == old(buffer)
    {
      if closed {
        return false;
      }
      file, buffer := file + buffer, [];
      return true;
    }

    method Close()
      requires Valid()
      modifies `file, `buffer, `closed
      ensures Valid() && closed
      ensures !old(closed) ==> buffer == [] && file == found + Log(crc, appended)
      ensures old(closed) ==> file == old(file) && buffer == old(buffer)
    {
      if !closed {
        closed := true;
        file, buffer := file + buffer, [];
      }
    }

    /** `Truncate` also drops what was still buffered; on a closed log it fails. */
    method Truncate() returns (ok: bool)
      requires Valid()
      modifies this
      ensures Valid() && ok == !old(closed) && closed == old(closed)
      ensures ok ==> file == [] && buffer == [] && found == [] && appended == []
      ensures !ok ==> file == old(file) && buffer == old(buffer) && found == old(found) && appended == old(appended)
    {
      if closed {
        return false;
      }
      file, buffer, offset := [], [], 0;
      found, appended := [], [];
      return true;
    }

    /** `Replay` reads the file, not the buffer. The entries it passes to its callback are
        returned; the callback's own errors are handled by the caller. */
    method Replay() returns (entries: seq<Entry>, ok: bool)
      requires Valid()
      ensures entries == ReplayOf(crc, file).entries && ok == ReplayOf(crc, file).ok
      ensures ok <==> CutAtField(Tail(crc, file))
    {
      hide CutAtField, Tail;
      NilExactly(crc, file);
      var pos := 0;
      entries := [];
      while true
        invariant pos <= |file|
        invariant ReplayOf(crc, file).entries == entries + ReplayFrom(Reader(crc, file), |file|, pos).entries
        invariant ReplayOf(crc, file).ok == ReplayFrom(Reader(crc, file), |file|, pos).ok
        decreases |file| - pos
      {
        var next := ReadRecord(crc, file, pos);
        if !next.Got? {
          return entries, next.End?;
        }
        entries := entries + [next.entry];
        pos := next.next;
      }
    }
  }

  /** Conservation: a log opened on any file, appended to and synced, replays what the file held and
      then everything appended, exactly when no torn tail shifts it, and always when there is none. */
  method SyncThenReplay(w: WAL) returns (entries: seq<Entry>, ok: bool)
    requires w.Valid() && !w.closed && AllFit(w.appended)
    modifies w
    ensures w.Valid() && w.found == old(w.found) && w.appended == old(w.appended)
    ensures var held := ReplayOf(w.crc, w.found).entries;
            && (held + w.appended <= entries
                <==> Log(w.crc, w.appended) <= Tail(w.crc, w.found) + Log(w.crc, w.appended))
            && (Tail(w.crc, w.found) == [] ==> entries == held + w.appended && ok)
    ensures ok <==> CutAtField(Tail(w.crc, w.found + Log(w.crc, w.appended)))
  {
    hide ReplayOf, Log, Tail, CutAtField;
    var synced := w.Sync();
    AppendedReplay(w.crc, w.found, w.appended);
    if Tail(w.crc, w.found) == [] {
      NoTailReplays(w.crc, w.found, w.appended);
    }
    entries, ok := w.Replay();
  }

  lemma NoTailReplays(crc: Crc, found: Bytes, more: seq<Entry>)
    requires AllFit(more) && Tail(crc, found) == []
    ensures ReplayOf(crc, found + Log(crc, more)) == Replayed(ReplayOf(crc, found).entries + more, true)
  {
    hide ReplayOf, Log, Tail;
    var held := ReplayOf(crc, found).entries;
    FoundSplits(crc, found);
    NothingAdded(Log(crc, held));
    LogAppend(crc, held, more);
    assert AllFit(held + more);
    WholeLogReplays(crc, held + more);
  }
}
