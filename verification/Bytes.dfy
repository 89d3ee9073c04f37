/** Byte strings as Go sees them: fixed-width integers in both byte orders, the bytewise
    order on strings, and enumerations of a map in an unspecified order. */
module Bytes {
  type byte = b: int | 0 <= b < 0x100
  type Bytes = seq<byte>

  const U32 := 0x1_0000_0000
  const U64 := 0x1_0000_0000_0000_0000
  const I63 := 0x8000_0000_0000_0000

  type u32 = x: int | 0 <= x < U32
  type u64 = x: int | 0 <= x < U64
  type i64 = x: int | -I63 <= x < I63

  datatype Option<+T> = None | Some(value: T)

  // ---------- fixed-width integers ----------

  function Pow256(w: nat): (r: nat)
    ensures r > 0
  {
    if w == 0 then 1 else 256 * Pow256(w - 1)
  }

  lemma Pow256Values()
    ensures Pow256(4) == U32 && Pow256(8) == U64
  {
    assert Pow256(2) == 0x1_0000;
    assert Pow256(4) == U32;
    assert Pow256(6) == 0x1_0000_0000_0000;
  }

  /** `binary.LittleEndian.PutUintN`: the low `w` bytes of `n`, least significant first.
      A wider `n` is truncated, as Go's conversion to the unsigned type does. */
  function LE(n: nat, w: nat): (r: Bytes)
    ensures |r| == w
  {
    if w == 0 then [] else [n % 256] + LE(n / 256, w - 1)
  }

  function LEAt(b: Bytes, at: nat, w: nat): nat
    requires at + w <= |b|
    decreases w
  {
    if w == 0 then 0 else b[at] + 256 * LEAt(b, at + 1, w - 1)
  }

  /** `binary.LittleEndian.Uint32(b[at:])`. */
  function U32LE(b: Bytes, at: nat): (r: u32)
    requires at + 4 <= |b|
  {
    Pow256Values(); LEBound(b, at, 4);
    LEAt(b, at, 4)
  }

  function U64LE(b: Bytes, at: nat): (r: u64)
    requires at + 8 <= |b|
  {
    Pow256Values(); LEBound(b, at, 8);
    LEAt(b, at, 8)
  }

  lemma {:induction false} LEBound(b: Bytes, at: nat, w: nat)
    requires at + w <= |b|
    ensures LEAt(b, at, w) < Pow256(w)
    decreases w
  {
    if w > 0 {
      LEBound(b, at + 1, w - 1);
    }
  }

  lemma SliceJoin(b: Bytes, i: nat, j: nat, k: nat)
    requires i <= j <= k <= |b|
    ensures b[i..k] == b[i..j] + b[j..k]
  {
  }

  lemma SliceCons<T>(s: seq<T>, j: nat, k: nat)
    requires j < k <= |s|
    ensures s[j..k] == [s[j]] + s[j + 1..k]
  {
  }

  lemma OneSlice<T>(s: seq<T>, j: nat)
    requires j < |s|
    ensures s[j..j + 1] == [s[j]]
  {
  }

  lemma Concat3<T>(a: seq<T>, b: seq<T>, c: seq<T>)
    ensures (a + b) + c == a + (b + c)
  {
  }

  lemma NothingAdded<T>(s: seq<T>)
    ensures s + [] == s && [] + s == s
  {
  }

  lemma SliceSnoc<T>(s: seq<T>, i: nat)
    requires i < |s|
    ensures s[..i] + [s[i]] == s[..i + 1]
  {
  }

  lemma SnocParts<T>(s: seq<T>, x: T)
    ensures (s + [x])[..|s + [x]| - 1] == s && (s + [x])[|s + [x]| - 1] == x && (s + [x])[|s|] == x
  {
  }

  /** `r` is what stands at `at` in `b`, as far as `b` goes. */
  ghost predicate Holds(b: Bytes, at: nat, r: Bytes) {
    forall i :: 0 <= i < |r| && at + i < |b| ==> b[at + i] == r[i]
  }

  lemma HoldsConcat(b: Bytes, at: nat, x: Bytes, y: Bytes)
    requires Holds(b, at, x + y)
    ensures Holds(b, at, x) && Holds(b, at + |x|, y)
  {
    var r := x + y;
    assert forall i :: 0 <= i < |x| ==> r[i] == x[i];
    forall i | 0 <= i < |y| && at + |x| + i < |b|
      ensures b[at + |x| + i] == y[i]
    {
      assert b[at + (|x| + i)] == r[|x| + i];
    }
  }

  lemma HoldsSlice(b: Bytes, at: nat, x: Bytes)
    requires Holds(b, at, x) && at + |x| <= |b|
    ensures b[at..at + |x|] == x
  {
  }

  lemma {:induction false} HoldsLE(b: Bytes, at: nat, n: nat, w: nat)
    requires Holds(b, at, LE(n, w)) && at + w <= |b| && n < Pow256(w)
    ensures LEAt(b, at, w) == n
    decreases w
  {
    if w > 0 {
      HoldsConcat(b, at, [n % 256], LE(n / 256, w - 1));
      assert b[at + 0] == LE(n, w)[0];
      HoldsLE(b, at + 1, n / 256, w - 1);
    }
  }

  lemma {:induction false} LEInverse(b: Bytes, at: nat, w: nat)
    requires at + w <= |b|
    ensures LE(LEAt(b, at, w), w) == b[at..at + w]
    decreases w
  {
    if w > 0 {
      LEInverse(b, at + 1, w - 1);
    }
  }

  lemma HoldsU32(b: Bytes, at: nat, n: u32)
    requires Holds(b, at, LE(n, 4)) && at + 4 <= |b|
    ensures U32LE(b, at) == n
  {
    Pow256Values();
    HoldsLE(b, at, n, 4);
  }

  lemma HoldsU64(b: Bytes, at: nat, n: u64)
    requires Holds(b, at, LE(n, 8)) && at + 8 <= |b|
    ensures U64LE(b, at) == n
  {
    Pow256Values();
    HoldsLE(b, at, n, 8);
  }

  /** `binary.Write(buf, binary.BigEndian, n)`: most significant first. */
  function BE(n: nat, w: nat): (r: Bytes)
    ensures |r| == w
  {
    if w == 0 then [] else BE(n / 256, w - 1) + [n % 256]
  }

  function FromBE(b: Bytes): nat {
    BEUpTo(b, |b|)
  }

  /** The big-endian value of the first `i` bytes. */
  function BEUpTo(b: Bytes, i: nat): nat
    requires i <= |b|
  {
    if i == 0 then 0 else 256 * BEUpTo(b, i - 1) + b[i - 1]
  }

  lemma {:induction false} BEUpToInit(b: Bytes, c: Bytes, i: nat)
    requires |b| > 0 && c == b[..|b| - 1] && i <= |c|
    ensures BEUpTo(b, i) == BEUpTo(c, i)
  {
    if i > 0 {
      BEUpToInit(b, c, i - 1);
    }
  }

  lemma {:induction false} BEInverse(n: nat, w: nat)
    requires n < Pow256(w)
    ensures FromBE(BE(n, w)) == n
  {
    if w > 0 {
      BEInverse(n / 256, w - 1);
      assert BE(n, w)[..w - 1] == BE(n / 256, w - 1);
      BEUpToInit(BE(n, w), BE(n / 256, w - 1), w - 1);
    }
  }

  lemma {:induction false} BEUpToBound(b: Bytes, i: nat)
    requires i <= |b|
    ensures BEUpTo(b, i) < Pow256(i)
  {
    if i > 0 {
      BEUpToBound(b, i - 1);
    }
  }

  lemma FromBEBound(b: Bytes)
    ensures FromBE(b) < Pow256(|b|)
  {
    BEUpToBound(b, |b|);
  }

  lemma BE4(n: u32)
    ensures FromBE(BE(n, 4)) == n
  {
    Pow256Values();
    BEInverse(n, 4);
  }

  /** Which byte stands where: the one of weight 256^i comes i-th in `LE`, and i-th from the end in `BE`. */
  lemma {:induction false} ByteOrder(n: nat, w: nat, i: nat)
    requires i < w
    ensures LE(n, w)[i] == n / Pow256(i) % 256 && BE(n, w)[w - 1 - i] == n / Pow256(i) % 256
  {
    if i > 0 {
      ByteOrder(n / 256, w - 1, i - 1);
      DivideTwice(n, 256, Pow256(i - 1));
    }
  }

  /** The `w` bytes from `at` on are those of `n`, the one of weight 256^i at `at + i`. */
  ghost predicate LowFirst(b: Bytes, at: nat, w: nat, n: nat) {
    at + w <= |b| && forall i :: 0 <= i < w ==> b[at + i] == n / Pow256(i) % 256
  }

  /** The other way round: the byte of weight 256^i stands i places before the last. */
  ghost predicate HighFirst(b: Bytes, at: nat, w: nat, n: nat) {
    at + w <= |b| && forall i :: 0 <= i < w ==> b[at + w - 1 - i] == n / Pow256(i) % 256
  }

  lemma LEIsLowFirst(b: Bytes, at: nat, w: nat, n: nat)
    requires Holds(b, at, LE(n, w)) && at + w <= |b|
    ensures LowFirst(b, at, w, n)
  {
    hide LE, BE, Pow256;
    forall i | 0 <= i < w
      ensures b[at + i] == n / Pow256(i) % 256
    {
      ByteOrder(n, w, i);
    }
  }

  lemma BEIsHighFirst(b: Bytes, at: nat, w: nat, n: nat)
    requires Holds(b, at, BE(n, w)) && at + w <= |b|
    ensures HighFirst(b, at, w, n)
  {
    hide LE, BE, Pow256;
    forall i | 0 <= i < w
      ensures b[at + w - 1 - i] == n / Pow256(i) % 256
    {
      ByteOrder(n, w, i);
      assert b[at + (w - 1 - i)] == BE(n, w)[w - 1 - i];
    }
  }

  lemma DivideTwice(n: nat, a: nat, b: nat)
    requires a > 0 && b > 0
    ensures n / a / b == n / (a * b)
  {
    var q, r := n / a / b, n / a % b;
    assert n / a == q * b + r;
    assert n == (q * b + r) * a + n % a;
    assert n == q * (a * b) + (r * a + n % a);
    assert r * a + n % a < a * b by {
      assert r * a <= (b - 1) * a;
    }
    QuotientIs(n, a * b, q, r * a + n % a);
  }

  lemma QuotientIs(n: nat, d: nat, q: nat, r: nat)
    requires n == q * d + r && r < d
    ensures n / d == q
  {
    var k: int := q - n / d;
    assert n == n / d * d + n % d;
    assert k * d == q * d - n / d * d;
    MultipleGrows(k, d);
  }

  lemma MultipleGrows(k: int, d: nat)
    ensures k >= 1 ==> k * d >= d
    ensures k <= -1 ==> k * d <= 0 - d
  {
  }

  /** Two's complement: the bit pattern of a signed 64-bit integer. */
  function Bits(x: i64): u64 {
    if x < 0 then x + U64 else x
  }

  function Signed(x: u64): i64 {
    if x < I63 then x else x - U64
  }

  /** The pattern is the one congruent number of 64 bits, and leads back to the integer. */
  lemma BitsExactly(x: i64, y: u64)
    ensures y == Bits(x) <==> (y - x) % U64 == 0
    ensures Signed(Bits(x)) == x && Bits(Signed(y)) == y
  {
  }

  // ---------- the bytewise order ----------

  /** Go's `a < b` on strings. */
  predicate Less(a: Bytes, b: Bytes) {
    b != [] && (a == [] || a[0] < b[0] || (a[0] == b[0] && Less(a[1..], b[1..])))
  }

  /** `a` and `b` first differ at `i`, where `a` has the smaller byte. */
  predicate SmallerAt(a: Bytes, b: Bytes, i: nat) {
    i < |a| && i < |b| && a[..i] == b[..i] && a[i] < b[i]
  }

  /** Which order it is: a string comes before another one if it is a strict prefix of it, or has the
      smaller byte where the two first differ. */
  lemma {:induction false} LessExactly(a: Bytes, b: Bytes)
    ensures Less(a, b) <==> a < b || exists i: nat :: SmallerAt(a, b, i)
  {
    if a == [] || b == [] {
      assert a == [] && b != [] ==> a < b;
    } else if a[0] == b[0] {
      LessExactly(a[1..], b[1..]);
      assert a == [a[0]] + a[1..] && b == [b[0]] + b[1..];
      assert a < b <==> a[1..] < b[1..];
      forall i: nat | SmallerAt(a[1..], b[1..], i)
        ensures SmallerAt(a, b, i + 1)
      {
        TakeTail(a, i);
        TakeTail(b, i);
      }
      forall i: nat | SmallerAt(a, b, i)
        ensures i > 0 && SmallerAt(a[1..], b[1..], i - 1)
      {
        TakeTail(a, i - 1);
        TakeTail(b, i - 1);
      }
    } else {
      assert !(a < b);
      assert a[0] < b[0] ==> SmallerAt(a, b, 0);
      forall i: nat | i > 0
        ensures !SmallerAt(a, b, i)
      {
        assert i < |a| && i < |b| ==> a[..i][0] == a[0] && b[..i][0] == b[0];
      }
    }
  }

  lemma TakeTail(s: Bytes, i: nat)
    requires i < |s|
    ensures s[..i + 1] == [s[0]] + s[1..][..i]
  {
  }

  lemma {:induction false} LessIrreflexive(a: Bytes)
    ensures !Less(a, a)
  {
    if a != [] {
      LessIrreflexive(a[1..]);
    }
  }

  lemma {:induction false} LessTransitive(a: Bytes, b: Bytes, c: Bytes)
    requires Less(a, b) && Less(b, c)
    ensures Less(a, c)
  {
    if a != [] && a[0] == b[0] == c[0] {
      LessTransitive(a[1..], b[1..], c[1..]);
    }
  }

  lemma {:induction false} LessTotal(a: Bytes, b: Bytes)
    ensures Less(a, b) || a == b || Less(b, a)
  {
    if a != [] && b != [] && a[0] == b[0] {
      LessTotal(a[1..], b[1..]);
      if a[1..] == b[1..] {
        assert a == [a[0]] + a[1..];
        assert b == [b[0]] + b[1..];
      }
    }
  }

  lemma LessAsymmetric(a: Bytes, b: Bytes)
    requires Less(a, b)
    ensures !Less(b, a) && a != b
  {
    LessIrreflexive(a);
    if Less(b, a) {
      LessTransitive(a, b, a);
    }
  }

  // ---------- enumerations ----------

  ghost predicate DistinctKeys<K, V>(order: seq<(K, V)>) {
    forall i, j :: 0 <= i < j < |order| ==> order[i].0 != order[j].0
  }

  /** `order` lists every binding of `m` exactly once: what ranging over a Go map yields. */
  ghost predicate Enumerates<K, V>(order: seq<(K, V)>, m: map<K, V>) {
    && DistinctKeys(order)
    && (forall i :: 0 <= i < |order| ==> order[i].0 in m && m[order[i].0] == order[i].1)
    && (forall k :: k in m ==> exists i :: 0 <= i < |order| && order[i].0 == k)
  }

  lemma EnumerationLength<K, V>(order: seq<(K, V)>, m: map<K, V>)
    requires Enumerates(order, m)
    ensures |order| == |m|
  {
    assert KeysIn(order) == m.Keys;
    DistinctCount(order);
  }

  function KeysIn<K, V>(order: seq<(K, V)>): set<K> {
    set i | 0 <= i < |order| :: order[i].0
  }

  lemma KeysSnoc<K, V>(order: seq<(K, V)>, n: nat)
    requires |order| == n + 1
    ensures KeysIn(order) == KeysIn(order[..n]) + {order[n].0}
  {
    assert forall i :: 0 <= i < n ==> order[..n][i] == order[i];
  }

  lemma {:induction false} DistinctCount<K, V>(order: seq<(K, V)>)
    requires DistinctKeys(order)
    ensures |KeysIn(order)| == |order|
  {
    if order != [] {
      var n := |order| - 1;
      DistinctCount(order[..n]);
      KeysSnoc(order, n);
      assert order[n].0 !in KeysIn(order[..n]);
    }
  }
}
