/** How Go ranges over a string: UTF-8 (section 3 of RFC 3629) is decoded rune by rune, and each
    byte that does not start a well-formed sequence yields U+FFFD. */
module Utf8 {
  import opened Bytes

  const REPLACEMENT := 0xFFFD

  predicate Tail(b: byte) { 0x80 <= b < 0xC0 }

  /** The second byte's range depends on the first: no overlong forms, no surrogates, nothing
      above U+10FFFF. */
  predicate Second(b0: byte, b1: byte) {
    if b0 == 0xE0 then 0xA0 <= b1 < 0xC0
    else if b0 == 0xED then 0x80 <= b1 < 0xA0
    else if b0 == 0xF0 then 0x90 <= b1 < 0xC0
    else if b0 == 0xF4 then 0x80 <= b1 < 0x90
    else Tail(b1)
  }

  /** The length of the well-formed sequence at `i`, 0 when there is none. */
  function Width(s: Bytes, i: nat): (w: nat)
    requires i < |s|
    ensures i + w <= |s|
  {
    var b0 := s[i];
    if b0 < 0x80 then 1
    else if 0xC2 <= b0 < 0xE0 then
      if i + 1 < |s| && Tail(s[i + 1]) then 2 else 0
    else if 0xE0 <= b0 < 0xF0 then
      if i + 2 < |s| && Second(b0, s[i + 1]) && Tail(s[i + 2]) then 3 else 0
    else if 0xF0 <= b0 < 0xF5 then
      if i + 3 < |s| && Second(b0, s[i + 1]) && Tail(s[i + 2]) && Tail(s[i + 3]) then 4 else 0
    else 0
  }

  /** How far one step of the range loop moves. */
  function Step(s: Bytes, i: nat): (w: nat)
    requires i < |s|
    ensures 0 < w && i + w <= |s|
  {
    if Width(s, i) == 0 then 1 else Width(s, i)
  }

  function Rune(s: Bytes, i: nat): (r: nat)
    requires i < |s|
  {
    var w := Width(s, i);
    var b0: int := s[i];
    if w == 0 then REPLACEMENT
    else if w == 1 then b0
    else
      var b1: int := s[i + 1];
      if w == 2 then (b0 - 0xC0) * 0x40 + (b1 - 0x80)
      else
        var b2: int := s[i + 2];
        if w == 3 then (b0 - 0xE0) * 0x1000 + (b1 - 0x80) * 0x40 + (b2 - 0x80)
        else
          var b3: int := s[i + 3];
          (b0 - 0xF0) * 0x4_0000 + (b1 - 0x80) * 0x1000 + (b2 - 0x80) * 0x40 + (b3 - 0x80)
  }

  predicate Scalar(r: nat) {
    r < 0xD800 || 0xE000 <= r < 0x11_0000
  }

  /** `string(ch)`. */
  function EncodeRune(r: nat): (s: Bytes)
    ensures s != []
  {
    if r < 0x80 then [r]
    else if r < 0x800 then [0xC0 + r / 0x40, 0x80 + r % 0x40]
    else if !Scalar(r) then [0xEF, 0xBF, 0xBD]
    else if r < 0x1_0000 then [0xE0 + r / 0x1000, 0x80 + r / 0x40 % 0x40, 0x80 + r % 0x40]
    else [0xF0 + r / 0x4_0000, 0x80 + r / 0x1000 % 0x40, 0x80 + r / 0x40 % 0x40, 0x80 + r % 0x40]
  }

  lemma RuneIsScalar(s: Bytes, i: nat)
    requires i < |s|
    ensures Scalar(Rune(s, i))
    ensures Rune(s, i) < 0x80 <==> s[i] < 0x80
    ensures s[i] < 0x80 ==> Rune(s, i) == s[i]
  {
  }

  lemma TwoBytes(b0: int, b1: int)
    requires 0xC2 <= b0 < 0xE0 && 0x80 <= b1 < 0xC0
    ensures EncodeRune((b0 - 0xC0) * 0x40 + (b1 - 0x80)) == [b0, b1]
  {
    var r := (b0 - 0xC0) * 0x40 + (b1 - 0x80);
    assert r / 0x40 == b0 - 0xC0 && r % 0x40 == b1 - 0x80;
  }

  lemma ThreeBytes(b0: int, b1: int, b2: int)
    requires 0xE0 <= b0 < 0xF0 && 0x80 <= b1 < 0x100 && 0x80 <= b2 < 0xC0 && Second(b0, b1)
    ensures EncodeRune((b0 - 0xE0) * 0x1000 + (b1 - 0x80) * 0x40 + (b2 - 0x80)) == [b0, b1, b2]
  {
    var r := (b0 - 0xE0) * 0x1000 + (b1 - 0x80) * 0x40 + (b2 - 0x80);
    assert r / 0x40 == (b0 - 0xE0) * 0x40 + (b1 - 0x80) && r % 0x40 == b2 - 0x80;
    assert r / 0x1000 == b0 - 0xE0;
  }

  lemma FourBytes(b0: int, b1: int, b2: int, b3: int)
    requires 0xF0 <= b0 < 0xF5 && 0x80 <= b1 < 0x100 && Second(b0, b1) && 0x80 <= b2 < 0xC0 && 0x80 <= b3 < 0xC0
    ensures EncodeRune((b0 - 0xF0) * 0x4_0000 + (b1 - 0x80) * 0x1000 + (b2 - 0x80) * 0x40 + (b3 - 0x80)) == [b0, b1, b2,
                       b3]
  {
    FourDigits(b0 - 0xF0, b1 - 0x80, b2 - 0x80, b3 - 0x80);
  }

  lemma FourDigits(w: int, x: int, y: int, z: int)
    requires 0 <= w < 0x40 && 0 <= x < 0x40 && 0 <= y < 0x40 && 0 <= z < 0x40
    ensures var r := w * 0x4_0000 + x * 0x1000 + y * 0x40 + z;
            r / 0x4_0000 == w && r / 0x1000 % 0x40 == x && r / 0x40 % 0x40 == y && r % 0x40 == z
  {
    var r := w * 0x4_0000 + x * 0x1000 + y * 0x40 + z;
    assert r / 0x40 == w * 0x1000 + x * 0x40 + y;
    assert r / 0x1000 == w * 0x40 + x;
  }

  /** Encoding the rune of a well-formed sequence gives its bytes back. */
  lemma EncodeDecode(s: Bytes, i: nat)
    requires i < |s| && Width(s, i) > 0
    ensures EncodeRune(Rune(s, i)) == s[i..i + Width(s, i)]
  {
    hide EncodeRune;
    var w := Width(s, i);
    FirstBytes(s, i, w);
    if w == 1 {
      OneByte(s[i]);
    } else if w == 2 {
      TwoBytes(s[i], s[i + 1]);
    } else if w == 3 {
      ThreeBytes(s[i], s[i + 1], s[i + 2]);
    } else {
      FourBytes(s[i], s[i + 1], s[i + 2], s[i + 3]);
    }
  }

  lemma OneByte(b0: nat)
    requires b0 < 0x80
    ensures EncodeRune(b0) == [b0]
  {
  }

  lemma FirstBytes(s: Bytes, i: nat, w: nat)
    requires 0 < w <= 4 && i + w <= |s|
    ensures s[i..i + w] == if w == 1 then [s[i]] else if w == 2 then [s[i], s[i + 1]]
                           else if w == 3 then [s[i], s[i + 1], s[i + 2]] else [s[i], s[i + 1], s[i + 2], s[i + 3]]
  {
  }

  lemma EncodedIsWellFormed(r: nat)
    requires Scalar(r)
    ensures Width(EncodeRune(r), 0) == |EncodeRune(r)|
  {
    if 0x800 <= r < 0x1_0000 {
      assert r / 0x1000 == 0 ==> r / 0x40 % 0x40 >= 0x20;
      assert r / 0x1000 == 0xD ==> r / 0x40 % 0x40 < 0x20;
    } else if r >= 0x1_0000 {
      assert r / 0x4_0000 == 0 ==> r / 0x1000 % 0x40 >= 0x10;
      assert r / 0x4_0000 == 4 ==> r / 0x1000 % 0x40 < 0x10;
    }
  }

  /** What a well-formed sequence is, told from the writing side: the bytes of some scalar value. */
  lemma WidthExactly(s: Bytes, i: nat, w: nat)
    requires i < |s| && 0 < w
    ensures Width(s, i) == w <==> i + w <= |s| && exists r :: Scalar(r) && EncodeRune(r) == s[i..i + w]
  {
    hide EncodeRune, Scalar;
    if Width(s, i) == w {
      EncodeDecode(s, i);
      RuneIsScalar(s, i);
    }
    if i + w <= |s| && exists r :: Scalar(r) && EncodeRune(r) == s[i..i + w] {
      var r: nat :| Scalar(r) && EncodeRune(r) == s[i..i + w];
      EncodedIsWellFormed(r);
      SameWidth(s, i, w);
    }
  }

  lemma SameWidth(s: Bytes, i: nat, w: nat)
    requires 0 < w && i + w <= |s| && Width(s[i..i + w], 0) == w
    ensures Width(s, i) == w
  {
    var e := s[i..i + w];
    assert forall j :: 0 <= j < w ==> e[j] == s[i + j];
    assert e[0] == s[i];
  }

  /** `s` spells `r` in groups of six bits, behind a first byte that tells how many there are. */
  ghost predicate Spells(s: Bytes, r: int) {
    && (forall i :: 0 < i < |s| ==> 0x80 <= s[i] < 0xC0)
    && match |s|
       case 1 => s[0] < 0x80 && r == s[0]
       case 2 => 0xC0 <= s[0] < 0xE0 && r == Digits([s[0] as int - 0xC0, s[1] as int - 0x80])
       case 3 => 0xE0 <= s[0] < 0xF0 && r == Digits([s[0] as int - 0xE0, s[1] as int - 0x80, s[2] as int - 0x80])
       case 4 => 0xF0 <= s[0] < 0xF8 && r == Digits([s[0] as int - 0xF0, s[1] as int - 0x80, s[2] as int - 0x80,
                                                    s[3] as int - 0x80])
       case _ => false
  }

  function Digits(ds: seq<int>): int {
    if ds == [] then 0 else 64 * Digits(ds[..|ds| - 1]) + ds[|ds| - 1]
  }

  /** What is written for a rune: the fewest groups that hold it. */
  lemma RuneSpelled(r: nat)
    requires Scalar(r)
    ensures Spells(EncodeRune(r), r)
    ensures |EncodeRune(r)| == if r < 0x80 then 1 else if r < 0x800 then 2 else if r < 0x1_0000 then 3 else 4
  {
    var s := EncodeRune(r);
    if |s| == 2 {
      DigitsAre(s[0] as int - 0xC0, s[1] as int - 0x80, 0, 0);
    } else if |s| == 3 {
      DigitsAre(s[0] as int - 0xE0, s[1] as int - 0x80, s[2] as int - 0x80, 0);
    } else if |s| == 4 {
      DigitsAre(s[0] as int - 0xF0, s[1] as int - 0x80, s[2] as int - 0x80, s[3] as int - 0x80);
      Regroup(r);
    }
  }

  lemma DigitsAre(a: int, b: int, c: int, d: int)
    ensures Digits([a, b]) == 0x40 * a + b
    ensures Digits([a, b, c]) == 0x1000 * a + 0x40 * b + c
    ensures Digits([a, b, c, d]) == 0x4_0000 * a + 0x1000 * b + 0x40 * c + d
  {
    assert [] + [a] == [a] && [a] + [b] == [a, b] && [a, b] + [c] == [a, b, c] && [a, b, c] + [d] == [a, b, c, d];
    DigitsSnoc([], a);
    DigitsSnoc([a], b);
    DigitsSnoc([a, b], c);
    DigitsSnoc([a, b, c], d);
  }

  lemma DigitsSnoc(ds: seq<int>, d: int)
    ensures Digits(ds + [d]) == 64 * Digits(ds) + d
  {
    SnocParts(ds, d);
  }

  lemma Regroup(r: nat)
    ensures r == 0x4_0000 * (r / 0x4_0000) + 0x1000 * (r / 0x1000 % 0x40) + 0x40 * (r / 0x40 % 0x40) + r % 0x40
  {
    assert r / 0x40 / 0x40 == r / 0x1000 && r / 0x1000 / 0x40 == r / 0x4_0000;
  }

  /** Well-formed UTF-8 from a character boundary `i` on. */
  predicate ValidFrom(s: Bytes, i: nat)
    requires i <= |s|
    decreases |s| - i
  {
    i == |s| || (Width(s, i) > 0 && ValidFrom(s, i + Width(s, i)))
  }

  predicate Valid(s: Bytes) {
    ValidFrom(s, 0)
  }

  /** A sequence that fits before `b` is read the same way whatever follows. */
  lemma WidthInPrefix(a: Bytes, b: Bytes, i: nat)
    requires i < |a| && Width(a, i) > 0
    ensures Width(a + b, i) == Width(a, i)
    ensures Rune(a + b, i) == Rune(a, i)
  {
    var c, w := a + b, Width(a, i);
    assert forall j :: 0 <= j < |a| ==> c[j] == a[j];
    assert c[i] == a[i];
  }

  lemma {:induction false} ValidConcat(a: Bytes, b: Bytes, i: nat)
    requires i <= |a| && ValidFrom(a, i) && Valid(b)
    ensures ValidFrom(a + b, i)
    decreases |a| - i
  {
    if i < |a| {
      WidthInPrefix(a, b, i);
      ValidConcat(a, b, i + Width(a, i));
    } else {
      ValidShift(a, b, 0);
    }
  }

  lemma {:induction false} ValidShift(a: Bytes, b: Bytes, i: nat)
    requires i <= |b| && ValidFrom(b, i)
    ensures ValidFrom(a + b, |a| + i)
    decreases |b| - i
  {
    if i < |b| {
      ReadShift(a, b, i);
      ValidShift(a, b, i + Width(b, i));
    }
  }

  lemma ReadShift(a: Bytes, b: Bytes, i: nat)
    requires i < |b|
    ensures Width(a + b, |a| + i) == Width(b, i)
    ensures Rune(a + b, |a| + i) == Rune(b, i) && Step(a + b, |a| + i) == Step(b, i)
  {
    var c := a + b;
    assert forall j :: 0 <= j < |b| ==> c[|a| + j] == b[j];
    assert c[|a| + i] == b[i];
    assert i + 1 < |b| ==> c[|a| + i + 1] == c[|a| + (i + 1)] == b[i + 1];
    assert i + 2 < |b| ==> c[|a| + i + 2] == c[|a| + (i + 2)] == b[i + 2];
    assert i + 3 < |b| ==> c[|a| + i + 3] == c[|a| + (i + 3)] == b[i + 3];
  }
}
