/** The comma-separated edge lists stored under an adjacency key (pkg/memtable/memtable.go). */
module EdgeList {
  import opened Bytes
  import opened Utf8

  const COMMA: byte := 44

  /** The rest of `parseEdgeList` from index `i` on, `current` being the ID read so far. */
  function ParseFrom(data: Bytes, i: nat, current: Bytes): seq<Bytes>
    requires i <= |data|
    decreases |data| - i
  {
    if i == |data| then []
    else
      var ch, next := Rune(data, i), i + Step(data, i);
      if ch == COMMA as int then (if current != [] then [current] else []) + ParseFrom(data, next, [])
      else ParseFrom(data, next, current + EncodeRune(ch))
  }

  function ParseEdgeList(data: Bytes): seq<Bytes> {
    ParseFrom(data, 0, [])
  }

  /** The loop of the source. What follows the last comma is dropped. */
  method Parse(data: Bytes) returns (edges: seq<Bytes>)
    ensures edges == ParseEdgeList(data)
  {
    edges := [];
    var current, i := [], 0;
    while i < |data|
      invariant i <= |data| && ParseEdgeList(data) == edges + ParseFrom(data, i, current)
    {
      var ch, next := Rune(data, i), i + Step(data, i);
      if ch == COMMA as int {
        if current != [] {
          Concat3(edges, [current], ParseFrom(data, next, []));
          edges := edges + [current];
          current := [];
        }
      } else {
        current := current + EncodeRune(ch);
      }
      i := next;
    }
  }

  // ---------- what one appended ID turns into ----------

  /** `AddOutgoingEdge` and `AddIncomingEdge` append this. */
  function Item(id: Bytes): Bytes {
    id + [COMMA]
  }

  function Tokens(id: Bytes): seq<Bytes> {
    ParseEdgeList(Item(id))
  }

  /** The IDs that survive the encoding. */
  predicate WellFormedId(id: Bytes) {
    id != [] && COMMA !in id && Valid(id)
  }

  /** A list value: empty, or ending with a comma. */
  predicate Closed(data: Bytes) {
    data == [] || data[|data| - 1] == COMMA
  }

  /** No sequence straddles a comma, so what follows a closed list does not change how it is read. */
  lemma WidthBeforeComma(a: Bytes, b: Bytes, i: nat)
    requires i < |a| && Closed(a)
    ensures Width(a + b, i) == Width(a, i) && Rune(a + b, i) == Rune(a, i) && Step(a + b, i) == Step(a, i)
    ensures i + Step(a, i) == |a| ==> Rune(a, i) == COMMA as int
  {
    var c := a + b;
    assert forall j :: 0 <= j < |a| ==> c[j] == a[j];
    assert c[i] == a[i] && c[|a| - 1] == COMMA;
    assert i + 1 < |a| ==> c[i + 1] == a[i + 1];
    assert i + 2 < |a| ==> c[i + 2] == a[i + 2];
    assert i + 3 < |a| ==> c[i + 3] == a[i + 3];
  }

  lemma {:induction false} ParseShift(a: Bytes, b: Bytes, i: nat, current: Bytes)
    requires i <= |b|
    ensures ParseFrom(a + b, |a| + i, current) == ParseFrom(b, i, current)
    decreases |b| - i
  {
    hide Rune, Step, EncodeRune;
    if i < |b| {
      ReadShift(a, b, i);
      var ch := Rune(b, i);
      ParseShift(a, b, i + Step(b, i), if ch == COMMA as int then [] else current + EncodeRune(ch));
    }
  }

  lemma ParseStep(data: Bytes, i: nat, current: Bytes)
    requires i < |data|
    ensures var ch, next := Rune(data, i), i + Step(data, i);
            ParseFrom(data, i, current) ==
              if ch == COMMA as int then (if current != [] then [current] else []) + ParseFrom(data, next, [])
              else ParseFrom(data, next, current + EncodeRune(ch))
  {
    hide Rune, Step, EncodeRune;
  }

  lemma NothingLeft(data: Bytes, current: Bytes)
    ensures ParseFrom(data, |data|, current) == []
  {
  }

  lemma {:induction false} ParseConcatFrom(a: Bytes, b: Bytes, i: nat, current: Bytes)
    requires Closed(a) && i <= |a| && (i == |a| ==> current == [])
    ensures ParseFrom(a + b, i, current) == ParseFrom(a, i, current) + ParseFrom(b, 0, [])
    decreases |a| - i
  {
    hide Rune, Step, EncodeRune, Closed, ParseFrom;
    if i == |a| {
      ParseShift(a, b, 0, []);
      NothingLeft(a, current);
    } else {
      WidthBeforeComma(a, b, i);
      ParseStep(a, i, current);
      ParseStep(a + b, i, current);
      var ch, next := Rune(a, i), i + Step(a, i);
      if ch == COMMA as int {
        ParseConcatFrom(a, b, next, []);
        Concat3(if current != [] then [current] else [], ParseFrom(a, next, []), ParseFrom(b, 0, []));
      } else {
        ParseConcatFrom(a, b, next, current + EncodeRune(ch));
      }
    }
  }

  lemma ParseConcat(a: Bytes, b: Bytes)
    requires Closed(a)
    ensures ParseEdgeList(a + b) == ParseEdgeList(a) + ParseEdgeList(b)
  {
    ParseConcatFrom(a, b, 0, []);
  }

  // ---------- only well-formed IDs come out ----------

  lemma EncodedRuneClean(r: nat)
    requires Scalar(r) && r != COMMA as int
    ensures COMMA !in EncodeRune(r) && Valid(EncodeRune(r))
  {
    EncodedIsWellFormed(r);
    assert ValidFrom(EncodeRune(r), |EncodeRune(r)|);
  }

  lemma {:induction false} ParsedIsWellFormed(data: Bytes, i: nat, current: Bytes, t: Bytes)
    requires i <= |data| && COMMA !in current && Valid(current) && t in ParseFrom(data, i, current)
    ensures WellFormedId(t)
    decreases |data| - i
  {
    var ch, next := Rune(data, i), i + Step(data, i);
    if ch == COMMA as int {
      if t != current {
        ParsedIsWellFormed(data, next, [], t);
      } else if current == [] {
        ParsedIsWellFormed(data, next, [], t);
      }
    } else {
      RuneIsScalar(data, i);
      EncodedRuneClean(ch);
      ValidConcat(current, EncodeRune(ch), 0);
      ParsedIsWellFormed(data, next, current + EncodeRune(ch), t);
    }
  }

  // ---------- well-formed IDs come out unchanged ----------

  lemma {:induction false} ParseOne(id: Bytes, i: nat)
    requires id != [] && COMMA !in id && i <= |id| && ValidFrom(id, i)
    ensures ParseFrom(Item(id), i, id[..i]) == [id]
    decreases |id| - i
  {
    var data := Item(id);
    if i == |id| {
      assert data[i] == COMMA;
      assert ParseFrom(data, i + 1, []) == [];
      assert id[..i] == id;
    } else {
      WidthInPrefix(id, [COMMA], i);
      RuneIsScalar(id, i);
      EncodeDecode(id, i);
      assert id[i] in id;
      var next := i + Width(id, i);
      PrefixGrows(id, i, next);
      ParseOne(id, next);
    }
  }

  lemma PrefixGrows(s: Bytes, i: nat, j: nat)
    requires i <= j <= |s|
    ensures s[..i] + s[i..j] == s[..j]
  {
  }

  lemma TokensOfId(id: Bytes)
    ensures Tokens(id) == [id] <==> WellFormedId(id)
  {
    if WellFormedId(id) {
      ParseOne(id, 0);
    }
    if Tokens(id) == [id] {
      assert Valid([]);
      ParsedIsWellFormed(Item(id), 0, [], id);
    }
  }

  // ---------- what becomes of the others ----------

  lemma {:induction false} ParsePrefix(a: Bytes, rest: Bytes, i: nat, current: Bytes)
    requires COMMA !in a && i <= |a| && ValidFrom(a, i)
    ensures ParseFrom(a + rest, i, current) == ParseFrom(a + rest, |a|, current + a[i..])
    decreases |a| - i
  {
    hide Rune, Width, EncodeRune, ParseFrom;
    if i == |a| {
      NothingAdded(current);
      assert a[i..] == [];
    } else {
      var next := i + Width(a, i);
      WidthInPrefix(a, rest, i);
      RuneIsScalar(a, i);
      EncodeDecode(a, i);
      assert a[i] in a;
      ParseStep(a + rest, i, current);
      ParsePrefix(a, rest, next, current + EncodeRune(Rune(a, i)));
      SliceJoin(a, i, next, |a|);
      assert a[i..|a|] == a[i..] && a[next..|a|] == a[next..];
      Concat3(current, a[i..next], a[next..]);
    }
  }

  /** A comma in an ID splits it, and an empty part is dropped. */
  lemma TokensSplit(a: Bytes, b: Bytes)
    ensures Tokens(a + [COMMA] + b) == Tokens(a) + Tokens(b) && Tokens([]) == []
  {
    assert Item(a + [COMMA] + b) == Item(a) + Item(b);
    ParseConcat(Item(a), Item(b));
    assert ParseFrom([COMMA], 1, []) == [];
  }

  /** A byte that starts no well-formed sequence comes back as the three bytes of U+FFFD. */
  lemma BadByte(a: Bytes, x: byte, b: Bytes)
    requires COMMA !in a && Valid(a) && COMMA !in b && Valid(b)
    requires x != COMMA && Width([x] + Item(b), 0) == 0
    ensures Tokens(a + [x] + b) == [a + [0xEF, 0xBF, 0xBD] + b]
  {
    hide Width, ParseFrom, ValidFrom;
    var rest := [x] + Item(b);
    var current := a + [0xEF, 0xBF, 0xBD];
    assert Item(a + [x] + b) == a + rest;
    ParsePrefix(a, rest, 0, []);
    assert [] + a[0..] == a;
    ReadShift(a, rest, 0);
    ParseStep(a + rest, |a|, a);
    assert a + rest == (a + [x]) + Item(b);
    ParseShift(a + [x], Item(b), 0, current);
    ParsePrefix(b, [COMMA], 0, current);
    assert b[0..] == b;
    ParseComma(b, current + b);
  }

  lemma ParseComma(b: Bytes, current: Bytes)
    requires current != []
    ensures ParseFrom(Item(b), |b|, current) == [current]
  {
    var data := Item(b);
    assert data[|b|] == COMMA;
    NothingLeft(data, []);
  }

  // ---------- a whole list ----------

  function Joined(ids: seq<Bytes>): Bytes {
    if ids == [] then [] else Joined(ids[..|ids| - 1]) + Item(ids[|ids| - 1])
  }

  function AllTokens(ids: seq<Bytes>): seq<Bytes> {
    if ids == [] then [] else AllTokens(ids[..|ids| - 1]) + Tokens(ids[|ids| - 1])
  }

  lemma JoinedClosed(ids: seq<Bytes>)
    ensures Closed(Joined(ids))
  {
  }

  lemma {:induction false} ParseJoined(ids: seq<Bytes>)
    ensures ParseEdgeList(Joined(ids)) == AllTokens(ids)
  {
    if ids != [] {
      var init := ids[..|ids| - 1];
      ParseJoined(init);
      JoinedClosed(init);
      ParseConcat(Joined(init), Item(ids[|ids| - 1]));
    }
  }

  lemma {:induction false} TokensOfWellFormed(ids: seq<Bytes>)
    requires forall id :: id in ids ==> WellFormedId(id)
    ensures AllTokens(ids) == ids
  {
    if ids != [] {
      TokensOfWellFormed(ids[..|ids| - 1]);
      TokensOfId(ids[|ids| - 1]);
      assert ids[..|ids| - 1] + [ids[|ids| - 1]] == ids;
    }
  }

  /** Main result: parsing undoes appending exactly when every ID is non-empty, comma-free and
      well-formed UTF-8. */
  lemma ListRoundTrip(ids: seq<Bytes>)
    ensures ParseEdgeList(Joined(ids)) == ids <==> forall id :: id in ids ==> WellFormedId(id)
  {
    ParseJoined(ids);
    if forall id :: id in ids ==> WellFormedId(id) {
      TokensOfWellFormed(ids);
    }
    if ParseEdgeList(Joined(ids)) == ids {
      forall id | id in ids
        ensures WellFormedId(id)
      {
        ParsedIsWellFormed(Joined(ids), 0, [], id);
      }
    }
  }
}
