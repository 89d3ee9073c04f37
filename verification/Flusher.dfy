/** Flushing a memtable to an SSTable (pkg/persistence/flusher.go). The memtable enumerates its
    entries in no particular order, while the writer wants them sorted. */
module Flusher {
  import opened Bytes
  import M = Memtable
  import opened Sstable
  import opened SstableReads
  import opened SstableFile
  import opened SstableWriter

  type Entries = seq<(Bytes, Option<Bytes>)>

  /** A tombstone is added with a nil value. */
  function PairOf(e: (Bytes, Option<Bytes>)): Pair {
    Pair(e.0, if e.1.Some? then e.1.value else [])
  }

  function PairsOf(entries: Entries): (ps: seq<Pair>)
    ensures |ps| == |entries|
  {
    seq(|entries|, i requires 0 <= i < |entries| => PairOf(entries[i]))
  }

  /** Succeeds exactly when the enumeration it happens to get suits the writer. When an entry is
      refused, the deferred `Close` still finishes a file, of the entries before it. */
  method FlushMemtable(lib: Library, mt: M.Memtable, running: bool)
    returns (ok: bool, file: Option<Bytes>, ghost entries: Entries, ghost written: nat)
    ensures !running ==> !ok && file == None
    ensures running && mt.data == map[] ==> ok && file == None
    ensures Enumerates(entries, mt.data) && written <= |entries|
    ensures file.Some? ==> running && entries != []
    ensures Writable(PairsOf(entries)) ==>
              && (ok <==> running && Accepted(PairsOf(entries)))
              && (file.Some? <==> running && entries != [])
              && (file.Some? ==> file.value == FileBytes(lib, PairsOf(entries)[..written]))
              && (ok ==> written == |entries|)
              && (file.Some? && !ok ==> RefusedAt(PairsOf(entries), written))
  {
    hide FileBytes, Accepted, Writer.Laid, Pack, FilterOf, PairSize, PairsOf, Writable, Enumerates;
    var all := mt.Entries();
    entries, written := all, 0;
    if !running {
      return false, None, entries, written;
    }
    NothingListed(all, mt.data);
    if |all| == 0 {
      NothingToWrite();
      return true, None, entries, written;
    }
    var w, added := WriteTable(lib, PairsOf(all));
    written := if |w.pairs| <= |entries| then |w.pairs| else 0;
    FirstPairs(w.pairs, PairsOf(entries));
    return added == AddOk, if added == AddPanics then None else Some(w.out), entries, written;
  }

  lemma NothingListed(entries: Entries, data: map<Bytes, Option<Bytes>>)
    requires Enumerates(entries, data)
    ensures entries == [] <==> data == map[]
  {
    if entries != [] {
      assert entries[0].0 in data;
    }
  }

  /** The writer takes the first `n` pairs and refuses the next. */
  ghost predicate RefusedAt(ps: seq<Pair>, n: nat) {
    n < |ps| && Accepted(ps[..n]) && !Accepted(ps[..n + 1])
  }

  lemma FirstPairs(ps: seq<Pair>, all: seq<Pair>)
    ensures ps <= all ==> ps == all[..|ps|]
  {
  }

  lemma NothingToWrite()
    ensures Accepted(PairsOf([]))
  {
  }

  ghost predicate NoEmptyKey(data: map<Bytes, Option<Bytes>>) {
    [] !in data
  }

  /** For non-empty keys the writer takes exactly the strictly increasing enumerations. */
  lemma AcceptedIsIncreasing(data: map<Bytes, Option<Bytes>>, entries: Entries)
    requires Enumerates(entries, data) && NoEmptyKey(data)
    ensures Accepted(PairsOf(entries)) <==> Sorted(PairsOf(entries))
  {
    AcceptedIsSorted(PairsOf(entries));
    if |entries| >= 2 {
      assert entries[1].0 in data;
    }
  }

  /** What a reader should say about a key of the memtable. */
  function Expected(data: map<Bytes, Option<Bytes>>, key: Bytes): Answer {
    if key !in data then NotFound
    else if data[key].Some? && data[key].value != [] then Found(data[key].value)
    else Deleted
  }

  /** Flush agreement: after a successful flush the file answers for every key like the memtable, but
      that a key put with an empty value reads as deleted. */
  lemma FlushedReads(lib: Library, data: map<Bytes, Option<Bytes>>, entries: Entries, key: Bytes)
    requires Enumerates(entries, data) && NoEmptyKey(data) && Accepted(PairsOf(entries))
    requires GobRoundTrips(lib) && FileFits(lib, PairsOf(entries))
    ensures var file := FileBytes(lib, PairsOf(entries));
            var r := Open(lib, file);
            r.Ok? && Get(lib, file, r.value, key) == Expected(data, key)
  {
    hide FileBytes, Open, Get, FileFits, Accepted, Enumerates;
    var ps := PairsOf(entries);
    AcceptedIsIncreasing(data, entries);
    GetCorrect(lib, ps, key);
    ExpectedAnswers(data, entries, key);
    var file := FileBytes(lib, ps);
    AnswerIsUnique(ps, key, Get(lib, file, Open(lib, file).value, key), Expected(data, key));
  }

  lemma ExpectedAnswers(data: map<Bytes, Option<Bytes>>, entries: Entries, key: Bytes)
    requires Enumerates(entries, data)
    ensures Answers(PairsOf(entries), key, Expected(data, key))
  {
    var ps := PairsOf(entries);
    if key in data {
      var i :| 0 <= i < |entries| && entries[i].0 == key;
      assert ps[i] == PairOf((key, data[key]));
    } else {
      forall i | 0 <= i < |ps|
        ensures ps[i].key != key
      {
        assert entries[i].0 in data;
      }
    }
  }

  /** No memtable of two or more keys is safe to flush: some enumeration of it is refused. */
  lemma SomeOrderIsRefused(data: map<Bytes, Option<Bytes>>, entries: Entries) returns (refused: Entries)
    requires Enumerates(entries, data) && NoEmptyKey(data) && |entries| >= 2
    ensures Enumerates(refused, data) && !Accepted(PairsOf(refused))
  {
    hide Less;
    refused := entries;
    if Accepted(PairsOf(entries)) {
      refused := entries[0 := entries[1]][1 := entries[0]];
      forall k | k in data
        ensures exists i :: 0 <= i < |refused| && refused[i].0 == k
      {
        var i :| 0 <= i < |entries| && entries[i].0 == k;
        assert refused[if i == 0 then 1 else if i == 1 then 0 else i].0 == k;
      }
      FirstTwo(PairsOf(entries), PairsOf(refused), data, entries);
    }
  }

  lemma FirstTwo(ps: seq<Pair>, qs: seq<Pair>, data: map<Bytes, Option<Bytes>>, entries: Entries)
    requires Enumerates(entries, data) && NoEmptyKey(data) && |entries| >= 2 && ps == PairsOf(entries) && |qs| == |ps|
    requires Accepted(ps) && qs[0] == ps[1] && qs[1] == ps[0]
    ensures !Accepted(qs)
  {
    hide Less;
    assert entries[0].0 in data && entries[1].0 in data;
    assert Follows(ps[0].key, ps[1].key);
    LessAsymmetric(ps[0].key, ps[1].key);
    assert !Follows(qs[1 - 1].key, qs[1].key);
  }
}
