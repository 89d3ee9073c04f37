/** The k-way merge of SSTables (pkg/compaction/merger.go). Equal keys from different tables: one of
    them is delivered, and the tables of the others are not advanced, so the rest of those is lost. */
module Merger {
  import opened Bytes
  import opened Sstable
  import opened SstableReads
  import opened SstableWriter
  import opened MergeHeap

  type Inputs = seq<seq<Pair>>

  ghost predicate AllSorted(inputs: Inputs) {
    forall i :: 0 <= i < |inputs| ==> Sorted(inputs[i])
  }

  /** No key stands in two tables. */
  ghost predicate Disjoint(inputs: Inputs) {
    forall i, j, k, l :: 0 <= i < k < |inputs| && 0 <= j < |inputs[i]| && 0 <= l < |inputs[k]|
                    ==> inputs[i][j].key != inputs[k][l].key
  }

  function Total(inputs: Inputs): nat {
    if inputs == [] then 0 else Total(inputs[..|inputs| - 1]) + |inputs[|inputs| - 1]|
  }

  function Sum(s: seq<nat>): nat {
    if s == [] then 0 else Sum(s[..|s| - 1]) + s[|s| - 1]
  }

  ghost predicate InSome(inputs: Inputs, p: Pair) {
    exists i, j :: 0 <= i < |inputs| && 0 <= j < |inputs[i]| && inputs[i][j] == p
  }

  // ---------- the state of a merge ----------

  /** How much of each table has been delivered, the head in the heap of each table still taking
      part, and what came out so far with where it came from. */
  datatype Merge = Merge(delivered: seq<nat>, heads: map<nat, Pair>, output: seq<Pair>, sources: seq<(nat, nat)>)

  ghost predicate Within(inputs: Inputs, m: Merge) {
    && |m.delivered| == |inputs|
    && (forall i :: 0 <= i < |inputs| ==> m.delivered[i] <= |inputs[i]|)
    && (forall i :: i in m.heads ==>
          i < |inputs| && m.delivered[i] < |inputs[i]| && m.heads[i] == inputs[i][m.delivered[i]])
  }

  /** The output is exactly what has been delivered. */
  ghost predicate Traced(inputs: Inputs, m: Merge)
    requires Within(inputs, m)
  {
    && |m.output| == |m.sources| == Sum(m.delivered)
    && (forall n :: 0 <= n < |m.sources| ==>
         && m.sources[n].0 < |inputs| && m.sources[n].1 < m.delivered[m.sources[n].0]
         && m.output[n] == inputs[m.sources[n].0][m.sources[n].1])
    && (forall i, j :: 0 <= i < |inputs| && 0 <= j < m.delivered[i] ==> (i, j) in m.sources)
  }

  ghost predicate Ascending(m: Merge) {
    && Sorted(m.output)
    && (forall n, i :: 0 <= n < |m.output| && i in m.heads ==> Less(m.output[n].key, m.heads[i].key))
  }

  /** Table i was dropped: the key it stopped at has been delivered from another table. */
  ghost predicate Cut(inputs: Inputs, m: Merge, i: nat)
    requires Within(inputs, m) && i < |inputs| && m.delivered[i] < |inputs[i]|
  {
    exists k, l :: 0 <= k < |inputs| && 0 <= l < m.delivered[k] && k != i &&
           inputs[k][l].key == inputs[i][m.delivered[i]].key
  }

  /** A table out of the heap is exhausted or was dropped. */
  ghost predicate Settled(inputs: Inputs, m: Merge)
    requires Within(inputs, m)
  {
    forall i :: 0 <= i < |inputs| && i !in m.heads && m.delivered[i] < |inputs[i]| ==> Cut(inputs, m, i)
  }

  ghost predicate Merging(inputs: Inputs, m: Merge) {
    Within(inputs, m) && Traced(inputs, m) && Ascending(m) && Settled(inputs, m)
  }

  // ---------- one step ----------

  /** One `Next`: the head of table `e` goes out, the tables in `ties` leave the heap, and `e` is
      advanced. */
  function Stepped(inputs: Inputs, m: Merge, e: nat, ties: set<nat>): Merge
    requires Within(inputs, m) && e in m.heads
  {
    var n := m.delivered[e] + 1;
    var rest := m.heads - ({e} + ties);
    Merge(m.delivered[e := n], if n < |inputs[e]| then rest[e := inputs[e][n]] else rest,
          m.output + [m.heads[e]], m.sources + [(e, m.delivered[e])])
  }

  /** `ties` are the other tables whose head has the least key, which is that of `e`. */
  ghost predicate Picked(m: Merge, e: nat, ties: set<nat>) {
    LeastWithTies(m.heads, e, ties)
  }

  ghost predicate LeastWithTies(heads: map<nat, Pair>, e: nat, ties: set<nat>) {
    && e in heads && e !in ties
    && (forall i :: i in heads ==> Le(heads[e].key, heads[i].key))
    && (forall i :: i in ties <==> i in heads && i != e && heads[i].key == heads[e].key)
  }

  lemma StepWithin(inputs: Inputs, m: Merge, e: nat, ties: set<nat>)
    requires Within(inputs, m) && e in m.heads
    ensures Within(inputs, Stepped(inputs, m, e, ties))
  {
  }

  lemma {:induction false} SumUpdate(s: seq<nat>, i: nat, x: nat)
    requires i < |s|
    ensures Sum(s[i := x]) + s[i] == Sum(s) + x
  {
    var n := |s| - 1;
    if i < n {
      SumUpdate(s[..n], i, x);
      assert s[i := x][..n] == s[..n][i := x];
    } else {
      assert s[i := x][..n] == s[..n];
    }
  }

  lemma StepTraced(inputs: Inputs, m: Merge, e: nat, ties: set<nat>)
    requires Within(inputs, m) && Traced(inputs, m) && e in m.heads
    ensures Within(inputs, Stepped(inputs, m, e, ties)) && Traced(inputs, Stepped(inputs, m, e, ties))
  {
    StepWithin(inputs, m, e, ties);
    var s := Stepped(inputs, m, e, ties);
    SumUpdate(m.delivered, e, m.delivered[e] + 1);
    forall i, j | 0 <= i < |inputs| && 0 <= j < s.delivered[i]
      ensures (i, j) in s.sources
    {
      assert (i, j) in m.sources || (i, j) == (e, m.delivered[e]);
    }
  }

  /** Whatever stays in the heap, or follows in table `e`, is above the key that went out. */
  lemma StepAbove(inputs: Inputs, m: Merge, e: nat, ties: set<nat>, i: nat)
    requires AllSorted(inputs) && Within(inputs, m) && Picked(m, e, ties)
    requires i in Stepped(inputs, m, e, ties).heads
    ensures Less(m.heads[e].key, Stepped(inputs, m, e, ties).heads[i].key)
  {
    hide Less;
    if i == e {
      assert Sorted(inputs[e]);
    } else {
      LessTotal(m.heads[e].key, m.heads[i].key);
    }
  }

  lemma StepAscending(inputs: Inputs, m: Merge, e: nat, ties: set<nat>)
    requires AllSorted(inputs) && Within(inputs, m) && Ascending(m) && Picked(m, e, ties)
    ensures Ascending(Stepped(inputs, m, e, ties))
  {
    hide Less, Le;
    var s := Stepped(inputs, m, e, ties);
    assert forall n :: 0 <= n < |m.output| ==> s.output[n] == m.output[n];
    forall n, i | 0 <= n < |s.output| && i in s.heads
      ensures Less(s.output[n].key, s.heads[i].key)
    {
      StepAbove(inputs, m, e, ties, i);
      if n < |m.output| {
        LessTransitive(m.output[n].key, m.heads[e].key, s.heads[i].key);
      }
    }
  }

  lemma StepSettled(inputs: Inputs, m: Merge, e: nat, ties: set<nat>)
    requires Within(inputs, m) && Settled(inputs, m) && Picked(m, e, ties)
    ensures Within(inputs, Stepped(inputs, m, e, ties)) && Settled(inputs, Stepped(inputs, m, e, ties))
  {
    hide Less, Le;
    StepWithin(inputs, m, e, ties);
    var s := Stepped(inputs, m, e, ties);
    forall i | 0 <= i < |inputs| && i !in s.heads && s.delivered[i] < |inputs[i]|
      ensures Cut(inputs, s, i)
    {
      assert i != e;
      if i in ties {
        assert inputs[e][m.delivered[e]].key == inputs[i][s.delivered[i]].key;
      } else {
        assert i !in m.heads;
        assert Cut(inputs, m, i);
        var k, l :| 0 <= k < |inputs| && 0 <= l < m.delivered[k] && k != i &&
                    inputs[k][l].key == inputs[i][m.delivered[i]].key;
        assert l < s.delivered[k];
      }
    }
  }

  lemma StepMerges(inputs: Inputs, m: Merge, e: nat, ties: set<nat>)
    requires AllSorted(inputs) && Merging(inputs, m) && Picked(m, e, ties)
    ensures Merging(inputs, Stepped(inputs, m, e, ties))
  {
    hide Within, Traced, Ascending, Settled, Stepped, Picked;
    assert e in m.heads by { PickedIsHead(m, e, ties); }
    StepTraced(inputs, m, e, ties);
    StepAscending(inputs, m, e, ties);
    StepSettled(inputs, m, e, ties);
  }

  lemma PickedIsHead(m: Merge, e: nat, ties: set<nat>)
    requires Picked(m, e, ties)
    ensures e in m.heads
  {
  }

  // ---------- the whole merge ----------

  lemma {:induction false} TotalIsSum(inputs: Inputs, s: seq<nat>)
    requires |s| == |inputs| && forall i :: 0 <= i < |s| ==> s[i] <= |inputs[i]|
    ensures Sum(s) <= Total(inputs)
    ensures Sum(s) == Total(inputs) <==> forall i :: 0 <= i < |s| ==> s[i] == |inputs[i]|
  {
    if s != [] {
      var n := |s| - 1;
      TotalIsSum(inputs[..n], s[..n]);
      if Sum(s) == Total(inputs) {
        assert Sum(s[..n]) == Total(inputs[..n]);
        forall i | 0 <= i < |s|
          ensures s[i] == |inputs[i]|
        {
          if i < n {
            assert s[..n][i] == |inputs[..n][i]|;
          }
        }
      }
    }
  }

  /** `p` is one of the first `cuts[i]` pairs of some table `i`. */
  ghost predicate InPrefix(inputs: Inputs, cuts: seq<nat>, p: Pair) {
    exists i, j :: 0 <= i < |inputs| && i < |cuts| && 0 <= j < |inputs[i]| && j < cuts[i] && inputs[i][j] == p
  }

  /** Another table delivered the key that table `i` was cut off at. */
  ghost predicate TiedAt(inputs: Inputs, cuts: seq<nat>, i: nat)
    requires i < |inputs| == |cuts| && cuts[i] < |inputs[i]|
  {
    exists k, l :: 0 <= k < |inputs| && k != i && 0 <= l < |inputs[k]| && l < cuts[k]
                && inputs[k][l].key == inputs[i][cuts[i]].key
  }

  /** What came out are the first `cuts[i]` pairs of each table `i`, and a table is cut off only at a key
      that another one delivered. */
  ghost predicate CutAt(inputs: Inputs, out: seq<Pair>, cuts: seq<nat>) {
    && |cuts| == |inputs| && |out| == Sum(cuts)
    && (forall i :: 0 <= i < |inputs| ==> cuts[i] <= |inputs[i]|)
    && (forall p :: p in out <==> InPrefix(inputs, cuts, p))
    && (forall i :: 0 <= i < |inputs| && cuts[i] < |inputs[i]| ==> TiedAt(inputs, cuts, i))
  }

  /** Once the heap is empty: strictly increasing keys, exactly a prefix of each table that ends at a
      tie, and all pairs exactly when no key stands in two tables. */
  ghost predicate MergedFrom(inputs: Inputs, out: seq<Pair>) {
    && Sorted(out)
    && (exists cuts :: CutAt(inputs, out, cuts))
    && (forall n :: 0 <= n < |out| ==> InSome(inputs, out[n]))
    && |out| <= Total(inputs)
    && (|out| == Total(inputs) <==> Disjoint(inputs))
    && (Disjoint(inputs) ==> forall i, j :: 0 <= i < |inputs| && 0 <= j < |inputs[i]| ==> inputs[i][j] in out)
  }

  lemma MergeEnds(inputs: Inputs, m: Merge)
    requires AllSorted(inputs) && Merging(inputs, m) && m.heads == map[]
    ensures MergedFrom(inputs, m.output)
  {
    TotalIsSum(inputs, m.delivered);
    assert CutAt(inputs, m.output, m.delivered) by { DeliveredIsCut(inputs, m); }
    if Disjoint(inputs) {
      EverythingDelivered(inputs, m);
    }
    if |m.output| == Total(inputs) {
      forall i, j, k, l | 0 <= i < k < |inputs| && 0 <= j < |inputs[i]| && 0 <= l < |inputs[k]|
        ensures inputs[i][j].key != inputs[k][l].key
      {
        OneSourceEach(inputs, m, i, j, k, l);
      }
    }
    forall n | 0 <= n < |m.output|
      ensures InSome(inputs, m.output[n])
    {
      assert inputs[m.sources[n].0][m.sources[n].1] == m.output[n];
    }
  }

  lemma DeliveredIsCut(inputs: Inputs, m: Merge)
    requires Merging(inputs, m) && m.heads == map[]
    ensures CutAt(inputs, m.output, m.delivered)
  {
    hide Ascending;
    forall p
      ensures p in m.output <==> InPrefix(inputs, m.delivered, p)
    {
      if p in m.output {
        var i, j := OutputFrom(inputs, m, p);
      }
      if InPrefix(inputs, m.delivered, p) {
        var i, j :| 0 <= i < |inputs| && 0 <= j < m.delivered[i] && inputs[i][j] == p;
        DeliveredIsOutput(inputs, m, i, j);
      }
    }
    forall i | 0 <= i < |inputs| && m.delivered[i] < |inputs[i]|
      ensures TiedAt(inputs, m.delivered, i)
    {
      assert Cut(inputs, m, i);
    }
  }

  lemma EverythingDelivered(inputs: Inputs, m: Merge)
    requires Merging(inputs, m) && m.heads == map[] && Disjoint(inputs)
    ensures forall i :: 0 <= i < |inputs| ==> m.delivered[i] == |inputs[i]|
    ensures forall i, j :: 0 <= i < |inputs| && 0 <= j < |inputs[i]| ==> inputs[i][j] in m.output
  {
    forall i | 0 <= i < |inputs|
      ensures m.delivered[i] == |inputs[i]|
    {
      if m.delivered[i] < |inputs[i]| {
        NotCut(inputs, m, i);
      }
    }
    forall i, j | 0 <= i < |inputs| && 0 <= j < |inputs[i]|
      ensures inputs[i][j] in m.output
    {
      DeliveredIsOutput(inputs, m, i, j);
    }
  }

  lemma DeliveredIsOutput(inputs: Inputs, m: Merge, i: nat, j: nat)
    requires Within(inputs, m) && Traced(inputs, m) && i < |inputs| && j < m.delivered[i]
    ensures inputs[i][j] in m.output
  {
    assert (i, j) in m.sources;
    var n :| 0 <= n < |m.sources| && m.sources[n] == (i, j);
    assert m.output[n] == inputs[i][j];
  }

  lemma NotCut(inputs: Inputs, m: Merge, i: nat)
    requires Within(inputs, m) && Disjoint(inputs) && i < |inputs| && m.delivered[i] < |inputs[i]|
    ensures !Cut(inputs, m, i)
  {
    forall k, l | 0 <= k < |inputs| && 0 <= l < m.delivered[k] && k != i
      ensures inputs[k][l].key != inputs[i][m.delivered[i]].key
    {
      assert l < |inputs[k]|;
      assert i < k || k < i;
    }
  }

  /** Two delivered entries of different tables have different keys, for the output is strictly
      increasing. */
  lemma OneSourceEach(inputs: Inputs, m: Merge, i: nat, j: nat, k: nat, l: nat)
    requires Merging(inputs, m) && i < k < |inputs| && j < m.delivered[i] && l < m.delivered[k]
    ensures inputs[i][j].key != inputs[k][l].key
  {
    hide Less;
    assert (i, j) in m.sources && (k, l) in m.sources;
    var a :| 0 <= a < |m.sources| && m.sources[a] == (i, j);
    var b :| 0 <= b < |m.sources| && m.sources[b] == (k, l);
    assert m.output[a] == inputs[i][j] && m.output[b] == inputs[k][l];
    LessIrreflexive(inputs[i][j].key);
    assert a < b || b < a;
  }

  /** What is lost: a pair that did not come out stands in its table at or after a key that another
      table has too and that did come out from there. */
  lemma LostAfterTie(inputs: Inputs, out: seq<Pair>, i: nat, j: nat)
    requires MergedFrom(inputs, out) && i < |inputs| && j < |inputs[i]| && inputs[i][j] !in out
    ensures exists t, k, l :: && 0 <= t <= j && 0 <= k < |inputs| && k != i && 0 <= l < |inputs[k]|
                              && inputs[k][l].key == inputs[i][t].key && inputs[k][l] in out
  {
    hide Disjoint, Total, InSome, Sorted;
    var cuts :| CutAt(inputs, out, cuts);
    var t := cuts[i];
    assert j < t ==> InPrefix(inputs, cuts, inputs[i][j]);
    assert TiedAt(inputs, cuts, i);
    var k, l :| 0 <= k < |inputs| && k != i && 0 <= l < |inputs[k]| && l < cuts[k]
             && inputs[k][l].key == inputs[i][t].key;
    assert InPrefix(inputs, cuts, inputs[k][l]);
  }

  /** A tie can lose keys no other table has: of {1, 3} and {1, 2}, a merge never delivers both 2
      and 3, whichever way the tie on 1 falls. */
  lemma TieLosesKey(m: Merge, x: seq<Pair>, y: seq<Pair>, b: Bytes, d: Bytes)
    requires |x| == |y| == 2 && x[0].key == [1] == y[0].key && x[1] == Pair([3], b) && y[1] == Pair([2], d)
    requires Merging([x, y], m) && m.heads == map[]
    ensures x[1] !in m.output || y[1] !in m.output
  {
    hide Less, Settled, Ascending;
    var inputs := [x, y];
    if x[1] in m.output && y[1] in m.output {
      var i, j := OutputFrom(inputs, m, x[1]);
      var k, l := OutputFrom(inputs, m, y[1]);
      assert m.delivered[0] == 2;
      assert m.delivered[1] == 2;
      OneSourceEach(inputs, m, 0, 0, 1, 0);
    }
  }

  lemma OutputFrom(inputs: Inputs, m: Merge, p: Pair) returns (i: nat, j: nat)
    requires Within(inputs, m) && Traced(inputs, m) && p in m.output
    ensures i < |inputs| && j < m.delivered[i] && inputs[i][j] == p
  {
    var n :| 0 <= n < |m.output| && m.output[n] == p;
    i, j := m.sources[n].0, m.sources[n].1;
  }

  // ---------- which tables come out whole ----------

  /** One `Next`. */
  ghost predicate StepOf(inputs: Inputs, m: Merge, m': Merge) {
    Within(inputs, m) && exists e, ties :: Picked(m, e, ties) && m' == Stepped(inputs, m, e, ties)
  }

  /** `ms` are the states of a merge from `m` until its heap is empty. */
  ghost predicate RunsOut(inputs: Inputs, m: Merge, ms: seq<Merge>) {
    && ms != [] && ms[0] == m && ms[|ms| - 1].heads == map[]
    && forall k :: 0 <= k < |ms| - 1 ==> StepOf(inputs, ms[k], ms[k + 1])
  }

  /** A state some merge of the inputs ends in, ties being broken in any way. */
  ghost predicate Outcome(inputs: Inputs, m: Merge) {
    exists start, ms :: StartedUpTo(inputs, start, |inputs|) && RunsOut(inputs, start, ms) && ms[|ms| - 1] == m
  }

  lemma {:induction false} RunMerges(inputs: Inputs, m: Merge, ms: seq<Merge>, k: nat)
    requires AllSorted(inputs) && Merging(inputs, m) && RunsOut(inputs, m, ms) && k < |ms|
    ensures Merging(inputs, ms[k])
  {
    hide Merging, Stepped, Within, AllSorted, Le;
    if k > 0 {
      RunMerges(inputs, m, ms, k - 1);
      assert StepOf(inputs, ms[k - 1], ms[k]);
      var e, ties :| Picked(ms[k - 1], e, ties) && ms[k] == Stepped(inputs, ms[k - 1], e, ties);
      StepMerges(inputs, ms[k - 1], e, ties);
    }
  }

  lemma OutcomeMerges(inputs: Inputs, m: Merge)
    requires AllSorted(inputs) && Outcome(inputs, m)
    ensures Merging(inputs, m) && m.heads == map[]
  {
    hide Merging, StartedUpTo;
    var start, ms :| StartedUpTo(inputs, start, |inputs|) && RunsOut(inputs, start, ms) && ms[|ms| - 1] == m;
    StartMerges(inputs, start);
    RunMerges(inputs, start, ms, |ms| - 1);
  }

  ghost predicate Whole(inputs: Inputs, m: Merge, i: nat) {
    i < |m.delivered| && i < |inputs| && m.delivered[i] == |inputs[i]|
  }

  /** None of the table's keys stands in another table. */
  ghost predicate Unshared(inputs: Inputs, i: nat)
    requires i < |inputs|
  {
    forall k, j, l :: 0 <= k < |inputs| && k != i && 0 <= j < |inputs[i]| && 0 <= l < |inputs[k]| ==>
      inputs[k][l].key != inputs[i][j].key
  }

  /** Main result for a single table: it comes out whole when none of its keys stands in another table. */
  lemma UnsharedIsWhole(inputs: Inputs, m: Merge, i: nat)
    requires AllSorted(inputs) && Outcome(inputs, m) && i < |inputs| && Unshared(inputs, i)
    ensures Whole(inputs, m, i)
  {
    hide Traced, Ascending, Outcome;
    OutcomeMerges(inputs, m);
    if m.delivered[i] < |inputs[i]| {
      UnsharedIsNotCut(inputs, m, i);
    }
  }

  /** And of two tables that share a key, one always loses pairs. */
  lemma NotBothWhole(inputs: Inputs, m: Merge, i: nat, j: nat, k: nat, l: nat)
    requires AllSorted(inputs) && Outcome(inputs, m)
    requires i < |inputs| && k < |inputs| && i != k && j < |inputs[i]| && l < |inputs[k]|
    requires inputs[k][l].key == inputs[i][j].key
    ensures !(Whole(inputs, m, i) && Whole(inputs, m, k))
  {
    hide Merging, Outcome;
    OutcomeMerges(inputs, m);
    if Whole(inputs, m, i) && Whole(inputs, m, k) {
      if i < k {
        OneSourceEach(inputs, m, i, j, k, l);
      } else {
        OneSourceEach(inputs, m, k, l, i, j);
      }
    }
  }

  /** A statement over all tie-breaks, of which container/heap makes one: that a table comes out whole
      follows from the order of keys alone exactly when none of its keys stands in another table. */
  lemma WholeExactly(inputs: Inputs, i: nat)
    requires AllSorted(inputs) && i < |inputs|
    ensures (forall m :: Outcome(inputs, m) ==> Whole(inputs, m, i)) <==> Unshared(inputs, i)
  {
    hide Outcome;
    if Unshared(inputs, i) {
      forall m | Outcome(inputs, m)
        ensures Whole(inputs, m, i)
      {
        UnsharedIsWhole(inputs, m, i);
      }
    } else {
      var k, j, l :| 0 <= k < |inputs| && k != i && 0 <= j < |inputs[i]| && 0 <= l < |inputs[k]|
                  && inputs[k][l].key == inputs[i][j].key;
      var m := Favored(inputs, k);
      NotBothWhole(inputs, m, i, j, k, l);
    }
  }

  lemma UnsharedIsNotCut(inputs: Inputs, m: Merge, i: nat)
    requires Within(inputs, m) && i < |inputs| && Unshared(inputs, i) && m.delivered[i] < |inputs[i]|
    ensures !Cut(inputs, m, i)
  {
    forall k, l | 0 <= k < |inputs| && 0 <= l < m.delivered[k] && k != i
      ensures inputs[k][l].key != inputs[i][m.delivered[i]].key
    {
      assert l < |inputs[k]|;
    }
  }

  /** Among the ways to break ties there is one that lets table `k` win them all. */
  lemma Favored(inputs: Inputs, k: nat) returns (m: Merge)
    requires AllSorted(inputs) && k < |inputs|
    ensures Outcome(inputs, m) && Whole(inputs, m, k)
  {
    hide Merging, RunsOut;
    var heads := map i: nat | i < |inputs| && inputs[i] != [] :: inputs[i][0];
    var start := Unstarted(inputs).(heads := heads);
    StartMerges(inputs, start);
    var ms := FavoredFrom(inputs, start, k);
    m := ms[|ms| - 1];
  }

  lemma {:induction false} FavoredFrom(inputs: Inputs, m: Merge, k: nat) returns (ms: seq<Merge>)
    requires AllSorted(inputs) && Merging(inputs, m) && k < |inputs| && (k in m.heads || Whole(inputs, m, k))
    ensures RunsOut(inputs, m, ms) && ms != [] && Whole(inputs, ms[|ms| - 1], k)
    decreases Total(inputs) - |m.output|
  {
    hide Traced, Ascending, Settled, AllSorted, Stepped, LeastWithTies;
    if m.heads == map[] {
      ms := [m];
    } else {
      var least := LeastHead(m.heads);
      var e := if k in m.heads && m.heads[k].key == m.heads[least].key then k else least;
      var ties := set i | i in m.heads && i != e && m.heads[i].key == m.heads[e].key;
      assert Picked(m, e, ties) by { PickedLeast(m.heads, least, e, ties); }
      var next := Stepped(inputs, m, e, ties);
      StepMerges(inputs, m, e, ties);
      FavoredStays(inputs, m, e, ties, k);
      OutputGrows(inputs, m, e, ties);
      var rest := FavoredFrom(inputs, next, k);
      ms := [m] + rest;
      assert StepOf(inputs, m, next);
      ConsRun(inputs, m, next, rest);
    }
  }

  lemma ConsRun(inputs: Inputs, m: Merge, next: Merge, rest: seq<Merge>)
    requires StepOf(inputs, m, next) && RunsOut(inputs, next, rest)
    ensures RunsOut(inputs, m, [m] + rest)
  {
    hide StepOf;
    var ms := [m] + rest;
    forall k | 0 <= k < |ms| - 1
      ensures StepOf(inputs, ms[k], ms[k + 1])
    {
      if k > 0 {
        assert ms[k] == rest[k - 1] && ms[k + 1] == rest[k];
      }
    }
  }

  lemma PickedLeast(heads: map<nat, Pair>, least: nat, e: nat, ties: set<nat>)
    requires least in heads && e in heads && heads[e].key == heads[least].key
    requires forall i :: i in heads ==> Le(heads[least].key, heads[i].key)
    requires ties == set i | i in heads && i != e && heads[i].key == heads[e].key
    ensures LeastWithTies(heads, e, ties)
  {
  }

  lemma FavoredStays(inputs: Inputs, m: Merge, e: nat, ties: set<nat>, k: nat)
    requires Within(inputs, m) && Picked(m, e, ties) && k < |inputs| && (k in m.heads || Whole(inputs, m, k))
    requires k in m.heads && m.heads[k].key == m.heads[e].key ==> e == k
    ensures var next := Stepped(inputs, m, e, ties); k in next.heads || Whole(inputs, next, k)
  {
  }

  lemma OutputGrows(inputs: Inputs, m: Merge, e: nat, ties: set<nat>)
    requires Merging(inputs, m) && Picked(m, e, ties)
    ensures |Stepped(inputs, m, e, ties).output| == |m.output| + 1 &&
            |Stepped(inputs, m, e, ties).output| <= Total(inputs)
  {
    hide Ascending, Settled, Le;
    StepTraced(inputs, m, e, ties);
    TotalIsSum(inputs, Stepped(inputs, m, e, ties).delivered);
  }

  lemma {:induction false} LeastHead(heads: map<nat, Pair>) returns (e: nat)
    requires heads != map[]
    ensures e in heads && forall i :: i in heads ==> Le(heads[e].key, heads[i].key)
    decreases |heads|
  {
    hide Less;
    e :| e in heads;
    LessIrreflexive(heads[e].key);
    var others := heads - {e};
    assert forall i :: i in heads ==> i == e || i in others;
    if others != map[] {
      var f := LeastHead(others);
      LessTotal(heads[e].key, heads[f].key);
      if Less(heads[f].key, heads[e].key) {
        LessLe(heads[f].key, heads[e].key);
        e := f;
      } else {
        forall i | i in others
          ensures Le(heads[e].key, heads[i].key)
        {
          LeTransitive(heads[e].key, heads[f].key, heads[i].key);
        }
      }
    }
  }

  /** A sorted list is settled by its pairs. */
  lemma {:induction false} SortedUnique(a: seq<Pair>, b: seq<Pair>)
    requires Sorted(a) && Sorted(b) && forall p :: p in a <==> p in b
    ensures a == b
  {
    hide Less;
    assert a != [] ==> a[0] in b;
    assert b != [] ==> b[0] in a;
    if a != [] && b != [] {
      var x, y := a[|a| - 1], b[|b| - 1];
      LastIsLargest(a, y);
      LastIsLargest(b, x);
      if Less(x.key, y.key) {
        LessAsymmetric(x.key, y.key);
      }
      var c, d := a[..|a| - 1], b[..|b| - 1];
      forall p
        ensures p in c <==> p in d
      {
        InInit(a, p);
        InInit(b, p);
      }
      SortedUnique(c, d);
      assert a == c + [x] && b == d + [y];
    }
  }

  lemma LastIsLargest(a: seq<Pair>, p: Pair)
    requires Sorted(a) && p in a
    ensures p == a[|a| - 1] || Less(p.key, a[|a| - 1].key)
  {
  }

  lemma InInit(a: seq<Pair>, p: Pair)
    requires Sorted(a) && a != []
    ensures p in a[..|a| - 1] <==> p in a && p != a[|a| - 1]
  {
    hide Less;
    LessIrreflexive(p.key);
    if p in a && p != a[|a| - 1] {
      var n :| 0 <= n < |a| && a[n] == p;
      assert a[..|a| - 1][n] == p;
    }
  }

  // ---------- who wins a tie ----------

  /** The entries with that key leave the heap. */
  function DropTies(h: seq<HeapEntry>, key: Bytes): (r: seq<HeapEntry>)
    ensures |r| <= |h|
    decreases |h|
  {
    if h != [] && h[0].key == key then DropTies(Popped(h), key) else h
  }

  /** The heap when the next entry of a table, if there is one, has joined it. */
  function Joined(inputs: Inputs, h: seq<HeapEntry>, i: nat, next: nat): seq<HeapEntry>
    requires i < |inputs|
  {
    if next < |inputs[i]| then Pushed(h, HeapEntry(inputs[i][next].key, inputs[i][next].value, i)) else h
  }

  /** The heap after one `Next`: the root goes out, its ties with it, and its table's next entry comes in. */
  function HeapAfter(inputs: Inputs, delivered: seq<nat>, h: seq<HeapEntry>): seq<HeapEntry>
    requires |delivered| == |inputs| && h != [] && h[0].idx < |inputs|
  {
    Joined(inputs, DropTies(Popped(h), h[0].key), h[0].idx, delivered[h[0].idx] + 1)
  }

  /** The heap a merge starts with: the first entries of the tables, pushed in the order of the tables. */
  function StartHeap(inputs: Inputs, n: nat): seq<HeapEntry>
    requires n <= |inputs|
  {
    if n == 0 then [] else Joined(inputs, StartHeap(inputs, n - 1), n - 1, 0)
  }

  lemma StartHeapNone(inputs: Inputs)
    ensures StartHeap(inputs, 0) == []
  {
  }

  lemma StartHeapStep(inputs: Inputs, i: nat)
    requires i < |inputs|
    ensures StartHeap(inputs, i + 1) == Joined(inputs, StartHeap(inputs, i), i, 0)
  {
  }

  /** The table that is delivered first: of those with the least first key the one with the lowest index. The
      comment in the source promises the one with the highest. */
  lemma {:induction false} FirstTableWins(inputs: Inputs, n: nat)
    requires n <= |inputs|
    ensures HeapOrdered(StartHeap(inputs, n))
    ensures StartHeap(inputs, n) == [] <==> forall i :: 0 <= i < n ==> inputs[i] == []
    ensures StartHeap(inputs, n) != [] ==>
              var e := StartHeap(inputs, n)[0];
              && e.idx < n && inputs[e.idx] != [] && inputs[e.idx][0] == e.Head()
              && (forall i :: 0 <= i < e.idx && inputs[i] != [] ==> Less(e.key, inputs[i][0].key))
              && (forall i :: e.idx < i < n && inputs[i] != [] ==> Le(e.key, inputs[i][0].key))
  {
    hide Less, Le, HeapOrdered, Pushed;
    if n == 0 {
      NothingOrdered();
    } else {
      var i, h := n - 1, StartHeap(inputs, n - 1);
      FirstTableWins(inputs, i);
      if inputs[i] != [] {
        var x := HeapEntry(inputs[i][0].key, inputs[i][0].value, i);
        PushedOrdered(h, x);
        PushedRoot(h, x);
        if h != [] {
          NewRoot(h[0].key, x.key, inputs, i);
        }
      }
    }
  }

  lemma NewRoot(top: Bytes, key: Bytes, inputs: Inputs, n: nat)
    requires n <= |inputs|
    ensures !Less(key, top) ==> Le(top, key)
    ensures Less(key, top) ==> forall i :: 0 <= i < n && inputs[i] != [] && Le(top, inputs[i][0].key) ==>
                                 Less(key, inputs[i][0].key)
    ensures Less(key, top) ==> forall i :: 0 <= i < n && inputs[i] != [] && Less(top, inputs[i][0].key) ==>
                                 Less(key, inputs[i][0].key)
  {
    hide Less;
    forall i | 0 <= i < n && inputs[i] != []
      ensures Less(key, top) && Le(top, inputs[i][0].key) ==> Less(key, inputs[i][0].key)
      ensures Less(key, top) && Less(top, inputs[i][0].key) ==> Less(key, inputs[i][0].key)
    {
      if Le(top, inputs[i][0].key) {
        BelowLess(key, top, inputs[i][0].key);
      }
      if Less(key, top) && Less(top, inputs[i][0].key) {
        LessTransitive(key, top, inputs[i][0].key);
      }
    }
  }

  lemma NothingOrdered()
    ensures HeapOrdered([])
  {
  }

  /** Of two tables the one that has waited wins: the entry that comes in goes out next only when it is
      smaller. A tie drops the table that has waited less. */
  lemma TwoTables(inputs: Inputs, delivered: seq<nat>, a: HeapEntry, b: HeapEntry)
    requires |delivered| == |inputs| && a.idx < |inputs|
    ensures var h, i := HeapAfter(inputs, delivered, [a, b]), delivered[a.idx] + 1;
            var left := if a.key == b.key then [] else [b];
            if i >= |inputs[a.idx]| then h == left
            else
              var x := HeapEntry(inputs[a.idx][i].key, inputs[a.idx][i].value, a.idx);
              h == if left == [] then [x] else if Less(x.key, b.key) then [x, b] else [b, x]
  {
    hide Less, Pushed, Popped;
    PoppedTwo(a, b);
    var i := delivered[a.idx] + 1;
    if i < |inputs[a.idx]| {
      PushedTwo(b, HeapEntry(inputs[a.idx][i].key, inputs[a.idx][i].value, a.idx));
    }
  }

  lemma PoppedTwo(a: HeapEntry, b: HeapEntry)
    ensures Popped([a, b]) == [b] && Popped([b]) == []
  {
  }

  lemma PushedTwo(b: HeapEntry, x: HeapEntry)
    ensures Pushed([], x) == [x] && Pushed([b], x) == if Less(x.key, b.key) then [x, b] else [b, x]
  {
    hide Less;
    assert [] + [x] == [x] && [b] + [x] == [b, x];
    assert Parent(1) == 0 && Swapped([b, x], 0, 1) == [x, b];
  }

  /** The heaps of a merge that has delivered `out`, one before each delivery and one after the last, with how
      much of each table had been delivered then. */
  ghost predicate Heaps(inputs: Inputs, out: seq<Pair>, hs: seq<seq<HeapEntry>>, ds: seq<seq<nat>>) {
    && |hs| == |ds| == |out| + 1 && hs[0] == StartHeap(inputs, |inputs|) && ds[0] == Unstarted(inputs).delivered
    && forall k :: 0 <= k < |out| ==> HeapStep(inputs, out[k], hs[k], ds[k], hs[k + 1], ds[k + 1])
  }

  ghost predicate HeapStep(inputs: Inputs, p: Pair, h: seq<HeapEntry>, d: seq<nat>, h': seq<HeapEntry>, d': seq<nat>) {
    && |d| == |inputs| && h != [] && h[0].idx < |inputs| && p == h[0].Head()
    && h' == HeapAfter(inputs, d, h) && d' == d[h[0].idx := d[h[0].idx] + 1]
  }

  /** `out` is what merging the tables in this order delivers, ties included. */
  ghost predicate Delivers(inputs: Inputs, out: seq<Pair>) {
    exists hs, ds :: Heaps(inputs, out, hs, ds) && hs[|out|] == []
  }

  /** The tables and their order settle what a merge delivers. */
  lemma DeliversOne(inputs: Inputs, a: seq<Pair>, b: seq<Pair>)
    requires Delivers(inputs, a) && Delivers(inputs, b)
    ensures a == b
  {
    hide HeapStep;
    var hs, ds :| Heaps(inputs, a, hs, ds) && hs[|a|] == [];
    var gs, es :| Heaps(inputs, b, gs, es) && gs[|b|] == [];
    var n := if |a| <= |b| then |a| else |b|;
    SameHeaps(inputs, a, hs, ds, b, gs, es, n);
    if |a| < |b| {
      StepsOn(inputs, b, gs, es, n);
    } else if |b| < |a| {
      StepsOn(inputs, a, hs, ds, n);
    }
  }

  lemma StepsOn(inputs: Inputs, out: seq<Pair>, hs: seq<seq<HeapEntry>>, ds: seq<seq<nat>>, k: nat)
    requires Heaps(inputs, out, hs, ds) && k < |out|
    ensures hs[k] != []
  {
    assert HeapStep(inputs, out[k], hs[k], ds[k], hs[k + 1], ds[k + 1]);
  }

  lemma {:induction false} SameHeaps(inputs: Inputs, a: seq<Pair>, hs: seq<seq<HeapEntry>>, ds: seq<seq<nat>>,
                                     b: seq<Pair>, gs: seq<seq<HeapEntry>>, es: seq<seq<nat>>, n: nat)
    requires Heaps(inputs, a, hs, ds) && Heaps(inputs, b, gs, es) && n <= |a| && n <= |b|
    ensures hs[n] == gs[n] && ds[n] == es[n] && a[..n] == b[..n]
  {
    hide HeapAfter;
    if n > 0 {
      SameHeaps(inputs, a, hs, ds, b, gs, es, n - 1);
      assert HeapStep(inputs, a[n - 1], hs[n - 1], ds[n - 1], hs[n - 1 + 1], ds[n - 1 + 1]);
      assert HeapStep(inputs, b[n - 1], gs[n - 1], es[n - 1], gs[n - 1 + 1], es[n - 1 + 1]);
      SliceSnoc(a, n - 1);
      SliceSnoc(b, n - 1);
    }
  }

  lemma HeapsMore(inputs: Inputs, out: seq<Pair>, hs: seq<seq<HeapEntry>>, ds: seq<seq<nat>>, p: Pair,
                  h: seq<HeapEntry>, d: seq<nat>)
    requires Heaps(inputs, out, hs, ds) && HeapStep(inputs, p, hs[|out|], ds[|out|], h, d)
    ensures Heaps(inputs, out + [p], hs + [h], ds + [d])
  {
    hide HeapStep;
  }

  // ---------- the objects ----------

  /** A table's live pairs, as `Scan` delivers them; none if the scan fails. */
  function LivePairs(lib: Library, file: Bytes): Option<seq<Pair>> {
    match Open(lib, file)
    case Ok(o) => (match Scan(lib, file, o.index, |o.index|) case Ok(ps) => Some(ps) case _ => None)
    case _ => None
  }

  /** What a merge gets from a table's file: nothing when it is missing. */
  function FoundIn(lib: Library, file: Option<Bytes>): Option<seq<Pair>> {
    if file.Some? then LivePairs(lib, file.value) else None
  }

  function FoundsIn(lib: Library, files: seq<Option<Bytes>>): (r: seq<Option<seq<Pair>>>)
    ensures |r| == |files|
  {
    seq(|files|, i requires 0 <= i < |files| => FoundIn(lib, files[i]))
  }

  /** Opens a table and scans it. */
  method ScanTable(lib: Library, file: Option<Bytes>) returns (found: Option<seq<Pair>>)
    ensures found == FoundIn(lib, file)
  {
    hide Open, Scan;
    if file.None? {
      return None;
    }
    var reader := new Reader(lib, file.value);
    var loaded := reader.Load();
    if !loaded.Ok? {
      return None;
    }
    var scanned := reader.ScanPairs();
    return if scanned.value.Ok? then Some(scanned.value.value) else None;
  }

  class Scanner {
    const idx: nat
    const lib: Library
    const file: Option<Bytes>
    ghost const found: Option<seq<Pair>>   // what scanning it gives
    var entries: Option<seq<Pair>>   // None until the first advance
    var pos: nat
    var current: Pair
    var done: bool

    ghost predicate Valid()
      reads this
    {
      && found == FoundIn(lib, file) && (entries == None ==> pos == 0)
      && (entries.Some? ==> entries == found && pos <= |entries.value|)
    }

    constructor (idx: nat, lib: Library, file: Option<Bytes>)
      ensures Valid() && found == FoundIn(lib, file) && this.idx == idx && this.lib == lib && this.file == file &&
              pos == 0 && !done
    {
      this.idx, this.lib, this.file, this.found := idx, lib, file, FoundIn(lib, file);
      entries, pos, current, done := None, 0, Pair([], []), false;
    }

    /** The first advance scans the table; the entries are then delivered one by one. */
    method Advance() returns (ok: bool)
      requires Valid()
      modifies this
      ensures Valid()
      ensures ok == (!old(done) && found.Some? && old(pos) < |found.value|)
      ensures ok ==> pos == old(pos) + 1 && current == found.value[old(pos)] && !done
      ensures !ok ==> pos == old(pos) && done
    {
      hide FoundIn;
      if done {
        return false;
      }
      if entries == None {
        entries := ScanTable(lib, file);
        if entries == None {
          done := true;
          return false;
        }
      }
      if pos >= |entries.value| {
        done := true;
        return false;
      }
      current := entries.value[pos];
      pos := pos + 1;
      return true;
    }
  }

  function InputOf(found: Option<seq<Pair>>): seq<Pair> {
    if found.Some? then found.value else []
  }

  function InputsOf(founds: seq<Option<seq<Pair>>>): (r: Inputs)
    ensures |r| == |founds|
  {
    seq(|founds|, i requires 0 <= i < |founds| => InputOf(founds[i]))
  }

  class Merger {
    const heap: Heap
    var scanners: seq<Scanner>
    ghost var inputs: Inputs
    ghost var m: Merge

    /** The objects hold what the state of the merge says. */
    ghost predicate Holding()
      reads this, heap, scanners
    {
      && heap.Valid() && heap.content == m.heads
      && |scanners| == |inputs| == |m.delivered|
      && (forall i, j :: 0 <= i < j < |scanners| ==> scanners[i] != scanners[j])
      && (forall i :: 0 <= i < |scanners| ==>
            scanners[i].Valid() && scanners[i].idx == i && InputOf(scanners[i].found) == inputs[i])
      && (forall i :: 0 <= i < |scanners| && i in m.heads ==>
            scanners[i].pos == m.delivered[i] + 1 && !scanners[i].done)
    }

    ghost predicate Valid()
      reads this, heap, scanners
    {
      AllSorted(inputs) && Holding() && Merging(inputs, m)
    }

    /** `newMerger`; a table that does not open gets a scanner that delivers nothing. */
    constructor (lib: Library, files: seq<Option<Bytes>>)
      ensures Holding() && inputs == InputsOf(FoundsIn(lib, files)) && m == Unstarted(inputs)
      ensures forall i :: 0 <= i < |scanners| ==> scanners[i].pos == 0 && !scanners[i].done
      ensures fresh(heap) && fresh(scanners) && heap.items == []
    {
      heap := new Heap();
      scanners := [];
      inputs := InputsOf(FoundsIn(lib, files));
      m := Unstarted(InputsOf(FoundsIn(lib, files)));
      new;
      hide Merging, Heap.Valid, Unstarted, FoundIn;
      var i := 0;
      while i < |files|
        modifies `scanners
        invariant heap.items == []
        invariant i <= |files| && |scanners| == i && fresh(scanners)
        invariant forall j, k :: 0 <= j < k < i ==> scanners[j] != scanners[k]
        invariant forall j :: 0 <= j < i ==>
                    scanners[j].Valid() && scanners[j].idx == j && scanners[j].found == FoundIn(lib, files[j])
        invariant forall j :: 0 <= j < i ==> scanners[j].pos == 0 && !scanners[j].done
      {
        var s := new Scanner(i, lib, files[i]);
        scanners := scanners + [s];
        i := i + 1;
      }
    }

    /** Advances a table that is out of the heap and puts its next entry in. */
    method Refill(i: nat)
      requires Holding() && i < |scanners| && i !in m.heads
      requires scanners[i].pos == m.delivered[i] && !scanners[i].done
      modifies `m, heap, scanners[i]
      ensures Holding()
      ensures m == Refilled(inputs, old(m), i)
      ensures i < |inputs| && i < |m.delivered| && heap.items == Joined(inputs, old(heap.items), i, m.delivered[i])
    {
      hide Heap.Valid, FoundIn, Pushed;
      var ok := scanners[i].Advance();
      if ok {
        var p := scanners[i].current;
        heap.Push(HeapEntry(p.key, p.value, scanners[i].idx));
        m := m.(heads := m.heads[i := p]);
      }
    }

    /** The rest of `newMerger`: the first entry of each table goes into the heap. */
    method Start()
      requires Holding() && m == Unstarted(inputs) && AllSorted(inputs)
      requires forall i :: 0 <= i < |scanners| ==> scanners[i].pos == 0 && !scanners[i].done
      modifies `m, heap, scanners
      ensures Valid() && m.output == [] && StartedUpTo(inputs, m, |inputs|)
      ensures old(heap.items) == [] ==> heap.items == StartHeap(inputs, |inputs|)
    {
      hide Heap.Valid, AllSorted, Merging, StartedUpTo, Refilled, Joined, Scanner.Valid, InputOf, StartHeap, Unstarted,
        Lists, HeapOrdered;
      ghost var empty := heap.items == [];
      var i := 0;
      StartedNone(inputs, m);
      assert StartHeap(inputs, 0) == [] by { StartHeapNone(inputs); }
      while i < |scanners|
        invariant i <= |scanners| && Holding() && StartedUpTo(inputs, m, i)
        invariant empty ==> heap.items == StartHeap(inputs, i)
        invariant forall k :: i <= k < |scanners| ==> scanners[k].pos == 0 && !scanners[k].done
      {
        OthersApart(i);
        StartTable(i);
        i := i + 1;
      }
      StartMerges(inputs, m);
    }

    method StartTable(i: nat)
      requires Holding() && i < |scanners| && StartedUpTo(inputs, m, i) && scanners[i].pos == 0 && !scanners[i].done
      modifies `m, heap, scanners[i]
      ensures Holding() && StartedUpTo(inputs, m, i + 1)
      ensures i < |inputs| && (old(heap.items) == StartHeap(inputs, i) ==> heap.items == StartHeap(inputs, i + 1))
    {
      hide Heap.Valid, StartedUpTo, Joined, Scanner.Valid, InputOf, StartHeap;
      StartedStep(inputs, m, i);
      StartHeapStep(inputs, i);
      Refill(i);
    }

    lemma OthersApart(i: nat)
      requires Holding() && i < |scanners|
      ensures forall k :: 0 <= k < |scanners| && k != i ==> scanners[k] != scanners[i]
    {
    }

    /** The pops of `Next`: a least entry, and every other entry with its key. */
    method PopLeast() returns (entry: HeapEntry, ghost ties: set<nat>)
      requires heap.Valid() && heap.items != []
      modifies heap
      ensures heap.Valid() && entry.idx in old(heap.content) && entry.Head() == old(heap.content)[entry.idx]
      ensures heap.content == old(heap.content) - ({entry.idx} + ties)
      ensures LeastWithTies(old(heap.content), entry.idx, ties)
      ensures entry == old(heap.items[0]) && heap.items == DropTies(Popped(old(heap.items)), entry.key)
    {
      hide Less, Le, HeapOrdered, Lists, LeastWithTies, Popped;
      entry := heap.Pop();
      var key := entry.key;
      ties := {};
      ghost var heads := old(heap.content);
      ghost var e := entry.idx;
      DropNone(heads, e);
      while |heap.items| > 0 && heap.items[0].key == key
        invariant heap.Valid()
        invariant heap.content == heads - ({e} + ties)
        invariant DropTies(heap.items, key) == DropTies(Popped(old(heap.items)), key)
        invariant forall i :: i in ties ==> i != e && i in heads && heads[i].key == key
        decreases |heap.items|
      {
        var dropped := heap.Pop();
        DropOneMore(heads, e, ties, dropped.idx);
        ties := ties + {dropped.idx};
      }
      NoTieLeft(heap.items, heap.content, heads, e, ties);
    }

    /** Takes the least head out for delivery, and its ties out for good. */
    method Deliver() returns (entry: HeapEntry, ghost ties: set<nat>)
      requires Holding() && Within(inputs, m) && heap.items != []
      modifies `m, heap
      ensures Holding() && entry.idx in old(m.heads) && old(m.heads)[entry.idx] == entry.Head()
      ensures Picked(old(m), entry.idx, ties)
      ensures m == Delivered(old(m), entry.idx, ties)
      ensures entry == old(heap.items[0]) && heap.items == DropTies(Popped(old(heap.items)), entry.key)
      ensures entry.idx < |scanners| && scanners[entry.idx].pos == m.delivered[entry.idx] && !scanners[entry.idx].done
    {
      hide Heap.Valid, LeastWithTies, Scanner.Valid, Popped, DropTies;
      entry, ties := PopLeast();
      m := Delivered(m, entry.idx, ties);
    }

    /** Delivers a least head, the one at the root of the heap, and drops the tables that tie with it. */
    method Next() returns (r: Option<Pair>)
      requires Valid()
      modifies `m, heap, scanners
      ensures Valid()
      ensures r == None <==> old(m.heads) == map[]
      ensures r == None ==> m == old(m) && heap.items == old(heap.items)
      ensures r.Some? ==> m.output == old(m.output) + [r.value] && StepOf(inputs, old(m), m)
      ensures r.Some? <==> old(heap.items) != []
      ensures inputs == old(inputs)
      ensures r.Some? ==> HeapStep(inputs, r.value, old(heap.items), old(m.delivered), heap.items, m.delivered)
    {
      hide Popped, DropTies, Pushed;
      hide HeapOrdered, Lists, AllSorted, Traced, Ascending, Settled, Picked, Refilled, Stepped, Within, Scanner.Valid;
      EmptyHeap(heap.items, heap.content);
      if |heap.items| == 0 {
        return None;
      }
      ghost var before := m;
      var entry, ties := Deliver();
      Refill(entry.idx);
      StepIsRefill(inputs, before, entry.idx, ties);
      StepMerges(inputs, before, entry.idx, ties);
      return Some(Pair(entry.key, entry.value));
    }
  }

  lemma EmptyHeap(h: seq<HeapEntry>, content: map<nat, Pair>)
    requires Lists(h, content)
    ensures h == [] <==> content == map[]
  {
    if h != [] {
      assert h[0].idx in content;
    }
  }

  lemma DropNone(heads: map<nat, Pair>, e: nat)
    ensures heads - {e} == heads - ({e} + {})
  {
  }

  lemma DropOneMore(heads: map<nat, Pair>, e: nat, ties: set<nat>, d: nat)
    ensures (heads - ({e} + ties)) - {d} == heads - ({e} + (ties + {d}))
  {
  }

  /** When the root's key differs from the least key, no other entry has it. */
  lemma NoTieLeft(h: seq<HeapEntry>, content: map<nat, Pair>, heads: map<nat, Pair>, e: nat, ties: set<nat>)
    requires HeapOrdered(h) && Lists(h, content) && e in heads && (h == [] || h[0].key != heads[e].key)
    requires content == heads - ({e} + ties)
    requires forall i :: i in heads ==> Le(heads[e].key, heads[i].key)
    requires forall i :: i in ties ==> i != e && i in heads && heads[i].key == heads[e].key
    ensures LeastWithTies(heads, e, ties)
  {
    hide Less;
    var key := heads[e].key;
    forall i | i in content
      ensures content[i].key != key
    {
      var k :| 0 <= k < |h| && h[k].idx == i;
      RootIsLeast(h, k);
      assert h[0].idx in content;
      LessTotal(key, h[0].key);
    }
    assert forall i :: i in heads && i != e && i !in ties ==> i in content;
  }

  /** The state between the pops and the refill. */
  function Delivered(m: Merge, e: nat, ties: set<nat>): Merge
    requires e in m.heads && e < |m.delivered|
  {
    Merge(m.delivered[e := m.delivered[e] + 1], m.heads - ({e} + ties),
          m.output + [m.heads[e]], m.sources + [(e, m.delivered[e])])
  }

  lemma StepIsRefill(inputs: Inputs, m: Merge, e: nat, ties: set<nat>)
    requires Within(inputs, m) && e in m.heads
    ensures Refilled(inputs, Delivered(m, e, ties), e) == Stepped(inputs, m, e, ties)
    ensures Stepped(inputs, m, e, ties).output == m.output + [m.heads[e]]
    ensures Stepped(inputs, m, e, ties).delivered == m.delivered[e := m.delivered[e] + 1]
  {
  }

  function Unstarted(inputs: Inputs): Merge {
    Merge(seq(|inputs|, _ => 0), map[], [], [])
  }

  function Refilled(inputs: Inputs, m: Merge, i: nat): Merge
    requires i < |inputs| == |m.delivered|
  {
    if m.delivered[i] < |inputs[i]| then m.(heads := m.heads[i := inputs[i][m.delivered[i]]]) else m
  }

  /** The first `n` tables have their first entry in the heap. */
  ghost predicate StartedUpTo(inputs: Inputs, m: Merge, n: nat) {
    && m == Unstarted(inputs).(heads := m.heads)
    && (forall i: nat :: i in m.heads <==> i < n && i < |inputs| && inputs[i] != [])
    && (forall i :: i in m.heads ==> m.heads[i] == inputs[i][0])
  }

  lemma StartedNone(inputs: Inputs, m: Merge)
    requires m == Unstarted(inputs)
    ensures StartedUpTo(inputs, m, 0)
  {
  }

  lemma StartedStep(inputs: Inputs, m: Merge, i: nat)
    requires StartedUpTo(inputs, m, i) && i < |inputs|
    ensures i !in m.heads && |m.delivered| == |inputs| && m.delivered[i] == 0
    ensures StartedUpTo(inputs, Refilled(inputs, m, i), i + 1)
  {
  }

  lemma StartMerges(inputs: Inputs, m: Merge)
    requires StartedUpTo(inputs, m, |inputs|)
    ensures Merging(inputs, m) && m.output == []
  {
    SumZero(m.delivered);
  }

  lemma {:induction false} SumZero(s: seq<nat>)
    requires forall i :: 0 <= i < |s| ==> s[i] == 0
    ensures Sum(s) == 0
  {
    if s != [] {
      SumZero(s[..|s| - 1]);
    }
  }
}
