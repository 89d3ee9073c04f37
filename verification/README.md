# crazygraphstore in Dafny

A model of a single-node storage engine for property graphs, and proofs about it. A node or an edge
is serialized, appended to a write-ahead log, and put into a size-bounded memtable of the write lane
its ID hashes to; adjacency lists are kept in a third kind of memtable. Memtables are flushed to
SSTables, SSTables are merged by a compactor, and reads go through an LRU cache.

The parts fit together as follows.

- `Bytes`, `Graph`: byte strings with Go's order, fixed-width integers, map enumerations; nodes and edges.
- `Serialization` (the format as functions, round trips, truncation), `SerializationBytes` (the format byte by byte,
  and what becomes of damaged bytes) and `Serializer` (the loops).
- `Wal`: the log format, replay of any prefix, and the log object.
- `Utf8`, `EdgeList`: the comma-separated edge lists and how Go's range loop reads them back.
- `Memtable`: tables as values with their accounting, and the memtable object.
- `Lane` (a write lane as a value), `LaneSteps`, `LaneReads`, `LaneHealth`, `LaneTables` (one step), `LaneRuns`,
  `LaneIndex`, `Recovery`, `RecoveryIndex` (whole runs), `LaneWitnesses` (concrete runs), and `WriteLane`
  (the object).
- `Sstable` (the file format), `SstableReads`, `SstableFile` (reading back what was written), `SstableBytes` (which
  bytes are accepted, whole or damaged), `SstableWriter` (the writer and reader objects).
- `MergeHeap`, `Merger` (the k-way merge), `Compaction` (which tables are picked), `Compactor` (rounds on a disk).
- `Flusher`: from a memtable to an SSTable.
- `Lru`, `Sharding`, `EngineReads`, `Engine`: the cache, many lanes as one map, the engine object.
- `GraphStore` (what the engine stores and answers, as a state machine over two maps and an index), `EngineRuns`
  (the engine behaves like it over any run) and `EngineRestart` (what a stopped engine leaves to the next one).

An object whose methods update its fields is a class here, and each method's postcondition equates the
new state with a function of the old one; what those functions mean is stated by lemmas apart from their
bodies: the bytes, tables and entries they lead to, for every input. Where Go leaves something open (the
order of a map, the clock, the order of equal elements after a sort), the model leaves it open too, and the
results hold for every outcome.

## What the code does not keep

These are properties of the code as it stands. Each has the exact condition under which it holds, a
concrete input for which it does not, or both.

- A log replays without an error exactly when what stands behind its last whole record ends where a field starts; a
  checksum that does not match is an error (`Wal.NilExactly`, `Wal.MismatchIsRefused`).
- Entries appended to a log with a torn tail replay if and only if the tail does not shift them
  (`Wal.AppendedReplay`, `Wal.TornTailReplay`). A tail torn at a field boundary replays without an error, and
  can hide an entry appended after it (`Wal.TornTailHidesLaterEntry`).
- `WriteNode` logs before the memtable can refuse, and `Recover` never rotates: it succeeds exactly when
  everything logged, refused writes included, fits one table of each kind (`Recovery.RecoverSucceedsExactly`).
  Two successful writes can be too many (`LaneWitnesses.WrittenButUnrecoverable`).
- `Recover` drops adjacency errors: the recovered index holds the edges that still find room in one table
  (`RecoveryIndex.RecoveredIndexIs`), which for an index without gaps is the lost one exactly when all lists fit
  (`RecoveryIndex.RecoveredIndexAgrees`; a run where they do not is `LaneWitnesses.RecoveredWithoutIndex`).
- So an engine can be started again exactly when everything each lane has ever logged fits one table of each kind
  (`EngineRestart.Restart`), however often its tables had rotated before.
- A refused outgoing adjacency update is retried after a rotation, a refused incoming one is not
  (`LaneHealth.EdgeStepOutcome`, `LaneWitnesses.IncomingRefused`).
- Lane reads do not consult flushed files. Removing a flushed table is harmless for a node under an exact
  condition (`LaneReads.RemovalIsHarmless`); otherwise an older version is read again
  (`LaneReads.FlushedNodeGoesStale`, `LaneWitnesses.StaleRead`), or nothing (`LaneReads.FlushedNodeIsLost`).
- Strings and byte values accept short reads and fill the rest with zeros; a string with nothing behind its length is
  refused (`SerializationBytes.StringExactly`).
- A byte of an edge ID that is not UTF-8 comes back as U+FFFD, and a comma splits the ID (`EdgeList.BadByte`,
  `EdgeList.TokensSplit`).
- A put onto a tombstone panics (`Memtable.PutAccounting`, `LaneTables.NodeCrashExactly`), and a replayed deletion lets a
  version in an older table be read again (`LaneReads.ReplayDeleteReads`).
- A memtable of two or more keys has an enumeration that the SSTable writer refuses (`Flusher.SomeOrderIsRefused`).
- The merger's comment promises that of equal keys the newest is kept, which comes from the higher-indexed table. The
  code delivers the lowest-indexed of the tables that start with the least key (`Merger.FirstTableWins`), and later
  the one whose entry has waited longer (`Merger.TwoTables`), so an older value can win.
- Merging loses entries exactly when tables share a key (`Merger.MergeEnds`). A table that shares none comes out
  whole (`Merger.UnsharedIsWhole`), of two that share a key one never does (`Merger.NotBothWhole`), and keys that
  no other table has can be lost (`Merger.TieLosesKey`). Which of two tied tables goes on is decided by the heap's
  swaps (`MergeHeap.PushedRoot`, `MergeHeap.PoppedRoot`), so the tables and their order settle what is delivered
  (`Merger.DeliversOne`); the results on whole merges hold whatever the ties.
- Creating a node that is cached leaves the old one in the cache (`Engine.Engine.CreateNode`), and it goes on being read
  (`EngineRuns.CreateThenGet`, `EngineRuns.CreateTwice`).
- An edge that is written again under other ends stays listed at the old ones: `GetOutgoingEdges` then returns an edge
  that runs from another node (`GraphStore.WrittenAgain`, `Engine.Engine.GetOutgoingEdges`).
- An entry too large for the cache empties it before it is refused (`Lru.RefusedPutEmpties`).
- The writer's order test lets the empty key in repeatedly (`SstableWriter.AcceptedIsSorted`).
- An SSTable entry of 4 GiB panics or is cut (`SstableWriter.Writer.Add`).
- `FileSize` after `Close` leaves out the footer (`SstableWriter.Writer.Close`).

## Model

| member | source | states |
|---|---|---|
| Serialization.NodeRoundTrip | pkg/graph/serialization.go:20-131 | whatever order the property map is written in, deserializing gives the node back with int widened to int64 and times cut to seconds, if and only if every stored length fits in 32 bits |
| Serialization.EdgeRoundTrip | pkg/graph/serialization.go:134-254 | the same for edges |
| Serialization.NodePrefixRejected | pkg/graph/serialization.go:70-131 | no strict prefix of a serialized node is accepted, although strings and byte values accept short reads |
| Serialization.EdgePrefixRejected | pkg/graph/serialization.go:187-276 | no strict prefix of a serialized edge is accepted |
| Serialization.NodeReencodes | pkg/graph/serialization.go:20-131 | what was read, serialized again in any order, has the same length and reads back as the same node |
| Serialization.EdgeReencodes | pkg/graph/serialization.go:134-254 | the same for edges |
| Serialization.NodeLength | pkg/graph/serialization.go:20-67 | the length of an encoding does not depend on the order of the properties |
| Serialization.EdgeLength | pkg/graph/serialization.go:134-184 | the same for edges |
| Serialization.DecodedNodeFits | pkg/graph/serialization.go:70-131 | whatever bytes are accepted, the decoded node can be serialized and read back |
| Serialization.DecodedEdgeFits | pkg/graph/serialization.go:187-254 | the same for edges |
| Serialization.ValueRoundTrip | pkg/graph/serialization.go:287-365 | a property value reads back up to the widening of int, whatever follows it |
| Serialization.StringRoundTrip | pkg/graph/serialization.go:258-284 | a length-prefixed string reads back when something follows it or it is not empty |
| SerializationBytes.NodeLayout | pkg/graph/serialization.go:20-67 | where every field of a serialized node stands: lengths and numbers high byte first, a tag before each value, version and whole seconds at the end |
| SerializationBytes.EdgeLayout | pkg/graph/serialization.go:134-184 | the same for edges |
| SerializationBytes.FixedExactly | pkg/graph/serialization.go:84-87 | a number is read exactly where all its bytes are there |
| SerializationBytes.StringExactly | pkg/graph/serialization.go:266-276 | what reading a string gives for any bytes: refused when nothing follows the length, even for length 0; padded with zeros when too little does |
| SerializationBytes.ValueExactly | pkg/graph/serialization.go:332-365 | what reading a value gives for any bytes, tag by tag |
| SerializationBytes.LaterWins | pkg/graph/serialization.go:102-112 | when a key is read twice, the later value stays |
| SerializationBytes.TrailingIgnored | pkg/graph/serialization.go:70-131 | bytes after the last field are ignored |
| Graph.NormIs | pkg/graph/serialization.go:54-64 | what is lost in a stored node or edge: the part of a time below the second, and that an integer was an int |
| Serializer.SerializeNode | pkg/graph/serialization.go:20-67 | succeeds exactly when every property has a supported type, and then writes an encoding of the node in some order |
| Serializer.SerializeEdge | pkg/graph/serialization.go:134-184 | the same for edges |
| Serializer.WriteProps | pkg/graph/serialization.go:44-52 | the loop over the property map writes each binding once, or fails exactly for an unsupported value |
| Serializer.DeserializeNode | pkg/graph/serialization.go:70-131 | the advancing reader computes the decoding of the format |
| Serializer.DeserializeEdge | pkg/graph/serialization.go:187-254 | the same for edges |
| Wal.PrefixReplay | pkg/wal/wal.go:390-496 | on any prefix of a log, Replay applies exactly the entries wholly inside it, in order and once each, and returns nil exactly when the cut falls where an entry or a field starts |
| Wal.WholeLogReplays | pkg/wal/wal.go:390-422 | a whole log replays all its entries without an error |
| Wal.SyncedSurvives | pkg/wal/wal.go:324-352 | once m entries are synced, every crash image replays at least those and nothing but a prefix of what was appended |
| Wal.ReplayStarts | pkg/wal/wal.go:390-496 | the entries a file replays begin with given ones exactly when its bytes begin with their records |
| Wal.AppendedReplay | pkg/wal/wal.go:156-301 | entries appended to any log file that was found replay after those it held if and only if what follows those does not shift the new records |
| Wal.TornTailReplay | pkg/wal/wal.go:390-496 | the same for a log cut at any byte: the exact condition on the torn record and the appended ones |
| Wal.CleanCutReplays | pkg/wal/wal.go:390-496 | a log cut between two records takes further entries without a loss |
| Wal.RecordRead | pkg/wal/wal.go:425-496 | reading a record of which only a part survives gives the entry, EOF at a field boundary, or an error |
| Wal.RecordLayout | pkg/wal/wal.go:262-301 | where each field of a record stands, numbers low byte first, the checksum being that of all bytes before it |
| Wal.NilExactly | pkg/wal/wal.go:390-422 | for every file: Replay returns nil if and only if what follows the last whole record is empty or the beginning of one, cut where a field starts |
| Wal.MismatchIsRefused | pkg/wal/wal.go:484-495 | a record that is all there but for its checksum ends the replay with an error |
| Wal.RecomputedBody | pkg/wal/wal.go:472-495 | the checksum is recomputed over the very bytes that were read |
| Wal.TornTailHidesLaterEntry | pkg/wal/wal.go:390-422 | a witness for Wal.TornTailReplay: a concrete torn tail that replays silently and hides an entry appended after it |
| Wal.WAL.Append | pkg/wal/wal.go:222-301 | file plus buffer stays what was found plus the records of everything appended; fails exactly when closed |
| Wal.WAL.Sync | pkg/wal/wal.go:324-352 | all appended records are in the file, the buffer is empty |
| Wal.WAL.Close | pkg/wal/wal.go:355-387 | the first Close leaves everything appended in the file |
| Wal.WAL.Truncate | pkg/wal/wal.go:499-535 | forgets the file, the buffer and all entries; fails when closed |
| Wal.WAL.Replay | pkg/wal/wal.go:390-422 | the reading loop delivers the entries of the file and returns nil exactly when what follows the last whole record ends where a field starts |
| Wal.SyncThenReplay | pkg/wal/wal.go:324-422 | a log opened on any file, appended to and synced, replays what the file held and then everything appended, exactly when no torn tail shifts it, and without an error when there is none |
| EdgeList.Parse | pkg/memtable/memtable.go:299-319 | the rune loop with its accumulator computes the parse of the list |
| EdgeList.ListRoundTrip | pkg/memtable/memtable.go:251-319 | parsing undoes appending if and only if every ID is non-empty, comma-free and valid UTF-8 |
| EdgeList.TokensOfId | pkg/memtable/memtable.go:299-319 | one appended ID is read back as itself exactly when it is well formed |
| EdgeList.TokensSplit | pkg/memtable/memtable.go:303-316 | a comma in an ID splits it, and empty parts are dropped |
| EdgeList.BadByte | pkg/memtable/memtable.go:303-312 | a byte that starts no well-formed sequence comes back as the three bytes of U+FFFD |
| EdgeList.ParsedIsWellFormed | pkg/memtable/memtable.go:299-319 | only well-formed IDs ever come out of the parser |
| EdgeList.ParseConcat | pkg/memtable/memtable.go:251-319 | lists that end with a comma are read independently of what follows |
| Utf8.EncodeDecode | pkg/memtable/memtable.go:303-312 | appending the rune of a well-formed sequence restores its bytes |
| Utf8.EncodedIsWellFormed | pkg/memtable/memtable.go:303-312 | appending any rune writes a well-formed sequence |
| Utf8.WidthExactly | pkg/memtable/memtable.go:303-312 | the range loop takes exactly the bytes of some scalar value for one rune |
| Utf8.RuneSpelled | pkg/memtable/memtable.go:303-312 | the bytes of a rune are its bits in groups of six, in the fewest groups |
| Memtable.PutExactly | pkg/memtable/memtable.go:36-70 | which error a Put returns, in the order of its tests, and for every key what is in the table afterwards |
| Memtable.DeleteExactly | pkg/memtable/memtable.go:85-103 | a deletion leaves a tombstone, also for an absent key; a frozen table stays as it is |
| Memtable.KeysSpelled | pkg/memtable/memtable.go:171-254 | how the keys of nodes, edges and lists are spelled |
| Memtable.PutAccounting | pkg/memtable/memtable.go:36-70 | size is the sum of the entries and count their number after every Put that does not hit a tombstone; a stored entry leaves size within maxSize; a panic leaves the value in and the books wrong |
| Memtable.DeleteAccounting | pkg/memtable/memtable.go:85-103 | Delete keeps size and count exact |
| Memtable.RunAccounting | pkg/memtable/memtable.go:36-103 | over any run without a panic size and count are exact |
| Memtable.Memtable.PutBytes | pkg/memtable/memtable.go:36-70 | the method makes the transition of the table function, error by error |
| Memtable.Memtable.DeleteKey | pkg/memtable/memtable.go:85-103 | the method makes the transition of the table function |
| Memtable.Memtable.Entries | pkg/memtable/memtable.go:127-143 | every binding once, in no particular order |
| Memtable.Memtable.Clear | pkg/memtable/memtable.go:146-154 | an empty table that accepts writes again |
| Memtable.Memtable.Freeze | pkg/memtable/memtable.go:106-108 | only the frozen flag changes |
| Memtable.Memtable.PutNode | pkg/memtable/memtable.go:171-179 | puts some encoding of the node under its key, or fails for an unsupported property |
| Memtable.Memtable.PutEdge | pkg/memtable/memtable.go:212-220 | the same for edges |
| Memtable.Memtable.ReadNode | pkg/memtable/memtable.go:182-195 | the decoded value of the node's key |
| Memtable.Memtable.ReadEdge | pkg/memtable/memtable.go:223-236 | the decoded value of the edge's key |
| Memtable.Memtable.AddEdgeTo | pkg/memtable/memtable.go:251-274 | appends one ID and a comma to the list under a key |
| Memtable.Memtable.EdgesAt | pkg/memtable/memtable.go:277-296 | the parsed list under a key |
| LaneReads.NodeStepReads | pkg/storage/write_lane.go:56-85 | a successful WriteNode is what is read next; nothing else any reader sees moves, whether or not tables rotate |
| LaneReads.EdgeStepReads | pkg/storage/write_lane.go:88-135 | for every outcome of WriteEdge: whether the edge can be read, its source lists it and its target lists it, and that nothing else moves |
| LaneReads.ReplayNodeReads | pkg/storage/write_lane.go:328-338 | a replayed node is what is read next |
| LaneReads.ReplayEdgeReads | pkg/storage/write_lane.go:339-353 | a replayed edge is what is read next, with the list items that found room |
| LaneReads.ReplayDeleteReads | pkg/storage/write_lane.go:354-356 | a replayed deletion takes the node with that key out of the active table only, so that a version in an older one is read again; nothing else changes for readers |
| LaneReads.RemoveOldReads | pkg/storage/write_lane.go:256-266 | what is read once an old table is removed: the version before, or nothing, if the table held the newest; else what was read |
| LaneReads.RemovalIsHarmless | pkg/storage/engine.go:534-548 | removing a flushed table changes no read of a node if and only if the table does not hold it, or a newer one does, or the older ones hold the same version |
| LaneReads.FlushedNodeGoesStale | pkg/storage/engine.go:537-546 | when an older table was kept, its version is read again |
| LaneReads.FlushedNodeIsLost | pkg/storage/engine.go:526-561 | a node that only the removed table held is not found any more |
| LaneReads.NodeStepElsewhere | pkg/storage/write_lane.go:56-85 | a node write, whatever it stores, is not seen by readers of edges |
| LaneReads.EdgeStepElsewhere | pkg/storage/write_lane.go:88-135 | an edge write, whatever it stores, is not seen by readers of nodes |
| LaneSteps.NodeWriteLook | pkg/storage/write_lane.go:56-85 | what a node write leaves on top of the tables' values, before decoding |
| LaneSteps.EdgeWriteLook | pkg/storage/write_lane.go:88-135 | what an edge write, retry and rewrite leave on top and in the lists, before decoding |
| LaneSteps.RotationIsInvisible | pkg/storage/write_lane.go:216-242 | rotating all three tables changes nothing a reader sees |
| LaneHealth.NodeOutcomeIs | pkg/storage/write_lane.go:56-85 | what WriteNode returns on a running lane is told from the node's own size |
| LaneHealth.EdgeOutcomeIs | pkg/storage/write_lane.go:88-135 | what WriteEdge returns on a running lane is told from the edge's own sizes, but for the room at its target |
| LaneHealth.NodeStepOutcome | pkg/storage/write_lane.go:56-85 | a node is accepted exactly when its own entry fits an empty table; tables rotate exactly when the active one has no room for it |
| LaneHealth.EdgeStepOutcome | pkg/storage/write_lane.go:88-135 | the exact outcome of WriteEdge; whether the edge is readable and listed by its source depends on its own sizes only |
| LaneHealth.ReplayNodeHealthy | pkg/storage/write_lane.go:328-338 | replaying a node keeps the tables sound and stores it exactly when there is room |
| LaneHealth.ReplayEdgeHealthy | pkg/storage/write_lane.go:339-353 | replaying an edge keeps the tables sound, with the exact condition for each of its three puts |
| LaneTables.NodeStepTables | pkg/storage/write_lane.go:56-85 | all that WriteNode leaves behind: result, log entry, how often each kind of table rotates, and what is in every table |
| LaneTables.NodeCrashExactly | pkg/storage/write_lane.go:56-85 | WriteNode panics exactly on a tombstone of the node's key in an active table that has room |
| LaneTables.EdgeStepTables | pkg/storage/write_lane.go:88-135 | the same for WriteEdge, with the retry, the rewrite and both list items |
| LaneTables.ListedIsActive | pkg/storage/write_lane.go:103-122 | an edge that was listed stands in the active tables, next to its list item, also when the tables rotated on the way |
| LaneTables.FreezeAndAddIs | pkg/storage/write_lane.go:216-242 | a rotation freezes the active table as it stands and puts an empty one behind it |
| LaneTables.ReplayNodeTables | pkg/storage/write_lane.go:332-338 | replaying a node stores it or leaves the lane as it is |
| LaneTables.ReplayEdgeTables | pkg/storage/write_lane.go:339-353 | replaying an edge stores it with the list items that find room, or leaves the lane as it is |
| LaneTables.NewestListFirst | pkg/storage/write_lane.go:182-213 | the IDs of newer tables come before those of older ones |
| LaneRuns.NodesReadLatest | pkg/storage/write_lane.go:56-157 | after any run of successes, refused writes, rotations and replay, ReadNode returns the last stored node of an ID, or nothing |
| LaneRuns.EdgesReadLatest | pkg/storage/write_lane.go:88-179 | in every reachable state, ReadEdge returns the last edge kept for an ID |
| LaneRuns.ListsExact | pkg/storage/write_lane.go:182-242 | the list values of a node over all tables are exactly the IDs listed for it, in order |
| LaneRuns.RunHealth | pkg/storage/write_lane.go:56-135 | the table invariants hold in every reachable state |
| LaneRuns.RunKeepsRunning | pkg/storage/write_lane.go:269-278 | nothing but Stop stops a lane |
| LaneRuns.SmallTablesFit | pkg/storage/write_lane.go:56-135 | with tables of at most 4 GiB every stored edge can be read back in any run, and if no deletion is replayed so can every node, without a panic |
| LaneIndex.IndexExact | pkg/storage/write_lane.go:182-213 | GetOutgoingEdges and GetIncomingEdges return, up to order, what the IDs of exactly the listed edges parse to |
| LaneIndex.IndexOfWellFormed | pkg/storage/write_lane.go:182-213 | for well-formed IDs, the IDs themselves, each as often as it was listed |
| LaneIndex.NoDanglingEdge | pkg/storage/write_lane.go:88-266 | in every reachable state, also after failed writes, replay and removed tables, every ID in the index comes from an edge that ReadEdge finds |
| Recovery.LogIsComplete | pkg/storage/write_lane.go:56-135 | the log file holds the entries found when the lane started and one for each write that got that far since, in order; writes turned away before the log and removed tables leave none |
| Recovery.RecoverSucceedsExactly | pkg/storage/write_lane.go:325-363 | Recover returns nil if and only if each logged write fits beside the latest versions of those before it in a single table of its kind |
| Recovery.FittingWritesSucceeded | pkg/storage/write_lane.go:325-363 | when everything logged fits one table, every logged node had been written and every logged edge kept |
| Recovery.AttemptsModel | pkg/storage/write_lane.go:56-135 | what left no entry in the log changed nothing that was written |
| Recovery.RecoveredReadsAgree | pkg/storage/write_lane.go:325-363 | the recovered lane agrees with the crashed one on every edge and reads every node as it was written last, whatever was rotated, flushed or removed and however properties were ordered; on nodes too the two agree if no table was removed |
| RecoveryIndex.RecoveredIndexIs | pkg/storage/write_lane.go:339-353 | the recovered index, as a multiset, for any run: the IDs of exactly the edges that still find room in one adjacency table |
| RecoveryIndex.RecoveredIndexAgrees | pkg/storage/write_lane.go:339-353 | the recovered index agrees with the lost one if and only if replay lists what the run had listed; for an index without gaps and well-formed IDs, if and only if all lists fit one adjacency table |
| RecoveryIndex.RedoneLists | pkg/storage/write_lane.go:345-353 | each replayed edge is listed at its source and at its target exactly when its item finds room in that one table |
| Recovery.RedoneStart | pkg/storage/write_lane.go:325-363 | a lane that has recovered is again one started on that log, so that the recovery results apply to it in turn |
| LaneWitnesses.IncomingRefused | pkg/storage/write_lane.go:103-132 | a run of two writes whose second edge can be read and is listed by its source, but not by its target |
| LaneWitnesses.WrittenButUnrecoverable | pkg/storage/write_lane.go:325-363 | a run of two writes that both succeed and whose log does not fit one table |
| LaneWitnesses.RecoveredWithoutIndex | pkg/storage/write_lane.go:339-353 | a run of three writes that all succeed, whose log fits one table of each kind and whose lists do not |
| LaneWitnesses.StaleRead | pkg/storage/write_lane.go:256-266 | a run after which the first version of a node written twice is read again |
| WriteLane.Tables.Rotate | pkg/storage/write_lane.go:216-242 | freezes the active table, keeps it as the newest old one, and starts an empty one |
| WriteLane.Tables.ReadNode | pkg/storage/write_lane.go:138-157 | the newest decodable value, searching newest to oldest |
| WriteLane.Tables.ReadEdge | pkg/storage/write_lane.go:160-179 | the same for edges |
| WriteLane.Tables.EdgesAt | pkg/storage/write_lane.go:182-213 | the lists of all tables, newest first |
| WriteLane.Tables.Remove | pkg/storage/write_lane.go:256-266 | takes out exactly the given table, if it is an old one |
| WriteLane.WriteLane.WriteNode | pkg/storage/write_lane.go:56-85 | makes the step that the lane results are about |
| WriteLane.WriteLane.WriteEdge | pkg/storage/write_lane.go:88-135 | makes the step that the lane results are about |
| WriteLane.WriteLane.RotateMemtable | pkg/storage/write_lane.go:216-242 | all three kinds of table rotate together |
| WriteLane.WriteLane.ListIncoming | pkg/storage/write_lane.go:123-134 | the incoming update, reported without a retry when refused, and the rotation after it |
| WriteLane.WriteLane.ReplayEntry | pkg/storage/write_lane.go:330-361 | one log entry applied to the active tables, or refused when it cannot be decoded |
| WriteLane.WriteLane.ReadNode | pkg/storage/write_lane.go:138-157 | the lane's node lookup |
| WriteLane.WriteLane.ReadEdge | pkg/storage/write_lane.go:160-179 | the lane's edge lookup |
| WriteLane.WriteLane.GetOutgoingEdges | pkg/storage/write_lane.go:182-196 | the lane's outgoing list |
| WriteLane.WriteLane.GetIncomingEdges | pkg/storage/write_lane.go:199-213 | the lane's incoming list |
| WriteLane.WriteLane.RemoveOldMemtable | pkg/storage/write_lane.go:256-266 | removes one old node table and nothing else |
| WriteLane.WriteLane.Stop | pkg/storage/write_lane.go:269-278 | no further writes; everything logged is in the file |
| WriteLane.WriteLane.Recover | pkg/storage/write_lane.go:325-363 | applies the replayed entries one by one until one fails; nil exactly when none does and the file ends where a field starts |
| WriteLane.WriteLane.TruncateWAL | pkg/storage/write_lane.go:366-371 | empties the log and nothing else |
| WriteLane.CrashAndRecover | pkg/storage/write_lane.go:325-363 | end to end, for a log of any number of restarts and a lane whose flushed tables may be gone: sync, crash, reopen, recover; nil exactly when everything logged fits one table of each kind; then edges read as before, nodes as written last, and the index holds what finds room in one table; the new lane meets the requirements again |
| Sstable.PackNoEmpty | pkg/sstable/writer.go:110-113 | no empty block is ever flushed |
| SstableReads.PairRead | pkg/sstable/reader.go:240-269 | an encoded pair is read back whole |
| SstableReads.SearchCorrect | pkg/sstable/reader.go:237-285 | the early-stopping search of a sorted block answers for the whole block |
| SstableReads.ScanWholeBlock | pkg/sstable/reader.go:308-349 | scanning a block delivers its pairs with non-empty values, in order |
| SstableReads.IndexIs | pkg/sstable/writer.go:135-151 | the flushed blocks tile the file from offset 0, and each index entry carries its block's place and last key |
| SstableReads.IndexRoundTrip | pkg/sstable/format.go:152-188 | the index block decodes to its entries |
| SstableReads.FooterRead | pkg/sstable/format.go:71-110 | the footer decodes to its fields and passes its checksum |
| SstableReads.AssembledOpens | pkg/sstable/reader.go:27-79 | a file put together by Close opens to its index and filter |
| SstableReads.AnswerIsUnique | pkg/sstable/reader.go:153-177 | at most one answer is right for a key |
| SstableBytes.SectionExactly | pkg/sstable/reader.go:106-110 | a section is read exactly when it lies in the file, and panics exactly when its 64-bit end wraps around into it |
| SstableBytes.PairExactly | pkg/sstable/reader.go:240-269 | a pair is read exactly where the bytes are those of a whole pair |
| SstableBytes.PairLayout | pkg/sstable/writer.go:85-100 | where lengths, key and value of a pair stand |
| SstableBytes.BlockExactly | pkg/sstable/reader.go:202-234 | a block is accepted exactly when it lies in the file and ends with compression type 0 and its checksum |
| SstableBytes.EntryExactly | pkg/sstable/format.go:169-188 | an index entry is read exactly where the bytes are those of one; the exact condition for a panic |
| SstableBytes.EntryLayout | pkg/sstable/format.go:152-167 | where the parts of an index entry stand |
| SstableBytes.IndexIsWhole | pkg/sstable/reader.go:112-131 | an index is read whole or not at all |
| SstableBytes.FooterExactly | pkg/sstable/reader.go:82-98 | a footer is accepted exactly when the file ends with its 48 bytes, the magic number, version 1 and the right checksum among them |
| SstableBytes.FooterLayout | pkg/sstable/format.go:71-83 | where the numbers of the footer stand |
| SstableBytes.FileLayout | pkg/sstable/writer.go:158-225 | blocks, index, filter and footer in this order, and what the footer says of them |
| SstableBytes.OpenExactly | pkg/sstable/reader.go:27-79 | a file opens exactly when footer, index and filter do, in that order |
| SstableBytes.FilterExactly | pkg/sstable/writer.go:68-69 | the filter has the bits of the added keys and no others |
| SstableBytes.ScanIsWhole | pkg/sstable/reader.go:288-305 | a scan reads every block or fails |
| SstableBytes.DamageIsReported | pkg/sstable/reader.go:153-177 | a lookup that leads to a damaged block reports that, not an absent key |
| SstableFile.PackKeepsPairs | pkg/sstable/writer.go:76-105 | packing into blocks neither loses, reorders nor repeats a pair |
| SstableFile.BlocksAreBounded | pkg/sstable/writer.go:76-83 | at every point of a run each block is at most 64 KB or a single pair |
| SstableFile.PackingIsGreedy | pkg/sstable/writer.go:76-83 | a block is closed only when the next pair would not fit |
| SstableFile.LastKeysIncrease | pkg/sstable/writer.go:135-144 | index keys are the blocks' last keys and strictly increase |
| SstableFile.BinarySearchSplits | pkg/sstable/reader.go:180-199 | the binary search finds the first block whose last key is not below the key |
| SstableFile.BlockRead | pkg/sstable/reader.go:202-234 | an index entry leads back to its block, which passes its checksum |
| SstableFile.WrittenOpens | pkg/sstable/reader.go:27-150 | a written file opens, with the index and filter of its pairs |
| SstableFile.GetCorrect | pkg/sstable/reader.go:153-285 | Get returns v exactly when (k, v) was added with v non-empty, reports deleted exactly for an added empty value, and not found otherwise |
| SstableFile.ScanCorrect | pkg/sstable/reader.go:288-349 | Scan delivers exactly the added pairs with non-empty values, in order |
| SstableFile.FilterHasAll | pkg/sstable/writer.go:68-69 | the filter has no false negatives |
| SstableWriter.AcceptedIsSorted | pkg/sstable/writer.go:63-66 | the order test admits exactly the strictly increasing keys, but for repeated empty keys at the front |
| SstableWriter.Writer.Add | pkg/sstable/writer.go:58-107 | refuses exactly when closed or out of order, without a trace; panics exactly when the 32-bit entry size wraps around; else appends the pair with its lengths cut to 32 bits |
| SstableWriter.Writer.AppendEntry | pkg/sstable/writer.go:85-104 | the entry goes into the open block, as greedy packing says |
| SstableWriter.Writer.FlushBlock | pkg/sstable/writer.go:110-155 | moves the open block to the file with its trailer and index entry |
| SstableWriter.Writer.Close | pkg/sstable/writer.go:158-225 | the file is the one of the accepted pairs; FileSize misses the footer |
| SstableWriter.Writer.WriteTail | pkg/sstable/writer.go:168-202 | index, filter and footer complete the file |
| SstableWriter.Writer.EncodeIndexBlock | pkg/sstable/writer.go:228-243 | the loop writes the index block |
| SstableWriter.Writer.EntriesCount | pkg/sstable/writer.go:246-248 | the number of accepted pairs |
| SstableWriter.WriteTable | pkg/sstable/writer.go:58-225 | a loop of Add calls and Close leave the file of the longest acceptable prefix, and say whether that is all, for entries below 4 GiB |
| SstableWriter.Reader.Load | pkg/sstable/reader.go:27-79 | the three loading steps give what opening the file gives |
| SstableWriter.Reader.LoadIndex | pkg/sstable/reader.go:101-131 | the decoding loop fills the index cache with the file's entries |
| SstableWriter.Reader.FindBlock | pkg/sstable/reader.go:180-199 | the left/right loop is the binary search |
| SstableWriter.Reader.SearchBlock | pkg/sstable/reader.go:237-285 | the offset loop is the early-stopping search |
| SstableWriter.Reader.GetKey | pkg/sstable/reader.go:153-177 | filter, index, block and search in turn; refused once closed |
| SstableWriter.Reader.ScanBlockPairs | pkg/sstable/reader.go:308-349 | the offset loop delivers the block's live pairs |
| SstableWriter.Reader.ScanPairs | pkg/sstable/reader.go:288-305 | all blocks in order, or the first block error |
| SstableWriter.WriteThenRead | pkg/sstable/reader.go:153-349 | from the first Add to the lookup: sorted pairs are all accepted, and Get and Scan answer exactly for them |
| MergeHeap.Heap.Push | pkg/compaction/merger.go:52-54 | the entry joins the heap where its swaps put it, and the heap stays ordered |
| MergeHeap.Heap.Pop | pkg/compaction/merger.go:56-62 | takes the root out, which has a least key, and leaves the rest where the swaps put it, ordered |
| MergeHeap.RootIsLeast | pkg/compaction/merger.go:48-50 | the first entry of an ordered heap has a least key |
| MergeHeap.PushedRoot | pkg/compaction/merger.go:48-54 | a pushed entry comes to the root only if it is smaller than the one there |
| MergeHeap.PoppedRoot | pkg/compaction/merger.go:48-62 | which entry is at the root after a pop, ties included |
| Merger.Scanner.Advance | pkg/compaction/merger.go:194-224 | scans its table on the first call; delivers the entries one by one, and fails for good at the end or when the scan fails |
| Merger.ScanTable | pkg/compaction/merger.go:199-211 | opens a table and collects what its scan delivers |
| Merger.Merger.constructor | pkg/compaction/merger.go:65-89 | one scanner a table, none advanced |
| Merger.Merger.Start | pkg/compaction/merger.go:91-105 | the first entry of each table is in the heap, pushed in the order of the tables |
| Merger.Merger.PopLeast | pkg/compaction/merger.go:113-121 | the root, which is least, and every other entry with its key leave the heap |
| Merger.Merger.Next | pkg/compaction/merger.go:108-135 | takes one step of a merge: delivers the entry at the root, keeps the invariant, and leaves exactly the heap that the pops and the push give; done exactly when the heap is empty |
| Merger.StepMerges | pkg/compaction/merger.go:108-135 | one Next keeps: the output is strictly increasing and is exactly what was delivered, and a table out of the heap is exhausted or was dropped at a tie |
| Merger.MergeEnds | pkg/compaction/merger.go:108-135 | at the end the output is strictly increasing and is exactly a prefix of each table, which ends early only at a key that another table delivered; it holds all pairs if and only if no key stands in two tables |
| Merger.LostAfterTie | pkg/compaction/merger.go:118-121 | a pair that was lost stands at or after a key its table shares with another one, which delivered it |
| Merger.UnsharedIsWhole | pkg/compaction/merger.go:108-135 | a table none of whose keys stands in another table comes out whole |
| Merger.NotBothWhole | pkg/compaction/merger.go:118-121 | of two tables that share a key, one always loses pairs |
| Merger.WholeExactly | pkg/compaction/merger.go:48-50 | a statement over all tie-breaks that the order of keys allows, of which container/heap makes one: a table comes out whole under all of them exactly when it shares no key |
| Merger.RunMerges | pkg/compaction/merger.go:108-135 | every state of a merge keeps the merge invariant |
| Merger.TieLosesKey | pkg/compaction/merger.go:118-121 | two tables whose merge loses a key that only one of them has, whichever way the tie falls |
| Merger.FirstTableWins | pkg/compaction/merger.go:88-121 | the first pair delivered is that of the lowest-indexed table among those whose first key is least, against the comment in the source |
| Merger.TwoTables | pkg/compaction/merger.go:108-135 | of two tables the one whose entry has waited longer wins a tie, and the other one is dropped |
| Merger.DeliversOne | pkg/compaction/merger.go:88-135 | the tables and their order settle what a merge delivers, ties included |
| Merger.SortedUnique | pkg/compaction/merger.go:108-135 | a strictly increasing output is determined by its pairs |
| Compaction.SortBySize | pkg/compaction/compaction.go:212-217 | what sort.Slice promises: a reordering by size |
| Compaction.SelectSizeTiered | pkg/compaction/compaction.go:207-237 | no group exactly when each sorted size more than doubles its predecessor; else the longest run of up to four tables within twice its first, from the smallest possible first |
| Compaction.GroupOrDoubling | pkg/compaction/compaction.go:212-236 | whether there is a group does not depend on how the sort orders equal sizes |
| Compaction.CloseTo | pkg/compaction/compaction.go:222-229 | the inner loop takes a run of neighbours |
| Compaction.CountLevel0 | pkg/compaction/compaction.go:194-204 | the number of tables at level 0 |
| Compaction.SelectLeveled | pkg/compaction/compaction.go:240-254 | the first four tables at level 0, if there are four |
| Compaction.Level0IsSub | pkg/compaction/compaction.go:240-247 | the tables picked are exactly those at level 0 |
| Compaction.PicksInOrder | pkg/compaction/compaction.go:240-254 | tables are picked, and kept, in their order |
| Compaction.CalculateNewLevel | pkg/compaction/compaction.go:320-330 | exactly one above the highest level, at least 1 |
| Compaction.RoundCount | pkg/compaction/compaction.go:333-352 | a round replaces its group by one table and keeps the others |
| Compaction.QuietBound | pkg/compaction/compaction.go:219-236 | n tables of which no two are similar have a largest size above 2^(n-1) times the smallest, so at most 63 of positive 64-bit sizes |
| Compactor.Compactor.CompactTables | pkg/compaction/compaction.go:257-317 | the new file is the table of what merging the group in its order delivers, which the writer takes whole: a prefix of each table of the group, cut off only at a tie |
| Compactor.Compactor.MergeInto | pkg/compaction/compaction.go:272-294 | the merge loop ends, no merged key is refused, and the writer has exactly what the heap's swaps deliver |
| Compactor.Compactor.RunCompaction | pkg/compaction/compaction.go:152-191 | idle exactly when quiet, failing only for an unknown strategy, else one group of at least two tables is replaced by its merge, of which it is said what survives |
| Compactor.Compactor.RemoveTables | pkg/compaction/compaction.go:333-352 | drops exactly the tables and files of the group |
| Compactor.Compactor.RegisterTable | pkg/compaction/compaction.go:112-125 | appends a table at level 0, and what that needs to keep the tables sound |
| Compactor.RoundInventsNothing | pkg/compaction/compaction.go:152-191 | every pair of a table after a round was in a table before |
| Compactor.RoundLosesAfterTies | pkg/compaction/compaction.go:152-191 | a pair that a round loses stands in a table of the group at or after a key that another table of the group has and delivered |
| Compactor.RoundKeepsBelowShared | pkg/compaction/compaction.go:152-191 | a pair below every key that stands in two tables survives a round, and is still below every such key |
| Compactor.RoundLosesNothing | pkg/compaction/compaction.go:152-191 | when no key stands in two tables, every pair is still in a table |
| Compactor.RoundStaysDisjoint | pkg/compaction/compaction.go:152-191 | and still no key stands in two tables |
| Compactor.RoundStaysSound | pkg/compaction/compaction.go:152-191 | the tables stay distinct, sorted and readable |
| Compactor.RegisteringKeepsSound | pkg/compaction/compaction.go:112-125 | registering a table keeps the tables sound exactly when its path is new and its file sorted and small enough together with the others |
| Compactor.OneTableIsSound | pkg/compaction/compaction.go:112-125 | a disk with one table of one pair is sound |
| Compactor.QuietTables | pkg/compaction/compaction.go:194-237 | quiet tables are few at level 0, or at most 63 with sizes that outgrow the powers of two |
| Compactor.CompactUntilQuiet | pkg/compaction/compaction.go:128-149 | repeated rounds come to rest after at most n-1 of them; no pair is made up; none is lost that stands below every key found in two tables, and none at all when there is no such key |
| Flusher.FlushMemtable | pkg/persistence/flusher.go:85-128 | for entries below 4 GiB, succeeds exactly when running and the enumeration suits the writer; on a refusal the deferred Close leaves a file of the entries before it |
| Flusher.AcceptedIsIncreasing | pkg/persistence/flusher.go:108-114 | for non-empty keys, exactly the strictly increasing enumerations |
| Flusher.FlushedReads | pkg/persistence/flusher.go:85-128 | after a successful flush the file answers like the memtable for every key, but that an empty value reads as deleted |
| Flusher.SomeOrderIsRefused | pkg/memtable/memtable.go:127-143 | every memtable of two or more keys has an enumeration that is refused |
| Lru.TrimIsLongestFit | pkg/cache/lru.go:84-87 | eviction keeps exactly the longest most recent part that fits |
| Lru.PutNewKey | pkg/cache/lru.go:83-106 | a new key that fits stands before exactly the longest most recent part that fits beside it, and the total stays within the limit |
| Lru.PutKnownKey | pkg/cache/lru.go:67-82 | a known key goes to the front with the new value and size and the next version; nothing else moves and nothing is evicted |
| Lru.PutRefused | pkg/cache/lru.go:84-92 | what a refused entry leaves: exactly the longest most recent part beside which it would have fitted |
| Lru.PutLookup | pkg/cache/lru.go:62-107 | after a Put the new value is found, every other key keeps its value or is evicted, and updating evicts nothing |
| Lru.RefusedPutEmpties | pkg/cache/lru.go:83-92 | only an entry larger than the cache is refused, and then the cache is empty |
| Lru.LRUCache.Get | pkg/cache/lru.go:41-59 | finds the value and leaves the order alone |
| Lru.LRUCache.Put | pkg/cache/lru.go:62-107 | makes the transition of the list function; map, list, size and last-Put order stay in step |
| Lru.LRUCache.Invalidate | pkg/cache/lru.go:110-117 | removes the entry of the key, if any, and nothing else |
| Lru.LRUCache.EvictOldest | pkg/cache/lru.go:120-126 | removes the last entry of the list |
| Lru.LRUCache.RemoveElement | pkg/cache/lru.go:129-134 | unlinks one entry from list and map |
| Lru.LRUCache.Clear | pkg/cache/lru.go:137-144 | an empty cache |
| Lru.LRUCache.Resize | pkg/cache/lru.go:192-202 | keeps exactly the longest most recent part that fits the new limit |
| Sharding.OwnerIs | pkg/storage/engine.go:518-523 | the lane of an ID is what is left of its hash when whole rounds over all lanes are taken off |
| Sharding.ShardModel | pkg/storage/engine.go:518-523 | a lane knows of an ID what the log of all writes says if it is the ID's own lane, and nothing otherwise |
| Sharding.OwnerReads | pkg/storage/engine.go:233-269 | the lane an ID hashes to reads its last write; every other lane finds nothing |
| Sharding.LaneIsRunning | pkg/storage/engine.go:182-190 | every lane that took its share of the log is in good order and not stopped |
| Sharding.LaneLists | pkg/storage/engine.go:370-394 | each lane lists exactly what the listed IDs that belong to it are read back as |
| Sharding.WriteStaysSharded | pkg/storage/engine.go:220-230 | a write, or the replay of one, in its own lane keeps every lane where its share of the log takes it |
| Sharding.ShardConcat | pkg/storage/engine.go:518-523 | the shares of a longer log are the shares of its parts, one after the other |
| Sharding.ListedEdges | pkg/storage/engine.go:370-421 | with fresh IDs the listed IDs lead to exactly the edges that were listed for the node |
| Sharding.TidySnoc | pkg/storage/engine.go:311-329 | one more event keeps edge IDs fresh and well formed exactly when the edge it keeps has a new, well-formed ID |
| Sharding.AnchoredSnoc | pkg/storage/engine.go:317-322 | edges go on running between existing nodes |
| Sharding.RecoveryStaysSharded | pkg/storage/engine.go:564-570 | recovering a lane from its own log keeps the lanes sharded |
| Sharding.RestartKeepsReads | pkg/storage/engine.go:564-570 | when every lane recovers, the new lanes hold for each ID what was written last before the restart, also if some writes were turned away |
| EngineReads.SearchExactly | pkg/storage/engine.go:244-268 | whatever is in which lane, the search answers what the own lane has, and otherwise what the first lane has that has any |
| EngineReads.SearchIsLookup | pkg/storage/engine.go:244-268 | searching the own lane and then all others is one lookup in the map of last writes |
| EngineReads.NodeThroughAgrees | pkg/storage/engine.go:233-269 | reading through an agreeing cache is that lookup under any costs and evictions, and the cache goes on agreeing |
| EngineReads.EdgeThroughAgrees | pkg/storage/engine.go:332-367 | the same for edges |
| EngineReads.NodeThroughIs | pkg/storage/engine.go:239-268 | in any state, also with a stale cache: what is cached is returned and the cache left alone; otherwise the last write, which is cached if it finds room |
| EngineReads.EdgeThroughIs | pkg/storage/engine.go:338-366 | the same for edges |
| EngineReads.ReadAllAgrees | pkg/storage/engine.go:384-391 | reading many IDs through an agreeing cache, in any order and whatever it evicts, gives what the map has for them, each once |
| EngineReads.WriteBehindCache | pkg/storage/engine.go:220-230 | a write the cache is not told of keeps it agreeing if and only if the key is not cached or cached with that value |
| EngineReads.InvalidateAgrees | pkg/cache/multilevel.go:209-223 | after an invalidation the key is not cached and the rest still agrees |
| EngineReads.InvalidatedLookup | pkg/cache/multilevel.go:209-223 | in any cache, agreeing or not: the entry of the ID is gone and every other one stays |
| EngineReads.OverlayIs | pkg/graph/types.go:68-72 | updates in any order overlay the properties, count the version once each, set the update time to that of the last, and change nothing else |
| Engine.WriteLanes.WriteNode | pkg/storage/engine.go:220-230 | one lane makes its step and no other lane changes |
| Engine.WriteLanes.WriteEdge | pkg/storage/engine.go:325-328 | one lane makes its step and no other lane changes |
| Engine.WriteLanes.Recover | pkg/storage/engine.go:564-570 | one lane recovers from its log file and no other lane changes |
| Engine.WriteLanes.StopLane | pkg/storage/engine.go:187-190 | one lane stops, with all it has logged in its file, and no other lane changes |
| Engine.WriteLanes.Stop | pkg/storage/engine.go:187-190 | every lane does |
| Engine.Engine.SearchNodes | pkg/storage/engine.go:244-268 | own lane first, then every other lane |
| Engine.Engine.SearchEdges | pkg/storage/engine.go:342-366 | own lane first, then every other lane |
| Engine.Engine.GetNode | pkg/storage/engine.go:233-269 | in any state: a cached node is returned as it is, and otherwise the last write; while nothing stale is cached one lookup in the map of all nodes, and nothing stale gets cached |
| Engine.Engine.GetEdge | pkg/storage/engine.go:332-367 | the same for edges |
| Engine.Engine.CreateNode | pkg/storage/engine.go:220-230 | the outcome is told from the node's own size; the map gains the node exactly when written; the cache stays coherent if and only if it does not hold another node of that ID; edges keep their order |
| Engine.Engine.UpdateNode | pkg/storage/engine.go:272-296 | in any state: what a read gives, overlaid with the updates, at the time of the last, is logged and written, and both caches forget the ID; while nothing stale is cached that is the last write, exactly when there is one |
| Engine.Engine.InvalidateNode | pkg/cache/multilevel.go:209-223 | both tiers drop the ID and nothing else, and go on agreeing |
| Engine.Engine.CreateEdge | pkg/storage/engine.go:311-329 | in any state: refused exactly when reading an end finds nothing, and otherwise told from its own sizes whether it is kept and listed at its source; the edges stay tidy exactly when the ID is new and well formed, and anchored in existing nodes |
| Engine.Engine.ListedIds | pkg/storage/engine.go:375-382 | the union of all lanes' lists is exactly what the listed IDs are read back as |
| Engine.Engine.GetOutgoingEdges | pkg/storage/engine.go:370-394 | the stored edges whose IDs are listed at the node, each once, whatever was written again; for fresh, well-formed IDs exactly the edges listed at this source |
| Engine.Engine.GetIncomingEdges | pkg/storage/engine.go:397-421 | dually for incoming edges |
| Engine.Engine.GetNeighbors | pkg/storage/engine.go:424-478 | the stored nodes at the other end of those edges, each once, in its last version, Both being the union; in any state what reading those edges and nodes through the two caches gives |
| Engine.Engine.Start | pkg/storage/engine.go:149-158 | recovers every lane from its log, fails exactly when running already or when a lane does not recover, and afterwards knows exactly the replay of the files |
| Engine.Engine.Stop | pkg/storage/engine.go:182-190 | refused exactly when not running; afterwards the file of each lane holds what it held and then everything logged |
| Engine.Engine.RecoverLane | pkg/storage/engine.go:564-570 | one lane's replay, of its own IDs only, joins the log of all writes |
| GraphStore.NodeStored | pkg/storage/engine.go:220-296 | a node write changes the store in that node only, and exactly when it was written |
| GraphStore.EdgeStored | pkg/storage/engine.go:311-329 | an edge write changes the store as the edge's own sizes say |
| GraphStore.ListingsAre | pkg/storage/engine.go:370-421 | the index of the store is what the lists in the log give, whatever the IDs |
| GraphStore.ReachedIsAdjacent | pkg/storage/engine.go:424-478 | what the lists lead to in the log is what is adjacent in the store |
| GraphStore.WrittenAgain | pkg/storage/engine.go:311-394 | an edge written again under other ends is still found from its first source, and leads from there where it leads now |
| EngineRuns.PerformOne | pkg/storage/engine.go:220-478 | one operation of any kind: what it answers and what it does to log, store, index and cached IDs is what the state machine says |
| EngineRuns.PerformAll | pkg/storage/engine.go:220-478 | over any run of operations on a running engine, every answer is the one the state machine gives and the engine ends up with its store and index, provided nothing is written under an ID that may be cached; edges may be written again under any IDs; an engine that is not running changes nothing |
| EngineRuns.CreateThenGet | pkg/storage/engine.go:220-269 | what is read right after a node was created, in any state: what was cached under its ID, and the new node only if nothing was |
| EngineRuns.CreateTwice | pkg/storage/engine.go:220-269 | create, read, create again, read: the first version is read while the second is stored, if the first found room in the cache |
| EngineRuns.EdgesInLog | pkg/storage/engine.go:311-421 | over any run, whatever the IDs, the edges of a node in the log are exactly those that its operations were answered to have listed there |
| EngineRuns.EdgesOfRun | pkg/storage/engine.go:311-421 | when edges have IDs of their own, the edges listed after a run are exactly those that its operations created: at the source as told from the operations alone, at the target by their answers |
| EngineRuns.NeighborsOfRun | pkg/storage/engine.go:424-478 | so the outgoing neighbours are told from the operations alone, the incoming ones by their answers |
| EngineRuns.StartOn | pkg/storage/engine.go:69-158 | a new engine on the files of its predecessor starts unless a lane cannot recover, and knows the replay of the files |
| EngineRuns.NeighborsAfterRun | pkg/storage/engine.go:424-478 | end to end: on a new engine, after any run of operations that writes nothing under a cached ID, the answers are those of the state machine from an empty store, and GetNeighbors returns each adjacent node once, in its last version; with edge IDs of their own, exactly along the edges that the operations created |
| EngineRestart.RunStaysStarted | pkg/storage/engine.go:220-478 | over any run, what each lane found when it was opened stays the beginning of its share of the log |
| EngineRestart.LaneFile | pkg/storage/engine.go:182-190 | the file a lane leaves replays what it had found and then all it logged, and every entry belongs to that lane |
| EngineRestart.LaneRestored | pkg/storage/write_lane.go:325-363 | a new lane recovers from such a file exactly when all that was logged fits one table of each kind |
| EngineRestart.SameModelsAfter | pkg/storage/engine.go:564-570 | when every lane recovers, the new engine's maps of nodes and edges are the old ones |
| EngineRestart.FreshByShares | pkg/storage/engine.go:518-523 | edge IDs are fresh in the log exactly when they are in each lane's share |
| EngineRestart.FreshAgain | pkg/storage/engine.go:564-570 | edges keep IDs of their own across a restart |
| EngineRestart.OrderAgain | pkg/storage/engine.go:564-570 | and so well-formed IDs and existing ends |
| EngineRestart.IndexAgain | pkg/storage/write_lane.go:345-353 | after a restart a node lists an edge exactly when its item still finds room in the one table of its lane |
| EngineRestart.Restart | pkg/storage/engine.go:149-217 | end to end: a running engine is stopped and a new one started on its files; it starts exactly when everything each lane has logged fits one table of each kind, and then holds the same nodes and edges, lists at each node those that find room, is in order if the old one was, and meets the requirements again |
| EngineRestart.RunAndRestart | pkg/storage/engine.go:149-478 | end to end, from the operations alone: what a run of operations leaves in an empty store is what the next engine on the files holds, if it starts, which it does exactly when the log of each lane fits one table of each kind |
| Bytes.LessExactly | pkg/compaction/merger.go:49 | Go's order on strings: a strict prefix comes first, and otherwise the smaller byte at the first difference decides |
| Bytes.LessTotal | pkg/compaction/merger.go:49 | this order is total |
| Bytes.LessTransitive | pkg/compaction/merger.go:49 | and transitive |

## Left out

- SstableWriter.Writer.Add: once a key of 4 GiB has been cut or an `Add` has panicked, nothing more is promised of that writer.
- SstableFile.GetCorrect: assumes a file below 2^64 bytes with fewer than 2^32 blocks, whose keys leave room for the 32-bit sums of the index, and a filter that gob decodes to what was encoded.
- SstableFile.ScanCorrect: the same assumptions; the callback is taken never to fail.
- Wal.PrefixReplay: assumes keys and values below 4 GiB, beyond which the length fields are truncated.
- Wal.WAL.Append: standard mode only; Direct I/O with its padding is not modelled, and neither is the background sync.
- Memtable.PutAccounting: sizes are unbounded integers; int64 overflow is not modelled.
- LaneRuns.NodesReadLatest: leaves out removed tables, whose effect LaneReads.RemoveOldReads gives step by step, and replayed deletions, which the engine never logs.
- LaneIndex.IndexOfWellFormed: as a multiset, since an ID written twice is listed twice.
- Recovery.RecoverSucceedsExactly: for writes that reached the log and whose encodings can be read back (lengths below 4 GiB); a crash during recovery is not told apart from one before it.
- WriteLane.CrashAndRecover: for a log file without a torn tail, whose effect is the subject of Wal.AppendedReplay.
- Merger.MergeEnds: the inputs are strictly increasing, as files from the writer are.
- Merger.Scanner.Advance: opens its table when it first scans it, not when the merge is set up; a table that does not open, or whose scan fails or would panic, counts as empty.
- Compactor.Compactor.RunCompaction: each output path is new, the clock in the name being taken to advance, and every sorted list of the tables' pairs is taken to fit a file.
- Compaction.SelectSizeTiered: twice a size is taken not to overflow an int64.
- Compaction.SortBySize: an insertion sort in place of sort.Slice; callers use nothing but its contract.
- Flusher.FlushMemtable: of entries of 4 GiB or more only the writer's outcome is known; no I/O errors.
- SstableWriter.WriteTable: likewise says nothing of entries of 4 GiB or more.
- Lru.LRUCache.Put: list elements are records that map and list both hold, not shared pointers; hit, miss and eviction counters are not kept.
- Engine.Engine.GetNeighbors: with something stale cached, told as reads through the caches; edges whose write did not list them are not among the neighbours.
- EngineRuns.PerformAll: says what a run answers only as long as it writes nothing under an ID that may be cached (one that was read since its last update); the exact condition for each operation is that of Engine.Engine.CreateNode and Engine.Engine.CreateEdge, and EngineRuns.CreateThenGet says what is read otherwise. Which of the two full answers an edge gets, with or without its target, depends on the room left there (LaneHealth.EdgeStepOutcome).
- EngineRestart.Restart: for logged writes that encode to less than 4 GiB, which only a refused one can exceed; the stopped engine is not started again itself, and flushed files play no part, as `recover` never reads them.
- Engine.Engine.GetNode: for at least one lane and memtables of 1 byte to 4 GiB; the error results of NewEngine for other configurations are left out, and so are removed tables, as for lanes.
- Engine.Engine.CreateEdge: a new edge under a cached ID leaves the old edge in the cache, and what a run then answers is not told beyond the single reads.
- Engine.Engine.Start: for log files whose entries are writes of IDs that hash to the lane, as an engine with the same number of lanes leaves them (EngineRestart.LaneFile); the start and stop of the background flusher and compactor are left out.
- Engine.Engine.UpdateNode: the connection tier, which the engine never fills, is not part of the cache model, and neither are version counters of the cache.
- Newest-wins across compacted tables: the code does not keep it, since groups are picked by size and tombstones are dropped by Scan.
- WriteLane.Tables groups the active table and the old ones of one kind, which are separate fields of the source.
- CRC32, the bits of the bloom filter, the gob form of a filter, FNV-1a and the size estimates of cache entries are arbitrary functions.
- Cloning is the identity on values, so aliasing between callers and the cache is not modelled; nil and empty maps are one.
- Files are byte sequences: mmap, fsync, rename, directories and I/O errors are left out.
- Goroutines, tickers, channels, locks and truly concurrent writers: operations are atomic steps.
- The manifest, statistics, `DeleteNode` (not implemented in the source), and cache warm-up would only add easy members.
