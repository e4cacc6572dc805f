# kv_store_exp in Dafny

This project models the two key-value stores of `kv_store_exp` and proves
properties of the models.

**SimpleKV.** `StorageEngine` in `simple/src/SimpleKVEngine.java` keeps an
append-only log of records. Each record is `[type][klen][vlen][key][value]`,
where type 0 is a put and type 1 a tombstone. The engine also keeps an
in-memory index from each key to the offset of its last record, and a side
file `index.db` of `key\toffset` lines. At start-up the side file is
reloaded. When it is missing or unreadable, the index is rebuilt by scanning
the log, and the side file is rewritten in ascending key order.

The model is a class:

- the log is a `seq<Byte>`;
- the index is a `map<string, int>`;
- the side file is an `Option<string>`;
- a ghost history holds the records the log is made of.

What it proves:

- Put, delete and batchPut append exactly the encoded records.
- Get-after-put and get-after-delete hold.
- The incremental index equals the index the start-up scan rebuilds.
- The side file, whether written line by line or rewritten in sorted order,
  reloads to the in-memory index.

**LSMKV.** `StorageEngine` in `LSMKV/src/main/java/lsmkv/engine` checks the
engine's state and validates keys, then queues writes as tasks on a bounded
`WriteQueue`. It also writes through to an optional in-memory `Replicator`,
and reads from its `MemTable` or, failing that, from the replicator. No code
in the repository takes a task off the queue, so the memtable stays empty.
Reads therefore see only what the replicator holds:

- a `delete` is queued but never reaches the replicator, so a `get` after it
  still returns the old value;
- with no replicator, a `get` fails, wrapped as an `IOException`.

The model states all of this outright. Each operation is proved against its
error paths: closed, not started, and a key that is empty or longer than 1024
UTF-16 units after trimming. `close` runs three steps, and any of them may
fail; the model proves the exception it reports, with the later failures
added as suppressed ones. The handler `BatchHandler` builds the JSON reply of
a batch GET. It also has two hand-written body readers, `parseJsonToMap` and
`parseJsonLike`. The model proves that each reader reads a GET reply back
when its conditions hold: for `parseJsonToMap`, keys without a colon and
values without a comma; for `parseJsonLike`, keys and values without a
comma, colon or quote. It does not prove that a reply breaking a condition
fails to read back.

Modules:

- `SimpleLog`: record format and log semantics.
- `SimpleIndexFile`: the side file.
- `SimpleEngine`: the SimpleKV engine.
- `LsmMemTable`, `LsmWriteQueue`, `LsmReplicator` and `LsmEngine`: the LSMKV
  engine and its parts.
- `LsmBatchHandler`: the batch handler's text handling.
- `JavaText`, `JavaString`, `JavaNumber`, `JavaReader` and `Utf8`: the Java
  library behaviour the code relies on. This covers `trim`, `split`,
  `replaceAll`, `compareTo`, `Long.parseLong`/`toString`, `readLine` and
  UTF-8.

## Model

| member | source | states |
|---|---|---|
| SimpleLog.DecodeEncodeInt32 | simple/src/SimpleKVEngine.java:207 | an `int` written by `putInt` reads back as itself |
| SimpleLog.EncodeDecodeInt32 | simple/src/SimpleKVEngine.java:318-319 | any four bytes `readInt` reads are the encoding of the value read |
| SimpleLog.DecodeEncodeHeader | simple/src/SimpleKVEngine.java:206-207 | a header whose lengths are `int`s reads back unchanged |
| SimpleLog.EncodeDecodeHeader | simple/src/SimpleKVEngine.java:347-352 | any nine bytes are the encoding of the header they decode to |
| SimpleLog.EncodeRecord | simple/src/SimpleKVEngine.java:205-211 | a record takes exactly header, key and value bytes |
| SimpleLog.ReadValueAt | simple/src/SimpleKVEngine.java:344-361 | a negative position or a short header is an error; a tombstone gives `null`; a negative `vlen` or value position is an error; a value is the `vlen` bytes after the key, zero-filled past the end of the log |
| SimpleLog.ReadValueAtRecord | simple/src/SimpleKVEngine.java:344-357 | at a record's start, `readValueAt` gives its value, or `null` for a tombstone (line 354), whatever surrounds it |
| SimpleLog.ReadValueAtFrame | simple/src/SimpleKVEngine.java:344-357 | the same, for any key and value bytes framed by a header |
| SimpleLog.Parse | simple/src/SimpleKVEngine.java:312-327 | a log that parses is exactly the encoding of the parsed records |
| SimpleLog.ParseEncodeAll | simple/src/SimpleKVEngine.java:205-211 | round trip: parsing an encoded log gives the records back |
| SimpleLog.LookupSnoc | simple/src/SimpleKVEngine.java:213-236 | get after put and get after delete: the last record decides its key and leaves every other key alone |
| SimpleLog.AppendKeepsIndex | simple/src/SimpleKVEngine.java:204-213 | appending a record keeps the log well formed and indexes its key at the old end of the log |
| SimpleLog.IndexOfLast | simple/src/SimpleKVEngine.java:213 | a key is indexed iff some record has it, at the offset of its last record |
| SimpleLog.ReadIndexed | simple/src/SimpleKVEngine.java:218-223 | reading at an indexed offset gives the key's current value |
| SimpleLog.IndexOfIsIndexFrom | simple/src/SimpleKVEngine.java:312-327 | the incremental index equals the front-to-back fold the scan performs |
| SimpleLog.StepInLog | simple/src/SimpleKVEngine.java:313-326 | one turn of the scan reads record `i`'s key at its offset and moves to the next record |
| SimpleLog.ScanFrom | simple/src/SimpleKVEngine.java:312-327 | scanning from record `i` folds that record and every later one |
| SimpleLog.RebuildMatchesIncremental | simple/src/SimpleKVEngine.java:308-327 | on a well-formed log the scan completes and rebuilds exactly the incremental index |
| SimpleIndexFile.ParseLine | simple/src/SimpleKVEngine.java:291-295 | an accepted line has a non-empty key and a `long` offset |
| SimpleIndexFile.LoadIndex | simple/src/SimpleKVEngine.java:286-306 | a loaded index has every offset below the log size (the sanity check of lines 300-305) |
| SimpleIndexFile.ParseEntryText | simple/src/SimpleKVEngine.java:277 | a written line parses back to its key and offset, even when the key holds tabs |
| SimpleIndexFile.ParseEmptyKey | simple/src/SimpleKVEngine.java:293 | a line for the empty key is skipped |
| SimpleIndexFile.LinesSnoc | simple/src/SimpleKVEngine.java:277-278 | appending a line adds exactly that line to what `readLine` returns |
| SimpleIndexFile.FileLoadsSnoc | simple/src/SimpleKVEngine.java:274-284 | one appended line updates the reloaded index as `index.put(key, offset)` does |
| SimpleIndexFile.LoadAfterAppend | simple/src/SimpleKVEngine.java:274-284 | lines appended for more records reload to the index of all records |
| SimpleIndexFile.LoadAppendedFile | simple/src/SimpleKVEngine.java:286-306 | a file written only by appends reloads to the incremental index and passes the sanity check |
| SimpleIndexFile.EmptyKeyLineSkipped | simple/src/SimpleKVEngine.java:291-293 | a record for the empty key leaves the reloaded index unchanged |
| SimpleIndexFile.LoadRenderedLines | simple/src/SimpleKVEngine.java:333-336 | the rewritten lines load to the index restricted to the keys listed |
| SimpleIndexFile.RenderedLoads | simple/src/SimpleKVEngine.java:332-338 | the rewritten file reloads to the index it was written from |
| SimpleIndexFile.LoadRendered | simple/src/SimpleKVEngine.java:286-306 | restart from the rewritten file gives back that index |
| SimpleEngine.BatchRecords | simple/src/SimpleKVEngine.java:247-252 | one put record per entry, a `null` value written as empty |
| SimpleEngine.FitCount | simple/src/SimpleKVEngine.java:250-252 | the records written before a key too long to encode stops the batch |
| SimpleEngine.BatchNext | simple/src/SimpleKVEngine.java:247-258 | one turn of the batch loop appends the record, indexes it at the end of the log and appends its line |
| SimpleEngine.TakeLeast | simple/src/SimpleKVEngine.java:334 | taking the least remaining key keeps the listed keys ascending, ahead of the rest and a partition of the index |
| SimpleEngine.RewrittenLoads | simple/src/SimpleKVEngine.java:331-338 | the rebuilt side file reloads to the index it was written from |
| SimpleEngine.StorageEngine.constructor | simple/src/SimpleKVEngine.java:173-177 | nothing is loaded; the history is the parse of the log on disk |
| SimpleEngine.StorageEngine.Start | simple/src/SimpleKVEngine.java:179-192 | load the side file, or rebuild when it is missing or fails; on a well-formed log the index is the incremental index |
| SimpleEngine.StorageEngine.Put | simple/src/SimpleKVEngine.java:200-216 | empty or unencodable key fails with no change; otherwise one put record appended and indexed, validity and side-file agreement preserved |
| SimpleEngine.StorageEngine.Delete | simple/src/SimpleKVEngine.java:225-239 | the same with a tombstone; afterwards `get` returns `null` |
| SimpleEngine.StorageEngine.AppendRecord | simple/src/SimpleKVEngine.java:204-214 | the record's bytes at the end, `index.put(key, pos)`, its line appended |
| SimpleEngine.StorageEngine.Get | simple/src/SimpleKVEngine.java:218-223 | the value at the indexed offset, `null` when unindexed; on a valid engine the key's current value |
| SimpleEngine.StorageEngine.BatchPut | simple/src/SimpleKVEngine.java:242-262 | appends the batch's records in order, each indexed at its own start; validity and side-file agreement preserved |
| SimpleEngine.StorageEngine.AppendBatchEntry | simple/src/SimpleKVEngine.java:248-258 | one turn of the batch loop on the engine's fields |
| SimpleEngine.StorageEngine.RangeIndex | simple/src/SimpleKVEngine.java:265-269 | exactly the indexed keys between the bounds, both included; an error when start sorts after end |
| SimpleEngine.StorageEngine.RangeReadsValues | simple/src/SimpleKVEngine.java:265-269 | every offset in a range reads back its key's value |
| SimpleEngine.StorageEngine.LoadIndexFile | simple/src/SimpleKVEngine.java:286-306 | the result is `LoadIndex` of the file and becomes the index |
| SimpleEngine.StorageEngine.RebuildIndexFromLog | simple/src/SimpleKVEngine.java:308-342 | the index the scan builds, and the side file rewritten from it |
| SimpleEngine.StorageEngine.RenderSorted | simple/src/SimpleKVEngine.java:333-336 | the index's lines in ascending `compareTo` order |
| JavaNumber.ParseLong | simple/src/SimpleKVEngine.java:295 | an accepted string's value is within `long` range |
| JavaNumber.ParseLongToString | simple/src/SimpleKVEngine.java:295 | `Long.parseLong` reads back the offset `Long.toString` wrote at line 277 |
| JavaNumber.ParseLongRejects | simple/src/SimpleKVEngine.java:295 | a non-digit after the sign is refused |
| JavaReader.Lines | simple/src/SimpleKVEngine.java:290 | no line returned by `readLine` holds a terminator |
| JavaReader.LinesAppend | simple/src/SimpleKVEngine.java:290 | text ending in a complete line is read line by line independently of what follows |
| JavaString.CmpFlip | LSMKV/src/main/java/lsmkv/replication/Replicator.java:55 | swapping `compareTo`'s operands negates the result |
| JavaString.LessEqTotal | simple/src/SimpleKVEngine.java:170 | `compareTo` orders any two strings |
| JavaString.LessEqTrans | simple/src/SimpleKVEngine.java:170 | `compareTo` order is transitive |
| JavaString.MinExists | simple/src/SimpleKVEngine.java:334 | every non-empty key set has a least key, the first a `TreeMap` iterates |
| Utf8.DecodeEncode | simple/src/SimpleKVEngine.java:322 | decoding a key's UTF-8 bytes gives the key back |
| Utf8.EncodeInjective | simple/src/SimpleKVEngine.java:207 | distinct keys have distinct UTF-8 bytes |
| JavaText.TrimSpec | LSMKV/src/main/java/lsmkv/engine/StorageEngine.java:212 | `trim` removes exactly the leading and trailing characters up to U+0020 |
| JavaText.TrimIdempotent | LSMKV/src/main/java/lsmkv/engine/StorageEngine.java:212 | trimming twice is trimming once |
| JavaText.SplitSpec | LSMKV/src/main/java/lsmkv/network/handlers/BatchHandler.java:72 | `split` pieces hold no separator and are the fields with trailing empty ones dropped |
| JavaText.SplitJoin | LSMKV/src/main/java/lsmkv/network/handlers/BatchHandler.java:72 | splitting a join of separator-free pieces, the last non-empty, gives the pieces |
| JavaText.SplitFirst | LSMKV/src/main/java/lsmkv/network/handlers/BatchHandler.java:174 | `split(":", 2)` cuts at the first colon, or returns the whole string when there is none |
| JavaText.RemoveAllAppend | LSMKV/src/main/java/lsmkv/network/handlers/BatchHandler.java:156-157 | removing quotes distributes over concatenation |
| JavaText.StripOuterQuotesWrapped | LSMKV/src/main/java/lsmkv/network/handlers/BatchHandler.java:176-177 | `replaceAll("^\"\|\"$", "")` on a quoted text gives the text |
| JavaText.StripOuterQuotesBeforeTerminator | LSMKV/src/main/java/lsmkv/network/handlers/BatchHandler.java:176-177 | for any text not starting with a quote and any line terminator, `$` also matches before the final terminator, so the quote before it is removed and the terminator kept |
| LsmMemTable.MemTable.Get | LSMKV/src/main/java/lsmkv/engine/MemTable.java:13-15 | the stored value, `null` exactly when the key is absent |
| LsmMemTable.MemTable.Put | LSMKV/src/main/java/lsmkv/engine/MemTable.java:9-11 | get after put gives the value; other keys unchanged |
| LsmMemTable.MemTable.Delete | LSMKV/src/main/java/lsmkv/engine/MemTable.java:17-19 | get after delete gives `null`; other keys unchanged |
| LsmMemTable.MemTable.RecoverFromWAL | LSMKV/src/main/java/lsmkv/engine/MemTable.java:21-23 | replays nothing: the table is unchanged |
| LsmWriteQueue.WriteQueue.constructor | LSMKV/src/main/java/lsmkv/backpressure/WriteQueue.java:10-12 | an empty queue of the given capacity |
| LsmWriteQueue.WriteQueue.Enqueue | LSMKV/src/main/java/lsmkv/backpressure/WriteQueue.java:14-16 | `offer`: appended at the tail when there is room, silently dropped when full; never over capacity |
| LsmWriteQueue.WriteQueue.Shutdown | LSMKV/src/main/java/lsmkv/backpressure/WriteQueue.java:18-20 | the queue is emptied |
| LsmReplicator.NonNullPrefix | LSMKV/src/main/java/lsmkv/replication/Replicator.java:31-34 | the entries `putAll` stores before the first `null` value |
| LsmReplicator.InRangeOrdered | LSMKV/src/main/java/lsmkv/replication/Replicator.java:55 | a key in range forces start to sort at or before end |
| LsmReplicator.Replicator.Get | LSMKV/src/main/java/lsmkv/replication/Replicator.java:26-28 | the stored value, `null` exactly when absent |
| LsmReplicator.Replicator.Put | LSMKV/src/main/java/lsmkv/replication/Replicator.java:20-23 | get after put gives the value; other keys unchanged |
| LsmReplicator.Replicator.PutBatch | LSMKV/src/main/java/lsmkv/replication/Replicator.java:31-34 | entries before the first `null` stored, nothing else changed; NPE iff a `null` value exists |
| LsmReplicator.Replicator.GetBatch | LSMKV/src/main/java/lsmkv/replication/Replicator.java:37-45 | exactly the requested keys that are stored, with their values |
| LsmReplicator.Replicator.GetRange | LSMKV/src/main/java/lsmkv/replication/Replicator.java:51-60 | exactly the stored keys between the bounds, both inclusive; empty when start sorts after end |
| LsmEngine.ValidatedKey | LSMKV/src/main/java/lsmkv/engine/StorageEngine.java:210-217 | an accepted key is the non-empty trimmed middle of the input, and validating it again accepts it unchanged |
| LsmEngine.ValidateAll | LSMKV/src/main/java/lsmkv/engine/StorageEngine.java:273-274 | all keys valid iff success, with each validated key in order |
| LsmEngine.ValidateAllFirstError | LSMKV/src/main/java/lsmkv/engine/StorageEngine.java:273-274 | a failure is the error of the first invalid key, all before it valid |
| LsmEngine.Wrap | LSMKV/src/main/java/lsmkv/engine/StorageEngine.java:223-227 | the first exception is kept, with the next one added as suppressed |
| LsmEngine.FailingInOrder | LSMKV/src/main/java/lsmkv/engine/StorageEngine.java:173-189 | the failing steps in the order close runs them |
| LsmEngine.WrapReported | LSMKV/src/main/java/lsmkv/engine/StorageEngine.java:176-188 | wrapping one more failure extends the reported exception |
| LsmEngine.CloseReport | LSMKV/src/main/java/lsmkv/engine/StorageEngine.java:191 | close throws iff some step failed |
| LsmEngine.StorageEngine.Create | LSMKV/src/main/java/lsmkv/engine/StorageEngine.java:36-50 | an `IOException` iff the queue capacity is below 1; otherwise a fresh engine, not started, not closed, empty queue |
| LsmEngine.StorageEngine.EnsureNotClosed | LSMKV/src/main/java/lsmkv/engine/StorageEngine.java:204-208 | fails iff closed, with "StorageEngine is closed" |
| LsmEngine.StorageEngine.EnsureReady | LSMKV/src/main/java/lsmkv/engine/StorageEngine.java:197-202 | passes iff started and not closed; closed is reported first |
| LsmEngine.StorageEngine.Start | LSMKV/src/main/java/lsmkv/engine/StorageEngine.java:53-77 | closed fails; a second start is a no-op; otherwise `started` is set even when opening the WAL or starting the compactor fails |
| LsmEngine.StorageEngine.Close | LSMKV/src/main/java/lsmkv/engine/StorageEngine.java:167-193 | the first close reports the first failing step with the later ones suppressed and clears the queue; a later close does nothing |
| LsmEngine.StorageEngine.Visible | LSMKV/src/main/java/lsmkv/engine/StorageEngine.java:125-128 | with the memtable empty, a read sees the replicator's value |
| LsmEngine.StorageEngine.Get | LSMKV/src/main/java/lsmkv/engine/StorageEngine.java:120-132 | readiness and key errors first; then the replicator's value, or a wrapped failure when there is no replicator |
| LsmEngine.StorageEngine.Put | LSMKV/src/main/java/lsmkv/engine/StorageEngine.java:79-118 | errors change nothing; otherwise a put task offered with the trimmed key, the replicator updated, and a later get returns the value |
| LsmEngine.StorageEngine.Delete | LSMKV/src/main/java/lsmkv/engine/StorageEngine.java:134-165 | errors change nothing; otherwise a delete task offered; a later get returns what it returned before |
| LsmEngine.StorageEngine.PutBatch | LSMKV/src/main/java/lsmkv/engine/StorageEngine.java:229-266 | fails only when not ready; otherwise one batch task offered with unvalidated keys and the replicator's `putAll` applied |
| LsmEngine.StorageEngine.GetBatch | LSMKV/src/main/java/lsmkv/engine/StorageEngine.java:268-296 | fails at the first invalid key; otherwise exactly the trimmed keys with a visible value, with that value |
| LsmEngine.StorageEngine.GetRange | LSMKV/src/main/java/lsmkv/engine/StorageEngine.java:298-309 | the replicator's inclusive range, or an empty map with no replicator |
| LsmBatchHandler.CollectKeys | LSMKV/src/main/java/lsmkv/network/handlers/BatchHandler.java:173-180 | the parsed map holds exactly the keys of the pairs read |
| LsmBatchHandler.CollectLast | LSMKV/src/main/java/lsmkv/network/handlers/BatchHandler.java:178 | a key maps to the value of its last pair |
| LsmBatchHandler.QueryKeys | LSMKV/src/main/java/lsmkv/network/handlers/BatchHandler.java:58-72 | the two 400 replies, otherwise comma-free keys |
| LsmBatchHandler.QueryKeysJoin | LSMKV/src/main/java/lsmkv/network/handlers/BatchHandler.java:65-72 | `keys=` and comma-joined keys give those keys back |
| LsmBatchHandler.UnescapeEscape | LSMKV/src/main/java/lsmkv/network/handlers/BatchHandler.java:94 | the quote escaping loses nothing |
| LsmBatchHandler.GetReply | LSMKV/src/main/java/lsmkv/network/handlers/BatchHandler.java:56-106 | the 400 reply of a bad query, otherwise 200 with members joined by commas in braces |
| LsmBatchHandler.RenderStep | LSMKV/src/main/java/lsmkv/network/handlers/BatchHandler.java:88-100 | one turn appends one member and, unless last, a comma |
| LsmBatchHandler.StripBraces | LSMKV/src/main/java/lsmkv/network/handlers/BatchHandler.java:168-170 | trim, then drop one leading `{` and one trailing `}` when present |
| LsmBatchHandler.ParseJsonToMap | LSMKV/src/main/java/lsmkv/network/handlers/BatchHandler.java:164-183 | the pieces with a colon become entries, the last pair for a key winning |
| LsmBatchHandler.MapPairOfMember | LSMKV/src/main/java/lsmkv/network/handlers/BatchHandler.java:174-178 | a member reads back as its key and value text |
| LsmBatchHandler.ParseGetReply | LSMKV/src/main/java/lsmkv/network/handlers/BatchHandler.java:164-183 | a GET reply reads back as its keys with the bytes of their wire values, given colon-free keys and comma-free values |
| LsmBatchHandler.ParseJsonLike | LSMKV/src/main/java/lsmkv/network/handlers/BatchHandler.java:147-163 | nothing unless braced; otherwise pieces splitting into exactly two parts become entries |
| LsmBatchHandler.LikePairOfMember | LSMKV/src/main/java/lsmkv/network/handlers/BatchHandler.java:154-158 | a member with no colon or quote in it reads back as key and value |
| LsmBatchHandler.ParseLikeGetReply | LSMKV/src/main/java/lsmkv/network/handlers/BatchHandler.java:147-163 | a GET reply without commas, colons or quotes in keys and values reads back as its keys and values |

## Left out

- I/O: the log, the side file, the WAL and the HTTP exchange are values.
  There is no `fsync`, no crash in the middle of a write, and no I/O error
  except those named below.
- Concurrency: `writeLock`, the atomics and the concurrent maps are modelled
  as single-threaded state.
- `null` keys and `null` Java references in general. A `null` value is an
  `Option`.
- SimpleKV's `appendIndexEntry` swallows its `IOException`. The model
  assumes the append succeeds, so a missed side-file line is not modelled.
- SimpleKV's log size is never at or above 2^63. The side-file lemmas
  require the offsets to be `long`s.
- SimpleKV keys that are empty or hold a line terminator are lost from the
  side file on reload. This is proved for the empty key (EmptyKeyLineSkipped
  and ParseEmptyKey). Side-file agreement is stated only for keys free of
  both.
- `Long.parseLong` accepts non-ASCII Unicode digits. The model accepts only
  ASCII digits.
- Keys and values are strings of Unicode scalar values. A Java `String`
  with an unpaired surrogate is not modelled: `getBytes(UTF_8)` writes it as
  `?`, so two distinct Java keys can share key bytes. Utf8.DecodeEncode and
  Utf8.EncodeInjective hold for the strings the model can represent.
- SimpleEngine.StorageEngine.RangeIndex returns an unordered snapshot map;
  `subMap` returns a sorted live view of the index.
- UTF-8 decoding replaces each malformed byte with U+FFFD. Java replaces a
  maximal malformed subpart, so the two differ on malformed input only.
- SimpleLog.Scan: for a value length so negative that the next position would
  not move forward, Java seeks backwards or loops. The scan stops with an
  error instead.
- The LSMKV WAL, SSTable and Compactor are stubs. Start and Close take their
  failures as parameters, and nothing runs a queued task. Recovery from the
  WAL is the memtable's no-op.
- LsmEngine.StorageEngine.Put: `replicator.put` cannot throw with a non-null
  key and value, so the warning path is not modelled.
- LsmEngine.StorageEngine.PutBatch: the replicator's `NullPointerException`
  is printed and swallowed, so the outcome does not report it. The order of
  a Java `Map` is the order of the entries sequence.
- LsmWriteQueue.WriteQueue.constructor requires capacity 1 or more. A
  smaller capacity makes `ArrayBlockingQueue` throw; that failure is
  modelled at LsmEngine.StorageEngine.Create.
- LsmBatchHandler.GetReply: `engine.get` and the UTF-8 decoding of its result
  are the `lookup` parameter. This includes the `"ERROR: "` text for a
  failed read.
- The POST and DELETE branches of `BatchHandler`, the status-code transport
  and the response headers are not modelled.
