/** The SimpleKV `StorageEngine`: an append-only log (`store.log`), the
    in-memory `TreeMap` from key to record offset, and the index side-file
    (`index.db`). The two files are fields holding their contents; `start`
    loads the side-file or rebuilds the index by scanning the log. */
module SimpleEngine {
  import opened Wrappers
  import opened Bytes
  import Utf8
  import opened SimpleLog
  import F = SimpleIndexFile
  import JavaNumber
  import JavaReader
  import JavaString
  import SeqFacts

  /** Why `put`, `delete` or `batchPut` throws before writing anything: an
      empty key (`IllegalArgumentException`), or a key whose UTF-8 bytes do
      not fit in a Java array. */
  datatype WriteError = EmptyKey | KeyTooLong

  /** `TreeMap.subMap` refuses a start key above the end key. */
  datatype RangeError = StartAfterEnd

  predicate KeyFits(key: string) {
    |Utf8.Encode(key)| <= MaxArrayLength
  }

  /** The records `batchPut` appends, one put per entry, a `null` value
      written as an empty one. */
  function BatchRecords(entries: seq<(string, Option<JBytes>)>): (rs: seq<Record>)
    ensures |rs| == |entries|
    ensures forall i :: 0 <= i < |rs| ==> rs[i] == PutRecord(entries[i].0, entries[i].1.GetOr([]))
  {
    seq(|entries|, i requires 0 <= i < |entries| => PutRecord(entries[i].0, entries[i].1.GetOr([])))
  }

  /** How many records, from the front, `batchPut` writes before a key too
      long to encode stops it. */
  function FitCount(rs: seq<Record>): (n: nat)
    ensures n <= |rs| && AllEncodable(rs[..n])
    ensures n < |rs| ==> !Encodable(rs[n])
    decreases |rs|
  {
    if rs == [] || !Encodable(rs[0]) then 0
    else
      var m := FitCount(rs[1..]);
      assert rs[..m + 1] == [rs[0]] + rs[1..][..m];
      m + 1
  }

  lemma {:induction false} FitCountAt(rs: seq<Record>, i: nat)
    requires i <= |rs| && AllEncodable(rs[..i]) && (i < |rs| ==> !Encodable(rs[i]))
    ensures FitCount(rs) == i
    decreases i
  {
    if i > 0 {
      assert rs[..i][0] == rs[0];
      assert rs[1..][..i - 1] == rs[..i][1..];
      FitCountAt(rs[1..], i - 1);
    }
  }

  /** The records a `batchPut` of `entries` writes. */
  function BatchWritten(entries: seq<(string, Option<JBytes>)>): seq<Record> {
    var recs := BatchRecords(entries);
    recs[..FitCount(recs)]
  }

  /** The engine's fields after the first records `done` of a batch that
      started from `log0`, `index0`, `file0` and `history0`. */
  ghost predicate BatchState(log: seq<Byte>, index: map<string, int>, file: Option<string>, history: seq<Record>,
                             log0: seq<Byte>, index0: map<string, int>, file0: Option<string>,
                             history0: seq<Record>, done: seq<Record>)
  {
    && AllEncodable(done)
    && log == log0 + EncodeAll(done)
    && index == IndexFrom(done, |log0|, index0)
    && file == (if done == [] then file0 else Some(file0.GetOr([]) + F.AppendedLines(done, |log0|)))
    && history == history0 + done
  }

  /** One turn of the `batchPut` loop, on the log, the index and the
      side-file: appending a record's bytes, indexing it at the end of the
      log, and appending its line extend the batch by that record. */
  lemma BatchNext(log: seq<Byte>, index: map<string, int>, file: Option<string>, history: seq<Record>,
                  log0: seq<Byte>, index0: map<string, int>, file0: Option<string>,
                  history0: seq<Record>, done: seq<Record>, rec: Record)
    requires Encodable(rec) && BatchState(log, index, file, history, log0, index0, file0, history0, done)
    ensures BatchState(log + EncodeRecord(rec), index[rec.key := |log|],
                       Some(file.GetOr([]) + F.IndexLine(rec.key, |log|)), history + [rec],
                       log0, index0, file0, history0, done + [rec])
  {
    var text0 := file0.GetOr([]);
    var line := F.IndexLine(rec.key, |log0| + |EncodeAll(done)|);
    AllEncodableSnoc(done, rec);
    EncodeAllSnoc(done, rec);
    SeqFacts.Assoc(log0, EncodeAll(done), EncodeRecord(rec));
    IndexFromStep(done, rec, |log0|, index0);
    F.AppendedLinesSnoc(done, rec, |log0|);
    SeqFacts.Assoc(history0, done, [rec]);
    if done == [] {
      assert F.AppendedLines(done + [rec], |log0|) == line;
    } else {
      SeqFacts.Assoc(text0, F.AppendedLines(done, |log0|), line);
    }
  }

  lemma GoodKeysPrefix(rs: seq<Record>, n: nat)
    requires n <= |rs| && F.AllGoodKeys(rs)
    ensures F.AllGoodKeys(rs[..n])
  {
    assert forall j :: 0 <= j < n ==> rs[..n][j] == rs[j];
  }

  /** `keys` lists the keys of `m` once each, in `String.compareTo` order:
      the order in which a `TreeMap` iterates them. */
  predicate SortedKeys(keys: seq<string>, m: map<string, int>) {
    && (forall i :: 0 <= i < |keys| ==> keys[i] in m)
    && (forall k :: k in m ==> k in keys)
    && Ascending(keys)
  }

  /** Distinct keys in `String.compareTo` order. */
  predicate Ascending(keys: seq<string>) {
    forall i, j :: 0 <= i < j < |keys| ==> keys[i] != keys[j] && JavaString.LessEq(keys[i], keys[j])
  }

  /** Every key listed comes before every key of `rest`. */
  predicate ListedFirst(keys: seq<string>, rest: set<string>) {
    forall i, k :: 0 <= i < |keys| && k in rest ==> JavaString.LessEq(keys[i], k)
  }

  /** The keys of `m` are split between those listed, once each, and the
      set `rest` still to be listed. */
  predicate Partition(keys: seq<string>, rest: set<string>, m: map<string, int>) {
    && rest <= m.Keys
    && (forall i :: 0 <= i < |keys| ==> keys[i] in m && keys[i] !in rest)
    && (forall x :: x in m ==> x in keys || x in rest)
  }

  /** Taking the least remaining key keeps the listed keys ascending and
      ahead of the rest. */
  lemma TakeLeast(keys: seq<string>, rest: set<string>, m: map<string, int>, k: string)
    requires Ascending(keys) && ListedFirst(keys, rest) && Partition(keys, rest, m)
    requires k in rest && forall j :: j in rest ==> JavaString.LessEq(k, j)
    ensures Ascending(keys + [k]) && ListedFirst(keys + [k], rest - {k}) && Partition(keys + [k], rest - {k}, m)
  {
    var ks := keys + [k];
    forall i, j | 0 <= i < j < |ks| ensures ks[i] != ks[j] && JavaString.LessEq(ks[i], ks[j]) {
      if j == |keys| {
        assert ks[i] == keys[i] && ks[j] == k;
      } else {
        assert ks[i] == keys[i] && ks[j] == keys[j];
      }
    }
    forall i, j | 0 <= i < |ks| && j in rest - {k} ensures JavaString.LessEq(ks[i], j) {
      if i < |keys| {
        assert ks[i] == keys[i];
      }
    }
    forall i | 0 <= i < |ks| ensures ks[i] in m && ks[i] !in rest - {k} {
      if i < |keys| {
        assert ks[i] == keys[i];
      }
    }
    forall x | x in m ensures x in ks || x in rest - {k} {
      if x in keys {
        var i :| 0 <= i < |keys| && keys[i] == x;
        assert ks[i] == x;
      }
    }
  }

  /** `text` is the side-file the rebuild writes for the index `m`. */
  ghost predicate RewrittenFrom(text: string, m: map<string, int>) {
    exists keys :: SortedKeys(keys, m) && text == F.Render(keys, m)
  }

  /** Every key of the incremental index is the key of some record and
      every offset lies in the log: what makes the rewritten file readable. */
  lemma IndexOfEntries(rs: seq<Record>)
    requires F.AllGoodKeys(rs) && JavaNumber.IsLong(|EncodeAll(rs)|)
    ensures forall k :: k in IndexOf(rs) ==> F.GoodKey(k) && JavaNumber.IsLong(IndexOf(rs)[k])
  {
    F.IndexInsideLog(rs);
    forall k | k in IndexOf(rs) ensures F.GoodKey(k) && JavaNumber.IsLong(IndexOf(rs)[k]) {
      IndexOfLast(rs, k);
    }
  }

  /** The file the rebuild writes reloads to the index it was written from,
      when all its keys survive the file. */
  lemma RewrittenLoads(text: string, m: map<string, int>)
    requires RewrittenFrom(text, m)
    requires forall k :: k in m ==> F.GoodKey(k) && JavaNumber.IsLong(m[k])
    ensures F.FileLoads(text, m)
  {
    var keys :| SortedKeys(keys, m) && text == F.Render(keys, m);
    F.RenderedLoads(keys, m);
  }

  class StorageEngine {
    /** The bytes of `store.log`. */
    var log: seq<Byte>
    /** The `TreeMap` from key to the offset of its latest record. */
    var index: map<string, int>
    /** The text of `index.db`, `None` when the file does not exist. */
    var indexFile: Option<string>
    /** The records the log holds, front to back, when it is well-formed. */
    ghost var history: seq<Record>

    /** The log is exactly the encoding of `history`. */
    ghost predicate LogMatches()
      reads this
    {
      AllEncodable(history) && log == EncodeAll(history)
    }

    /** The engine's invariant: the log holds `history` and the in-memory
        index is the index of those records. */
    ghost predicate Valid()
      reads this
    {
      LogMatches() && index == IndexOf(history)
    }

    /** The side-file exists and reloads to the in-memory index. */
    predicate FileAgrees()
      reads this
    {
      indexFile.Some? && F.FileLoads(indexFile.value, index)
    }

    /** The new state is the old one with the record `rec` appended at the
        old end of the log, indexed there, and its line appended to the
        side-file (which the append creates when missing). */
    ghost predicate Appended(log0: seq<Byte>, index0: map<string, int>, file0: Option<string>,
                             history0: seq<Record>, rec: Record)
      reads this
    {
      && log == log0 + EncodeRecord(rec)
      && index == index0[rec.key := |log0|]
      && indexFile == Some(file0.GetOr([]) + F.IndexLine(rec.key, |log0|))
      && history == history0 + [rec]
    }

    /** The state after the rebuild at start-up: the index the scan built,
        and either a rewritten side-file or, when the scan threw, the old
        one. */
    ghost predicate Rebuilt(r: Outcome<ScanError>, file0: Option<string>)
      reads this
    {
      var s := Scan(log, 0, map[]);
      && index == s.index
      && (r.Pass? <==> s.error.None?)
      && (r.Fail? ==> s.error == Some(r.error) && indexFile == file0)
      && (r.Pass? ==> indexFile.Some? && RewrittenFrom(indexFile.value, index))
    }

    /** An engine over a directory whose log holds `diskLog` and whose
        side-file holds `diskIndex`; nothing is loaded before `start`. */
    constructor(diskLog: seq<Byte>, diskIndex: Option<string>)
      ensures log == diskLog && index == map[] && indexFile == diskIndex
      ensures history == Parse(diskLog).GetOr([])
      ensures LogMatches() <==> Parse(diskLog).Some?
    {
      log := diskLog;
      index := map[];
      indexFile := diskIndex;
      history := Parse(diskLog).GetOr([]);
    }

    /** `start`: load the side-file when it exists, falling back to a
        rebuild when loading throws; rebuild when it does not exist. */
    method Start() returns (r: Outcome<ScanError>)
      modifies this
      ensures log == old(log) && history == old(history)
      ensures old(indexFile).Some? && F.LoadIndex(old(indexFile).value, |log|).Ok? ==>
                r.Pass? && index == F.LoadIndex(old(indexFile).value, |log|).value && indexFile == old(indexFile)
      ensures old(indexFile).None? || F.LoadIndex(old(indexFile).value, |log|).Err? ==> Rebuilt(r, old(indexFile))
      // Restart: over a well-formed log, start succeeds and restores the
      // incremental index unless the side-file loads to some other index.
      ensures old(LogMatches()) && (old(indexFile).None? || F.LoadIndex(old(indexFile).value, |log|).Err?
                                    || F.LoadIndex(old(indexFile).value, |log|) == Ok(IndexOf(history)))
              ==> r.Pass? && Valid()
      ensures old(LogMatches()) && old(indexFile).Some? && F.FileLoads(old(indexFile).value, IndexOf(history))
              ==> r.Pass? && Valid() && FileAgrees()
      ensures old(LogMatches()) && old(indexFile).None? && F.AllGoodKeys(history) && JavaNumber.IsLong(|log|)
              ==> r.Pass? && Valid() && FileAgrees()
    {
      ghost var file0 := indexFile;
      if indexFile.Some? {
        var loaded := LoadIndexFile();
        if loaded.Ok? {
          if LogMatches() && F.FileLoads(file0.value, IndexOf(history)) {
            F.IndexInsideLog(history);
          }
          return Pass;
        }
      }
      r := RebuildIndexFromLog();
      if LogMatches() {
        RebuildMatchesIncremental(history);
        if file0.None? && F.AllGoodKeys(history) && JavaNumber.IsLong(|log|) {
          IndexOfEntries(history);
          RewrittenLoads(indexFile.value, index);
        }
        if file0.Some? && F.FileLoads(file0.value, IndexOf(history)) {
          F.IndexInsideLog(history);
        }
      }
    }

    /** `put(key, value)`: append a put record, index it, and append its
        line to the side-file. A `null` value is written as an empty one. */
    method Put(key: string, value: Option<JBytes>) returns (r: Outcome<WriteError>)
      modifies this
      ensures key == [] ==> r == Fail(EmptyKey)
      ensures key != [] && !KeyFits(key) ==> r == Fail(KeyTooLong)
      ensures r.Fail? ==> unchanged(this)
      ensures key != [] && KeyFits(key) ==>
                r.Pass? && Appended(old(log), old(index), old(indexFile), old(history), PutRecord(key, value.GetOr([])))
      ensures old(Valid()) ==> Valid()
      // Get after put: the key now holds the value, every other key what it held.
      ensures old(Valid()) && r.Pass? ==>
                forall k :: Lookup(history, k) == if k == key then Some(value.GetOr([])) else old(Lookup(history, k))
      ensures old(FileAgrees()) && r.Pass? && F.GoodKey(key) && JavaNumber.IsLong(|old(log)|) ==> FileAgrees()
    {
      if key == [] {
        return Fail(EmptyKey);
      }
      if !KeyFits(key) {
        return Fail(KeyTooLong);
      }
      var rec := PutRecord(key, value.GetOr([]));
      ghost var history0 := history;
      AppendRecord(rec);
      forall k ensures Lookup(history, k) == if k == key then Some(value.GetOr([])) else Lookup(history0, k) {
        LookupSnoc(history0, rec, k);
      }
      r := Pass;
    }

    /** `delete(key)`: append a tombstone, index it like a put, and append
        its line to the side-file. */
    method Delete(key: string) returns (r: Outcome<WriteError>)
      modifies this
      ensures key == [] ==> r == Fail(EmptyKey)
      ensures key != [] && !KeyFits(key) ==> r == Fail(KeyTooLong)
      ensures r.Fail? ==> unchanged(this)
      ensures key != [] && KeyFits(key) ==>
                r.Pass? && Appended(old(log), old(index), old(indexFile), old(history), TombstoneRecord(key))
      ensures old(Valid()) ==> Valid()
      // Get after delete: the key now holds nothing, every other key what it held.
      ensures old(Valid()) && r.Pass? ==>
                forall k :: Lookup(history, k) == if k == key then None else old(Lookup(history, k))
      ensures old(FileAgrees()) && r.Pass? && F.GoodKey(key) && JavaNumber.IsLong(|old(log)|) ==> FileAgrees()
    {
      if key == [] {
        return Fail(EmptyKey);
      }
      if !KeyFits(key) {
        return Fail(KeyTooLong);
      }
      var rec := TombstoneRecord(key);
      ghost var history0 := history;
      AppendRecord(rec);
      forall k ensures Lookup(history, k) == if k == key then None else Lookup(history0, k) {
        LookupSnoc(history0, rec, k);
      }
      r := Pass;
    }

    /** The write shared by `put` and `delete`: the record's bytes at the end
        of the log, `index.put(key, pos)`, then `appendIndexEntry`. */
    method AppendRecord(rec: Record)
      requires Encodable(rec)
      modifies this
      ensures Appended(old(log), old(index), old(indexFile), old(history), rec)
      ensures old(Valid()) ==> Valid()
      ensures old(FileAgrees()) && F.GoodKey(rec.key) && JavaNumber.IsLong(|old(log)|) ==> FileAgrees()
    {
      ghost var valid0 := Valid();
      ghost var agrees0 := FileAgrees();
      var pos := |log|;
      if valid0 {
        AppendKeepsIndex(history, rec);
      }
      if agrees0 && F.GoodKey(rec.key) && JavaNumber.IsLong(pos) {
        F.FileLoadsSnoc(indexFile.value, index, rec.key, pos);
      }
      log := log + EncodeRecord(rec);
      index := index[rec.key := pos];
      indexFile := Some(indexFile.GetOr([]) + F.IndexLine(rec.key, pos));
      history := history + [rec];
    }

    /** `get(key)`: the value at the key's indexed offset, `null` (`None`)
        for a key not in the index. */
    method Get(key: string) returns (r: Result<Option<JBytes>, ReadError>)
      ensures r == if key in index then ReadValueAt(log, index[key]) else Ok(None)
      ensures Valid() ==> r == Ok(Lookup(history, key))
    {
      if key !in index {
        if Valid() {
          IndexOfLast(history, key);
        }
        return Ok(None);
      }
      r := ReadValueAt(log, index[key]);
      if Valid() {
        ReadIndexed(history, key);
      }
    }

    /** `batchPut(entries)`: append one put record per entry, in order, each
        indexed at its own start and given its own side-file line. Unlike
        `put`, the empty key is not refused. A key too long to encode stops
        the batch after the records before it. */
    method BatchPut(entries: seq<(string, Option<JBytes>)>) returns (r: Outcome<WriteError>)
      modifies this
      ensures var done := BatchWritten(entries);
        && (r.Pass? <==> |done| == |entries|)
        && (r.Fail? ==> r.error == KeyTooLong)
        && log == old(log) + EncodeAll(done)
        && index == IndexFrom(done, |old(log)|, old(index))
        && indexFile == (if done == [] then old(indexFile)
                         else Some(old(indexFile).GetOr([]) + F.AppendedLines(done, |old(log)|)))
        && history == old(history) + done
      ensures old(Valid()) ==> Valid()
      ensures old(Valid()) && old(FileAgrees()) && F.AllGoodKeys(BatchRecords(entries)) && JavaNumber.IsLong(|log|)
              ==> FileAgrees()
    {
      ghost var recs := BatchRecords(entries);
      ghost var log0, index0, file0, history0 := log, index, indexFile, history;
      ghost var text0 := file0.GetOr([]);
      ghost var valid0 := Valid();
      ghost var done: seq<Record> := [];
      if entries == [] {
        FitCountAt(recs, 0);
        assert log == log0 + EncodeAll(done) && history == history0 + done;
        return Pass;
      }
      r := Pass;
      var i := 0;
      while i < |entries|
        invariant 0 <= i <= |entries| && done == recs[..i]
        invariant BatchSoFar(log0, index0, file0, history0, done, valid0)
        invariant r.Pass?
      {
        var k := entries[i].0;
        if !KeyFits(k) {
          r := Fail(KeyTooLong);
          break;
        }
        var rec := PutRecord(k, entries[i].1.GetOr([]));
        SeqFacts.TakeOneMore(recs, i);
        AppendBatchEntry(rec, log0, index0, file0, history0, done, valid0);
        done := done + [rec];
        i := i + 1;
      }
      FitCountAt(recs, i);
      if valid0 && file0.Some? && F.FileLoads(text0, index0) && F.AllGoodKeys(recs)
         && JavaNumber.IsLong(|log|) && done != [] {
        GoodKeysPrefix(recs, i);
        EncodeAllAppend(history0, done);
        F.LoadAfterAppend(text0, history0, done);
      }
    }

    /** The state after the first records `done` of a batch, started from
        the log `log0`, the index `index0`, the side-file `file0` and the
        history `history0`. */
    ghost predicate BatchSoFar(log0: seq<Byte>, index0: map<string, int>, file0: Option<string>,
                               history0: seq<Record>, done: seq<Record>, valid0: bool)
      reads this
    {
      && BatchState(log, index, indexFile, history, log0, index0, file0, history0, done)
      && (valid0 ==> Valid())
    }

    /** One turn of the `batchPut` loop: the record's bytes at the end of
        the log, `index.put(k, pos)`, `appendIndexEntry(k, pos)`. */
    method AppendBatchEntry(rec: Record, ghost log0: seq<Byte>, ghost index0: map<string, int>,
                            ghost file0: Option<string>, ghost history0: seq<Record>,
                            ghost done: seq<Record>, ghost valid0: bool)
      requires Encodable(rec) && BatchSoFar(log0, index0, file0, history0, done, valid0)
      modifies this
      ensures BatchSoFar(log0, index0, file0, history0, done + [rec], valid0)
    {
      BatchNext(log, index, indexFile, history, log0, index0, file0, history0, done, rec);
      if valid0 {
        AppendKeepsIndex(history, rec);
      }
      var pos := |log|;
      log := log + EncodeRecord(rec);
      index := index[rec.key := pos];
      indexFile := Some(indexFile.GetOr([]) + F.IndexLine(rec.key, pos));
      history := history + [rec];
    }

    /** `rangeIndex(start, end)`: the entries of the index whose keys lie
        between `start` and `end`, both included under `compareTo`. The result
        is an unordered snapshot; `subMap` returns a sorted live view. */
    function RangeIndex(start: string, end: string): (r: Result<map<string, int>, RangeError>)
      reads this
      ensures r.Err? <==> JavaString.CompareTo(start, end) > 0
      ensures r.Ok? ==> forall k :: k in r.value <==>
                          k in index && JavaString.LessEq(start, k) && JavaString.LessEq(k, end)
      ensures r.Ok? ==> forall k :: k in r.value ==> r.value[k] == index[k]
    {
      if JavaString.CompareTo(start, end) > 0 then Err(StartAfterEnd)
      else Ok(map k | k in index && JavaString.LessEq(start, k) && JavaString.LessEq(k, end) :: index[k])
    }

    /** Every offset `rangeIndex` returns reads back the key's value. */
    lemma RangeReadsValues(start: string, end: string, k: string)
      requires Valid() && RangeIndex(start, end).Ok? && k in RangeIndex(start, end).value
      ensures ReadValueAt(log, RangeIndex(start, end).value[k]) == Ok(Lookup(history, k))
    {
      ReadIndexed(history, k);
    }

    /** `loadIndex`: read the side-file line by line into the index, then
        refuse it when its largest offset is not below the log size. */
    method LoadIndexFile() returns (r: Result<map<string, int>, F.LoadError>)
      requires indexFile.Some?
      modifies this
      ensures log == old(log) && indexFile == old(indexFile) && history == old(history)
      ensures r == F.LoadIndex(indexFile.value, |log|)
      ensures r.Ok? ==> index == r.value
    {
      index := map[];
      var lines := JavaReader.Lines(indexFile.value);
      var i := 0;
      while i < |lines|
        invariant 0 <= i <= |lines|
        invariant log == old(log) && indexFile == old(indexFile) && history == old(history)
        invariant F.LoadLines(lines[i..], index) == F.LoadLines(lines, map[])
      {
        match F.ParseLine(lines[i]) {
          case Skip =>
          case BadOffset =>
            return Err(F.MalformedOffset);
          case Entry(k, off) =>
            index := index[k := off];
        }
        assert lines[i..][1..] == lines[i + 1..];
        i := i + 1;
      }
      if index != map[] && !F.AllBelow(index, |log|) {
        return Err(F.OffsetBeyondLog);
      }
      r := Ok(index);
    }

    /** `rebuildIndexFromLog`: scan the log record by record, indexing each
        key at its record's start; when the scan reaches the end, rewrite
        the side-file with one line per index entry in key order. */
    method RebuildIndexFromLog() returns (r: Outcome<ScanError>)
      modifies this
      ensures log == old(log) && history == old(history)
      ensures Rebuilt(r, old(indexFile))
    {
      index := map[];
      var pos: nat := 0;
      while pos < |log|
        invariant Scan(log, pos, index) == Scan(log, 0, map[])
        invariant log == old(log) && indexFile == old(indexFile) && history == old(history)
        decreases |log| - pos
      {
        if pos + HeaderSize > |log| {
          return Fail(TruncatedRecord);
        }
        var h := DecodeHeader(log[pos..pos + HeaderSize]);
        if h.klen < 0 {
          return Fail(NegativeKeyLength);
        }
        if pos + HeaderSize + h.klen > |log| {
          return Fail(TruncatedRecord);
        }
        var key := Utf8.Decode(log[pos + HeaderSize..pos + HeaderSize + h.klen]);
        var next := pos + HeaderSize + h.klen + h.vlen;
        if next < 0 {
          return Fail(NegativeSeek);
        }
        if next <= pos {
          return Fail(NoProgress);
        }
        index := index[key := pos];
        pos := next;
      }
      var text := RenderSorted();
      indexFile := Some(text);
      r := Pass;
    }

    /** The text the rebuild writes: the index's entries in ascending key
        order, as the `TreeMap` iterates them. */
    method RenderSorted() returns (text: string)
      ensures RewrittenFrom(text, index)
    {
      var keys: seq<string> := [];
      var rest := index.Keys;
      text := [];
      while rest != {}
        invariant Partition(keys, rest, index)
        invariant Ascending(keys) && ListedFirst(keys, rest)
        invariant text == F.Render(keys, index)
        decreases |rest|
      {
        JavaString.MinExists(rest);
        var k :| k in rest && forall j :: j in rest ==> JavaString.LessEq(k, j);
        TakeLeast(keys, rest, index, k);
        assert (keys + [k])[..|keys|] == keys;
        text := text + F.IndexLine(k, index[k]);
        keys := keys + [k];
        rest := rest - {k};
      }
      assert SortedKeys(keys, index);
    }
  }
}
