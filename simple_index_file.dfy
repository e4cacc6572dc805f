/** The SimpleKV index side-file (`index.db`): one text line `key\toffset`
    per index update, appended by `appendIndexEntry`, rewritten in key order
    after a rebuild, and read back by `loadIndex`, which splits each line at
    its last tab and refuses an index pointing at or past the end of the log. */
module SimpleIndexFile {
  import opened Wrappers
  import JavaText
  import opened JavaNumber
  import JavaReader
  import SimpleLog
  import SeqFacts

  const Tab: char := '\t'

  /** The text of a line without its terminator. */
  function EntryText(key: string, offset: int): string {
    key + [Tab] + LongToString(offset)
  }

  /** The line `appendIndexEntry` writes, and the rebuild writes per entry. */
  function IndexLine(key: string, offset: int): string {
    EntryText(key, offset) + "\n"
  }

  /** What one line of the file contributes: nothing, a key with its offset,
      or a `NumberFormatException` from `Long.parseLong`. */
  datatype LineResult = Skip | Entry(key: string, offset: int) | BadOffset

  /** One turn of the `loadIndex` loop: empty lines and lines whose last tab
      is missing or first are skipped; otherwise the key is everything before
      the last tab and the offset everything after it. */
  function ParseLine(line: string): (r: LineResult)
    ensures r.Entry? ==> r.key != [] && IsLong(r.offset)
  {
    if line == [] then Skip
    else
      var tab := JavaText.LastIndexOf(line, Tab);
      if tab <= 0 then Skip
      else
        match ParseLong(line[tab + 1..])
        case None => BadOffset
        case Some(off) => Entry(line[..tab], off)
  }

  /** Why `loadIndex` throws, making `start` fall back to a rebuild. */
  datatype LoadError = MalformedOffset | OffsetBeyondLog

  /** One line applied to the index loaded so far. */
  function Apply(line: string, acc: map<string, int>): Result<map<string, int>, LoadError> {
    match ParseLine(line)
    case Skip => Ok(acc)
    case BadOffset => Err(MalformedOffset)
    case Entry(k, off) => Ok(acc[k := off])
  }

  /** The `readLine` loop of `loadIndex` over `lines`, starting from `acc`. */
  function LoadLines(lines: seq<string>, acc: map<string, int>): Result<map<string, int>, LoadError>
    decreases |lines|
  {
    if lines == [] then Ok(acc)
    else
      match Apply(lines[0], acc)
      case Err(e) => Err(e)
      case Ok(m) => LoadLines(lines[1..], m)
  }

  predicate AllBelow(m: map<string, int>, size: int) {
    forall k :: k in m ==> m[k] < size
  }

  /** `loadIndex` on the file text, against a log of `logSize` bytes: the
      loaded map, unless a line has a malformed offset or the largest offset
      is not below the log size. */
  function LoadIndex(text: string, logSize: int): (r: Result<map<string, int>, LoadError>)
    ensures r.Ok? ==> AllBelow(r.value, logSize)
  {
    match LoadLines(JavaReader.Lines(text), map[])
    case Err(e) => Err(e)
    case Ok(m) => if m != map[] && !AllBelow(m, logSize) then Err(OffsetBeyondLog) else Ok(m)
  }

  /** A key that survives the file: not empty (the parser skips a tab at
      position 0) and free of line terminators (which would split its line). */
  predicate GoodKey(k: string) {
    k != [] && JavaReader.NoTerminator(k)
  }

  // ----- Parsing a written line -----

  lemma LongToStringPlain(n: int)
    ensures Tab !in LongToString(n) && JavaReader.NoTerminator(LongToString(n))
  {
    var d := Decimal(if n < 0 then -n else n);
    assert forall i :: 0 <= i < |d| ==> IsDigit(d[i]);
    if n < 0 {
      assert forall i :: 1 <= i < |LongToString(n)| ==> LongToString(n)[i] == d[i - 1];
    }
  }

  /** A written line parses back to its key and offset, even when the key
      holds tabs: the offset holds none, so the last tab is the one written. */
  lemma ParseEntryText(key: string, offset: int)
    requires key != [] && IsLong(offset)
    ensures ParseLine(EntryText(key, offset)) == Entry(key, offset)
  {
    var digits := LongToString(offset);
    var line := EntryText(key, offset);
    LongToStringPlain(offset);
    assert line[|key|] == Tab;
    var tab := JavaText.LastIndexOf(line, Tab);
    assert tab == |key|;
    assert line[..tab] == key;
    assert line[tab + 1..] == digits;
    ParseLongToString(offset);
  }

  /** A line for the empty key (which `batchPut` lets through) is skipped. */
  lemma ParseEmptyKey(offset: int)
    ensures ParseLine(EntryText([], offset)) == Skip
  {
    var line := EntryText([], offset);
    LongToStringPlain(offset);
    assert line[0] == Tab;
  }

  lemma EntryTextPlain(key: string, offset: int)
    requires JavaReader.NoTerminator(key)
    ensures JavaReader.NoTerminator(EntryText(key, offset))
  {
    LongToStringPlain(offset);
    var t := EntryText(key, offset);
    forall i | 0 <= i < |t| ensures !JavaReader.IsTerminator(t[i]) {
      if i > |key| {
        assert t[i] == LongToString(offset)[i - |key| - 1];
      }
    }
  }

  // ----- Files made of lines -----

  /** The loop over one more line continues from where it stood. */
  lemma {:induction false} LoadLinesSnoc(lines: seq<string>, line: string, acc: map<string, int>)
    ensures LoadLines(lines + [line], acc)
         == match LoadLines(lines, acc) case Err(e) => Err(e) case Ok(m) => Apply(line, m)
    decreases |lines|
  {
    if lines == [] {
      SeqFacts.AppendNil([line]);
    } else {
      SeqFacts.SnocTail(lines, line);
      match Apply(lines[0], acc)
      case Err(e) =>
      case Ok(m) => LoadLinesSnoc(lines[1..], line, m);
    }
  }

  /** Appending a line to a file that is empty or ends with a line adds
      exactly that line to what `readLine` returns. */
  lemma LinesSnoc(text: string, key: string, offset: int)
    requires text == [] || text[|text| - 1] == '\n'
    requires JavaReader.NoTerminator(key)
    ensures JavaReader.Lines(text + IndexLine(key, offset)) == JavaReader.Lines(text) + [EntryText(key, offset)]
  {
    var t := EntryText(key, offset);
    EntryTextPlain(key, offset);
    JavaReader.LinesAppend(text, IndexLine(key, offset));
    JavaReader.LinesCons(t, []);
    assert t + "\n" + [] == IndexLine(key, offset);
  }

  // ----- The file as put, delete and batchPut leave it -----

  /** A file that `readLine` splits into whole lines and whose lines, read
      by `loadIndex` from an empty index, give `m`. */
  predicate FileLoads(text: string, m: map<string, int>) {
    (text == [] || text[|text| - 1] == '\n') && LoadLines(JavaReader.Lines(text), map[]) == Ok(m)
  }

  /** One appended line for a key that survives the file updates the
      reloaded index exactly as `index.put(key, offset)` does. */
  lemma FileLoadsSnoc(text: string, m: map<string, int>, key: string, offset: int)
    requires FileLoads(text, m) && GoodKey(key) && IsLong(offset)
    ensures FileLoads(text + IndexLine(key, offset), m[key := offset])
  {
    var t := text + IndexLine(key, offset);
    assert t[|t| - 1] == '\n';
    LinesSnoc(text, key, offset);
    LoadLinesSnoc(JavaReader.Lines(text), EntryText(key, offset), map[]);
    ParseEntryText(key, offset);
  }

  /** The lines appended for the records `rs` written from log offset
      `base` on: each record's key with its own start offset. */
  function AppendedLines(rs: seq<SimpleLog.Record>, base: int): (text: string)
    ensures text == [] || text[|text| - 1] == '\n'
    decreases |rs|
  {
    if rs == [] then []
    else
      var init := rs[..|rs| - 1];
      AppendedLines(init, base) + IndexLine(rs[|rs| - 1].key, base + |SimpleLog.EncodeAll(init)|)
  }

  lemma AppendedLinesSnoc(rs: seq<SimpleLog.Record>, r: SimpleLog.Record, base: int)
    ensures AppendedLines(rs + [r], base) == AppendedLines(rs, base) + IndexLine(r.key, base + |SimpleLog.EncodeAll(rs)|)
  {
    assert (rs + [r])[..|rs|] == rs;
  }

  predicate AllGoodKeys(rs: seq<SimpleLog.Record>) {
    forall i :: 0 <= i < |rs| ==> GoodKey(rs[i].key)
  }

  /** Every offset of the incremental index lies inside the log. */
  lemma {:induction false} IndexInsideLog(rs: seq<SimpleLog.Record>)
    ensures AllBelow(SimpleLog.IndexOf(rs), |SimpleLog.EncodeAll(rs)|)
    decreases |rs|
  {
    if rs != [] {
      IndexInsideLog(rs[..|rs| - 1]);
    }
  }

  /** A file that reloads to the index of the records `rs`, with the lines
      of more records appended, reloads to the index of all of them: later
      lines for a key override earlier ones just as later records do. */
  lemma {:induction false} LoadAfterAppend(text: string, rs: seq<SimpleLog.Record>, more: seq<SimpleLog.Record>)
    requires FileLoads(text, SimpleLog.IndexOf(rs))
    requires AllGoodKeys(more) && IsLong(|SimpleLog.EncodeAll(rs + more)|)
    ensures FileLoads(text + AppendedLines(more, |SimpleLog.EncodeAll(rs)|), SimpleLog.IndexOf(rs + more))
    decreases |more|
  {
    var base := |SimpleLog.EncodeAll(rs)|;
    if more == [] {
      SeqFacts.AppendNil(rs);
      SeqFacts.AppendNil(text);
    } else {
      var init, last := more[..|more| - 1], more[|more| - 1];
      var off := base + |SimpleLog.EncodeAll(init)|;
      SplitLast(rs, more);
      LoadAfterAppend(text, rs, init);
      AppendOneMore(text, rs, init, last, more, base, off);
    }
  }

  /** The facts `LoadAfterAppend` needs about the records before the last. */
  lemma SplitLast(rs: seq<SimpleLog.Record>, more: seq<SimpleLog.Record>)
    requires more != [] && AllGoodKeys(more) && IsLong(|SimpleLog.EncodeAll(rs + more)|)
    ensures var init, last := more[..|more| - 1], more[|more| - 1];
      && more == init + [last]
      && |SimpleLog.EncodeAll(rs)| + |SimpleLog.EncodeAll(init)| == |SimpleLog.EncodeAll(rs + init)|
      && IsLong(|SimpleLog.EncodeAll(rs + init)|)
      && AllGoodKeys(init) && GoodKey(last.key)
  {
    var init, last := more[..|more| - 1], more[|more| - 1];
    assert more == init + [last] by {
      SeqFacts.InitLast(more);
    }
    assert |SimpleLog.EncodeAll(rs)| + |SimpleLog.EncodeAll(init)| == |SimpleLog.EncodeAll(rs + init)| by {
      SimpleLog.EncodeAllAppend(rs, init);
    }
    assert |SimpleLog.EncodeAll(rs + init)| <= |SimpleLog.EncodeAll(rs + more)| by {
      SeqFacts.Assoc(rs, init, [last]);
      SimpleLog.EncodeAllSnoc(rs + init, last);
    }
    assert forall i :: 0 <= i < |init| ==> init[i] == more[i];
  }

  lemma AppendOneMore(text: string, rs: seq<SimpleLog.Record>, init: seq<SimpleLog.Record>, last: SimpleLog.Record,
                      more: seq<SimpleLog.Record>, base: int, off: int)
    requires more == init + [last] && off == |SimpleLog.EncodeAll(rs + init)| && off == base + |SimpleLog.EncodeAll(init)|
    requires FileLoads(text + AppendedLines(init, base), SimpleLog.IndexOf(rs + init))
    requires GoodKey(last.key) && IsLong(off)
    ensures FileLoads(text + AppendedLines(more, base), SimpleLog.IndexOf(rs + more))
  {
    assert more[..|more| - 1] == init;
    FileLoadsSnoc(text + AppendedLines(init, base), SimpleLog.IndexOf(rs + init), last.key, off);
    SeqFacts.Assoc(text, AppendedLines(init, base), IndexLine(last.key, off));
    SeqFacts.Assoc(rs, init, [last]);
    SimpleLog.IndexOfSnoc(rs + more, rs + init, last);
  }

  /** Restart from a file written only by appends: `loadIndex` returns
      exactly the incremental index, and its sanity check passes. */
  lemma LoadAppendedFile(rs: seq<SimpleLog.Record>)
    requires AllGoodKeys(rs) && IsLong(|SimpleLog.EncodeAll(rs)|)
    ensures LoadIndex(AppendedLines(rs, 0), |SimpleLog.EncodeAll(rs)|) == Ok(SimpleLog.IndexOf(rs))
  {
    var none: seq<SimpleLog.Record> := [];
    assert none + rs == rs;
    assert [] + AppendedLines(rs, 0) == AppendedLines(rs, 0);
    LoadAfterAppend([], none, rs);
    IndexInsideLog(rs);
  }

  /** A record for the empty key leaves the loaded index unchanged: its line
      is skipped, so after a restart the key is unknown. */
  lemma EmptyKeyLineSkipped(text: string, offset: int, acc: map<string, int>)
    requires text == [] || text[|text| - 1] == '\n'
    ensures LoadLines(JavaReader.Lines(text + IndexLine([], offset)), acc)
         == LoadLines(JavaReader.Lines(text), acc)
  {
    LinesSnoc(text, [], offset);
    LoadLinesSnoc(JavaReader.Lines(text), EntryText([], offset), acc);
    ParseEmptyKey(offset);
    match LoadLines(JavaReader.Lines(text), acc)
    case Err(e) =>
    case Ok(m) =>
  }

  // ----- The file as the rebuild rewrites it -----

  /** The rewritten file: one line per key of `keys`, with its offset in `m`,
      in the order of `keys` (the `TreeMap`'s ascending key order). */
  function Render(keys: seq<string>, m: map<string, int>): (text: string)
    requires forall i :: 0 <= i < |keys| ==> keys[i] in m
    ensures text == [] || text[|text| - 1] == '\n'
    decreases |keys|
  {
    if keys == [] then []
    else
      var init, k := keys[..|keys| - 1], keys[|keys| - 1];
      Render(init, m) + IndexLine(k, m[k])
  }

  /** The entries of `m` whose keys occur in `keys`. */
  function Restrict(m: map<string, int>, keys: seq<string>): map<string, int> {
    map k | k in m && k in keys :: m[k]
  }

  lemma {:induction false} LoadRenderedLines(keys: seq<string>, m: map<string, int>)
    requires forall i :: 0 <= i < |keys| ==> keys[i] in m && GoodKey(keys[i]) && IsLong(m[keys[i]])
    ensures LoadLines(JavaReader.Lines(Render(keys, m)), map[]) == Ok(Restrict(m, keys))
    decreases |keys|
  {
    if keys == [] {
      assert Restrict(m, keys) == map[];
    } else {
      var init, k := keys[..|keys| - 1], keys[|keys| - 1];
      var text := Render(init, m);
      assert forall i :: 0 <= i < |init| ==> init[i] == keys[i];
      LoadRenderedLines(init, m);
      LinesSnoc(text, k, m[k]);
      LoadLinesSnoc(JavaReader.Lines(text), EntryText(k, m[k]), map[]);
      ParseEntryText(k, m[k]);
      RestrictSnoc(m, keys);
    }
  }

  lemma RestrictSnoc(m: map<string, int>, keys: seq<string>)
    requires keys != [] && keys[|keys| - 1] in m
    ensures Restrict(m, keys[..|keys| - 1])[keys[|keys| - 1] := m[keys[|keys| - 1]]] == Restrict(m, keys)
  {
    SeqFacts.InitLast(keys);
  }

  /** The rewritten file reloads to the index it was written from when the
      keys listed are exactly the index's keys. */
  lemma RenderedLoads(keys: seq<string>, m: map<string, int>)
    requires forall i :: 0 <= i < |keys| ==> keys[i] in m && GoodKey(keys[i]) && IsLong(m[keys[i]])
    requires forall k :: k in m ==> k in keys
    ensures FileLoads(Render(keys, m), m)
  {
    LoadRenderedLines(keys, m);
    RestrictAll(m, keys);
  }

  lemma RestrictAll(m: map<string, int>, keys: seq<string>)
    requires forall k :: k in m ==> k in keys
    ensures Restrict(m, keys) == m
  {
  }

  /** Restart from the rewritten file: `loadIndex` returns that index. */
  lemma LoadRendered(keys: seq<string>, m: map<string, int>, logSize: int)
    requires forall i :: 0 <= i < |keys| ==> keys[i] in m && GoodKey(keys[i]) && IsLong(m[keys[i]])
    requires forall k :: k in m ==> k in keys
    requires AllBelow(m, logSize)
    ensures LoadIndex(Render(keys, m), logSize) == Ok(m)
  {
    RenderedLoads(keys, m);
  }
}
