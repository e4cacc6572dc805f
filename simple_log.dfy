/** The SimpleKV log format (`SimpleKVEngine.StorageEngine`): every mutation is
    one record `[type byte][klen: int][vlen: int][key bytes][value bytes]`, the
    two lengths big-endian as `ByteBuffer.putInt` writes them; type 0 is a put,
    type 1 a tombstone with no value bytes.

    This module holds the record codec, `readValueAt`, the start-up scan of
    `rebuildIndexFromLog`, and the index that put, delete and batchPut keep
    incrementally, with the theorem that the scan rebuilds that index. */
module SimpleLog {
  import opened Wrappers
  import opened Bytes
  import Utf8
  import SeqFacts

  /** Size of a record header: one type byte and two 4-byte lengths. */
  const HeaderSize: int := 9
  const PutType: Byte := 0
  const TombstoneType: Byte := 1

  // ----- Java `int`, big-endian -----

  predicate IsInt32(n: int) {
    -0x8000_0000 <= n < 0x8000_0000
  }

  /** `ByteBuffer.putInt(n)`: the low 32 bits of `n` in two's complement,
      most significant byte first. */
  function EncodeInt32(n: int): (r: seq<Byte>)
    ensures |r| == 4
  {
    var u := n % 0x1_0000_0000;
    var u1 := u / 256;
    var u2 := u1 / 256;
    [u2 / 256, u2 % 256, u1 % 256, u % 256]
  }

  /** `ByteBuffer.getInt()` / `RandomAccessFile.readInt()`. */
  function DecodeInt32(b: seq<Byte>): (r: int)
    requires |b| == 4
    ensures IsInt32(r)
  {
    var u := ((b[0] as int * 256 + b[1] as int) * 256 + b[2] as int) * 256 + b[3] as int;
    if u >= 0x8000_0000 then u - 0x1_0000_0000 else u
  }

  lemma DivMod256(n: int, q: int, r: int)
    requires n == q * 256 + r && 0 <= r < 256
    ensures n / 256 == q && n % 256 == r
  {
  }

  /** Reading back a written `int` gives the same `int`. */
  lemma DecodeEncodeInt32(n: int)
    requires IsInt32(n)
    ensures DecodeInt32(EncodeInt32(n)) == n
  {
    var u := n % 0x1_0000_0000;
    assert u == if n < 0 then n + 0x1_0000_0000 else n;
    var u1 := u / 256;
    var u2 := u1 / 256;
    assert u1 * 256 + u % 256 == u;
    assert u2 * 256 + u1 % 256 == u1;
    assert (u2 / 256) * 256 + u2 % 256 == u2;
  }

  /** Every four bytes are the encoding of the `int` they decode to. */
  lemma EncodeDecodeInt32(b: seq<Byte>)
    requires |b| == 4
    ensures EncodeInt32(DecodeInt32(b)) == b
  {
    var u2 := b[0] as int * 256 + b[1] as int;
    var u1 := u2 * 256 + b[2] as int;
    var u := u1 * 256 + b[3] as int;
    assert DecodeInt32(b) % 0x1_0000_0000 == u;
    DivMod256(u, u1, b[3] as int);
    DivMod256(u1, u2, b[2] as int);
    DivMod256(u2, b[0] as int, b[1] as int);
  }

  // ----- Headers -----

  /** The three header fields, as they stand in the log. */
  datatype Header = Header(tag: Byte, klen: int, vlen: int)

  /** The nine header bytes. */
  function EncodeHeader(h: Header): (b: seq<Byte>)
    ensures |b| == HeaderSize
  {
    [h.tag] + EncodeInt32(h.klen) + EncodeInt32(h.vlen)
  }

  function DecodeHeader(b: seq<Byte>): Header
    requires |b| == HeaderSize
  {
    Header(b[0], DecodeInt32(b[1..5]), DecodeInt32(b[5..9]))
  }

  /** A header whose lengths are Java `int`s reads back unchanged. */
  lemma DecodeEncodeHeader(h: Header)
    requires IsInt32(h.klen) && IsInt32(h.vlen)
    ensures DecodeHeader(EncodeHeader(h)) == h
  {
    var b := EncodeHeader(h);
    assert b[1..5] == EncodeInt32(h.klen);
    assert b[5..9] == EncodeInt32(h.vlen);
    DecodeEncodeInt32(h.klen);
    DecodeEncodeInt32(h.vlen);
  }

  /** Any nine bytes are the encoding of the header they decode to. */
  lemma EncodeDecodeHeader(b: seq<Byte>)
    requires |b| == HeaderSize
    ensures EncodeHeader(DecodeHeader(b)) == b
  {
    EncodeDecodeInt32(b[1..5]);
    EncodeDecodeInt32(b[5..9]);
    assert b == [b[0]] + b[1..5] + b[5..9];
  }

  // ----- Records -----

  /** One logical log record: what `put` and `delete` append. */
  datatype Record = PutRecord(key: string, value: JBytes) | TombstoneRecord(key: string)

  /** A record whose key bytes fit in a Java array, so that both of its
      lengths are Java `int`s. */
  predicate Encodable(r: Record) {
    |Utf8.Encode(r.key)| <= MaxArrayLength
  }

  predicate AllEncodable(rs: seq<Record>) {
    forall i :: 0 <= i < |rs| ==> Encodable(rs[i])
  }

  function TypeOf(r: Record): Byte {
    if r.PutRecord? then PutType else TombstoneType
  }

  function ValueOf(r: Record): JBytes {
    if r.PutRecord? then r.value else []
  }

  /** The bytes of one record: its header, then key and value bytes. */
  function Frame(tag: Byte, kb: seq<Byte>, vb: seq<Byte>): (b: seq<Byte>)
    ensures |b| == HeaderSize + |kb| + |vb|
  {
    EncodeHeader(Header(tag, |kb|, |vb|)) + kb + vb
  }

  /** The number of bytes a record takes in the log. */
  function RecordSize(r: Record): nat {
    HeaderSize + |Utf8.Encode(r.key)| + |ValueOf(r)|
  }

  function EncodeRecord(r: Record): (b: seq<Byte>)
    ensures |b| == RecordSize(r)
  {
    Frame(TypeOf(r), Utf8.Encode(r.key), ValueOf(r))
  }

  /** The three parts of a record's bytes, wherever they stand in a log. */
  lemma FrameParts(pre: seq<Byte>, tag: Byte, kb: seq<Byte>, vb: seq<Byte>, post: seq<Byte>)
    ensures var log, p := pre + Frame(tag, kb, vb) + post, |pre|;
      log[p..p + HeaderSize] == EncodeHeader(Header(tag, |kb|, |vb|))
      && log[p + HeaderSize..p + HeaderSize + |kb|] == kb
      && log[p + HeaderSize + |kb|..p + HeaderSize + |kb| + |vb|] == vb
  {
    var e := Frame(tag, kb, vb);
    var h := EncodeHeader(Header(tag, |kb|, |vb|));
    SeqFacts.SliceOfMiddle(pre, e, post, 0, HeaderSize);
    SeqFacts.SliceOfMiddle(pre, e, post, HeaderSize, HeaderSize + |kb|);
    SeqFacts.SliceOfMiddle(pre, e, post, HeaderSize + |kb|, |e|);
    SeqFacts.ThreePartsOf(h, kb, vb);
  }

  /** A log made of records, in order. */
  function EncodeAll(rs: seq<Record>): (b: seq<Byte>)
    decreases |rs|
  {
    if rs == [] then [] else EncodeAll(rs[..|rs| - 1]) + EncodeRecord(rs[|rs| - 1])
  }

  /** The start offset of record `i` of a log. */
  function OffsetOf(rs: seq<Record>, i: nat): int
    requires i <= |rs|
  {
    |EncodeAll(rs[..i])|
  }

  // ----- readValueAt -----

  /** The header at `pos`, when all nine of its bytes are in the log. */
  function ReadHeader(log: seq<Byte>, pos: int): (h: Option<Header>)
    ensures h.Some? <==> 0 <= pos && pos + HeaderSize <= |log|
  {
    if 0 <= pos && pos + HeaderSize <= |log| then Some(DecodeHeader(log[pos..pos + HeaderSize]))
    else None
  }

  /** How `readValueAt` fails: a negative file position, a header cut short
      by the end of the log (the buffer underflows), or a negative value
      length (`ByteBuffer.allocate` refuses it). */
  datatype ReadError = NegativePosition | ShortHeader | NegativeValueLength

  /** `n` bytes of the log from `from`, with zeros where the log has ended:
      what `FileChannel.read` leaves in a freshly allocated buffer. */
  function BytesAt(log: seq<Byte>, from: nat, n: nat): (r: seq<Byte>)
    ensures |r| == n
    ensures forall i :: 0 <= i < n ==> r[i] == (if from + i < |log| then log[from + i] else 0)
    decreases n
  {
    if n == 0 then []
    else BytesAt(log, from, n - 1) + [if from + n - 1 < |log| then log[from + n - 1] else 0]
  }

  /** Inside the log, `BytesAt` is a plain slice. */
  lemma BytesAtInside(log: seq<Byte>, from: nat, n: nat)
    requires from + n <= |log|
    ensures BytesAt(log, from, n) == log[from..from + n]
  {
    var r := BytesAt(log, from, n);
    forall i | 0 <= i < n ensures r[i] == log[from..from + n][i] {
    }
  }

  /** `readValueAt(pos)`: decode the header at `pos`; a tombstone gives
      `null`; otherwise the `vlen` bytes after the key. */
  function ReadValueAt(log: seq<Byte>, pos: int): (r: Result<Option<JBytes>, ReadError>)
    ensures pos < 0 ==> r == Err(NegativePosition)
    ensures 0 <= pos && |log| < pos + HeaderSize ==> r == Err(ShortHeader)
    ensures r.Ok? && r.value.Some? ==>
              ReadHeader(log, pos).Some? && |r.value.value| == ReadHeader(log, pos).value.vlen
    ensures 0 <= pos && ReadHeader(log, pos).Some? ==>
              var h := ReadHeader(log, pos).value;
              var valPos := pos + HeaderSize + h.klen;
              && (h.tag == TombstoneType ==> r == Ok(None))
              && (h.tag != TombstoneType && h.vlen < 0 ==> r == Err(NegativeValueLength))
              && (h.tag != TombstoneType && h.vlen >= 0 && valPos < 0 ==> r == Err(NegativePosition))
              && (r.Ok? && r.value.Some? ==>
                    h.tag != TombstoneType && 0 <= valPos
                    && forall i :: 0 <= i < h.vlen ==>
                         r.value.value[i] == (if valPos + i < |log| then log[valPos + i] else 0))
  {
    if pos < 0 then Err(NegativePosition)
    else
      match ReadHeader(log, pos)
      case None => Err(ShortHeader)
      case Some(h) =>
        var valPos := pos + HeaderSize + h.klen;
        if h.tag == TombstoneType then Ok(None)
        else if h.vlen < 0 then Err(NegativeValueLength)
        else if valPos < 0 then Err(NegativePosition)
        else Ok(Some(BytesAt(log, valPos, h.vlen)))
  }

  /** A record's header reads back as its type and its two lengths. */
  lemma ReadHeaderFrame(pre: seq<Byte>, tag: Byte, kb: seq<Byte>, vb: seq<Byte>, post: seq<Byte>)
    requires |kb| <= MaxArrayLength && |vb| <= MaxArrayLength
    ensures ReadHeader(pre + Frame(tag, kb, vb) + post, |pre|) == Some(Header(tag, |kb|, |vb|))
  {
    FrameParts(pre, tag, kb, vb, post);
    DecodeEncodeHeader(Header(tag, |kb|, |vb|));
  }

  /** `readValueAt` at the start of a record returns that record's value, or
      `null` for a tombstone, whatever surrounds the record. */
  lemma ReadValueAtRecord(pre: seq<Byte>, r: Record, post: seq<Byte>)
    requires Encodable(r)
    ensures ReadValueAt(pre + EncodeRecord(r) + post, |pre|) == Ok(ValueIfPut(r))
  {
    ReadValueAtFrame(pre, TypeOf(r), Utf8.Encode(r.key), ValueOf(r), post);
  }

  /** The same, for any key and value bytes. */
  lemma ReadValueAtFrame(pre: seq<Byte>, tag: Byte, kb: seq<Byte>, vb: JBytes, post: seq<Byte>)
    requires |kb| <= MaxArrayLength
    ensures ReadValueAt(pre + Frame(tag, kb, vb) + post, |pre|)
         == if tag == TombstoneType then Ok(None) else Ok(Some(vb))
  {
    var log := pre + Frame(tag, kb, vb) + post;
    ReadHeaderFrame(pre, tag, kb, vb, post);
    FrameParts(pre, tag, kb, vb, post);
    BytesAtInside(log, |pre| + HeaderSize + |kb|, |vb|);
  }

  // ----- Exact decoding of a well-formed log -----

  /** The record at the front of `b` and its length, when `b` starts with a
      complete record of type 0 or 1 (no value bytes for type 1) whose key
      bytes are the UTF-8 encoding of a string. */
  function ParseRecord(b: seq<Byte>): (r: Option<(Record, nat)>)
    ensures r.Some? ==> Encodable(r.value.0) && 0 < r.value.1 <= |b|
                        && b[..r.value.1] == EncodeRecord(r.value.0)
  {
    if |b| < HeaderSize then None
    else
      var h := DecodeHeader(b[..HeaderSize]);
      if h.tag !in {PutType, TombstoneType} || h.klen < 0 || h.vlen < 0 then None
      else if h.tag == TombstoneType && h.vlen != 0 then None
      else if HeaderSize + h.klen + h.vlen > |b| then None
      else
        var n := HeaderSize + h.klen + h.vlen;
        var kb := b[HeaderSize..HeaderSize + h.klen];
        var vb := b[HeaderSize + h.klen..n];
        var key := Utf8.Decode(kb);
        if Utf8.Encode(key) != kb then None
        else
          var r := if h.tag == PutType then PutRecord(key, vb) else TombstoneRecord(key);
          EncodeDecodeHeader(b[..HeaderSize]);
          assert Header(TypeOf(r), |kb|, |ValueOf(r)|) == h;
          SeqFacts.ThreeParts(b, HeaderSize, HeaderSize + h.klen, n);
          Some((r, n))
  }

  /** The records of a log, front to back, when it is exactly a sequence of
      complete records. */
  function Parse(b: seq<Byte>): (r: Option<seq<Record>>)
    ensures r.Some? ==> AllEncodable(r.value) && EncodeAll(r.value) == b
    decreases |b|
  {
    if b == [] then Some([])
    else
      match ParseRecord(b)
      case None => None
      case Some((rec, n)) =>
        match Parse(b[n..])
        case None => None
        case Some(rest) =>
          EncodeAllCons(rec, rest);
          SeqFacts.PrefixSuffix(b, n);
          Some([rec] + rest)
  }

  /** Appending a record to a log appends its encoding. */
  lemma EncodeAllSnoc(rs: seq<Record>, r: Record)
    ensures EncodeAll(rs + [r]) == EncodeAll(rs) + EncodeRecord(r)
  {
    SeqFacts.Snoc(rs, r);
  }

  /** The encoding of two record lists one after the other. */
  lemma {:induction false} EncodeAllAppend(xs: seq<Record>, ys: seq<Record>)
    ensures EncodeAll(xs + ys) == EncodeAll(xs) + EncodeAll(ys)
    decreases |ys|
  {
    if ys == [] {
      assert xs + ys == xs;
    } else {
      var init, y := ys[..|ys| - 1], ys[|ys| - 1];
      SeqFacts.InitLast(ys);
      SeqFacts.Assoc(xs, init, [y]);
      EncodeAllSnoc(xs + init, y);
      EncodeAllSnoc(init, y);
      EncodeAllAppend(xs, init);
      SeqFacts.Assoc(EncodeAll(xs), EncodeAll(init), EncodeRecord(y));
    }
  }

  /** The encoding of a record list is its first record then the rest. */
  lemma EncodeAllCons(r: Record, rs: seq<Record>)
    ensures AllEncodable(rs) && Encodable(r) ==> AllEncodable([r] + rs)
    ensures EncodeAll([r] + rs) == EncodeRecord(r) + EncodeAll(rs)
  {
    EncodeAllAppend([r], rs);
    EncodeAllSnoc([], r);
    SeqFacts.AppendNil([r]);
    SeqFacts.AppendNil(EncodeRecord(r));
    if AllEncodable(rs) && Encodable(r) {
      forall i | 0 <= i < |[r] + rs| ensures Encodable(([r] + rs)[i]) {
        if i > 0 {
          assert ([r] + rs)[i] == rs[i - 1];
        }
      }
    }
  }

  /** The decoder reads one record back from the front of any log. */
  lemma ParseRecordEncode(r: Record, post: seq<Byte>)
    requires Encodable(r)
    ensures ParseRecord(EncodeRecord(r) + post) == Some((r, |EncodeRecord(r)|))
  {
    var e := EncodeRecord(r);
    var kb, vb := Utf8.Encode(r.key), ValueOf(r);
    SeqFacts.AppendNil(e);
    FrameParts([], TypeOf(r), kb, vb, post);
    DecodeEncodeHeader(Header(TypeOf(r), |kb|, |vb|));
    Utf8.DecodeEncode(r.key);
  }

  /** Round trip of the whole log: parsing the encoding of records gives the
      records back. */
  lemma {:induction false} ParseEncodeAll(rs: seq<Record>)
    requires AllEncodable(rs)
    ensures Parse(EncodeAll(rs)) == Some(rs)
    decreases |rs|
  {
    if rs != [] {
      var b := EncodeAll(rs);
      EncodeAllCons(rs[0], rs[1..]);
      SeqFacts.HeadTail(rs);
      ParseRecordEncode(rs[0], EncodeAll(rs[1..]));
      SeqFacts.DropAppend(EncodeRecord(rs[0]), EncodeAll(rs[1..]));
      ParseEncodeAll(rs[1..]);
    }
  }

  // ----- What a key holds after a sequence of records -----

  /** The position of the last record for `k`, or -1 when there is none. */
  function LastWith(rs: seq<Record>, k: string): (i: int)
    ensures -1 <= i < |rs|
    ensures i >= 0 ==> rs[i].key == k
    ensures forall j :: i < j < |rs| ==> rs[j].key != k
    decreases |rs|
  {
    if rs == [] then -1
    else if rs[|rs| - 1].key == k then |rs| - 1
    else LastWith(rs[..|rs| - 1], k)
  }

  /** What `readValueAt` yields for a record: its value, or `null` for a
      tombstone. */
  function ValueIfPut(r: Record): Option<JBytes> {
    if r.PutRecord? then Some(r.value) else None
  }

  /** The value of `k` after the records `rs`: the value of its last record,
      none when that is a tombstone or when `k` has no record. */
  function Lookup(rs: seq<Record>, k: string): Option<JBytes> {
    var i := LastWith(rs, k);
    if i < 0 then None else ValueIfPut(rs[i])
  }

  /** Get after put, get after delete: the last record decides its key's
      value and leaves every other key's value alone. */
  lemma LookupSnoc(rs: seq<Record>, r: Record, k: string)
    ensures Lookup(rs + [r], k) == if k == r.key then ValueIfPut(r) else Lookup(rs, k)
  {
    SeqFacts.Snoc(rs, r);
  }

  // ----- The index -----

  /** The index that put, delete and batchPut maintain: every record's key
      mapped to that record's start offset, later records overriding earlier
      ones (`index.put(key, pos)` after each append). */
  function IndexOf(rs: seq<Record>): (m: map<string, int>)
    decreases |rs|
  {
    if rs == [] then map[]
    else IndexOf(rs[..|rs| - 1])[rs[|rs| - 1].key := |EncodeAll(rs[..|rs| - 1])|]
  }

  /** Appending one record indexes its key at the old end of the log. */
  lemma IndexOfSnoc(rs: seq<Record>, init: seq<Record>, last: Record)
    requires rs == init + [last]
    ensures IndexOf(rs) == IndexOf(init)[last.key := |EncodeAll(init)|]
  {
    assert rs[..|rs| - 1] == init;
  }

  lemma AllEncodableSnoc(rs: seq<Record>, r: Record)
    requires AllEncodable(rs) && Encodable(r)
    ensures AllEncodable(rs + [r])
  {
    assert forall i :: 0 <= i < |rs| ==> (rs + [r])[i] == rs[i];
  }

  /** Appending a record to a well-formed log keeps it well-formed and
      indexes the record's key at the old end of the log. */
  lemma AppendKeepsIndex(rs: seq<Record>, r: Record)
    requires AllEncodable(rs) && Encodable(r)
    ensures AllEncodable(rs + [r])
    ensures EncodeAll(rs + [r]) == EncodeAll(rs) + EncodeRecord(r)
    ensures IndexOf(rs + [r]) == IndexOf(rs)[r.key := |EncodeAll(rs)|]
  {
    AllEncodableSnoc(rs, r);
    EncodeAllSnoc(rs, r);
    IndexOfSnoc(rs + [r], rs, r);
  }

  /** What the index means: a key is indexed exactly when some record has
      it, at the start offset of its last record. */
  lemma {:induction false} IndexOfLast(rs: seq<Record>, k: string)
    ensures k in IndexOf(rs) <==> LastWith(rs, k) >= 0
    ensures k in IndexOf(rs) ==> IndexOf(rs)[k] == OffsetOf(rs, LastWith(rs, k))
    decreases |rs|
  {
    if rs != [] {
      var n := |rs| - 1;
      var init := rs[..n];
      if rs[n].key != k {
        IndexOfLast(init, k);
        var i := LastWith(init, k);
        if i >= 0 {
          SeqFacts.TakeTake(rs, n, i);
        }
      }
    }
  }

  /** The front-to-back form of the index: records from offset `base` on,
      folded into `acc`. This is the shape of the start-up scan. */
  function IndexFrom(rs: seq<Record>, base: int, acc: map<string, int>): map<string, int>
    decreases |rs|
  {
    if rs == [] then acc
    else IndexFrom(rs[1..], base + RecordSize(rs[0]), acc[rs[0].key := base])
  }

  lemma IndexFromCons(rs: seq<Record>, base: int, acc: map<string, int>)
    requires rs != []
    ensures IndexFrom(rs, base, acc) == IndexFrom(rs[1..], base + RecordSize(rs[0]), acc[rs[0].key := base])
  {
  }

  /** The total size of a run of records, front to back. */
  function LogSize(rs: seq<Record>): nat
    decreases |rs|
  {
    if rs == [] then 0 else RecordSize(rs[0]) + LogSize(rs[1..])
  }

  /** The encoded log is as long as its records' sizes add up to. */
  lemma {:induction false} SizeOfLog(rs: seq<Record>)
    ensures |EncodeAll(rs)| == LogSize(rs)
    decreases |rs|
  {
    if rs != [] {
      SizeOfCons(rs);
      SizeOfLog(rs[1..]);
    }
  }

  /** Folding front to back and appending one record agree. */
  lemma {:induction false} IndexFromSnoc(rs: seq<Record>, r: Record, base: int, acc: map<string, int>)
    ensures IndexFrom(rs + [r], base, acc) == IndexFrom(rs, base, acc)[r.key := base + LogSize(rs)]
    decreases |rs|
  {
    if rs == [] {
      SeqFacts.AppendNil([r]);
      IndexFromFirst(rs + [r], r, [], base, base + RecordSize(r), acc, acc[r.key := base]);
    } else {
      var h, t := rs[0], rs[1..];
      var next, acc' := base + RecordSize(h), acc[h.key := base];
      SeqFacts.HeadTail(rs);
      SeqFacts.Assoc([h], t, [r]);
      IndexFromFirst(rs + [r], h, t + [r], base, next, acc, acc');
      IndexFromFirst(rs, h, t, base, next, acc, acc');
      IndexFromSnoc(t, r, next, acc');
    }
  }

  /** The front-to-back fold over one more record, with the offset of that
      record written as the size of the records before it. */
  lemma IndexFromStep(rs: seq<Record>, r: Record, base: int, acc: map<string, int>)
    ensures IndexFrom(rs + [r], base, acc) == IndexFrom(rs, base, acc)[r.key := base + |EncodeAll(rs)|]
  {
    IndexFromSnoc(rs, r, base, acc);
    SizeOfLog(rs);
  }

  lemma IndexFromFirst(rs: seq<Record>, h: Record, t: seq<Record>, base: int, next: int,
                       acc: map<string, int>, acc': map<string, int>)
    requires rs == [h] + t && next == base + RecordSize(h) && acc' == acc[h.key := base]
    ensures IndexFrom(rs, base, acc) == IndexFrom(t, next, acc')
  {
    SeqFacts.DropAppend([h], t);
  }

  lemma SizeOfCons(rs: seq<Record>)
    requires rs != []
    ensures |EncodeAll(rs)| == RecordSize(rs[0]) + |EncodeAll(rs[1..])|
  {
    EncodeAllCons(rs[0], rs[1..]);
    SeqFacts.HeadTail(rs);
  }

  /** The incremental index is the front-to-back fold from offset 0. */
  lemma {:induction false} IndexOfIsIndexFrom(rs: seq<Record>)
    ensures IndexOf(rs) == IndexFrom(rs, 0, map[])
    decreases |rs|
  {
    if rs != [] {
      var init := rs[..|rs| - 1];
      IndexOfIsIndexFrom(init);
      IndexFromSnoc(init, rs[|rs| - 1], 0, map[]);
      SizeOfLog(init);
      SeqFacts.InitLast(rs);
    }
  }

  /** A log splits around any of its records. */
  lemma SplitLog(rs: seq<Record>, i: nat)
    requires i < |rs|
    ensures EncodeAll(rs) == EncodeAll(rs[..i]) + EncodeRecord(rs[i]) + EncodeAll(rs[i + 1..])
  {
    SeqFacts.SplitAround(rs, i);
    EncodeAllAppend(rs[..i] + [rs[i]], rs[i + 1..]);
    EncodeAllSnoc(rs[..i], rs[i]);
  }

  /** Every indexed offset of a well-formed log is the start of the key's
      last record, so `readValueAt` there returns the key's value: the
      value of its last put, or `null` when its last record is a tombstone. */
  lemma ReadIndexed(rs: seq<Record>, k: string)
    requires AllEncodable(rs) && k in IndexOf(rs)
    ensures ReadValueAt(EncodeAll(rs), IndexOf(rs)[k]) == Ok(Lookup(rs, k))
  {
    IndexOfLast(rs, k);
    var i := LastWith(rs, k);
    SplitLog(rs, i);
    ReadValueAtRecord(EncodeAll(rs[..i]), rs[i], EncodeAll(rs[i + 1..]));
  }

  // ----- rebuildIndexFromLog -----

  /** Why the start-up scan stops early: a header or key cut short by the end
      of the log (`EOFException`), a negative key length (the key array cannot
      be allocated), a seek to a negative position, or a value length that
      would move the scan backwards or leave it in place. */
  datatype ScanError = TruncatedRecord | NegativeKeyLength | NegativeSeek | NoProgress

  /** The index the scan has built and, if it stopped early, why. */
  datatype ScanResult = ScanResult(index: map<string, int>, error: Option<ScanError>)

  /** What one turn of the loop of `rebuildIndexFromLog` does at `pos`. */
  datatype Step = End | Stop(error: ScanError) | Next(key: string, next: nat)

  /** One turn of the loop: at the end of the log the loop is over;
      otherwise read the header, read the key, and skip the value. A value
      cut short by the end of the log is not noticed (the seek goes past the
      end and the next turn ends the loop). */
  function StepAt(log: seq<Byte>, pos: nat): (s: Step)
    ensures s.Next? ==> s.next > pos
  {
    if pos >= |log| then End
    else if pos + HeaderSize > |log| then Stop(TruncatedRecord)
    else
      var h := DecodeHeader(log[pos..pos + HeaderSize]);
      if h.klen < 0 then Stop(NegativeKeyLength)
      else if pos + HeaderSize + h.klen > |log| then Stop(TruncatedRecord)
      else
        var next := pos + HeaderSize + h.klen + h.vlen;
        if next < 0 then Stop(NegativeSeek)
        else if next <= pos then Stop(NoProgress)
        else Next(Utf8.Decode(log[pos + HeaderSize..pos + HeaderSize + h.klen]), next)
  }

  /** The loop of `rebuildIndexFromLog` from position `pos` with the index
      built so far `acc`: each record's key is indexed at the record's start. */
  function Scan(log: seq<Byte>, pos: nat, acc: map<string, int>): ScanResult
    decreases |log| - pos
  {
    match StepAt(log, pos)
    case End => ScanResult(acc, None)
    case Stop(e) => ScanResult(acc, Some(e))
    case Next(k, next) => Scan(log, next, acc[k := pos])
  }

  /** A turn that moves on continues the scan from the next position. */
  lemma ScanNext(log: seq<Byte>, pos: nat, k: string, next: nat, acc: map<string, int>)
    requires StepAt(log, pos) == Next(k, next)
    ensures Scan(log, pos, acc) == Scan(log, next, acc[k := pos])
  {
  }

  /** One turn of the loop over a well-formed record reads its key and moves
      to the next record. */
  lemma StepOverRecord(pre: seq<Byte>, r: Record, rest: seq<Byte>)
    requires Encodable(r)
    ensures StepAt(pre + EncodeRecord(r) + rest, |pre|) == Next(r.key, |pre| + |EncodeRecord(r)|)
  {
    var kb, vb := Utf8.Encode(r.key), ValueOf(r);
    ReadHeaderFrame(pre, TypeOf(r), kb, vb, rest);
    FrameParts(pre, TypeOf(r), kb, vb, rest);
    Utf8.DecodeEncode(r.key);
  }

  /** The offset of the record after the `i`-th. */
  lemma OffsetNext(rs: seq<Record>, i: nat)
    requires i < |rs|
    ensures OffsetOf(rs, i + 1) == OffsetOf(rs, i) + RecordSize(rs[i])
  {
    assert rs[..i + 1] == rs[..i] + [rs[i]];
    EncodeAllSnoc(rs[..i], rs[i]);
  }

  /** In a log made of records, the loop reads the `i`-th record's key at
      its offset and moves to the offset of the next. */
  lemma StepInLog(rs: seq<Record>, i: nat)
    requires AllEncodable(rs) && i < |rs|
    ensures StepAt(EncodeAll(rs), OffsetOf(rs, i)) == Next(rs[i].key, OffsetOf(rs, i + 1))
  {
    SplitLog(rs, i);
    OffsetNext(rs, i);
    StepOverRecordIn(EncodeAll(rs), OffsetOf(rs, i), OffsetOf(rs, i + 1), EncodeAll(rs[..i]), rs[i], EncodeAll(rs[i + 1..]));
  }

  lemma StepOverRecordIn(log: seq<Byte>, pos: nat, next: nat, pre: seq<Byte>, r: Record, rest: seq<Byte>)
    requires Encodable(r) && log == pre + EncodeRecord(r) + rest
    requires pos == |pre| && next == pos + RecordSize(r)
    ensures StepAt(log, pos) == Next(r.key, next)
  {
    StepOverRecord(pre, r, rest);
  }

  lemma ScanEnd(log: seq<Byte>, pos: nat, acc: map<string, int>)
    requires pos >= |log|
    ensures Scan(log, pos, acc) == ScanResult(acc, None)
  {
  }

  lemma DropOne<T>(s: seq<T>, i: nat)
    requires i < |s|
    ensures s[i..] == [s[i]] + s[i + 1..]
  {
  }

  /** Scanning a log made of records from the offset of its `i`-th record
      folds the keys of that record and all later ones at their offsets. */
  lemma {:induction false} ScanFrom(rs: seq<Record>, i: nat, acc: map<string, int>)
    requires AllEncodable(rs) && i <= |rs|
    ensures Scan(EncodeAll(rs), OffsetOf(rs, i), acc) == ScanResult(IndexFrom(rs[i..], OffsetOf(rs, i), acc), None)
    decreases |rs| - i
  {
    var log := EncodeAll(rs);
    var off := OffsetOf(rs, i);
    if i == |rs| {
      SeqFacts.TakeAll(rs);
      ScanEnd(log, off, acc);
      assert rs[i..] == [];
    } else {
      var next, acc' := OffsetOf(rs, i + 1), acc[rs[i].key := off];
      StepInLog(rs, i);
      ScanNext(log, off, rs[i].key, next, acc);
      ScanFrom(rs, i + 1, acc');
      OffsetNext(rs, i);
      DropOne(rs, i);
      IndexFromFirst(rs[i..], rs[i], rs[i + 1..], off, next, acc, acc');
    }
  }

  /** The theorem of the start-up path: on a well-formed log, the scan of
      `rebuildIndexFromLog` completes and rebuilds exactly the index that
      put, delete and batchPut maintain incrementally. */
  lemma RebuildMatchesIncremental(rs: seq<Record>)
    requires AllEncodable(rs)
    ensures Scan(EncodeAll(rs), 0, map[]) == ScanResult(IndexOf(rs), None)
  {
    ScanFrom(rs, 0, map[]);
    assert rs[..0] == [] && rs[0..] == rs;
    IndexOfIsIndexFrom(rs);
  }
}
