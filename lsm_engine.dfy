/** The LSM engine's front: key validation, the created / started / closed
    lifecycle, writes handed to the write queue as tasks (which nothing ever
    runs), reads that consult the memtable and then the replicator, and a
    best-effort close that reports the first failure with the later ones
    attached. The write-ahead log, the SSTables and the compactor do nothing
    in this engine; where one of their calls could fail, the failure is a
    parameter. */
module LsmEngine {
  import opened Wrappers
  import opened Bytes
  import JavaText
  import JavaString
  import SeqFacts
  import opened LsmMemTable
  import opened LsmWriteQueue
  import opened LsmReplicator

  /** The most UTF-16 code units a key may have after trimming. */
  const MaxKeyLength: nat := 1024

  /** What a write hands to the queue: the lambda `put`, `delete` or
      `putBatch` builds, as data. Run, it would append to the WAL, update
      the memtable and write the SSTable; nothing runs it. */
  datatype Task =
    | PutTask(key: string, value: JBytes)
    | DeleteTask(key: string)
    | PutBatchTask(entries: Entries)

  /** The message of an `IOException` the engine throws. */
  datatype Cause =
    | InitFailed              // "Failed to initialize StorageEngine components"
    | EngineClosed            // "StorageEngine is closed"
    | NotStarted              // "StorageEngine not started. Call start() before use."
    | EmptyKey                // "Key must not be empty"
    | KeyTooLarge             // "Key too large (max 1024 chars)"
    | OpenWalFailed           // "Failed to open WAL: ..."
    | StartCompactorFailed    // "Failed to start compactor"
    | GetFailed               // "GET failed for key=...": no replicator to ask
    | StopCompactorFailed     // "Failed to stop compactor"
    | ShutdownQueueFailed     // "Failed to shutdown write queue"
    | CloseWalFailed          // "Failed to close WAL"

  /** An `IOException` with the exceptions `addSuppressed` attached to it. */
  datatype IOException = IOException(cause: Cause, suppressed: seq<IOException>)

  function Error(cause: Cause): IOException {
    IOException(cause, [])
  }

  /** `validateKey(key)`: the trimmed key, refused when empty or longer than
      1024 UTF-16 code units. */
  function ValidateKey(key: string): Result<string, IOException> {
    var k := JavaText.Trim(key);
    if k == [] then Err(Error(EmptyKey))
    else if JavaString.Length(k) > MaxKeyLength then Err(Error(KeyTooLarge))
    else Ok(k)
  }

  /** A validated key is a piece of the given key that neither starts nor
      ends with a character at or below U+0020, and it validates to itself:
      validating twice changes nothing. */
  lemma ValidatedKey(key: string)
    requires ValidateKey(key).Ok?
    ensures var k, i := ValidateKey(key).value, |key| - |JavaText.TrimLeft(key)|;
      && k != []
      && !JavaText.IsTrimmed(k[0]) && !JavaText.IsTrimmed(k[|k| - 1])
      && 0 <= i && i + |k| <= |key| && key[i..i + |k|] == k
    ensures ValidateKey(ValidateKey(key).value) == ValidateKey(key)
  {
    var k := ValidateKey(key).value;
    JavaText.TrimSpec(key);
    JavaText.TrimIdempotent(key);
    var i := |key| - |JavaText.TrimLeft(key)|;
    assert key[i..i + |k|] == k;
  }

  /** Validates keys in order and stops at the first that fails, as the
      loop of `getBatch` does. */
  function ValidateAll(keys: seq<string>): (r: Result<seq<string>, IOException>)
    ensures r.Ok? <==> forall i :: 0 <= i < |keys| ==> ValidateKey(keys[i]).Ok?
    ensures r.Ok? ==> |r.value| == |keys| && forall i :: 0 <= i < |keys| ==> ValidateKey(keys[i]) == Ok(r.value[i])
    decreases |keys|
  {
    if keys == [] then Ok([])
    else
      var init, last := keys[..|keys| - 1], keys[|keys| - 1];
      assert forall i :: 0 <= i < |init| ==> init[i] == keys[i];
      match ValidateAll(init)
      case Err(e) => Err(e)
      case Ok(ks) =>
        match ValidateKey(last)
        case Err(e) => Err(e)
        case Ok(k) => Ok(ks + [k])
  }

  /** The error is that of the first invalid key: every key before it is
      valid. */
  lemma {:induction false} ValidateAllFirstError(keys: seq<string>)
    requires ValidateAll(keys).Err?
    ensures exists i ::
      && 0 <= i < |keys| && ValidateKey(keys[i]) == Err(ValidateAll(keys).error)
      && (forall j :: 0 <= j < i ==> ValidateKey(keys[j]).Ok?)
    decreases |keys|
  {
    var init := keys[..|keys| - 1];
    assert forall i :: 0 <= i < |init| ==> init[i] == keys[i];
    if ValidateAll(init).Err? {
      ValidateAllFirstError(init);
      var i :| 0 <= i < |init| && ValidateKey(init[i]) == Err(ValidateAll(init).error)
        && (forall j :: 0 <= j < i ==> ValidateKey(init[j]).Ok?);
      assert keys[i] == init[i];
    } else {
      assert ValidateKey(keys[|keys| - 1]) == Err(ValidateAll(keys).error);
    }
  }

  /** Once a prefix of the keys holds an invalid key, the rest no longer
      matters. */
  lemma {:induction false} ValidateAllPrefix(keys: seq<string>, n: nat)
    requires n <= |keys| && ValidateAll(keys[..n]).Err?
    ensures ValidateAll(keys) == ValidateAll(keys[..n])
    decreases |keys| - n
  {
    if n < |keys| {
      var init := keys[..|keys| - 1];
      assert init[..n] == keys[..n];
      ValidateAllPrefix(init, n);
    } else {
      assert keys[..n] == keys;
    }
  }

  /** Past a valid key, the validated prefix grows by its trimmed form. */
  lemma ValidateAllNext(keys: seq<string>, i: nat)
    requires i < |keys| && ValidateAll(keys[..i]).Ok? && ValidateKey(keys[i]).Ok?
    ensures ValidateAll(keys[..i + 1]) == Ok(ValidateAll(keys[..i]).value + [ValidateKey(keys[i]).value])
  {
    var p := keys[..i + 1];
    assert p[..|p| - 1] == keys[..i] && p[|p| - 1] == keys[i];
  }

  /** The first invalid key decides the error of the whole list. */
  lemma ValidateAllStop(keys: seq<string>, i: nat)
    requires i < |keys| && ValidateAll(keys[..i]).Ok? && ValidateKey(keys[i]).Err?
    ensures ValidateAll(keys) == Err(ValidateKey(keys[i]).error)
  {
    var p := keys[..i + 1];
    assert p[..|p| - 1] == keys[..i] && p[|p| - 1] == keys[i];
    ValidateAllPrefix(keys, i + 1);
  }

  /** `wrap(existing, next)`: the first exception stays the one reported,
      and each later one is attached to it as suppressed. */
  function Wrap(existing: Option<IOException>, next: IOException): (r: IOException)
    ensures existing.None? ==> r == next
    ensures existing.Some? ==> (r.cause == existing.value.cause
      && r.suppressed == existing.value.suppressed + [next])
  {
    match existing
    case None => next
    case Some(e) => e.(suppressed := e.suppressed + [next])
  }

  /** The three steps of `close`, in the order it attempts them. */
  datatype CloseStep = StopCompactor | ShutdownQueue | CloseWal

  const CloseOrder: seq<CloseStep> := [StopCompactor, ShutdownQueue, CloseWal]

  function StepCause(s: CloseStep): Cause {
    match s
    case StopCompactor => StopCompactorFailed
    case ShutdownQueue => ShutdownQueueFailed
    case CloseWal => CloseWalFailed
  }

  /** The steps of `order` that are in `failing`, in order. */
  function Failing(order: seq<CloseStep>, failing: set<CloseStep>): (r: seq<CloseStep>)
    ensures forall s :: s in r <==> s in order && s in failing
    decreases |order|
  {
    if order == [] then []
    else (if order[0] in failing then [order[0]] else []) + Failing(order[1..], failing)
  }

  /** Every step is one of the three `close` attempts. */
  lemma CloseOrderComplete()
    ensures forall s: CloseStep :: s in CloseOrder
  {
    forall s: CloseStep ensures s in CloseOrder {
      match s
      case StopCompactor => assert CloseOrder[0] == s;
      case ShutdownQueue => assert CloseOrder[1] == s;
      case CloseWal => assert CloseOrder[2] == s;
    }
  }

  /** The failing steps of `close`, spelt out step by step. */
  lemma FailingInOrder(failing: set<CloseStep>)
    ensures Failing(CloseOrder, failing) ==
      (if StopCompactor in failing then [StopCompactor] else [])
      + (if ShutdownQueue in failing then [ShutdownQueue] else [])
      + (if CloseWal in failing then [CloseWal] else [])
  {
    assert CloseOrder[1..] == [ShutdownQueue, CloseWal];
    assert CloseOrder[1..][1..] == [CloseWal];
    assert CloseOrder[1..][1..][1..] == [];
  }

  /** The exceptions attached as suppressed, one per step, in order. */
  function Suppressed(fs: seq<CloseStep>): (r: seq<IOException>)
    ensures |r| == |fs|
  {
    seq(|fs|, i requires 0 <= i < |fs| => Error(StepCause(fs[i])))
  }

  /** The exception reported for the failing steps `fs`: the first step's,
      carrying the later ones as suppressed; none when nothing failed. */
  function Reported(fs: seq<CloseStep>): (r: Option<IOException>)
    ensures r.None? <==> fs == []
  {
    if fs == [] then None else Some(IOException(StepCause(fs[0]), Suppressed(fs[1..])))
  }

  /** Wrapping the exception of one more failing step onto what was reported
      so far reports the longer list. */
  lemma WrapReported(fs: seq<CloseStep>, s: CloseStep)
    ensures Some(Wrap(Reported(fs), Error(StepCause(s)))) == Reported(fs + [s])
  {
    if fs != [] {
      assert (fs + [s])[1..] == fs[1..] + [s];
      assert Suppressed(fs[1..] + [s]) == Suppressed(fs[1..]) + [Error(StepCause(s))];
    }
  }

  /** What a first `close` reports when the steps in `failing` fail: nothing
      when none does; otherwise the first failing step's exception, with one
      suppressed exception per later failing step, in step order. */
  function CloseReport(failing: set<CloseStep>): (r: Outcome<IOException>)
    ensures r.Pass? <==> failing == {}
  {
    CloseOrderComplete();
    match Reported(Failing(CloseOrder, failing))
    case None => Pass
    case Some(e) => Fail(e)
  }

  class StorageEngine {
    var started: bool
    var closed: bool
    const mem: MemTable
    const queue: WriteQueue<Task>
    /** The injected replicator; `null` when none is configured. */
    const replicator: Replicator?

    /** Nothing ever writes to the memtable: the writes only queue tasks. */
    predicate Valid()
      reads this, mem, queue
    {
      mem.entries == map[] && queue.Valid()
    }

    /** Builds the collaborators; the write queue gets `capacity`. */
    constructor(capacity: nat, replicator: Replicator?)
      requires capacity >= 1
      ensures Valid() && !started && !closed
      ensures queue.tasks == [] && queue.capacity == capacity && this.replicator == replicator
      ensures fresh(mem) && fresh(queue)
    {
      started := false;
      closed := false;
      mem := new MemTable();
      queue := new WriteQueue(capacity);
      this.replicator := replicator;
    }

    /** `new StorageEngine(dataDir, cfg, replicator)`: a capacity the write
        queue refuses makes the constructor throw. */
    static method Create(capacity: int, replicator: Replicator?) returns (r: Result<StorageEngine, IOException>)
      ensures r.Err? <==> capacity < 1
      ensures r.Err? ==> r.error == Error(InitFailed)
      ensures r.Ok? ==> fresh(r.value) && fresh(r.value.mem) && fresh(r.value.queue)
      ensures r.Ok? ==> r.value.Valid() && !r.value.started && !r.value.closed
      ensures r.Ok? ==> r.value.queue.tasks == [] && r.value.queue.capacity == capacity
      ensures r.Ok? ==> r.value.replicator == replicator
    {
      if capacity < 1 {
        r := Err(Error(InitFailed));
      } else {
        var e := new StorageEngine(capacity, replicator);
        r := Ok(e);
      }
    }

    /** `ensureNotClosed()`. */
    function EnsureNotClosed(): (r: Outcome<IOException>)
      reads this
      ensures r.Pass? <==> !closed
      ensures r.Fail? ==> r.error == Error(EngineClosed)
    {
      if closed then Fail(Error(EngineClosed)) else Pass
    }

    /** `ensureReady()`: usable only after `start` and before `close`; a
        closed engine reports that it is closed, started or not. */
    function EnsureReady(): (r: Outcome<IOException>)
      reads this
      ensures r.Pass? <==> started && !closed
      ensures closed ==> r == Fail(Error(EngineClosed))
      ensures !closed && !started ==> r == Fail(Error(NotStarted))
    {
      if EnsureNotClosed().Fail? then EnsureNotClosed()
      else if !started then Fail(Error(NotStarted))
      else Pass
    }

    /** The tasks after offering `t` to the queue that held `before`. */
    function Offered(before: seq<Task>, t: Task): seq<Task> {
      if |before| < queue.capacity then before + [t] else before
    }

    /** `start()`: refused once closed; one-shot, so a second call returns
        at once. The started flag is set before the WAL is opened, so even a
        start that fails leaves the engine accepting operations. */
    method Start(walOpenFails: bool, compactorStartFails: bool) returns (r: Outcome<IOException>)
      requires Valid()
      modifies this
      ensures Valid()
      ensures closed == old(closed)
      ensures started == (old(started) || !old(closed))
      ensures old(closed) ==> r == Fail(Error(EngineClosed))
      ensures !old(closed) && old(started) ==> r == Pass
      ensures !old(closed) && !old(started) ==>
        r == (if walOpenFails then Fail(Error(OpenWalFailed))
              else if compactorStartFails then Fail(Error(StartCompactorFailed))
              else Pass)
      ensures !closed ==> EnsureReady().Pass?
    {
      r := EnsureNotClosed();
      if r.Fail? {
        return;
      }
      if started {
        return;
      }
      started := true;
      if walOpenFails {
        r := Fail(Error(OpenWalFailed));
        return;
      }
      mem.RecoverFromWAL();
      if compactorStartFails {
        r := Fail(Error(StartCompactorFailed));
        return;
      }
    }

    /** `close()`: only the first call does anything. It attempts all three
        steps whatever fails, throws the first failure with the later ones
        suppressed, and clears the queue unless clearing it is what failed. */
    method Close(failing: set<CloseStep>) returns (r: Outcome<IOException>)
      requires Valid()
      modifies this, queue
      ensures Valid()
      ensures closed && started == old(started)
      ensures old(closed) ==> r == Pass && queue.tasks == old(queue.tasks)
      ensures !old(closed) ==> r == CloseReport(failing)
      ensures !old(closed) ==> queue.tasks == if ShutdownQueue in failing then old(queue.tasks) else []
    {
      if closed {
        r := Pass;
        return;
      }
      closed := true;
      var first: Option<IOException> := None;
      ghost var fs: seq<CloseStep> := [];
      if StopCompactor in failing {
        WrapReported(fs, StopCompactor);
        first := Some(Wrap(first, Error(StopCompactorFailed)));
        fs := fs + [StopCompactor];
      }
      if ShutdownQueue in failing {
        WrapReported(fs, ShutdownQueue);
        first := Some(Wrap(first, Error(ShutdownQueueFailed)));
        fs := fs + [ShutdownQueue];
      } else {
        queue.Shutdown();
      }
      if CloseWal in failing {
        WrapReported(fs, CloseWal);
        first := Some(Wrap(first, Error(CloseWalFailed)));
        fs := fs + [CloseWal];
      }
      FailingInOrder(failing);
      assert Failing(CloseOrder, failing) == fs;
      assert first == Reported(fs);
      r := if first.Some? then Fail(first.value) else Pass;
    }

    /** The value `getBatch` finds for a validated key: the memtable's, else
        the replicator's, else none. The memtable is always empty, so it is
        the replicator's. */
    function Visible(k: string): (v: Option<JBytes>)
      reads this, mem, replicator
      ensures Valid() ==> v == (if replicator == null then None else replicator.Get(k))
    {
      var m := mem.Get(k);
      if m.Some? then m
      else if replicator != null then replicator.Get(k)
      else None
    }

    /** `get(key)`: the memtable's value if present, else the replicator's
        answer (possibly `null`); with no replicator, a memtable miss throws.
        Since the memtable stays empty, a read is the replicator's. */
    function Get(key: string): (r: Result<Option<JBytes>, IOException>)
      reads this, mem, replicator
      ensures EnsureReady().Fail? ==> r == Err(EnsureReady().error)
      ensures EnsureReady().Pass? && ValidateKey(key).Err? ==> r == Err(ValidateKey(key).error)
      ensures r.Ok? ==> r.value == Visible(ValidateKey(key).value)
      ensures Valid() && EnsureReady().Pass? && ValidateKey(key).Ok? ==>
        if replicator == null then r == Err(Error(GetFailed))
        else r == Ok(replicator.Get(ValidateKey(key).value))
    {
      if EnsureReady().Fail? then Err(EnsureReady().error)
      else
        match ValidateKey(key)
        case Err(e) => Err(e)
        case Ok(k) =>
          var m := mem.Get(k);
          if m.Some? then Ok(m)
          else if replicator == null then Err(Error(GetFailed))
          else Ok(replicator.Get(k))
    }

    /** `put(key, value)`: queues a put of the trimmed key and the value
        (`null` stored as empty), which never reaches the memtable, and
        writes the same pair to the replicator, which is what later reads
        see. */
    method Put(key: string, value: Option<JBytes>) returns (r: Outcome<IOException>)
      requires Valid()
      modifies queue, replicator
      ensures Valid()
      ensures r.Pass? <==> EnsureReady().Pass? && ValidateKey(key).Ok?
      ensures EnsureReady().Fail? ==> r == EnsureReady()
      ensures EnsureReady().Pass? && ValidateKey(key).Err? ==> r == Fail(ValidateKey(key).error)
      ensures r.Fail? ==> queue.tasks == old(queue.tasks)
      ensures r.Fail? && replicator != null ==> replicator.store == old(replicator.store)
      ensures r.Pass? ==> queue.tasks == Offered(old(queue.tasks), PutTask(ValidateKey(key).value, value.GetOr([])))
      ensures r.Pass? && replicator != null ==>
        replicator.store == old(replicator.store)[ValidateKey(key).value := value.GetOr([])]
      ensures r.Pass? && replicator != null ==> Get(key) == Ok(Some(value.GetOr([])))
    {
      r := EnsureReady();
      if r.Fail? {
        return;
      }
      var vk := ValidateKey(key);
      if vk.Err? {
        r := Fail(vk.error);
        return;
      }
      var k, v := vk.value, value.GetOr([]);
      queue.Enqueue(PutTask(k, v));
      if replicator != null {
        replicator.Put(k, v);
      }
    }

    /** `delete(key)`: queues a delete of the trimmed key and nothing else;
        the replicator is not told, so a read still sees the old value. */
    method Delete(key: string) returns (r: Outcome<IOException>)
      requires Valid()
      modifies queue
      ensures Valid()
      ensures r.Pass? <==> EnsureReady().Pass? && ValidateKey(key).Ok?
      ensures EnsureReady().Fail? ==> r == EnsureReady()
      ensures EnsureReady().Pass? && ValidateKey(key).Err? ==> r == Fail(ValidateKey(key).error)
      ensures r.Fail? ==> queue.tasks == old(queue.tasks)
      ensures r.Pass? ==> queue.tasks == Offered(old(queue.tasks), DeleteTask(ValidateKey(key).value))
      ensures Get(key) == old(Get(key))
    {
      r := EnsureReady();
      if r.Fail? {
        return;
      }
      var vk := ValidateKey(key);
      if vk.Err? {
        r := Fail(vk.error);
        return;
      }
      queue.Enqueue(DeleteTask(vk.value));
    }

    /** `putBatch(entries)`: queues the whole map as one task without
        validating a key (that happens inside the task), then hands the
        untrimmed entries to the replicator, whose `NullPointerException` on
        a `null` value is swallowed after the entries before it are stored. */
    method PutBatch(entries: Entries) returns (r: Outcome<IOException>)
      requires Valid() && DistinctKeys(entries)
      modifies queue, replicator
      ensures Valid()
      ensures r == EnsureReady()
      ensures r.Fail? ==> queue.tasks == old(queue.tasks)
      ensures r.Fail? && replicator != null ==> replicator.store == old(replicator.store)
      ensures r.Pass? ==> queue.tasks == Offered(old(queue.tasks), PutBatchTask(entries))
      ensures r.Pass? && replicator != null ==> BatchStored(old(replicator.store), replicator.store, entries)
    {
      r := EnsureReady();
      if r.Fail? {
        return;
      }
      queue.Enqueue(PutBatchTask(entries));
      if replicator != null {
        var ignored := replicator.PutBatch(entries);
      }
    }

    /** `getBatch(keys)`: an invalid key aborts the call with its error;
        otherwise the result maps each trimmed key that has a value to it,
        the memtable before the replicator, and leaves the others out. */
    method GetBatch(keys: seq<string>) returns (r: Result<map<string, JBytes>, IOException>)
      ensures EnsureReady().Fail? ==> r == Err(EnsureReady().error)
      ensures EnsureReady().Pass? ==> (r.Ok? <==> ValidateAll(keys).Ok?)
      ensures EnsureReady().Pass? && r.Err? ==> r.error == ValidateAll(keys).error
      ensures r.Ok? ==> forall k :: k in r.value <==> k in ValidateAll(keys).value && Visible(k).Some?
      ensures r.Ok? ==> forall k :: k in r.value ==> Visible(k) == Some(r.value[k])
    {
      var ready := EnsureReady();
      if ready.Fail? {
        r := Err(ready.error);
        return;
      }
      var results: map<string, JBytes> := map[];
      var i := 0;
      while i < |keys|
        invariant 0 <= i <= |keys|
        invariant ValidateAll(keys[..i]).Ok?
        invariant forall k :: k in results <==> k in ValidateAll(keys[..i]).value && Visible(k).Some?
        invariant forall k :: k in results ==> Visible(k) == Some(results[k])
      {
        var vk := ValidateKey(keys[i]);
        if vk.Err? {
          ValidateAllStop(keys, i);
          r := Err(vk.error);
          return;
        }
        ValidateAllNext(keys, i);
        var k := vk.value;
        var m := mem.Get(k);
        if m.Some? {
          results := results[k := m.value];
        } else {
          var rv := if replicator != null then replicator.Get(k) else None;
          if rv.Some? {
            results := results[k := rv.value];
          }
        }
        i := i + 1;
      }
      assert keys[..|keys|] == keys;
      r := Ok(results);
    }

    /** `getRange(startKey, endKey)`: the replicator's inclusive range, or an
        empty map when no replicator is configured. */
    method GetRange(startKey: string, endKey: string) returns (r: Result<map<string, JBytes>, IOException>)
      ensures EnsureReady().Fail? ==> r == Err(EnsureReady().error)
      ensures EnsureReady().Pass? && replicator == null ==> r == Ok(map[])
      ensures EnsureReady().Pass? && replicator != null ==> (r.Ok?
        && (forall k :: k in r.value <==> k in replicator.store && InRange(k, startKey, endKey))
        && (forall k :: k in r.value ==> r.value[k] == replicator.store[k]))
    {
      var ready := EnsureReady();
      if ready.Fail? {
        r := Err(ready.error);
      } else if replicator == null {
        r := Ok(map[]);
      } else {
        var m := replicator.GetRange(startKey, endKey);
        r := Ok(m);
      }
    }
  }
}
