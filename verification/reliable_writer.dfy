/**
 * The chunked writer of `FioTBluetoothLE`: `writeWithReadBack` (and `write`,
 * which is it without a progress listener) and `writeWithoutReadBack`.
 *
 * The writer runs on the caller's thread and blocks on two monitors. It is
 * modelled as a state machine whose phase says where the thread stands:
 * `Ready` at the loop test, `AwaitWrite` in `write.wait()`, `AwaitRead` in
 * `read.wait()` while the periodic read-back timer runs, `Finished` after the
 * loop. Monitor notifications, timer ticks and read results are events; a
 * notification that finds no thread waiting on its monitor is lost, as in Java.
 */
module ReliableWriter {
  import opened Wrappers
  import opened JavaTypes
  import opened Gatt
  import opened ByteUtils
  import opened Seqs
  import LE = BluetoothLE

  /** Read-back attempts per timer cycle before the chunk is written again. */
  const MAX_NUM_READ: nat := 3

  datatype Phase = Ready | AwaitWrite | AwaitRead | Finished

  datatype Writer = Writer(
    ch: Option<GattChar>,       // target, also `compareCharacteristics`
    data: Bytes,                // dataToWrite
    blockSize: Int32,
    readBack: bool,             // writeWithReadBack rather than writeWithoutReadBack
    hasListener: bool,          // a SendListener was passed
    sent: nat,                  // numBytesSent
    compareBytes: Bytes,        // the chunk last written
    chunks: seq<Bytes>,         // every chunk taken from dataToWrite, in order
    counter: nat,               // read attempts in the current cycle
    phase: Phase)

  datatype WriterEvent =
    | Run                                          // the writer thread runs its loop head
    | WriteNotify                                  // onCharacteristicWrite or the 1 s write timeout
    | ReadTick                                     // the read-back timer fires (every second)
    | ReadBack(target: GattChar, value: ByteArray) // onCharacteristicRead
    | LinkLost                                     // onConnectionStateChange's notifyAll on both monitors

  datatype WriterStep = WriterStep(w: Writer, acts: seq<Action>)

  /** The writer's bookkeeping: chunks tile the sent prefix, and a waiting writer compares against its last chunk. */
  predicate Valid(w: Writer)
  {
    |w.data| <= INT_MAX &&
    w.sent <= |w.data| &&
    Flatten(w.chunks) == w.data[..w.sent] &&
    (forall k :: 0 <= k < |w.chunks| ==> 0 < |w.chunks[k]| <= w.blockSize) &&
    (w.phase.AwaitWrite? || w.phase.AwaitRead? ==> |w.chunks| > 0 && w.compareBytes == w.chunks[|w.chunks| - 1]) &&
    (w.phase.AwaitRead? ==> w.readBack)
  }

  /**
   * The call itself: `compareCharacteristics` is set and the loop is entered.
   * `counter` and `compareBytes` belong to the `FioTBluetoothLE` object and
   * carry over from earlier writes.
   */
  function Start(ch: Option<GattChar>, data: Bytes, blockSize: Int32, readBack: bool, hasListener: bool,
                 counter: nat, compareBytes: Bytes): (w: Writer)
    requires |data| <= INT_MAX
    ensures Valid(w) && w.phase == Ready && w.sent == 0 && w.chunks == []
    ensures w.data == data && w.ch == ch && w.counter == counter
  {
    Writer(ch, data, blockSize, readBack, hasListener, 0, compareBytes, [], counter, Ready)
  }

  /** The `Sent(n)` progress reports in a trace, in order. */
  function SentValues(acts: seq<Action>): (r: seq<nat>)
    ensures |r| <= |acts|
  {
    if |acts| == 0 then []
    else (if acts[0].Sent? then [acts[0].num] else []) + SentValues(acts[1..])
  }

  lemma SentValuesAppend(a: seq<Action>, b: seq<Action>)
    ensures SentValues(a + b) == SentValues(a) + SentValues(b)
  {
    if |a| > 0 {
      assert (a + b)[1..] == a[1..] + b;
    } else {
      assert a + b == b;
    }
  }

  /**
   * One pass of the loop head: the loop test, then `subByteArray` cuts the next
   * chunk, which is written and counted before the writer waits for the
   * acknowledgement. A non-positive block size yields a `null` chunk whose
   * `length` throws; a block size that makes `numBytesSent + blockSize`
   * overflow makes `subByteArray` throw.
   */
  function RunLoopHead(w: Writer, le: LE.LeState): (r: WriterStep)
    requires Valid(w) && w.phase.Ready?
    ensures Valid(r.w)
    ensures r.w.phase.Finished? || r.w.phase.AwaitWrite?
    ensures LoopHeadOutcome(w, le, r)
    ensures w.sent <= r.w.sent
    ensures r.w.data == w.data && r.w.ch == w.ch && r.w.blockSize == w.blockSize
    ensures |SentValues(r.acts)| <= 1
    ensures forall n :: n in SentValues(r.acts) ==> w.sent < n == r.w.sent
  {
    if !(w.sent < |w.data| && !le.disableWrite) then Finish(w, [])
    else match SubByteArray(w.data, w.sent, w.blockSize)
      case Failure(e) => Finish(w, [Threw(e)])
      case Success(None) =>
        // blockSize <= 0: `bytes.length` on the null chunk
        Finish(w, [Threw(NullPointer)])
      case Success(Some(bytes)) => WriteChunk(w, le, bytes)
  }

  /**
   * The outcomes of the loop head. With everything sent or writes disabled the
   * loop ends silently. Otherwise it ends on the `null` chunk of a non-positive
   * block size, or on the exception of an end position that overflows, or else
   * the next slice of at most `blockSize` bytes is written.
   */
  predicate LoopHeadOutcome(w: Writer, le: LE.LeState, r: WriterStep)
  {
    if w.sent >= |w.data| || le.disableWrite then r == WriterStep(w.(phase := Finished), [])
    else if w.blockSize <= 0 then r == WriterStep(w.(phase := Finished), [Threw(NullPointer)])
    else if w.sent + w.blockSize > INT_MAX then r == WriterStep(w.(phase := Finished), [Threw(IllegalArgument)])
    else WroteChunk(w, le, Slice(w.data, w.sent, w.blockSize), r)
  }

  /** Leaving the loop: nothing else changes and nothing is reported. */
  function Finish(w: Writer, acts: seq<Action>): (r: WriterStep)
    requires Valid(w) && SentValues(acts) == []
    ensures Valid(r.w) && r.w == w.(phase := Finished) && r.acts == acts && SentValues(r.acts) == []
  {
    WriterStep(w.(phase := Finished), acts)
  }

  /**
   * The loop body for a non-empty chunk: write it to the target, count it,
   * report the new count and wait for the acknowledgement. The write is
   * skipped without a target or a connection.
   */
  function WriteChunk(w: Writer, le: LE.LeState, bytes: Bytes): (r: WriterStep)
    requires Valid(w) && w.sent < |w.data| && 0 < w.blockSize
    requires bytes == Slice(w.data, w.sent, w.blockSize)
    ensures Valid(r.w) && r.w.phase.AwaitWrite?
    ensures WroteChunk(w, le, bytes, r)
    ensures r.w.sent == w.sent + |bytes| && r.w.data == w.data && r.w.ch == w.ch && r.w.blockSize == w.blockSize
    ensures SentValues(r.acts) == (if w.hasListener then [r.w.sent] else [])
  {
    var writeActs := LE.WriteToCharacteristic(le, w.ch, bytes).1;
    var report := if w.hasListener then [Sent(w.sent + |bytes|)] else [];
    ChunkKeepsValid(w, bytes);
    SentValuesAppend(writeActs, report);
    assert SentValues(writeActs) == [] by {
      if |writeActs| > 0 { assert writeActs[1..] == []; }
    }
    WriterStep(w.(sent := w.sent + |bytes|, compareBytes := bytes, chunks := w.chunks + [bytes], phase := AwaitWrite),
               writeActs + report)
  }

  /**
   * `r` is the loop body's outcome for `bytes`: the chunk is counted, kept as
   * the comparison value and appended to the chunks, and the writer waits;
   * the chunk is written to the target when there is one and a connection,
   * and the new count is reported to a listener.
   */
  predicate WroteChunk(w: Writer, le: LE.LeState, bytes: Bytes, r: WriterStep)
  {
    r.w == w.(sent := w.sent + |bytes|, compareBytes := bytes, chunks := w.chunks + [bytes], phase := AwaitWrite) &&
    r.acts == (if w.ch.Some? && le.hasGatt then [WriteCharacteristic(w.ch.value, bytes)] else []) +
              (if w.hasListener then [Sent(w.sent + |bytes|)] else [])
  }

  /** Appending the next slice as a chunk keeps the chunks tiling the sent prefix. */
  lemma ChunkKeepsValid(w: Writer, bytes: Bytes)
    requires Valid(w) && w.sent < |w.data| && 0 < w.blockSize
    requires bytes == Slice(w.data, w.sent, w.blockSize)
    ensures Valid(w.(sent := w.sent + |bytes|, compareBytes := bytes, chunks := w.chunks + [bytes], phase := AwaitWrite))
  {
    var sent' := w.sent + |bytes|;
    assert w.data[..sent'] == w.data[..w.sent] + bytes;
    FlattenSnoc(w.chunks, bytes);
  }

  /** A notification on the `write` monitor: a waiting writer goes on to read back, or to the next chunk without read-back. */
  function OnWriteNotify(w: Writer): (r: WriterStep)
    ensures Valid(w) ==> Valid(r.w)
    ensures r.acts == []
    ensures !w.phase.AwaitWrite? ==> r.w == w
    ensures w.phase.AwaitWrite? ==> r.w == w.(phase := if w.readBack then AwaitRead else Ready)
  {
    if w.phase.AwaitWrite? then WriterStep(w.(phase := if w.readBack then AwaitRead else Ready), [])
    else WriterStep(w, [])
  }

  /**
   * A tick of the read-back timer: fewer than `MAX_NUM_READ` attempts so far
   * requests a read and counts it; otherwise the counter restarts and the
   * last chunk is written again.
   */
  function OnReadTick(w: Writer, le: LE.LeState): (r: WriterStep)
    ensures Valid(w) ==> Valid(r.w)
    ensures SentValues(r.acts) == []
    ensures !w.phase.AwaitRead? ==> r == WriterStep(w, [])
    ensures w.phase.AwaitRead? && w.counter < MAX_NUM_READ ==>
              r.w == w.(counter := w.counter + 1) && r.acts == LE.RequestCharacteristicValue(le, w.ch)
    ensures w.phase.AwaitRead? && w.counter >= MAX_NUM_READ ==>
              r.w == w.(counter := 0) &&
              r.acts == (if w.ch.Some? && le.hasGatt then [WriteCharacteristic(w.ch.value, w.compareBytes)] else [])
  {
    if !w.phase.AwaitRead? then WriterStep(w, [])
    else
      var r :=
        if w.counter < MAX_NUM_READ then
          WriterStep(w.(counter := w.counter + 1), LE.RequestCharacteristicValue(le, w.ch))
        else
          WriterStep(w.(counter := 0), LE.WriteToCharacteristic(le, w.ch, w.compareBytes).1);
      assert SentValues(r.acts) == [] by {
        if |r.acts| > 0 { assert r.acts[1..] == []; }
      }
      r
  }

  /**
   * A read result: only a read of the compared characteristic whose value
   * equals the last chunk counts. It restarts the counter, stops the timer and
   * releases a writer waiting on `read`; any other read changes nothing.
   */
  function OnReadBack(w: Writer, target: GattChar, value: ByteArray): (r: WriterStep)
    ensures Valid(w) ==> Valid(r.w)
    ensures r.acts == []
    ensures !(SameHandle(w.ch, target) && value == Some(w.compareBytes)) ==> r.w == w
    ensures SameHandle(w.ch, target) && value == Some(w.compareBytes) ==>
              r.w == w.(counter := 0, phase := if w.phase.AwaitRead? then Ready else w.phase)
  {
    if SameHandle(w.ch, target) && value == Some(w.compareBytes) then
      WriterStep(w.(counter := 0, phase := if w.phase.AwaitRead? then Ready else w.phase), [])
    else WriterStep(w, [])
  }

  /**
   * `notifyAll` on `read`, then on `write`. A writer in `read.wait()` returns to
   * the loop head. A writer in `write.wait()` wakes only after the `read`
   * notification has gone by, so with read-back it goes on to wait on `read`.
   */
  function OnLinkLost(w: Writer): (r: WriterStep)
    ensures Valid(w) ==> Valid(r.w)
    ensures r.acts == []
    ensures w.phase.AwaitRead? ==> r.w == w.(phase := Ready)
    ensures w.phase.AwaitWrite? ==> r.w == w.(phase := if w.readBack then AwaitRead else Ready)
    ensures w.phase.Ready? || w.phase.Finished? ==> r.w == w
  {
    match w.phase
    case AwaitRead => WriterStep(w.(phase := Ready), [])
    case AwaitWrite => OnWriteNotify(w)
    case _ => WriterStep(w, [])
  }

  /** One event; `Run` only moves a writer standing at the loop head. */
  function Step(w: Writer, le: LE.LeState, ev: WriterEvent): (r: WriterStep)
    requires Valid(w)
    ensures Valid(r.w)
    ensures r.w.data == w.data && r.w.ch == w.ch && r.w.blockSize == w.blockSize
    ensures w.sent <= r.w.sent
    ensures forall n :: n in SentValues(r.acts) ==> w.sent < n == r.w.sent
    ensures |SentValues(r.acts)| <= 1
    ensures w.phase.Finished? ==> r.w.phase.Finished? && r.w.sent == w.sent && r.acts == []
  {
    assert SentValues([]) == [];
    match ev
    case Run =>
      if w.phase.Ready? then RunLoopHead(w, le)
      else WriterStep(w, [])
    case WriteNotify => OnWriteNotify(w)
    case ReadTick => OnReadTick(w, le)
    case ReadBack(target, value) => OnReadBack(w, target, value)
    case LinkLost => OnLinkLost(w)
  }

  /** A schedule of events: each one paired with the connection state when it happens. */
  function Execute(w: Writer, evs: seq<(LE.LeState, WriterEvent)>): (r: WriterStep)
    requires Valid(w)
    decreases |evs|
  {
    if |evs| == 0 then WriterStep(w, [])
    else
      var s := Step(w, evs[0].0, evs[0].1);
      var rest := Execute(s.w, evs[1..]);
      WriterStep(rest.w, s.acts + rest.acts)
  }

  predicate StrictlyIncreasing(s: seq<nat>)
  {
    forall i, j :: 0 <= i < j < |s| ==> s[i] < s[j]
  }

  /**
   * Over any schedule, the writer stays valid, the progress reports
   * `sent(n)` strictly increase, each lies above the starting count and
   * none exceeds the final count.
   */
  lemma {:induction false} ExecuteReportsIncrease(w: Writer, evs: seq<(LE.LeState, WriterEvent)>)
    requires Valid(w)
    ensures Valid(Execute(w, evs).w)
    ensures w.sent <= Execute(w, evs).w.sent
    ensures StrictlyIncreasing(SentValues(Execute(w, evs).acts))
    ensures forall n :: n in SentValues(Execute(w, evs).acts) ==> w.sent < n <= Execute(w, evs).w.sent
    ensures Execute(w, evs).w.data == w.data
    decreases |evs|
  {
    if |evs| > 0 {
      var s := Step(w, evs[0].0, evs[0].1);
      var rest := Execute(s.w, evs[1..]);
      ExecuteReportsIncrease(s.w, evs[1..]);
      SentValuesAppend(s.acts, rest.acts);
      IncreasingConcat(SentValues(s.acts), SentValues(rest.acts), w.sent, s.w.sent, rest.w.sent);
    }
  }

  /** Joining at most one report at or below `mid` with increasing reports above `mid`. */
  lemma IncreasingConcat(a: seq<nat>, b: seq<nat>, lo: nat, mid: nat, hi: nat)
    requires |a| <= 1 && (forall n :: n in a ==> lo < n <= mid)
    requires StrictlyIncreasing(b) && (forall n :: n in b ==> mid < n <= hi)
    requires lo <= mid <= hi
    ensures StrictlyIncreasing(a + b)
    ensures forall n :: n in a + b ==> lo < n <= hi
  {
    forall i, j | 0 <= i < j < |a + b|
      ensures (a + b)[i] < (a + b)[j]
    {
      if i < |a| {
        assert a[i] in a && b[j - |a|] in b;
      }
    }
    forall n | n in a + b
      ensures lo < n <= hi
    {
      assert n in a || n in b;
    }
  }

  /** The payloads of the `WriteCharacteristic` actions in a trace, in order. */
  function Written(acts: seq<Action>): (r: seq<Bytes>)
    ensures |r| <= |acts|
  {
    if |acts| == 0 then []
    else (if acts[0].WriteCharacteristic? then [acts[0].bytes] else []) + Written(acts[1..])
  }

  lemma WrittenAppend(a: seq<Action>, b: seq<Action>)
    ensures Written(a + b) == Written(a) + Written(b)
  {
    if |a| > 0 {
      assert (a + b)[1..] == a[1..] + b;
    } else {
      assert a + b == b;
    }
  }

  /** Position of the last chunk, or 0 when there is none. */
  function LastIndex(chunks: seq<Bytes>): nat
  {
    if |chunks| == 0 then 0 else |chunks| - 1
  }

  /**
   * Each payload of `ps` is a chunk of `chunks` at position `lo` or later, and
   * the positions of successive payloads never go back.
   */
  predicate InOrder(ps: seq<Bytes>, chunks: seq<Bytes>, lo: nat)
    decreases |ps|
  {
    |ps| == 0 || exists k :: lo <= k < |chunks| && ps[0] == chunks[k] && InOrder(ps[1..], chunks, k)
  }

  /** Payloads all equal to the chunk at `m`, followed by payloads in order from `m`, are in order from any `lo <= m`. */
  lemma {:induction false} InOrderPrepend(a: seq<Bytes>, b: seq<Bytes>, chunks: seq<Bytes>, m: nat, lo: nat)
    requires lo <= m < |chunks|
    requires forall p :: p in a ==> p == chunks[m]
    requires InOrder(b, chunks, m)
    ensures InOrder(a + b, chunks, lo)
    decreases |a|
  {
    if |a| == 0 {
      assert a + b == b;
      if |b| > 0 {
        var k :| m <= k < |chunks| && b[0] == chunks[k] && InOrder(b[1..], chunks, k);
        assert lo <= k;
      }
    } else {
      assert (a + b)[1..] == a[1..] + b;
      assert a[0] in a;
      forall p | p in a[1..]
        ensures p == chunks[m]
      {
        assert p in a;
      }
      InOrderPrepend(a[1..], b, chunks, m, m);
    }
  }

  /** Lengthening the chunk list keeps payloads in order. */
  lemma {:induction false} InOrderExtend(ps: seq<Bytes>, chunks: seq<Bytes>, chunks': seq<Bytes>, lo: nat)
    requires |chunks| <= |chunks'| && chunks'[..|chunks|] == chunks
    requires InOrder(ps, chunks, lo)
    ensures InOrder(ps, chunks', lo)
    decreases |ps|
  {
    if |ps| > 0 {
      var k :| lo <= k < |chunks| && ps[0] == chunks[k] && InOrder(ps[1..], chunks, k);
      assert chunks'[k] == chunks[k];
      InOrderExtend(ps[1..], chunks, chunks', k);
    }
  }

  /** Lowering the starting position keeps payloads in order. */
  lemma InOrderLower(ps: seq<Bytes>, chunks: seq<Bytes>, lo: nat, lo': nat)
    requires lo' <= lo && InOrder(ps, chunks, lo)
    ensures InOrder(ps, chunks, lo')
  {
    if |ps| > 0 {
      var k :| lo <= k < |chunks| && ps[0] == chunks[k] && InOrder(ps[1..], chunks, k);
      assert lo' <= k;
    }
  }

  /** The loop body writes exactly the chunk it appends, to the writer's target, when there is one and a connection. */
  lemma WroteChunkWrites(w: Writer, le: LE.LeState, bytes: Bytes, r: WriterStep)
    requires WroteChunk(w, le, bytes, r)
    ensures r.w.chunks == w.chunks + [bytes] && r.w.chunks[..|w.chunks|] == w.chunks
    ensures Written(r.acts) == if w.ch.Some? && le.hasGatt then [bytes] else []
    ensures forall a :: a in r.acts && a.WriteCharacteristic? ==> a == WriteCharacteristic(w.ch.value, bytes)
  {
    assert (w.chunks + [bytes])[..|w.chunks|] == w.chunks;
    var writes := if w.ch.Some? && le.hasGatt then [WriteCharacteristic(w.ch.value, bytes)] else [];
    var report := if w.hasListener then [Sent(w.sent + |bytes|)] else [];
    WrittenAppend(writes, report);
    assert Written(report) == [];
    forall a | a in r.acts && a.WriteCharacteristic?
      ensures a == WriteCharacteristic(w.ch.value, bytes)
    {
      assert a in writes || a in report;
    }
  }

  /** The loop head writes only the chunk it cuts, to the writer's target, and writes it whenever it can. */
  lemma LoopHeadWrites(w: Writer, le: LE.LeState, r: WriterStep)
    requires LoopHeadOutcome(w, le, r)
    ensures |w.chunks| <= |r.w.chunks| <= |w.chunks| + 1 && r.w.chunks[..|w.chunks|] == w.chunks
    ensures forall a :: a in r.acts && a.WriteCharacteristic? ==> w.ch == Some(a.ch)
    ensures forall p :: p in Written(r.acts) ==> |r.w.chunks| > 0 && p == r.w.chunks[|r.w.chunks| - 1]
    ensures |r.w.chunks| == |w.chunks| + 1 && w.ch.Some? && le.hasGatt ==>
              WriteCharacteristic(w.ch.value, r.w.chunks[|w.chunks|]) in r.acts
  {
    assert w.chunks[..|w.chunks|] == w.chunks;
    if w.sent >= |w.data| || le.disableWrite {
      assert r.acts == [];
    } else if w.blockSize <= 0 {
      assert Written(r.acts) == [];
    } else if w.sent + w.blockSize > INT_MAX {
      assert Written(r.acts) == [];
    } else {
      WroteChunkWrites(w, le, Slice(w.data, w.sent, w.blockSize), r);
    }
  }

  /**
   * One event writes nothing but the writer's last chunk, to its own target:
   * the chunk just cut by `Run`, or the chunk being read back when the timer
   * writes it again. Chunks are only ever appended, one per event at most, and
   * a new chunk is written whenever there is a target and a connection.
   */
  lemma StepWrites(w: Writer, le: LE.LeState, ev: WriterEvent)
    requires Valid(w)
    ensures var r := Step(w, le, ev);
            |w.chunks| <= |r.w.chunks| <= |w.chunks| + 1 && r.w.chunks[..|w.chunks|] == w.chunks
    ensures var r := Step(w, le, ev);
            forall a :: a in r.acts && a.WriteCharacteristic? ==> w.ch == Some(a.ch)
    ensures var r := Step(w, le, ev);
            forall p :: p in Written(r.acts) ==> |r.w.chunks| > 0 && p == r.w.chunks[|r.w.chunks| - 1]
    ensures var r := Step(w, le, ev);
            |r.w.chunks| == |w.chunks| + 1 && w.ch.Some? && le.hasGatt ==>
              WriteCharacteristic(w.ch.value, r.w.chunks[|w.chunks|]) in r.acts
  {
    var r := Step(w, le, ev);
    assert w.chunks[..|w.chunks|] == w.chunks;
    if ev.Run? && w.phase.Ready? {
      assert r == RunLoopHead(w, le);
      LoopHeadWrites(w, le, r);
    } else if ev.ReadTick? && w.phase.AwaitRead? {
      assert r == OnReadTick(w, le);
      assert r.w.chunks == w.chunks;
      if w.counter < MAX_NUM_READ {
        assert r.acts == LE.RequestCharacteristicValue(le, w.ch);
        assert Written(r.acts) == [] by {
          if |r.acts| > 0 { assert r.acts[1..] == []; }
        }
      } else {
        assert Written([]) == [];
        assert r.acts == [] || r.acts == [WriteCharacteristic(w.ch.value, w.compareBytes)];
      }
    } else {
      assert r.w.chunks == w.chunks && r.acts == [];
      assert Written([]) == [];
    }
  }

  /** Over any schedule, the chunks present at the start are kept and every write goes to the writer's target. */
  lemma {:induction false} ExecuteKeepsChunks(w: Writer, evs: seq<(LE.LeState, WriterEvent)>)
    requires Valid(w)
    ensures var r := Execute(w, evs);
            |w.chunks| <= |r.w.chunks| && r.w.chunks[..|w.chunks|] == w.chunks
    ensures var r := Execute(w, evs);
            forall a :: a in r.acts && a.WriteCharacteristic? ==> w.ch == Some(a.ch)
    decreases |evs|
  {
    var r := Execute(w, evs);
    if |evs| == 0 {
      assert w.chunks[..|w.chunks|] == w.chunks;
    } else {
      var s := Step(w, evs[0].0, evs[0].1);
      var rest := Execute(s.w, evs[1..]);
      StepWrites(w, evs[0].0, evs[0].1);
      ExecuteKeepsChunks(s.w, evs[1..]);
      assert r.w == rest.w && r.acts == s.acts + rest.acts;
      assert r.w.chunks[..|s.w.chunks|][..|w.chunks|] == r.w.chunks[..|w.chunks|];
      forall a | a in r.acts && a.WriteCharacteristic?
        ensures w.ch == Some(a.ch)
      {
        assert a in s.acts || a in rest.acts;
      }
    }
  }

  /**
   * Over any schedule, the payloads written are chunks of the final writer,
   * in the order they were cut from the data: a chunk may be written again,
   * but never an earlier one after a later one. The final chunks concatenate
   * to the bytes counted as sent.
   */
  lemma {:induction false} ExecuteWritesChunksInOrder(w: Writer, evs: seq<(LE.LeState, WriterEvent)>)
    requires Valid(w)
    ensures var r := Execute(w, evs);
            Valid(r.w) && r.w.data == w.data && Flatten(r.w.chunks) == w.data[..r.w.sent]
    ensures InOrder(Written(Execute(w, evs).acts), Execute(w, evs).w.chunks, LastIndex(w.chunks))
    decreases |evs|
  {
    var r := Execute(w, evs);
    ExecuteReportsIncrease(w, evs);
    if |evs| == 0 {
      assert Written([]) == [];
    } else {
      var s := Step(w, evs[0].0, evs[0].1);
      var rest := Execute(s.w, evs[1..]);
      StepWrites(w, evs[0].0, evs[0].1);
      ExecuteWritesChunksInOrder(s.w, evs[1..]);
      ExecuteKeepsChunks(s.w, evs[1..]);
      assert r.w == rest.w && r.acts == s.acts + rest.acts;
      WrittenAppend(s.acts, rest.acts);
      InOrderAfterStep(Written(s.acts), Written(rest.acts), w.chunks, s.w.chunks, r.w.chunks);
    }
  }

  /**
   * Payloads that all equal the last chunk after one step, followed by payloads in
   * order from that chunk, are in order from the last chunk before the step.
   */
  lemma InOrderAfterStep(ws: seq<Bytes>, wr: seq<Bytes>, c0: seq<Bytes>, c1: seq<Bytes>, cf: seq<Bytes>)
    requires |c0| <= |c1| <= |cf| && cf[..|c1|] == c1
    requires forall p :: p in ws ==> |c1| > 0 && p == c1[|c1| - 1]
    requires InOrder(wr, cf, LastIndex(c1))
    ensures InOrder(ws + wr, cf, LastIndex(c0))
  {
    if |ws| == 0 {
      assert ws + wr == wr;
      InOrderLower(wr, cf, LastIndex(c1), LastIndex(c0));
    } else {
      assert ws[0] in ws;
      var m := |c1| - 1;
      assert cf[m] == c1[m] by {
        assert cf[..|c1|][m] == cf[m];
      }
      InOrderPrepend(ws, wr, cf, m, LastIndex(c0));
    }
  }

  /** A writer that has finished without throwing sent all the data, unless writing was disabled. */
  lemma FinishedMeansSentOrDisabled(w: Writer, le: LE.LeState)
    requires Valid(w) && w.phase.Ready?
    ensures var r := RunLoopHead(w, le);
            r.w.phase.Finished? && r.acts == [] && !le.disableWrite ==>
              Flatten(r.w.chunks) == w.data
  {
  }

  /**
   * Read-back with a lost write: four ticks without a matching read issue three
   * reads and then write the same chunk again, and the cycle restarts.
   */
  lemma FourTicksRewrite(w: Writer, le: LE.LeState)
    requires Valid(w) && w.phase.AwaitRead? && w.counter == 0
    requires w.ch.Some? && le.hasAdapter && le.hasGatt
    ensures var t := ReadTick;
            var s1 := Step(w, le, t); var s2 := Step(s1.w, le, t);
            var s3 := Step(s2.w, le, t); var s4 := Step(s3.w, le, t);
            s1.acts == s2.acts == s3.acts == [ReadCharacteristic(w.ch)] &&
            s4.acts == [WriteCharacteristic(w.ch.value, w.compareBytes)] &&
            s4.w == w && s4.w.phase.AwaitRead?
  {
  }

  /** A stale or corrupted read does not release the writer; the correct one does, without a rewrite. */
  lemma CorruptedReadThenMatch(w: Writer, le: LE.LeState, bad: Bytes)
    requires Valid(w) && w.phase.AwaitRead? && w.ch.Some?
    requires bad != w.compareBytes
    ensures var s1 := Step(w, le, ReadBack(w.ch.value, Some(bad)));
            var s2 := Step(s1.w, le, ReadBack(w.ch.value, Some(w.compareBytes)));
            s1.w == w && s1.acts == [] &&
            s2.w.phase.Ready? && s2.w.counter == 0 && s2.acts == [] && s2.w.chunks == w.chunks
  {
  }

  /**
   * A link loss while the writer waits for the write acknowledgement leaves a
   * read-back writer waiting on `read`: the `read` notification has already
   * gone by, so only a matching read or a later link loss releases it.
   */
  lemma LinkLostDuringWriteKeepsWaiting(w: Writer, le: LE.LeState)
    requires Valid(w) && w.phase.AwaitWrite? && w.readBack
    ensures Step(w, le, LinkLost).w.phase.AwaitRead?
    ensures Step(Step(w, le, LinkLost).w, le, Run).w.phase.AwaitRead?
  {
  }

  /** Without read-back, the acknowledgement (or the write timeout) sends the writer straight to its next chunk. */
  lemma WithoutReadBackAdvancesOnNotify(w: Writer, le: LE.LeState)
    requires Valid(w) && w.phase.AwaitWrite? && !w.readBack
    ensures Step(w, le, WriteNotify).w == w.(phase := Ready)
    ensures Step(w, le, ReadTick).w == w
  {
  }
}
