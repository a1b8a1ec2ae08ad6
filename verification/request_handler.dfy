/**
 * `RequestHandler`: a FIFO of GATT requests whose head is dispatched to the
 * transport by `impl` and removed by `dequeue`, so the application can keep
 * one request in flight and serve the rest in order.
 */
module RequestHandler {
  import opened Wrappers
  import opened JavaTypes
  import opened Gatt
  import ByteUtils
  import LE = BluetoothLE

  datatype RequestCmd = Read | Write

  /** `RequestData`: the target characteristic (possibly `null`) and the bytes to write. */
  datatype RequestData = RequestData(ch: Option<GattChar>, data: ByteUtils.Bytes)

  datatype Request = Request(cmd: RequestCmd, data: RequestData)

  type Queue = seq<Request>

  /** `enqueue`: the request joins the tail; nothing else changes. */
  function Enqueue(q: Queue, r: Request): (q': Queue)
    ensures |q'| == |q| + 1 && q'[..|q|] == q && q'[|q|] == r
  {
    q + [r]
  }

  /** `reset`. */
  function Reset(q: Queue): (q': Queue)
    ensures |q'| == 0
  {
    []
  }

  /** `dequeue`: removes the head; `Queue.remove` on an empty queue throws. */
  function Dequeue(q: Queue): (r: Result<Queue, JavaException>)
    ensures |q| == 0 <==> r == Failure(NoSuchElement)
    ensures r.Success? ==> [q[0]] + r.value == q
  {
    if |q| == 0 then Failure(NoSuchElement) else Success(q[1..])
  }

  /** What the transport does for one request: a read of its characteristic, or a write of its data. */
  function Dispatch(le: LE.LeState, r: Request): (acts: seq<Action>)
    ensures r.cmd.Read? ==> acts == (if le.hasAdapter && le.hasGatt then [ReadCharacteristic(r.data.ch)] else [])
    ensures r.cmd.Write? ==>
              acts == (if r.data.ch.Some? && le.hasGatt then [WriteCharacteristic(r.data.ch.value, r.data.data)] else [])
  {
    match r.cmd
    case Read => LE.RequestCharacteristicValue(le, r.data.ch)
    case Write => LE.WriteToCharacteristic(le, r.data.ch, r.data.data).1
  }

  /** `impl(le)`: dispatches the head without removing it; nothing for a `null` transport or an empty queue. */
  function Impl(q: Queue, le: Option<LE.LeState>): (acts: seq<Action>)
    ensures le.None? || |q| == 0 ==> acts == []
    ensures le.Some? && |q| > 0 ==> acts == Dispatch(le.value, q[0])
  {
    if le.None? || |q| == 0 then [] else Dispatch(le.value, q[0])
  }

  /** `implRightNow(le)`: dispatches only a request that is alone in the queue. */
  function ImplRightNow(q: Queue, le: Option<LE.LeState>): (acts: seq<Action>)
    ensures |q| != 1 ==> acts == []
    ensures |q| == 1 ==> acts == Impl(q, le)
  {
    if |q| == 1 then Impl(q, le) else []
  }

  /**
   * The usual driver: `enqueue` then `implRightNow` starts the new request
   * exactly when nothing was queued before, so a request already in flight is
   * never joined by a second one.
   */
  lemma EnqueueThenImplRightNow(q: Queue, r: Request, le: LE.LeState)
    ensures |q| == 0 ==> ImplRightNow(Enqueue(q, r), Some(le)) == Dispatch(le, r)
    ensures |q| > 0 ==> ImplRightNow(Enqueue(q, r), Some(le)) == []
  {
  }

  /** Dequeue and enqueue commute on a non-empty queue: the queue is first in, first out. */
  lemma DequeueEnqueueCommute(q: Queue, r: Request)
    requires |q| > 0
    ensures Dequeue(Enqueue(q, r)) == Success(Dequeue(q).value + [r])
  {
    assert (q + [r])[1..] == q[1..] + [r];
  }

  /** Serving the queue `n` times: dispatch the head, then dequeue it. */
  function Serve(q: Queue, le: LE.LeState, n: nat): (r: (Queue, seq<Action>))
    requires n <= |q|
  {
    if n == 0 then (q, [])
    else
      var rest := Serve(Dequeue(q).value, le, n - 1);
      (rest.0, Impl(q, Some(le)) + rest.1)
  }

  /** The dispatches of `rs`, in order. */
  function DispatchAll(le: LE.LeState, rs: seq<Request>): seq<Action>
  {
    if |rs| == 0 then [] else Dispatch(le, rs[0]) + DispatchAll(le, rs[1..])
  }

  /**
   * Requests are dispatched in the order they were enqueued: serving `n`
   * times dispatches the first `n` requests in order and leaves the rest.
   */
  lemma {:induction false} ServeIsFifo(q: Queue, le: LE.LeState, n: nat)
    requires n <= |q|
    ensures Serve(q, le, n).0 == q[n..]
    ensures Serve(q, le, n).1 == DispatchAll(le, q[..n])
  {
    if n > 0 {
      ServeIsFifo(q[1..], le, n - 1);
      assert q[1..][n - 1..] == q[n..];
      assert q[..n][1..] == q[1..][..n - 1];
    }
  }

  /** Requests enqueued one by one onto an empty queue come out in the same order. */
  lemma {:induction false} EnqueueAllThenServe(rs: seq<Request>, le: LE.LeState)
    ensures Serve(EnqueueAll([], rs), le, |rs|).1 == DispatchAll(le, rs)
    ensures Serve(EnqueueAll([], rs), le, |rs|).0 == []
  {
    EnqueueAllAppends([], rs);
    assert EnqueueAll([], rs) == rs;
    ServeIsFifo(rs, le, |rs|);
    assert rs[..|rs|] == rs;
    assert rs[|rs|..] == [];
  }

  /** `enqueue` of each of `rs` in turn. */
  function EnqueueAll(q: Queue, rs: seq<Request>): (r: Queue)
    decreases |rs|
    ensures |r| == |q| + |rs|
  {
    if |rs| == 0 then q else EnqueueAll(Enqueue(q, rs[0]), rs[1..])
  }

  lemma {:induction false} EnqueueAllAppends(q: Queue, rs: seq<Request>)
    decreases |rs|
    ensures EnqueueAll(q, rs) == q + rs
  {
    if |rs| > 0 {
      EnqueueAllAppends(q + [rs[0]], rs[1..]);
      assert q + [rs[0]] + rs[1..] == q + rs;
    }
  }
}
