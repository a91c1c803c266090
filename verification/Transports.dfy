/** The in-process transport: two queues, each the sending side of one endpoint and the receiving side of the other.
    A wait is modelled by its end: the caller learns whether the queue was still empty then. */
module Transports {
  import opened Bytes
  import opened Messages

  class IpcTransportQueue {
    var queue: seq<seq<byte>>

    constructor ()
      ensures queue == []
    {
      queue := [];
    }

    method Push(buffer: seq<byte>)
      modifies this
      ensures queue == old(queue) + [buffer]
    {
      queue := queue + [buffer];
    }

    method Pop() returns (r: Result<seq<byte>>)
      modifies this
      ensures old(queue) == [] ==> r == Err(TransportTimeout) && queue == []
      ensures old(queue) != [] ==> r == Ok(old(queue)[0]) && queue == old(queue)[1..]
    {
      if |queue| == 0 {
        return Err(TransportTimeout);
      }
      var buffer := queue[0];
      queue := queue[1..];
      return Ok(buffer);
    }

    /** With a stop token: a requested stop wins over a waiting buffer, which then stays where it is. */
    method PopUnlessStopped(stopRequested: bool) returns (r: Result<seq<byte>>)
      modifies this
      ensures stopRequested ==> r == Ok([]) && queue == old(queue)
      ensures !stopRequested && old(queue) == [] ==> r == Err(TransportTimeout) && queue == []
      ensures !stopRequested && old(queue) != [] ==> r == Ok(old(queue)[0]) && queue == old(queue)[1..]
    {
      if stopRequested {
        return Ok([]);
      }
      if |queue| == 0 {
        return Err(TransportTimeout);
      }
      var buffer := queue[0];
      queue := queue[1..];
      return Ok(buffer);
    }
  }

  const ONE_YEAR_IN_MICROSECONDS: nat := 31_556_952_000_000

  class PairedIpcTransport {
    const txQueue: IpcTransportQueue
    const rxQueue: IpcTransportQueue
    const maxMessageSize: nat
    var timeout: nat

    constructor (tx: IpcTransportQueue, rx: IpcTransportQueue, max: nat)
      ensures txQueue == tx && rxQueue == rx && maxMessageSize == max && timeout == ONE_YEAR_IN_MICROSECONDS
    {
      txQueue := tx;
      rxQueue := rx;
      maxMessageSize := max;
      timeout := ONE_YEAR_IN_MICROSECONDS;
    }

    method Send(buffer: seq<byte>)
      modifies txQueue
      ensures txQueue.queue == old(txQueue.queue) + [buffer]
    {
      txQueue.Push(buffer);
    }

    method Recv() returns (r: Result<seq<byte>>)
      modifies rxQueue
      ensures old(rxQueue.queue) == [] ==> r == Err(TransportTimeout) && rxQueue.queue == []
      ensures old(rxQueue.queue) != [] ==> r == Ok(old(rxQueue.queue)[0]) && rxQueue.queue == old(rxQueue.queue)[1..]
    {
      r := rxQueue.Pop();
    }

    method RecvUnlessStopped(stopRequested: bool) returns (r: Result<seq<byte>>)
      modifies rxQueue
      ensures stopRequested ==> r == Ok([]) && rxQueue.queue == old(rxQueue.queue)
      ensures !stopRequested && old(rxQueue.queue) == [] ==> r == Err(TransportTimeout) && rxQueue.queue == []
      ensures !stopRequested && old(rxQueue.queue) != [] ==>
                r == Ok(old(rxQueue.queue)[0]) && rxQueue.queue == old(rxQueue.queue)[1..]
    {
      r := rxQueue.PopUnlessStopped(stopRequested);
    }

    /** The return type is 16 bits wide. */
    function GetMaxMessageSize(): (n: nat)
      ensures n < 0x1_0000 && (maxMessageSize < 0x1_0000 ==> n == maxMessageSize)
    {
      maxMessageSize % 0x1_0000
    }

    method SetTimeout(t: nat)
      modifies this
      ensures timeout == t
    {
      timeout := t;
    }
  }

  method MakeSyncPairedIpcTransport(max: nat) returns (a: PairedIpcTransport, b: PairedIpcTransport)
    ensures fresh(a) && fresh(b) && fresh(a.txQueue) && fresh(a.rxQueue) && a != b
    ensures a.txQueue == b.rxQueue && a.rxQueue == b.txQueue && a.txQueue != a.rxQueue
    ensures a.txQueue.queue == [] && a.rxQueue.queue == []
    ensures a.maxMessageSize == max && b.maxMessageSize == max
  {
    var q1 := new IpcTransportQueue();
    var q2 := new IpcTransportQueue();
    a := new PairedIpcTransport(q1, q2, max);
    b := new PairedIpcTransport(q2, q1, max);
  }
}
