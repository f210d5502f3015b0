/** The queue entry points of the two back-ends in non-blocking use, and their observational
    equality: `EmbassyArch` over the ring, `TestArch` over a `VecDeque` with timeout 0. */
module QueueBackends {
  import opened Bytes
  import opened Runs
  import F = Fifo
  import R = RingQueue

  /** `TestQueue` of the host back-end, as seen by callers that never block. */
  class TestQueue {
    var data: seq<R.Item>
    const maxLen: nat
    const itemSize: nat

    ghost predicate Valid()
      reads this
    {
      |data| <= maxLen && forall i :: 0 <= i < |data| ==> |data[i]| == itemSize
    }

    ghost function Abs(): F.Fifo<R.Item>
      reads this
    {
      F.Fifo(maxLen, data)
    }

    constructor (length: nat, itemSize: nat)
      ensures Valid() && Abs() == F.Fifo(length, []) && this.itemSize == itemSize
    {
      data, maxLen, this.itemSize := [], length, itemSize;
    }
  }

  // ---------------------------------------------------------------- EmbassyArch

  method EmbassyEnqueue(queue: R.Queue?, item: array?<byte>, timeoutMs: nat) returns (ok: bool)
    requires queue != null ==> queue.Valid() && item != queue.buffer
    requires queue != null && item != null ==> queue.itemSize <= item.Length
    modifies if queue == null then {} else {queue, queue.buffer}
    ensures queue == null || item == null ==> !ok
    ensures queue != null ==> queue.Valid() && queue.buffer == old(queue.buffer)
    ensures queue != null && item == null ==> queue.Abs() == old(queue.Abs())
    ensures queue != null && item != null ==>
              ((queue.Abs(), if ok then F.Accepted else F.Refused)
              == F.Apply(old(queue.Abs()), F.Enqueue(item[..queue.itemSize])))
  {
    if queue == null || item == null {
      return false;
    }
    ok := queue.Enqueue(item, timeoutMs);
  }

  method EmbassyDequeue(queue: R.Queue?, item: array?<byte>, timeoutMs: nat) returns (ok: bool)
    requires queue != null ==> queue.Valid() && item != queue.buffer
    requires queue != null && item != null && queue.Abs().items != [] ==> queue.itemSize <= item.Length
    modifies queue, item
    ensures queue == null || item == null ==> !ok
    ensures queue != null && ok ==> queue.itemSize <= item.Length
    ensures item != null && !ok ==> item[..] == old(item[..])
    ensures queue != null ==> queue.Valid() && queue.buffer == old(queue.buffer)
    ensures queue != null && item == null ==> queue.Abs() == old(queue.Abs())
    ensures queue != null && item != null ==>
              ((queue.Abs(), if ok then F.Delivered(item[..queue.itemSize]) else F.Refused)
              == F.Apply(old(queue.Abs()), F.Dequeue))
  {
    if queue == null || item == null {
      return false;
    }
    ok := queue.Dequeue(item, timeoutMs);
  }

  // ---------------------------------------------------------------- TestArch, timeout 0

  method TestEnqueue(queue: TestQueue?, item: array?<byte>) returns (ok: bool)
    requires queue != null ==> queue.Valid()
    requires queue != null && item != null ==> queue.itemSize <= item.Length
    modifies queue
    ensures queue == null || item == null ==> !ok
    ensures queue != null ==> queue.Valid()
    ensures queue != null && item == null ==> queue.Abs() == old(queue.Abs())
    ensures queue != null && item != null ==>
              ((queue.Abs(), if ok then F.Accepted else F.Refused)
              == F.Apply(old(queue.Abs()), F.Enqueue(item[..queue.itemSize])))
  {
    if queue == null || item == null {
      return false;
    }
    if |queue.data| >= queue.maxLen {
      return false;
    }
    queue.data := queue.data + [item[..queue.itemSize]];
    ok := true;
  }

  method TestDequeue(queue: TestQueue?, item: array?<byte>) returns (ok: bool)
    requires queue != null ==> queue.Valid()
    requires queue != null && item != null && queue.data != [] ==> queue.itemSize <= item.Length
    modifies queue, item
    ensures queue == null || item == null ==> !ok
    ensures queue != null && ok ==> queue.itemSize <= item.Length
    ensures item != null && !ok ==> item[..] == old(item[..])
    ensures queue != null ==> queue.Valid()
    ensures queue != null && item == null ==> queue.Abs() == old(queue.Abs())
    ensures queue != null && item != null ==>
              ((queue.Abs(), if ok then F.Delivered(item[..queue.itemSize]) else F.Refused)
              == F.Apply(old(queue.Abs()), F.Dequeue))
  {
    if queue == null || item == null {
      return false;
    }
    if |queue.data| == 0 {
      return false;
    }
    var queued := queue.data[0];
    queue.data := queue.data[1..];
    var copyLen := if |queued| < queue.itemSize then |queued| else queue.itemSize;
    forall k | 0 <= k < copyLen {
      item[k] := queued[k];
    }
    assert item[..queue.itemSize] == queued;
    ok := true;
  }

  // ---------------------------------------------------------------- observational equality

  /** Enqueued items have the size the queue was created for. */
  ghost predicate Sized(ops: seq<F.Op<R.Item>>, itemSize: nat) {
    forall i :: 0 <= i < |ops| && ops[i].Enqueue? ==> |ops[i].item| == itemSize
  }

  method EmbassyPerform(ring: R.Queue, op: F.Op<R.Item>) returns (reply: F.Reply<R.Item>)
    requires ring.Valid() && (op.Enqueue? ==> |op.item| == ring.itemSize)
    modifies ring, ring.buffer
    ensures ring.Valid() && ring.buffer == old(ring.buffer)
    ensures (ring.Abs(), reply) == F.Apply(old(ring.Abs()), op)
  {
    match op
    case Enqueue(bytes) =>
      var item := new byte[|bytes|](i requires 0 <= i < |bytes| => bytes[i]);
      assert item[..ring.itemSize] == bytes;
      var ok := EmbassyEnqueue(ring, item, 0);
      reply := if ok then F.Accepted else F.Refused;
    case Dequeue =>
      var item := new byte[ring.itemSize];
      var ok := EmbassyDequeue(ring, item, 0);
      reply := if ok then F.Delivered(item[..]) else F.Refused;
      assert item[..] == item[..ring.itemSize];
    case Size =>
      var n := ring.Size();
      reply := F.Length(n);
  }

  method TestPerform(queue: TestQueue, op: F.Op<R.Item>) returns (reply: F.Reply<R.Item>)
    requires queue.Valid() && (op.Enqueue? ==> |op.item| == queue.itemSize)
    modifies queue
    ensures queue.Valid()
    ensures (queue.Abs(), reply) == F.Apply(old(queue.Abs()), op)
  {
    match op
    case Enqueue(bytes) =>
      var item := new byte[|bytes|](i requires 0 <= i < |bytes| => bytes[i]);
      assert item[..queue.itemSize] == bytes;
      var ok := TestEnqueue(queue, item);
      reply := if ok then F.Accepted else F.Refused;
    case Dequeue =>
      var item := new byte[queue.itemSize];
      var ok := TestDequeue(queue, item);
      reply := if ok then F.Delivered(item[..]) else F.Refused;
      assert item[..] == item[..queue.itemSize];
    case Size =>
      reply := F.Length(|queue.data|);
  }

  /** For every capacity, item size and sequence of operations the two back-ends answer alike,
      down to the bytes copied out; both answer as the bounded FIFO does, so what was accepted is
      what was delivered and then what is still stored. */
  method RunBoth(capacity: nat, itemSize: nat, ops: seq<F.Op<R.Item>>)
    returns (embassy: seq<F.Reply<R.Item>>, test: seq<F.Reply<R.Item>>, stored: seq<R.Item>)
    requires Sized(ops, itemSize)
    ensures embassy == test == F.Run(F.Fifo(capacity, []), ops).1 && |stored| <= capacity
    ensures F.AcceptedItems(ops, embassy) == F.DeliveredItems(embassy) + stored
  {
    var buffer := new byte[capacity * itemSize];
    var ring := new R.Queue(buffer, capacity, itemSize);
    var queue := new TestQueue(capacity, itemSize);
    ghost var start: F.Fifo<R.Item> := F.Fifo(capacity, []);
    embassy, test := [], [];
    for n := 0 to |ops|
      invariant ring.Valid() && ring.itemSize == itemSize && ring.buffer == buffer
      invariant queue.Valid() && queue.itemSize == itemSize
      invariant (ring.Abs(), embassy) == F.Run(start, ops[..n])
      invariant (queue.Abs(), test) == F.Run(start, ops[..n])
    {
      assert ops[..n + 1][..n] == ops[..n];
      var a := EmbassyPerform(ring, ops[n]);
      var b := TestPerform(queue, ops[n]);
      embassy, test := embassy + [a], test + [b];
    }
    assert ops[..|ops|] == ops;
    stored := queue.data;
    F.RunConserves(start, ops);
    assert start.items + F.AcceptedItems(ops, test) == F.AcceptedItems(ops, test);
  }

  // ---------------------------------------------------------------- the promise to wait

  /** `CspArch` promises that a call with the timeout `WAIT_FOREVER` waits until it succeeds. The
      embassy queue keeps that exactly when there is nothing to wait for. */
  method EmbassyInfiniteEnqueue(queue: R.Queue, item: array<byte>) returns (ok: bool)
    requires queue.Valid() && item != queue.buffer && queue.itemSize <= item.Length
    modifies queue, queue.buffer
    ensures queue.Valid() && queue.buffer == old(queue.buffer)
    ensures ok <==> old(|queue.Abs().items|) < queue.capacity
    ensures ok ==> queue.Abs().items == old(queue.Abs().items) + [item[..queue.itemSize]]
  {
    ok := EmbassyEnqueue(queue, item, WAIT_FOREVER);
  }

  method EmbassyInfiniteDequeue(queue: R.Queue, item: array<byte>) returns (ok: bool)
    requires queue.Valid() && item != queue.buffer && queue.itemSize <= item.Length
    modifies queue, item
    ensures queue.Valid()
    ensures ok <==> old(queue.Abs().items) != []
    ensures ok ==> old(queue.Abs().items) == [item[..queue.itemSize]] + queue.Abs().items
  {
    ok := EmbassyDequeue(queue, item, WAIT_FOREVER);
  }

  /** One slot, two enqueues: the second, though told to wait for ever, comes back refused. */
  method FullQueueRefusesInfiniteWait(item: array<byte>) returns (first: bool, second: bool)
    ensures first && !second
  {
    var buffer := new byte[item.Length];
    assert 1 * item.Length == item.Length;
    var ring := new R.Queue(buffer, 1, item.Length);
    first := EmbassyInfiniteEnqueue(ring, item);
    second := EmbassyInfiniteEnqueue(ring, item);
  }

  // ---------------------------------------------------------------- csp_queue_empty

  /** Drains without freeing; a null queue is left alone. What is stored must fit the scratch
      buffer. */
  method CspQueueEmpty(queue: R.Queue?)
    requires queue != null ==> queue.Valid() && (queue.Abs().items != [] ==> queue.itemSize <= 16)
    modifies queue
    ensures queue != null ==>
              && queue.Valid() && queue.Abs() == F.Fifo(queue.capacity, [])
              && queue.buffer == old(queue.buffer) && queue.buffer[..] == old(queue.buffer[..])
  {
    var scratch := new byte[16];
    var more := EmbassyDequeue(queue, scratch, 0);
    while more
      invariant queue == null ==> !more
      invariant queue != null ==>
                  && queue.Valid() && queue.buffer == old(queue.buffer)
                  && queue.buffer[..] == old(queue.buffer[..])
      invariant queue != null && !more ==> queue.Abs().items == []
      invariant more ==> queue.itemSize <= 16
      decreases more, if queue == null then 0 else queue.count
    {
      more := EmbassyDequeue(queue, scratch, 0);
    }
  }

  /** The same over the host queue. */
  method CspQueueEmptyTest(queue: TestQueue?)
    requires queue != null ==> queue.Valid() && (queue.data != [] ==> queue.itemSize <= 16)
    modifies queue
    ensures queue != null ==> queue.Valid() && queue.Abs() == F.Fifo(queue.maxLen, [])
  {
    var scratch := new byte[16];
    var more := TestDequeue(queue, scratch);
    while more
      invariant queue == null ==> !more
      invariant queue != null ==> queue.Valid()
      invariant queue != null && !more ==> queue.data == []
      invariant more ==> queue.itemSize <= 16
      decreases more, if queue == null then 0 else |queue.data|
    {
      more := TestDequeue(queue, scratch);
    }
  }
}
