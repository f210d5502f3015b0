/** The byte-level ring buffer of the embassy back-end (`embassy-example/src/queue.rs`) and the
    null-checking wrappers around it, refining the bounded FIFO of fixed-size items. */
module RingQueue {
  import opened Bytes
  import F = Fifo

  type Item = seq<byte>

  /** `ptr::copy_nonoverlapping` */
  method CopyNonoverlapping(src: array<byte>, from: nat, dst: array<byte>, to: nat, n: nat)
    requires src != dst && from + n <= src.Length && to + n <= dst.Length
    modifies dst
    ensures dst[to..to + n] == src[from..from + n]
    ensures forall k :: 0 <= k < dst.Length && !(to <= k < to + n) ==> dst[k] == old(dst[k])
  {
    forall k | 0 <= k < n {
      dst[to + k] := src[from + k];
    }
  }

  // ---------------------------------------------------------------- index arithmetic

  /** Position of the `i`-th live slot. */
  function Index(head: nat, i: nat, capacity: nat): (r: nat)
    requires capacity > 0
    ensures r < capacity
  {
    (head + i) % capacity
  }

  lemma IndexIs(head: nat, i: nat, capacity: nat)
    requires head < capacity && i <= capacity
    ensures Index(head, i, capacity) == if head + i < capacity then head + i else head + i - capacity
  {
  }

  lemma MulDistributes(a: nat, b: nat, size: nat)
    ensures (a + b) * size == a * size + b * size
  {
  }

  lemma SlotInside(j: nat, capacity: nat, size: nat)
    requires j < capacity
    ensures 0 <= j * size && j * size + size <= capacity * size
  {
    MulDistributes(j, 1, size);
    MulDistributes(j + 1, capacity - j - 1, size);
  }

  lemma SlotsApart(i: nat, j: nat, size: nat)
    requires i != j
    ensures i * size + size <= j * size || j * size + size <= i * size
  {
    if i < j { SlotInside(i, j, size); } else { SlotInside(j, i, size); }
  }

  // ---------------------------------------------------------------- the ring as a value

  /** The bytes of slot `j`. */
  ghost function Slot(mem: seq<byte>, capacity: nat, size: nat, j: nat): (r: Item)
    requires capacity * size <= |mem| && j < capacity
    ensures |r| == size
  {
    SlotInside(j, capacity, size);
    mem[j * size..j * size + size]
  }

  /** The live slots, read round the ring from `head`. */
  ghost function View(mem: seq<byte>, capacity: nat, size: nat, head: nat, count: nat): (r: seq<Item>)
    requires capacity * size <= |mem| && count <= capacity
    ensures |r| == count
  {
    seq(count, i requires 0 <= i < count => Slot(mem, capacity, size, Index(head, i, capacity)))
  }

  /** `mem'` is `mem` with slot `j` overwritten by `item` and no other byte touched. */
  ghost predicate SlotWritten(mem: seq<byte>, mem': seq<byte>, size: nat, j: nat, item: Item) {
    && |mem'| == |mem| && |item| == size && j * size + size <= |mem|
    && mem'[j * size..j * size + size] == item
    && forall k :: 0 <= k < |mem| && !(j * size <= k < j * size + size) ==> mem'[k] == mem[k]
  }

  lemma OtherSlotsKept(mem: seq<byte>, mem': seq<byte>, capacity: nat, size: nat, j: nat, item: Item, i: nat)
    requires capacity * size <= |mem| && i < capacity && i != j
    requires SlotWritten(mem, mem', size, j, item)
    ensures Slot(mem', capacity, size, i) == Slot(mem, capacity, size, i)
  {
    SlotInside(i, capacity, size);
    SlotsApart(i, j, size);
  }

  /** Writing the slot behind the last live one appends to the view. */
  lemma WriteAppends(mem: seq<byte>, mem': seq<byte>, capacity: nat, size: nat, head: nat, count: nat, item: Item)
    requires capacity * size <= |mem| && count < capacity && head < capacity
    requires SlotWritten(mem, mem', size, Index(head, count, capacity), item)
    ensures View(mem', capacity, size, head, count + 1) == View(mem, capacity, size, head, count) + [item]
  {
    var tail := Index(head, count, capacity);
    forall i | 0 <= i < count
      ensures Slot(mem', capacity, size, Index(head, i, capacity))
           == Slot(mem, capacity, size, Index(head, i, capacity))
    {
      IndexIs(head, i, capacity);
      IndexIs(head, count, capacity);
      OtherSlotsKept(mem, mem', capacity, size, tail, item, Index(head, i, capacity));
    }
  }

  /** Moving `head` on by one drops the first of the view. */
  lemma AdvanceDropsFirst(mem: seq<byte>, capacity: nat, size: nat, head: nat, count: nat)
    requires capacity * size <= |mem| && 0 < count <= capacity && head < capacity
    ensures View(mem, capacity, size, head, count)
         == [Slot(mem, capacity, size, head)] + View(mem, capacity, size, Index(head, 1, capacity), count - 1)
  {
    IndexIs(head, 0, capacity);
    IndexIs(head, 1, capacity);
    forall i | 0 <= i < count - 1
      ensures Index(Index(head, 1, capacity), i, capacity) == Index(head, i + 1, capacity)
    {
      IndexIs(Index(head, 1, capacity), i, capacity);
      IndexIs(head, i + 1, capacity);
    }
  }

  /** The next write position after a write, and it is unmoved by a read. */
  lemma TailMoves(head: nat, count: nat, capacity: nat)
    requires head < capacity && count <= capacity
    ensures count < capacity ==> Index(head, count + 1, capacity) == Index(Index(head, count, capacity), 1, capacity)
    ensures count > 0 ==> Index(Index(head, 1, capacity), count - 1, capacity) == Index(head, count, capacity)
  {
    IndexIs(head, count, capacity);
    IndexIs(head, 1, capacity);
    if count < capacity {
      IndexIs(head, count + 1, capacity);
      IndexIs(Index(head, count, capacity), 1, capacity);
    }
    if count > 0 {
      IndexIs(Index(head, 1, capacity), count - 1, capacity);
    }
  }

  // ---------------------------------------------------------------- the code

  class Queue {
    var buffer: array<byte>
    const capacity: nat
    const itemSize: nat
    var head: nat
    var tail: nat
    var count: nat

    ghost predicate Valid()
      reads this
    {
      && capacity * itemSize <= buffer.Length
      && count <= capacity
      && if capacity == 0 then head == 0 && tail == 0
         else head < capacity && tail == Index(head, count, capacity)
    }

    /** The abstract queue: the live slots, in order. */
    ghost function Abs(): F.Fifo<Item>
      requires Valid()
      reads this, buffer
    {
      F.Fifo(capacity, View(buffer[..], capacity, itemSize, head, count))
    }

    constructor (buffer: array<byte>, capacity: nat, itemSize: nat)
      requires capacity * itemSize <= buffer.Length
      ensures Valid() && Abs() == F.Fifo(capacity, [])
      ensures this.buffer == buffer && this.capacity == capacity && this.itemSize == itemSize
    {
      this.buffer := buffer;
      this.capacity := capacity;
      this.itemSize := itemSize;
      head, tail, count := 0, 0, 0;
    }

    /** Appends the item, or refuses when full, whatever the timeout; only the slot at the old
        `tail` is written. */
    method Enqueue(item: array<byte>, timeoutMs: nat) returns (ok: bool)
      requires Valid() && item != buffer && itemSize <= item.Length
      modifies this`tail, this`count, buffer
      ensures Valid()
      ensures (Abs(), if ok then F.Accepted else F.Refused)
           == F.Apply(old(Abs()), F.Enqueue(item[..itemSize]))
      ensures if ok then SlotWritten(old(buffer[..]), buffer[..], itemSize, old(tail), item[..itemSize])
              else buffer[..] == old(buffer[..])
    {
      if count >= capacity {
        return false;
      }
      var tailPos := tail;
      tail := (tailPos + 1) % capacity;
      SlotInside(tailPos, capacity, itemSize);
      CopyNonoverlapping(item, 0, buffer, tailPos * itemSize, itemSize);
      WriteAppends(old(buffer[..]), buffer[..], capacity, itemSize, head, count, item[..itemSize]);
      TailMoves(head, count, capacity);
      count := count + 1;
      ok := true;
    }

    /** Removes the first item into `item`, or refuses when empty, whatever the timeout. */
    method Dequeue(item: array<byte>, timeoutMs: nat) returns (ok: bool)
      requires Valid() && item != buffer && (Abs().items != [] ==> itemSize <= item.Length)
      modifies this`head, this`count, item
      ensures Valid()
      ensures ok ==> itemSize <= item.Length && item[itemSize..] == old(item[itemSize..])
      ensures (Abs(), if ok then F.Delivered(item[..itemSize]) else F.Refused)
           == F.Apply(old(Abs()), F.Dequeue)
      ensures !ok ==> item[..] == old(item[..])
    {
      if count == 0 {
        return false;
      }
      var headPos := head;
      AdvanceDropsFirst(buffer[..], capacity, itemSize, head, count);
      TailMoves(head, count, capacity);
      head := (headPos + 1) % capacity;
      SlotInside(headPos, capacity, itemSize);
      CopyNonoverlapping(buffer, headPos * itemSize, item, 0, itemSize);
      count := count - 1;
      ok := true;
    }

    method Size() returns (n: nat)
      requires Valid()
      ensures (Abs(), F.Length(n)) == F.Apply(Abs(), F.Size)
      ensures n == |Abs().items|
    {
      n := count;
    }
  }
}
