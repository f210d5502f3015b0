/** The SFP callbacks of `Connection`: `read_cb` feeds the fragments of a send, `write_cb`
    reassembles those of a receive. The loops that call them are in the C library; here they are
    assumed to make one call per fragment, in order, and to stop at the first nonzero answer. */
module Sfp {
  import opened Bytes

  const ERR_NONE: int := 0
  const ERR_INVAL: int := -2
  const ERR_ABORTED: int := -200

  type u32 = n: nat | n <= 0xFFFF_FFFF

  function SaturatingAdd(a: u32, b: u32): u32 {
    if a + b > U32_MAX then U32_MAX else a + b
  }

  lemma SaturatingAddIs(a: u32, b: u32)
    ensures SaturatingAdd(a, b) == if a + b <= 0xFFFF_FFFF then a + b else 0xFFFF_FFFF
  {
  }

  /** The codes handed to C. */
  lemma CodesInNumbers()
    ensures ERR_NONE == 0 && ERR_INVAL == -2 && ERR_ABORTED == -200
  {
  }

  /** The saturating bound test of `read_cb` is the exact one for every call if and only if the
      transfer is shorter than the largest `u32`. */
  lemma SaturatingTestExact(len: u32)
    ensures len < 0xFFFF_FFFF <==>
              forall offset: u32, size: u32 :: SaturatingAdd(offset, size) <= len <==> offset + size <= len
  {
    if len == U32_MAX {
      var offset: u32, size: u32 := U32_MAX, 1;
      assert SaturatingAdd(offset, size) <= len && !(offset + size <= len);
    }
  }

  // ---------------------------------------------------------------- sending

  /** One call of the sender's progress closure. */
  datatype SendTick = SendTick(sent: nat, total: nat)

  /** A stateful closure: its answer may depend on every call made so far, this one included. */
  type SendProgress = seq<SendTick> -> bool

  class SendCtx {
    const data: seq<byte>
    const len: nat
    const progress: SendProgress
    var ticks: seq<SendTick>

    constructor (data: seq<byte>, progress: SendProgress)
      ensures this.data == data && this.progress == progress && ticks == []
      ensures len == |data| % 0x1_0000_0000
    {
      this.data, this.progress, ticks := data, progress, [];
      len := |data| % TWO_TO_THE_32;
    }

    /** `read_cb`. `past` says that the copy would read past the end of the payload, after which
        nothing can be said: that is where the saturated test hides an overrun, in a transfer of
        exactly 2^32-1 bytes, and nowhere else. */
    method ReadCb(buffer: array<byte>, size: u32, offset: u32) returns (ret: int, past: bool)
      requires len == |data| % 0x1_0000_0000 && size <= buffer.Length
      modifies this`ticks, buffer
      ensures past <==> len == 0xFFFF_FFFF && offset + size > |data|
      ensures offset + size > len && len < 0xFFFF_FFFF ==>
                ret == ERR_INVAL && ticks == old(ticks) && buffer[..] == old(buffer[..])
      ensures !past && (offset + size <= len || len == 0xFFFF_FFFF) ==>
                && buffer[..size] == data[offset..offset + size] && buffer[size..] == old(buffer[size..])
                && (var end := if offset + size < 0xFFFF_FFFF then offset + size else 0xFFFF_FFFF;
                    ticks == old(ticks) + [SendTick(end, len)])
                && ret == if progress(ticks) then ERR_NONE else ERR_ABORTED
    {
      var end := SaturatingAdd(offset, size);
      past := false;
      if end > len {
        return ERR_INVAL, past;
      }
      past := offset + size > |data|;
      if past {
        return ERR_INVAL, past;
      }
      forall k | 0 <= k < size {
        buffer[k] := data[offset + k];
      }
      ticks := ticks + [SendTick(end, len)];
      if !progress(ticks) {
        return ERR_ABORTED, past;
      }
      return ERR_NONE, past;
    }
  }

  /** What travels in one packet. */
  datatype Fragment = Fragment(offset: nat, total: nat, bytes: seq<byte>)

  function FragmentSize(total: nat, mtu: nat, offset: nat): (size: nat)
    requires mtu > 0 && offset < total
    ensures 0 < size <= mtu && offset + size <= total
  {
    if total - offset < mtu then total - offset else mtu
  }

  /** The fragments of `data` from `offset` on. */
  function Fragments(data: seq<byte>, mtu: nat, offset: nat): seq<Fragment>
    requires mtu > 0 && offset <= |data|
    decreases |data| - offset
  {
    if offset == |data| then []
    else
      var end := offset + FragmentSize(|data|, mtu, offset);
      [Fragment(offset, |data|, data[offset..end])] + Fragments(data, mtu, end)
  }

  /** The progress calls made for them. */
  function SendTicks(total: nat, mtu: nat, offset: nat): (ticks: seq<SendTick>)
    requires mtu > 0 && offset <= total
    ensures forall i :: 0 <= i < |ticks| ==> ticks[i].sent <= total
    decreases total - offset
  {
    if offset == total then []
    else
      var end := offset + FragmentSize(total, mtu, offset);
      [SendTick(end, total)] + SendTicks(total, mtu, end)
  }

  /** The `i`-th tick reports `i + 1` full fragments, capped by the total. */
  lemma {:induction false} TickAt(total: nat, mtu: nat, offset: nat, i: nat)
    requires mtu > 0 && offset <= total && i < |SendTicks(total, mtu, offset)|
    ensures SendTicks(total, mtu, offset)[i] ==
              SendTick(if offset + (i + 1) * mtu <= total then offset + (i + 1) * mtu else total, total)
    ensures offset + i * mtu < total
    decreases i
  {
    if i > 0 {
      assert (i + 1) * mtu == mtu + i * mtu && i * mtu == mtu + (i - 1) * mtu;
      TickAt(total, mtu, offset + FragmentSize(total, mtu, offset), i - 1);
    }
  }

  /** And the `i`-th fragment holds the bytes in between. */
  lemma {:induction false} FragmentAt(data: seq<byte>, mtu: nat, offset: nat, i: nat)
    requires mtu > 0 && offset <= |data| && i < |Fragments(data, mtu, offset)|
    ensures var from := offset + i * mtu;
            && from < |data|
            && Fragments(data, mtu, offset)[i] ==
               Fragment(from, |data|, data[from..if from + mtu <= |data| then from + mtu else |data|])
    decreases i
  {
    var end := offset + FragmentSize(|data|, mtu, offset);
    assert Fragments(data, mtu, offset)
        == [Fragment(offset, |data|, data[offset..end])] + Fragments(data, mtu, end);
    if i > 0 {
      hide Fragments;
      FragmentAt(data, mtu, end, i - 1);
      MulSucc(i - 1, mtu);
    }
  }

  lemma MulSucc(n: nat, m: nat)
    ensures (n + 1) * m == n * m + m
  {
  }

  lemma MulMonotone(a: nat, b: nat, m: nat)
    requires a <= b
    ensures a * m <= b * m
  {
    assert b * m == a * m + (b - a) * m;
  }

  /** There are as many ticks as fragments, namely `ceil(total / mtu)`: the one `n` for which
      `n` packets suffice and `n - 1` do not. */
  lemma {:induction false} TickCount(data: seq<byte>, mtu: nat, offset: nat)
    requires mtu > 0 && offset <= |data|
    ensures |Fragments(data, mtu, offset)| == |SendTicks(|data|, mtu, offset)|
    ensures var n := |SendTicks(|data|, mtu, offset)|;
            |data| - offset <= n * mtu && (n > 0 ==> (n - 1) * mtu < |data| - offset)
    decreases |data| - offset
  {
    if offset < |data| {
      var end := offset + FragmentSize(|data|, mtu, offset);
      TickCount(data, mtu, end);
      var rest := |SendTicks(|data|, mtu, end)|;
      MulSucc(rest, mtu);
      if rest > 0 { MulSucc(rest - 1, mtu); }
    }
  }

  /** Counts strictly increase, by full fragments up to the last. */
  lemma TicksIncrease(total: nat, mtu: nat, i: nat, j: nat)
    requires mtu > 0 && i < j < |SendTicks(total, mtu, 0)|
    ensures SendTicks(total, mtu, 0)[i].sent == (i + 1) * mtu
    ensures SendTicks(total, mtu, 0)[i].sent < SendTicks(total, mtu, 0)[j].sent <= total
  {
    TickAt(total, mtu, 0, i);
    TickAt(total, mtu, 0, j);
    MulMonotone(i + 1, j, mtu);
    MulSucc(j, mtu);
  }

  lemma {:induction false} LastTickIsTotal(total: nat, mtu: nat, offset: nat)
    requires mtu > 0 && offset < total
    ensures var ticks := SendTicks(total, mtu, offset); ticks != [] && ticks[|ticks| - 1].sent == total
    decreases total - offset
  {
    var end := offset + FragmentSize(total, mtu, offset);
    if end < total {
      LastTickIsTotal(total, mtu, end);
    }
  }

  // ---------------------------------------------------------------- receiving

  /** One call of the receiver's progress closure. */
  datatype RecvTick = RecvTick(received: nat, total: nat, prefix: seq<byte>)

  type RecvProgress = seq<RecvTick> -> bool

  /** The buffer a callback writes into: sized by the first nonzero total. */
  function Sized(buf: seq<byte>, total: nat): seq<byte> {
    if buf == [] && total > 0 then Zeros(total) else buf
  }

  /** `buf` with `bytes` copied in at `offset`. */
  function Patched(buf: seq<byte>, bytes: seq<byte>, offset: nat): (r: seq<byte>)
    requires offset + |bytes| <= |buf|
    ensures |r| == |buf|
    ensures forall k :: 0 <= k < |buf| ==>
              r[k] == if offset <= k < offset + |bytes| then bytes[k - offset] else buf[k]
  {
    buf[..offset] + bytes + buf[offset + |bytes|..]
  }

  /** Does the callback take this fragment? */
  predicate Fits(buf: seq<byte>, f: Fragment) {
    f.offset + |f.bytes| <= |Sized(buf, f.total)|
  }

  /** The buffer after the callback saw this fragment. */
  function Receive(buf: seq<byte>, f: Fragment): seq<byte> {
    if Fits(buf, f) then Patched(Sized(buf, f.total), f.bytes, f.offset) else Sized(buf, f.total)
  }

  function TickOf(buf: seq<byte>, f: Fragment): RecvTick
    requires Fits(buf, f)
  {
    var end := f.offset + |f.bytes|;
    RecvTick(end, f.total, Receive(buf, f)[..end])
  }

  /** All of that in plain terms: an empty buffer is first sized by the total and cleared; then the
      bytes are written over the place they are for, if they fit, and reported with all before. */
  lemma ReceiveIs(buf: seq<byte>, f: Fragment)
    ensures var n, end := if buf == [] then f.total else |buf|, f.offset + |f.bytes|;
            && (Fits(buf, f) <==> end <= n)
            && |Receive(buf, f)| == n
            && (forall k :: 0 <= k < n ==>
                  Receive(buf, f)[k] == if f.offset <= k < end <= n then f.bytes[k - f.offset]
                                        else if buf == [] then 0 else buf[k])
            && (end <= n ==> TickOf(buf, f) == RecvTick(end, f.total, Receive(buf, f)[..end]))
  {
  }

  class VecCtx {
    var buf: seq<byte>
    var ticks: seq<RecvTick>
    const progress: RecvProgress
    const usizeMax: nat     // of the target: 2^32 - 1 or 2^64 - 1

    ghost predicate Valid()
      reads this
    {
      |buf| <= U32_MAX <= usizeMax
    }

    constructor (progress: RecvProgress, usizeMax: nat)
      requires U32_MAX <= usizeMax
      ensures Valid() && buf == [] && ticks == [] && this.progress == progress
    {
      this.buf, this.ticks, this.progress, this.usizeMax := [], [], progress, usizeMax;
    }

    /** `write_cb`. */
    method WriteCb(buffer: array<byte>, size: u32, offset: u32, totalsz: u32) returns (ret: int)
      requires Valid() && size <= buffer.Length
      modifies this`buf, this`ticks
      ensures Valid()
      ensures var f := Fragment(offset, totalsz, buffer[..size]);
              && buf == Receive(old(buf), f)
              && (!Fits(old(buf), f) ==> ret == ERR_INVAL && ticks == old(ticks))
              && (Fits(old(buf), f) ==>
                    && ticks == old(ticks) + [TickOf(old(buf), f)]
                    && ret == if progress(ticks) then ERR_NONE else ERR_ABORTED)
    {
      if |buf| == 0 && totalsz > 0 {
        buf := Zeros(totalsz);
      }
      if offset + size > usizeMax {
        return ERR_INVAL;       // checked_add overflowed
      }
      var end := offset + size;
      if end > |buf| {
        return ERR_INVAL;
      }
      buf := Patched(buf, buffer[..size], offset);
      var end32: u32 := end;    // `end as u32` loses nothing
      ticks := ticks + [RecvTick(end32, totalsz, buf[..end])];
      if !progress(ticks) {
        return ERR_ABORTED;
      }
      return ERR_NONE;
    }
  }

  // ---------------------------------------------------------------- any calls whatever

  /** The buffer after any calls, in any order, with any arguments. */
  function ReceiveAll(calls: seq<Fragment>): seq<byte> {
    if calls == [] then []
    else Receive(ReceiveAll(calls[..|calls| - 1]), calls[|calls| - 1])
  }

  /** Was call `i` taken when it was made? */
  predicate Taken(calls: seq<Fragment>, i: nat)
    requires i < |calls|
  {
    Fits(ReceiveAll(calls[..i]), calls[i])
  }

  predicate Covers(f: Fragment, k: nat) {
    f.offset <= k < f.offset + |f.bytes|
  }

  /** The first nonzero total fixes the length for good; before it the buffer is empty. */
  lemma {:induction false} FirstTotalFixesLength(calls: seq<Fragment>, first: nat)
    requires first <= |calls| && forall i :: 0 <= i < first ==> calls[i].total == 0
    requires first < |calls| ==> calls[first].total > 0
    ensures |ReceiveAll(calls)| == if first < |calls| then calls[first].total else 0
  {
    if calls != [] {
      var n := |calls| - 1;
      FirstTotalFixesLength(calls[..n], if first < n then first else n);
    }
  }

  /** A call that is not taken changes no byte; at most it fixes the length. */
  lemma RejectedKeepsBytes(buf: seq<byte>, f: Fragment)
    requires !Fits(buf, f)
    ensures Receive(buf, f) == buf || (buf == [] && Receive(buf, f) == Zeros(f.total))
  {
  }

  /** What one call does to byte `k`. */
  lemma ReceiveByte(buf: seq<byte>, f: Fragment, k: nat)
    ensures Fits(buf, f) && Covers(f, k) ==> k < |Receive(buf, f)| && Receive(buf, f)[k] == f.bytes[k - f.offset]
    ensures !(Fits(buf, f) && Covers(f, k)) && k < |buf| ==> k < |Receive(buf, f)| && Receive(buf, f)[k] == buf[k]
  {
  }

  /** Last write wins: byte `k` is that of the last taken call that covers it. */
  lemma {:induction false} LastWriteWins(calls: seq<Fragment>, i: nat, k: nat)
    requires i < |calls| && Taken(calls, i) && Covers(calls[i], k)
    requires forall j :: i < j < |calls| && Taken(calls, j) ==> !Covers(calls[j], k)
    ensures k < |ReceiveAll(calls)| && ReceiveAll(calls)[k] == calls[i].bytes[k - calls[i].offset]
  {
    hide Receive, Fits;
    var n := |calls| - 1;
    ReceiveByte(ReceiveAll(calls[..n]), calls[n], k);
    if i < n {
      TakenPrefix(calls, n);
      LastWriteWins(calls[..n], i, k);
    }
  }

  lemma TakenPrefix(calls: seq<Fragment>, n: nat)
    requires n <= |calls|
    ensures forall j :: 0 <= j < n ==> (Taken(calls[..n], j) <==> Taken(calls, j))
  {
    forall j | 0 <= j < n
      ensures Taken(calls[..n], j) <==> Taken(calls, j)
    {
      assert calls[..n][..j] == calls[..j];
    }
  }

  /** A byte no taken call covers is zero. */
  lemma {:induction false} UncoveredIsZero(calls: seq<Fragment>, k: nat)
    requires k < |ReceiveAll(calls)|
    requires forall j :: 0 <= j < |calls| && Taken(calls, j) ==> !Covers(calls[j], k)
    ensures ReceiveAll(calls)[k] == 0
  {
    var n := |calls| - 1;
    TakenPrefix(calls, n);
    assert Taken(calls, n) <==> Fits(ReceiveAll(calls[..n]), calls[n]);
    if k < |ReceiveAll(calls[..n])| {
      UncoveredIsZero(calls[..n], k);
    }
  }
}
