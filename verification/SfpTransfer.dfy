/** Whole SFP transfers: the two C driver loops as assumed, the public send and receive around
    them, and the round trip. */
module SfpTransfer {
  import opened Bytes
  import opened Sfp

  datatype Status = Success | Failure(code: int)

  function Code(status: Status): int {
    match status
    case Success => ERR_NONE
    case Failure(code) => code
  }

  // ---------------------------------------------------------------- the sending side

  /** Between two callbacks: everything before `offset` is on the wire, with the closure's leave. */
  ghost predicate Sending(data: seq<byte>, mtu: nat, progress: SendProgress,
                          ticks: seq<SendTick>, wire: seq<Fragment>, offset: nat)
    requires mtu > 0
  {
    && offset <= |data| && |wire| == |ticks|
    && ticks + SendTicks(|data|, mtu, offset) == SendTicks(|data|, mtu, 0)
    && wire + Fragments(data, mtu, offset) == Fragments(data, mtu, 0)
    && forall k :: 0 < k <= |ticks| ==> progress(ticks[..k])
  }

  /** How a send ends. It succeeds with every fragment on the wire and every tick made and
      approved, or it is aborted by the first tick the closure refuses, whose fragment, and all
      after it, never go out. */
  ghost predicate Sent(data: seq<byte>, mtu: nat, progress: SendProgress,
                       ticks: seq<SendTick>, wire: seq<Fragment>, ret: int)
    requires mtu > 0
  {
    && ticks <= SendTicks(|data|, mtu, 0) && wire <= Fragments(data, mtu, 0)
    && (forall k :: 0 < k < |ticks| ==> progress(ticks[..k]))
    && if ret == ERR_NONE then
         && ticks == SendTicks(|data|, mtu, 0) && wire == Fragments(data, mtu, 0)
         && (ticks != [] ==> progress(ticks))
       else
         ret == ERR_ABORTED && ticks != [] && !progress(ticks) && |wire| == |ticks| - 1
  }

  /** The same in numbers: the code is 0 or -200; every tick made reports one more full packet, up to
      the total; what went out are the first fragments, all of them on success, and on a refusal
      those before the tick that was refused. */
  lemma SentIs(data: seq<byte>, mtu: nat, progress: SendProgress,
               ticks: seq<SendTick>, wire: seq<Fragment>, ret: int, i: nat)
    requires mtu > 0 && Sent(data, mtu, progress, ticks, wire, ret)
    ensures ret == 0 || ret == -200
    ensures i < |ticks| ==>
              ticks[i] == SendTick(if (i + 1) * mtu <= |data| then (i + 1) * mtu else |data|, |data|)
    ensures i < |wire| ==>
              && i * mtu < |data|
              && wire[i] == Fragment(i * mtu, |data|,
                                     data[i * mtu..if i * mtu + mtu <= |data| then i * mtu + mtu else |data|])
    ensures ret == 0 ==> |wire| == |ticks| && |data| <= |wire| * mtu && (ticks != [] ==> progress(ticks))
    ensures ret == -200 ==> |wire| + 1 == |ticks| && !progress(ticks)
    ensures 0 < i < |ticks| ==> progress(ticks[..i])
  {
    TickCount(data, mtu, 0);
    hide Fragments, SendTicks;
    if i < |ticks| { TickAt(|data|, mtu, 0, i); }
    if i < |wire| { FragmentAt(data, mtu, 0, i); }
  }

  lemma SendingStep(data: seq<byte>, mtu: nat, progress: SendProgress,
                    ticks: seq<SendTick>, wire: seq<Fragment>, offset: nat)
    requires mtu > 0 && Sending(data, mtu, progress, ticks, wire, offset) && offset < |data|
    ensures var end := offset + FragmentSize(|data|, mtu, offset);
            var ticks' := ticks + [SendTick(end, |data|)];
            if progress(ticks') then
              Sending(data, mtu, progress, ticks', wire + [Fragment(offset, |data|, data[offset..end])], end)
            else
              Sent(data, mtu, progress, ticks', wire, ERR_ABORTED)
  {
    var end := offset + FragmentSize(|data|, mtu, offset);
    var tick, frag := SendTick(end, |data|), Fragment(offset, |data|, data[offset..end]);
    assert (ticks + [tick]) + SendTicks(|data|, mtu, end) == ticks + SendTicks(|data|, mtu, offset);
    assert (wire + [frag]) + Fragments(data, mtu, end) == wire + Fragments(data, mtu, offset);
    forall k | 0 < k <= |ticks|
      ensures progress((ticks + [tick])[..k])
    {
      assert (ticks + [tick])[..k] == ticks[..k];
    }
    assert (ticks + [tick])[..|ticks| + 1] == ticks + [tick];
  }

  lemma SendingDone(data: seq<byte>, mtu: nat, progress: SendProgress, ticks: seq<SendTick>, wire: seq<Fragment>)
    requires mtu > 0 && Sending(data, mtu, progress, ticks, wire, |data|)
    ensures Sent(data, mtu, progress, ticks, wire, ERR_NONE)
  {
    assert ticks + SendTicks(|data|, mtu, |data|) == ticks && wire + Fragments(data, mtu, |data|) == wire;
    assert ticks[..|ticks|] == ticks;
  }

  /** One turn of the loop of `csp_sfp_send`: have the callback fill a packet. */
  method ReadFragment(ctx: SendCtx, total: nat, mtu: u32, offset: u32) returns (ret: int, f: Fragment)
    requires ctx.len == |ctx.data| % 0x1_0000_0000 == total && mtu > 0 && offset < total
    modifies ctx`ticks
    ensures var end := offset + FragmentSize(total, mtu, offset);
            && ctx.ticks == old(ctx.ticks) + [SendTick(end, total)]
            && f == Fragment(offset, total, ctx.data[..total][offset..end])
            && ret == if ctx.progress(ctx.ticks) then ERR_NONE else ERR_ABORTED
  {
    var size := FragmentSize(total, mtu, offset);
    var buffer := new byte[size];
    var past;
    ret, past := ctx.ReadCb(buffer, size, offset);
    f := Fragment(offset, total, buffer[..]);
    assert buffer[..] == buffer[..size];
  }

  /** `csp_sfp_send`: one read callback per fragment, the offset advancing by its size; a
      fragment goes out only when the callback answered 0. */
  method CspSfpSend(ctx: SendCtx, total: nat, mtu: u32) returns (ret: int, wire: seq<Fragment>)
    requires ctx.len == |ctx.data| % 0x1_0000_0000 == total && mtu > 0 && ctx.ticks == []
    modifies ctx`ticks
    ensures Sent(ctx.data[..total], mtu, ctx.progress, ctx.ticks, wire, ret)
  {
    ghost var data := ctx.data[..total];
    wire := [];
    var offset := 0;
    while offset < total
      invariant offset <= total
      invariant Sending(data, mtu, ctx.progress, ctx.ticks, wire, offset)
    {
      hide Sending, Sent, Fragments, SendTicks;
      SendingStep(data, mtu, ctx.progress, ctx.ticks, wire, offset);
      var f;
      ret, f := ReadFragment(ctx, total, mtu, offset);
      if ret != ERR_NONE {
        return;
      }
      wire := wire + [f];
      offset := offset + |f.bytes|;
    }
    ret := ERR_NONE;
    SendingDone(data, mtu, ctx.progress, ctx.ticks, wire);
  }

  /** `sfp_send_with_progress`: the length goes to C as a `u32`. */
  method SfpSend(data: seq<byte>, mtu: u32, progress: SendProgress)
    returns (status: Status, wire: seq<Fragment>, ctx: SendCtx)
    requires mtu > 0
    ensures Sent(data[..|data| % 0x1_0000_0000], mtu, progress, ctx.ticks, wire, Code(status))
    ensures status.Success? <==> Code(status) == ERR_NONE
  {
    ctx := new SendCtx(data, progress);
    var ret;
    ret, wire := CspSfpSend(ctx, |data| % 0x1_0000_0000, mtu);
    status := if ret == ERR_NONE then Success else Failure(ret);
  }

  // ---------------------------------------------------------------- the receiving side

  /** The buffer after the fragments of `wire`, if the callback takes every one of them. */
  datatype Assembly = Rejected | Assembled(buf: seq<byte>, ticks: seq<RecvTick>)

  function Assemble(wire: seq<Fragment>): (a: Assembly)
    ensures a.Assembled? ==> |a.ticks| == |wire|
  {
    if wire == [] then Assembled([], [])
    else
      var n := |wire| - 1;
      match Assemble(wire[..n])
      case Rejected => Rejected
      case Assembled(buf, ticks) =>
        if Fits(buf, wire[n]) then Assembled(Receive(buf, wire[n]), ticks + [TickOf(buf, wire[n])])
        else Rejected
  }

  /** Fragments as they arrive: fields are `u32` on the wire. */
  ghost predicate OnWire(wire: seq<Fragment>) {
    forall i :: 0 <= i < |wire| ==>
      wire[i].offset <= 0xFFFF_FFFF && |wire[i].bytes| <= 0xFFFF_FFFF && wire[i].total <= 0xFFFF_FFFF
  }

  lemma AssembleStep(wire: seq<Fragment>, i: nat)
    requires i < |wire|
    ensures Assemble(wire[..i + 1]) ==
            match Assemble(wire[..i])
            case Rejected => Rejected
            case Assembled(buf, ticks) =>
              if Fits(buf, wire[i]) then Assembled(Receive(buf, wire[i]), ticks + [TickOf(buf, wire[i])])
              else Rejected
  {
    assert wire[..i + 1][..i] == wire[..i];
  }

  lemma {:induction false} RejectedStays(wire: seq<Fragment>, n: nat)
    requires n <= |wire| && Assemble(wire[..n]).Rejected?
    ensures Assemble(wire).Rejected?
    decreases |wire| - n
  {
    if n == |wire| {
      assert wire[..n] == wire;
    } else {
      AssembleStep(wire, n);
      RejectedStays(wire, n + 1);
    }
  }

  ghost predicate Approved(progress: RecvProgress, ticks: seq<RecvTick>, n: nat)
    requires n <= |ticks|
  {
    forall k :: 0 < k <= n ==> progress(ticks[..k])
  }

  /** Between two callbacks: the first `n` fragments are in, with the closure's leave. */
  ghost predicate Receiving(wire: seq<Fragment>, progress: RecvProgress, buf: seq<byte>, ticks: seq<RecvTick>, n: nat) {
    n <= |wire| && Assemble(wire[..n]) == Assembled(buf, ticks) && Approved(progress, ticks, n)
  }

  /** How a receive ends: with all fragments in; or at the first one the buffer has no room for;
      or at the first tick the closure refuses. If no fragment comes at all, no callback is made
      and the code is `idle`, the driver's own. */
  ghost predicate Received(wire: seq<Fragment>, progress: RecvProgress,
                           buf: seq<byte>, ticks: seq<RecvTick>, ret: int, idle: int)
  {
    || (wire == [] && ret == idle && buf == [] && ticks == [])
    || (wire != [] && ret == ERR_NONE && Receiving(wire, progress, buf, ticks, |wire|))
    || (ret == ERR_INVAL && Assemble(wire).Rejected? && exists n :: Overrun(wire, progress, buf, ticks, n))
    || (ret == ERR_ABORTED && exists n :: Aborted(wire, progress, buf, ticks, n))
  }

  ghost predicate Overrun(wire: seq<Fragment>, progress: RecvProgress, buf: seq<byte>, ticks: seq<RecvTick>, n: nat) {
    && n < |wire| && Assemble(wire[..n]).Assembled? && Assemble(wire[..n]).ticks == ticks
    && Approved(progress, ticks, n)
    && !Fits(Assemble(wire[..n]).buf, wire[n]) && buf == Receive(Assemble(wire[..n]).buf, wire[n])
  }

  ghost predicate Aborted(wire: seq<Fragment>, progress: RecvProgress, buf: seq<byte>, ticks: seq<RecvTick>, n: nat) {
    && 0 < n <= |wire| && Assemble(wire[..n]) == Assembled(buf, ticks)
    && Approved(progress, ticks, n - 1) && !progress(ticks)
  }

  /** An assembled buffer is what the callbacks of `Sfp.dfy` leave, one for each fragment. */
  lemma {:induction false} AssembleReceivesAll(wire: seq<Fragment>)
    requires Assemble(wire).Assembled?
    ensures Assemble(wire).buf == ReceiveAll(wire)
    ensures forall i :: 0 <= i < |wire| ==> Taken(wire, i)
  {
    hide Fits, Receive, TickOf;
    if wire != [] {
      var n := |wire| - 1;
      AssembleReceivesAll(wire[..n]);
      forall i | 0 <= i < |wire|
        ensures Taken(wire, i)
      {
        if i < n { assert wire[..n][..i] == wire[..i] && Taken(wire[..n], i); }
      }
    }
  }

  /** The same in numbers: 0 with everything in and approved; -2 only if the whole cannot be
      assembled; -200 after a refused tick, all before it approved. */
  lemma ReceivedIs(wire: seq<Fragment>, progress: RecvProgress,
                   buf: seq<byte>, ticks: seq<RecvTick>, ret: int, idle: int, i: nat)
    requires wire != [] && Received(wire, progress, buf, ticks, ret, idle)
    ensures ret == 0 || ret == -2 || ret == -200
    ensures ret == 0 ==> Assemble(wire) == Assembled(buf, ticks) && progress(ticks)
    ensures ret == -2 ==> Assemble(wire).Rejected? && |ticks| < |wire|
    ensures ret == -200 ==> ticks != [] && !progress(ticks)
    ensures 0 < i < |ticks| ==> progress(ticks[..i])
  {
    hide Assemble, Fits, Receive;
    assert wire[..|wire|] == wire;
    assert ticks[..|ticks|] == ticks;
  }

  lemma ReceivingStep(wire: seq<Fragment>, progress: RecvProgress, buf: seq<byte>, ticks: seq<RecvTick>, n: nat,
                      idle: int)
    requires Receiving(wire, progress, buf, ticks, n) && n < |wire|
    ensures var f := wire[n];
            if !Fits(buf, f) then Received(wire, progress, Receive(buf, f), ticks, ERR_INVAL, idle)
            else
              var (buf', ticks') := (Receive(buf, f), ticks + [TickOf(buf, f)]);
              if progress(ticks') then Receiving(wire, progress, buf', ticks', n + 1)
              else Received(wire, progress, buf', ticks', ERR_ABORTED, idle)
  {
    hide Receive, TickOf, Fits, Assemble;
    AssembleStep(wire, n);
    var f := wire[n];
    if !Fits(buf, f) {
      RejectedStays(wire, n + 1);
      assert Overrun(wire, progress, Receive(buf, f), ticks, n);
    } else {
      var ticks' := ticks + [TickOf(buf, f)];
      assert forall k :: 0 < k <= n ==> ticks'[..k] == ticks[..k];
      assert ticks'[..n + 1] == ticks';
      if !progress(ticks') {
        assert Aborted(wire, progress, Receive(buf, f), ticks', n + 1);
      }
    }
  }

  /** `csp_sfp_recv_fp`: one write callback per fragment, in order, until one answers nonzero. */
  method CspSfpRecv(ctx: VecCtx, wire: seq<Fragment>, idle: int) returns (ret: int)
    requires ctx.Valid() && ctx.buf == [] && ctx.ticks == [] && OnWire(wire)
    modifies ctx`buf, ctx`ticks
    ensures ctx.Valid() && Received(wire, ctx.progress, ctx.buf, ctx.ticks, ret, idle)
  {
    for i := 0 to |wire|
      invariant ctx.Valid()
      invariant Receiving(wire, ctx.progress, ctx.buf, ctx.ticks, i)
    {
      hide Receiving, Received;
      var f := wire[i];
      var buffer := new byte[|f.bytes|](j requires 0 <= j < |f.bytes| => f.bytes[j]);
      assert buffer[..|f.bytes|] == f.bytes;
      ReceivingStep(wire, ctx.progress, ctx.buf, ctx.ticks, i, idle);
      ret := ctx.WriteCb(buffer, |f.bytes|, f.offset, f.total);
      if ret != ERR_NONE {
        return;
      }
    }
    ret := if wire == [] then idle else ERR_NONE;
  }

  /** `sfp_recv_with_progress`. */
  method SfpRecv(wire: seq<Fragment>, progress: RecvProgress, usizeMax: nat, idle: int)
    returns (status: Status, data: seq<byte>, ctx: VecCtx)
    requires OnWire(wire) && 0xFFFF_FFFF <= usizeMax
    ensures Received(wire, progress, ctx.buf, ctx.ticks, Code(status), idle)
    ensures status.Success? <==> Code(status) == ERR_NONE
    ensures status.Success? ==> data == ctx.buf
  {
    ctx := new VecCtx(progress, usizeMax);
    var ret := CspSfpRecv(ctx, wire, idle);
    data := ctx.buf;
    status := if ret == ERR_NONE then Success else Failure(ret);
  }

  // ---------------------------------------------------------------- round trip

  /** The tick the receiver makes when the sender's tick was `t`. */
  function Echo(data: seq<byte>, t: SendTick): RecvTick
    requires t.sent <= |data|
  {
    RecvTick(t.sent, |data|, data[..t.sent])
  }

  /** After the fragments that end at `offset`: the payload so far, in a buffer of its full size. */
  ghost predicate Mirrors(data: seq<byte>, buf: seq<byte>, offset: nat) {
    && offset <= |data|
    && if offset == 0 then buf == [] else |buf| == |data| && buf[..offset] == data[..offset]
  }

  lemma FragmentFits(data: seq<byte>, mtu: nat, buf: seq<byte>, offset: nat)
    requires mtu > 0 && offset < |data| && Mirrors(data, buf, offset)
    ensures var end := offset + FragmentSize(|data|, mtu, offset);
            var f := Fragment(offset, |data|, data[offset..end]);
            && Fits(buf, f) && Mirrors(data, Receive(buf, f), end)
            && TickOf(buf, f) == Echo(data, SendTick(end, |data|))
  {
    var end := offset + FragmentSize(|data|, mtu, offset);
    var f := Fragment(offset, |data|, data[offset..end]);
    var buf' := Receive(buf, f);
    assert buf'[..end] == data[..end];
  }

  function Echoes(data: seq<byte>, sent: seq<SendTick>): seq<RecvTick>
    requires forall i :: 0 <= i < |sent| ==> sent[i].sent <= |data|
  {
    seq(|sent|, i requires 0 <= i < |sent| => Echo(data, sent[i]))
  }

  lemma EchoesCons(data: seq<byte>, t: SendTick, rest: seq<SendTick>)
    requires t.sent <= |data| && forall i :: 0 <= i < |rest| ==> rest[i].sent <= |data|
    ensures Echoes(data, [t] + rest) == [Echo(data, t)] + Echoes(data, rest)
  {
  }

  lemma AssembleSnoc(done: seq<Fragment>, f: Fragment)
    requires Assemble(done).Assembled? && Fits(Assemble(done).buf, f)
    ensures Assemble(done + [f]) ==
              Assembled(Receive(Assemble(done).buf, f), Assemble(done).ticks + [TickOf(Assemble(done).buf, f)])
  {
    assert (done + [f])[..|done|] == done;
  }

  lemma {:induction false} RoundTripFrom(data: seq<byte>, mtu: nat, offset: nat, done: seq<Fragment>)
    requires mtu > 0 && data != [] && Assemble(done).Assembled? && Mirrors(data, Assemble(done).buf, offset)
    ensures Assemble(done + Fragments(data, mtu, offset)) ==
              Assembled(data, Assemble(done).ticks + Echoes(data, SendTicks(|data|, mtu, offset)))
    decreases |data| - offset
  {
    if offset == |data| {
      var buf := Assemble(done).buf;
      assert buf == buf[..offset] && data == data[..offset];
      assert done + [] == done && Assemble(done).ticks + [] == Assemble(done).ticks;
    } else {
      RoundTripStep(data, mtu, offset, done);
    }
  }

  lemma {:induction false} RoundTripStep(data: seq<byte>, mtu: nat, offset: nat, done: seq<Fragment>)
    requires mtu > 0 && offset < |data| && Assemble(done).Assembled? && Mirrors(data, Assemble(done).buf, offset)
    ensures Assemble(done + Fragments(data, mtu, offset)) ==
              Assembled(data, Assemble(done).ticks + Echoes(data, SendTicks(|data|, mtu, offset)))
    decreases |data| - offset, 0
  {
    hide Assemble, Receive, TickOf, Fits, Mirrors;
    var end := offset + FragmentSize(|data|, mtu, offset);
    var f, t := Fragment(offset, |data|, data[offset..end]), SendTick(end, |data|);
    var a := Assemble(done);
    FragmentFits(data, mtu, a.buf, offset);
    AssembleSnoc(done, f);
    RoundTripFrom(data, mtu, end, done + [f]);
    assert (done + [f]) + Fragments(data, mtu, end) == done + Fragments(data, mtu, offset);
    var rest := SendTicks(|data|, mtu, end);
    EchoesCons(data, t, rest);
    assert (a.ticks + [Echo(data, t)]) + Echoes(data, rest) == a.ticks + ([Echo(data, t)] + Echoes(data, rest));
  }

  /** Round trip: whatever the payload and the fragment size, the receiver takes every fragment
      of the sender and ends with exactly the payload; and it ticks once for each tick of the
      sender, at the same count, with the payload's own prefix. */
  lemma RoundTrip(data: seq<byte>, mtu: nat)
    requires mtu > 0
    ensures Assemble(Fragments(data, mtu, 0)) == Assembled(data, Echoes(data, SendTicks(|data|, mtu, 0)))
  {
    if data != [] {
      RoundTripFrom(data, mtu, 0, []);
    }
    assert [] + Fragments(data, mtu, 0) == Fragments(data, mtu, 0);
    var ticks := Echoes(data, SendTicks(|data|, mtu, 0));
    assert [] + ticks == ticks;
  }

  lemma {:induction false} FragmentsOnWire(data: seq<byte>, mtu: nat, offset: nat)
    requires mtu > 0 && offset <= |data| <= U32_MAX
    ensures OnWire(Fragments(data, mtu, offset))
    decreases |data| - offset
  {
    if offset < |data| {
      FragmentsOnWire(data, mtu, offset + FragmentSize(|data|, mtu, offset));
    }
  }

  /** With nobody objecting a send succeeds, with every fragment out ... */
  lemma SendUnopposed(data: seq<byte>, mtu: nat, progress: SendProgress,
                      ticks: seq<SendTick>, wire: seq<Fragment>, ret: int)
    requires mtu > 0 && Sent(data, mtu, progress, ticks, wire, ret) && forall t :: progress(t)
    ensures ret == ERR_NONE && wire == Fragments(data, mtu, 0)
  {
  }

  /** ... and so does the receive of those fragments, with the payload; if there are any. */
  lemma ReceiveUnopposed(data: seq<byte>, mtu: nat, progress: RecvProgress,
                         buf: seq<byte>, ticks: seq<RecvTick>, ret: int, idle: int)
    requires mtu > 0 && forall t :: progress(t)
    requires Received(Fragments(data, mtu, 0), progress, buf, ticks, ret, idle)
    ensures buf == data && ret == if data == [] then idle else ERR_NONE
  {
    hide Fragments, Assemble;
    var wire := Fragments(data, mtu, 0);
    RoundTrip(data, mtu);
    assert wire[..|wire|] == wire;
  }

  /** `sfp_send` into `sfp_recv`, neither closure objecting. What arrives is what was handed to C:
      the payload itself, unless its length does not fit a `u32`; of an empty one nothing is sent,
      and the receiver answers as its driver does when nothing comes. */
  method Transfer(data: seq<byte>, mtu: u32, usizeMax: nat, idle: int)
    returns (outcome: Status, received: seq<byte>)
    requires mtu > 0 && 0xFFFF_FFFF <= usizeMax
    ensures outcome.Success? ==> received == data[..|data| % 0x1_0000_0000]
    ensures Code(outcome) == if |data| % 0x1_0000_0000 == 0 then idle else ERR_NONE
    ensures outcome.Success? <==> Code(outcome) == ERR_NONE
    ensures outcome.Success? ==> (received == data <==> |data| < 0x1_0000_0000)
  {
    hide Sent, Received, Fragments, OnWire;
    ghost var sent := data[..|data| % 0x1_0000_0000];
    var sending: SendProgress, receiving: RecvProgress := ticks => true, ticks => true;
    var status, wire, sender := SfpSend(data, mtu, sending);
    SendUnopposed(sent, mtu, sending, sender.ticks, wire, Code(status));
    FragmentsOnWire(sent, mtu, 0);
    var receiver;
    outcome, received, receiver := SfpRecv(wire, receiving, usizeMax, idle);
    ReceiveUnopposed(sent, mtu, receiving, receiver.buf, receiver.ticks, Code(outcome), idle);
  }
}
