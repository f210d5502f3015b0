/** Particular runs of the monitor: a non-blocking call by itself is one operation of the bounded
    FIFO, and a wait that times out after it was notified loses the wakeup. */
module MonitorRuns {
  import opened Runs
  import opened Monitor
  import opened MonitorSafety
  import F = Fifo

  lemma Extend<T>(s: State<T>, steps: seq<Step<T>>, mid: State<T>, step: Step<T>)
    returns (steps': seq<Step<T>>, s': State<T>)
    requires Run(s, steps) == Reached(mid) && Enabled(mid, step)
    ensures s' == Do(mid, step) && Run(s, steps') == Reached(s')
  {
    ExecSnoc(s, steps, step, Next);
    steps', s' := steps + [step], Do(mid, step);
  }

  /** Make a call and take the lock. */
  lemma Enter<T>(z: State<T>, steps: seq<Step<T>>, s: State<T>, t: nat, op: F.Op<T>, timeout: Millis)
    returns (steps': seq<Step<T>>, s': State<T>)
    requires Run(z, steps) == Reached(s) && t < |s.pcs| && s.pcs[t].Idle? && s.lock.Free?
    ensures Run(z, steps') == Reached(s')
    ensures s' == Move(s, t, Testing(Call(s.nextId, op, timeout), false)).(lock := HeldBy(t), nextId := s.nextId + 1)
  {
    hide Run;
    steps', s' := Extend(z, steps, s, Invoke(t, op, timeout));
    steps', s' := Extend(z, steps', s', Acquire(t));
    assert s'.pcs == s.pcs[t := Testing(Call(s.nextId, op, timeout), false)];
  }

  /** Holding the lock with nothing to wait for: do it and let go of the lock. */
  lemma Serve<T>(z: State<T>, steps: seq<Step<T>>, s: State<T>, t: nat)
    returns (steps': seq<Step<T>>, s': State<T>, reply: F.Reply<T>)
    requires Run(z, steps) == Reached(s) && t < |s.pcs| && s.pcs[t].Testing?
    requires !Blocked(s.pcs[t].c.op, s.cap, s.data)
    ensures Run(z, steps') == Reached(s')
    ensures var c := s.pcs[t].c;
            && (F.Fifo(s.cap, s'.data), reply) == F.Apply(F.Fifo(s.cap, s.data), c.op)
            && s' == Move(s, t, if c.op.Size? then Returning(c, reply) else Notifying(c, reply)).(
                       lock := Free, data := s'.data, hist := s.hist + [Event(c.id, c.op, reply)])
  {
    hide Run;
    steps', s' := Extend(z, steps, s, Pass(t));
    steps', s' := Extend(z, steps', s', Act(t));
    reply := s'.pcs[t].reply;
    steps', s' := Extend(z, steps', s', Unlock(t));
    assert s'.pcs == s.pcs[t := s'.pcs[t]];
  }

  /** Holding the lock with no time to wait: let go of the lock and answer `false`. */
  lemma Refuse<T>(z: State<T>, steps: seq<Step<T>>, s: State<T>, t: nat)
    returns (steps': seq<Step<T>>, s': State<T>)
    requires Run(z, steps) == Reached(s) && t < |s.pcs| && s.pcs[t].Testing?
    requires Blocked(s.pcs[t].c.op, s.cap, s.data) && WaitKind(s.pcs[t].c.timeout).NoWait?
    ensures Run(z, steps') == Reached(s')
    ensures var c := s.pcs[t].c;
            s' == Move(s, t, Returning(c, F.Refused)).(
                    lock := Free, hist := s.hist + [Event(c.id, c.op, F.Refused)])
  {
    hide Run;
    steps', s' := Extend(z, steps, s, GiveUp(t));
    steps', s' := Extend(z, steps', s', Unlock(t));
    assert s'.pcs == s.pcs[t := s'.pcs[t]];
  }

  ghost predicate Settled<T>(s: State<T>) {
    s.lock.Free? && forall t :: 0 <= t < |s.pcs| ==> s.pcs[t].Idle?
  }

  /** With everyone outside, a call with timeout 0 runs to its end and does to the stored items,
      and answers, exactly what the bounded FIFO does. */
  lemma SoloCall<T>(s: State<T>, t: nat, op: F.Op<T>) returns (steps: seq<Step<T>>, s': State<T>, reply: F.Reply<T>)
    requires Settled(s) && t < |s.pcs|
    ensures Run(s, steps) == Reached(s') && Settled(s') && |s'.pcs| == |s.pcs|
    ensures (F.Fifo(s'.cap, s'.data), reply) == F.Apply(F.Fifo(s.cap, s.data), op)
    ensures s'.hist == s.hist + [Event(s.nextId, op, reply)]
  {
    steps, s' := Enter(s, [], s, t, op, 0);
    hide Run;
    if Blocked(op, s.cap, s.data) {
      reply := F.Refused;
      steps, s' := Refuse(s, steps, s', t);
    } else {
      steps, s', reply := Serve(s, steps, s', t);
      if !op.Size? {
        steps, s' := Extend(s, steps, s', NotifyNone(t));
      }
    }
    steps, s' := Extend(s, steps, s', Return(t));
  }

  /** A dequeuer finds the queue empty and goes to sleep. */
  lemma FallAsleep<T>(z: State<T>, steps: seq<Step<T>>, s: State<T>, t: nat, timeout: Millis)
    returns (steps': seq<Step<T>>, s': State<T>)
    requires Run(z, steps) == Reached(s) && t < |s.pcs| && s.pcs[t].Idle? && s.lock.Free?
    requires s.data == [] && timeout > 0
    ensures Run(z, steps') == Reached(s')
    ensures s' == Move(s, t, Sleeping(Call(s.nextId, F.Dequeue, timeout))).(nextId := s.nextId + 1)
  {
    hide Run;
    steps', s' := Enter(z, steps, s, t, F.Dequeue, timeout);
    steps', s' := Extend(z, steps', s', Park(t));
    assert s'.pcs == s.pcs[t := s'.pcs[t]];
  }

  /** A reachable state in which a timed dequeuer has been notified of the one stored item and
      an untimed dequeuer is still asleep. */
  lemma NotifiedState() returns (steps: seq<Step<int>>, s: State<int>)
    ensures Run(Init(1, 3), steps) == Reached(s) && s.lock.Free? && s.cap == 1 && s.data == [7]
    ensures s.pcs == [Woken(Call(0, F.Dequeue, 5)), Sleeping(Call(1, F.Dequeue, WAIT_FOREVER)), Idle]
  {
    var z := Init<int>(1, 3);
    steps, s := FallAsleep(z, [], z, 0, 5);
    hide Run;
    steps, s := FallAsleep(z, steps, s, 1, WAIT_FOREVER);
    assert s.pcs == [Sleeping(Call(0, F.Dequeue, 5)), Sleeping(Call(1, F.Dequeue, WAIT_FOREVER)), Idle];
    steps, s := Enter(z, steps, s, 2, F.Enqueue(7), 0);
    var reply;
    steps, s, reply := Serve(z, steps, s, 2);
    steps, s := Extend(z, steps, s, NotifyOne(2, 0));
    steps, s := Extend(z, steps, s, Return(2));
  }

  /** The first thread, once its wait has timed out, leaves; the second sleeps on. */
  lemma LeaveLate(s: State<int>) returns (late: seq<Step<int>>, end: State<int>)
    requires s.pcs == [TimedOut(Call(0, F.Dequeue, 5)), Sleeping(Call(1, F.Dequeue, WAIT_FOREVER)), Idle]
    requires s.lock.Free?
    ensures Run(s, late) == Reached(end) && end.cap == s.cap && end.data == s.data
    ensures end.pcs == [Idle, Sleeping(Call(1, F.Dequeue, WAIT_FOREVER)), Idle]
  {
    late, end := Extend(s, [], s, Acquire(0));
    hide Run;
    late, end := Extend(s, late, end, Unlock(0));
    late, end := Extend(s, late, end, Return(0));
  }

  /** Were the notified thread told that it timed out, it would leave without the item, and the
      other would sleep on beside it with nobody left to wake it. */
  lemma ConsumedNotifyStrandsSleeper()
    returns (steps: seq<Step<int>>, s: State<int>, late: seq<Step<int>>, end: State<int>)
    ensures Run(Init(1, 3), steps) == Reached(s)
    ensures s.pcs != [] && s.pcs[0].Woken? && WaitKind(s.pcs[0].c.timeout).Timed?
    ensures Run(Move(s, 0, TimedOut(s.pcs[0].c)), late) == Reached(end)
    ensures Quiescent(end) && Waiting(end, 1) && !Blocked(end.pcs[1].c.op, end.cap, end.data)
  {
    steps, s := NotifiedState();
    hide Run;
    late, end := LeaveLate(Move(s, 0, TimedOut(s.pcs[0].c)));
  }
}
