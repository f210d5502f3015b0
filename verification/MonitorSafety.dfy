/** What holds of `TestQueue` in every interleaving. */
module MonitorSafety {
  import opened Runs
  import opened Monitor
  import F = Fifo

  lemma LockStep<T>(s: State<T>, step: Step<T>)
    requires LockInv(s) && Enabled(s, step)
    ensures LockInv(Do(s, step))
  {
  }

  // ---------------------------------------------------------------- the log

  lemma LogAppend<T>(s: State<T>, e: Event<T>, data: seq<T>)
    requires LogInv(s)
    requires F.Apply(F.Fifo(s.cap, s.data), e.op) == (F.Fifo(s.cap, data), e.reply)
    ensures LogInv(s.(data := data, hist := s.hist + [e]))
  {
    var hist := s.hist + [e];
    assert Ops(hist)[..|s.hist|] == Ops(s.hist);
    assert Replies(hist) == Replies(s.hist) + [e.reply];
  }

  lemma LogStep<T>(s: State<T>, step: Step<T>)
    requires LockInv(s) && LogInv(s) && Enabled(s, step)
    ensures LogInv(Do(s, step))
  {
    var pc := s.pcs[step.t];
    match step
    case GiveUp(_) =>
      LogAppend(s, Event(pc.c.id, pc.c.op, F.Refused), s.data);
    case Act(_) =>
      var (data, reply) := Perform(pc.c.op, s.data);
      LogAppend(s, Event(pc.c.id, pc.c.op, reply), data);
    case _ =>
  }

  // ---------------------------------------------------------------- wakeups

  lemma MoveCredits<T>(s: State<T>, t: nat, pc: Pc<T>, side: Side)
    requires t < |s.pcs|
    ensures Credits(Move(s, t, pc), side) + Credit(side, s.pcs[t]) == Credits(s, side) + Credit(side, pc)
  {
    SumUpdate(s.pcs, Weight(side), t, pc);
  }

  lemma WakeStep<T>(s: State<T>, step: Step<T>)
    requires LockInv(s) && LogInv(s) && WakeInv(s) && Enabled(s, step)
    ensures WakeInv(Do(s, step))
  {
    var s' := Do(s, step);
    assert WaitersInv(s');
    forall side, t | 0 <= t < |s'.pcs| && IsSleeper(side, s'.pcs[t])
      ensures Available(s', side) <= Credits(s', side)
    {
      WakeStepSide(s, step, side, t);
    }
  }

  /** One thread moves: fine when nothing is available, or when it makes available no more than
      it adds in credits and does not itself fall asleep. */
  lemma WakeMove<T>(s: State<T>, s': State<T>, t: nat, side: Side, sleeper: nat)
    requires WakeInv(s) && t < |s.pcs| == |s'.pcs| && s'.cap == s.cap && s'.pcs == s.pcs[t := s'.pcs[t]]
    requires sleeper < |s.pcs| && IsSleeper(side, s'.pcs[sleeper])
    requires Available(s', side) <= 0
          || (!IsSleeper(side, s'.pcs[t])
              && Available(s', side) + Credit(side, s.pcs[t]) <= Available(s, side) + Credit(side, s'.pcs[t]))
    ensures Available(s', side) <= Credits(s', side)
  {
    hide Credit;
    MoveCredits(s, t, s'.pcs[t], side);
  }

  lemma WakeStepSide<T>(s: State<T>, step: Step<T>, side: Side, sleeper: nat)
    requires LockInv(s) && LogInv(s) && WaitersInv(s) && WakeInv(s) && Enabled(s, step)
    requires sleeper < |s.pcs| && IsSleeper(side, Do(s, step).pcs[sleeper])
    ensures Available(Do(s, step), side) <= Credits(Do(s, step), side)
  {
    hide WakeInv, LogInv, Credits;
    var s' := Do(s, step);
    match step
    case NotifyOne(t, w) => WakeNotify(s, t, w, side, sleeper);
    case _ => WakeMove(s, s', step.t, side, sleeper);
  }

  /** A notification hands its credit to the thread it wakes. */
  lemma WakeNotify<T>(s: State<T>, t: nat, w: nat, side: Side, sleeper: nat)
    requires LockInv(s) && WakeInv(s) && Enabled(s, NotifyOne(t, w))
    requires sleeper < |s.pcs| && IsSleeper(side, Do(s, NotifyOne(t, w)).pcs[sleeper])
    ensures Available(Do(s, NotifyOne(t, w)), side) <= Credits(Do(s, NotifyOne(t, w)), side)
  {
    var s' := Do(s, NotifyOne(t, w));
    var mid := Move(s, w, Woken(s.pcs[w].c));
    MoveCredits(s, w, Woken(s.pcs[w].c), side);
    MoveCredits(mid, t, s'.pcs[t], side);
  }

  // ---------------------------------------------------------------- calls

  lemma InLogAppend<T>(hist: seq<Event<T>>, e: Event<T>)
    ensures Logged(hist + [e], e)
    ensures forall id :: InLog(hist + [e], id) <==> InLog(hist, id) || id == e.id
    ensures forall f :: Logged(hist, f) ==> Logged(hist + [e], f)
  {
    var hist' := hist + [e];
    assert hist'[|hist|] == e;
    forall id | InLog(hist, id)
      ensures InLog(hist', id)
    {
      var i :| 0 <= i < |hist| && hist[i].id == id;
      assert hist'[i].id == id;
    }
    forall f | Logged(hist, f)
      ensures Logged(hist', f)
    {
      var i :| 0 <= i < |hist| && hist[i] == f;
      assert hist'[i] == f;
    }
  }

  /** A call is not logged before the step that decides it. */
  lemma NotYetLogged<T>(s: State<T>, step: Step<T>)
    requires CallInv(s) && Enabled(s, step) && (step.GiveUp? || step.Act?)
    ensures forall i :: 0 <= i < |s.hist| ==> s.hist[i].id != s.pcs[step.t].c.id
  {
    assert AnswerInv(s, s.pcs[step.t]) && !InLog(s.hist, s.pcs[step.t].c.id);
  }

  lemma IdStep<T>(s: State<T>, step: Step<T>)
    requires CallInv(s) && Enabled(s, step)
    ensures IdInv(Do(s, step))
  {
    hide AnswerInv, Blocked, Perform, WaitKind;
    if step.GiveUp? || step.Act? {
      NotYetLogged(s, step);
    }
  }

  lemma CallStep<T>(s: State<T>, step: Step<T>)
    requires LockInv(s) && CallInv(s) && Enabled(s, step)
    ensures CallInv(Do(s, step))
  {
    hide Perform, Blocked;
    IdStep(s, step);
    if step.GiveUp? || step.Act? {
      CallStepLogged(s, step);
    }
  }

  lemma CallStepLogged<T>(s: State<T>, step: Step<T>)
    requires LockInv(s) && CallInv(s) && Enabled(s, step) && (step.GiveUp? || step.Act?)
    ensures forall t :: 0 <= t < |s.pcs| && !Do(s, step).pcs[t].Idle? ==> AnswerInv(Do(s, step), Do(s, step).pcs[t])
  {
    var s', pc := Do(s, step), s.pcs[step.t];
    var e := s'.hist[|s.hist|];
    assert s'.hist == s.hist + [e];
    InLogAppend(s.hist, e);
    forall t | 0 <= t < |s.pcs| && !s'.pcs[t].Idle?
      ensures AnswerInv(s', s'.pcs[t])
    {
      if t != step.t {
        assert s'.pcs[t] == s.pcs[t] && AnswerInv(s, s.pcs[t]);
        assert s.pcs[t].c.id != e.id;
      }
    }
  }

  // ---------------------------------------------------------------- every run

  lemma InitInv<T>(cap: nat, threads: nat)
    ensures Inv(Init<T>(cap, threads))
  {
  }

  lemma StepInv<T>(s: State<T>, step: Step<T>)
    requires Inv(s) && Enabled(s, step)
    ensures Inv(Do(s, step))
  {
    hide LockInv, LogInv, WakeInv, CallInv, Do, Enabled;
    LockStep(s, step);
    LogStep(s, step);
    WakeStep(s, step);
    CallStep(s, step);
  }

  lemma RunInv<T(!new)>(s: State<T>, steps: seq<Step<T>>)
    requires Inv(s) && Run(s, steps).Reached?
    ensures Inv(Run(s, steps).s)
  {
    hide Inv, Do, Enabled;
    forall x: State<T>, step: Step<T> | Inv(x) && Next(x, step).Reached?
      ensures Inv(Next(x, step).s)
    {
      StepInv(x, step);
    }
    ExecKeeps(s, steps, Next, Inv);
  }

  /** Every state of every run, with any number of threads, has the invariant. */
  lemma Reachable<T(!new)>(cap: nat, threads: nat, steps: seq<Step<T>>)
    requires Run(Init(cap, threads), steps).Reached?
    ensures Inv(Run(Init(cap, threads), steps).s)
  {
    InitInv<T>(cap, threads);
    RunInv(Init(cap, threads), steps);
  }

  // ---------------------------------------------------------------- what it means

  ghost predicate Waiting<T>(s: State<T>, t: nat) {
    t < |s.pcs| && s.pcs[t].Sleeping?
  }

  /** Everyone is outside the queue or asleep in it. */
  ghost predicate Quiescent<T>(s: State<T>) {
    forall t :: 0 <= t < |s.pcs| ==> s.pcs[t].Idle? || s.pcs[t].Sleeping?
  }

  /** No lost wakeup: when nothing moves any more, whoever sleeps has every reason to. */
  lemma NoForgottenSleeper<T>(s: State<T>, t: nat)
    requires Inv(s) && Quiescent(s) && Waiting(s, t)
    ensures Blocked(s.pcs[t].c.op, s.cap, s.data)
  {
    var side := OpSide(s.pcs[t].c.op);
    SumZero(s.pcs, Weight(side));
    assert IsSleeper(side, s.pcs[t]);
    assert Available(s, side) <= Credits(s, side) == 0;
    assert Waited(s.pcs[t]);
  }

  /** FIFO: in every reachable state the items handed out, followed by the items stored, are
      the items taken in, in the order in which the lock was held to push them; the bound holds. */
  lemma FifoConserves<T>(s: State<T>)
    requires Inv(s)
    ensures |s.data| <= s.cap
    ensures F.AcceptedItems(Ops(s.hist), Replies(s.hist)) == F.DeliveredItems(Replies(s.hist)) + s.data
  {
    var empty: seq<T> := [];
    F.RunConserves(F.Fifo(s.cap, empty), Ops(s.hist));
    assert empty + F.AcceptedItems(Ops(s.hist), Replies(s.hist)) == F.AcceptedItems(Ops(s.hist), Replies(s.hist));
  }

  /** Linearization: a call about to return `true` (or a size) has taken effect exactly once, in
      the log, with that answer; one about to return `false` either was refused at a moment when
      its condition failed, or ran out of time and took no effect at all. A call that waits for
      ever never returns `false`. */
  lemma AnswersAreLogged<T>(s: State<T>, t: nat)
    requires Inv(s) && t < |s.pcs| && s.pcs[t].Returning?
    ensures var c, reply := s.pcs[t].c, s.pcs[t].reply;
            && (!reply.Refused? || WaitKind(c.timeout).NoWait? ==> Logged(s.hist, Event(c.id, c.op, reply)))
            && (reply.Refused? && !Logged(s.hist, Event(c.id, c.op, reply)) ==> !InLog(s.hist, c.id))
            && (WaitKind(c.timeout).Forever? ==> !reply.Refused?)
            && (forall i, j :: 0 <= i < j < |s.hist| ==> s.hist[i].id != c.id || s.hist[j].id != c.id)
  {
    assert AnswerInv(s, s.pcs[t]);
  }

  /** Only a successful push or pop changes the stored items, and it is logged in the same step. */
  lemma OnlySuccessChangesData<T>(s: State<T>, step: Step<T>)
    requires Inv(s) && Enabled(s, step)
    ensures Do(s, step).data != s.data ==>
              && step.Act? && |Do(s, step).hist| == |s.hist| + 1
              && !Do(s, step).hist[|s.hist|].reply.Refused?
  {
  }

  lemma LogGrows<T(!new)>(s: State<T>, steps: seq<Step<T>>)
    requires Run(s, steps).Reached?
    ensures s.hist <= Run(s, steps).s.hist && s.nextId <= Run(s, steps).s.nextId
  {
    ExecKeeps(s, steps, Next, (x: State<T>) => s.hist <= x.hist && s.nextId <= x.nextId);
  }

  /** Real-time order: a call that had its effect before another was even made comes first in
      the log for ever after. */
  lemma RealTimeOrder<T(!new)>(s: State<T>, steps: seq<Step<T>>, i: nat, j: nat)
    requires Inv(s) && Run(s, steps).Reached?
    requires i < |s.hist| && j < |Run(s, steps).s.hist|
    requires Run(s, steps).s.hist[j].id >= s.nextId
    ensures i < j && Run(s, steps).s.hist[i] == s.hist[i]
  {
    LogGrows(s, steps);
    var hist' := Run(s, steps).s.hist;
    assert forall k :: 0 <= k < |s.hist| ==> s.hist[k] == hist'[k];
  }

  // ---------------------------------------------------------------- timeouts, in numbers

  /** A call with the timeout 0xFFFFFFFF never answers `false`. */
  lemma InfiniteWaitIsNeverRefused<T(!new)>(cap: nat, threads: nat, steps: seq<Step<T>>, t: nat)
    requires Run(Init(cap, threads), steps).Reached?
    ensures var s := Run(Init(cap, threads), steps).s;
            t < |s.pcs| && s.pcs[t].Returning? && s.pcs[t].c.timeout == 0xFFFF_FFFF ==> !s.pcs[t].reply.Refused?
  {
    Reachable(cap, threads, steps);
    hide Run, Inv;
    var s := Run(Init(cap, threads), steps).s;
    assert CallInv(s) by { InvHasCalls(s); }
    if t < |s.pcs| && s.pcs[t].Returning? {
      assert AnswerInv(s, s.pcs[t]);
    }
  }

  lemma InvHasCalls<T>(s: State<T>)
    requires Inv(s)
    ensures CallInv(s)
  {
  }

  /** What a call can do at the loop test: go on if it need not wait; otherwise give up at once with
      timeout 0, sleep with timeout 0xFFFFFFFF, and sleep or, at the deadline, give up with any
      other. */
  lemma AtTheTest<T>(s: State<T>, step: Step<T>)
    requires step.t < |s.pcs| && s.pcs[step.t].Testing?
    ensures var c, t := s.pcs[step.t].c, step.t;
            Enabled(s, step) <==>
              if (c.op.Enqueue? && |s.data| >= s.cap) || (c.op.Dequeue? && s.data == []) then
                (step == Park(t) && c.timeout > 0) || (step == GiveUp(t) && c.timeout < 0xFFFF_FFFF)
              else step == Pass(t)
  {
  }

  /** A sleeper can time out exactly if its timeout is neither 0 nor 0xFFFFFFFF; one whose wait
      timed out has only to take the lock to answer `false`. */
  lemma OnlyTimedWaitsExpire<T>(s: State<T>, t: nat)
    requires t < |s.pcs|
    ensures Enabled(s, Expire(t)) <==> s.pcs[t].Sleeping? && 0 < s.pcs[t].c.timeout < 0xFFFF_FFFF
    ensures Enabled(s, Expire(t)) ==> Do(s, Expire(t)).pcs[t] == TimedOut(s.pcs[t].c)
    ensures s.pcs[t].TimedOut? && s.lock.Free? ==>
              Enabled(s, Acquire(t)) && Do(s, Acquire(t)).pcs[t] == Unlocking(s.pcs[t].c, F.Refused)
  {
  }

  /** A call just made carries its operation and timeout; a woken one goes back to the test. */
  lemma IntoTheTest<T>(s: State<T>, t: nat, op: F.Op<T>, timeout: Millis)
    requires t < |s.pcs|
    ensures s.pcs[t].Idle? ==>
              Enabled(s, Invoke(t, op, timeout)) &&
              Do(s, Invoke(t, op, timeout)).pcs[t] == Entering(Call(s.nextId, op, timeout))
    ensures (s.pcs[t].Entering? || s.pcs[t].Woken?) && s.lock.Free? ==>
              Enabled(s, Acquire(t)) && Do(s, Acquire(t)).pcs[t] == Testing(s.pcs[t].c, s.pcs[t].Woken?)
  {
  }
}
