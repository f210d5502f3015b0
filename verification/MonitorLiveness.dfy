/** The host queue left to itself: no deadlock, internal runs end, and a sleeper whose condition
    holds is served. */
module MonitorLiveness {
  import opened Runs
  import opened Monitor
  import opened MonitorSafety
  import F = Fifo

  /** A step the program takes by itself: no new call, no spurious wakeup, no clock. */
  predicate Internal<T>(step: Step<T>) {
    !step.Invoke? && !step.Spurious? && !step.Expire?
  }

  /** The lock holder can always move. */
  lemma HolderMoves<T>(s: State<T>, t: nat) returns (step: Step<T>)
    requires t < |s.pcs| && HoldsLock(s.pcs[t])
    ensures Internal(step) && Enabled(s, step)
  {
    match s.pcs[t]
    case Testing(c, _) =>
      step := if !Blocked(c.op, s.cap, s.data) then Pass(t)
              else if WaitKind(c.timeout).NoWait? then GiveUp(t) else Park(t);
    case Acting(_, _) => step := Act(t);
    case Unlocking(_, _) => step := Unlock(t);
  }

  /** No deadlock: if some thread is awake inside the queue, then it, or the lock holder it is
      waiting for, can take an internal step. */
  lemma Progress<T>(s: State<T>, t: nat) returns (step: Step<T>)
    requires LockInv(s) && t < |s.pcs| && !s.pcs[t].Idle? && !s.pcs[t].Sleeping?
    ensures Internal(step) && Enabled(s, step)
  {
    var pc := s.pcs[t];
    if HoldsLock(pc) {
      step := HolderMoves(s, t);
    } else if pc.Returning? {
      step := Return(t);
    } else if pc.Notifying? {
      if w :| 0 <= w < |s.pcs| && SleepsFor(s.pcs[w], pc.reply) {
        step := NotifyOne(t, w);
      } else {
        step := NotifyNone(t);
      }
    } else if s.lock.Free? {
      step := Acquire(t);
    } else {
      step := HolderMoves(s, s.lock.t);
    }
  }

  function NextInternal<T>(s: State<T>, step: Step<T>): Outcome<State<T>> {
    if Internal(step) then Next(s, step) else Stuck
  }

  // ---------------------------------------------------------------- internal runs end

  /** Steps a thread may still take by itself, and those a notification of its may cause. */
  function Ahead<T>(pc: Pc<T>): nat {
    match pc
    case Idle => 0
    case Returning(_, _) => 1
    case Notifying(_, _) | Sleeping(_) => 8
    case Unlocking(_, _) => 9
    case Acting(_, _) => 10
    case Testing(_, _) => 11
    case Entering(_) | Woken(_) | TimedOut(_) => 12
  }

  function Rank<T>(s: State<T>): nat {
    Sum(s.pcs, Ahead)
  }

  lemma RankBound<T>(s: State<T>)
    ensures Rank(s) <= 12 * |s.pcs|
  {
    SumAtMost(s.pcs, Ahead, 12);
  }

  lemma StepDescends<T>(s: State<T>, step: Step<T>) returns (pc: Pc<T>)
    requires NextInternal(s, step).Reached? && !step.NotifyOne?
    ensures step.t < |s.pcs| && Do(s, step).pcs == s.pcs[step.t := pc] && Ahead(pc) < Ahead(s.pcs[step.t])
  {
    pc := Do(s, step).pcs[step.t];
  }

  lemma NotifyDescends<T>(pcs: seq<Pc<T>>, t: nat, w: nat)
    requires t < |pcs| && w < |pcs| && pcs[t].Notifying? && pcs[w].Sleeping?
    ensures Sum(pcs[w := Woken(pcs[w].c)][t := Returning(pcs[t].c, pcs[t].reply)], Ahead) < Sum(pcs, Ahead)
  {
    hide Sum;
    var mid := pcs[w := Woken(pcs[w].c)];
    SumUpdate(pcs, Ahead, w, mid[w]);
    SumUpdate(mid, Ahead, t, Returning(pcs[t].c, pcs[t].reply));
  }

  lemma InternalStepsDescend<T>(s: State<T>, step: Step<T>)
    requires NextInternal(s, step).Reached?
    ensures Rank(NextInternal(s, step).s) < Rank(s)
  {
    match step
    case NotifyOne(t, w) =>
      NotifyDescends(s.pcs, t, w);
      hide Sum, Ahead;
    case _ =>
      var pc := StepDescends(s, step);
      hide Do, Enabled, Ahead;
      SumUpdate(s.pcs, Ahead, step.t, pc);
  }

  lemma RestIsQuiescent<T(!new)>(s: State<T>)
    requires Inv(s)
    ensures AtRest(s, NextInternal) <==> Quiescent(s)
  {
    if !Quiescent(s) {
      var t :| 0 <= t < |s.pcs| && !s.pcs[t].Idle? && !s.pcs[t].Sleeping?;
      var step := Progress(s, t);
      assert NextInternal(s, step).Reached?;
    }
  }

  /** Left to itself the queue comes to rest: no internal run has more than twelve steps for each
      thread, and one that cannot go on has everyone outside or asleep. */
  lemma InternalRunsEnd<T(!new)>(s: State<T>, steps: seq<Step<T>>)
    requires Inv(s) && Exec(s, steps, NextInternal).Reached?
    ensures var s' := Exec(s, steps, NextInternal).s;
            && |steps| <= 12 * |s.pcs|
            && Inv(s')
            && (AtRest(s', NextInternal) <==> Quiescent(s'))
  {
    hide Inv, Do, Enabled, Rank;
    forall x: State<T>, step: Step<T> | NextInternal(x, step).Reached?
      ensures Rank(NextInternal(x, step).s) < Rank(x)
      ensures Inv(x) ==> Inv(NextInternal(x, step).s)
    {
      InternalStepsDescend(x, step);
      if Inv(x) { StepInv(x, step); }
    }
    ExecRank(s, steps, NextInternal, Rank);
    ExecKeeps(s, steps, NextInternal, Inv);
    RankBound(s);
    RestIsQuiescent(Exec(s, steps, NextInternal).s);
  }

  // ---------------------------------------------------------------- sleepers are served

  /** A success of the same kind as `op`. */
  predicate Succeeds<T>(op: F.Op<T>, e: Event<T>) {
    (op.Enqueue? && e.op.Enqueue? && e.reply.Accepted?) || (op.Dequeue? && e.op.Dequeue? && e.reply.Delivered?)
  }

  /** Since the log was `hist` some call got what `op` waits for. */
  ghost predicate ServedSince<T>(op: F.Op<T>, hist: seq<Event<T>>, s: State<T>) {
    exists k :: |hist| <= k < |s.hist| && Succeeds(op, s.hist[k])
  }

  ghost predicate FreeOrServed<T>(op: F.Op<T>, hist: seq<Event<T>>, s: State<T>) {
    |hist| <= |s.hist| && (Blocked(op, s.cap, s.data) ==> ServedSince(op, hist, s))
  }

  lemma FreeOrServedStep<T>(op: F.Op<T>, hist: seq<Event<T>>, s: State<T>, step: Step<T>)
    requires FreeOrServed(op, hist, s) && Enabled(s, step)
    ensures FreeOrServed(op, hist, Do(s, step))
  {
    var s' := Do(s, step);
    if ServedSince(op, hist, s) {
      var k :| |hist| <= k < |s.hist| && Succeeds(op, s.hist[k]);
      assert s'.hist[k] == s.hist[k];
    } else if step.Act? && Blocked(op, s'.cap, s'.data) {
      assert Succeeds(op, s'.hist[|s.hist|]);
    }
  }

  /** Thread `t` is still in the call it is in in `s`, or has left. */
  ghost predicate SameCall<T>(s: State<T>, t: nat, x: State<T>)
    requires t < |s.pcs| && !s.pcs[t].Idle?
  {
    |x.pcs| == |s.pcs| && (x.pcs[t].Idle? || x.pcs[t].c == s.pcs[t].c)
  }

  /** A sleeper whose condition holds is served: once the threads inside have run as far as they
      can by themselves it has left the queue, or another call succeeded in between and its
      condition has gone again. */
  lemma SleeperIsServed<T(!new)>(s: State<T>, steps: seq<Step<T>>, t: nat)
    requires Inv(s) && Waiting(s, t) && !Blocked(s.pcs[t].c.op, s.cap, s.data)
    requires Exec(s, steps, NextInternal).Reached? && AtRest(Exec(s, steps, NextInternal).s, NextInternal)
    ensures var op, s' := s.pcs[t].c.op, Exec(s, steps, NextInternal).s;
            && t < |s'.pcs|
            && (s'.pcs[t].Idle?
                || (s'.pcs[t] == s.pcs[t] && Blocked(op, s'.cap, s'.data) && ServedSince(op, s.hist, s')))
  {
    var op := s.pcs[t].c.op;
    InternalRunsEnd(s, steps);
    var s' := Exec(s, steps, NextInternal).s;
    ghost var inv := (x: State<T>) => FreeOrServed(op, s.hist, x) && SameCall(s, t, x);
    hide Inv;
    forall x, step | inv(x) && NextInternal(x, step).Reached?
      ensures inv(NextInternal(x, step).s)
    {
      FreeOrServedStep(op, s.hist, x, step);
      hide FreeOrServed;
    }
    ExecKeeps(s, steps, NextInternal, inv);
    if s'.pcs[t].Sleeping? {
      NoForgottenSleeper(s', t);
    }
  }
}
