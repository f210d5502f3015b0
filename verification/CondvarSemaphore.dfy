/** The macOS semaphore of the host back-end: a value under a mutex, and a condition variable. */
module CondvarSemaphore {
  import opened Runs
  import opened Semaphore

  datatype Pc =
    | Idle
    | Locking(timeout: Millis)                    // wait: about to lock
    | Testing(timeout: Millis, again: bool)       // wait: holds the lock, at the loop test
    | Sleeping(timeout: Millis)                   // wait: parked
    | Woken(timeout: Millis)                      // wait: must relock, will test again
    | TimedOut(timeout: Millis)                   // wait: must relock, will give up
    | Taking(timeout: Millis, again: bool)        // wait: holds the lock, about to write 0
    | PostLocking                              // post: about to lock
    | PostTesting                              // post: holds the lock, about to read the value
    | Writing                                  // post: holds the lock, about to write 1
    | Signalling                               // post: holds the lock, about to signal
    | Unlocking(ok: bool, waited: bool)        // holds the lock, about to unlock
    | Returning(ok: bool, waited: bool)

  datatype State = State(value: nat, lock: Lock, pcs: seq<Pc>, log: seq<Event>)

  datatype Step =
    | CallWait(t: nat, timeout: Millis)
    | CallPost(t: nat)
    | Acquire(t: nat)
    | Test(t: nat)                 // the loop test of wait, or the test of post
    | Take(t: nat)
    | Write(t: nat)
    | SignalOne(t: nat, w: nat)    // wakes `w`
    | SignalNone(t: nat)           // nobody waits
    | Unlock(t: nat)
    | Spurious(t: nat)
    | Expire(t: nat)
    | Return(t: nat)

  /** After `csp_bin_sem_init`. */
  function Init(threads: nat): State {
    State(Initialised(MacOs), Free, seq(threads, i => Idle), [])
  }

  predicate HoldsLock(pc: Pc) {
    pc.Testing? || pc.Taking? || pc.PostTesting? || pc.Writing? || pc.Signalling? || pc.Unlocking?
  }

  predicate Enabled(s: State, step: Step) {
    step.t < |s.pcs| &&
    var pc := s.pcs[step.t];
    match step
    case CallWait(_, _) => pc.Idle?
    case CallPost(_) => pc.Idle?
    case Acquire(_) => (pc.Locking? || pc.Woken? || pc.TimedOut? || pc.PostLocking?) && s.lock.Free?
    case Test(_) => pc.Testing? || pc.PostTesting?
    case Take(_) => pc.Taking?
    case Write(_) => pc.Writing?
    case SignalOne(_, w) => pc.Signalling? && w < |s.pcs| && s.pcs[w].Sleeping?
    case SignalNone(_) => pc.Signalling? && forall w :: 0 <= w < |s.pcs| ==> !s.pcs[w].Sleeping?
    case Unlock(_) => pc.Unlocking?
    case Spurious(_) => pc.Sleeping?
    case Expire(_) => pc.Sleeping? && pc.timeout != WAIT_FOREVER
    case Return(_) => pc.Returning?
  }

  function Move(s: State, t: nat, pc: Pc): State
    requires t < |s.pcs|
  {
    s.(pcs := s.pcs[t := pc])
  }

  function Do(s: State, step: Step): State
    requires Enabled(s, step)
  {
    var t := step.t;
    var pc := s.pcs[t];
    match step
    case CallWait(_, timeout) => Move(s, t, Locking(timeout))
    case CallPost(_) => Move(s, t, PostLocking)
    case Acquire(_) =>
      var next := match pc
        case TimedOut(_) => Unlocking(false, true)
        case PostLocking => PostTesting
        case _ => Testing(pc.timeout, pc.Woken?);
      Move(s, t, next).(lock := HeldBy(t))
    case Test(_) =>
      if pc.Testing? then
        if s.value == 0 then Move(s, t, Sleeping(pc.timeout)).(lock := Free)
        else Move(s, t, Taking(pc.timeout, pc.again))
      else
        if s.value == 0 then Move(s, t, Writing)
        else Move(s, t, Unlocking(true, false)).(log := s.log + [Posted(t)])
    case Take(_) => Move(s, t, Unlocking(true, true)).(value := 0, log := s.log + [Took(t)])
    case Write(_) => Move(s, t, Signalling).(value := 1, log := s.log + [Posted(t)])
    case SignalOne(_, w) => Move(Move(s, w, Woken(s.pcs[w].timeout)), t, Unlocking(true, false))
    case SignalNone(_) => Move(s, t, Unlocking(true, false))
    case Unlock(_) => Move(s, t, Returning(pc.ok, pc.waited)).(lock := Free)
    case Spurious(_) => Move(s, t, Woken(pc.timeout))
    case Expire(_) => Move(s, t, TimedOut(pc.timeout))
    case Return(_) => Move(s, t, Idle)
  }

  // ---------------------------------------------------------------- the invariant

  ghost predicate LockInv(s: State) {
    && (s.lock.HeldBy? ==> s.lock.t < |s.pcs|)
    && (forall t :: 0 <= t < |s.pcs| ==> (HoldsLock(s.pcs[t]) <==> s.lock == HeldBy(t)))
    && (forall t :: 0 <= t < |s.pcs| && s.pcs[t].Taking? ==> s.value == 1)
    && (forall t :: 0 <= t < |s.pcs| && s.pcs[t].Writing? ==> s.value == 0)
    && s.value <= 1
  }

  /** The stored value is that of the abstract semaphore after the logged operations. */
  ghost predicate Refines(s: State) {
    Replay(1, s.log) == Value(s.value)
  }

  /** One for each woken waiter that has not yet taken or gone back to sleep, and one for each
      signal still to be sent. */
  function Credit(pc: Pc): nat {
    if pc.Woken? || (pc.Testing? && pc.again) || (pc.Taking? && pc.again) || pc.Signalling? then 1 else 0
  }

  function Credits(s: State): nat {
    Sum(s.pcs, Credit)
  }

  /** No wakeup is lost: a posted semaphore with a sleeper has a waiter or a signal on its way. */
  ghost predicate WakeInv(s: State) {
    forall t :: 0 <= t < |s.pcs| && s.pcs[t].Sleeping? ==> s.value <= Credits(s)
  }

  ghost predicate Inv(s: State) {
    LockInv(s) && Refines(s) && WakeInv(s)
  }

  lemma LockStep(s: State, step: Step)
    requires LockInv(s) && Enabled(s, step)
    ensures LockInv(Do(s, step))
  {
  }

  lemma StepRefines(s: State, step: Step)
    requires LockInv(s) && Refines(s) && Enabled(s, step)
    ensures Refines(Do(s, step))
  {
    ReplaySnoc(1, s.log, Took(step.t));
    ReplaySnoc(1, s.log, Posted(step.t));
  }

  lemma MoveCredits(s: State, t: nat, pc: Pc)
    requires t < |s.pcs|
    ensures Credits(Move(s, t, pc)) + Credit(s.pcs[t]) == Credits(s) + Credit(pc)
  {
    SumUpdate(s.pcs, Credit, t, pc);
  }

  lemma WakeStep(s: State, step: Step)
    requires LockInv(s) && WakeInv(s) && Enabled(s, step)
    ensures WakeInv(Do(s, step))
  {
    var s' := Do(s, step);
    match step
    case SignalOne(t, w) =>
      MoveCredits(s, w, Woken(s.pcs[w].timeout));
      MoveCredits(Move(s, w, Woken(s.pcs[w].timeout)), t, s'.pcs[t]);
    case _ =>
      MoveCredits(s, step.t, s'.pcs[step.t]);
      assert s'.pcs == Move(s, step.t, s'.pcs[step.t]).pcs;
  }

  // ---------------------------------------------------------------- every run

  function Next(s: State, step: Step): Outcome<State> {
    if Enabled(s, step) then Reached(Do(s, step)) else Stuck
  }

  /** A run from `csp_bin_sem_init` on. */
  ghost function Run(threads: nat, steps: seq<Step>): Outcome<State> {
    Exec(Init(threads), steps, Next)
  }

  lemma StepInv(s: State, step: Step)
    requires Inv(s) && Enabled(s, step)
    ensures Inv(Do(s, step))
  {
    hide WakeInv, LockInv, Refines, Do, Enabled;
    LockStep(s, step);
    StepRefines(s, step);
    WakeStep(s, step);
  }

  lemma Reachable(threads: nat, steps: seq<Step>)
    requires Run(threads, steps).Reached?
    ensures Inv(Run(threads, steps).s)
  {
    assert Inv(Init(threads));
    hide Inv, Do, Enabled;
    forall s, step | Inv(s) && Next(s, step).Reached?
      ensures Inv(Next(s, step).s)
    {
      StepInv(s, step);
    }
    ExecKeeps(Init(threads), steps, Next, Inv);
  }

  /** In every interleaving the log is one of the abstract binary semaphore, so two takes have
      a post between them, and used as a lock it never has two holders. */
  lemma Safe(threads: nat, steps: seq<Step>, i: nat, j: nat)
    requires Run(threads, steps).Reached?
    ensures var log := Run(threads, steps).s.log;
            && Inv(Run(threads, steps).s)
            && (i < j < |log| && log[i].Took? && log[j].Took? ==> exists k :: i < k < j && log[k].Posted?)
            && (Disciplined(log) ==> |Holders(log)| <= 1)
  {
    Reachable(threads, steps);
    var log := Run(threads, steps).s.log;
    if i < j < |log| && log[i].Took? && log[j].Took? {
      PostBetweenTakes(1, log, i, j);
    }
    if Disciplined(log) {
      AtMostOneHolder(log);
    }
  }

  ghost predicate Quiescent(s: State) {
    forall t :: 0 <= t < |s.pcs| ==> s.pcs[t].Idle? || s.pcs[t].Sleeping?
  }

  /** No lost wakeup: when nothing moves any more, a waiter sleeps only while the value is 0. */
  lemma NoForgottenWaiter(s: State, t: nat)
    requires Inv(s) && Quiescent(s) && t < |s.pcs| && s.pcs[t].Sleeping?
    ensures s.value == 0
  {
    SumZero(s.pcs, Credit);
  }

  predicate Internal(step: Step) {
    !step.CallWait? && !step.CallPost? && !step.Spurious? && !step.Expire?
  }

  /** The lock holder can always move. */
  lemma HolderMoves(s: State, t: nat) returns (step: Step)
    requires t < |s.pcs| && HoldsLock(s.pcs[t])
    ensures Internal(step) && Enabled(s, step)
  {
    var pc := s.pcs[t];
    if pc.Signalling? {
      if w :| 0 <= w < |s.pcs| && s.pcs[w].Sleeping? {
        step := SignalOne(t, w);
      } else {
        step := SignalNone(t);
      }
    } else {
      step := if pc.Testing? || pc.PostTesting? then Test(t)
              else if pc.Taking? then Take(t)
              else if pc.Writing? then Write(t)
              else Unlock(t);
    }
  }

  /** No deadlock: if some thread is awake inside the semaphore, an internal step is enabled. */
  lemma Progress(s: State) returns (step: Step)
    requires LockInv(s) && !Quiescent(s)
    ensures Internal(step) && Enabled(s, step)
  {
    var u :| 0 <= u < |s.pcs| && !s.pcs[u].Idle? && !s.pcs[u].Sleeping?;
    if s.lock.HeldBy? {
      step := HolderMoves(s, s.lock.t);
    } else {
      step := if s.pcs[u].Returning? then Return(u) else Acquire(u);
    }
  }

  function NextInternal(s: State, step: Step): Outcome<State> {
    if Internal(step) then Next(s, step) else Stuck
  }

  /** Steps a thread may still take by itself, and those a signal of its may cause. */
  function Ahead(pc: Pc): nat {
    match pc
    case Idle => 0
    case Returning(_, _) => 1
    case Unlocking(_, _) => 2
    case Taking(_, _) | Sleeping(_) | TimedOut(_) => 3
    case Testing(_, _) => 4
    case Locking(_) | Woken(_) | Signalling => 5
    case Writing => 6
    case PostTesting => 7
    case PostLocking => 8
  }

  function Rank(s: State): nat {
    Sum(s.pcs, Ahead)
  }

  lemma StepDescends(s: State, step: Step) returns (pc: Pc)
    requires NextInternal(s, step).Reached? && !step.SignalOne?
    ensures step.t < |s.pcs| && Do(s, step).pcs == s.pcs[step.t := pc] && Ahead(pc) < Ahead(s.pcs[step.t])
  {
    pc := Do(s, step).pcs[step.t];
  }

  lemma SignalDescends(pcs: seq<Pc>, t: nat, w: nat)
    requires t < |pcs| && w < |pcs| && pcs[t].Signalling? && pcs[w].Sleeping?
    ensures Sum(pcs[w := Woken(pcs[w].timeout)][t := Unlocking(true, false)], Ahead) < Sum(pcs, Ahead)
  {
    hide Sum;
    var mid := pcs[w := Woken(pcs[w].timeout)];
    SumUpdate(pcs, Ahead, w, mid[w]);
    SumUpdate(mid, Ahead, t, Unlocking(true, false));
  }

  lemma InternalStepsDescend(s: State, step: Step)
    requires NextInternal(s, step).Reached?
    ensures Rank(NextInternal(s, step).s) < Rank(s)
  {
    match step
    case SignalOne(t, w) =>
      SignalDescends(s.pcs, t, w);
      hide Sum, Ahead;
    case _ =>
      var pc := StepDescends(s, step);
      hide Do, Enabled, Ahead;
      SumUpdate(s.pcs, Ahead, step.t, pc);
  }

  /** Left to itself the semaphore comes to rest: no internal run has more than eight steps for
      each thread, and one that cannot go on has everyone outside or asleep. */
  lemma InternalRunsEnd(s: State, steps: seq<Step>)
    requires Inv(s) && Exec(s, steps, NextInternal).Reached?
    ensures var s' := Exec(s, steps, NextInternal).s;
            && |steps| <= 8 * |s.pcs|
            && Inv(s')
            && (AtRest(s', NextInternal) <==> Quiescent(s'))
  {
    hide Inv, Do, Enabled, Rank;
    forall x, step | NextInternal(x, step).Reached?
      ensures Rank(NextInternal(x, step).s) < Rank(x)
      ensures Inv(x) ==> Inv(NextInternal(x, step).s)
    {
      InternalStepsDescend(x, step);
      if Inv(x) { StepInv(x, step); }
    }
    ExecRank(s, steps, NextInternal, Rank);
    ExecKeeps(s, steps, NextInternal, Inv);
    RankBound(s);
    RestIsQuiescent(Exec(s, steps, NextInternal).s);
  }

  lemma RankBound(s: State)
    ensures Rank(s) <= 8 * |s.pcs|
  {
    SumAtMost(s.pcs, Ahead, 8);
  }

  lemma RestIsQuiescent(s: State)
    requires Inv(s)
    ensures AtRest(s, NextInternal) <==> Quiescent(s)
  {
    if !Quiescent(s) {
      var step := Progress(s);
      assert NextInternal(s, step).Reached?;
    }
  }

  /** A take since the log was `log`. */
  ghost predicate TakenSince(log: seq<Event>, s: State) {
    exists k :: |log| <= k < |s.log| && s.log[k].Took?
  }

  ghost predicate PostedOrTaken(log: seq<Event>, s: State) {
    |log| <= |s.log| && (s.value == 0 ==> TakenSince(log, s))
  }

  lemma PostedOrTakenStep(log: seq<Event>, s: State, step: Step)
    requires PostedOrTaken(log, s) && Enabled(s, step)
    ensures PostedOrTaken(log, Do(s, step))
  {
    var s' := Do(s, step);
    if TakenSince(log, s) {
      var k :| |log| <= k < |s.log| && s.log[k].Took?;
      assert s'.log[k].Took?;
    } else if step.Take? {
      assert s'.log[|s.log|].Took?;
    }
  }

  /** A waiter asleep on a posted semaphore is served: once the threads inside have run as far
      as they can by themselves, it has left, or the value went to another wait in between. */
  lemma WaiterIsServed(s: State, steps: seq<Step>, t: nat)
    requires Inv(s) && s.value == 1 && t < |s.pcs|
    requires Exec(s, steps, NextInternal).Reached? && AtRest(Exec(s, steps, NextInternal).s, NextInternal)
    ensures var s' := Exec(s, steps, NextInternal).s;
            t < |s'.pcs| && (s'.pcs[t].Idle? || (s'.pcs[t].Sleeping? && s'.value == 0 && TakenSince(s.log, s')))
  {
    InternalRunsEnd(s, steps);
    var s' := Exec(s, steps, NextInternal).s;
    ghost var inv := (x: State) => PostedOrTaken(s.log, x) && |x.pcs| == |s.pcs|;
    forall x, step | inv(x) && NextInternal(x, step).Reached?
      ensures inv(NextInternal(x, step).s)
    {
      PostedOrTakenStep(s.log, x, step);
    }
    ExecKeeps(s, steps, NextInternal, inv);
    if s'.pcs[t].Sleeping? {
      NoForgottenWaiter(s', t);
    }
  }

  /** What a wait does at the loop test and asleep: it takes a posted semaphore, sleeps on any
      other whatever its timeout, and its sleep can expire exactly if that is below 0xFFFFFFFF. */
  lemma InTheLoop(s: State, t: nat)
    requires t < |s.pcs|
    ensures s.pcs[t].Testing? ==> Enabled(s, Test(t))
    ensures s.pcs[t].Testing? && s.value == 0 ==> Do(s, Test(t)).pcs[t] == Sleeping(s.pcs[t].timeout)
    ensures s.pcs[t].Testing? && s.value > 0 ==> Do(s, Test(t)).pcs[t] == Taking(s.pcs[t].timeout, s.pcs[t].again)
    ensures Enabled(s, Expire(t)) <==> s.pcs[t].Sleeping? && s.pcs[t].timeout < 0xFFFF_FFFF
    ensures Enabled(s, Expire(t)) ==> Do(s, Expire(t)).pcs[t] == TimedOut(s.pcs[t].timeout)
    ensures s.pcs[t].TimedOut? && s.lock.Free? ==>
              Enabled(s, Acquire(t)) && Do(s, Acquire(t)).pcs[t] == Unlocking(false, true)
    ensures (s.pcs[t].Locking? || s.pcs[t].Woken?) && s.lock.Free? ==>
              Enabled(s, Acquire(t)) && Do(s, Acquire(t)).pcs[t] == Testing(s.pcs[t].timeout, s.pcs[t].Woken?)
    ensures s.pcs[t].Taking? ==>
              Enabled(s, Take(t)) && Do(s, Take(t)).value == 0 && Do(s, Take(t)).pcs[t] == Unlocking(true, true)
  {
  }

  /** What a post does: with the lock, it finds the value zero, makes it one and then signals, or
      finds it one and leaves it; either way it has posted by the time it unlocks. */
  lemma PostTurns(s: State, t: nat)
    requires t < |s.pcs|
    ensures s.pcs[t].Idle? ==> Enabled(s, CallPost(t)) && Do(s, CallPost(t)).pcs[t] == PostLocking
    ensures s.pcs[t].PostLocking? && s.lock.Free? ==>
              Enabled(s, Acquire(t)) && Do(s, Acquire(t)).pcs[t] == PostTesting
    ensures s.pcs[t].PostTesting? && s.value == 0 ==> Enabled(s, Test(t)) && Do(s, Test(t)).pcs[t] == Writing
    ensures s.pcs[t].PostTesting? && s.value > 0 ==>
              && Enabled(s, Test(t)) && Do(s, Test(t)).pcs[t] == Unlocking(true, false)
              && Do(s, Test(t)).value == s.value && Do(s, Test(t)).log == s.log + [Posted(t)]
    ensures s.pcs[t].Writing? ==>
              && Enabled(s, Write(t)) && Do(s, Write(t)).pcs[t] == Signalling
              && Do(s, Write(t)).value == 1 && Do(s, Write(t)).log == s.log + [Posted(t)]
    ensures s.pcs[t].Idle? ==> forall timeout ::
              Enabled(s, CallWait(t, timeout)) && Do(s, CallWait(t, timeout)).pcs[t] == Locking(timeout)
  {
  }

  /** The timeout of the last wait thread `t` called. */
  function LastTimeout(steps: seq<Step>, t: nat): Millis {
    if steps == [] then 0
    else
      var step := steps[|steps| - 1];
      if step.CallWait? && step.t == t then step.timeout else LastTimeout(steps[..|steps| - 1], t)
  }

  predicate InWait(pc: Pc) {
    pc.Locking? || pc.Testing? || pc.Sleeping? || pc.Woken? || pc.TimedOut? || pc.Taking?
  }

  predicate GivingUp(pc: Pc) {
    pc.TimedOut? || pc == Unlocking(false, true) || pc == Returning(false, true)
  }

  /** A wait carries the timeout it was called with, and gives up only if that is finite. */
  ghost predicate Carries(s: State, t: nat, timeout: Millis) {
    && t < |s.pcs|
    && (InWait(s.pcs[t]) ==> s.pcs[t].timeout == timeout)
    && (GivingUp(s.pcs[t]) ==> timeout < 0xFFFF_FFFF)
  }

  lemma CarriesStep(s: State, step: Step, t: nat, timeout: Millis)
    requires Carries(s, t, timeout) && Enabled(s, step)
    ensures Carries(Do(s, step), t, if step.CallWait? && step.t == t then step.timeout else timeout)
  {
  }

  /** In every run a wait that is about to answer false, or has, was called with a timeout below
      0xFFFFFFFF. */
  lemma {:induction false} InfiniteWaitNeverFails(threads: nat, steps: seq<Step>, t: nat)
    requires Run(threads, steps).Reached? && t < threads
    ensures Carries(Run(threads, steps).s, t, LastTimeout(steps, t))
    ensures GivingUp(Run(threads, steps).s.pcs[t]) ==> LastTimeout(steps, t) < 0xFFFF_FFFF
  {
    if steps != [] {
      var n := |steps| - 1;
      InfiniteWaitNeverFails(threads, steps[..n], t);
      CarriesStep(Run(threads, steps[..n]).s, steps[n], t, LastTimeout(steps[..n], t));
      hide Do, Enabled;
    }
  }

  /** A wait is about to answer true exactly from the step that takes the semaphore, and a wait
      without a deadline never gives up. */
  lemma WaitAnswers(s: State, step: Step)
    requires Enabled(s, step) && !s.pcs[step.t].Unlocking?
    ensures Do(s, step).pcs[step.t] == Unlocking(true, true) <==>
              step.Take? && Do(s, step).log == s.log + [Took(step.t)]
    ensures Do(s, step).pcs[step.t].TimedOut? ==> s.pcs[step.t].timeout < 0xFFFF_FFFF
    ensures Do(s, step).pcs[step.t] == Unlocking(false, true) ==> s.pcs[step.t].TimedOut?
  {
    assert s.log != s.log + [Took(step.t)];
  }
}
