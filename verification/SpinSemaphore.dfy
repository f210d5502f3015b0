/** The embassy back-end's semaphore: an atomic flag that waiters swap to false in a loop. */
module SpinSemaphore {
  import opened Runs
  import opened Semaphore

  datatype Pc =
    | Idle
    | Swapping(timeout: Millis)     // about to swap the flag
    | Checking(timeout: Millis)     // the swap found false; about to look at the clock
    | Storing                    // about to store true
    | Returning(ok: bool, waited: bool)

  datatype State = State(flag: bool, pcs: seq<Pc>, log: seq<Event>)

  datatype Step =
    | CallWait(t: nat, timeout: Millis)
    | CallPost(t: nat)
    | Swap(t: nat)
    | Check(t: nat, expired: bool)
    | Store(t: nat)
    | Return(t: nat)

  /** After `csp_bin_sem_init`. */
  function Init(threads: nat): State {
    State(Initialised(Embassy) == 1, seq(threads, i => Idle), [])
  }

  predicate Enabled(s: State, step: Step) {
    step.t < |s.pcs| &&
    var pc := s.pcs[step.t];
    match step
    case CallWait(_, _) => pc.Idle?
    case CallPost(_) => pc.Idle?
    case Swap(_) => pc.Swapping?
    case Check(_, expired) => pc.Checking? && (pc.timeout == 0 ==> expired)    // no time passes in no time
    case Store(_) => pc.Storing?
    case Return(_) => pc.Returning?
  }

  function Move(s: State, t: nat, pc: Pc): State
    requires t < |s.pcs|
  {
    s.(pcs := s.pcs[t := pc])
  }

  function Do(s: State, step: Step): State
    requires Enabled(s, step)
  {
    var t := step.t;
    match step
    case CallWait(_, timeout) => Move(s, t, Swapping(timeout))
    case CallPost(_) => Move(s, t, Storing)
    case Swap(_) =>
      if s.flag then Move(s, t, Returning(true, true)).(flag := false, log := s.log + [Took(t)])
      else Move(s, t, Checking(s.pcs[t].timeout))
    case Check(_, expired) =>
      var timeout := s.pcs[t].timeout;
      Move(s, t, if timeout != WAIT_FOREVER && expired then Returning(false, true) else Swapping(timeout))
    case Store(_) => Move(s, t, Returning(true, false)).(flag := true, log := s.log + [Posted(t)])
    case Return(_) => Move(s, t, Idle)
  }

  /** The flag is the value of the abstract semaphore after the logged operations. */
  ghost predicate Refines(s: State) {
    Replay(1, s.log) == Value(if s.flag then 1 else 0)
  }

  lemma StepRefines(s: State, step: Step)
    requires Refines(s) && Enabled(s, step)
    ensures Refines(Do(s, step))
  {
    ReplaySnoc(1, s.log, Took(step.t));
    ReplaySnoc(1, s.log, Posted(step.t));
  }

  function Next(s: State, step: Step): Outcome<State> {
    if Enabled(s, step) then Reached(Do(s, step)) else Stuck
  }

  /** A run from `csp_bin_sem_init` on. */
  ghost function Run(threads: nat, steps: seq<Step>): Outcome<State> {
    Exec(Init(threads), steps, Next)
  }

  lemma RunRefines(threads: nat, steps: seq<Step>)
    requires Run(threads, steps).Reached?
    ensures Refines(Run(threads, steps).s)
  {
    forall s, step | Refines(s) && Next(s, step).Reached?
      ensures Refines(Next(s, step).s)
    {
      StepRefines(s, step);
    }
    ExecKeeps(Init(threads), steps, Next, Refines);
  }

  /** In every interleaving: the log of takes and posts is one of the abstract binary semaphore,
      so two takes have a post between them, and used as a lock it never has two holders. */
  lemma Safe(threads: nat, steps: seq<Step>, i: nat, j: nat)
    requires Run(threads, steps).Reached?
    ensures var log := Run(threads, steps).s.log;
            && Replay(1, log).Value?
            && (i < j < |log| && log[i].Took? && log[j].Took? ==> exists k :: i < k < j && log[k].Posted?)
            && (Disciplined(log) ==> |Holders(log)| <= 1)
  {
    RunRefines(threads, steps);
    var log := Run(threads, steps).s.log;
    if i < j < |log| && log[i].Took? && log[j].Took? {
      PostBetweenTakes(1, log, i, j);
    }
    if Disciplined(log) {
      AtMostOneHolder(log);
    }
  }

  /** One turn of the loop: the swap, and if it found the flag clear the look at the clock, after
      which only an expired wait with a deadline gives up, and any other swaps again. */
  lemma LoopTurns(s: State, t: nat, expired: bool)
    requires t < |s.pcs|
    ensures s.pcs[t].Swapping? ==> Enabled(s, Swap(t))
    ensures s.pcs[t].Swapping? && s.flag ==> Do(s, Swap(t)).pcs[t] == Returning(true, true) && !Do(s, Swap(t)).flag
    ensures s.pcs[t].Swapping? && !s.flag ==> Do(s, Swap(t)).pcs[t] == Checking(s.pcs[t].timeout)
    ensures Enabled(s, Check(t, expired)) <==> s.pcs[t].Checking? && (expired || s.pcs[t].timeout > 0)
    ensures Enabled(s, Check(t, expired)) ==>
              Do(s, Check(t, expired)).pcs[t] ==
                if expired && s.pcs[t].timeout < 0xFFFF_FFFF then Returning(false, true)
                else Swapping(s.pcs[t].timeout)
    ensures s.pcs[t].Storing? ==> Enabled(s, Store(t)) && Do(s, Store(t)).flag
  {
  }

  /** The calls themselves: a wait starts at the swap with its own timeout, a post at the store. */
  lemma CallTurns(s: State, t: nat, timeout: Millis)
    requires t < |s.pcs|
    ensures s.pcs[t].Idle? ==>
              && Enabled(s, CallWait(t, timeout)) && Do(s, CallWait(t, timeout)).pcs[t] == Swapping(timeout)
              && Enabled(s, CallPost(t)) && Do(s, CallPost(t)).pcs[t] == Storing
    ensures s.pcs[t].Storing? ==>
              && Enabled(s, Store(t)) && Do(s, Store(t)).flag && Do(s, Store(t)).log == s.log + [Posted(t)]
              && Do(s, Store(t)).pcs[t] == Returning(true, false)
  {
  }

  /** Step `k` is the last one thread `t` took. */
  ghost predicate LastOwn(steps: seq<Step>, t: nat, k: nat) {
    k < |steps| && steps[k].t == t && forall j :: k < j < |steps| ==> steps[j].t != t
  }

  /** The timeout of the last wait thread `t` called. */
  function LastTimeout(steps: seq<Step>, t: nat): Millis {
    if steps == [] then 0
    else
      var step := steps[|steps| - 1];
      if step.CallWait? && step.t == t then step.timeout else LastTimeout(steps[..|steps| - 1], t)
  }

  predicate InWait(pc: Pc) {
    pc.Swapping? || pc.Checking?
  }

  lemma {:induction false} TimeoutKept(threads: nat, steps: seq<Step>, t: nat)
    requires Run(threads, steps).Reached? && t < threads
    ensures var s := Run(threads, steps).s;
            |s.pcs| == threads && (InWait(s.pcs[t]) ==> s.pcs[t].timeout == LastTimeout(steps, t))
  {
    if steps != [] {
      TimeoutKept(threads, steps[..|steps| - 1], t);
    }
  }

  /** The last step of thread `t` is `step`. */
  ghost predicate LastIs(steps: seq<Step>, t: nat, step: Step) {
    exists k: nat :: LastOwn(steps, t, k) && steps[k] == step
  }

  lemma LastIsSnoc(steps: seq<Step>, t: nat, step: Step)
    requires steps != []
    ensures var n := |steps| - 1;
            LastIs(steps, t, step) <==> if steps[n].t == t then steps[n] == step else LastIs(steps[..n], t, step)
  {
    var n := |steps| - 1;
    if steps[n].t == t {
      assert LastOwn(steps, t, n);
    } else {
      assert forall k: nat :: LastOwn(steps[..n], t, k) ==> LastOwn(steps, t, k) && steps[k] == steps[..n][k];
      assert forall k: nat :: LastOwn(steps, t, k) ==> LastOwn(steps[..n], t, k) && steps[k] == steps[..n][k];
    }
  }

  /** In every run a wait answers false exactly if the last thing it did was to look at the clock
      and find its time up, and its timeout was not the one that means for ever. */
  lemma {:induction false} GivesUpExactlyWhenExpired(threads: nat, steps: seq<Step>, t: nat)
    requires Run(threads, steps).Reached? && t < threads
    ensures |Run(threads, steps).s.pcs| == threads
    ensures Run(threads, steps).s.pcs[t] == Returning(false, true) <==>
              LastIs(steps, t, Check(t, true)) && LastTimeout(steps, t) < 0xFFFF_FFFF
  {
    hide LastIs;
    TimeoutKept(threads, steps, t);
    if steps == [] {
      assert !LastIs(steps, t, Check(t, true)) by { NothingLast(t, Check(t, true)); }
    } else {
      var before := steps[..|steps| - 1];
      TimeoutKept(threads, before, t);
      GivesUpExactlyWhenExpired(threads, before, t);
      LastIsSnoc(steps, t, Check(t, true));
    }
  }

  lemma NothingLast(t: nat, step: Step)
    ensures !LastIs([], t, step)
  {
  }

  /** A wait answers true exactly in the step that takes the semaphore, and one without a
      deadline never answers false. */
  lemma WaitAnswers(s: State, step: Step)
    requires Enabled(s, step) && !step.Return?
    ensures Do(s, step).pcs[step.t] == Returning(true, true) <==>
              step.Swap? && Do(s, step).log == s.log + [Took(step.t)]
    ensures Do(s, step).pcs[step.t] == Returning(false, true) <==>
              step.Check? && step.expired && s.pcs[step.t].timeout < 0xFFFF_FFFF
    ensures step.Swap? ==> (Do(s, step).log == s.log + [Took(step.t)] <==> s.flag)
  {
    assert s.log != s.log + [Took(step.t)];
  }
}
