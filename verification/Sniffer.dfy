/** The single-handle protocol of promiscuous mode: `Sniffer::open`, moving the handle between
    threads, and `Drop`, one atomic step at a time in any order. */
module Sniffer {
  import opened Runs

  datatype Pc =
    | Idle
    | Swapping         // open: about to swap the flag to true
    | Enabling         // open: won the flag, about to call csp_promisc_enable
    | Undoing          // open: the enable failed, about to store false
    | Owning           // has the handle
    | Disabling        // drop: about to call csp_promisc_disable
    | Clearing         // drop: disabled, about to store false
    | Refused          // open returned ResourceInUse
    | Failed           // open returned the error of the enable

  /** Calls that reached the C library and succeeded. */
  datatype CCall = Enabled | Disabled

  datatype State = State(active: bool, pcs: seq<Pc>, calls: seq<CCall>)

  datatype Step =
    | Open(t: nat)
    | Swap(t: nat)
    | Enable(t: nat, succeeds: bool)
    | Undo(t: nat)
    | Hand(t: nat, to: nat)    // the handle moves to another thread
    | Drop(t: nat)
    | Disable(t: nat)
    | Clear(t: nat)
    | Return(t: nat)

  function Init(threads: nat): State {
    State(false, seq(threads, i => Idle), [])
  }

  predicate CanStep(s: State, step: Step) {
    step.t < |s.pcs| &&
    var pc := s.pcs[step.t];
    match step
    case Open(_) => pc.Idle?
    case Swap(_) => pc.Swapping?
    case Enable(_, _) => pc.Enabling?
    case Undo(_) => pc.Undoing?
    case Hand(_, to) => pc.Owning? && to < |s.pcs| && s.pcs[to].Idle?
    case Drop(_) => pc.Owning?
    case Disable(_) => pc.Disabling?
    case Clear(_) => pc.Clearing?
    case Return(_) => pc.Refused? || pc.Failed?
  }

  function Move(s: State, t: nat, pc: Pc): State
    requires t < |s.pcs|
  {
    s.(pcs := s.pcs[t := pc])
  }

  function Do(s: State, step: Step): State
    requires CanStep(s, step)
  {
    var t := step.t;
    match step
    case Open(_) => Move(s, t, Swapping)
    case Swap(_) => Move(s, t, if s.active then Refused else Enabling).(active := true)
    case Enable(_, succeeds) =>
      if succeeds then Move(s, t, Owning).(calls := s.calls + [Enabled]) else Move(s, t, Undoing)
    case Undo(_) => Move(s, t, Failed).(active := false)
    case Hand(_, to) => Move(Move(s, t, Idle), to, Owning)
    case Drop(_) => Move(s, t, Disabling)
    case Disable(_) => Move(s, t, Clearing).(calls := s.calls + [Disabled])
    case Clear(_) => Move(s, t, Idle).(active := false)
    case Return(_) => Move(s, t, Idle)
  }

  /** Between winning the flag and clearing it. */
  function Inside(pc: Pc): nat {
    if pc.Enabling? || pc.Undoing? || pc.Owning? || pc.Disabling? || pc.Clearing? then 1 else 0
  }

  /** Where the C library has been enabled and not yet disabled. */
  function InsideEnabled(pc: Pc): nat {
    if pc.Owning? || pc.Disabling? then 1 else 0
  }

  /** Strict alternation: enable, disable, enable, ... */
  ghost predicate Alternating(calls: seq<CCall>) {
    forall i :: 0 <= i < |calls| ==> calls[i] == if i % 2 == 0 then Enabled else Disabled
  }

  ghost predicate Inv(s: State) {
    && Sum(s.pcs, Inside) == (if s.active then 1 else 0)
    && Alternating(s.calls)
    && Sum(s.pcs, InsideEnabled) == |s.calls| % 2
  }

  lemma MoveSums(s: State, t: nat, pc: Pc)
    requires t < |s.pcs|
    ensures Sum(Move(s, t, pc).pcs, Inside) + Inside(s.pcs[t]) == Sum(s.pcs, Inside) + Inside(pc)
    ensures Sum(Move(s, t, pc).pcs, InsideEnabled) + InsideEnabled(s.pcs[t])
         == Sum(s.pcs, InsideEnabled) + InsideEnabled(pc)
    ensures Sum(s.pcs, Inside) >= Inside(s.pcs[t])
    ensures Sum(s.pcs, InsideEnabled) >= InsideEnabled(s.pcs[t])
  {
    SumUpdate(s.pcs, Inside, t, pc);
    SumUpdate(s.pcs, InsideEnabled, t, pc);
    SumAtLeast(s.pcs, Inside, t);
    SumAtLeast(s.pcs, InsideEnabled, t);
  }

  lemma {:induction false} EnabledAmongInside(pcs: seq<Pc>)
    ensures Sum(pcs, InsideEnabled) <= Sum(pcs, Inside)
  {
    if pcs != [] {
      EnabledAmongInside(pcs[..|pcs| - 1]);
    }
  }

  lemma StepInv(s: State, step: Step)
    requires Inv(s) && CanStep(s, step)
    ensures Inv(Do(s, step))
  {
    hide Sum;
    var s' := Do(s, step);
    match step
    case Hand(t, to) =>
      MoveSums(s, t, Idle);
      MoveSums(Move(s, t, Idle), to, Owning);
    case _ =>
      MoveSums(s, step.t, s'.pcs[step.t]);
      assert s'.pcs == Move(s, step.t, s'.pcs[step.t]).pcs;
      EnabledAmongInside(s'.pcs);
  }

  function Next(s: State, step: Step): Outcome<State> {
    if CanStep(s, step) then Reached(Do(s, step)) else Stuck
  }

  ghost function Run(threads: nat, steps: seq<Step>): Outcome<State> {
    Exec(Init(threads), steps, Next)
  }

  /** The invariant holds in every reachable state. */
  lemma Reachable(threads: nat, steps: seq<Step>)
    requires Run(threads, steps).Reached?
    ensures Inv(Run(threads, steps).s)
  {
    InitInv(threads);
    forall s, step | Inv(s) && Next(s, step).Reached?
      ensures Inv(Next(s, step).s)
    {
      StepInv(s, step);
    }
    ExecKeeps(Init(threads), steps, Next, Inv);
  }

  lemma OneInside(s: State, t: nat, u: nat)
    requires Inv(s) && t < |s.pcs| && u < |s.pcs|
    requires Inside(s.pcs[t]) == 1 == Inside(s.pcs[u])
    ensures t == u
  {
    hide Sum;
    if t < u { SumAtLeastTwo(s.pcs, Inside, t, u); }
    if u < t { SumAtLeastTwo(s.pcs, Inside, u, t); }
  }

  lemma OwnerIsEnabled(s: State, t: nat)
    requires Inv(s) && t < |s.pcs| && s.pcs[t].Owning?
    ensures s.active && s.calls != [] && s.calls[|s.calls| - 1] == Enabled
  {
    hide Sum;
    SumAtLeast(s.pcs, Inside, t);
    SumAtLeast(s.pcs, InsideEnabled, t);
  }

  lemma InitInv(threads: nat)
    ensures Inv(Init(threads))
  {
    SumZero(Init(threads).pcs, Inside);
    SumZero(Init(threads).pcs, InsideEnabled);
  }

  /** In every interleaving of opens, hand-overs and drops: at most one thread is between winning
      the flag and clearing it, successful enables and disables strictly alternate, and whoever
      has the handle has promiscuous mode enabled. */
  lemma SingleHandle(threads: nat, steps: seq<Step>, t: nat, u: nat)
    requires Run(threads, steps).Reached?
    ensures var s := Run(threads, steps).s;
            && Alternating(s.calls)
            && (t < |s.pcs| && u < |s.pcs| && Inside(s.pcs[t]) == 1 == Inside(s.pcs[u]) ==> t == u)
            && (t < |s.pcs| && s.pcs[t].Owning? ==> s.active && s.calls != [] && s.calls[|s.calls| - 1] == Enabled)
  {
    Reachable(threads, steps);
    hide Run, Do;
    var s := Run(threads, steps).s;
    if t < |s.pcs| {
      if s.pcs[t].Owning? { OwnerIsEnabled(s, t); }
      if u < |s.pcs| && Inside(s.pcs[t]) == 1 == Inside(s.pcs[u]) { OneInside(s, t, u); }
    }
  }

  /** `open` is refused at its swap exactly while some thread is inside; in particular once a
      failed enable has been undone, or a handle has been dropped, the next open wins. */
  lemma OpenWinsIffFree(s: State, t: nat)
    requires Inv(s) && CanStep(s, Swap(t))
    ensures Do(s, Swap(t)).pcs[t].Enabling? <==> forall u :: 0 <= u < |s.pcs| ==> Inside(s.pcs[u]) == 0
    ensures Do(s, Swap(t)).pcs[t].Refused? ==> Do(s, Swap(t)).active == s.active && Do(s, Swap(t)).calls == s.calls
  {
    if forall u :: 0 <= u < |s.pcs| ==> Inside(s.pcs[u]) == 0 {
      SumZero(s.pcs, Inside);
    } else {
      var u :| 0 <= u < |s.pcs| && Inside(s.pcs[u]) != 0;
      SumAtLeast(s.pcs, Inside, u);
    }
  }

  /** A failed enable leaves the protocol as it was: nobody inside, no C call made, and the flag
      clear for the next open. */
  lemma FailedEnableReopens(s: State, t: nat)
    requires Inv(s) && CanStep(s, Enable(t, false))
    ensures var s1 := Do(s, Enable(t, false));
            && CanStep(s1, Undo(t))
            && !Do(s1, Undo(t)).active && Do(s1, Undo(t)).calls == s.calls
            && forall u :: 0 <= u < |s.pcs| ==> Inside(Do(s1, Undo(t)).pcs[u]) == 0
  {
    var s1 := Do(s, Enable(t, false));
    StepInv(s, Enable(t, false));
    StepInv(s1, Undo(t));
    var s2 := Do(s1, Undo(t));
    forall u | 0 <= u < |s2.pcs|
      ensures Inside(s2.pcs[u]) == 0
    {
      SumAtLeast(s2.pcs, Inside, u);
    }
  }
}
