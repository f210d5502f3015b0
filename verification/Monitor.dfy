/** The blocking `TestQueue` of the host back-end as a transition system: any number of threads,
    one mutex, two condition variables, one step at a time in any order. */
module Monitor {
  import opened Runs
  import F = Fifo

  // ---------------------------------------------------------------- states

  datatype Wait = NoWait | Timed | Forever

  /** How the three branches on `timeout` treat it. */
  function WaitKind(timeout: nat): Wait {
    if timeout == WAIT_FOREVER then Forever else if timeout > 0 then Timed else NoWait
  }

  datatype Call<T> = Call(id: nat, op: F.Op<T>, timeout: Millis)

  /** Where a thread is inside `queue_enqueue`, `queue_dequeue` or `queue_size`. */
  datatype Pc<T> =
    | Idle
    | Entering(c: Call<T>)                          // about to lock the mutex
    | Testing(c: Call<T>, again: bool)              // holds the lock, at the loop test; `again`: woken before
    | Sleeping(c: Call<T>)                          // parked on its condition variable
    | Woken(c: Call<T>)                             // left the condition variable, must relock
    | TimedOut(c: Call<T>)                          // the wait timed out, must relock
    | Acting(c: Call<T>, again: bool)               // holds the lock, about to push or pop
    | Unlocking(c: Call<T>, reply: F.Reply<T>)      // holds the lock, about to drop the guard
    | Notifying(c: Call<T>, reply: F.Reply<T>)      // about to notify the other condition variable
    | Returning(c: Call<T>, reply: F.Reply<T>)

  /** A completed operation, logged at the step that takes effect. */
  datatype Event<T> = Event(id: nat, op: F.Op<T>, reply: F.Reply<T>)

  datatype State<T> = State(
    cap: nat, data: seq<T>, lock: Lock, pcs: seq<Pc<T>>, nextId: nat, hist: seq<Event<T>>)

  function Init<T>(cap: nat, threads: nat): State<T> {
    State(cap, [], Free, seq(threads, i => Idle), 0, [])
  }

  predicate HoldsLock<T>(pc: Pc<T>) {
    pc.Testing? || pc.Acting? || pc.Unlocking?
  }

  /** The loop test: must `op` wait? */
  predicate Blocked<T>(op: F.Op<T>, cap: nat, data: seq<T>) {
    (op.Enqueue? && |data| >= cap) || (op.Dequeue? && |data| == 0)
  }

  /** `push_back`, `pop_front` or `len`, as the code does them once past the loop. */
  function Perform<T>(op: F.Op<T>, data: seq<T>): (seq<T>, F.Reply<T>) {
    match op
    case Enqueue(item) => (data + [item], F.Accepted)
    case Dequeue => if |data| == 0 then (data, F.Refused) else (data[1..], F.Delivered(data[0]))
    case Size => (data, F.Length(|data|))
  }

  // ---------------------------------------------------------------- steps

  datatype Step<T> =
    | Invoke(t: nat, op: F.Op<T>, timeout: Millis)
    | Acquire(t: nat)
    | Pass(t: nat)
    | Park(t: nat)
    | GiveUp(t: nat)
    | Act(t: nat)
    | Unlock(t: nat)
    | NotifyOne(t: nat, w: nat)    // wakes `w`
    | NotifyNone(t: nat)           // nobody waits
    | Spurious(t: nat)
    | Expire(t: nat)
    | Return(t: nat)

  /** The operation whose callers the reply may let go on. */
  predicate Releases<T>(reply: F.Reply<T>, op: F.Op<T>) {
    (reply.Accepted? && op.Dequeue?) || (reply.Delivered? && op.Enqueue?)
  }

  predicate SleepsFor<T>(pc: Pc<T>, reply: F.Reply<T>) {
    pc.Sleeping? && Releases(reply, pc.c.op)
  }

  predicate Enabled<T>(s: State<T>, step: Step<T>) {
    step.t < |s.pcs| &&
    var pc := s.pcs[step.t];
    match step
    case Invoke(_, _, _) => pc.Idle?
    case Acquire(_) => (pc.Entering? || pc.Woken? || pc.TimedOut?) && s.lock.Free?
    case Pass(_) => pc.Testing? && !Blocked(pc.c.op, s.cap, s.data)
    case Park(_) => pc.Testing? && Blocked(pc.c.op, s.cap, s.data) && !WaitKind(pc.c.timeout).NoWait?
    case GiveUp(_) => pc.Testing? && Blocked(pc.c.op, s.cap, s.data) && !WaitKind(pc.c.timeout).Forever?
    case Act(_) => pc.Acting?
    case Unlock(_) => pc.Unlocking?
    case NotifyOne(_, w) => pc.Notifying? && w < |s.pcs| && SleepsFor(s.pcs[w], pc.reply)
    case NotifyNone(_) => pc.Notifying? && forall w :: 0 <= w < |s.pcs| ==> !SleepsFor(s.pcs[w], pc.reply)
    case Spurious(_) => pc.Sleeping?
    case Expire(_) => pc.Sleeping? && WaitKind(pc.c.timeout).Timed?
    case Return(_) => pc.Returning?
  }

  function Move<T>(s: State<T>, t: nat, pc: Pc<T>): State<T>
    requires t < |s.pcs|
  {
    s.(pcs := s.pcs[t := pc])
  }

  function Do<T>(s: State<T>, step: Step<T>): State<T>
    requires Enabled(s, step)
  {
    var t := step.t;
    var pc := s.pcs[t];
    match step
    case Invoke(_, op, timeout) =>
      Move(s, t, Entering(Call(s.nextId, op, timeout))).(nextId := s.nextId + 1)
    case Acquire(_) =>
      var next := match pc
        case TimedOut(c) => Unlocking(c, F.Refused)
        case _ => Testing(pc.c, pc.Woken?);
      Move(s, t, next).(lock := HeldBy(t))
    case Pass(_) => Move(s, t, Acting(pc.c, pc.again))
    case Park(_) => Move(s, t, Sleeping(pc.c)).(lock := Free)
    case GiveUp(_) =>
      Move(s, t, Unlocking(pc.c, F.Refused)).(hist := s.hist + [Event(pc.c.id, pc.c.op, F.Refused)])
    case Act(_) =>
      var (data, reply) := Perform(pc.c.op, s.data);
      Move(s, t, Unlocking(pc.c, reply)).(data := data, hist := s.hist + [Event(pc.c.id, pc.c.op, reply)])
    case Unlock(_) =>
      var next := if pc.reply.Accepted? || pc.reply.Delivered? then Notifying(pc.c, pc.reply)
                  else Returning(pc.c, pc.reply);
      Move(s, t, next).(lock := Free)
    case NotifyOne(_, w) =>
      Move(Move(s, w, Woken(s.pcs[w].c)), t, Returning(pc.c, pc.reply))
    case NotifyNone(_) => Move(s, t, Returning(pc.c, pc.reply))
    case Spurious(_) => Move(s, t, Woken(pc.c))
    case Expire(_) => Move(s, t, TimedOut(pc.c))
    case Return(_) => Move(s, t, Idle)
  }

  // ---------------------------------------------------------------- the invariant

  /** Exactly the lock holder is inside the critical section, and what it tested still holds. */
  ghost predicate LockInv<T>(s: State<T>) {
    && (s.lock.HeldBy? ==> s.lock.t < |s.pcs|)
    && (forall t :: 0 <= t < |s.pcs| ==> (HoldsLock(s.pcs[t]) <==> s.lock == HeldBy(t)))
    && (forall t :: 0 <= t < |s.pcs| && s.pcs[t].Acting? ==> !Blocked(s.pcs[t].c.op, s.cap, s.data))
  }

  function Ops<T>(hist: seq<Event<T>>): (r: seq<F.Op<T>>)
    ensures |r| == |hist|
  {
    seq(|hist|, i requires 0 <= i < |hist| => hist[i].op)
  }

  function Replies<T>(hist: seq<Event<T>>): (r: seq<F.Reply<T>>)
    ensures |r| == |hist|
  {
    seq(|hist|, i requires 0 <= i < |hist| => hist[i].reply)
  }

  /** The log, in order, is a run of the bounded FIFO that ends in the stored items. */
  ghost predicate LogInv<T>(s: State<T>) {
    && |s.data| <= s.cap
    && F.Run(F.Fifo(s.cap, []), Ops(s.hist)) == (F.Fifo(s.cap, s.data), Replies(s.hist))
  }

  /** The two sides of a wakeup: those who wait to take and those who wait to put. */
  datatype Side = Taker | Putter

  function OpSide<T>(op: F.Op<T>): Side {
    if op.Dequeue? then Taker else Putter
  }

  predicate IsSleeper<T>(side: Side, pc: Pc<T>) {
    pc.Sleeping? && OpSide(pc.c.op) == side
  }

  /** One for each woken thread of a side that has not yet acted or gone back to sleep, and
      one for each notification still owed to that side. */
  function Credit<T>(side: Side, pc: Pc<T>): nat {
    match pc
    case Woken(c) => if OpSide(c.op) == side then 1 else 0
    case Testing(c, again) => if again && OpSide(c.op) == side then 1 else 0
    case Acting(c, again) => if again && OpSide(c.op) == side then 1 else 0
    case Unlocking(_, reply) => if Owed(side, reply) then 1 else 0
    case Notifying(_, reply) => if Owed(side, reply) then 1 else 0
    case _ => 0
  }

  predicate Owed<T>(side: Side, reply: F.Reply<T>) {
    if side.Taker? then reply.Accepted? else reply.Delivered?
  }

  function Weight<T>(side: Side): Pc<T> -> nat {
    (pc: Pc<T>) => Credit(side, pc)
  }

  function Credits<T>(s: State<T>, side: Side): nat {
    Sum(s.pcs, Weight(side))
  }

  /** Items there to take, or slots there to fill. */
  function Available<T>(s: State<T>, side: Side): int {
    if side.Taker? then |s.data| else s.cap - |s.data|
  }

  predicate Waited<T>(pc: Pc<T>) {
    pc.Sleeping? || pc.Woken? || pc.TimedOut? || (pc.Testing? && pc.again) || (pc.Acting? && pc.again)
  }

  /** `queue_size` never waits. */
  ghost predicate WaitersInv<T>(s: State<T>) {
    forall t :: 0 <= t < |s.pcs| && Waited(s.pcs[t]) ==> !s.pcs[t].c.op.Size?
  }

  /** No wakeup is lost: whatever a sleeper could use is covered by a woken thread of its side
      or by a notification on its way. */
  ghost predicate WakeInv<T>(s: State<T>) {
    && WaitersInv(s)
    && (forall side, t :: 0 <= t < |s.pcs| && IsSleeper(side, s.pcs[t]) ==>
          Available(s, side) <= Credits(s, side))
  }

  // ---------------------------------------------------------------- calls and the log

  ghost predicate InLog<T>(hist: seq<Event<T>>, id: nat) {
    exists i :: 0 <= i < |hist| && hist[i].id == id
  }

  ghost predicate Logged<T>(hist: seq<Event<T>>, e: Event<T>) {
    exists i :: 0 <= i < |hist| && hist[i] == e
  }

  predicate Answered<T>(pc: Pc<T>) {
    pc.Unlocking? || pc.Notifying? || pc.Returning?
  }

  /** A call is logged when, and only when, it has its answer, and with that answer; the one
      exception is a timed wait that ran out, which is answered `false` and not logged. A call
      that waits for ever is never refused. */
  ghost predicate AnswerInv<T>(s: State<T>, pc: Pc<T>)
    requires !pc.Idle?
  {
    if Answered(pc) then
      && (Logged(s.hist, Event(pc.c.id, pc.c.op, pc.reply))
          || (pc.reply.Refused? && WaitKind(pc.c.timeout).Timed? && !InLog(s.hist, pc.c.id)))
      && (pc.reply.Refused? ==> !WaitKind(pc.c.timeout).Forever?)
    else
      && !InLog(s.hist, pc.c.id)
      && (pc.TimedOut? ==> WaitKind(pc.c.timeout).Timed?)
  }

  ghost predicate IdInv<T>(s: State<T>) {
    && (forall t :: 0 <= t < |s.pcs| && !s.pcs[t].Idle? ==> s.pcs[t].c.id < s.nextId)
    && (forall t, u :: 0 <= t < u < |s.pcs| && !s.pcs[t].Idle? && !s.pcs[u].Idle? ==>
          s.pcs[t].c.id != s.pcs[u].c.id)
    && (forall i :: 0 <= i < |s.hist| ==> s.hist[i].id < s.nextId)
    && (forall i, j :: 0 <= i < j < |s.hist| ==> s.hist[i].id != s.hist[j].id)
  }

  ghost predicate CallInv<T>(s: State<T>) {
    && IdInv(s)
    && (forall t :: 0 <= t < |s.pcs| && !s.pcs[t].Idle? ==> AnswerInv(s, s.pcs[t]))
  }

  ghost predicate Inv<T>(s: State<T>) {
    LockInv(s) && LogInv(s) && WakeInv(s) && CallInv(s)
  }

  // ---------------------------------------------------------------- runs

  function Next<T>(s: State<T>, step: Step<T>): Outcome<State<T>> {
    if Enabled(s, step) then Reached(Do(s, step)) else Stuck
  }

  /** The state after `steps`, if each of them was enabled in its turn. */
  ghost function Run<T>(s: State<T>, steps: seq<Step<T>>): Outcome<State<T>> {
    Exec(s, steps, Next)
  }
}
