/** `Dispatcher`: which handler is registered for a port, which one gets a packet, what `run`
    itself does with it afterwards, and what holds over whole runs with handlers of any kind. */
module Dispatcher {
  import opened Bytes
  import opened Runs
  import opened BufferPool

  // ---------------------------------------------------------------- handlers

  datatype Reply = NoReply | ReplyWith(h: nat)

  datatype Verdict = Fine(reply: Reply) | Failed

  /** What happens while a handler runs, its own doings and those of everyone else, and how it
      answers. */
  datatype Did<A> = Did(steps: seq<Op>, answer: A)

  /** Handlers are closures with state: they may do anything with the handles there are, the new
      one included, and what they do may depend on all that has happened, which the calls in the
      pool record. */
  type Handler = (Pool, nat) -> Did<Reply>
  type ResultHandler = (Pool, nat) -> Did<Verdict>

  datatype Target = Regular | WithResult | Service | Nobody

  const LAST_SERVICE_PORT: nat := 6

  /** The handlers in force. */
  datatype Config = Config(handlers: map<nat, Handler>, resultHandlers: map<nat, ResultHandler>, callback: bool)

  /** The priority in which a packet finds its handler. */
  function Route(c: Config, dport: nat): Target {
    if dport in c.handlers then Regular
    else if dport in c.resultHandlers then WithResult
    else if dport <= LAST_SERVICE_PORT then Service
    else Nobody
  }

  /** In numbers: without handlers the built-in services have the ports 0 to 6; a handler has its
      port before them. */
  lemma RouteInNumbers(c: Config, dport: nat)
    ensures dport in c.handlers ==> Route(c, dport) == Regular
    ensures dport !in c.handlers && dport in c.resultHandlers ==> Route(c, dport) == WithResult
    ensures dport !in c.handlers && dport !in c.resultHandlers ==>
              Route(c, dport) == if dport <= 6 then Service else Nobody
  {
  }

  // ---------------------------------------------------------------- registration

  datatype Registration =
    | Plain(port: nat, handler: Handler)
    | Fallible(port: nat, handler': ResultHandler)
    | BuiltIn(port: nat)

  /** How the C library answers `csp_bind` and `csp_listen`. */
  datatype Answers = Answers(bound: bool, listening: bool)

  /** The ports bound to the dispatcher's socket, and its handlers. */
  datatype Registry = Registry(ports: set<nat>, handlers: map<nat, Handler>, resultHandlers: map<nat, ResultHandler>)

  const EMPTY_REGISTRY := Registry({}, map[], map[])

  /** Of `csp_bind` it is assumed, as the tests expect, that it refuses a port that is bound. */
  predicate MayAnswer(r: Registry, port: nat, a: Answers) {
    port in r.ports ==> !a.bound
  }

  lemma FreePortsMayBeBound(r: Registry, port: nat, a: Answers)
    ensures port !in r.ports || !a.bound ==> MayAnswer(r, port, a)
  {
  }

  /** A registration: nothing is stored unless binding and listening both succeed; a port whose
      listening fails stays bound. */
  function Registered(r: Registry, reg: Registration, a: Answers): Registry {
    if !a.bound then r
    else
      var bound := r.(ports := r.ports + {reg.port});
      if !a.listening then bound
      else match reg
        case Plain(port, handler) => bound.(handlers := r.handlers[port := handler])
        case Fallible(port, handler) => bound.(resultHandlers := r.resultHandlers[port := handler])
        case BuiltIn(_) => bound
  }

  function NextRegistration(r: Registry, step: (Registration, Answers)): Outcome<Registry> {
    if MayAnswer(r, step.0.port, step.1) then Reached(Registered(r, step.0, step.1)) else Stuck
  }

  /** No port has two handlers, and every port with a handler is bound. */
  ghost predicate Exclusive(r: Registry) {
    r.handlers.Keys !! r.resultHandlers.Keys && r.handlers.Keys + r.resultHandlers.Keys <= r.ports
  }

  /** `r'` has all the handlers of `r`, none of them replaced. */
  ghost predicate Extends(r: Registry, r': Registry) {
    && r.ports <= r'.ports
    && (forall port :: port in r.handlers ==> port in r'.handlers && r'.handlers[port] == r.handlers[port])
    && (forall port :: port in r.resultHandlers ==>
          port in r'.resultHandlers && r'.resultHandlers[port] == r.resultHandlers[port])
  }

  lemma RegisteredKeeps(r: Registry, reg: Registration, a: Answers)
    requires Exclusive(r) && MayAnswer(r, reg.port, a)
    ensures Exclusive(Registered(r, reg, a)) && Extends(r, Registered(r, reg, a))
  {
  }

  /** Over any sequence of registrations no handler is ever replaced, and no port gets one of
      each kind. */
  lemma {:induction false} RegistrationsKeep(r: Registry, steps: seq<(Registration, Answers)>)
    requires Exclusive(r) && Exec(r, steps, NextRegistration).Reached?
    ensures var r' := Exec(r, steps, NextRegistration).s; Exclusive(r') && Extends(r, r')
  {
    hide Exclusive, Extends, MayAnswer, Registered;
    ghost var inv := (x: Registry) => Exclusive(x) && Extends(r, x);
    assert inv(r) by { ExtendsSelf(r); }
    forall x, step | inv(x) && NextRegistration(x, step).Reached?
      ensures inv(NextRegistration(x, step).s)
    {
      var y := Registered(x, step.0, step.1);
      RegisteredKeeps(x, step.0, step.1) by { hide Extends; }
      ExtendsTransitive(r, x, y);
    }
    ExecKeeps(r, steps, NextRegistration, inv);
  }

  lemma ExtendsSelf(r: Registry)
    ensures Extends(r, r)
  {
  }

  lemma ExtendsTransitive(r: Registry, s: Registry, t: Registry)
    requires Extends(r, s) && Extends(s, t)
    ensures Extends(r, t)
  {
  }

  /** In particular what was registered for a port is what the port has for ever after. */
  lemma NeverReplaced(r: Registry, steps: seq<(Registration, Answers)>, port: nat)
    requires Exclusive(r) && Exec(r, steps, NextRegistration).Reached?
    ensures var r' := Exec(r, steps, NextRegistration).s;
            && (port in r.handlers ==> port in r'.handlers && r'.handlers[port] == r.handlers[port])
            && (port in r.resultHandlers ==>
                  port in r'.resultHandlers && r'.resultHandlers[port] == r.resultHandlers[port])
            && !(port in r'.handlers && port in r'.resultHandlers)
            && (port in r'.handlers || port in r'.resultHandlers ==> port in r'.ports)
  {
    RegistrationsKeep(r, steps);
    var r' := Exec(r, steps, NextRegistration).s;
    hide Exec;
    if port in r'.handlers { assert port in r'.handlers.Keys; }
  }

  /** The order that asks the result handlers first. */
  function RouteSwapped(c: Config, dport: nat): Target {
    if dport in c.resultHandlers then WithResult
    else if dport in c.handlers then Regular
    else if dport <= LAST_SERVICE_PORT then Service
    else Nobody
  }

  /** So the priority of regular handlers over result handlers is never exercised: with tables
      that registration filled, asking in the other order routes every packet alike. */
  lemma PriorityNeverMatters(steps: seq<(Registration, Answers)>, callback: bool, dport: nat)
    requires Exec(EMPTY_REGISTRY, steps, NextRegistration).Reached?
    ensures var r := Exec(EMPTY_REGISTRY, steps, NextRegistration).s;
            var c := Config(r.handlers, r.resultHandlers, callback);
            RouteSwapped(c, dport) == Route(c, dport)
  {
    RegistrationsKeep(EMPTY_REGISTRY, steps);
  }

  // ---------------------------------------------------------------- one packet

  /** What became of one packet: who got it, by which handle; what was done while the handler had
      it and how it answered; and what `run` itself then did. */
  datatype Entry = Entry(dport: nat, buffer: nat, packet: nat, target: Target,
                         steps: seq<Op>, answer: Verdict, own: seq<Op>)

  /** The buffers and handles, the packets so far, and how often the error callback was called. */
  datatype World = World(pool: Pool, log: seq<Entry>, errors: nat)

  /** What the one a packet is routed to does with it. */
  function Reaction(c: Config, dport: nat, p: Pool, packet: nat): Did<Verdict> {
    match Route(c, dport)
    case Regular => var did := c.handlers[dport](p, packet); Did(did.steps, Fine(did.answer))
    case WithResult => c.resultHandlers[dport](p, packet)
    case _ => Did([], Fine(NoReply))
  }

  function Sending(p: Pool, h: nat): seq<Op> {
    [IntoRaw(h), Give(if h in p.live then p.live[h] else 0)]
  }

  /** What `run` does afterwards: it sends the reply, has C serve the packet, or drops it. */
  function Own(target: Target, p: Pool, packet: nat, answer: Verdict): seq<Op> {
    match target
    case Service => Sending(p, packet)
    case Nobody => [Drop(packet)]
    case _ => if answer.Fine? && answer.reply.ReplyWith? then Sending(p, answer.reply.h) else []
  }

  /** From a packet just read to the next read: only moves that are possible, one after another,
      make a way on. */
  function Settle(c: Config, w: World, dport: nat, b: nat, packet: nat): Outcome<World> {
    var target, did := Route(c, dport), Reaction(c, dport, w.pool, packet);
    match Exec(w.pool, did.steps, Next)
    case Stuck => Stuck
    case Reached(p) =>
      var own := Own(target, p, packet, did.answer);
      match Exec(p, own, Next)
      case Stuck => Stuck
      case Reached(after) =>
        var e := Entry(dport, b, packet, target, did.steps, did.answer, own);
        Reached(World(after, w.log + [e], w.errors + if did.answer.Failed? && c.callback then 1 else 0))
  }

  function JustRead(p: Pool, b: nat): Pool
    requires b in p.stack
  {
    Do(Do(p, Take(b)), FromRaw(b))
  }

  function Deliver(c: Config, w: World, dport: nat, b: nat): Outcome<World> {
    if b in w.pool.stack then Settle(c, w.(pool := JustRead(w.pool, b)), dport, b, w.pool.next) else Stuck
  }

  /** All that moved for one packet. */
  function Trace(e: Entry): seq<Op> {
    [Take(e.buffer), FromRaw(e.buffer)] + e.steps + e.own
  }

  lemma ExecOne(p: Pool, op: Op)
    ensures Exec(p, [op], Next) == Next(p, op)
  {
    assert [op] == [] + [op];
    ExecSnoc(p, [], op, Next);
  }

  lemma ExecTwo(p: Pool, op: Op, op': Op)
    ensures Exec(p, [op, op'], Next) == match Next(p, op) case Stuck => Stuck case Reached(q) => Next(q, op')
  {
    assert [op, op'] == [op] + [op'];
    ExecSnoc(p, [op], op', Next);
    ExecOne(p, op);
  }

  /** A delivery is a run of the pool. */
  lemma DeliverIsRun(c: Config, w: World, dport: nat, b: nat)
    requires Deliver(c, w, dport, b).Reached?
    ensures var w' := Deliver(c, w, dport, b).s;
            && |w'.log| == |w.log| + 1 && w'.log[..|w.log|] == w.log
            && Exec(w.pool, Trace(w'.log[|w.log|]), Next) == Reached(w'.pool)
  {
    var w' := Deliver(c, w, dport, b).s;
    var e := w'.log[|w.log|];
    ExecTwo(w.pool, Take(b), FromRaw(b));
    hide Exec, Reaction, Own, Route;
    ExecConcat(w.pool, [Take(b), FromRaw(b)], e.steps, Next);
    ExecConcat(w.pool, [Take(b), FromRaw(b)] + e.steps, e.own, Next);
  }

  lemma SendingIs(p: Pool, h: nat)
    ensures Exec(p, Sending(p, h), Next) ==
            if h in p.live then Reached(Do(Do(p, IntoRaw(h)), Give(p.live[h]))) else Stuck
  {
    ExecTwo(p, IntoRaw(h), Sending(p, h)[1]);
  }

  lemma DroppingIs(p: Pool, h: nat)
    ensures Exec(p, [], Next) == Reached(p)
    ensures Exec(p, [Drop(h)], Next) == if h in p.live then Reached(Do(p, Drop(h))) else Stuck
  {
    ExecOne(p, Drop(h));
  }

  /** Sending moves the one buffer to C, and nothing else. */
  lemma SendShape(p: Pool, h: nat)
    requires Valid(p) && h in p.live
    ensures Exec(p, Sending(p, h), Next) == Reached(p.(live := p.live - {h}, stack := p.stack + {p.live[h]},
                                                       calls := p.calls + [Given(p.live[h])]))
  {
    SendingIs(p, h);
    assert p.live[h] in p.live.Values;
    assert p.loose + {p.live[h]} - {p.live[h]} == p.loose;
  }

  /** What C sees of `run` itself, and where the packet is then; the program's other handles and
      raw pointers are as they were. */
  lemma RunsOwnPart(c: Config, w: World, dport: nat, b: nat)
    requires Valid(w.pool) && Deliver(c, w, dport, b).Reached?
    ensures var w' := Deliver(c, w, dport, b).s;
            var e, p, p' := w'.log[|w.log|], w.pool, w'.pool;
            && e.target == Route(c, dport) && e.dport == dport && e.buffer == b
            && match e.target
               case Nobody =>
                 && p'.calls == p.calls + [Taken(b), Freed(b)] && b in p'.free
                 && p'.live == p.live && p'.loose == p.loose
               case Service =>
                 && p'.calls == p.calls + [Taken(b), Given(b)] && b in p'.stack
                 && p'.live == p.live && p'.loose == p.loose
               case _ => Handled(JustRead(p, b), e, p')
  {
    var w' := Deliver(c, w, dport, b).s;
    var e := w'.log[|w.log|];
    var read, packet := JustRead(w.pool, b), w.pool.next;
    ReadShape(w.pool, b);
    hide JustRead;
    match e.target
    case Nobody =>
      ExecOne(read, Drop(packet));
    case Service =>
      SendShape(read, packet);
    case _ =>
      var p := Exec(read, e.steps, Next).s;
      RunConserves(read, e.steps);
      if e.answer.Fine? && e.answer.reply.ReplyWith? {
        var h := e.answer.reply.h;
        SendingIs(p, h);
        SendShape(p, h);
      }
  }

  /** After a handler: at most one reply has gone, the one asked for, and nothing else. */
  ghost predicate Handled(read: Pool, e: Entry, p': Pool) {
    Exec(read, e.steps, Next).Reached? &&
    var p := Exec(read, e.steps, Next).s;
    match e.answer
    case Fine(ReplyWith(h)) =>
      && h in p.live
      && p' == p.(live := p.live - {h}, stack := p.stack + {p.live[h]}, calls := p.calls + [Given(p.live[h])])
    case _ => p' == p
  }

  /** A packet just read is wrapped in a new handle, and nothing else has moved. */
  lemma ReadShape(p: Pool, b: nat)
    requires Valid(p) && b in p.stack
    ensures var q := JustRead(p, b);
            && Valid(q) && p.next !in p.live && q.live == p.live[p.next := b] && q.next == p.next + 1
            && q.calls == p.calls + [Taken(b)] && q.loose == p.loose && q.free == p.free && q.stack == p.stack - {b}
            && q.live - {p.next} == p.live
  {
    DoKeeps(p, Take(b));
    DoKeeps(Do(p, Take(b)), FromRaw(b));
  }

  // ---------------------------------------------------------------- whole runs

  /** Between the packets the rest of the world goes on. */
  datatype Action = Elsewhere(op: Op) | Arrive(dport: nat, b: nat)

  function Turn(c: Config): (World, Action) -> Outcome<World> {
    (w: World, a: Action) =>
      match a
      case Arrive(dport, b) => Deliver(c, w, dport, b)
      case Elsewhere(op) => if Can(w.pool, op) then Reached(w.(pool := Do(w.pool, op))) else Stuck
  }

  ghost predicate RunTo(p: Pool, p': Pool) {
    exists ops :: Exec(p, ops, Next) == Reached(p')
  }

  lemma RunToOn(p: Pool, q: Pool, ops: seq<Op>, r: Pool)
    requires RunTo(p, q) && Exec(q, ops, Next) == Reached(r)
    ensures RunTo(p, r)
  {
    var first :| Exec(p, first, Next) == Reached(q);
    ExecConcat(p, first, ops, Next);
  }

  lemma TurnRuns(c: Config, p: Pool, w: World, a: Action)
    requires RunTo(p, w.pool) && Turn(c)(w, a).Reached?
    ensures RunTo(p, Turn(c)(w, a).s.pool)
  {
    var w' := Turn(c)(w, a).s;
    match a
    case Arrive(dport, b) =>
      DeliverIsRun(c, w, dport, b);
      hide RunTo, Deliver, Exec;
      RunToOn(p, w.pool, Trace(w'.log[|w.log|]), w'.pool);
    case Elsewhere(op) =>
      ExecOne(w.pool, op);
      hide RunTo, Exec;
      RunToOn(p, w.pool, [op], w'.pool);
  }

  lemma ServeIsRun(c: Config, w: World, actions: seq<Action>)
    requires Exec(w, actions, Turn(c)).Reached?
    ensures RunTo(w.pool, Exec(w, actions, Turn(c)).s.pool)
  {
    assert RunTo(w.pool, w.pool) by { assert Exec(w.pool, [], Next) == Reached(w.pool); }
    hide RunTo, Turn;
    forall x: World, a: Action | RunTo(w.pool, x.pool) && Turn(c)(x, a).Reached?
      ensures RunTo(w.pool, Turn(c)(x, a).s.pool)
    {
      TurnRuns(c, w.pool, x, a);
    }
    ExecKeeps(w, actions, Turn(c), (x: World) => RunTo(w.pool, x.pool));
  }

  /** What any run makes of the pool: every buffer still in exactly one place, and every call
      made on it, by whomever, legal where it was. */
  ghost predicate Safe(p: Pool, p': Pool) {
    Valid(p') && All(p') == All(p) && forall b :: b in All(p) ==> Followed(p, b, p')
  }

  /** Whatever the handlers do, however often buffers come round, and whatever goes on beside
      `run`: a run of the dispatcher is safe. */
  lemma ServeIsSafe(c: Config, w: World, actions: seq<Action>)
    requires Valid(w.pool) && Exec(w, actions, Turn(c)).Reached?
    ensures Safe(w.pool, Exec(w, actions, Turn(c)).s.pool)
  {
    ServeIsRun(c, w, actions);
    var p' := Exec(w, actions, Turn(c)).s.pool;
    hide Exec, Valid, All, Followed;
    var ops :| Exec(w.pool, ops, Next) == Reached(p');
    RunConserves(w.pool, ops);
    forall b | b in All(w.pool)
      ensures Followed(w.pool, b, p')
    {
      RunFollows(w.pool, ops, b);
    }
  }

  /** The packets of a script, by port and buffer. */
  function Arrivals(actions: seq<Action>): seq<(nat, nat)> {
    if actions == [] then []
    else
      var n := |actions| - 1;
      Arrivals(actions[..n]) + (if actions[n].Arrive? then [(actions[n].dport, actions[n].b)] else [])
  }

  function Served(log: seq<Entry>): seq<(nat, nat)> {
    if log == [] then []
    else Served(log[..|log| - 1]) + [(log[|log| - 1].dport, log[|log| - 1].buffer)]
  }

  lemma {:induction false} ServedAt(log: seq<Entry>, i: nat)
    requires i < |log|
    ensures |Served(log)| == |log| && Served(log)[i] == (log[i].dport, log[i].buffer)
  {
    if i < |log| - 1 {
      ServedAt(log[..|log| - 1], i);
    } else if i > 0 {
      ServedAt(log[..|log| - 1], 0);
    }
  }

  function Failures(log: seq<Entry>): nat {
    if log == [] then 0
    else Failures(log[..|log| - 1]) + (if log[|log| - 1].answer.Failed? then 1 else 0)
  }

  lemma FailuresSnoc(log: seq<Entry>, e: Entry)
    ensures Failures([]) == 0 && Failures(log + [e]) == Failures(log) + if e.answer.Failed? then 1 else 0
  {
    assert (log + [e])[..|log|] == log;
  }

  /** Each packet of the script was served, once and in its turn, by the one its port has; and the
      error callback, if set, was called for each handler that answered with an error, and for
      nothing else. */
  ghost predicate InTurn(c: Config, w: World, arrivals: seq<(nat, nat)>, w': World) {
    && w.log <= w'.log
    && var since := w'.log[|w.log|..];
       && Served(since) == arrivals
       && w'.errors == w.errors + (if c.callback then Failures(since) else 0)
       && forall i :: 0 <= i < |since| ==> since[i].target == Route(c, since[i].dport)
  }

  lemma DeliverEntry(c: Config, w: World, dport: nat, b: nat) returns (e: Entry)
    requires Deliver(c, w, dport, b).Reached?
    ensures var w' := Deliver(c, w, dport, b).s;
            && w'.log == w.log + [e] && e.dport == dport && e.buffer == b && e.target == Route(c, dport)
            && w'.errors == w.errors + if c.callback && e.answer.Failed? then 1 else 0
  {
    e := Deliver(c, w, dport, b).s.log[|w.log|];
  }

  /** The handler that was asked is that of the port, with the packet just read, and what it did
      and answered is what is recorded. */
  lemma HandlerAsked(c: Config, w: World, dport: nat, b: nat)
    requires Deliver(c, w, dport, b).Reached?
    ensures var w' := Deliver(c, w, dport, b).s;
            var e, p := w'.log[|w.log|], JustRead(w.pool, b);
            && b in w.pool.stack && e.packet == w.pool.next && e.packet in p.live && p.live[e.packet] == b
            && (dport in c.handlers ==>
                  e.steps == c.handlers[dport](p, e.packet).steps &&
                  e.answer == Fine(c.handlers[dport](p, e.packet).answer))
            && (dport !in c.handlers && dport in c.resultHandlers ==>
                  Did(e.steps, e.answer) == c.resultHandlers[dport](p, e.packet))
            && (dport !in c.handlers && dport !in c.resultHandlers ==> e.steps == [])
  {
  }

  lemma InTurnSnoc(c: Config, w: World, arrivals: seq<(nat, nat)>, x: World, e: Entry, y: World)
    requires InTurn(c, w, arrivals, x) && y.log == x.log + [e] && e.target == Route(c, e.dport)
    requires y.errors == x.errors + if c.callback && e.answer.Failed? then 1 else 0
    ensures InTurn(c, w, arrivals + [(e.dport, e.buffer)], y)
  {
    hide Route;
    SliceSnoc(w.log, x.log, e);
    var since := x.log[|w.log|..];
    assert (since + [e])[..|since|] == since;
  }

  lemma {:induction false} ServedInTurn(c: Config, w: World, actions: seq<Action>)
    requires Exec(w, actions, Turn(c)).Reached?
    ensures InTurn(c, w, Arrivals(actions), Exec(w, actions, Turn(c)).s)
  {
    if actions == [] {
      assert w.log[|w.log|..] == [];
    } else {
      hide InTurn, Deliver;
      var n := |actions| - 1;
      ServedInTurn(c, w, actions[..n]);
      var x := Exec(w, actions[..n], Turn(c)).s;
      match actions[n]
      case Elsewhere(op) => InTurnSameLog(c, w, Arrivals(actions[..n]), x, x.(pool := Do(x.pool, op)));
      case Arrive(dport, b) =>
        var e := DeliverEntry(c, x, dport, b);
        InTurnSnoc(c, w, Arrivals(actions[..n]), x, e, Deliver(c, x, dport, b).s);
    }
  }

  lemma InTurnSameLog(c: Config, w: World, arrivals: seq<(nat, nat)>, x: World, y: World)
    requires InTurn(c, w, arrivals, x) && y.log == x.log && y.errors == x.errors
    ensures InTurn(c, w, arrivals + [], y)
  {
    assert arrivals + [] == arrivals;
  }

  // ---------------------------------------------------------------- nothing left behind

  /** A handler that ends with the handles and raw pointers it found, but for its reply; and a
      world that meanwhile touches none of them. */
  predicate Tidy(w: World, a: Action, w': World) {
    match a
    case Elsewhere(op) => op.StackGet? || op.StackFree?
    case Arrive(_, b) =>
      b in w.pool.stack && w'.log != [] &&
      var e, read := w'.log[|w'.log| - 1], JustRead(w.pool, b);
      e.target.Service? || e.target.Nobody? ||
      match Exec(read, e.steps, Next)
      case Stuck => false
      case Reached(p) =>
        p.loose == w.pool.loose &&
        match e.answer
        case Fine(ReplyWith(h)) => p.live - {h} == w.pool.live && h !in w.pool.live
        case _ => p.live == w.pool.live
  }

  function TidyTurn(c: Config): (World, Action) -> Outcome<World> {
    (w: World, a: Action) =>
      match Turn(c)(w, a)
      case Stuck => Stuck
      case Reached(w') => if Tidy(w, a, w') then Reached(w') else Stuck
  }

  lemma TidyTurnKeeps(c: Config, w: World, a: Action)
    requires Valid(w.pool) && TidyTurn(c)(w, a).Reached?
    ensures var p' := TidyTurn(c)(w, a).s.pool;
            Valid(p') && p'.live == w.pool.live && p'.loose == w.pool.loose
  {
    var w' := Turn(c)(w, a).s;
    match a
    case Elsewhere(op) => DoKeeps(w.pool, op);
    case Arrive(dport, b) =>
      RunsOwnPart(c, w, dport, b);
      DeliverIsRun(c, w, dport, b);
      RunConserves(w.pool, Trace(w'.log[|w.log|]));
  }

  /** With tidy handlers `run` leaks nothing and takes nothing: however many packets came, the
      program ends with exactly the handles and raw pointers it had. */
  lemma TidyRunsLeakNothing(c: Config, w: World, actions: seq<Action>)
    requires Valid(w.pool) && Exec(w, actions, TidyTurn(c)).Reached?
    ensures var p' := Exec(w, actions, TidyTurn(c)).s.pool;
            p'.live == w.pool.live && p'.loose == w.pool.loose
  {
    ghost var inv := (x: World) => Valid(x.pool) && x.pool.live == w.pool.live && x.pool.loose == w.pool.loose;
    hide Valid, TidyTurn;
    forall x, a | inv(x) && TidyTurn(c)(x, a).Reached?
      ensures inv(TidyTurn(c)(x, a).s)
    {
      TidyTurnKeeps(c, x, a);
    }
    ExecKeeps(w, actions, TidyTurn(c), inv);
  }

  // ---------------------------------------------------------------- buffers come round

  function EchoHandler(): Handler {
    (p: Pool, h: nat) => Did([], ReplyWith(h))
  }

  lemma EchoStep(c: Config, w: World, dport: nat, b: nat)
    requires Valid(w.pool) && b in w.pool.stack
    requires dport in c.handlers && c.handlers[dport] == EchoHandler()
    ensures Deliver(c, w, dport, b).Reached?
    ensures var p' := Deliver(c, w, dport, b).s.pool;
            && Valid(p') && p'.stack == w.pool.stack && p'.live == w.pool.live
            && p'.calls == w.pool.calls + [Taken(b), Given(b)]
  {
    var read := JustRead(w.pool, b);
    ReadShape(w.pool, b);
    SendShape(read, w.pool.next);
    RunConserves(read, Sending(read, w.pool.next));
    assert w.pool.calls + [Taken(b)] + [Given(b)] == w.pool.calls + [Taken(b), Given(b)];
  }

  lemma EchoIsTidy(c: Config, w: World, dport: nat, b: nat)
    requires Valid(w.pool) && b in w.pool.stack
    requires dport in c.handlers && c.handlers[dport] == EchoHandler()
    ensures TidyTurn(c)(w, Arrive(dport, b)).Reached?
  {
    var read, h := JustRead(w.pool, b), w.pool.next;
    ReadShape(w.pool, b);
    EchoStep(c, w, dport, b);
    var e := DeliverEntry(c, w, dport, b);
    HandlerAsked(c, w, dport, b);
    assert Exec(read, e.steps, Next) == Reached(read) by { DroppingIs(read, h); }
    var w' := Deliver(c, w, dport, b).s;
    assert w'.log[|w'.log| - 1] == e && w'.log[|w.log|] == e;
    assert e.steps == [] && read.loose == w.pool.loose;
    assert e.answer == Fine(ReplyWith(h));
    assert h !in w.pool.live;
    assert read.live - {h} == w.pool.live;
    assert Turn(c)(w, Arrive(dport, b)) == Reached(w') && Tidy(w, Arrive(dport, b), w');
  }

  /** Runs have no bound: with an echo handler one and the same buffer can bring any number of
      packets, each of them answered. */
  lemma {:induction false} EchoForever(c: Config, w: World, dport: nat, b: nat, n: nat)
    requires Valid(w.pool) && b in w.pool.stack
    requires dport in c.handlers && c.handlers[dport] == EchoHandler()
    ensures var end := Exec(w, seq(n, i => Arrive(dport, b)), Turn(c));
            && end.Reached? && Valid(end.s.pool) && end.s.pool.stack == w.pool.stack && end.s.pool.live == w.pool.live
            && |end.s.pool.calls| == |w.pool.calls| + 2 * n
  {
    if n > 0 {
      var actions := seq(n, i => Arrive(dport, b));
      EchoForever(c, w, dport, b, n - 1);
      hide Valid, Deliver;
      assert actions[..n - 1] == seq(n - 1, i => Arrive(dport, b));
      EchoStep(c, Exec(w, actions[..n - 1], Turn(c)).s, dport, b);
    }
  }

  // ---------------------------------------------------------------- the code

  /** A packet to come: what goes on elsewhere first, and the buffer C then hands over. */
  datatype Arrival = Arrival(elsewhere: seq<Op>, buffer: nat)

  /** One accepted connection, up to the read that times out. */
  datatype Conn = Conn(dport: nat, arrivals: seq<Arrival>)

  function Meanwhile(ops: seq<Op>): (r: seq<Action>)
    ensures |r| == |ops| && forall i :: 0 <= i < |ops| ==> r[i] == Elsewhere(ops[i])
  {
    seq(|ops|, i requires 0 <= i < |ops| => Elsewhere(ops[i]))
  }

  /** The first `j` packets of a connection. */
  function OnConn(conn: Conn, j: nat): seq<Action>
    requires j <= |conn.arrivals|
  {
    if j == 0 then []
    else
      var a := conn.arrivals[j - 1];
      OnConn(conn, j - 1) + (Meanwhile(a.elsewhere) + [Arrive(conn.dport, a.buffer)])
  }

  /** The first `i` connections. */
  function Script(conns: seq<Conn>, i: nat): seq<Action>
    requires i <= |conns|
  {
    if i == 0 then [] else Script(conns, i - 1) + OnConn(conns[i - 1], |conns[i - 1].arrivals|)
  }

  lemma {:induction false} OnConnPrefix(conn: Conn, j: nat, k: nat)
    requires j <= k <= |conn.arrivals|
    ensures OnConn(conn, j) <= OnConn(conn, k)
  {
    if j < k {
      OnConnPrefix(conn, j, k - 1);
    }
  }

  lemma {:induction false} ScriptPrefix(conns: seq<Conn>, i: nat, k: nat)
    requires i <= k <= |conns|
    ensures Script(conns, i) <= Script(conns, k)
  {
    if i < k {
      ScriptPrefix(conns, i, k - 1);
    }
  }

  /** Where the two loops stand after `j` packets of connection `i`. */
  function Before(conns: seq<Conn>, i: nat, j: nat): seq<Action>
    requires i < |conns| && j <= |conns[i].arrivals|
  {
    Script(conns, i) + OnConn(conns[i], j)
  }

  lemma BeforePrefix(conns: seq<Conn>, i: nat, j: nat)
    requires i < |conns| && j <= |conns[i].arrivals|
    ensures Before(conns, i, j) <= Script(conns, |conns|)
  {
    OnConnPrefix(conns[i], j, |conns[i].arrivals|);
    ScriptPrefix(conns, i + 1, |conns|);
  }

  lemma PrefixRuns(c: Config, w: World, actions: seq<Action>, all: seq<Action>)
    requires actions <= all && Exec(w, all, Turn(c)).Reached?
    ensures Exec(w, actions, Turn(c)).Reached?
  {
    ExecPrefix(w, all, |actions|, Turn(c));
    assert all[..|actions|] == actions;
  }

  /** Elsewhere only the pool moves. */
  lemma {:induction false} MeanwhileIs(c: Config, w: World, ops: seq<Op>)
    ensures Exec(w, Meanwhile(ops), Turn(c)) ==
            match Exec(w.pool, ops, Next) case Stuck => Stuck case Reached(p) => Reached(w.(pool := p))
  {
    if ops != [] {
      var n := |ops| - 1;
      assert Meanwhile(ops)[..n] == Meanwhile(ops[..n]);
      MeanwhileIs(c, w, ops[..n]);
    }
  }

  lemma MeanwhileThenArrive(c: Config, w: World, a: Arrival, dport: nat)
    ensures Exec(w, Meanwhile(a.elsewhere) + [Arrive(dport, a.buffer)], Turn(c)) ==
            match Exec(w.pool, a.elsewhere, Next)
            case Stuck => Stuck
            case Reached(p) => Deliver(c, w.(pool := p), dport, a.buffer)
  {
    hide Deliver, Exec;
    MeanwhileIs(c, w, a.elsewhere);
    ExecSnoc(w, Meanwhile(a.elsewhere), Arrive(dport, a.buffer), Turn(c));
  }

  /** One more packet. */
  lemma BeforeStep(c: Config, w: World, conns: seq<Conn>, i: nat, j: nat, x: World)
    requires i < |conns| && j < |conns[i].arrivals|
    requires Exec(w, Script(conns, |conns|), Turn(c)).Reached?
    requires Exec(w, Before(conns, i, j), Turn(c)) == Reached(x)
    ensures var conn := conns[i];
            var p := Exec(x.pool, conn.arrivals[j].elsewhere, Next);
            && p.Reached?
            && Deliver(c, x.(pool := p.s), conn.dport, conn.arrivals[j].buffer).Reached?
            && Exec(w, Before(conns, i, j + 1), Turn(c))
               == Deliver(c, x.(pool := p.s), conn.dport, conn.arrivals[j].buffer)
  {
    hide Deliver, Exec, Script, Turn;
    var conn, a := conns[i], conns[i].arrivals[j];
    BeforePrefix(conns, i, j + 1);
    PrefixRuns(c, w, Before(conns, i, j + 1), Script(conns, |conns|));
    var more := Meanwhile(a.elsewhere) + [Arrive(conn.dport, a.buffer)];
    BeforeNext(conns, i, j);
    ExecConcat(w, Before(conns, i, j), more, Turn(c));
    MeanwhileThenArrive(c, x, a, conn.dport);
  }

  lemma BeforeNext(conns: seq<Conn>, i: nat, j: nat)
    requires i < |conns| && j < |conns[i].arrivals|
    ensures var conn, a := conns[i], conns[i].arrivals[j];
            Before(conns, i, j + 1) == Before(conns, i, j) + (Meanwhile(a.elsewhere) + [Arrive(conn.dport, a.buffer)])
  {
  }

  lemma BeforeEnds(conns: seq<Conn>, i: nat)
    requires i < |conns|
    ensures Before(conns, i, 0) == Script(conns, i)
    ensures Before(conns, i, |conns[i].arrivals|) == Script(conns, i + 1)
  {
  }

  /** The packets a script holds: those of its connections, one after another. */
  lemma {:induction false} ArrivalsConcat(a: seq<Action>, b: seq<Action>)
    ensures Arrivals(a + b) == Arrivals(a) + Arrivals(b)
  {
    if b == [] {
      assert a + b == a;
    } else {
      assert (a + b)[..|a + b| - 1] == a + b[..|b| - 1];
      ArrivalsConcat(a, b[..|b| - 1]);
    }
  }

  lemma {:induction false} NoArrivalsMeanwhile(ops: seq<Op>)
    ensures Arrivals(Meanwhile(ops)) == []
  {
    if ops != [] {
      assert Meanwhile(ops)[..|ops| - 1] == Meanwhile(ops[..|ops| - 1]);
      NoArrivalsMeanwhile(ops[..|ops| - 1]);
    }
  }

  lemma {:induction false} ArrivalsOnConn(conn: Conn, j: nat)
    requires j <= |conn.arrivals|
    ensures |Arrivals(OnConn(conn, j))| == j
    ensures forall i :: 0 <= i < j ==> Arrivals(OnConn(conn, j))[i] == (conn.dport, conn.arrivals[i].buffer)
  {
    if j > 0 {
      var a := conn.arrivals[j - 1];
      ArrivalsOnConn(conn, j - 1);
      var arrive := Arrive(conn.dport, a.buffer);
      assert Arrivals([arrive]) == [(conn.dport, a.buffer)] by { assert [arrive][..0] == []; }
      NoArrivalsMeanwhile(a.elsewhere);
      ArrivalsConcat(Meanwhile(a.elsewhere), [arrive]);
      ArrivalsConcat(OnConn(conn, j - 1), Meanwhile(a.elsewhere) + [arrive]);
      hide Arrivals;
    }
  }

  lemma ArrivalsOfScript(conns: seq<Conn>, i: nat)
    requires i < |conns|
    ensures Arrivals(Script(conns, 0)) == []
    ensures Arrivals(Script(conns, i + 1))
         == Arrivals(Script(conns, i))
            + seq(|conns[i].arrivals|, j requires 0 <= j < |conns[i].arrivals| =>
                    (conns[i].dport, conns[i].arrivals[j].buffer))
  {
    ArrivalsOnConn(conns[i], |conns[i].arrivals|);
    ArrivalsConcat(Script(conns, i), OnConn(conns[i], |conns[i].arrivals|));
    hide OnConn;
  }

  class Dispatcher {
    var ports: set<nat>
    var handlers: map<nat, Handler>
    var resultHandlers: map<nat, ResultHandler>
    var errorCallback: bool       // is one set?
    var errors: nat               // how often it was called
    ghost var log: seq<Entry>

    function Current(): Config
      reads this
    {
      Config(handlers, resultHandlers, errorCallback)
    }

    function Tables(): Registry
      reads this
    {
      Registry(ports, handlers, resultHandlers)
    }

    ghost function State(rt: Runtime): World
      reads this, rt
    {
      World(rt.pool, log, errors)
    }

    constructor ()
      ensures Tables() == EMPTY_REGISTRY && !errorCallback && log == [] && errors == 0
    {
      ports, handlers, resultHandlers, errorCallback := {}, map[], map[], false;
      log, errors := [], 0;
    }

    method OnError()
      modifies this`errorCallback
      ensures errorCallback
    {
      errorCallback := true;
    }

    /** `Socket::bind`: binds, then listens; the first may succeed and the second fail. */
    method Bind(port: nat, a: Answers) returns (ok: bool)
      modifies this`ports
      ensures ok <==> a.bound && a.listening
      ensures ports == if a.bound then old(ports) + {port} else old(ports)
    {
      if !a.bound {
        return false;
      }
      ports := ports + {port};
      ok := a.listening;
    }

    method Register(port: nat, handler: Handler, a: Answers) returns (ok: bool)
      requires Exclusive(Tables()) && MayAnswer(Tables(), port, a)
      modifies this`ports, this`handlers
      ensures Tables() == Registered(old(Tables()), Plain(port, handler), a) && (ok <==> a.bound && a.listening)
      ensures Exclusive(Tables()) && Extends(old(Tables()), Tables())
      ensures ok ==> port !in old(handlers) && port !in old(resultHandlers)
      ensures handlers == if ok then old(handlers)[port := handler] else old(handlers)
    {
      RegisteredKeeps(Tables(), Plain(port, handler), a);
      ok := Bind(port, a);
      if ok {
        handlers := handlers[port := handler];
      }
    }

    method RegisterWithResult(port: nat, handler: ResultHandler, a: Answers) returns (ok: bool)
      requires Exclusive(Tables()) && MayAnswer(Tables(), port, a)
      modifies this`ports, this`resultHandlers
      ensures Tables() == Registered(old(Tables()), Fallible(port, handler), a) && (ok <==> a.bound && a.listening)
      ensures Exclusive(Tables()) && Extends(old(Tables()), Tables())
      ensures ok ==> port !in old(handlers) && port !in old(resultHandlers)
      ensures resultHandlers == if ok then old(resultHandlers)[port := handler] else old(resultHandlers)
    {
      RegisteredKeeps(Tables(), Fallible(port, handler), a);
      ok := Bind(port, a);
      if ok {
        resultHandlers := resultHandlers[port := handler];
      }
    }

    method BindService(port: nat, a: Answers) returns (ok: bool)
      requires Exclusive(Tables()) && MayAnswer(Tables(), port, a)
      modifies this`ports
      ensures Tables() == Registered(old(Tables()), BuiltIn(port), a) && (ok <==> a.bound && a.listening)
      ensures Exclusive(Tables()) && Extends(old(Tables()), Tables())
    {
      RegisteredKeeps(Tables(), BuiltIn(port), a);
      ok := Bind(port, a);
    }

    /** The body of the inner loop, from a packet just read on. `moved` is what the compiler keeps
        track of: a packet nobody was given is dropped at the end. */
    method Handle(rt: Runtime, dport: nat, b: nat, packet: nat)
      requires Valid(rt.pool) && Settle(Current(), State(rt), dport, b, packet).Reached?
      modifies rt, this`log, this`errors
      ensures Reached(State(rt)) == Settle(old(Current()), old(State(rt)), dport, b, packet)
      ensures Valid(rt.pool)
    {
      hide Exec, Valid, Can, Do, Sending;
      var target, did, moved := Nobody, Did([], Fine(NoReply)), false;
      ghost var p := rt.pool;
      SendingIs(p, packet);
      DroppingIs(p, packet);
      if dport in handlers {
        var d := handlers[dport](rt.pool, packet);
        target, did, moved := Regular, Did(d.steps, Fine(d.answer)), true;
        rt.Happen(d.steps);
        p := rt.pool;
        DroppingIs(p, packet);
        if d.answer.ReplyWith? {
          SendingIs(p, d.answer.h);
          rt.Send(d.answer.h);
        }
      } else if dport in resultHandlers {
        target, did, moved := WithResult, resultHandlers[dport](rt.pool, packet), true;
        rt.Happen(did.steps);
        p := rt.pool;
        DroppingIs(p, packet);
        match did.answer
        case Fine(ReplyWith(h)) =>
          SendingIs(p, h);
          rt.Send(h);
        case Fine(NoReply) =>
        case Failed =>
          if errorCallback {
            errors := errors + 1;
          }
      } else if dport <= LAST_SERVICE_PORT {
        target, moved := Service, true;
        rt.Send(packet);
      }
      if !moved {
        rt.ScopeEnd(packet);
      }
      log := log + [Entry(dport, b, packet, target, did.steps, did.answer, Own(target, p, packet, did.answer))];
    }

    /** One turn of the inner loop: what goes on elsewhere, the read, and the handling. */
    method OnePacket(rt: Runtime, dport: nat, a: Arrival)
      requires Valid(rt.pool)
      requires var p := Exec(rt.pool, a.elsewhere, Next);
               p.Reached? && Deliver(Current(), State(rt).(pool := p.s), dport, a.buffer).Reached?
      modifies rt, this`log, this`errors
      ensures Reached(State(rt)) ==
              Deliver(old(Current()), old(State(rt)).(pool := Exec(old(rt.pool), a.elsewhere, Next).s), dport, a.buffer)
      ensures Valid(rt.pool)
    {
      hide Valid, Exec, Deliver, Settle, Can, Do;
      rt.Happen(a.elsewhere);
      ReadPossible(Current(), State(rt), dport, a.buffer);
      var packet, _ := rt.ReadPacket(At(a.buffer));
      Handle(rt, dport, a.buffer, packet);
    }

    /** `run`: accept each connection in turn and handle its packets one by one, whatever goes on
        beside it, until nothing comes. */
    method Run(rt: Runtime, conns: seq<Conn>)
      requires Valid(rt.pool) && Exec(State(rt), Script(conns, |conns|), Turn(Current())).Reached?
      modifies rt, this`log, this`errors
      ensures Reached(State(rt)) == Exec(old(State(rt)), Script(conns, |conns|), Turn(old(Current())))
      ensures Safe(old(rt.pool), rt.pool)
      ensures InTurn(old(Current()), old(State(rt)), Arrivals(Script(conns, |conns|)), State(rt))
    {
      hide Valid, Safe, InTurn, Arrivals, Turn, Exec, Deliver, Script, Before;
      ghost var c, w := Current(), State(rt);
      ServeIsSafe(c, w, Script(conns, |conns|));
      ServedInTurn(c, w, Script(conns, |conns|));
      NothingYet(c, w, conns);
      for i := 0 to |conns|
        invariant Current() == c && Valid(rt.pool)
        invariant Exec(w, Script(conns, i), Turn(c)) == Reached(State(rt))
      {
        var conn := conns[i];
        BeforeEnds(conns, i);
        for j := 0 to |conn.arrivals|
          invariant Current() == c && Valid(rt.pool)
          invariant Exec(w, Before(conns, i, j), Turn(c)) == Reached(State(rt))
        {
          BeforeStep(c, w, conns, i, j, State(rt));
          OnePacket(rt, conn.dport, conn.arrivals[j]);
        }
        var _, more := rt.ReadPacket(Null);
      }
    }
  }

  lemma NothingYet(c: Config, w: World, conns: seq<Conn>)
    ensures Exec(w, Script(conns, 0), Turn(c)) == Reached(w)
  {
  }

  lemma ReadPossible(c: Config, w: World, dport: nat, b: nat)
    requires Deliver(c, w, dport, b).Reached?
    ensures b in w.pool.stack && Can(w.pool, Take(b)) && Can(Do(w.pool, Take(b)), FromRaw(b))
    ensures Deliver(c, w, dport, b)
         == Settle(c, w.(pool := Do(Do(w.pool, Take(b)), FromRaw(b))), dport, b, w.pool.next)
  {
  }
}
