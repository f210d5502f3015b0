/** Who owns which pool buffer: `Packet` handles with their destructor, raw pointers, and the C
    side; every buffer is in one place over every run, and is freed once for each time it is got. */
module BufferPool {
  import opened Bytes
  import opened Runs

  /** What passes between the program and the C library, and what C does with the pool itself. */
  datatype Call =
    | Got(b: nat)           // csp_buffer_get answered `b`
    | Freed(b: nat)         // csp_buffer_free(b)
    | Given(b: nat)         // csp_send(b), csp_service_handler(b) and the like
    | Taken(b: nat)         // csp_read or csp_recvfrom answered `b`
    | StackGot(b: nat)      // a driver takes a buffer for an incoming frame
    | StackFreed(b: nat)    // C is done with a buffer

  /** The pool's free buffers, those C holds, those the program holds by a raw pointer, and those
      wrapped in a live `Packet`, by handle; the next handle; and all calls so far. */
  datatype Pool = Pool(free: set<nat>, stack: set<nat>, loose: set<nat>, live: map<nat, nat>,
                       next: nat, calls: seq<Call>)

  /** A pool of these buffers at start-up. */
  function NewPool(buffers: set<nat>): Pool {
    Pool(buffers, {}, {}, map[], 0, [])
  }

  function All(p: Pool): set<nat> {
    p.free + p.stack + p.loose + p.live.Values
  }

  /** The four kinds of places do not overlap, and no two handles wrap one buffer. */
  ghost predicate Valid(p: Pool) {
    && p.free !! p.stack && p.free !! p.loose && p.stack !! p.loose
    && p.live.Values !! p.free + p.stack + p.loose
    && (forall h, k :: h in p.live && k in p.live && h != k ==> p.live[h] != p.live[k])
    && (forall h :: h in p.live ==> h < p.next)
  }

  // ---------------------------------------------------------------- steps

  datatype Op =
    | Get(b: nat)           // Packet::get, when the pool gives out `b`
    | IntoRaw(h: nat)       // Packet::into_raw
    | FromRaw(b: nat)       // Packet::from_raw
    | Drop(h: nat)          // a handle goes out of scope
    | Give(b: nat)          // a raw pointer is passed to C for good
    | Take(b: nat)          // C hands one over
    | StackGet(b: nat)
    | StackFree(b: nat)

  /** Rust lets code move or drop a handle only while it is live; `from_raw` may be used on a raw
      pointer that is owned; of C it is assumed that it frees and hands over only what it holds.
      Where a handle's buffer may be is not asked. */
  predicate Can(p: Pool, op: Op) {
    match op
    case Get(b) => b in p.free
    case IntoRaw(h) => h in p.live
    case FromRaw(b) => b in p.loose
    case Drop(h) => h in p.live
    case Give(b) => b in p.loose
    case Take(b) => b in p.stack
    case StackGet(b) => b in p.free
    case StackFree(b) => b in p.stack
  }

  /** A live handle can always be dropped or unwrapped, a raw pointer wrapped or given to C; the
      pool gives out any free buffer, to either side, and C frees or hands over any it holds. */
  lemma Possible(p: Pool, h: nat, b: nat)
    ensures h in p.live ==> Can(p, Drop(h)) && Can(p, IntoRaw(h))
    ensures b in p.loose ==> Can(p, FromRaw(b)) && Can(p, Give(b))
    ensures b in p.free ==> Can(p, Get(b)) && Can(p, StackGet(b))
    ensures b in p.stack ==> Can(p, Take(b)) && Can(p, StackFree(b))
  {
  }

  function Do(p: Pool, op: Op): Pool
    requires Can(p, op)
  {
    match op
    case Get(b) =>
      p.(free := p.free - {b}, live := p.live[p.next := b], next := p.next + 1, calls := p.calls + [Got(b)])
    case IntoRaw(h) => p.(live := p.live - {h}, loose := p.loose + {p.live[h]})
    case FromRaw(b) => p.(loose := p.loose - {b}, live := p.live[p.next := b], next := p.next + 1)
    case Drop(h) =>
      p.(live := p.live - {h}, free := p.free + {p.live[h]}, calls := p.calls + [Freed(p.live[h])])
    case Give(b) => p.(loose := p.loose - {b}, stack := p.stack + {b}, calls := p.calls + [Given(b)])
    case Take(b) => p.(stack := p.stack - {b}, loose := p.loose + {b}, calls := p.calls + [Taken(b)])
    case StackGet(b) => p.(free := p.free - {b}, stack := p.stack + {b}, calls := p.calls + [StackGot(b)])
    case StackFree(b) => p.(stack := p.stack - {b}, free := p.free + {b}, calls := p.calls + [StackFreed(b)])
  }

  function Next(p: Pool, op: Op): Outcome<Pool> {
    if Can(p, op) then Reached(Do(p, op)) else Stuck
  }

  lemma ValuesAdd(live: map<nat, nat>, h: nat, b: nat)
    requires h !in live
    ensures live[h := b].Values == live.Values + {b}
  {
    assert live[h := b][h] == b;
    forall k | k in live ensures live[k] in live[h := b].Values { assert live[h := b][k] == live[k]; }
  }

  lemma ValuesRemove(live: map<nat, nat>, h: nat)
    requires h in live && forall k :: k in live && k != h ==> live[k] != live[h]
    ensures (live - {h}).Values == live.Values - {live[h]}
  {
    forall k | k in live && k != h ensures live[k] in (live - {h}).Values { assert (live - {h})[k] == live[k]; }
  }

  lemma DoKeeps(p: Pool, op: Op)
    requires Valid(p) && Can(p, op)
    ensures Valid(Do(p, op)) && All(Do(p, op)) == All(p)
  {
    match op
    case Get(b) => ValuesAdd(p.live, p.next, b);
    case FromRaw(b) => ValuesAdd(p.live, p.next, b);
    case IntoRaw(h) => ValuesRemove(p.live, h);
    case Drop(h) => ValuesRemove(p.live, h);
    case _ =>
  }

  /** Over every run, of any program and with any doings of the C side, no buffer is lost, made up
      or owned twice. */
  lemma RunConserves(p: Pool, ops: seq<Op>)
    requires Valid(p) && Exec(p, ops, Next).Reached?
    ensures Valid(Exec(p, ops, Next).s) && All(Exec(p, ops, Next).s) == All(p)
  {
    hide Valid, All, Can, Do;
    forall x, op | Valid(x) && Next(x, op).Reached?
      ensures Valid(Next(x, op).s) && All(Next(x, op).s) == All(x)
    {
      DoKeeps(x, op);
    }
    ExecKeeps(p, ops, Next, (x: Pool) => Valid(x) && All(x) == All(p));
  }

  // ---------------------------------------------------------------- the life of one buffer

  datatype Place = Pooled | WithProgram | WithStack

  ghost function PlaceOf(p: Pool, b: nat): Place {
    if b in p.free then Pooled else if b in p.stack then WithStack else WithProgram
  }

  /** How a call moves buffer `b`; there is no way on from a call made where `b` is elsewhere, such
      as freeing a free buffer or sending one that C already has. */
  function Move(b: nat): (Place, Call) -> Outcome<Place> {
    (place: Place, call: Call) =>
      if call.b != b then Reached(place)
      else match call
        case Got(_) => if place.Pooled? then Reached(WithProgram) else Stuck
        case Freed(_) => if place.WithProgram? then Reached(Pooled) else Stuck
        case Given(_) => if place.WithProgram? then Reached(WithStack) else Stuck
        case Taken(_) => if place.WithStack? then Reached(WithProgram) else Stuck
        case StackGot(_) => if place.Pooled? then Reached(WithStack) else Stuck
        case StackFreed(_) => if place.WithStack? then Reached(Pooled) else Stuck
  }

  /** The calls made since `p` lead `b` legally from where it was to where it is. */
  ghost predicate Followed(p: Pool, b: nat, x: Pool) {
    && p.calls <= x.calls
    && Exec(PlaceOf(p, b), x.calls[|p.calls|..], Move(b)) == Reached(PlaceOf(x, b))
  }

  lemma DoMoves(x: Pool, op: Op, b: nat)
    requires Valid(x) && Can(x, op) && b in All(x)
    ensures var y := Do(x, op);
            || (y.calls == x.calls && PlaceOf(y, b) == PlaceOf(x, b))
            || exists c :: y.calls == x.calls + [c] && Move(b)(PlaceOf(x, b), c) == Reached(PlaceOf(y, b))
  {
    var y := Do(x, op);
    if !op.IntoRaw? && !op.FromRaw? {
      assert y.calls == x.calls + [y.calls[|x.calls|]];
    }
  }

  lemma DoFollows(p: Pool, b: nat, x: Pool, op: Op)
    requires Valid(x) && Can(x, op) && b in All(x) && Followed(p, b, x)
    ensures Followed(p, b, Do(x, op))
  {
    hide Valid, Can, All, PlaceOf, Move;
    DoMoves(x, op, b);
    var y := Do(x, op);
    hide Do;
    if y.calls != x.calls {
      var c :| y.calls == x.calls + [c] && Move(b)(PlaceOf(x, b), c) == Reached(PlaceOf(y, b));
      SliceSnoc(p.calls, x.calls, c);
      ExecSnoc(PlaceOf(p, b), x.calls[|p.calls|..], c, Move(b));
    }
  }

  /** Over every run each buffer goes only where the calls take it, and never is a call made on a
      buffer that is somewhere else. */
  lemma RunFollows(p: Pool, ops: seq<Op>, b: nat)
    requires Valid(p) && b in All(p) && Exec(p, ops, Next).Reached?
    ensures Followed(p, b, Exec(p, ops, Next).s)
  {
    ghost var inv := (x: Pool) => Valid(x) && b in All(x) && Followed(p, b, x);
    hide Valid, All, Can, Do;
    assert Followed(p, b, p) by { assert p.calls[|p.calls|..] == []; }
    hide Followed;
    forall x, op | inv(x) && Next(x, op).Reached?
      ensures inv(Next(x, op).s)
    {
      DoKeeps(x, op);
      DoFollows(p, b, x, op);
    }
    ExecKeeps(p, ops, Next, inv);
  }

  predicate Frees(c: Call, b: nat) {
    c == Freed(b) || c == StackFreed(b)
  }

  predicate Gets(c: Call, b: nat) {
    c == Got(b) || c == StackGot(b)
  }

  /** A pooled buffer stays pooled until it is got. */
  lemma {:induction false} StaysPooled(calls: seq<Call>, b: nat)
    requires Exec(Pooled, calls, Move(b)).Reached? && forall k :: 0 <= k < |calls| ==> !Gets(calls[k], b)
    ensures Exec(Pooled, calls, Move(b)) == Reached(Pooled)
  {
    if calls != [] {
      StaysPooled(calls[..|calls| - 1], b);
    }
  }

  /** A free finds the buffer out of the pool and leaves it pooled. */
  lemma FreeAt(start: Place, calls: seq<Call>, b: nat, i: nat)
    requires Exec(start, calls, Move(b)).Reached? && i < |calls| && Frees(calls[i], b)
    ensures Exec(start, calls[..i], Move(b)).Reached? && !Exec(start, calls[..i], Move(b)).s.Pooled?
    ensures Exec(start, calls[..i + 1], Move(b)) == Reached(Pooled)
  {
    ExecPrefix(start, calls, i + 1, Move(b));
    hide Exec;
    assert calls[..i + 1] == calls[..i] + [calls[i]];
    ExecSnoc(start, calls[..i], calls[i], Move(b));
  }

  /** Calls that a buffer follows free it once for each time it is got. */
  lemma FreedOnce(start: Place, calls: seq<Call>, b: nat, i: nat, j: nat)
    requires Exec(start, calls, Move(b)).Reached?
    requires i < j < |calls| && Frees(calls[i], b) && Frees(calls[j], b)
    ensures exists k :: i < k < j && Gets(calls[k], b)
  {
    hide Exec, Move, Frees, Gets;
    FreeAt(start, calls, b, i);
    FreeAt(start, calls, b, j);
    var head, mid := calls[..i + 1], calls[i + 1..j];
    assert calls[..j] == head + mid;
    ExecConcat(start, head, mid, Move(b));
    if forall k :: i < k < j ==> !Gets(calls[k], b) {
      forall k | 0 <= k < |mid|
        ensures !Gets(mid[k], b)
      {
        assert mid[k] == calls[i + 1 + k];
      }
      StaysPooled(mid, b);
      assert false;
    }
  }

  /** A buffer the program gave up is not the program's again before it was handed back. */
  lemma {:induction false} StaysAway(place: Place, calls: seq<Call>, b: nat)
    requires !place.WithProgram? && Exec(place, calls, Move(b)).Reached?
    requires forall k :: 0 <= k < |calls| ==> calls[k] != Got(b) && calls[k] != Taken(b)
    ensures !Exec(place, calls, Move(b)).s.WithProgram?
  {
    if calls != [] {
      StaysAway(place, calls[..|calls| - 1], b);
    }
  }

  predicate GivesUp(c: Call, b: nat) {
    c == Freed(b) || c == Given(b)
  }

  lemma GiveAt(start: Place, calls: seq<Call>, b: nat, i: nat)
    requires Exec(start, calls, Move(b)).Reached? && i < |calls| && GivesUp(calls[i], b)
    ensures Exec(start, calls[..i], Move(b)) == Reached(WithProgram)
    ensures Exec(start, calls[..i + 1], Move(b)).Reached? && !Exec(start, calls[..i + 1], Move(b)).s.WithProgram?
  {
    ExecPrefix(start, calls, i + 1, Move(b));
    hide Exec;
    assert calls[..i + 1] == calls[..i] + [calls[i]];
    ExecSnoc(start, calls[..i], calls[i], Move(b));
  }

  /** So the program gives up a buffer, by freeing or sending it, once for each time it got it or
      was handed it: nothing is sent after it was freed or sent, nor freed after it was sent. */
  lemma GivenUpOnce(start: Place, calls: seq<Call>, b: nat, i: nat, j: nat)
    requires Exec(start, calls, Move(b)).Reached?
    requires i < j < |calls| && GivesUp(calls[i], b) && GivesUp(calls[j], b)
    ensures exists k :: i < k < j && (calls[k] == Got(b) || calls[k] == Taken(b))
  {
    hide Exec, Move, GivesUp;
    GiveAt(start, calls, b, i);
    GiveAt(start, calls, b, j);
    var head, mid := calls[..i + 1], calls[i + 1..j];
    assert calls[..j] == head + mid;
    ExecConcat(start, head, mid, Move(b));
    if forall k :: i < k < j ==> calls[k] != Got(b) && calls[k] != Taken(b) {
      forall k | 0 <= k < |mid|
        ensures mid[k] != Got(b) && mid[k] != Taken(b)
      {
        assert mid[k] == calls[i + 1 + k];
      }
      StaysAway(Exec(start, head, Move(b)).s, mid, b);
      assert false;
    }
  }

  /** How often the program was handed `b`, and how often it gave it up. */
  function Gained(calls: seq<Call>, b: nat): nat {
    if calls == [] then 0
    else
      var n := |calls| - 1;
      Gained(calls[..n], b) + if calls[n] == Got(b) || calls[n] == Taken(b) then 1 else 0
  }

  function GivenUp(calls: seq<Call>, b: nat): nat {
    if calls == [] then 0
    else
      var n := |calls| - 1;
      GivenUp(calls[..n], b) + if calls[n] == Freed(b) || calls[n] == Given(b) then 1 else 0
  }

  function Owns(place: Place): nat {
    if place.WithProgram? then 1 else 0
  }

  /** The ledger of one buffer: the program owns what it owned and was handed, less what it gave
      up. */
  lemma {:induction false} Ledger(start: Place, calls: seq<Call>, b: nat)
    requires Exec(start, calls, Move(b)).Reached?
    ensures Owns(Exec(start, calls, Move(b)).s) + GivenUp(calls, b) == Owns(start) + Gained(calls, b)
  {
    if calls != [] {
      Ledger(start, calls[..|calls| - 1], b);
    }
  }

  /** Free, or C's, or a raw pointer's, or one handle's, and only one of these. */
  ghost predicate InOnePlace(p: Pool, b: nat) {
    && (b in p.free || b in p.stack || b in p.loose || exists h :: h in p.live && p.live[h] == b)
    && !(b in p.free && b in p.stack) && !(b in p.free && b in p.loose) && !(b in p.stack && b in p.loose)
    && (forall h :: h in p.live && p.live[h] == b ==> b !in p.free && b !in p.stack && b !in p.loose)
    && (forall h, k :: h in p.live && k in p.live && p.live[h] == b && p.live[k] == b ==> h == k)
  }

  lemma OnePlace(p: Pool, b: nat)
    requires Valid(p) && b in All(p)
    ensures InOnePlace(p, b)
  {
    forall h | h in p.live && p.live[h] == b
      ensures b in p.live.Values
    {
    }
  }

  /** Exactly one place, and exactly-once free, over every run from start-up. */
  lemma ExactlyOneOwner(buffers: set<nat>, ops: seq<Op>, b: nat, i: nat, j: nat)
    requires b in buffers && Exec(NewPool(buffers), ops, Next).Reached?
    ensures var p := Exec(NewPool(buffers), ops, Next).s;
            && Valid(p) && b in All(p) && InOnePlace(p, b)
            && (i < j < |p.calls| && Frees(p.calls[i], b) && Frees(p.calls[j], b) ==>
                  exists k :: i < k < j && Gets(p.calls[k], b))
  {
    var z, p := NewPool(buffers), Exec(NewPool(buffers), ops, Next).s;
    RunConserves(z, ops);
    RunFollows(z, ops, b);
    OnePlace(p, b);
    hide Exec, Valid, All;
    assert p.calls[|z.calls|..] == p.calls;
    if i < j < |p.calls| && Frees(p.calls[i], b) && Frees(p.calls[j], b) {
      FreedOnce(PlaceOf(z, b), p.calls, b, i, j);
    }
  }

  // ---------------------------------------------------------------- the code

  /** The program's handles and the C library it calls. */
  class Runtime {
    var pool: Pool

    constructor (pool: Pool)
      ensures this.pool == pool
    {
      this.pool := pool;
    }

    /** `csp_buffer_get`: which buffer, if there is one, is C's choice. */
    method CspBufferGet(answer: Ptr) returns (ptr: Ptr)
      requires if answer.At? then answer.addr in pool.free else pool.free == {}
      modifies this
      ensures ptr == answer
      ensures pool == if answer.Null? then old(pool)
                      else old(pool).(free := old(pool).free - {answer.addr}, loose := old(pool).loose + {answer.addr},
                                      calls := old(pool).calls + [Got(answer.addr)])
    {
      ptr := answer;
      if ptr.At? {
        pool := pool.(free := pool.free - {ptr.addr}, loose := pool.loose + {ptr.addr},
                      calls := pool.calls + [Got(ptr.addr)]);
      }
    }

    /** `csp_buffer_free`: only for a buffer that the program has, and no `Packet` with it. */
    method CspBufferFree(b: nat)
      requires b in pool.loose
      modifies this
      ensures pool == old(pool).(loose := old(pool).loose - {b}, free := old(pool).free + {b},
                                 calls := old(pool).calls + [Freed(b)])
    {
      pool := pool.(loose := pool.loose - {b}, free := pool.free + {b}, calls := pool.calls + [Freed(b)]);
    }

    /** `csp_send`, `csp_service_handler`: C owns the buffer from here on. */
    method CspGive(b: nat)
      requires b in pool.loose
      modifies this
      ensures pool == Do(old(pool), Give(b))
    {
      pool := Do(pool, Give(b));
    }

    /** `csp_read`, `csp_recvfrom`: what comes, or null at the timeout, is C's choice. */
    method CspTake(answer: Ptr) returns (ptr: Ptr)
      requires answer.At? ==> answer.addr in pool.stack
      modifies this
      ensures ptr == answer
      ensures pool == if answer.Null? then old(pool) else Do(old(pool), Take(answer.addr))
    {
      ptr := answer;
      if ptr.At? {
        pool := Do(pool, Take(ptr.addr));
      }
    }

    /** The expression `Packet { inner: ptr }`. */
    method Wrap(ptr: nat) returns (h: nat)
      modifies this
      ensures h == old(pool).next
      ensures pool == old(pool).(loose := old(pool).loose - {ptr}, live := old(pool).live[h := ptr],
                                 next := old(pool).next + 1)
    {
      h := pool.next;
      pool := pool.(loose := pool.loose - {ptr}, live := pool.live[h := ptr], next := pool.next + 1);
    }

    /** `core::mem::forget`: the handle is gone and its destructor does not run. */
    method Forget(h: nat)
      requires h in pool.live
      modifies this
      ensures pool == old(pool).(live := old(pool).live - {h}, loose := old(pool).loose + {old(pool).live[h]})
    {
      pool := pool.(live := pool.live - {h}, loose := pool.loose + {pool.live[h]});
    }

    /** The end of the scope that owns `h`: a handle that is still there is dropped. */
    method ScopeEnd(h: nat)
      requires Valid(pool)
      modifies this
      ensures pool == if h in old(pool).live then Do(old(pool), Drop(h)) else old(pool)
      ensures h in old(pool).live ==>
                && old(pool).live[h] in pool.free && h !in pool.live
                && pool.calls == old(pool).calls + [Freed(old(pool).live[h])]
      ensures Valid(pool)
    {
      if h in pool.live {
        DoKeeps(pool, Drop(h));
        ValuesRemove(pool.live, h);
        var inner := pool.live[h];
        assert inner in pool.live.Values;
        Forget(h);
        CspBufferFree(inner);
        assert old(pool).loose + {inner} - {inner} == old(pool).loose;
      }
    }

    /** `Packet::get`; `None` is a null. */
    method PacketGet(answer: Ptr) returns (h: nat, some: bool)
      requires Valid(pool)
      requires if answer.At? then answer.addr in pool.free else pool.free == {}
      modifies this
      ensures some <==> old(pool).free != {}
      ensures some ==> h == old(pool).next && pool == Do(old(pool), Get(answer.addr))
      ensures some ==>
                && answer.At? && h in pool.live && pool.live[h] == answer.addr && answer.addr !in pool.free
                && pool.calls == old(pool).calls + [Got(answer.addr)]
      ensures !some ==> pool == old(pool)
    {
      h := 0;
      var ptr := CspBufferGet(answer);
      some := ptr.At?;
      if some {
        h := Wrap(ptr.addr);
        assert old(pool).loose + {ptr.addr} - {ptr.addr} == old(pool).loose;
      }
    }

    /** `into_raw`: copy the pointer out, forget the handle, leave its scope. */
    method IntoRawPtr(h: nat) returns (ptr: nat)
      requires Valid(pool) && h in pool.live
      modifies this
      ensures ptr == old(pool).live[h]
      ensures pool == Do(old(pool), IntoRaw(h)) && Valid(pool)
      ensures ptr in pool.loose && h !in pool.live && pool.calls == old(pool).calls && pool.free == old(pool).free
    {
      DoKeeps(pool, IntoRaw(h));
      ptr := pool.live[h];
      Forget(h);
      ScopeEnd(h);
    }

    /** `Connection::send`, `handle_service`: into the hands of C. */
    method Send(h: nat)
      requires Valid(pool) && h in pool.live
      modifies this
      ensures pool == Do(Do(old(pool), IntoRaw(h)), Give(old(pool).live[h])) && Valid(pool)
      ensures h !in pool.live && old(pool).live[h] in pool.stack && pool.free == old(pool).free
      ensures pool.calls == old(pool).calls + [Given(old(pool).live[h])]
    {
      var raw := IntoRawPtr(h);
      DoKeeps(pool, Give(raw));
      CspGive(raw);
    }

    /** `Connection::read`: `None` at the timeout, or the packet that came. */
    method ReadPacket(answer: Ptr) returns (h: nat, some: bool)
      requires Valid(pool) && (answer.At? ==> answer.addr in pool.stack)
      modifies this
      ensures some <==> answer.At?
      ensures some ==> h == old(pool).next && pool == Do(Do(old(pool), Take(answer.addr)), FromRaw(answer.addr))
      ensures some ==>
                && h in pool.live && pool.live[h] == answer.addr && answer.addr !in pool.stack
                && pool.calls == old(pool).calls + [Taken(answer.addr)]
      ensures !some ==> pool == old(pool)
      ensures Valid(pool)
    {
      h := 0;
      var ptr := CspTake(answer);
      some := ptr.At?;
      if some {
        DoKeeps(old(pool), Take(ptr.addr));
        DoKeeps(pool, FromRaw(ptr.addr));
        h := Wrap(ptr.addr);
      }
    }

    /** What a handler, and everyone else meanwhile, does. */
    method Happen(ops: seq<Op>)
      requires Valid(pool) && Exec(pool, ops, Next).Reached?
      modifies this
      ensures Reached(pool) == Exec(old(pool), ops, Next) && Valid(pool)
    {
      RunConserves(pool, ops);
      pool := Exec(pool, ops, Next).s;
    }
  }
}
