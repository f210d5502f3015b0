/** Binary semaphores. The abstract semaphore and what locking with it guarantees; the embassy
    back-end's atomic flag and the macOS mutex-and-condvar version both refine it in every
    interleaving. */
module Semaphore {

  /** A completed operation, logged at the step that takes effect. */
  datatype Event = Took(t: nat) | Posted(t: nat)

  datatype Result = Illegal | Value(v: nat)

  /** One operation of a binary semaphore: taking needs it posted, posting twice is posting once. */
  function Apply(v: nat, e: Event): Result {
    match e
    case Took(_) => if v == 0 then Illegal else Value(v - 1)
    case Posted(_) => Value(1)
  }

  function Replay(v: nat, log: seq<Event>): Result {
    if log == [] then Value(v)
    else
      var n := |log| - 1;
      match Replay(v, log[..n])
      case Illegal => Illegal
      case Value(w) => Apply(w, log[n])
  }

  /** In numbers: only a posted semaphore can be taken, and a post makes it one, not two. */
  lemma ApplyIs(t: nat)
    ensures Apply(0, Took(t)) == Illegal && Apply(1, Took(t)) == Value(0)
    ensures Apply(0, Posted(t)) == Value(1) && Apply(1, Posted(t)) == Value(1)
  {
  }

  lemma ReplaySnoc(v: nat, log: seq<Event>, e: Event)
    ensures Replay(v, log + [e]) ==
            match Replay(v, log) case Illegal => Illegal case Value(w) => Apply(w, e)
  {
    assert (log + [e])[..|log|] == log;
  }

  lemma {:induction false} PrefixLegal(v: nat, log: seq<Event>, n: nat)
    requires n <= |log| && Replay(v, log).Value?
    ensures Replay(v, log[..n]).Value?
  {
    if n < |log| {
      assert log[..|log| - 1][..n] == log[..n];
      PrefixLegal(v, log[..|log| - 1], n);
    } else {
      assert log[..n] == log;
    }
  }

  /** The value never exceeds one, and right after a take it stays zero until the next post. */
  lemma {:induction false} ZeroUntilPost(v: nat, log: seq<Event>, i: nat)
    requires v <= 1 && Replay(v, log).Value?
    requires i < |log| && log[i].Took? && forall k :: i < k < |log| ==> log[k].Took?
    ensures i == |log| - 1 && Replay(v, log) == Value(0)
  {
    var n := |log| - 1;
    AtMostOne(v, log[..n]);
    if i < n {
      ZeroUntilPost(v, log[..n], i);
      assert false;
    }
  }

  lemma {:induction false} AtMostOne(v: nat, log: seq<Event>)
    requires v <= 1
    ensures Replay(v, log).Value? ==> Replay(v, log).v <= 1
  {
    if log != [] {
      AtMostOne(v, log[..|log| - 1]);
    }
  }

  /** Two successful waits always have a post between them. */
  lemma PostBetweenTakes(v: nat, log: seq<Event>, i: nat, j: nat)
    requires v <= 1 && Replay(v, log).Value?
    requires i < j < |log| && log[i].Took? && log[j].Took?
    ensures exists k :: i < k < j && log[k].Posted?
  {
    if forall k :: i < k < j ==> !log[k].Posted? {
      PrefixLegal(v, log, j + 1);
      var cut := log[..j + 1];
      assert cut[i] == log[i] && forall k :: i < k < |cut| ==> cut[k].Took?;
      ZeroUntilPost(v, cut, i);
      assert false;
    }
  }

  // ---------------------------------------------------------------- used as a lock

  /** Who has taken the semaphore and not yet posted it. */
  function Holders(log: seq<Event>): set<nat> {
    if log == [] then {}
    else
      var rest := Holders(log[..|log| - 1]);
      match log[|log| - 1]
      case Took(t) => rest + {t}
      case Posted(t) => rest - {t}
  }

  /** Lock discipline: only a holder posts. */
  ghost predicate Disciplined(log: seq<Event>) {
    forall k :: 0 <= k < |log| && log[k].Posted? ==> log[k].t in Holders(log[..k])
  }

  /** Whoever keeps to it may go on: anyone may take, and a holder may post. */
  lemma DisciplinedSnoc(log: seq<Event>, t: nat)
    ensures Disciplined([]) && Holders([]) == {}
    ensures Holders(log + [Took(t)]) == Holders(log) + {t} && Holders(log + [Posted(t)]) == Holders(log) - {t}
    ensures Disciplined(log) ==> Disciplined(log + [Took(t)])
    ensures Disciplined(log) && t in Holders(log) ==> Disciplined(log + [Posted(t)])
  {
    forall e: Event, k | 0 <= k <= |log|
      ensures (log + [e])[..k] == log[..k]
    {
    }
    assert log[..|log|] == log;
  }

  /** Mutual exclusion: a disciplined log of a semaphore that starts posted never has two
      holders, and someone holds it exactly while its value is zero. */
  lemma {:induction false} AtMostOneHolder(log: seq<Event>)
    requires Replay(1, log).Value? && Disciplined(log)
    ensures |Holders(log)| <= 1
    ensures Replay(1, log) == Value(0) <==> |Holders(log)| == 1
    ensures Replay(1, log).v <= 1
  {
    if log != [] {
      var n := |log| - 1;
      var rest := log[..n];
      assert forall k :: 0 <= k < n ==> rest[k] == log[k] && rest[..k] == log[..k];
      AtMostOneHolder(rest);
      var h := Holders(rest);
      match log[n]
      case Took(t) =>
        assert h == {} && h + {t} == {t};
      case Posted(t) =>
        assert t in Holders(log[..n]);
        OnlyElement(h, t);
        assert h - {t} == {};
    }
  }

  lemma OnlyElement(h: set<nat>, t: nat)
    requires t in h && |h| <= 1
    ensures h == {t}
  {
    assert |h - {t}| == |h| - 1;
  }

  // ---------------------------------------------------------------- creation

  /** What `bin_sem_create` returns and what a post does, by back-end. */
  datatype Backend = Embassy | MacOs | Linux

  function Created(b: Backend): nat {
    if b.Embassy? then 0 else 1
  }

  function AfterPost(b: Backend, v: nat): nat {
    match b
    case Embassy => 1
    case MacOs => if v == 0 then 1 else v
    case Linux => v + 1
  }

  /** `csp_bin_sem_init`: create, then post once. */
  function Initialised(b: Backend): nat {
    AfterPost(b, Created(b))
  }

  /** In numbers: what each back-end creates, and what a first and a second post make of it. */
  lemma CreationInNumbers()
    ensures Created(Embassy) == 0 && Created(MacOs) == 1 && Created(Linux) == 1
    ensures AfterPost(Embassy, 0) == 1 && AfterPost(MacOs, 0) == 1 && AfterPost(Linux, 0) == 1
    ensures AfterPost(Embassy, 1) == 1 && AfterPost(MacOs, 1) == 1 && AfterPost(Linux, 1) == 2
    ensures Initialised(Embassy) == 1 && Initialised(MacOs) == 1 && Initialised(Linux) == 2
  {
  }

  /** `csp_bin_sem_init` starts the semaphore unlocked and binary on every back-end but the
      POSIX one, whose `create` is already posted: there two waits succeed before any post. */
  lemma InitIsBinary(b: Backend)
    ensures Initialised(b) == 1 <==> b != Linux
    ensures Replay(Initialised(b), [Took(0), Took(1)]).Value? <==> b == Linux
  {
    var v := Initialised(b);
    ReplaySnoc(v, [], Took(0));
    ReplaySnoc(v, [Took(0)], Took(1));
    assert [] + [Took(0)] == [Took(0)] && [Took(0)] + [Took(1)] == [Took(0), Took(1)];
  }
}
